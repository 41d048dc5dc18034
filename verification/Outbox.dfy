/** The durable queue of internal/platformdb/outbox.go and the delivery pass of
  cmd/server/outbox.go, run by one process.  Times are microseconds, the
  resolution of the database's timestamps. */
module Outbox {
  import opened Words
  import opened Wrappers

  const SECOND := 1_000_000
  const MAX_ATTEMPTS := 12
  const DEFAULT_BATCH := 50
  const REASON_LIMIT := 300

  /** What a claim hands to the publisher. */
  datatype Event = Event(id: string, subject: string, payload: string, occurredAt: int, attempts: nat)

  datatype Row = Row(
    subject: string,
    payload: string,
    occurredAt: int,
    attempts: nat,
    nextAttemptAt: int,
    deliveredAt: Option<int>,
    failedAt: Option<int>,
    lastError: Option<string>)

  type Table = map<string, Row>

  function Least(a: int, b: int): int {
    if a < b then a else b
  }

  /** The wait scheduled by a claim that found `attempts` earlier ones. */
  function Backoff(attempts: nat): (wait: nat)
    ensures SECOND <= wait <= 256 * SECOND
  {
    SECOND * Least(Pow2(Least(attempts, 8)), 256)
  }

  /** 1, 2, 4 … seconds: doubling up to 256 and constant from there. */
  lemma BackoffDoublesThenCaps(attempts: nat)
    ensures Backoff(0) == SECOND
    ensures Backoff(attempts + 1) == if attempts < 8 then 2 * Backoff(attempts) else Backoff(attempts)
    ensures attempts >= 8 ==> Backoff(attempts) == 256 * SECOND
  {
    Pow2Grows(Least(attempts, 8), 8);
    assert Pow2(8) == 256 by {
      assert Pow2(4) == 16;
    }
    if attempts < 8 {
      Pow2Grows(attempts + 1, 8);
    }
  }

  lemma {:induction false} Pow2Grows(m: nat, n: nat)
    requires m <= n
    ensures Pow2(m) <= Pow2(n)
  {
    if m < n {
      Pow2Grows(m, n - 1);
    }
  }

  // -------------------------------------------------- the statements, by row

  function QueuedRow(subject: string, payload: string, occurredAt: int, queuedAt: int): Row {
    Row(subject, payload, occurredAt, 0, queuedAt, None, None, None)
  }

  predicate Due(row: Row, now: int) {
    row.deliveredAt.None? && row.failedAt.None? && row.nextAttemptAt <= now
  }

  /** One UPDATE: every right-hand side reads the old `attempts`. */
  function ClaimedRow(row: Row, now: int): Row {
    row.(
      attempts := row.attempts + 1,
      nextAttemptAt := now + Backoff(row.attempts),
      failedAt := if row.attempts + 1 >= MAX_ATTEMPTS then Some(now) else None)
  }

  function DeliveredRow(row: Row, at: int): Row {
    if row.deliveredAt.Some? then row else row.(deliveredAt := Some(at), lastError := None)
  }

  function Clipped(reason: string): string {
    if |reason| > REASON_LIMIT then reason[..REASON_LIMIT] else reason
  }

  function FailedAttemptRow(row: Row, reason: string): Row {
    if row.deliveredAt.Some? then row else row.(lastError := Some(Clipped(reason)))
  }

  function ClaimAll(rows: Table, ids: seq<string>, now: int): Table {
    map id | id in rows :: if id in ids then ClaimedRow(rows[id], now) else rows[id]
  }

  ghost predicate Distinct(ids: seq<string>) {
    forall i, j :: 0 <= i < j < |ids| ==> ids[i] != ids[j]
  }

  /** What the claiming query may return: distinct due rows nobody else has
    locked, oldest first, and all of them when they fit. */
  ghost predicate IsSelection(rows: Table, locked: set<string>, limit: nat, now: int, ids: seq<string>) {
    && |ids| <= limit
    && Distinct(ids)
    && (forall i :: 0 <= i < |ids| ==> ids[i] in rows && ids[i] !in locked && Due(rows[ids[i]], now))
    && (forall i, j :: 0 <= i < j < |ids| ==> rows[ids[i]].occurredAt <= rows[ids[j]].occurredAt)
    && (forall id :: id in rows && id !in locked && Due(rows[id], now) && id !in ids ==>
          |ids| == limit && forall i :: 0 <= i < |ids| ==> rows[ids[i]].occurredAt <= rows[id].occurredAt)
  }

  function Ids(events: seq<Event>): (ids: seq<string>)
    ensures |ids| == |events|
  {
    seq(|events|, i requires 0 <= i < |events| => events[i].id)
  }

  function Batch(limit: int): (n: nat)
    ensures n > 0
  {
    if limit <= 0 then DEFAULT_BATCH else limit
  }

  // ------------------------------------------------------------ the delivery

  /** What became of one claimed event: the broker's answer, and what came of the
    statement recording it. */
  datatype Outcome =
    | Acknowledged(at: int, effect: Effect)
    | Refused(reason: string, effect: Effect)

  /** A statement that fails may have been applied all the same. */
  datatype Effect = Recorded | RecordedUnknown | NotRecorded

  function SettledRow(row: Row, outcome: Outcome): Row {
    match outcome
    case Acknowledged(at, _) => DeliveredRow(row, at)
    case Refused(reason, _) => FailedAttemptRow(row, reason)
  }

  /** How many events the pass settles before a statement fails and ends it. */
  function Settled(outcomes: seq<Outcome>): (n: nat)
    ensures n <= |outcomes|
    ensures forall i :: 0 <= i < n ==> outcomes[i].effect == Recorded
    ensures n < |outcomes| ==> outcomes[n].effect != Recorded
  {
    if outcomes == [] || outcomes[0].effect != Recorded then 0 else 1 + Settled(outcomes[1..])
  }

  function Acknowledgements(outcomes: seq<Outcome>): nat {
    if outcomes == [] then 0
    else Acknowledgements(outcomes[..|outcomes| - 1]) + (if outcomes[|outcomes| - 1].Acknowledged? then 1 else 0)
  }

  lemma {:induction false} SettledExactly(outcomes: seq<Outcome>, n: nat)
    requires n <= |outcomes|
    requires forall i :: 0 <= i < n ==> outcomes[i].effect == Recorded
    requires n < |outcomes| ==> outcomes[n].effect != Recorded
    ensures Settled(outcomes) == n
  {
  }

  /** What comes of publishing a payload on a subject under a message id. */
  type Publisher = (string, string, string) -> Outcome

  function Answers(events: seq<Event>, publish: Publisher): (outcomes: seq<Outcome>)
    ensures |outcomes| == |events|
  {
    seq(|events|, i requires 0 <= i < |events| => publish(events[i].subject, events[i].id, events[i].payload))
  }

  /** What a pass that settled the first `n` of its claims did to the table; the
    statement that ended it, if any, may or may not have been applied. */
  ghost predicate PassedOver(before: Table, after: Table, now: int, ids: seq<string>, outcomes: seq<Outcome>, n: nat, stopped: bool)
    requires |outcomes| == |ids|
  {
    && n <= |ids|
    && after.Keys == before.Keys
    && (forall i :: 0 <= i < |ids| ==> ids[i] in before)
    && (forall i :: 0 <= i < n ==> after[ids[i]] == SettledRow(ClaimedRow(before[ids[i]], now), outcomes[i]))
    && (forall i :: n < i < |ids| ==> after[ids[i]] == ClaimedRow(before[ids[i]], now))
    && (n < |ids| ==>
          var claimed := ClaimedRow(before[ids[n]], now);
          after[ids[n]] == if stopped && outcomes[n].effect == RecordedUnknown then SettledRow(claimed, outcomes[n]) else claimed)
    && (forall id :: id in before && id !in ids ==> after[id] == before[id])
  }

  /** The next event marked, or the pass ended by its statement. */
  lemma PassGrows(before: Table, after: Table, next: Table, now: int, ids: seq<string>, outcomes: seq<Outcome>, n: nat)
    requires |outcomes| == |ids| && n < |ids| && Distinct(ids)
    requires PassedOver(before, after, now, ids, outcomes, n, false) && ids[n] in after
    requires next == if outcomes[n].effect == NotRecorded then after else after[ids[n] := SettledRow(after[ids[n]], outcomes[n])]
    ensures if outcomes[n].effect == Recorded then PassedOver(before, next, now, ids, outcomes, n + 1, false)
            else PassedOver(before, next, now, ids, outcomes, n, true)
  {
    hide ClaimedRow, SettledRow;
  }

  lemma PassEnds(before: Table, after: Table, now: int, ids: seq<string>, outcomes: seq<Outcome>)
    requires |outcomes| == |ids| && PassedOver(before, after, now, ids, outcomes, |ids|, false)
    ensures PassedOver(before, after, now, ids, outcomes, |ids|, true)
  {
  }

  /** What a settled event's row says: the attempt is counted, the content is the
    one queued, and the verdict is the broker's own answer. */
  lemma PassSettles(before: Table, after: Table, now: int, ids: seq<string>, outcomes: seq<Outcome>, n: nat, stopped: bool, i: nat)
    requires |outcomes| == |ids| && PassedOver(before, after, now, ids, outcomes, n, stopped)
    requires i < n && Due(before[ids[i]], now)
    ensures ids[i] in after
    ensures var row, settled := before[ids[i]], after[ids[i]];
            && settled.attempts == row.attempts + 1
            && settled.subject == row.subject && settled.payload == row.payload && settled.occurredAt == row.occurredAt
            && match outcomes[i]
               case Acknowledged(at, _) => settled.deliveredAt == Some(at) && settled.lastError == None
               case Refused(reason, _) =>
                 && settled.deliveredAt == None && settled.lastError.Some?
                 && settled.lastError.value <= reason && |settled.lastError.value| == if |reason| <= 300 then |reason| else 300
  {
    hide Backoff;
  }

  lemma {:induction false} AcknowledgementsCount(outcomes: seq<Outcome>)
    ensures Acknowledgements(outcomes) == |set i | 0 <= i < |outcomes| && outcomes[i].Acknowledged?|
  {
    var all := set i | 0 <= i < |outcomes| && outcomes[i].Acknowledged?;
    if outcomes == [] {
      assert all == {};
    } else {
      var last, before := |outcomes| - 1, outcomes[..|outcomes| - 1];
      AcknowledgementsCount(before);
      assert all == (set i | 0 <= i < |before| && before[i].Acknowledged?) + if outcomes[last].Acknowledged? then {last} else {};
    }
  }

  lemma AcknowledgementsGrow(outcomes: seq<Outcome>, n: nat)
    requires n < |outcomes|
    ensures Acknowledgements(outcomes[..n + 1]) ==
            Acknowledgements(outcomes[..n]) + (if outcomes[n].Acknowledged? then 1 else 0)
  {
    assert outcomes[..n + 1][..n] == outcomes[..n];
  }

  class Store {
    var rows: Table

    constructor ()
      ensures rows == map[]
    {
      rows := map[];
    }

    /** A repeated id is accepted and changes nothing. */
    method EnqueueEvent(event: Event, occurredAt: Option<int>, now: int, databaseNow: int) returns (ok: bool)
      modifies this
      ensures ok <==> event.id != "" && event.subject != ""
      ensures !ok || event.id in old(rows) ==> rows == old(rows)
      ensures ok && event.id !in old(rows) ==>
                && event.id in rows && rows == old(rows)[event.id := rows[event.id]]
                && var row := rows[event.id];
                   && row.subject == event.subject && row.payload == event.payload
                   && row.occurredAt == (if occurredAt.Some? then occurredAt.value else now)
                   && row.attempts == 0 && row.nextAttemptAt == databaseNow
                   && row.deliveredAt == None && row.failedAt == None && row.lastError == None
    {
      if event.id == "" || event.subject == "" {
        return false;
      }
      var occurred := now;
      if occurredAt.Some? {
        occurred := occurredAt.value;
      }
      if event.id !in rows {
        rows := rows[event.id := QueuedRow(event.subject, event.payload, occurred, databaseNow)];
      }
      return true;
    }

    /** The row with the smallest `occurredAt`. */
    method Oldest(ids: set<string>) returns (oldest: string)
      requires ids != {} && ids <= rows.Keys
      ensures oldest in ids && forall id :: id in ids ==> rows[oldest].occurredAt <= rows[id].occurredAt
    {
      oldest :| oldest in ids;
      var left := ids - {oldest};
      while left != {}
        invariant left <= ids && oldest in ids
        invariant forall id :: id in ids && id !in left ==> rows[oldest].occurredAt <= rows[id].occurredAt
      {
        var id :| id in left;
        if rows[id].occurredAt < rows[oldest].occurredAt {
          oldest := id;
        }
        left := left - {id};
      }
    }

    /** `locked` are the rows other transactions hold. */
    method SelectDue(limit: nat, now: int, locked: set<string>) returns (ids: seq<string>)
      ensures IsSelection(rows, locked, limit, now, ids)
    {
      hide Due;
      ids := [];
      var left := set id | id in rows && id !in locked && Due(rows[id], now);
      while left != {} && |ids| < limit
        invariant left <= rows.Keys
        invariant forall id :: id in left <==> id in rows && id !in locked && Due(rows[id], now) && id !in ids
        invariant |ids| <= limit
        invariant Distinct(ids)
        invariant forall i :: 0 <= i < |ids| ==> ids[i] in rows && ids[i] !in locked && Due(rows[ids[i]], now)
        invariant forall i, j :: 0 <= i < j < |ids| ==> rows[ids[i]].occurredAt <= rows[ids[j]].occurredAt
        invariant forall i, id :: 0 <= i < |ids| && id in left ==> rows[ids[i]].occurredAt <= rows[id].occurredAt
        decreases left
      {
        var id := Oldest(left);
        ids, left := ids + [id], left - {id};
      }
    }

    /** Claims a batch and schedules its next attempt before handing it out. */
    method ClaimDueEvents(limit: int, now: int, locked: set<string>) returns (claimed: seq<Event>)
      modifies this
      ensures IsSelection(old(rows), locked, Batch(limit), now, Ids(claimed))
      ensures rows == ClaimAll(old(rows), Ids(claimed), now)
      ensures rows.Keys == old(rows).Keys
      ensures forall id :: id in old(rows) ==>
                rows[id] ==
                if id !in Ids(claimed) then old(rows)[id]
                else
                  old(rows)[id].(
                    attempts := old(rows)[id].attempts + 1,
                    nextAttemptAt := now + Backoff(old(rows)[id].attempts),
                    failedAt := if old(rows)[id].attempts + 1 >= 12 then Some(now) else None)
      ensures forall i {:trigger claimed[i]} :: 0 <= i < |claimed| ==>
                var event := claimed[i];
                && event.id in old(rows)
                && event.subject == old(rows)[event.id].subject && event.payload == old(rows)[event.id].payload
                && event.occurredAt == old(rows)[event.id].occurredAt
                && event.attempts == old(rows)[event.id].attempts + 1
    {
      var n := limit;
      if n <= 0 {
        n := DEFAULT_BATCH;
      }
      var ids := SelectDue(n, now, locked);
      claimed := [];
      for i := 0 to |ids|
        invariant |claimed| == i
        invariant forall k :: 0 <= k < i ==>
          var row := rows[ids[k]];
          claimed[k] == Event(ids[k], row.subject, row.payload, row.occurredAt, row.attempts)
      {
        var row := rows[ids[i]];
        claimed := claimed + [Event(ids[i], row.subject, row.payload, row.occurredAt, row.attempts)];
      }
      assert Ids(claimed) == ids;
      if |claimed| == 0 {
        assert rows == ClaimAll(rows, ids, now);
        return;
      }
      ghost var selected := claimed;
      for i := 0 to |claimed|
        invariant |claimed| == |selected|
        invariant forall k :: 0 <= k < |claimed| ==>
          claimed[k] == if k < i then selected[k].(attempts := selected[k].attempts + 1) else selected[k]
      {
        claimed := claimed[i := claimed[i].(attempts := claimed[i].attempts + 1)];
      }
      assert Ids(claimed) == ids;
      rows := ClaimAll(rows, ids, now);
    }

    method MarkDelivered(id: string, at: int)
      modifies this
      ensures rows == if id in old(rows) then old(rows)[id := DeliveredRow(old(rows)[id], at)] else old(rows)
      ensures id in old(rows) && old(rows)[id].deliveredAt == None ==>
                rows == old(rows)[id := old(rows)[id].(deliveredAt := Some(at), lastError := None)]
      ensures id in old(rows) && old(rows)[id].deliveredAt != None ==> rows == old(rows)
    {
      if id in rows && rows[id].deliveredAt.None? {
        rows := rows[id := rows[id].(deliveredAt := Some(at), lastError := None)];
      }
    }

    /** Records a reason and nothing else: whatever its comment promises, the
      failure verdict stays. */
    method MarkAttemptFailed(id: string, reason: string)
      modifies this
      ensures rows == if id in old(rows) then old(rows)[id := FailedAttemptRow(old(rows)[id], reason)] else old(rows)
      ensures id in old(rows) && old(rows)[id].deliveredAt == None ==>
                && rows[id].lastError.Some? && rows == old(rows)[id := old(rows)[id].(lastError := rows[id].lastError)]
                && rows[id].lastError.value <= reason && |rows[id].lastError.value| == if |reason| <= 300 then |reason| else 300
      ensures id in old(rows) && old(rows)[id].deliveredAt != None ==> rows == old(rows)
    {
      var clipped := reason;
      if |clipped| > REASON_LIMIT {
        clipped := clipped[..REASON_LIMIT];
      }
      if id in rows && rows[id].deliveredAt.None? {
        rows := rows[id := rows[id].(lastError := Some(clipped))];
      }
    }

    /** The statement that records what became of an event, if it is applied. */
    method MarkOutcome(id: string, outcome: Outcome)
      requires id in rows
      modifies this
      ensures rows == if outcome.effect == NotRecorded then old(rows) else old(rows)[id := SettledRow(old(rows)[id], outcome)]
    {
      if outcome.effect == NotRecorded {
        return;
      }
      hide DeliveredRow, FailedAttemptRow;
      if outcome.Refused? {
        MarkAttemptFailed(id, outcome.reason);
      } else {
        MarkDelivered(id, outcome.at);
      }
    }

    /** One pass: every claimed event up to the first failing statement is
      published as it was queued and settled by its own answer, the rest only
      claimed. */
    method DeliverOutbox(now: int, locked: set<string>, publish: Publisher)
      returns (delivered: nat, ok: bool, ghost ids: seq<string>, ghost outcomes: seq<Outcome>)
      modifies this
      ensures IsSelection(old(rows), locked, DEFAULT_BATCH, now, ids) && |outcomes| == |ids|
      ensures forall i :: 0 <= i < |ids| ==>
                outcomes[i] == publish(old(rows)[ids[i]].subject, ids[i], old(rows)[ids[i]].payload)
      ensures var n := Settled(outcomes);
              && (ok <==> n == |ids|)
              && delivered == Acknowledgements(outcomes[..n])
              && PassedOver(old(rows), rows, now, ids, outcomes, n, true)
    {
      var claimed := ClaimDueEvents(DEFAULT_BATCH, now, locked);
      ids, outcomes := Ids(claimed), Answers(claimed, publish);
      ghost var before := old(rows);
      assert Distinct(ids);
      hide *;
      forall i | 0 <= i < |ids|
        ensures ids[i] == claimed[i].id
        ensures outcomes[i] == publish(before[ids[i]].subject, ids[i], before[ids[i]].payload)
      {
        var _ := claimed[i];
      }
      delivered := 0;
      for i := 0 to |claimed|
        invariant PassedOver(before, rows, now, ids, outcomes, i, false)
        invariant delivered == Acknowledgements(outcomes[..i])
        invariant forall k :: 0 <= k < i ==> outcomes[k].effect == Recorded
      {
        var outcome := publish(claimed[i].subject, claimed[i].id, claimed[i].payload);
        assert outcome == outcomes[i] && claimed[i].id == ids[i];
        AcknowledgementsGrow(outcomes, i);
        ghost var unmarked := rows;
        MarkOutcome(claimed[i].id, outcome);
        PassGrows(before, unmarked, rows, now, ids, outcomes, i);
        if outcome.effect != Recorded {
          SettledExactly(outcomes, i);
          ok := false;
          return;
        }
        if outcome.Acknowledged? {
          delivered := delivered + 1;
        }
      }
      SettledExactly(outcomes, |ids|);
      PassEnds(before, rows, now, ids, outcomes);
      ok := true;
    }
  }

  // -------------------------------------------------- selections always exist

  lemma {:induction false} OldestExists(rows: Table, ids: set<string>) returns (oldest: string)
    requires ids != {} && ids <= rows.Keys
    ensures oldest in ids && forall id :: id in ids ==> rows[oldest].occurredAt <= rows[id].occurredAt
  {
    oldest := Pick(ids);
    var rest := ids - {oldest};
    assert forall id :: id in ids <==> id == oldest || id in rest;
    if rest != {} {
      var other := OldestExists(rows, rest);
      if rows[other].occurredAt < rows[oldest].occurredAt {
        oldest := other;
      }
    }
  }

  /** Whatever the clock, the limit and the locks, the query has an answer. */
  lemma {:induction false} SelectionExists(rows: Table, locked: set<string>, limit: nat, now: int) returns (ids: seq<string>)
    ensures IsSelection(rows, locked, limit, now, ids)
    decreases limit
  {
    if limit == 0 {
      ids := [];
    } else {
      ids := SelectionExists(rows, locked, limit - 1, now);
      var left := set id | id in rows && id !in locked && Due(rows[id], now) && id !in ids;
      if left != {} {
        var id := OldestExists(rows, left);
        assert id in rows && id !in locked && Due(rows[id], now) && id !in ids;
        ids := ids + [id];
      } else {
        assert forall id :: id in rows && id !in locked && Due(rows[id], now) ==> id in left || id in ids;
      }
    }
  }
}
