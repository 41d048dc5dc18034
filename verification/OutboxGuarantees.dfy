/** What holds of the outbox after any interleaving of its writers. */
module OutboxGuarantees {
  import opened Wrappers
  import opened Outbox
  import opened OutboxRuns

  // ---------------------------------------------------------------- delivery

  /** A row is marked delivered only once the broker has acknowledged it. */
  lemma DeliveredWasAcknowledged(w: World, id: string)
    requires Reachable(w) && id in w.rows && w.rows[id].deliveredAt.Some?
    ensures id in w.acked && id in w.stored
  {
    ReachableInv(w);
  }

  /** Delivery is final: later steps neither change the mark nor claim again. */
  lemma {:induction false} DeliveryIsFinal(w: World, steps: seq<Step>, t: World, id: string)
    requires Inv(w) && id in w.rows && w.rows[id].deliveredAt.Some?
    requires After(w, steps) == Some(t)
    ensures id in t.rows && t.rows[id].deliveredAt == w.rows[id].deliveredAt
    ensures t.rows[id].attempts == w.rows[id].attempts && ClaimsOf(t.claims, id) == ClaimsOf(w.claims, id)
    decreases |steps|
  {
    hide Inv, CanStep, Next, ClaimsOf;
    if steps != [] {
      StepKeepsInv(w, steps[0]);
      StepKeepsDelivery(w, steps[0], id);
      DeliveryIsFinal(Next(w, steps[0]), steps[1..], t, id);
    }
  }

  lemma StepKeepsDelivery(w: World, step: Step, id: string)
    requires Inv(w) && CanStep(w, step) && id in w.rows && w.rows[id].deliveredAt.Some?
    ensures var t := Next(w, step);
            && id in t.rows && t.rows[id].deliveredAt == w.rows[id].deliveredAt
            && t.rows[id].attempts == w.rows[id].attempts
            && ClaimsOf(t.claims, id) == ClaimsOf(w.claims, id)
  {
    hide ClaimsOf, Sendings, Deliveries, Ledger, IsSelection, ClaimedRow;
    match step
    case CommitClaim(p, _) =>
      var batch, ids := ClaimsFor(w.procs[p].picks, p, w.procs[p].now), PickIds(w.procs[p].picks);
      assert Holds(w, p, w.procs[p].now, w.procs[p].picks);
      forall i | 0 <= i < |ids|
        ensures ids[i] != id && batch[i].id == ids[i]
      {
        assert Due(w.rows[w.procs[p].picks[i].id], w.procs[p].now);
      }
      NoClaimsYet(batch, id);
      ClaimsOfJoined(w.claims, batch, id);
      assert ClaimsOf(w.claims, id) + [] == ClaimsOf(w.claims, id);
    case _ =>
  }

  // ------------------------------------------------------------- the attempts

  /** A claim is the one its attempt number says among the claims of its row. */
  lemma ClaimIsNumbered(w: World, i: nat)
    requires Reachable(w) && i < |w.claims|
    ensures var c := w.claims[i];
            var cs := ClaimsOf(w.claims, c.id);
            && c.id in w.rows && Agrees(w.rows[c.id], cs)
            && 1 <= c.attempt <= |cs| == w.rows[c.id].attempts <= MAX_ATTEMPTS
            && cs[c.attempt - 1] == c
            && c.attempt == |ClaimsOf(w.claims[..i], c.id)| + 1
  {
    ReachableInv(w);
    hide Locking, Deliveries, Sendings, ClaimsOf, Backoff;
    var id := w.claims[i].id;
    assert Agrees(w.rows[id], ClaimsOf(w.claims, id));
    ClaimsOfKeepsOrder(w.claims, id, i);
    AttemptInRange(w, i);
  }

  /** Attempt numbers of an event rise along the log, so no two claims, and no
    two processes, are ever given the same one; none is past the budget. */
  lemma EachAttemptHasOneOwner(w: World, i: nat, j: nat)
    requires Reachable(w) && i < j < |w.claims| && w.claims[i].id == w.claims[j].id
    ensures 1 <= w.claims[i].attempt < w.claims[j].attempt <= MAX_ATTEMPTS
  {
    hide *;
    var id := w.claims[i].id;
    ClaimIsNumbered(w, i);
    ClaimIsNumbered(w, j);
    assert w.claims[..j] == w.claims[..i] + w.claims[i..j];
    ClaimsOfJoined(w.claims[..i], w.claims[i..j], id);
    ClaimsOfKeepsOrder(w.claims[i..j], id, 0);
  }

  function AttemptsSent(sent: seq<Sending>, id: string): seq<nat> {
    if sent == [] then []
    else
      AttemptsSent(sent[..|sent| - 1], id) +
      (if sent[|sent| - 1].job.id == id then [sent[|sent| - 1].job.attempt] else [])
  }

  lemma OneOwner(w: World, j: Job, k: Job, p: nat, q: nat)
    requires Reachable(w) && Handed(w.claims, j, p) && Handed(w.claims, k, q)
    requires j.id == k.id && j.attempt == k.attempt
    ensures p == q
  {
    hide Reachable;
    var a :| 0 <= a < |w.claims| && w.claims[a].id == j.id && w.claims[a].attempt == j.attempt && w.claims[a].proc == p;
    var b :| 0 <= b < |w.claims| && w.claims[b].id == k.id && w.claims[b].attempt == k.attempt && w.claims[b].proc == q;
    if a < b {
      EachAttemptHasOneOwner(w, a, b);
    } else if b < a {
      EachAttemptHasOneOwner(w, b, a);
    }
  }

  /** Only the process given an attempt publishes it, and at most once. */
  lemma EachAttemptIsSentOnce(w: World, k: nat, l: nat)
    requires Reachable(w) && k < l < |w.sent|
    ensures w.sent[k].job.id != w.sent[l].job.id || w.sent[k].job.attempt != w.sent[l].job.attempt
    ensures Handed(w.claims, w.sent[k].job, w.sent[k].proc)
  {
    ReachableInv(w);
    hide Reachable, Ledger, Locking, Deliveries, Working, Handed;
    var a, b := w.sent[k].job, w.sent[l].job;
    if a.id == b.id && a.attempt == b.attempt {
      OneOwner(w, a, b, w.sent[k].proc, w.sent[l].proc);
      SameMessage(w, a, b);
    }
  }

  lemma SentWasHanded(w: World, k: nat)
    requires Reachable(w) && k < |w.sent|
    ensures var job := w.sent[k].job;
            job.id in w.rows && 1 <= job.attempt <= w.rows[job.id].attempts
  {
    ReachableInv(w);
    hide Reachable, Ledger, Locking, Deliveries, Working, Agrees;
    var job, p := w.sent[k].job, w.sent[k].proc;
    assert Handed(w.claims, job, p);
    var a :| 0 <= a < |w.claims| && w.claims[a].id == job.id && w.claims[a].attempt == job.attempt && w.claims[a].proc == p;
    ClaimIsNumbered(w, a);
  }

  lemma {:induction false} AttemptsSentAre(sent: seq<Sending>, id: string, n: nat)
    requires forall k :: 0 <= k < |sent| && sent[k].job.id == id ==> 1 <= sent[k].job.attempt <= n
    requires forall k, l :: 0 <= k < l < |sent| ==> sent[k].job.id != sent[l].job.id || sent[k].job.attempt != sent[l].job.attempt
    ensures forall a :: a in AttemptsSent(sent, id) ==>
              1 <= a <= n && exists k :: 0 <= k < |sent| && sent[k].job.id == id && sent[k].job.attempt == a
    ensures forall k, l :: 0 <= k < l < |AttemptsSent(sent, id)| ==> AttemptsSent(sent, id)[k] != AttemptsSent(sent, id)[l]
  {
    if sent != [] {
      var before := sent[..|sent| - 1];
      AttemptsSentAre(before, id, n);
      var last, earlier := sent[|sent| - 1].job, AttemptsSent(before, id);
      forall m | 0 <= m < |earlier|
        ensures earlier[m] != last.attempt || last.id != id
        ensures exists k :: 0 <= k < |sent| && sent[k].job.id == id && sent[k].job.attempt == earlier[m]
      {
        assert earlier[m] in earlier;
        var k :| 0 <= k < |before| && before[k].job.id == id && before[k].job.attempt == earlier[m];
        assert sent[k].job.id == id && sent[k].job.attempt == earlier[m];
      }
    }
  }

  lemma {:induction false} DistinctFit(s: seq<nat>, n: nat)
    requires forall a :: a in s ==> 1 <= a <= n
    requires forall k, l :: 0 <= k < l < |s| ==> s[k] != s[l]
    ensures |s| <= n
  {
    if s != [] {
      assert s[0] in s;
      if n in s {
        var k :| 0 <= k < |s| && s[k] == n;
        var rest := s[..k] + s[k + 1..];
        forall i | 0 <= i < |rest|
          ensures 1 <= rest[i] <= n - 1
        {
          var j := if i < k then i else i + 1;
          assert rest[i] == s[j] && s[j] in s;
        }
        DistinctFit(rest, n - 1);
      } else {
        DistinctFit(s, n - 1);
      }
    }
  }

  /** An event is published at most once per claim, so at most twelve times. */
  lemma PublishedAtMostTwelveTimes(w: World, id: string)
    requires Reachable(w) && id in w.rows
    ensures |AttemptsSent(w.sent, id)| <= w.rows[id].attempts <= MAX_ATTEMPTS
  {
    hide Reachable, ClaimsOf, AttemptsSent;
    FailedExactlyWhenSpent(w, id);
    forall k | 0 <= k < |w.sent| && w.sent[k].job.id == id
      ensures 1 <= w.sent[k].job.attempt <= w.rows[id].attempts
    {
      SentWasHanded(w, k);
    }
    forall k, l | 0 <= k < l < |w.sent|
      ensures w.sent[k].job.id != w.sent[l].job.id || w.sent[k].job.attempt != w.sent[l].job.attempt
    {
      EachAttemptIsSentOnce(w, k, l);
    }
    AttemptsSentAre(w.sent, id, w.rows[id].attempts);
    DistinctFit(AttemptsSent(w.sent, id), w.rows[id].attempts);
  }

  // ---------------------------------------------------------- never stranded

  /** The verdict and the budget agree: `failedAt` is set by the twelfth claim
    and by nothing else, so there is never a verdict to take back. */
  lemma FailedExactlyWhenSpent(w: World, id: string)
    requires Reachable(w) && id in w.rows
    ensures w.rows[id].failedAt.Some? <==> |ClaimsOf(w.claims, id)| == MAX_ATTEMPTS
    ensures w.rows[id].attempts == |ClaimsOf(w.claims, id)| <= MAX_ATTEMPTS
  {
    ReachableInv(w);
    hide Locking, Deliveries, Sendings, ClaimsOf, Backoff;
    assert Agrees(w.rows[id], ClaimsOf(w.claims, id));
  }

  lemma RowAgrees(w: World, id: string)
    requires Reachable(w) && id in w.rows
    ensures Agrees(w.rows[id], ClaimsOf(w.claims, id))
  {
    ReachableInv(w);
    hide Reachable, Agrees, Locking, Deliveries, Sendings, ClaimsOf;
  }

  /** Every committed event is delivered, out of claims, or due again within
    256 seconds of its last claim. */
  lemma DeliveredSpentOrDue(w: World, id: string, now: int)
    requires Reachable(w) && id in w.rows
    requires var cs := ClaimsOf(w.claims, id);
             now >= if cs == [] then w.rows[id].nextAttemptAt else cs[|cs| - 1].now + 256 * SECOND
    ensures w.rows[id].deliveredAt.Some? || w.rows[id].attempts == MAX_ATTEMPTS || Due(w.rows[id], now)
  {
    RowAgrees(w, id);
    hide Reachable, ClaimsOf, Backoff;
  }

  /** A locked row is in a claim whose process can still drop it or crash, and
    either way it is free again. */
  lemma LocksAreLetGo(w: World, id: string)
    requires Reachable(w) && id in w.locks
    ensures var holder := w.locks[id];
            && CanStep(w, AbortClaim(holder)) && id !in Next(w, AbortClaim(holder)).locks
            && CanStep(w, Crash(holder)) && id !in Next(w, Crash(holder)).locks
  {
    ReachableInv(w);
    hide Reachable, Ledger, Deliveries, Sendings, Holds;
  }

  /** An idle process claims a due unlocked row whenever its batch has room; a
    full batch passes it over only for rows as old. */
  lemma DueMeansClaimable(w: World, id: string, p: nat, limit: int, now: int) returns (ids: seq<string>)
    requires id in w.rows && id !in w.locks && Due(w.rows[id], now) && p in w.procs && w.procs[p].Idle?
    ensures CanStep(w, BeginClaim(p, limit, now, ids))
    ensures id !in ids ==>
              && |w.rows| > |ids| == Batch(limit)
              && forall i :: 0 <= i < |ids| ==> ids[i] in w.rows && w.rows[ids[i]].occurredAt <= w.rows[id].occurredAt
  {
    hide Due, Batch;
    ids := SelectionExists(w.rows, w.locks.Keys, Batch(limit), now);
    if id !in ids {
      DistinctKeys(ids, w.rows.Keys - {id});
    }
  }

  lemma {:induction false} DistinctKeys(ids: seq<string>, keys: set<string>)
    requires forall i :: 0 <= i < |ids| ==> ids[i] in keys
    requires forall i, j :: 0 <= i < j < |ids| ==> ids[i] != ids[j]
    ensures |ids| <= |keys|
  {
    if ids != [] {
      DistinctKeys(ids[1..], keys - {ids[0]});
    }
  }

  // ----------------------------------------------------------------- draining

  /** One delivery pass: what it claimed, what became of that, how much of it was
    settled, and the table it left. */
  datatype Pass = Pass(ids: seq<string>, outcomes: seq<Outcome>, settled: nat, after: Table)

  /** Passes one after another at one clock reading, while others hold `locked`. */
  ghost predicate Passes(rows: Table, locked: set<string>, limit: nat, now: int, passes: seq<Pass>) {
    passes == [] ||
    var p := passes[0];
    && IsSelection(rows, locked, limit, now, p.ids)
    && |p.outcomes| == |p.ids|
    && PassedOver(rows, p.after, now, p.ids, p.outcomes, p.settled, true)
    && Passes(p.after, locked, limit, now, passes[1..])
  }

  function DueNow(rows: Table, locked: set<string>, now: int): set<string> {
    set id | id in rows && id !in locked && Due(rows[id], now)
  }

  function TableAfter(rows: Table, passes: seq<Pass>): Table {
    if passes == [] then rows else passes[|passes| - 1].after
  }

  lemma ClaimedIsNotDue(row: Row, now: int, outcome: Outcome)
    ensures !Due(ClaimedRow(row, now), now) && !Due(SettledRow(ClaimedRow(row, now), outcome), now)
  {
  }

  function Elements(ids: seq<string>): (s: set<string>)
    ensures forall id :: id in s <==> id in ids
  {
    if ids == [] then {} else {ids[0]} + Elements(ids[1..])
  }

  lemma {:induction false} CountDistinct(ids: seq<string>, all: set<string>)
    requires Distinct(ids) && forall id :: id in ids ==> id in all
    ensures |all - Elements(ids)| == |all| - |ids|
  {
    if ids == [] {
      assert all - Elements(ids) == all;
    } else {
      CountDistinct(ids[1..], all - {ids[0]});
      assert all - Elements(ids) == all - {ids[0]} - Elements(ids[1..]);
    }
  }

  /** The due rows a pass leaves are those it did not claim. */
  lemma PassLeaves(rows: Table, locked: set<string>, now: int, p: Pass)
    requires |p.outcomes| == |p.ids| && PassedOver(rows, p.after, now, p.ids, p.outcomes, p.settled, true)
    ensures DueNow(p.after, locked, now) == DueNow(rows, locked, now) - Elements(p.ids)
  {
    forall i | 0 <= i < |p.ids|
      ensures p.ids[i] in rows && !Due(p.after[p.ids[i]], now)
    {
      ClaimedIsNotDue(rows[p.ids[i]], now, p.outcomes[i]);
    }
    hide ClaimedRow, SettledRow, Due;
    forall id | id in rows
      ensures id in DueNow(p.after, locked, now) <==> id in DueNow(rows, locked, now) && id !in p.ids
    {
      assert id in p.after;
    }
  }

  /** A pass takes from the due rows exactly the ones it claimed: a full batch, or
    all that were left. */
  lemma PassTakes(rows: Table, locked: set<string>, limit: nat, now: int, p: Pass)
    requires IsSelection(rows, locked, limit, now, p.ids) && |p.outcomes| == |p.ids|
    requires PassedOver(rows, p.after, now, p.ids, p.outcomes, p.settled, true)
    ensures DueNow(p.after, locked, now) == DueNow(rows, locked, now) - Elements(p.ids)
    ensures forall id :: id in p.ids ==> id in DueNow(rows, locked, now)
    ensures |DueNow(p.after, locked, now)| == |DueNow(rows, locked, now)| - |p.ids|
    ensures |p.ids| <= limit && (|p.ids| == limit || |p.ids| == |DueNow(rows, locked, now)|)
  {
    assert Distinct(p.ids);
    PassLeaves(rows, locked, now, p);
    hide IsSelection, PassedOver, DueNow, Distinct;
    CountDistinct(p.ids, DueNow(rows, locked, now));
  }

  /** How often an event is claimed over a sequence of passes. */
  function TimesClaimed(passes: seq<Pass>, id: string): nat {
    if passes == [] then 0 else (if id in passes[0].ids then 1 else 0) + TimesClaimed(passes[1..], id)
  }

  lemma FirstPass(rows: Table, locked: set<string>, limit: nat, now: int, passes: seq<Pass>)
    requires Passes(rows, locked, limit, now, passes) && passes != []
    ensures var p, due := passes[0], DueNow(rows, locked, now);
            && Passes(p.after, locked, limit, now, passes[1..])
            && TableAfter(rows, passes) == TableAfter(p.after, passes[1..])
            && (forall id :: id in p.ids ==> id in due)
            && DueNow(p.after, locked, now) == due - Elements(p.ids)
            && |DueNow(p.after, locked, now)| == |due| - |p.ids|
            && |p.ids| <= limit && (|p.ids| == limit || |p.ids| == |due|)
  {
    hide DueNow, IsSelection, PassedOver, Elements;
    PassTakes(rows, locked, limit, now, passes[0]);
  }

  /** No row is taken twice, and those taken are the due ones not left. */
  lemma {:induction false} PassesTake(rows: Table, locked: set<string>, limit: nat, now: int, passes: seq<Pass>)
    requires Passes(rows, locked, limit, now, passes)
    ensures DueNow(TableAfter(rows, passes), locked, now) <= DueNow(rows, locked, now)
    ensures forall id :: TimesClaimed(passes, id) ==
              if id in DueNow(rows, locked, now) && id !in DueNow(TableAfter(rows, passes), locked, now) then 1 else 0
    decreases |passes|
  {
    if passes != [] {
      hide DueNow, Passes, TableAfter, Elements;
      FirstPass(rows, locked, limit, now, passes);
      PassesTake(passes[0].after, locked, limit, now, passes[1..]);
    }
  }

  /** What is left of `a` after taking up to `b`. */
  function Less(a: nat, b: nat): nat {
    if b < a then a - b else 0
  }

  lemma LessAgain(due: nat, n: nat, limit: nat, taken: nat)
    requires taken <= due && taken <= limit && (taken == limit || taken == due)
    ensures Less(due - taken, n * limit) == Less(due, (n + 1) * limit)
  {
    assert (n + 1) * limit == n * limit + limit;
  }

  lemma {:induction false} PassesCount(rows: Table, locked: set<string>, limit: nat, now: int, passes: seq<Pass>)
    requires Passes(rows, locked, limit, now, passes)
    ensures |DueNow(TableAfter(rows, passes), locked, now)| == Less(|DueNow(rows, locked, now)|, |passes| * limit)
    decreases |passes|
  {
    if passes == [] {
      LessNothing(|DueNow(rows, locked, now)|, limit);
    } else {
      hide *;
      FirstPass(rows, locked, limit, now, passes);
      PassesCount(passes[0].after, locked, limit, now, passes[1..]);
      LessAgain(|DueNow(rows, locked, now)|, |passes[1..]|, limit, |passes[0].ids|);
    }
  }

  lemma LessNothing(a: nat, limit: nat)
    ensures Less(a, 0 * limit) == a
  {
  }

  /** Repeated passes at one clock reading, whatever the broker answers and
    whichever statements fail: ⌈due / limit⌉ of them are enough to leave no due
    unlocked row, fewer are not, and none of the rows is claimed twice. */
  lemma PassesDrain(rows: Table, locked: set<string>, limit: nat, now: int, passes: seq<Pass>)
    requires limit > 0 && Passes(rows, locked, limit, now, passes)
    ensures DueNow(TableAfter(rows, passes), locked, now) == {} <==> |DueNow(rows, locked, now)| <= |passes| * limit
    ensures forall id :: TimesClaimed(passes, id) <= 1
    ensures |DueNow(rows, locked, now)| <= |passes| * limit ==>
              forall id :: TimesClaimed(passes, id) == 1 <==> id in DueNow(rows, locked, now)
  {
    hide DueNow, Passes, TimesClaimed, TableAfter;
    PassesTake(rows, locked, limit, now, passes);
    PassesCount(rows, locked, limit, now, passes);
  }

  // ------------------------------------------------------------------ spacing

  /** The waits scheduled by claims m+1 … n together. */
  function TotalWait(m: nat, n: nat): int
    requires m <= n
    decreases n - m
  {
    if m == n then 0 else TotalWait(m, n - 1) + Backoff(n - 1)
  }

  lemma {:induction false} WaitsAddUp(row: Row, cs: seq<Claim>, k: nat, l: nat)
    requires Agrees(row, cs) && k <= l < |cs|
    ensures cs[l].now >= cs[k].now + TotalWait(k, l)
    decreases l
  {
    if k < l {
      WaitsAddUp(row, cs, k, l - 1);
      hide Backoff;
      assert cs[l].now >= cs[l - 1].now + Backoff(l - 1);
    }
  }

  /** Whatever clocks the processes pass, claims of one event are at least the
    scheduled waits apart. */
  lemma ClaimsAreSpaced(w: World, i: nat, j: nat)
    requires Reachable(w) && i < j < |w.claims| && w.claims[i].id == w.claims[j].id
    ensures 1 <= w.claims[i].attempt <= w.claims[j].attempt
    ensures w.claims[j].now >= w.claims[i].now + TotalWait(w.claims[i].attempt - 1, w.claims[j].attempt - 1)
  {
    hide *;
    EachAttemptHasOneOwner(w, i, j);
    ClaimIsNumbered(w, i);
    ClaimIsNumbered(w, j);
    var id := w.claims[i].id;
    WaitsAddUp(w.rows[id], ClaimsOf(w.claims, id), w.claims[i].attempt - 1, w.claims[j].attempt - 1);
  }

  lemma {:induction false} DoublingWaits(n: nat)
    requires n <= 8
    ensures TotalWait(0, n) == Backoff(n) - SECOND
  {
    hide Backoff;
    if n == 0 {
      BackoffDoublesThenCaps(0);
    } else {
      DoublingWaits(n - 1);
      BackoffDoublesThenCaps(n - 1);
    }
  }

  lemma WaitsInSeconds()
    ensures TotalWait(0, 11) == 1023 * SECOND
  {
    hide Backoff;
    DoublingWaits(8);
    BackoffDoublesThenCaps(8);
    BackoffDoublesThenCaps(9);
    BackoffDoublesThenCaps(10);
    assert TotalWait(0, 9) == TotalWait(0, 8) + Backoff(8);
  }

  /** No event is given up sooner than 1023 seconds after its first claim. */
  lemma FailedNoSoonerThan(w: World, i: nat)
    requires Reachable(w) && i < |w.claims| && w.claims[i].attempt == 1
    ensures w.claims[i].id in w.rows
    ensures var failedAt := w.rows[w.claims[i].id].failedAt;
            failedAt.Some? ==> failedAt.value >= w.claims[i].now + 1023 * SECOND
  {
    ReachableInv(w);
    hide Locking, Deliveries, Sendings, ClaimsOf, Backoff, TotalWait;
    var id := w.claims[i].id;
    var cs := ClaimsOf(w.claims, id);
    assert Agrees(w.rows[id], cs);
    ClaimsOfKeepsOrder(w.claims, id, i);
    AttemptInRange(w, i);
    if w.rows[id].failedAt.Some? {
      WaitsAddUp(w.rows[id], cs, 0, MAX_ATTEMPTS - 1);
      WaitsInSeconds();
    }
  }

  // ------------------------------------------- a row both failed and delivered

  lemma {:induction false} AfterOneMore(w: World, steps: seq<Step>, t: World, step: Step)
    requires After(w, steps) == Some(t) && CanStep(t, step)
    ensures After(w, steps + [step]) == Some(Next(t, step))
    decreases |steps|
  {
    hide CanStep, Next;
    if steps == [] {
      assert [step][1..] == [];
      assert steps + [step] == [step];
    } else {
      AfterOneMore(Next(w, steps[0]), steps[1..], t, step);
      assert (steps + [step])[1..] == steps[1..] + [step];
    }
  }

  lemma ReachableNext(w: World, step: Step)
    requires Reachable(w) && CanStep(w, step)
    ensures Reachable(Next(w, step))
  {
    var procs, steps :| After(Start(procs), steps) == Some(w);
    AfterOneMore(Start(procs), steps, w, step);
  }

  const SOMETHING := Message("s", "p", 0)

  /** A queue of one event that process 0 keeps claiming without publishing. */
  ghost predicate Stuck(w: World, attempts: nat) {
    && Reachable(w)
    && w.rows.Keys == {"e"} && PickOf("e", w.rows["e"]) == Pick("e", SOMETHING, attempts) && w.rows["e"].deliveredAt.None?
    && w.locks == map[]
    && 0 in w.procs && w.procs[0].Idle?
  }

  lemma CanClaim(w: World, attempts: nat) returns (begun: World)
    requires Stuck(w, attempts) && attempts < MAX_ATTEMPTS
    ensures Reachable(begun) && begun.rows == w.rows && begun.locks == map["e" := 0]
    ensures 0 in begun.procs && begun.procs[0] == Claiming(w.rows["e"].nextAttemptAt, [Pick("e", SOMETHING, attempts)])
  {
    FailedExactlyWhenSpent(w, "e");
    var step := BeginClaim(0, 1, w.rows["e"].nextAttemptAt, ["e"]);
    assert CanStep(w, step);
    ReachableNext(w, step);
    begun := Next(w, step);
    assert Picks(w.rows, ["e"]) == [Pick("e", SOMETHING, attempts)];
    assert Locked(w.locks, ["e"], 0) == map["e" := 0] by {
      assert (set i | 0 <= i < |["e"]| :: ["e"][i]) == {"e"} by { assert ["e"][0] == "e"; }
    }
  }

  lemma {:induction false} ClaimedInVain(attempts: nat) returns (w: World)
    requires attempts < MAX_ATTEMPTS
    ensures Stuck(w, attempts)
  {
    if attempts == 0 {
      var start := Start({0});
      assert After(start, []) == Some(start);
      var step := Enqueue("e", "s", "p", 0, 0);
      ReachableNext(start, step);
      w := Next(start, step);
    } else {
      var before := ClaimedInVain(attempts - 1);
      var begun := CanClaim(before, attempts - 1);
      ReachableNext(begun, CommitClaim(0, false));
      w := Next(begun, CommitClaim(0, false));
      assert PickIds([Pick("e", SOMETHING, attempts - 1)]) == ["e"];
    }
  }

  /** An event acknowledged on its last attempt ends up delivered and failed. */
  lemma BothVerdictsAreReachable() returns (w: World)
    ensures Reachable(w) && "e" in w.rows
    ensures w.rows["e"].deliveredAt.Some? && w.rows["e"].failedAt.Some?
  {
    var before := ClaimedInVain(MAX_ATTEMPTS - 1);
    var begun := CanClaim(before, MAX_ATTEMPTS - 1);
    var commit, publish, mark := CommitClaim(0, true), Publish(0, Acknowledges), Mark(0, 0, "", Recorded);
    assert PickIds([Pick("e", SOMETHING, MAX_ATTEMPTS - 1)]) == ["e"];
    assert Jobs([Pick("e", SOMETHING, MAX_ATTEMPTS - 1)]) == [Job("e", SOMETHING, MAX_ATTEMPTS)];
    ReachableNext(begun, commit);
    var claimed := Next(begun, commit);
    assert claimed.locks == map[];
    ReachableNext(claimed, publish);
    var sent := Next(claimed, publish);
    ReachableNext(sent, mark);
    w := Next(sent, mark);
  }

  predicate BothVerdicts(row: Row) {
    row.deliveredAt.Some? && row.failedAt.Some?
  }

  /** The next step records an acknowledgement of this event. */
  predicate RecordsAcknowledgement(w: World, step: Step, id: string) {
    step.Mark? && step.effect != NotRecorded && step.proc in w.procs &&
    var q := w.procs[step.proc];
    q.Passing? && q.queue != [] && q.queue[0].id == id && q.answer == Acked
  }

  lemma ClaimedAreUndelivered(w: World, p: nat, learned: bool, id: string)
    requires Inv(w) && CanStep(w, CommitClaim(p, learned)) && id in w.rows
    ensures id in Commit(w, p, learned).rows
    ensures w.rows[id].deliveredAt.Some? ==> Commit(w, p, learned).rows[id] == w.rows[id]
    ensures Commit(w, p, learned).rows[id].deliveredAt == w.rows[id].deliveredAt
  {
    hide Ledger, Sendings, Deliveries, IsSelection, Backoff;
    var ids := PickIds(w.procs[p].picks);
    assert Holds(w, p, w.procs[p].now, w.procs[p].picks);
    forall i | 0 <= i < |ids|
      ensures ids[i] in w.rows && w.rows[ids[i]].deliveredAt.None?
    {
      assert Due(w.rows[w.procs[p].picks[i].id], w.procs[p].now);
    }
  }

  lemma OtherStepsKeepVerdicts(w: World, step: Step, id: string)
    requires Inv(w) && CanStep(w, step) && id in w.rows && !RecordsAcknowledgement(w, step, id)
    ensures id in Next(w, step).rows && Next(w, step).rows[id].deliveredAt == w.rows[id].deliveredAt
    ensures w.rows[id].deliveredAt.Some? ==> Next(w, step).rows[id].failedAt == w.rows[id].failedAt
  {
    hide Inv, IsSelection, Backoff, Commit, Holds, BothVerdicts;
    match step
    case CommitClaim(p, learned) => ClaimedAreUndelivered(w, p, learned, id);
    case _ =>
  }

  lemma AcknowledgementDelivers(w: World, step: Step, id: string)
    requires CanStep(w, step) && id in w.rows && RecordsAcknowledgement(w, step, id)
    ensures id in Next(w, step).rows && Next(w, step).rows[id] == DeliveredRow(w.rows[id], step.at)
  {
    hide IsSelection, FailedAttemptRow, DeliveredRow, Commit, Send;
  }

  /** A row comes to carry both verdicts by one kind of step only: recording the
    acknowledgement of the twelfth attempt at an undelivered event. */
  lemma BothVerdictsExactlyWhen(w: World, step: Step, id: string)
    requires Reachable(w) && CanStep(w, step) && id in w.rows && !BothVerdicts(w.rows[id])
    ensures id in Next(w, step).rows
    ensures BothVerdicts(Next(w, step).rows[id]) <==>
              RecordsAcknowledgement(w, step, id) && w.rows[id].deliveredAt.None? && w.rows[id].attempts == MAX_ATTEMPTS
  {
    hide Reachable, CanStep, Next, ClaimsOf, RecordsAcknowledgement, Inv;
    FailedExactlyWhenSpent(w, id);
    if RecordsAcknowledgement(w, step, id) {
      AcknowledgementDelivers(w, step, id);
    } else {
      ReachableInv(w);
      OtherStepsKeepVerdicts(w, step, id);
    }
  }
}
