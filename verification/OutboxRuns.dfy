/** Every interleaving of the outbox's writers: transactions that queue events,
  and any number of delivery processes that claim, publish and mark, each with
  its own clock, each able to die between any two steps.  The broker stores what
  it is sent, nothing, or something whose acknowledgement is lost. */
module OutboxRuns {
  import opened Wrappers
  import opened Outbox

  /** What an event says. */
  datatype Message = Message(subject: string, payload: string, occurredAt: int)

  /** One row as the claiming query read it. */
  datatype Pick = Pick(id: string, message: Message, attempts: nat)

  /** One attempt handed to the delivery loop. */
  datatype Job = Job(id: string, message: Message, attempt: nat)

  datatype Answer = Waiting | Acked | Rejected

  /** Where a process is: between passes; holding row locks in an uncommitted
    claim; part way through a batch, with or without the broker's answer about
    its first job; dead. */
  datatype Process =
    | Idle
    | Claiming(now: int, picks: seq<Pick>)
    | Passing(queue: seq<Job>, answer: Answer)
    | Down

  datatype Claim = Claim(id: string, attempt: nat, proc: nat, now: int)

  datatype Sending = Sending(job: Job, proc: nat)

  /** `stored` and `acked` are what the broker holds and has acknowledged;
    `claims` and `sent` record every committed claim and every publish call. */
  datatype World = World(
    rows: Table,
    locks: map<string, nat>,
    procs: map<nat, Process>,
    stored: set<string>,
    acked: set<string>,
    claims: seq<Claim>,
    sent: seq<Sending>)

  datatype Broker = Acknowledges | StoresSilently | StoresNothing

  datatype Step =
    | Enqueue(id: string, subject: string, payload: string, occurredAt: int, queuedAt: int)
    | BeginClaim(proc: nat, limit: int, now: int, ids: seq<string>)
    | CommitClaim(proc: nat, learned: bool)
    | AbortClaim(proc: nat)
    | Publish(proc: nat, broker: Broker)
    | Mark(proc: nat, at: int, reason: string, effect: Effect)
    | Crash(proc: nat)
    | Restart(proc: nat)

  function Start(procs: set<nat>): World {
    World(map[], map[], map p | p in procs :: Idle, {}, {}, [], [])
  }

  function PickOf(id: string, row: Row): Pick {
    Pick(id, Message(row.subject, row.payload, row.occurredAt), row.attempts)
  }

  function Picks(rows: Table, ids: seq<string>): (picks: seq<Pick>)
    requires forall i :: 0 <= i < |ids| ==> ids[i] in rows
    ensures |picks| == |ids|
  {
    seq(|ids|, i requires 0 <= i < |ids| => PickOf(ids[i], rows[ids[i]]))
  }

  function PickIds(picks: seq<Pick>): (ids: seq<string>)
    ensures |ids| == |picks|
  {
    seq(|picks|, i requires 0 <= i < |picks| => picks[i].id)
  }

  /** The attempt numbers a claim hands out: what it read, plus one. */
  function Jobs(picks: seq<Pick>): (jobs: seq<Job>)
    ensures |jobs| == |picks|
  {
    seq(|picks|, i requires 0 <= i < |picks| => Job(picks[i].id, picks[i].message, picks[i].attempts + 1))
  }

  function ClaimsFor(picks: seq<Pick>, proc: nat, now: int): (claims: seq<Claim>)
    ensures |claims| == |picks|
  {
    seq(|picks|, i requires 0 <= i < |picks| => Claim(picks[i].id, picks[i].attempts + 1, proc, now))
  }

  function Proceed(queue: seq<Job>): Process {
    if queue == [] then Idle else Passing(queue, Waiting)
  }

  function Released(locks: map<string, nat>, proc: nat): map<string, nat> {
    map id | id in locks && locks[id] != proc :: locks[id]
  }

  function Locked(locks: map<string, nat>, ids: seq<string>, proc: nat): map<string, nat> {
    map id | id in locks.Keys + (set i | 0 <= i < |ids| :: ids[i]) :: if id in ids then proc else locks[id]
  }

  ghost predicate CanStep(w: World, step: Step) {
    match step
    case Enqueue(_, _, _, _, _) => true
    case BeginClaim(p, limit, now, ids) =>
      p in w.procs && w.procs[p].Idle? && IsSelection(w.rows, w.locks.Keys, Batch(limit), now, ids)
    case CommitClaim(p, _) => p in w.procs && w.procs[p].Claiming?
    case AbortClaim(p) => p in w.procs && w.procs[p].Claiming?
    case Publish(p, _) => p in w.procs && w.procs[p].Passing? && w.procs[p].queue != [] && w.procs[p].answer == Waiting
    case Mark(p, _, _, _) =>
      p in w.procs && w.procs[p].Passing? && w.procs[p].queue != [] && w.procs[p].answer != Waiting &&
      w.procs[p].queue[0].id in w.rows && w.procs[p].queue[0].id !in w.locks
    case Crash(p) => p in w.procs
    case Restart(p) => p in w.procs && w.procs[p].Down?
  }

  function Commit(w: World, p: nat, learned: bool): World
    requires p in w.procs && w.procs[p].Claiming?
  {
    var Claiming(now, picks) := w.procs[p];
    w.(
      rows := ClaimAll(w.rows, PickIds(picks), now),
      locks := Released(w.locks, p),
      procs := w.procs[p := if learned then Proceed(Jobs(picks)) else Idle],
      claims := w.claims + ClaimsFor(picks, p, now))
  }

  function Send(w: World, p: nat, broker: Broker): World
    requires p in w.procs && w.procs[p].Passing? && w.procs[p].queue != []
  {
    var Passing(queue, _) := w.procs[p];
    w.(
      procs := w.procs[p := Passing(queue, if broker == Acknowledges then Acked else Rejected)],
      stored := if broker == StoresNothing then w.stored else w.stored + {queue[0].id},
      acked := if broker == Acknowledges then w.acked + {queue[0].id} else w.acked,
      sent := w.sent + [Sending(queue[0], p)])
  }

  /** A statement whose result is an error ends the pass, applied or not. */
  function Record(w: World, p: nat, at: int, reason: string, effect: Effect): World
    requires p in w.procs && w.procs[p].Passing? && w.procs[p].queue != [] && w.procs[p].queue[0].id in w.rows
  {
    var Passing(queue, answer) := w.procs[p];
    var id := queue[0].id;
    var row := if answer == Acked then DeliveredRow(w.rows[id], at) else FailedAttemptRow(w.rows[id], reason);
    w.(
      rows := if effect == NotRecorded then w.rows else w.rows[id := row],
      procs := w.procs[p := if effect == Recorded then Proceed(queue[1..]) else Idle])
  }

  ghost function Next(w: World, step: Step): World
    requires CanStep(w, step)
  {
    match step
    case Enqueue(id, subject, payload, occurredAt, queuedAt) =>
      if id in w.rows then w else w.(rows := w.rows[id := QueuedRow(subject, payload, occurredAt, queuedAt)])
    case BeginClaim(p, _, now, ids) =>
      w.(locks := Locked(w.locks, ids, p), procs := w.procs[p := Claiming(now, Picks(w.rows, ids))])
    case CommitClaim(p, learned) => Commit(w, p, learned)
    case AbortClaim(p) => w.(locks := Released(w.locks, p), procs := w.procs[p := Idle])
    case Publish(p, broker) => Send(w, p, broker)
    case Mark(p, at, reason, effect) => Record(w, p, at, reason, effect)
    case Crash(p) => w.(locks := Released(w.locks, p), procs := w.procs[p := Down])
    case Restart(p) => w.(procs := w.procs[p := Idle])
  }

  ghost function After(w: World, steps: seq<Step>): Option<World>
    decreases |steps|
  {
    if steps == [] then Some(w)
    else if CanStep(w, steps[0]) then After(Next(w, steps[0]), steps[1..])
    else None
  }

  ghost predicate Reachable(w: World) {
    exists procs, steps :: After(Start(procs), steps) == Some(w)
  }

  // ------------------------------------------------------- the claims of a row

  function ClaimsOf(claims: seq<Claim>, id: string): seq<Claim> {
    if claims == [] then []
    else
      ClaimsOf(claims[..|claims| - 1], id) +
      (if claims[|claims| - 1].id == id then [claims[|claims| - 1]] else [])
  }

  lemma {:induction false} ClaimsOfJoined(a: seq<Claim>, b: seq<Claim>, id: string)
    ensures ClaimsOf(a + b, id) == ClaimsOf(a, id) + ClaimsOf(b, id)
  {
    if b == [] {
      assert a + b == a;
    } else {
      ClaimsOfJoined(a, b[..|b| - 1], id);
      assert (a + b)[..|a + b| - 1] == a + b[..|b| - 1];
    }
  }

  /** A batch of distinct rows adds one claim to each of them. */
  lemma {:induction false} ClaimsOfBatch(claims: seq<Claim>, id: string)
    requires forall i, j :: 0 <= i < j < |claims| ==> claims[i].id != claims[j].id
    ensures forall i :: 0 <= i < |claims| && claims[i].id == id ==> ClaimsOf(claims, id) == [claims[i]]
    ensures (forall i :: 0 <= i < |claims| ==> claims[i].id != id) ==> ClaimsOf(claims, id) == []
  {
    if claims != [] {
      ClaimsOfBatch(claims[..|claims| - 1], id);
    }
  }

  /** Where the k-th claim of an id stands in the log, and how many of its
    claims stand before any point. */
  lemma {:induction false} ClaimsOfKeepsOrder(claims: seq<Claim>, id: string, i: nat)
    requires i < |claims| && claims[i].id == id
    ensures var k := |ClaimsOf(claims[..i], id)|;
            k < |ClaimsOf(claims, id)| && ClaimsOf(claims, id)[k] == claims[i]
  {
    assert claims == claims[..i] + [claims[i]] + claims[i + 1..];
    ClaimsOfJoined(claims[..i], [claims[i]], id);
    ClaimsOfJoined(claims[..i] + [claims[i]], claims[i + 1..], id);
    ClaimsOfBatch([claims[i]], id);
  }

  // ------------------------------------------------------------ the invariant

  /** What a row says about itself is what the claims of it say. */
  ghost predicate Agrees(row: Row, cs: seq<Claim>) {
    && |cs| == row.attempts <= MAX_ATTEMPTS
    && (forall k :: 0 <= k < |cs| ==> cs[k].attempt == k + 1)
    && (forall k, l :: 0 <= k && l == k + 1 < |cs| ==> cs[l].now >= cs[k].now + Backoff(k))
    && (cs != [] ==> row.nextAttemptAt == cs[|cs| - 1].now + Backoff(|cs| - 1))
    && row.failedAt == if |cs| == MAX_ATTEMPTS then Some(cs[MAX_ATTEMPTS - 1].now) else None
  }

  ghost predicate Ledger(w: World) {
    && (forall id :: id in w.rows ==> Agrees(w.rows[id], ClaimsOf(w.claims, id)))
    && (forall i :: 0 <= i < |w.claims| ==> w.claims[i].id in w.rows)
  }

  /** A claim in progress holds every row it read, still as it read it. */
  ghost predicate Holds(w: World, p: nat, now: int, picks: seq<Pick>) {
    && (forall i, j :: 0 <= i < j < |picks| ==> picks[i].id != picks[j].id)
    && (forall i :: 0 <= i < |picks| ==>
          && picks[i].id in w.locks && w.locks[picks[i].id] == p
          && picks[i].id in w.rows && w.rows[picks[i].id].attempts == picks[i].attempts
          && Due(w.rows[picks[i].id], now))
  }

  ghost predicate Locking(w: World) {
    && (forall p :: p in w.procs && w.procs[p].Claiming? ==> Holds(w, p, w.procs[p].now, w.procs[p].picks))
    && (forall id :: id in w.locks ==> w.locks[id] in w.procs && w.procs[w.locks[id]].Claiming?)
  }

  /** Some committed claim gave this attempt to this process. */
  ghost predicate Handed(claims: seq<Claim>, job: Job, proc: nat) {
    exists i :: 0 <= i < |claims| && claims[i].id == job.id && claims[i].attempt == job.attempt && claims[i].proc == proc
  }

  /** The jobs of a queue the process has yet to publish. */
  function Unsent(q: Process): seq<Job>
    requires q.Passing? && q.queue != []
  {
    if q.answer == Waiting then q.queue else q.queue[1..]
  }

  ghost predicate Working(w: World, p: nat, q: Process)
    requires q.Passing?
  {
    && q.queue != []
    && (forall i, j :: 0 <= i < j < |q.queue| ==> q.queue[i].id != q.queue[j].id)
    && (forall job :: job in q.queue ==> Handed(w.claims, job, p))
    && (q.answer == Acked ==> q.queue[0].id in w.acked)
    && (forall k :: 0 <= k < |w.sent| && w.sent[k].proc == p ==> w.sent[k].job !in Unsent(q))
  }

  ghost predicate Sendings(w: World) {
    && (forall p :: p in w.procs && w.procs[p].Passing? ==> Working(w, p, w.procs[p]))
    && (forall k :: 0 <= k < |w.sent| ==> Handed(w.claims, w.sent[k].job, w.sent[k].proc))
    && (forall k, l :: 0 <= k < l < |w.sent| ==> w.sent[k] != w.sent[l])
  }

  ghost predicate Deliveries(w: World) {
    && (forall id :: id in w.rows && w.rows[id].deliveredAt.Some? ==> id in w.acked)
    && w.acked <= w.stored <= w.rows.Keys
  }

  ghost predicate Inv(w: World) {
    Ledger(w) && Locking(w) && Sendings(w) && Deliveries(w)
  }

  lemma InitiallyInv(procs: set<nat>)
    ensures Inv(Start(procs))
  {
  }

  lemma {:induction false} NoClaimsYet(claims: seq<Claim>, id: string)
    requires forall i :: 0 <= i < |claims| ==> claims[i].id != id
    ensures ClaimsOf(claims, id) == []
  {
    if claims != [] {
      NoClaimsYet(claims[..|claims| - 1], id);
    }
  }

  lemma AttemptInRange(w: World, i: nat)
    requires Ledger(w) && i < |w.claims|
    ensures 1 <= w.claims[i].attempt <= w.rows[w.claims[i].id].attempts
    ensures w.claims[i].attempt == |ClaimsOf(w.claims[..i], w.claims[i].id)| + 1
  {
    hide Backoff;
    ClaimsOfKeepsOrder(w.claims, w.claims[i].id, i);
    assert Agrees(w.rows[w.claims[i].id], ClaimsOf(w.claims, w.claims[i].id));
  }

  lemma HandedGrows(claims: seq<Claim>, more: seq<Claim>, job: Job, proc: nat)
    requires Handed(claims, job, proc)
    ensures Handed(claims + more, job, proc)
  {
    var i :| 0 <= i < |claims| && claims[i].id == job.id && claims[i].attempt == job.attempt && claims[i].proc == proc;
    assert (claims + more)[i] == claims[i];
  }

  // Ledger

  lemma OneMoreClaim(row: Row, cs: seq<Claim>, c: Claim)
    requires Agrees(row, cs) && Due(row, c.now) && c.attempt == row.attempts + 1
    ensures Agrees(ClaimedRow(row, c.now), cs + [c])
  {
  }

  lemma CommitKeepsLedger(w: World, p: nat, learned: bool)
    requires Ledger(w) && p in w.procs && w.procs[p].Claiming?
    requires Holds(w, p, w.procs[p].now, w.procs[p].picks)
    ensures Ledger(Commit(w, p, learned))
  {
    hide Agrees, ClaimsOf, ClaimedRow, Proceed, Released;
    var Claiming(now, picks) := w.procs[p];
    var t, batch, ids := Commit(w, p, learned), ClaimsFor(picks, p, now), PickIds(picks);
    forall id | id in w.rows
      ensures Agrees(t.rows[id], ClaimsOf(t.claims, id))
    {
      ClaimsOfJoined(w.claims, batch, id);
      ClaimsOfBatch(batch, id);
      if id in ids {
        var i :| 0 <= i < |ids| && ids[i] == id;
        assert batch[i].id == id && ClaimsOf(batch, id) == [batch[i]];
        OneMoreClaim(w.rows[id], ClaimsOf(w.claims, id), batch[i]);
      } else {
        assert forall i :: 0 <= i < |batch| ==> batch[i].id == ids[i];
        assert ClaimsOf(w.claims, id) + [] == ClaimsOf(w.claims, id);
      }
    }
    forall i | 0 <= i < |t.claims|
      ensures t.claims[i].id in t.rows
    {
      if i >= |w.claims| {
        assert t.claims[i] == batch[i - |w.claims|];
      }
    }
  }

  lemma MarkingAgrees(row: Row, cs: seq<Claim>, at: int, reason: string)
    requires Agrees(row, cs)
    ensures Agrees(DeliveredRow(row, at), cs) && Agrees(FailedAttemptRow(row, reason), cs)
  {
  }

  lemma StepKeepsLedger(w: World, step: Step)
    requires Inv(w) && CanStep(w, step)
    ensures Ledger(Next(w, step))
  {
    hide Agrees, ClaimsOf, Sendings, Deliveries, IsSelection, DeliveredRow, FailedAttemptRow;
    match step
    case Enqueue(id, subject, payload, occurredAt, queuedAt) =>
      if id !in w.rows {
        NoClaimsYet(w.claims, id);
        FreshAgrees(subject, payload, occurredAt, queuedAt);
      }
    case CommitClaim(p, learned) => CommitKeepsLedger(w, p, learned);
    case Mark(p, at, reason, effect) =>
      var id := w.procs[p].queue[0].id;
      MarkingAgrees(w.rows[id], ClaimsOf(w.claims, id), at, reason);
    case _ =>
  }

  lemma FreshAgrees(subject: string, payload: string, occurredAt: int, queuedAt: int)
    ensures Agrees(QueuedRow(subject, payload, occurredAt, queuedAt), [])
  {
  }

  // Locking

  lemma StepKeepsLocking(w: World, step: Step)
    requires Inv(w) && CanStep(w, step)
    ensures Locking(Next(w, step))
  {
    hide Agrees, ClaimsOf, Sendings, Deliveries, ClaimedRow, Proceed, Backoff, Due, IsSelection, Commit, Record;
    match step
    case BeginClaim(p, limit, now, ids) => BeginHolds(w, p, limit, now, ids);
    case CommitClaim(p, learned) => CommitKeepsLocking(w, p, learned);
    case Mark(p, at, reason, effect) => RecordKeepsLocking(w, p, at, reason, effect);
    case _ =>
  }

  lemma CommitKeepsLocking(w: World, p: nat, learned: bool)
    requires Locking(w) && p in w.procs && w.procs[p].Claiming?
    ensures Locking(Commit(w, p, learned))
  {
  }

  lemma RecordKeepsLocking(w: World, p: nat, at: int, reason: string, effect: Effect)
    requires Locking(w) && CanStep(w, Mark(p, at, reason, effect))
    ensures Locking(Record(w, p, at, reason, effect))
  {
  }

  lemma BeginHolds(w: World, p: nat, limit: int, now: int, ids: seq<string>)
    requires Locking(w) && CanStep(w, BeginClaim(p, limit, now, ids))
    ensures Locking(Next(w, BeginClaim(p, limit, now, ids)))
  {
    hide Due;
    var t := Next(w, BeginClaim(p, limit, now, ids));
    assert Holds(t, p, now, Picks(w.rows, ids));
    forall r | r in t.procs && t.procs[r].Claiming? && r != p
      ensures Holds(t, r, t.procs[r].now, t.procs[r].picks)
    {
      assert Holds(w, r, w.procs[r].now, w.procs[r].picks);
    }
  }

  // Sendings

  /** Growing logs disturb no other process's queue. */
  lemma StillWorking(w: World, t: World, r: nat, q: Process, more: seq<Claim>)
    requires q.Passing? && Working(w, r, q)
    requires t.claims == w.claims + more && w.acked <= t.acked
    requires t.sent == w.sent || exists s: Sending :: s.proc != r && t.sent == w.sent + [s]
    ensures Working(t, r, q)
  {
    hide Handed;
    forall job | job in q.queue
      ensures Handed(t.claims, job, r)
    {
      HandedGrows(w.claims, more, job, r);
    }
  }

  lemma {:induction false} CommitKeepsSendings(w: World, p: nat, learned: bool)
    requires Inv(w) && p in w.procs && w.procs[p].Claiming?
    ensures Sendings(Commit(w, p, learned))
  {
    hide Agrees, ClaimsOf, ClaimedRow, Deliveries, Due, Handed;
    var Claiming(now, picks) := w.procs[p];
    var t, batch := Commit(w, p, learned), ClaimsFor(picks, p, now);
    forall r | r in t.procs && t.procs[r].Passing? && r != p
      ensures Working(t, r, t.procs[r])
    {
      StillWorking(w, t, r, w.procs[r], batch);
    }
    forall k | 0 <= k < |w.sent|
      ensures Handed(t.claims, w.sent[k].job, w.sent[k].proc)
    {
      HandedGrows(w.claims, batch, w.sent[k].job, w.sent[k].proc);
    }
    if learned && picks != [] {
      NewJobsAreNew(w, p, now, picks);
      assert Working(t, p, t.procs[p]);
    }
  }

  lemma NewJobsAreNew(w: World, p: nat, now: int, picks: seq<Pick>)
    requires Ledger(w) && Sendings(w) && Holds(w, p, now, picks)
    ensures forall job :: job in Jobs(picks) ==> Handed(w.claims + ClaimsFor(picks, p, now), job, p)
    ensures forall k :: 0 <= k < |w.sent| ==> w.sent[k].job !in Jobs(picks)
  {
    hide Agrees, ClaimsOf, Due, Working;
    var batch, jobs := ClaimsFor(picks, p, now), Jobs(picks);
    forall job | job in jobs
      ensures Handed(w.claims + batch, job, p)
    {
      var i :| 0 <= i < |jobs| && jobs[i] == job;
      assert (w.claims + batch)[|w.claims| + i] == batch[i];
    }
    forall k | 0 <= k < |w.sent|
      ensures w.sent[k].job !in jobs
    {
      var job := w.sent[k].job;
      var c :| 0 <= c < |w.claims| && w.claims[c].id == job.id && w.claims[c].attempt == job.attempt && w.claims[c].proc == w.sent[k].proc;
      AttemptInRange(w, c);
      forall i | 0 <= i < |jobs|
        ensures jobs[i] != job
      {
        assert jobs[i].attempt == w.rows[picks[i].id].attempts + 1;
      }
    }
  }

  lemma SendKeepsSendings(w: World, p: nat, broker: Broker)
    requires Sendings(w) && CanStep(w, Publish(p, broker))
    ensures Sendings(Send(w, p, broker))
  {
  }

  lemma RecordKeepsSendings(w: World, p: nat, at: int, reason: string, effect: Effect)
    requires Sendings(w) && CanStep(w, Mark(p, at, reason, effect))
    ensures Sendings(Record(w, p, at, reason, effect))
  {
  }

  lemma StepKeepsSendings(w: World, step: Step)
    requires Inv(w) && CanStep(w, step)
    ensures Sendings(Next(w, step))
  {
    hide Agrees, ClaimsOf, Deliveries, Locking, IsSelection, Handed, Commit, Send, Record;
    var t := Next(w, step);
    match step
    case CommitClaim(p, learned) => CommitKeepsSendings(w, p, learned);
    case Publish(p, broker) => SendKeepsSendings(w, p, broker);
    case Mark(p, at, reason, effect) => RecordKeepsSendings(w, p, at, reason, effect);
    case _ =>
      assert w.claims + [] == w.claims;
      forall r | r in t.procs && t.procs[r].Passing?
        ensures Working(t, r, t.procs[r])
      {
        StillWorking(w, t, r, w.procs[r], []);
      }
  }

  // Deliveries

  lemma StepKeepsDeliveries(w: World, step: Step)
    requires Inv(w) && CanStep(w, step)
    ensures Deliveries(Next(w, step))
  {
    hide Agrees, ClaimsOf, Locking, IsSelection, Handed, Backoff;
    var t := Next(w, step);
    match step
    case CommitClaim(p, _) =>
      assert forall id :: id in t.rows ==> t.rows[id].deliveredAt == w.rows[id].deliveredAt;
    case Publish(p, _) =>
      assert Working(w, p, w.procs[p]);
      assert w.procs[p].queue[0] in w.procs[p].queue;
      HandedIsQueued(w, w.procs[p].queue[0], p);
    case Mark(p, _, _, _) => assert Working(w, p, w.procs[p]);
    case _ =>
  }

  lemma HandedIsQueued(w: World, job: Job, p: nat)
    requires Ledger(w) && Handed(w.claims, job, p)
    ensures job.id in w.rows
  {
  }

  lemma StepKeepsInv(w: World, step: Step)
    requires Inv(w) && CanStep(w, step)
    ensures Inv(Next(w, step))
  {
    StepKeepsLedger(w, step);
    StepKeepsLocking(w, step);
    StepKeepsSendings(w, step);
    StepKeepsDeliveries(w, step);
  }

  lemma {:induction false} RunKeepsInv(w: World, steps: seq<Step>)
    requires Inv(w)
    ensures After(w, steps).Some? ==> Inv(After(w, steps).value)
    decreases |steps|
  {
    hide Inv, CanStep, Next;
    if steps != [] && CanStep(w, steps[0]) {
      StepKeepsInv(w, steps[0]);
      RunKeepsInv(Next(w, steps[0]), steps[1..]);
    }
  }

  lemma ReachableInv(w: World)
    requires Reachable(w)
    ensures Inv(w)
  {
    hide Inv;
    var procs, steps :| After(Start(procs), steps) == Some(w);
    InitiallyInv(procs);
    RunKeepsInv(Start(procs), steps);
  }

  // ----------------------------------------------------------- what is carried

  /** What was queued first under each id. */
  type Queued = map<string, Message>

  function Noted(queued: Queued, step: Step): Queued {
    if step.Enqueue? && step.id !in queued
    then queued[step.id := Message(step.subject, step.payload, step.occurredAt)]
    else queued
  }

  ghost predicate Carries(queued: Queued, q: Process) {
    match q
    case Claiming(_, picks) => forall i :: 0 <= i < |picks| ==> picks[i].id in queued && picks[i].message == queued[picks[i].id]
    case Passing(queue, _) => forall i :: 0 <= i < |queue| ==> queue[i].id in queued && queue[i].message == queued[queue[i].id]
    case _ => true
  }

  /** Rows, claims in progress, queues and publish calls carry what was queued. */
  ghost predicate AsQueued(queued: Queued, w: World) {
    && queued.Keys == w.rows.Keys
    && (forall id :: id in w.rows ==>
          queued[id] == Message(w.rows[id].subject, w.rows[id].payload, w.rows[id].occurredAt))
    && (forall p :: p in w.procs ==> Carries(queued, w.procs[p]))
    && (forall k :: 0 <= k < |w.sent| ==>
          w.sent[k].job.id in queued && w.sent[k].job.message == queued[w.sent[k].job.id])
  }

  lemma CommitCarries(queued: Queued, w: World, p: nat, learned: bool)
    requires AsQueued(queued, w) && p in w.procs && w.procs[p].Claiming?
    ensures AsQueued(queued, Commit(w, p, learned))
  {
    hide Backoff, Released;
  }

  lemma RecordCarries(queued: Queued, w: World, p: nat, at: int, reason: string, effect: Effect)
    requires AsQueued(queued, w) && CanStep(w, Mark(p, at, reason, effect))
    ensures AsQueued(queued, Record(w, p, at, reason, effect))
  {
  }

  lemma BeginCarries(queued: Queued, w: World, step: Step)
    requires AsQueued(queued, w) && CanStep(w, step) && step.BeginClaim?
    ensures AsQueued(queued, Next(w, step))
  {
    hide Locked, Due;
    forall i | 0 <= i < |step.ids|
      ensures step.ids[i] in queued && queued[step.ids[i]] == PickOf(step.ids[i], w.rows[step.ids[i]]).message
    {
    }
  }

  lemma StepCarries(queued: Queued, w: World, step: Step)
    requires AsQueued(queued, w) && CanStep(w, step)
    ensures AsQueued(Noted(queued, step), Next(w, step))
  {
    hide Commit, Record, Released, Locked, IsSelection;
    match step
    case BeginClaim(_, _, _, _) => BeginCarries(queued, w, step);
    case CommitClaim(p, learned) => CommitCarries(queued, w, p, learned);
    case Mark(p, at, reason, effect) => RecordCarries(queued, w, p, at, reason, effect);
    case _ =>
  }

  function NotedAll(queued: Queued, steps: seq<Step>): Queued
    decreases |steps|
  {
    if steps == [] then queued else NotedAll(Noted(queued, steps[0]), steps[1..])
  }

  lemma {:induction false} RunCarries(queued: Queued, w: World, steps: seq<Step>, t: World)
    requires AsQueued(queued, w) && After(w, steps) == Some(t)
    ensures AsQueued(NotedAll(queued, steps), t)
    decreases |steps|
  {
    hide AsQueued, Noted, Next, CanStep;
    if steps != [] {
      StepCarries(queued, w, steps[0]);
      RunCarries(Noted(queued, steps[0]), Next(w, steps[0]), steps[1..], t);
    }
  }

  predicate Queues(step: Step, id: string) {
    step.Enqueue? && step.id == id
  }

  lemma {:induction false} FirstQueued(queued: Queued, steps: seq<Step>, id: string) returns (k: nat)
    requires id in NotedAll(queued, steps) && id !in queued
    ensures k < |steps| && Queues(steps[k], id) && forall m :: 0 <= m < k ==> !Queues(steps[m], id)
    ensures NotedAll(queued, steps)[id] == Message(steps[k].subject, steps[k].payload, steps[k].occurredAt)
    decreases |steps|
  {
    if Queues(steps[0], id) {
      k := 0;
      NotedStays(Noted(queued, steps[0]), steps[1..], id);
    } else {
      k := FirstQueued(Noted(queued, steps[0]), steps[1..], id);
      k := k + 1;
    }
  }

  lemma {:induction false} NotedStays(queued: Queued, steps: seq<Step>, id: string)
    requires id in queued
    ensures id in NotedAll(queued, steps) && NotedAll(queued, steps)[id] == queued[id]
    decreases |steps|
  {
    if steps != [] {
      NotedStays(Noted(queued, steps[0]), steps[1..], id);
    }
  }

  /** Over every run, an event is what the first transaction to queue its id said:
    its row never says anything else, and every publish call for it, by whichever
    process and on whichever attempt, sends exactly that. */
  lemma ContentIsAsQueued(procs: set<nat>, steps: seq<Step>, w: World, id: string) returns (k: nat)
    requires After(Start(procs), steps) == Some(w) && id in w.rows
    ensures k < |steps| && steps[k].Enqueue? && steps[k].id == id
    ensures forall m :: 0 <= m < k ==> !(steps[m].Enqueue? && steps[m].id == id)
    ensures w.rows[id].subject == steps[k].subject && w.rows[id].payload == steps[k].payload
    ensures w.rows[id].occurredAt == steps[k].occurredAt
    ensures forall s :: s in w.sent && s.job.id == id ==>
              && s.job.message.subject == steps[k].subject && s.job.message.payload == steps[k].payload
              && s.job.message.occurredAt == steps[k].occurredAt
  {
    assert AsQueued(map[], Start(procs));
    RunCarries(map[], Start(procs), steps, w);
    k := FirstQueued(map[], steps, id);
    forall m | 0 <= m < k
      ensures !(steps[m].Enqueue? && steps[m].id == id)
    {
      assert !Queues(steps[m], id);
    }
  }

  /** Jobs for one event differ in their attempt only. */
  lemma SameMessage(w: World, a: Job, b: Job)
    requires Reachable(w) && a.id == b.id
    requires (exists k :: 0 <= k < |w.sent| && w.sent[k].job == a) && exists k :: 0 <= k < |w.sent| && w.sent[k].job == b
    ensures a.message == b.message
  {
    var procs, steps :| After(Start(procs), steps) == Some(w);
    assert AsQueued(map[], Start(procs));
    RunCarries(map[], Start(procs), steps, w);
  }
}
