/** Every interleaving of allocation transactions, committed or not.

  Statements run at READ COMMITTED: each sees what has been committed when it
  runs.  A transaction's writes reach the tables when it commits; until then the
  row lock of its counter and, for identities, an advisory lock on a hash of the
  subject keep others out. */
module AllocationRuns {
  import opened Wrappers
  import opened GlobalIds

  /** Where a call is.  `next` is the counter's value after its own bump;
    `entityRow` says whether its insert into the entity table took effect. */
  datatype Tx =
    | Started(request: Request)
    | Guarded(request: Request)
    | Missed(request: Request)
    | Found(request: Request, id: string)
    | Bumped(request: Request, id: string, next: nat)
    | Written(request: Request, id: string, next: nat, entityRow: bool)
    | Lost(request: Request)
    | Returned(request: Request, id: string, created: bool)
    | Ended(request: Request)

  /** Committed tables, the transactions by number, and the locks held. */
  datatype World = World(t: Tables, txs: map<nat, Tx>, counterLocks: map<string, nat>, advisory: map<int, nat>)

  datatype Step =
    | Begin(tx: nat, request: Request)
    | TakeAdvisory(tx: nat)
    | Read(tx: nat)
    | Bump(tx: nat)
    | Insert(tx: nat)
    | Commit(tx: nat, learned: bool)
    | Reread(tx: nat)
    | Abort(tx: nat)

  function Start(base: map<string, Counter>): World {
    World(Tables(base, map[], map[], map[], []), map[], map[], map[])
  }

  predicate CanStep(hash: string -> int, w: World, step: Step) {
    match step
    case Begin(tx, _) => tx !in w.txs
    case TakeAdvisory(tx) =>
      tx in w.txs && w.txs[tx].Started? && !w.txs[tx].request.Entity? && hash(w.txs[tx].request.subject) !in w.advisory
    case Read(tx) => tx in w.txs && ((w.txs[tx].Started? && w.txs[tx].request.Entity?) || w.txs[tx].Guarded?)
    case Bump(tx) =>
      tx in w.txs && w.txs[tx].Missed? &&
      (TypeOf(w.txs[tx].request) in w.t.counters ==> TypeOf(w.txs[tx].request) !in w.counterLocks)
    case Insert(tx) => tx in w.txs && w.txs[tx].Bumped?
    case Commit(tx, _) => tx in w.txs && ((w.txs[tx].Written? && TypeOf(w.txs[tx].request) in w.t.counters) || w.txs[tx].Found?)
    case Reread(tx) => tx in w.txs && w.txs[tx].Lost?
    case Abort(tx) => tx in w.txs && !w.txs[tx].Returned? && !w.txs[tx].Ended?
  }

  /** A call is over: the database drops its locks. */
  function Finish(w: World, tx: nat, outcome: Tx): World {
    w.(
      txs := w.txs[tx := outcome],
      counterLocks := map k | k in w.counterLocks && w.counterLocks[k] != tx :: w.counterLocks[k],
      advisory := map k | k in w.advisory && w.advisory[k] != tx :: w.advisory[k])
  }

  /** The tables once a transaction's own writes are in them. */
  function Apply(t: Tables, tx: nat, x: Tx): Tables
    requires x.Written? && TypeOf(x.request) in t.counters
  {
    var r := x.request;
    Tables(
      t.counters[TypeOf(r) := t.counters[TypeOf(r)].(next := x.next)],
      if x.entityRow then t.entities[KeyOf(r) := x.id] else t.entities,
      if r.User? then t.users[r.subject := x.id] else t.users,
      if r.Service? then t.services[r.subject := x.id] else t.services,
      t.announcements + [Announcement(r, x.id, tx)])
  }

  function Next(hash: string -> int, w: World, step: Step): World
    requires CanStep(hash, w, step)
  {
    match step
    case Begin(tx, request) => w.(txs := w.txs[tx := Started(request)])
    case TakeAdvisory(tx) =>
      var r := w.txs[tx].request;
      w.(txs := w.txs[tx := Guarded(r)], advisory := w.advisory[hash(r.subject) := tx])
    case Read(tx) =>
      var r := w.txs[tx].request;
      w.(txs := w.txs[tx := if Answer(w.t, r).Some? then Found(r, Answer(w.t, r).value) else Missed(r)])
    case Bump(tx) =>
      var r := w.txs[tx].request;
      if TypeOf(r) !in w.t.counters then Finish(w, tx, Ended(r))
      else
        w.(
          txs := w.txs[tx := Bumped(r, NextId(w.t, r), w.t.counters[TypeOf(r)].next + 1)],
          counterLocks := w.counterLocks[TypeOf(r) := tx])
    case Insert(tx) =>
      var Bumped(r, id, next) := w.txs[tx];
      var absent := KeyOf(r) !in w.t.entities;
      w.(txs := w.txs[tx := if r.Entity? && !absent then Lost(r) else Written(r, id, next, absent)])
    case Commit(tx, learned) =>
      var x := w.txs[tx];
      var outcome := if learned then Returned(x.request, x.id, x.Written?) else Ended(x.request);
      Finish(if x.Written? then w.(t := Apply(w.t, tx, x)) else w, tx, outcome)
    case Reread(tx) =>
      var r := w.txs[tx].request;
      Finish(w, tx, if Answer(w.t, r).Some? then Returned(r, Answer(w.t, r).value, false) else Ended(r))
    case Abort(tx) => Finish(w, tx, Ended(w.txs[tx].request))
  }

  function After(hash: string -> int, w: World, steps: seq<Step>): Option<World>
    decreases |steps|
  {
    if steps == [] then Some(w)
    else if CanStep(hash, w, steps[0]) then After(hash, Next(hash, w, steps[0]), steps[1..])
    else None
  }

  ghost predicate Reachable(hash: string -> int, base: map<string, Counter>, w: World) {
    exists steps :: After(hash, Start(base), steps) == Some(w)
  }

  // ---------------------------------------------------------------- the books

  /** The counters as the migrations leave them: no prefix is shared. */
  ghost predicate Registered(base: map<string, Counter>) {
    forall a, b :: a in base && b in base && a != b ==> base[a].prefix != base[b].prefix
  }

  function Count(announcements: seq<Announcement>, entityType: string): nat {
    if announcements == [] then 0
    else
      Count(announcements[..|announcements| - 1], entityType) +
      (if TypeOf(announcements[|announcements| - 1].request) == entityType then 1 else 0)
  }

  lemma CountGrows(announcements: seq<Announcement>, a: Announcement, entityType: string)
    ensures Count(announcements + [a], entityType) ==
            Count(announcements, entityType) + (if TypeOf(a.request) == entityType then 1 else 0)
  {
  }

  lemma {:induction false} CountRises(announcements: seq<Announcement>, i: nat, j: nat, entityType: string)
    requires i <= j <= |announcements|
    ensures Count(announcements[..i], entityType) <= Count(announcements[..j], entityType)
    ensures i < j && TypeOf(announcements[i].request) == entityType ==>
              Count(announcements[..i], entityType) < Count(announcements[..j], entityType)
    decreases j
  {
    if i < j {
      CountRises(announcements, i, j - 1, entityType);
      assert announcements[..j][..j - 1] == announcements[..j - 1];
    }
  }

  ghost predicate CountersAgree(base: map<string, Counter>, t: Tables) {
    && t.counters.Keys == base.Keys
    && forall k :: k in base ==> t.counters[k] == Counter(base[k].prefix, base[k].next + Count(t.announcements, k))
  }

  /** The i-th announcement carries the number its type had reached. */
  ghost predicate Numbered(base: map<string, Counter>, announcements: seq<Announcement>, i: nat)
    requires i < |announcements|
  {
    var k := TypeOf(announcements[i].request);
    k in base && announcements[i].id == Format(base[k].prefix, base[k].next + Count(announcements[..i], k))
  }

  ghost predicate AnnouncedFor(announcements: seq<Announcement>, r: Request) {
    exists i :: 0 <= i < |announcements| && announcements[i].request == r
  }

  ghost predicate AnnouncedAs(announcements: seq<Announcement>, key: Key, id: string) {
    exists i :: 0 <= i < |announcements| && KeyOf(announcements[i].request) == key && announcements[i].id == id
  }

  ghost predicate Books(base: map<string, Counter>, t: Tables) {
    && CountersAgree(base, t)
    && (forall i :: 0 <= i < |t.announcements| ==> Numbered(base, t.announcements, i))
    && (forall i :: 0 <= i < |t.announcements| ==>
          Answer(t, t.announcements[i].request) == Some(t.announcements[i].id) && KeyOf(t.announcements[i].request) in t.entities)
    && (forall r: Request :: Answer(t, r).Some? && !r.Entity? ==> AnnouncedFor(t.announcements, r))
    && (forall key :: key in t.entities ==> AnnouncedAs(t.announcements, key, t.entities[key]))
  }

  // ------------------------------------------------------------- the protocol

  ghost predicate HoldsAdvisory(hash: string -> int, w: World, tx: nat, r: Request) {
    !r.Entity? ==> hash(r.subject) in w.advisory && w.advisory[hash(r.subject)] == tx
  }

  ghost predicate HoldsCounter(w: World, tx: nat, r: Request) {
    TypeOf(r) in w.t.counters && TypeOf(r) in w.counterLocks && w.counterLocks[TypeOf(r)] == tx
  }

  ghost predicate Unmet(w: World, r: Request) {
    !r.Entity? ==> Answer(w.t, r).None?
  }

  ghost predicate TxOk(hash: string -> int, w: World, tx: nat, x: Tx) {
    match x
    case Started(_) => true
    case Guarded(r) => HoldsAdvisory(hash, w, tx, r)
    case Missed(r) => HoldsAdvisory(hash, w, tx, r) && Unmet(w, r)
    case Found(r, id) => HoldsAdvisory(hash, w, tx, r) && Answer(w.t, r) == Some(id)
    case Bumped(r, id, next) =>
      HoldsAdvisory(hash, w, tx, r) && Unmet(w, r) && HoldsCounter(w, tx, r) &&
      id == NextId(w.t, r) && next == w.t.counters[TypeOf(r)].next + 1
    case Written(r, id, next, entityRow) =>
      HoldsAdvisory(hash, w, tx, r) && Answer(w.t, r).None? && HoldsCounter(w, tx, r) &&
      id == NextId(w.t, r) && next == w.t.counters[TypeOf(r)].next + 1 && (entityRow <==> KeyOf(r) !in w.t.entities)
    case Lost(r) => r.Entity? && Answer(w.t, r).Some?
    case Returned(r, id, created) =>
      Answer(w.t, r) == Some(id) && (created ==> Announcement(r, id, tx) in w.t.announcements)
    case Ended(_) => true
  }

  ghost predicate Inv(hash: string -> int, base: map<string, Counter>, w: World) {
    && Books(base, w.t)
    && forall tx :: tx in w.txs ==> TxOk(hash, w, tx, w.txs[tx])
  }

  // ----------------------------------------------------------- the books kept

  /** A mint answers its request, gives it an entity row, and leaves every other
    answer alone. */
  lemma MintAnswers(t: Tables, r: Request, tx: nat, other: Request)
    requires TypeOf(r) in t.counters && Answer(t, r).None?
    ensures Answer(Minted(t, r, tx), r) == Some(NextId(t, r)) && KeyOf(r) in Minted(t, r, tx).entities
    ensures Answer(t, other).Some? ==> Answer(Minted(t, r, tx), other) == Answer(t, other)
    ensures other != r && (!other.Entity? || other.key != KeyOf(r)) ==> Answer(Minted(t, r, tx), other) == Answer(t, other)
  {
  }

  lemma MintKeepsNumbers(base: map<string, Counter>, t: Tables, r: Request, tx: nat)
    requires Books(base, t) && TypeOf(r) in t.counters
    ensures CountersAgree(base, Minted(t, r, tx))
    ensures var next := Minted(t, r, tx).announcements;
            forall i :: 0 <= i < |next| ==> Numbered(base, next, i)
  {
    hide Format, Answer, AnnouncedFor, AnnouncedAs, Count;
    var before, next := t.announcements, Minted(t, r, tx).announcements;
    var a := Announcement(r, NextId(t, r), tx);
    forall k | k in base
      ensures Count(next, k) == Count(before, k) + (if TypeOf(r) == k then 1 else 0)
    {
      CountGrows(before, a, k);
    }
    forall i | 0 <= i < |next|
      ensures Numbered(base, next, i)
    {
      assert next[..i] == before[..i];
      if i < |before| {
        assert Numbered(base, before, i);
      } else {
        assert before[..i] == before;
      }
    }
  }

  lemma AnnouncedStays(announcements: seq<Announcement>, a: Announcement)
    ensures forall r: Request :: AnnouncedFor(announcements, r) ==> AnnouncedFor(announcements + [a], r)
    ensures forall key, id :: AnnouncedAs(announcements, key, id) ==> AnnouncedAs(announcements + [a], key, id)
    ensures AnnouncedFor(announcements + [a], a.request) && AnnouncedAs(announcements + [a], KeyOf(a.request), a.id)
  {
    var next := announcements + [a];
    assert next[|announcements|] == a;
    forall r: Request | AnnouncedFor(announcements, r)
      ensures AnnouncedFor(next, r)
    {
      var i :| 0 <= i < |announcements| && announcements[i].request == r;
      assert next[i].request == r;
    }
    forall key, id | AnnouncedAs(announcements, key, id)
      ensures AnnouncedAs(next, key, id)
    {
      var i :| 0 <= i < |announcements| && KeyOf(announcements[i].request) == key && announcements[i].id == id;
      assert next[i].id == id;
    }
  }

  lemma MintKeepsBooks(base: map<string, Counter>, t: Tables, r: Request, tx: nat)
    requires Books(base, t) && TypeOf(r) in t.counters && Answer(t, r).None?
    ensures Books(base, Minted(t, r, tx))
  {
    hide Format, Count, AnnouncedFor, AnnouncedAs, Numbered, NextId, CountersAgree;
    var next, a := Minted(t, r, tx), Announcement(r, NextId(t, r), tx);
    MintKeepsNumbers(base, t, r, tx);
    AnnouncedStays(t.announcements, a);
    forall i | 0 <= i < |next.announcements|
      ensures Answer(next, next.announcements[i].request) == Some(next.announcements[i].id)
      ensures KeyOf(next.announcements[i].request) in next.entities
    {
      MintAnswers(t, r, tx, next.announcements[i].request);
      if i < |t.announcements| {
        assert next.announcements[i] == t.announcements[i];
      }
    }
    forall q: Request | Answer(next, q).Some? && !q.Entity?
      ensures AnnouncedFor(next.announcements, q)
    {
      MintAnswers(t, r, tx, q);
      assert q == r || AnnouncedFor(t.announcements, q);
    }
    forall key | key in next.entities
      ensures AnnouncedAs(next.announcements, key, next.entities[key])
    {
      if key in t.entities {
        assert AnnouncedAs(t.announcements, key, t.entities[key]);
      }
    }
  }

  /** A transaction that got as far as its inserts holds a mint. */
  lemma ApplyIsMint(hash: string -> int, w: World, tx: nat, x: Tx)
    requires x.Written? && TxOk(hash, w, tx, x)
    ensures Apply(w.t, tx, x) == Minted(w.t, x.request, tx)
  {
  }

  // -------------------------------------------------------- the protocol kept

  ghost predicate KeepsLocks(w: World, v: World, tx: nat) {
    && (forall k :: k in w.counterLocks && w.counterLocks[k] == tx ==> k in v.counterLocks && v.counterLocks[k] == tx)
    && (forall k :: k in w.advisory && w.advisory[k] == tx ==> k in v.advisory && v.advisory[k] == tx)
  }

  lemma LocksStayHeld(hash: string -> int, w: World, v: World, tx: nat, r: Request)
    requires KeepsLocks(w, v, tx)
    ensures HoldsAdvisory(hash, w, tx, r) ==> HoldsAdvisory(hash, v, tx, r)
    ensures HoldsCounter(w, tx, r) && TypeOf(r) in v.t.counters ==> HoldsCounter(v, tx, r)
  {
    if !r.Entity? {
      var h := hash(r.subject);
      assert h in w.advisory && w.advisory[h] == tx ==> h in v.advisory && v.advisory[h] == tx;
    }
  }

  /** What a step other than a commit of a mint leaves as it is. */
  lemma OthersUnaffected(hash: string -> int, w: World, v: World, tx: nat, x: Tx)
    requires TxOk(hash, w, tx, x) && v.t == w.t
    requires KeepsLocks(w, v, tx)
    ensures TxOk(hash, v, tx, x)
  {
    LocksStayHeld(hash, w, v, tx, x.request);
    hide HoldsAdvisory, NextId, Answer;
  }

  lemma OthersSurviveMint(hash: string -> int, w: World, v: World, other: nat, r: Request, tx: nat, x: Tx)
    requires TxOk(hash, w, tx, x) && tx != other
    requires HoldsAdvisory(hash, w, other, r) && HoldsCounter(w, other, r) && Answer(w.t, r).None?
    requires v.t == Minted(w.t, r, other)
    requires KeepsLocks(w, v, tx)
    ensures TxOk(hash, v, tx, x)
  {
    hide Format, Answer;
    MintAnswers(w.t, r, other, x.request);
    LocksStayHeld(hash, w, v, tx, x.request);
    if x.Bumped? || x.Written? {
      assert TypeOf(x.request) != TypeOf(r);
      assert KeyOf(x.request) != KeyOf(r);
    } else if x.Returned? && x.created {
      assert Announcement(x.request, x.id, tx) in v.t.announcements;
    } else if x.Missed? {
      assert !x.request.Entity? ==> x.request != r;
    }
  }

  lemma MintCommitKeepsInv(hash: string -> int, base: map<string, Counter>, w: World, tx: nat, learned: bool)
    requires Inv(hash, base, w) && CanStep(hash, w, Commit(tx, learned)) && w.txs[tx].Written?
    ensures Inv(hash, base, Next(hash, w, Commit(tx, learned)))
  {
    hide Minted, Apply, Books, Answer, NextId, CountersAgree;
    var x, v := w.txs[tx], Next(hash, w, Commit(tx, learned));
    assert TxOk(hash, w, tx, x);
    ApplyIsMint(hash, w, tx, x);
    MintKeepsBooks(base, w.t, x.request, tx);
    MintAnswers(w.t, x.request, tx, x.request);
    forall other | other in w.txs && other != tx
      ensures TxOk(hash, v, other, v.txs[other])
    {
      assert TxOk(hash, w, other, w.txs[other]);
      OthersSurviveMint(hash, w, v, tx, x.request, other, w.txs[other]);
    }
    MintAnnounces(w.t, x.request, tx);
  }

  lemma MintAnnounces(t: Tables, r: Request, tx: nat)
    requires TypeOf(r) in t.counters
    ensures Announcement(r, NextId(t, r), tx) in Minted(t, r, tx).announcements
  {
  }

  lemma StepKeepsInv(hash: string -> int, base: map<string, Counter>, w: World, step: Step)
    requires Inv(hash, base, w) && CanStep(hash, w, step)
    ensures Inv(hash, base, Next(hash, w, step))
  {
    if step.Commit? && w.txs[step.tx].Written? {
      MintCommitKeepsInv(hash, base, w, step.tx, step.learned);
    } else {
      hide Books, NextId, Answer, Apply;
      var v := Next(hash, w, step);
      assert v.t == w.t;
      forall tx | tx in v.txs && tx != step.tx
        ensures TxOk(hash, v, tx, v.txs[tx])
      {
        OthersUnaffected(hash, w, v, tx, w.txs[tx]);
      }
      OwnStepOk(hash, w, step);
    }
  }

  lemma OwnStepOk(hash: string -> int, w: World, step: Step)
    requires CanStep(hash, w, step)
    requires step.tx in w.txs ==> TxOk(hash, w, step.tx, w.txs[step.tx])
    requires step.Commit? ==> w.txs[step.tx].Found?
    ensures TxOk(hash, Next(hash, w, step), step.tx, Next(hash, w, step).txs[step.tx])
  {
  }

  lemma {:induction false} RunKeepsInv(hash: string -> int, base: map<string, Counter>, w: World, steps: seq<Step>)
    requires Inv(hash, base, w)
    ensures After(hash, w, steps).Some? ==> Inv(hash, base, After(hash, w, steps).value)
    decreases |steps|
  {
    hide Inv, CanStep, Next;
    if steps != [] && CanStep(hash, w, steps[0]) {
      StepKeepsInv(hash, base, w, steps[0]);
      RunKeepsInv(hash, base, Next(hash, w, steps[0]), steps[1..]);
    }
  }

  lemma ReachableInv(hash: string -> int, base: map<string, Counter>, w: World)
    requires Reachable(hash, base, w)
    ensures Inv(hash, base, w)
  {
    var steps :| After(hash, Start(base), steps) == Some(w);
    RunKeepsInv(hash, base, Start(base), steps);
  }
}
