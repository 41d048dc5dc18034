/** What holds of Global IDs after any interleaving of allocation transactions. */
module AllocationGuarantees {
  import opened Wrappers
  import opened GlobalIds
  import opened AllocationRuns

  // -------------------------------------------------------- identifiers differ

  lemma IdsAreDistinct(base: map<string, Counter>, t: Tables, i: nat, j: nat)
    requires Registered(base) && Books(base, t) && i < j < |t.announcements|
    ensures t.announcements[i].id != t.announcements[j].id
  {
    hide Format, Answer, AnnouncedFor, AnnouncedAs, Count, CountersAgree;
    var a, b := TypeOf(t.announcements[i].request), TypeOf(t.announcements[j].request);
    assert Numbered(base, t.announcements, i) && Numbered(base, t.announcements, j);
    FormatInjective(
      base[a].prefix, base[a].next + Count(t.announcements[..i], a),
      base[b].prefix, base[b].next + Count(t.announcements[..j], b));
    if a == b {
      CountRises(t.announcements, i, j, a);
    }
  }

  /** The two ways of asking about one identity: by subject, and by the entity
    row that stands for it. */
  ghost predicate SamePerson(a: Request, b: Request) {
    KeyOf(a) == KeyOf(b)
  }

  lemma AnswerWasAnnounced(base: map<string, Counter>, t: Tables, r: Request) returns (i: nat)
    requires Books(base, t) && Answer(t, r).Some?
    ensures i < |t.announcements| && t.announcements[i].id == Answer(t, r).value
    ensures KeyOf(t.announcements[i].request) == KeyOf(r)
  {
    hide CountersAgree, Numbered;
    match r
    case Entity(key) =>
      assert AnnouncedAs(t.announcements, key, t.entities[key]);
      i :| 0 <= i < |t.announcements| && KeyOf(t.announcements[i].request) == key && t.announcements[i].id == t.entities[key];
    case _ =>
      assert AnnouncedFor(t.announcements, r);
      i :| 0 <= i < |t.announcements| && t.announcements[i].request == r;
  }

  /** Distinct source records and distinct subjects never share an identifier. */
  lemma DistinctRecordsDiffer(hash: string -> int, base: map<string, Counter>, w: World, a: Request, b: Request)
    requires Registered(base) && Reachable(hash, base, w)
    requires Answer(w.t, a).Some? && Answer(w.t, b).Some? && !SamePerson(a, b)
    ensures Answer(w.t, a) != Answer(w.t, b)
  {
    hide Books, Reachable, Answer;
    ReachableInv(hash, base, w);
    var i := AnswerWasAnnounced(base, w.t, a);
    var j := AnswerWasAnnounced(base, w.t, b);
    if i < j {
      IdsAreDistinct(base, w.t, i, j);
    } else if j < i {
      IdsAreDistinct(base, w.t, j, i);
    }
  }

  // ------------------------------------------------------ identifiers are kept

  lemma StepKeepsAnswers(hash: string -> int, base: map<string, Counter>, w: World, step: Step, r: Request)
    requires Inv(hash, base, w) && CanStep(hash, w, step) && Answer(w.t, r).Some?
    ensures Answer(Next(hash, w, step).t, r) == Answer(w.t, r)
  {
    if step.Commit? && w.txs[step.tx].Written? {
      hide Minted, Apply, Books, Answer, NextId;
      var x := w.txs[step.tx];
      assert TxOk(hash, w, step.tx, x);
      ApplyIsMint(hash, w, step.tx, x);
      MintAnswers(w.t, x.request, step.tx, r);
    }
  }

  /** Once the tables answer a request, every later state answers the same. */
  lemma {:induction false} AnswersNeverChange(hash: string -> int, base: map<string, Counter>, w: World, steps: seq<Step>, v: World, r: Request)
    requires Inv(hash, base, w) && After(hash, w, steps) == Some(v) && Answer(w.t, r).Some?
    ensures Answer(v.t, r) == Answer(w.t, r)
    decreases |steps|
  {
    hide Inv, CanStep, Next, Answer;
    if steps != [] {
      StepKeepsInv(hash, base, w, steps[0]);
      StepKeepsAnswers(hash, base, w, steps[0], r);
      AnswersNeverChange(hash, base, Next(hash, w, steps[0]), steps[1..], v, r);
    }
  }

  /** What a call returned is what the tables hold for it, then and later: two
    calls for one record return the same identifier, and only one of them is
    told that it created it. */
  lemma OneRecordOneId(hash: string -> int, base: map<string, Counter>, w: World, a: nat, b: nat)
    requires Registered(base) && Reachable(hash, base, w)
    requires a in w.txs && b in w.txs && w.txs[a].Returned? && w.txs[b].Returned?
    requires w.txs[a].request == w.txs[b].request
    ensures w.txs[a].id == w.txs[b].id && Answer(w.t, w.txs[a].request) == Some(w.txs[a].id)
    ensures w.txs[a].created && w.txs[b].created ==> a == b
  {
    hide Books, Reachable, Answer;
    ReachableInv(hash, base, w);
    assert TxOk(hash, w, a, w.txs[a]) && TxOk(hash, w, b, w.txs[b]);
    if w.txs[a].created && w.txs[b].created {
      var i :| 0 <= i < |w.t.announcements| && w.t.announcements[i] == Announcement(w.txs[a].request, w.txs[a].id, a);
      var j :| 0 <= j < |w.t.announcements| && w.t.announcements[j] == Announcement(w.txs[b].request, w.txs[b].id, b);
      if i < j {
        IdsAreDistinct(base, w.t, i, j);
      } else if j < i {
        IdsAreDistinct(base, w.t, j, i);
      }
    }
  }

  /** The insert loses exactly to a committed row, and the reread hands the loser
    the winner's identifier without claiming to have created it. */
  lemma LoserGetsTheWinnersId(hash: string -> int, base: map<string, Counter>, w: World, tx: nat)
    requires Reachable(hash, base, w) && tx in w.txs && w.txs[tx].Lost?
    ensures CanStep(hash, w, Reread(tx)) && Answer(w.t, w.txs[tx].request).Some?
    ensures Next(hash, w, Reread(tx)).txs[tx] ==
            Returned(w.txs[tx].request, Answer(w.t, w.txs[tx].request).value, false)
    ensures Next(hash, w, Reread(tx)).t == w.t
  {
    hide Books, Reachable, Answer;
    ReachableInv(hash, base, w);
    assert TxOk(hash, w, tx, w.txs[tx]);
  }

  // ------------------------------------------------------------- conservation

  /** A counter has moved by exactly the committed mints of its type, whatever
    was bumped and rolled back, and there is exactly one creation event for
    every identifier the tables hold. */
  lemma CountersCountMints(hash: string -> int, base: map<string, Counter>, w: World, k: string)
    requires Reachable(hash, base, w) && k in base
    ensures k in w.t.counters && w.t.counters[k].prefix == base[k].prefix
    ensures w.t.counters[k].next - base[k].next == Count(w.t.announcements, k)
  {
    hide Reachable, Count;
    ReachableInv(hash, base, w);
  }

  lemma OneAnnouncementPerMint(hash: string -> int, base: map<string, Counter>, w: World)
    requires Registered(base) && Reachable(hash, base, w)
    ensures forall i :: 0 <= i < |w.t.announcements| ==>
              Answer(w.t, w.t.announcements[i].request) == Some(w.t.announcements[i].id)
    ensures forall i, j :: 0 <= i < j < |w.t.announcements| ==>
              w.t.announcements[i].request != w.t.announcements[j].request && w.t.announcements[i].id != w.t.announcements[j].id
    ensures forall r: Request :: Answer(w.t, r).Some? ==>
              exists i :: 0 <= i < |w.t.announcements| && w.t.announcements[i].id == Answer(w.t, r).value
  {
    hide Reachable, Answer;
    ReachableInv(hash, base, w);
    forall i, j | 0 <= i < j < |w.t.announcements|
      ensures w.t.announcements[i].request != w.t.announcements[j].request && w.t.announcements[i].id != w.t.announcements[j].id
    {
      IdsAreDistinct(base, w.t, i, j);
      assert Answer(w.t, w.t.announcements[i].request) == Some(w.t.announcements[i].id);
    }
    forall r: Request | Answer(w.t, r).Some?
      ensures exists i :: 0 <= i < |w.t.announcements| && w.t.announcements[i].id == Answer(w.t, r).value
    {
      var i := AnswerWasAnnounced(base, w.t, r);
    }
  }

  // ------------------------------------------------- identities and entity rows

  /** An identity and the entity row that stands for it carry the same identifier
    exactly when nobody minted one for that row as an upstream record. */
  lemma IdentityAndEntityAgreeExactlyWhen(hash: string -> int, base: map<string, Counter>, w: World, r: Request)
    requires Registered(base) && Reachable(hash, base, w) && !r.Entity? && Answer(w.t, r).Some?
    ensures Answer(w.t, Entity(KeyOf(r))).Some?
    ensures Answer(w.t, r) == Answer(w.t, Entity(KeyOf(r))) <==> !AnnouncedFor(w.t.announcements, Entity(KeyOf(r)))
  {
    hide Reachable, Books;
    ReachableInv(hash, base, w);
    IdentityWasAnnounced(base, w.t, r);
    var minted, e := w.t.announcements, Entity(KeyOf(r));
    assert Answer(w.t, e).Some?;
    hide Inv, Answer;
    OneAnnouncementPerMint(hash, base, w);
    var j := AnswerWasAnnounced(base, w.t, e);
    var k :| 0 <= k < |minted| && minted[k].request == r;
    if AnnouncedFor(minted, e) {
      var m :| 0 <= m < |minted| && minted[m].request == e;
      assert m != k;
    } else {
      assert minted[j].request != e;
    }
  }

  /** Over every run, the entity row of a sighted subject is there, and asking for
    it as an upstream record returns the identity's own identifier and mints
    nothing, unless somebody had asked for that record before. */
  lemma SightedSubjectStaysKnown(hash: string -> int, base: map<string, Counter>, w: World, subject: string, tx: nat)
    requires Registered(base) && Reachable(hash, base, w)
    ensures subject in w.t.users ==>
              var key := Key("authentik", "user", subject);
              && key in w.t.entities
              && (Allocate(w.t, Entity(key), tx) == Allocated(w.t, w.t.users[subject], false) <==>
                    forall i :: 0 <= i < |w.t.announcements| ==> w.t.announcements[i].request != Entity(key))
    ensures subject in w.t.services ==>
              var key := Key("authentik", "service", subject);
              && key in w.t.entities
              && (Allocate(w.t, Entity(key), tx) == Allocated(w.t, w.t.services[subject], false) <==>
                    forall i :: 0 <= i < |w.t.announcements| ==> w.t.announcements[i].request != Entity(key))
  {
    hide Registered, Reachable, Minted;
    if subject in w.t.users {
      IdentityAndEntityAgreeExactlyWhen(hash, base, w, User(subject));
    }
    if subject in w.t.services {
      IdentityAndEntityAgreeExactlyWhen(hash, base, w, Service(subject));
    }
  }

  lemma IdentityWasAnnounced(base: map<string, Counter>, t: Tables, r: Request)
    requires Books(base, t) && !r.Entity? && Answer(t, r).Some?
    ensures AnnouncedFor(t.announcements, r) && KeyOf(r) in t.entities
  {
  }

  // ------------------------------------------------------------- a call alone

  /** The statements of one call, in order, as its request needs them. */
  function Statements(t: Tables, r: Request, tx: nat): seq<Step> {
    var start := if r.Entity? then [Begin(tx, r)] else [Begin(tx, r), TakeAdvisory(tx)];
    if Answer(t, r).Some? then start + [Read(tx), Commit(tx, true)]
    else if TypeOf(r) in t.counters then start + [Read(tx), Bump(tx), Insert(tx), Commit(tx, true)]
    else start + [Read(tx), Bump(tx)]
  }

  function AfterOne(hash: string -> int, w: Option<World>, step: Step): Option<World> {
    if w.Some? && CanStep(hash, w.value, step) then Some(Next(hash, w.value, step)) else None
  }

  lemma {:induction false} AfterJoined(hash: string -> int, w: World, steps: seq<Step>, step: Step)
    ensures After(hash, w, steps + [step]) == AfterOne(hash, After(hash, w, steps), step)
    decreases |steps|
  {
    hide CanStep, Next;
    if steps == [] {
      assert steps + [step] == [step];
      assert [step][1..] == [];
    } else {
      assert (steps + [step])[1..] == steps[1..] + [step];
      if CanStep(hash, w, steps[0]) {
        AfterJoined(hash, Next(hash, w, steps[0]), steps[1..], step);
      }
    }
  }

  lemma AloneUpToRead(hash: string -> int, w: World, r: Request, tx: nat) returns (steps: seq<Step>, v: World)
    requires tx !in w.txs && w.counterLocks == map[] && w.advisory == map[]
    ensures steps == (if r.Entity? then [Begin(tx, r)] else [Begin(tx, r), TakeAdvisory(tx)]) + [Read(tx)]
    ensures After(hash, w, steps) == Some(v) && v.t == w.t && v.counterLocks == map[]
    ensures tx in v.txs && v.txs[tx] == if Answer(w.t, r).Some? then Found(r, Answer(w.t, r).value) else Missed(r)
  {
    hide Answer;
    steps := [Begin(tx, r)];
    assert After(hash, w, []) == Some(w) && [] + [Begin(tx, r)] == steps;
    AfterJoined(hash, w, [], Begin(tx, r));
    if !r.Entity? {
      AfterJoined(hash, w, steps, TakeAdvisory(tx));
      steps := steps + [TakeAdvisory(tx)];
    }
    AfterJoined(hash, w, steps, Read(tx));
    steps := steps + [Read(tx)];
    v := After(hash, w, steps).value;
  }

  lemma AloneFound(hash: string -> int, v: World, r: Request, tx: nat)
    requires tx in v.txs && Answer(v.t, r).Some? && v.txs[tx] == Found(r, Answer(v.t, r).value)
    ensures var done := AfterOne(hash, Some(v), Commit(tx, true));
            && done.Some? && done.value.t == v.t
            && tx in done.value.txs && done.value.txs[tx] == Returned(r, Answer(v.t, r).value, false)
  {
  }

  lemma AloneFromMiss(hash: string -> int, v: World, r: Request, tx: nat)
    requires tx in v.txs && v.txs[tx] == Missed(r) && v.counterLocks == map[]
    requires Answer(v.t, r).None? && TypeOf(r) in v.t.counters
    ensures var done := AfterOne(hash, AfterOne(hash, AfterOne(hash, Some(v), Bump(tx)), Insert(tx)), Commit(tx, true));
            && done.Some? && done.value.t == Minted(v.t, r, tx)
            && tx in done.value.txs && done.value.txs[tx] == Returned(r, NextId(v.t, r), true)
  {
    hide NextId;
    var bumped := Next(hash, v, Bump(tx));
    assert bumped.txs[tx] == Bumped(r, NextId(v.t, r), v.t.counters[TypeOf(r)].next + 1);
    var written := Next(hash, bumped, Insert(tx));
    assert written.txs[tx].Written?;
  }

  /** Run without interference, a call leaves the tables and returns the answer
    of the sequential function the store's methods are proved against. */
  lemma AloneIsAllocate(hash: string -> int, w: World, r: Request, tx: nat)
    requires tx !in w.txs && w.counterLocks == map[] && w.advisory == map[]
    ensures var after := After(hash, w, Statements(w.t, r, tx));
            && after.Some? && tx in after.value.txs
            && match Allocate(w.t, r, tx)
               case Unsupported => after.value.t == w.t && after.value.txs[tx] == Ended(r)
               case Allocated(tables, id, created) => after.value.t == tables && after.value.txs[tx] == Returned(r, id, created)
  {
    var steps, v := AloneUpToRead(hash, w, r, tx);
    StatementsAre(w.t, r, tx, steps);
    hide After, Format, Next, CanStep, Minted, NextId, Statements;
    if Answer(w.t, r).Some? {
      AfterJoined(hash, w, steps, Commit(tx, true));
      AloneFound(hash, v, r, tx);
    } else if TypeOf(r) !in w.t.counters {
      AfterJoined(hash, w, steps, Bump(tx));
    } else {
      AfterJoined(hash, w, steps, Bump(tx));
      AloneFromMiss(hash, v, r, tx);
      AfterJoined(hash, w, steps + [Bump(tx)], Insert(tx));
      AfterJoined(hash, w, steps + [Bump(tx)] + [Insert(tx)], Commit(tx, true));
    }
  }

  lemma StatementsAre(t: Tables, r: Request, tx: nat, steps: seq<Step>)
    requires steps == (if r.Entity? then [Begin(tx, r)] else [Begin(tx, r), TakeAdvisory(tx)]) + [Read(tx)]
    ensures Statements(t, r, tx) ==
            if Answer(t, r).Some? then steps + [Commit(tx, true)]
            else if TypeOf(r) in t.counters then steps + [Bump(tx)] + [Insert(tx)] + [Commit(tx, true)]
            else steps + [Bump(tx)]
  {
  }
}
