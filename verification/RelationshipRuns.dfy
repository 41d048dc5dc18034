/** Every run of relationship creates and deletes by any number of callers.

  An insert that finds its edge stored takes a second statement to read the row,
  and anything may commit between the two.  Transactions that roll back draw an
  id and leave nothing else. */
module RelationshipRuns {
  import opened Wrappers
  import opened Relationships

  /** A create whose insert met a stored edge; `since` is how much of the audit
    trail there was then. */
  datatype Pending = Pending(edge: Edge, since: nat)

  datatype Result = Failed(error: Error) | Answered(id: nat, created: bool) | NoRow

  datatype World = World(t: Tables, pending: map<nat, Pending>, results: map<nat, Result>)

  datatype Step =
    | Register(globalId: string)
    | Create(call: nat, source: string, verb: string, target: string, who: Actor, at: int)
    | Reread(call: nat)
    | Delete(id: nat, who: Actor)
    | RollBack

  const START := World(Tables({}, map[], 1, [], []), map[], map[])

  ghost predicate CanStep(w: World, step: Step) {
    match step
    case Create(call, _, _, _, _, _) => call !in w.pending && call !in w.results
    case Reread(call) => call in w.pending
    case Delete(_, who) => who != Actor("", "")
    case _ => true
  }

  ghost function Next(w: World, step: Step): World
    requires CanStep(w, step)
  {
    match step
    case Register(g) => w.(t := w.t.(known := w.t.known + {g}))
    case Create(call, source, verb, target, who, at) =>
      (match Check(source, verb, target, who)
       case Fault(error) => w.(results := w.results[call := Result.Failed(error)])
       case Sound(edge) =>
         var id := w.t.nextId;
         if Holds(w.t.rows, edge) then
           w.(t := w.t.(nextId := id + 1), pending := w.pending[call := Pending(edge, |w.t.audits|)])
         else if Insertable(w.t, edge) then
           w.(t := WithRow(w.t, id, edge, who, at), results := w.results[call := Answered(id, true)])
         else
           w.(t := w.t.(nextId := id + 1), results := w.results[call := Result.Failed(UnknownGlobalId)]))
    case Reread(call) =>
      var edge := w.pending[call].edge;
      w.(pending := w.pending - {call}, results := w.results[call := Reading(w.t.rows, edge)])
    case Delete(id, who) => if id in w.t.rows then w.(t := WithoutRow(w.t, id, who)) else w
    case RollBack => w.(t := w.t.(nextId := w.t.nextId + 1))
  }

  ghost function Reading(rows: map<nat, Row>, edge: Edge): Result {
    if Holds(rows, edge) then
      var id :| id in rows && rows[id].edge == edge;
      Answered(id, false)
    else NoRow
  }

  ghost function After(w: World, steps: seq<Step>): Option<World>
    decreases |steps|
  {
    if steps == [] then Some(w)
    else if CanStep(w, steps[0]) then After(Next(w, steps[0]), steps[1..])
    else None
  }

  ghost predicate Reachable(w: World) {
    exists steps :: After(START, steps) == Some(w)
  }

  /** What the latest audit that names an edge says became of it. */
  function Latest(audits: seq<Audit>, edge: Edge): Option<Action> {
    if audits == [] then None
    else if audits[|audits| - 1].edge == edge then Some(audits[|audits| - 1].action)
    else Latest(audits[..|audits| - 1], edge)
  }

  /** From audit `since` on, the edge is deleted and not created again after. */
  ghost predicate DeletedForGood(audits: seq<Audit>, edge: Edge, since: nat) {
    exists i :: since <= i < |audits| && audits[i].action == Deletion && audits[i].edge == edge && !CreatedAfter(audits, edge, i)
  }

  ghost predicate CreatedAfter(audits: seq<Audit>, edge: Edge, i: nat) {
    exists j :: i < j < |audits| && audits[j].action == Creation && audits[j].edge == edge
  }

  lemma LatestGrows(audits: seq<Audit>, a: Audit, edge: Edge)
    ensures Latest(audits + [a], edge) == if a.edge == edge then Some(a.action) else Latest(audits, edge)
  {
    assert (audits + [a])[..|audits|] == audits;
  }

  /** The latest audit, where it stands. */
  lemma {:induction false} LatestStands(audits: seq<Audit>, edge: Edge) returns (i: nat)
    requires Latest(audits, edge).Some?
    ensures i < |audits| && audits[i].edge == edge && Some(audits[i].action) == Latest(audits, edge)
    ensures forall j :: i < j < |audits| ==> audits[j].edge != edge
  {
    if audits[|audits| - 1].edge == edge {
      i := |audits| - 1;
    } else {
      i := LatestStands(audits[..|audits| - 1], edge);
    }
  }

  lemma {:induction false} LatestNamed(audits: seq<Audit>, edge: Edge, i: nat)
    requires i < |audits| && audits[i].edge == edge
    ensures Latest(audits, edge).Some?
  {
    if i < |audits| - 1 && audits[|audits| - 1].edge != edge {
      LatestNamed(audits[..|audits| - 1], edge, i);
    }
  }

  /** An edge last created before `since` is last deleted now exactly when it was
    deleted for good since. */
  lemma DeletedSinceExactlyWhen(audits: seq<Audit>, edge: Edge, since: nat)
    requires since <= |audits| && Latest(audits[..since], edge) == Some(Creation)
    ensures Latest(audits, edge) != Some(Creation) <==> DeletedForGood(audits, edge, since)
  {
    hide Latest;
    var c := LatestStands(audits[..since], edge);
    assert audits[c].edge == edge;
    LatestNamed(audits, edge, c);
    var i := LatestStands(audits, edge);
    if audits[i].action == Deletion {
      assert forall j :: c < j < since ==> audits[j] == audits[..since][j];
      assert i >= since && !CreatedAfter(audits, edge, i);
    } else {
      forall d | since <= d < i && audits[d].edge == edge
        ensures CreatedAfter(audits, edge, d)
      {
        assert audits[i].action == Creation;
      }
    }
  }

  /** A row is stored exactly when the latest word on its edge is its creation. */
  ghost predicate LatestTells(t: Tables) {
    forall edge: Edge :: Holds(t.rows, edge) <==> Latest(t.audits, edge) == Some(Creation)
  }

  ghost predicate PendingOk(w: World, p: Pending) {
    p.since <= |w.t.audits| && Latest(w.t.audits[..p.since], p.edge) == Some(Creation)
  }

  ghost predicate RunInv(w: World) {
    Inv(w.t) && LatestTells(w.t) && forall call :: call in w.pending ==> PendingOk(w, w.pending[call])
  }

  lemma CreationTells(t: Tables, id: nat, edge: Edge, who: Actor, at: int)
    requires LatestTells(t) && id !in t.rows
    ensures LatestTells(WithRow(t, id, edge, who, at))
  {
    hide Latest, EventFor;
    var next := WithRow(t, id, edge, who, at);
    forall e: Edge
      ensures Holds(next.rows, e) <==> Latest(next.audits, e) == Some(Creation)
    {
      LatestGrows(t.audits, CreationOf(id, edge, who), e);
      if e == edge {
        assert next.rows[id].edge == e;
      } else if Holds(t.rows, e) {
        var k :| k in t.rows && t.rows[k].edge == e;
        assert next.rows[k].edge == e;
      }
    }
  }

  lemma DeletionTells(t: Tables, id: nat, who: Actor)
    requires LatestTells(t) && Rows(t) && id in t.rows
    ensures LatestTells(WithoutRow(t, id, who))
  {
    hide Latest, EventFor, RowOk;
    var next, edge := WithoutRow(t, id, who), t.rows[id].edge;
    forall e: Edge
      ensures Holds(next.rows, e) <==> Latest(next.audits, e) == Some(Creation)
    {
      LatestGrows(t.audits, DeletionOf(id, edge, who), e);
      if e != edge && Holds(t.rows, e) {
        var k :| k in t.rows && t.rows[k].edge == e;
        assert k in next.rows && next.rows[k].edge == e;
      }
    }
  }

  lemma PendingStays(w: World, v: World, p: Pending)
    requires PendingOk(w, p) && w.t.audits <= v.t.audits
    ensures PendingOk(v, p)
  {
    assert v.t.audits[..p.since] == w.t.audits[..p.since];
  }

  lemma SoundEdges(source: string, verb: string, target: string, who: Actor)
    ensures var check := Check(source, verb, target, who);
            check.Sound? ==> IsForward(check.edge.relation) && check.edge.source != check.edge.target && who != Actor("", "")
  {
  }

  lemma GrowingKeepsInv(t: Tables, known: set<string>, next: nat)
    requires Inv(t) && t.known <= known && t.nextId <= next
    ensures Inv(t.(known := known, nextId := next))
  {
    hide Tally, AuditedAs, EventFor, IsForward;
  }

  /** A step that touches neither rows nor audits. */
  lemma QuietStep(w: World, v: World)
    requires RunInv(w) && w.t.known <= v.t.known && w.t.nextId <= v.t.nextId
    requires v.t == w.t.(known := v.t.known, nextId := v.t.nextId)
    requires forall call :: call in v.pending ==>
               (call in w.pending && v.pending[call] == w.pending[call]) ||
               (Holds(v.t.rows, v.pending[call].edge) && v.pending[call].since == |v.t.audits|)
    ensures RunInv(v)
  {
    GrowingKeepsInv(w.t, v.t.known, v.t.nextId);
    hide Inv, Holds, Latest;
    forall call | call in v.pending
      ensures PendingOk(v, v.pending[call])
    {
      assert v.t.audits[..|v.t.audits|] == v.t.audits;
      if call in w.pending && v.pending[call] == w.pending[call] {
        PendingStays(w, v, w.pending[call]);
      }
    }
  }

  lemma CreateKeepsInv(w: World, step: Step)
    requires RunInv(w) && step.Create? && CanStep(w, step)
    ensures RunInv(Next(w, step))
  {
    hide RunInv, Inv, Holds, Canonical, WithRow, PendingOk;
    var v, check := Next(w, step), Check(step.source, step.verb, step.target, step.who);
    if check.Sound? && Insertable(w.t, check.edge) {
      RowWritten(w, v, check.edge, step);
    } else {
      QuietStep(w, v);
    }
  }

  lemma RowWritten(w: World, v: World, edge: Edge, step: Step)
    requires RunInv(w) && step.Create? && Insertable(w.t, edge)
    requires Check(step.source, step.verb, step.target, step.who) == Sound(edge)
    requires v.t == WithRow(w.t, w.t.nextId, edge, step.who, step.at) && v.pending == w.pending
    ensures RunInv(v)
  {
    hide Trail, PendingOk, Check, Insertable, RowOk, LatestTells;
    SoundEdges(step.source, step.verb, step.target, step.who);
    CreationKeepsInv(w.t, w.t.nextId, edge, step.who, step.at);
    CreationTells(w.t, w.t.nextId, edge, step.who, step.at);
    forall call | call in v.pending
      ensures PendingOk(v, v.pending[call])
    {
      PendingStays(w, v, w.pending[call]);
    }
  }

  lemma DeleteKeepsInv(w: World, id: nat, who: Actor)
    requires RunInv(w) && CanStep(w, Delete(id, who))
    ensures RunInv(Next(w, Delete(id, who)))
  {
    hide Trail, PendingOk, LatestTells, RowOk;
    if id in w.t.rows {
      var v := Next(w, Delete(id, who));
      DeletionKeepsInv(w.t, id, who);
      DeletionTells(w.t, id, who);
      forall call | call in v.pending
        ensures PendingOk(v, v.pending[call])
      {
        PendingStays(w, v, w.pending[call]);
      }
    }
  }

  lemma StepKeepsInv(w: World, step: Step)
    requires RunInv(w) && CanStep(w, step)
    ensures RunInv(Next(w, step))
  {
    hide RunInv, Reading, Check, Holds;
    match step
    case Create(_, _, _, _, _, _) => CreateKeepsInv(w, step);
    case Delete(id, who) => DeleteKeepsInv(w, id, who);
    case _ => QuietStep(w, Next(w, step));
  }

  lemma {:induction false} RunKeepsInv(w: World, steps: seq<Step>)
    requires RunInv(w)
    ensures After(w, steps).Some? ==> RunInv(After(w, steps).value)
    decreases |steps|
  {
    hide RunInv, CanStep, Next;
    if steps != [] && CanStep(w, steps[0]) {
      StepKeepsInv(w, steps[0]);
      RunKeepsInv(Next(w, steps[0]), steps[1..]);
    }
  }

  lemma ReachableInv(w: World)
    requires Reachable(w)
    ensures RunInv(w)
  {
    var steps :| After(START, steps) == Some(w);
    assert Tally([], Creation) == 0 && Tally([], Deletion) == 0;
    RunKeepsInv(START, steps);
  }

  // --------------------------------------------------------------- every run

  /** No edge joins an identifier to itself, and no edge is stored twice under
    either spelling. */
  lemma EdgesAreSoundAndUnique(w: World, i: nat, j: nat, a: string, l: string, b: string, m: string)
    requires Reachable(w) && i in w.t.rows && j in w.t.rows && IsLabel(l) && IsLabel(m)
    ensures w.t.rows[i].edge.source != w.t.rows[i].edge.target
    ensures Canonical(a, l, b) == Some(w.t.rows[i].edge) && Canonical(a, l, b) == Some(w.t.rows[j].edge) ==> i == j
    ensures l != RELATED && m == OtherLabel(l) && Canonical(a, l, b) == Some(w.t.rows[i].edge) && Canonical(b, m, a) == Some(w.t.rows[j].edge) ==> i == j
  {
    hide Trail, Canonical, OtherLabel;
    ReachableInv(w);
    assert RowOk(w.t.known, w.t.rows[i]);
    SameEdgeExactlyWhen(a, l, b, b, m, a);
  }

  /** The rows are the audited creations less the audited deletions, and the
    events repeat the audits. */
  lemma TrailTellsTheRows(w: World, id: nat, edge: Edge)
    requires Reachable(w)
    ensures |w.t.rows| == Tally(w.t.audits, Creation) - Tally(w.t.audits, Deletion)
    ensures id in w.t.rows && w.t.rows[id].edge == edge <==>
            AuditedAs(w.t.audits, Creation, id, edge) && !AuditedAs(w.t.audits, Deletion, id, edge)
    ensures |w.t.events| == |w.t.audits|
    ensures forall i :: 0 <= i < |w.t.audits| ==>
              var a := w.t.audits[i];
              w.t.events[i] ==
              Event(if a.action == Creation then "relationship.created" else "relationship.deleted",
                    a.edge.source, a.resource, a.edge, a.who)
  {
    hide Rows, AuditedAs, Tally;
    ReachableInv(w);
  }

  lemma CreationAnnounced(w: World, step: Step)
    requires Rows(w.t) && step.Create? && CanStep(w, step)
    ensures var v := Next(w, step);
            if step.call in v.results && v.results[step.call].Answered? then
              var id := v.results[step.call].id;
              && id !in w.t.rows && id in v.t.rows && v.t.rows == w.t.rows[id := v.t.rows[id]]
              && v.t.rows[id].createdBy == step.who && v.t.rows[id].createdAt == step.at
              && v.t.events == w.t.events +
                   [Event("relationship.created", v.t.rows[id].edge.source, id, v.t.rows[id].edge, step.who)]
            else v.t.rows == w.t.rows && v.t.events == w.t.events
  {
    hide RowOk, Canonical, Holds, Insertable;
    assert w.t.nextId !in w.t.rows;
  }

  lemma DeletionAnnounced(t: Tables, id: nat, who: Actor)
    requires id in t.rows
    ensures WithoutRow(t, id, who).events ==
            t.events + [Event("relationship.deleted", t.rows[id].edge.source, id, t.rows[id].edge, who)]
  {
  }

  /** Over every run, an event is queued by the statement that stores a row and by
    the one that deletes it, under its own name and with the row's own fields,
    and by nothing else. */
  lemma EventsTellTheRows(w: World, step: Step)
    requires Reachable(w) && CanStep(w, step)
    ensures var v := Next(w, step);
            if step.Create? && step.call in v.results && v.results[step.call].Answered? then
              var id := v.results[step.call].id;
              && id !in w.t.rows && id in v.t.rows && v.t.rows == w.t.rows[id := v.t.rows[id]]
              && v.t.rows[id].createdBy == step.who && v.t.rows[id].createdAt == step.at
              && v.t.events == w.t.events +
                   [Event("relationship.created", v.t.rows[id].edge.source, id, v.t.rows[id].edge, step.who)]
            else if step.Delete? && step.id in w.t.rows then
              && v.t.rows == w.t.rows - {step.id}
              && v.t.events == w.t.events +
                   [Event("relationship.deleted", w.t.rows[step.id].edge.source, step.id, w.t.rows[step.id].edge, step.who)]
            else v.t.rows == w.t.rows && v.t.events == w.t.events
  {
    ReachableInv(w);
    hide Reachable, Inv, LatestTells, PendingOk, Reading, EventFor, Check, Holds;
    match step
    case Create(_, _, _, _, _, _) =>
      assert Rows(w.t) by {
        assert Inv(w.t);
        InvHasRows(w.t);
      }
      CreationAnnounced(w, step);
    case Delete(id, who) =>
      if id in w.t.rows {
        DeletionAnnounced(w.t, id, who);
      }
    case _ =>
  }

  lemma InvHasRows(t: Tables)
    requires Inv(t)
    ensures Rows(t)
  {
  }

  /** A create that met a stored edge reads nothing back exactly when the edge was
    deleted since and not created again after that. */
  lemma RereadFailsExactlyWhenDeleted(w: World, call: nat)
    requires Reachable(w) && call in w.pending
    ensures var p := w.pending[call];
            && CanStep(w, Reread(call))
            && (Next(w, Reread(call)).results[call] == NoRow <==> DeletedForGood(w.t.audits, p.edge, p.since))
  {
    ReachableInv(w);
    hide Inv, DeletedForGood, Latest, Holds, Reachable;
    var p := w.pending[call];
    assert PendingOk(w, p);
    DeletedSinceExactlyWhen(w.t.audits, p.edge, p.since);
    assert Holds(w.t.rows, p.edge) <==> Latest(w.t.audits, p.edge) == Some(Creation);
  }

  // ------------------------------------------------------------ reachable cases

  lemma {:induction false} AfterOneMore(w: World, steps: seq<Step>, v: World, step: Step)
    requires After(w, steps) == Some(v) && CanStep(v, step)
    ensures After(w, steps + [step]) == Some(Next(v, step))
    decreases |steps|
  {
    hide CanStep, Next;
    if steps == [] {
      assert [step][1..] == [];
      assert steps + [step] == [step];
    } else {
      AfterOneMore(Next(w, steps[0]), steps[1..], v, step);
      assert (steps + [step])[1..] == steps[1..] + [step];
    }
  }

  lemma ReachableNext(w: World, step: Step)
    requires Reachable(w) && CanStep(w, step)
    ensures Reachable(Next(w, step))
  {
    var steps :| After(START, steps) == Some(w);
    AfterOneMore(START, steps, w, step);
  }

  /** Two registered identifiers and an edge from A to B. */
  lemma OneEdgeStored(verb: string) returns (w: World)
    requires IsForward(verb)
    ensures Reachable(w) && w.pending == map[] && w.t.known == {"A", "B"}
    ensures w.t.rows.Keys == {1} && w.t.rows[1].edge == Edge("A", verb, "B") && w.t.nextId == 2
    ensures forall call :: call in w.results ==> call == 0
  {
    hide VOCABULARY, IsForward;
    assert After(START, []) == Some(START);
    var steps := [Register("A"), Register("B"), Create(0, "A", verb, "B", Actor("u", ""), 0)];
    w := START;
    ReachableNext(w, steps[0]);
    w := Next(w, steps[0]);
    ReachableNext(w, steps[1]);
    w := Next(w, steps[1]);
    assert w.t.known == {"A", "B"} && w.t.rows == map[];
    assert Canonical("A", verb, "B") == Some(Edge("A", verb, "B"));
    ReachableNext(w, steps[2]);
    w := Next(w, steps[2]);
  }

  /** `related-to` is stored the way round it was said: both can be there. */
  lemma RelatedBothWaysIsReachable() returns (w: World)
    ensures Reachable(w) && Holds(w.t.rows, Edge("A", RELATED, "B")) && Holds(w.t.rows, Edge("B", RELATED, "A"))
  {
    VocabularyRelated();
    hide VOCABULARY;
    w := OneEdgeStored(RELATED);
    var step := Create(1, "B", RELATED, "A", Actor("u", ""), 0);
    assert Canonical("B", RELATED, "A") == Some(Edge("B", RELATED, "A"));
    assert !Holds(w.t.rows, Edge("B", RELATED, "A"));
    ReachableNext(w, step);
    w := Next(w, step);
    assert w.t.rows[1].edge == Edge("A", RELATED, "B") && w.t.rows[2].edge == Edge("B", RELATED, "A");
  }

  /** A create can be answered with no row although nothing it asked was wrong. */
  lemma NoRowIsReachable() returns (w: World)
    ensures Reachable(w) && 1 in w.results && w.results[1] == NoRow
  {
    VocabularyRelated();
    hide VOCABULARY;
    w := OneEdgeStored(RELATED);
    var who, edge := Actor("u", ""), Edge("A", RELATED, "B");
    assert Canonical("A", RELATED, "B") == Some(edge);
    assert Holds(w.t.rows, edge);
    var again := Create(1, "A", RELATED, "B", who, 0);
    ReachableNext(w, again);
    w := Next(w, again);
    assert w.pending[1].edge == edge && w.t.rows.Keys == {1};
    ReachableNext(w, Delete(1, who));
    w := Next(w, Delete(1, who));
    assert w.t.rows == map[] && !Holds(w.t.rows, edge);
    ReachableNext(w, Reread(1));
    w := Next(w, Reread(1));
  }
}
