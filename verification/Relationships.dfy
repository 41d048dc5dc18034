/** The relationship store of internal/platformdb/relationships.go over the
  tables of migration 019: one canonical row per edge, under two spellings. */
module Relationships {
  import opened Wrappers

  datatype Edge = Edge(source: string, relation: string, target: string)

  datatype Actor = Actor(user: string, service: string)

  datatype Row = Row(edge: Edge, createdBy: Actor, createdAt: int)

  datatype Action = Creation | Deletion

  datatype Audit = Audit(action: Action, actorUser: string, resource: nat, edge: Edge, who: Actor)

  datatype Event = Event(name: string, entity: string, id: nat, edge: Edge, who: Actor)

  /** `known` are the identifiers in the entity table. */
  datatype Tables = Tables(known: set<string>, rows: map<nat, Row>, nextId: nat, audits: seq<Audit>, events: seq<Event>)

  datatype Error = MissingActor | InvalidRelationType | UnknownGlobalId | SelfRelationship

  const RELATED := "related-to"

  const VOCABULARY: map<string, string> := map[
    RELATED := RELATED,
    "tests" := "tested-by",
    "validates" := "validated-by",
    "documents" := "documented-by",
    "implements" := "implemented-by",
    "depends-on" := "required-by",
    "blocks" := "blocked-by",
    "references" := "referenced-by"]

  // -------------------------------------------------------------- two spellings

  predicate IsForward(verb: string) {
    verb in VOCABULARY
  }

  predicate IsInverse(verb: string) {
    exists forward :: forward in VOCABULARY && forward != VOCABULARY[forward] && VOCABULARY[forward] == verb
  }

  predicate IsLabel(verb: string) {
    IsForward(verb) || IsInverse(verb)
  }

  /** No label is the inverse of two relations, or both forward and inverse. */
  lemma VocabularyIsReversible(a: string, b: string)
    requires a in VOCABULARY && b in VOCABULARY
    ensures VOCABULARY[a] == VOCABULARY[b] ==> a == b
    ensures a != VOCABULARY[a] ==> !IsForward(VOCABULARY[a])
    ensures a == VOCABULARY[a] <==> a == RELATED
  {
  }

  function Forward(verb: string): (forward: string)
    requires IsInverse(verb)
    ensures forward in VOCABULARY && forward != VOCABULARY[forward] && VOCABULARY[forward] == verb
  {
    UniqueForward(verb);
    var forward :| forward in VOCABULARY && forward != VOCABULARY[forward] && VOCABULARY[forward] == verb;
    forward
  }

  lemma UniqueForward(verb: string)
    ensures forall a, b :: a in VOCABULARY && b in VOCABULARY && VOCABULARY[a] == verb && VOCABULARY[b] == verb ==> a == b
  {
  }

  /** The edge a caller's spelling names, forward labels taking precedence. */
  function Canonical(source: string, verb: string, target: string): Option<Edge> {
    if IsForward(verb) then Some(Edge(source, verb, target))
    else if IsInverse(verb) then Some(Edge(target, Forward(verb), source))
    else None
  }

  /** The label the same edge carries from its other end. */
  function OtherLabel(verb: string): string
    requires IsLabel(verb)
  {
    if IsForward(verb) then VOCABULARY[verb] else Forward(verb)
  }

  lemma OtherLabelHolds(verb: string)
    requires IsLabel(verb)
    ensures IsLabel(OtherLabel(verb)) && OtherLabel(OtherLabel(verb)) == verb
    ensures OtherLabel(verb) == verb <==> verb == RELATED
    ensures verb != RELATED ==> (IsForward(verb) <==> IsInverse(OtherLabel(verb))) && (IsInverse(verb) <==> !IsForward(verb))
  {
    hide VOCABULARY;
    if IsForward(verb) {
      VocabularyIsReversible(verb, verb);
      if verb != RELATED {
        assert IsInverse(VOCABULARY[verb]);
        var back := Forward(VOCABULARY[verb]);
        VocabularyIsReversible(verb, back);
        if IsInverse(verb) {
          VocabularyIsReversible(Forward(verb), verb);
        }
      }
    } else {
      var forward := Forward(verb);
      VocabularyRelated();
      VocabularyIsReversible(forward, forward);
      if IsInverse(forward) {
        VocabularyIsReversible(Forward(forward), forward);
      }
    }
  }

  /** Two spellings name one edge exactly when they are the same spelling, or one
    is the other turned round, label and ends.  `related-to` has no turned-round
    spelling: A–B and B–A are two edges. */
  lemma SameEdgeExactlyWhen(a: string, l: string, b: string, c: string, m: string, d: string)
    requires IsLabel(l) && IsLabel(m)
    ensures Canonical(a, l, b) == Canonical(c, m, d) <==>
            (l == m && a == c && b == d) || (l != RELATED && m == OtherLabel(l) && a == d && b == c)
  {
    hide VOCABULARY;
    OtherLabelHolds(l);
    OtherLabelHolds(m);
    VocabularyRelated();
    if !IsForward(l) && !IsForward(m) {
      assert VOCABULARY[Forward(l)] == l && VOCABULARY[Forward(m)] == m;
    } else if IsForward(l) && !IsForward(m) {
      VocabularyIsReversible(l, Forward(m));
    } else if IsForward(m) && !IsForward(l) {
      VocabularyIsReversible(m, Forward(l));
    }
  }

  lemma VocabularyRelated()
    ensures IsForward(RELATED) && VOCABULARY[RELATED] == RELATED
  {
  }

  // ---------------------------------------------------------------- operations

  datatype Checked = Fault(error: Error) | Sound(edge: Edge)

  /** What is refused before the database is asked. */
  function Check(source: string, verb: string, target: string, who: Actor): Checked {
    if who == Actor("", "") then Fault(MissingActor)
    else
      match Canonical(source, verb, target)
      case None => Fault(InvalidRelationType)
      case Some(edge) =>
        if edge.source == "" || edge.target == "" then Fault(UnknownGlobalId)
        else if edge.source == edge.target then Fault(SelfRelationship)
        else Sound(edge)
  }

  lemma OneLabel(forward: string, inverse: string)
    requires forward in VOCABULARY && VOCABULARY[forward] == inverse
    ensures IsLabel(forward) && OtherLabel(forward) == inverse
    ensures forward != inverse ==> IsLabel(inverse) && OtherLabel(inverse) == forward
  {
    OtherLabelHolds(forward);
    hide VOCABULARY;
  }

  /** How each relation reads from its other end. */
  lemma LabelsReadAs(forward: string, inverse: string)
    requires (forward, inverse) in {
               ("related-to", "related-to"), ("tests", "tested-by"), ("validates", "validated-by"),
               ("documents", "documented-by"), ("implements", "implemented-by"), ("depends-on", "required-by"),
               ("blocks", "blocked-by"), ("references", "referenced-by")}
    ensures IsLabel(forward) && OtherLabel(forward) == inverse
    ensures IsLabel(inverse) && OtherLabel(inverse) == forward
  {
    OneLabel(forward, inverse);
  }

  /** When a spelling is refused, and the edge that is stored otherwise: as spelled
    under a forward label, turned round under an inverse one. */
  lemma CheckedExactlyWhen(source: string, verb: string, target: string, who: Actor)
    ensures var checked := Check(source, verb, target, who);
            var acting := who.user != "" || who.service != "";
            && (checked == Fault(MissingActor) <==> !acting)
            && (checked == Fault(InvalidRelationType) <==> acting && !IsLabel(verb))
            && (checked == Fault(UnknownGlobalId) <==> acting && IsLabel(verb) && (source == "" || target == ""))
            && (checked == Fault(SelfRelationship) <==> acting && IsLabel(verb) && source == target != "")
            && (acting && IsLabel(verb) && source != "" && target != "" && source != target ==>
                  checked == Sound(if verb in VOCABULARY then Edge(source, verb, target)
                                   else Edge(target, OtherLabel(verb), source)))
  {
    hide VOCABULARY;
  }

  ghost predicate Holds(rows: map<nat, Row>, edge: Edge) {
    exists id :: id in rows && rows[id].edge == edge
  }

  function CreationOf(id: nat, edge: Edge, who: Actor): Audit {
    Audit(Creation, who.user, id, edge, who)
  }

  function DeletionOf(id: nat, edge: Edge, who: Actor): Audit {
    Audit(Deletion, who.user, id, edge, who)
  }

  function EventFor(a: Audit): Event {
    Event(if a.action == Creation then "relationship.created" else "relationship.deleted", a.edge.source, a.resource, a.edge, a.who)
  }

  /** The committed effect of writing a new row under the id `id`. */
  function WithRow(t: Tables, id: nat, edge: Edge, who: Actor, at: int): Tables {
    var audit := CreationOf(id, edge, who);
    Tables(t.known, t.rows[id := Row(edge, who, at)], id + 1, t.audits + [audit], t.events + [EventFor(audit)])
  }

  function WithoutRow(t: Tables, id: nat, who: Actor): Tables
    requires id in t.rows
  {
    var audit := DeletionOf(id, t.rows[id].edge, who);
    Tables(t.known, t.rows - {id}, t.nextId, t.audits + [audit], t.events + [EventFor(audit)])
  }

  ghost predicate Insertable(t: Tables, edge: Edge) {
    !Holds(t.rows, edge) && edge.source in t.known && edge.target in t.known
  }

  // ------------------------------------------------------- what the tables keep

  ghost predicate RowOk(known: set<string>, row: Row) {
    && IsForward(row.edge.relation)
    && row.edge.source != row.edge.target
    && row.edge.source in known && row.edge.target in known
    && row.createdBy != Actor("", "")
  }

  ghost predicate Rows(t: Tables) {
    && (forall id :: id in t.rows ==> id < t.nextId && RowOk(t.known, t.rows[id]))
    && (forall i, j :: i in t.rows && j in t.rows && t.rows[i].edge == t.rows[j].edge ==> i == j)
  }

  function Tally(audits: seq<Audit>, action: Action): nat {
    if audits == [] then 0
    else Tally(audits[..|audits| - 1], action) + (if audits[|audits| - 1].action == action then 1 else 0)
  }

  lemma TallyGrows(audits: seq<Audit>, a: Audit, action: Action)
    ensures Tally(audits + [a], action) == Tally(audits, action) + (if a.action == action then 1 else 0)
  {
  }

  ghost predicate AuditedAs(audits: seq<Audit>, action: Action, id: nat, edge: Edge) {
    exists i :: 0 <= i < |audits| && audits[i].action == action && audits[i].resource == id && audits[i].edge == edge
  }

  /** A row is stored exactly when its creation was audited and its deletion was
    not; events repeat the audits one for one. */
  ghost predicate Trail(t: Tables) {
    && |t.events| == |t.audits|
    && (forall i :: 0 <= i < |t.audits| ==> t.events[i] == EventFor(t.audits[i]) && t.audits[i].resource < t.nextId)
    && |t.rows| + Tally(t.audits, Deletion) == Tally(t.audits, Creation)
    && (forall id, edge :: id in t.rows && t.rows[id].edge == edge <==>
          AuditedAs(t.audits, Creation, id, edge) && !AuditedAs(t.audits, Deletion, id, edge))
    && (forall i, j :: 0 <= i < j < |t.audits| && t.audits[i].resource == t.audits[j].resource ==>
          t.audits[i].action == Creation && t.audits[j].action == Deletion && t.audits[i].edge == t.audits[j].edge)
  }

  ghost predicate Inv(t: Tables) {
    Rows(t) && Trail(t)
  }

  lemma AuditedGrows(audits: seq<Audit>, a: Audit)
    ensures forall action, id, edge ::
              AuditedAs(audits + [a], action, id, edge) <==>
              AuditedAs(audits, action, id, edge) || (a.action == action && a.resource == id && a.edge == edge)
  {
    var more := audits + [a];
    forall action, id, edge
      ensures AuditedAs(more, action, id, edge) <==>
              AuditedAs(audits, action, id, edge) || (a.action == action && a.resource == id && a.edge == edge)
    {
      if AuditedAs(audits, action, id, edge) {
        var i :| 0 <= i < |audits| && audits[i].action == action && audits[i].resource == id && audits[i].edge == edge;
        assert more[i] == audits[i];
      }
      assert more[|audits|] == a;
    }
  }

  lemma CreationKeepsRows(t: Tables, id: nat, edge: Edge, who: Actor, at: int)
    requires Rows(t) && id >= t.nextId && Insertable(t, edge)
    requires IsForward(edge.relation) && edge.source != edge.target && who != Actor("", "")
    ensures Rows(WithRow(t, id, edge, who, at))
  {
  }

  lemma CreationKeepsTrail(t: Tables, id: nat, edge: Edge, who: Actor, at: int)
    requires Trail(t) && id >= t.nextId && (forall k :: k in t.rows ==> k < t.nextId)
    ensures Trail(WithRow(t, id, edge, who, at))
  {
    hide EventFor, Tally, AuditedAs;
    var next, a := WithRow(t, id, edge, who, at), CreationOf(id, edge, who);
    assert |next.rows| == |t.rows| + 1 by { assert next.rows.Keys == t.rows.Keys + {id}; }
    TallyGrows(t.audits, a, Creation);
    TallyGrows(t.audits, a, Deletion);
    AuditedGrows(t.audits, a);
    forall k, e: Edge
      ensures k in next.rows && next.rows[k].edge == e <==>
              AuditedAs(next.audits, Creation, k, e) && !AuditedAs(next.audits, Deletion, k, e)
    {
      NeverAudited(t, id, e);
    }
  }

  lemma NeverAudited(t: Tables, id: nat, edge: Edge)
    requires Trail(t) && id >= t.nextId
    ensures !AuditedAs(t.audits, Creation, id, edge) && !AuditedAs(t.audits, Deletion, id, edge)
  {
  }

  lemma CreationKeepsInv(t: Tables, id: nat, edge: Edge, who: Actor, at: int)
    requires Inv(t) && id >= t.nextId && Insertable(t, edge)
    requires IsForward(edge.relation) && edge.source != edge.target && who != Actor("", "")
    ensures Inv(WithRow(t, id, edge, who, at))
  {
    CreationKeepsRows(t, id, edge, who, at);
    CreationKeepsTrail(t, id, edge, who, at);
  }

  lemma DeletionKeepsTrail(t: Tables, id: nat, who: Actor)
    requires Trail(t) && id in t.rows && id < t.nextId
    ensures Trail(WithoutRow(t, id, who))
  {
    hide EventFor, Tally, AuditedAs;
    var next, edge := WithoutRow(t, id, who), t.rows[id].edge;
    var a := DeletionOf(id, edge, who);
    assert |next.rows| == |t.rows| - 1 by { assert next.rows.Keys == t.rows.Keys - {id}; }
    TallyGrows(t.audits, a, Creation);
    TallyGrows(t.audits, a, Deletion);
    AuditedGrows(t.audits, a);
    OnlyItsCreation(t, id, edge);
    forall k, e: Edge
      ensures k in next.rows && next.rows[k].edge == e <==>
              AuditedAs(next.audits, Creation, k, e) && !AuditedAs(next.audits, Deletion, k, e)
    {
      assert k in t.rows && t.rows[k].edge == e <==>
             AuditedAs(t.audits, Creation, k, e) && !AuditedAs(t.audits, Deletion, k, e);
    }
  }

  /** A stored row has one audit so far, its creation. */
  lemma OnlyItsCreation(t: Tables, id: nat, edge: Edge)
    requires Trail(t) && id in t.rows && t.rows[id].edge == edge
    ensures forall i :: 0 <= i < |t.audits| && t.audits[i].resource == id ==> t.audits[i].action == Creation && t.audits[i].edge == edge
  {
    hide EventFor, Tally;
    assert AuditedAs(t.audits, Creation, id, edge) && !AuditedAs(t.audits, Deletion, id, edge);
    var c :| 0 <= c < |t.audits| && t.audits[c].action == Creation && t.audits[c].resource == id && t.audits[c].edge == edge;
    Unaudited(t.audits, Deletion, id, edge);
  }

  lemma Unaudited(audits: seq<Audit>, action: Action, id: nat, edge: Edge)
    requires !AuditedAs(audits, action, id, edge)
    ensures forall i :: 0 <= i < |audits| ==> audits[i].action != action || audits[i].resource != id || audits[i].edge != edge
  {
  }

  lemma DeletionKeepsInv(t: Tables, id: nat, who: Actor)
    requires Inv(t) && id in t.rows
    ensures Inv(WithoutRow(t, id, who))
  {
    DeletionKeepsTrail(t, id, who);
  }
}
