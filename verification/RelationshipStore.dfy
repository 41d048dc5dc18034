/** The relationship store's operations, each run by itself, and what a listing
  shows from either end of an edge. */
module RelationshipStore {
  import opened Wrappers
  import opened Relationships

  datatype Direction = Outgoing | Incoming

  datatype View = View(other: string, verb: string, direction: Direction, createdAt: int)

  function Opposite(d: Direction): Direction {
    if d == Outgoing then Incoming else Outgoing
  }

  /** One row as seen from one of its ends. */
  function ViewOf(row: Row, d: Direction): View {
    match d
    case Outgoing => View(row.edge.target, row.edge.relation, Outgoing, row.createdAt)
    case Incoming =>
      View(row.edge.source, if row.edge.relation in VOCABULARY then VOCABULARY[row.edge.relation] else row.edge.relation,
           Incoming, row.createdAt)
  }

  predicate Touches(rows: map<nat, Row>, g: string, key: (nat, Direction)) {
    && key.0 in rows
    && (key.1 == Outgoing ==> rows[key.0].edge.source == g)
    && (key.1 == Incoming ==> rows[key.0].edge.target == g)
  }

  /** `views` lists each end of a row that is at `g` once, oldest row first. */
  ghost predicate IsListing(rows: map<nat, Row>, g: string, keys: seq<(nat, Direction)>, views: seq<View>) {
    && |keys| == |views|
    && (forall i, j :: 0 <= i < j < |keys| ==> keys[i] != keys[j])
    && (forall key :: key in keys <==> Touches(rows, g, key))
    && (forall i :: 0 <= i < |keys| ==> Touches(rows, g, keys[i]) && views[i] == ViewOf(rows[keys[i].0], keys[i].1))
    && (forall i, j :: 0 <= i < j < |views| ==> views[i].createdAt <= views[j].createdAt)
  }

  /** Some assignment of row ends to positions makes `views` a listing. */
  ghost predicate Lists(rows: map<nat, Row>, g: string, views: seq<View>) {
    exists keys: seq<(nat, Direction)> :: IsListing(rows, g, keys, views)
  }

  // ----------------------------------------------------------------- symmetry

  predicate Shows(v: View, other: string, verb: string, d: Direction) {
    v.other == other && v.verb == verb && v.direction == d
  }

  function Times(views: seq<View>, other: string, verb: string, d: Direction): nat {
    if views == [] then 0
    else Times(views[..|views| - 1], other, verb, d) + (if Shows(views[|views| - 1], other, verb, d) then 1 else 0)
  }

  /** The only edge that can show `other` under `verb` in that direction. */
  function EdgeShown(g: string, other: string, verb: string, d: Direction): Option<Edge> {
    if d == Outgoing && IsForward(verb) then Some(Edge(g, verb, other))
    else if d == Incoming && verb == RELATED then Some(Edge(other, RELATED, g))
    else if d == Incoming && IsInverse(verb) then Some(Edge(other, Forward(verb), g))
    else None
  }

  lemma RowShows(g: string, row: Row, other: string, verb: string, d: Direction)
    requires IsForward(row.edge.relation) && (if d == Outgoing then row.edge.source == g else row.edge.target == g)
    ensures Shows(ViewOf(row, d), other, verb, d) <==> EdgeShown(g, other, verb, d) == Some(row.edge)
  {
  }

  lemma {:induction false} TimesIs(views: seq<View>, other: string, verb: string, d: Direction)
    requires forall i, j :: 0 <= i < j < |views| ==> !(Shows(views[i], other, verb, d) && Shows(views[j], other, verb, d))
    ensures Times(views, other, verb, d) ==
            if exists i :: 0 <= i < |views| && Shows(views[i], other, verb, d) then 1 else 0
  {
    if views != [] {
      var before := views[..|views| - 1];
      TimesIs(before, other, verb, d);
      assert (exists i :: 0 <= i < |views| && Shows(views[i], other, verb, d)) <==>
             (exists i :: 0 <= i < |before| && Shows(before[i], other, verb, d)) || Shows(views[|views| - 1], other, verb, d) by {
        if exists i :: 0 <= i < |before| && Shows(before[i], other, verb, d) {
          var i :| 0 <= i < |before| && Shows(before[i], other, verb, d);
          assert Shows(views[i], other, verb, d);
        }
        if exists i :: 0 <= i < |views| && Shows(views[i], other, verb, d) {
          var i :| 0 <= i < |views| && Shows(views[i], other, verb, d);
          assert i < |before| ==> Shows(before[i], other, verb, d);
        }
      }
    }
  }

  lemma ListedOnce(t: Tables, g: string, keys: seq<(nat, Direction)>, views: seq<View>, other: string, verb: string, d: Direction)
    requires Rows(t) && IsListing(t.rows, g, keys, views)
    ensures var edge := EdgeShown(g, other, verb, d);
            Times(views, other, verb, d) == if edge.Some? && Holds(t.rows, edge.value) then 1 else 0
  {
    hide EdgeShown, IsForward, Shows;
    var edge := EdgeShown(g, other, verb, d);
    forall i | 0 <= i < |keys|
      ensures Shows(views[i], other, verb, d) <==> keys[i].1 == d && edge == Some(t.rows[keys[i].0].edge)
    {
      DirectionShown(t.rows[keys[i].0], keys[i].1, other, verb, d);
      if keys[i].1 == d {
        assert Touches(t.rows, g, keys[i]);
        RowShows(g, t.rows[keys[i].0], other, verb, d);
      }
    }
    TimesIs(views, other, verb, d);
    if edge.Some? && Holds(t.rows, edge.value) {
      var id :| id in t.rows && t.rows[id].edge == edge.value;
      EdgeShownEnds(g, other, verb, d);
      assert (id, d) in keys;
      var i :| 0 <= i < |keys| && keys[i] == (id, d);
      assert Shows(views[i], other, verb, d);
    }
  }

  /** A listing shows an edge once if it is stored, and otherwise not at all. */
  lemma ListedOnceIfStored(t: Tables, g: string, views: seq<View>, other: string, verb: string, d: Direction)
    requires Rows(t) && Lists(t.rows, g, views)
    ensures var edge := EdgeShown(g, other, verb, d);
            Times(views, other, verb, d) == if edge.Some? && Holds(t.rows, edge.value) then 1 else 0
  {
    hide IsListing, Rows, EdgeShown, Times, Holds;
    var keys: seq<(nat, Direction)> :| IsListing(t.rows, g, keys, views);
    ListedOnce(t, g, keys, views, other, verb, d);
  }

  lemma DirectionShown(row: Row, at: Direction, other: string, verb: string, d: Direction)
    ensures Shows(ViewOf(row, at), other, verb, d) ==> at == d
  {
  }

  lemma EdgeShownEnds(g: string, other: string, verb: string, d: Direction)
    ensures var edge := EdgeShown(g, other, verb, d);
            edge.Some? ==> if d == Outgoing then edge.value.source == g else edge.value.target == g
  {
  }

  lemma EdgeShownFromBothEnds(g: string, h: string, verb: string, d: Direction)
    requires IsLabel(verb)
    ensures EdgeShown(g, h, verb, d) == EdgeShown(h, g, OtherLabel(verb), Opposite(d))
  {
    hide VOCABULARY;
    OtherLabelHolds(verb);
    VocabularyRelated();
    if IsForward(verb) && verb != RELATED {
      VocabularyIsReversible(verb, Forward(OtherLabel(verb)));
    }
  }

  /** A stored edge is listed once from either end, under its relation from the
    one and under the other label from the other; an edge that is not stored is
    listed from neither. */
  lemma ListedFromBothEnds(t: Tables, edge: Edge, fromSource: seq<View>, fromTarget: seq<View>)
    requires Rows(t) && edge.relation in VOCABULARY
    requires Lists(t.rows, edge.source, fromSource) && Lists(t.rows, edge.target, fromTarget)
    ensures Times(fromSource, edge.target, edge.relation, Outgoing) ==
            if exists id :: id in t.rows && t.rows[id].edge == edge then 1 else 0
    ensures Times(fromTarget, edge.source, OtherLabel(edge.relation), Incoming) ==
            if exists id :: id in t.rows && t.rows[id].edge == edge then 1 else 0
  {
    hide Lists, Rows, Times;
    ListedOnceIfStored(t, edge.source, fromSource, edge.target, edge.relation, Outgoing);
    ListedOnceIfStored(t, edge.target, fromTarget, edge.source, OtherLabel(edge.relation), Incoming);
    EdgeShownFromBothEnds(edge.source, edge.target, edge.relation, Outgoing);
  }

  /** g lists h under a label exactly as often as h lists g under the other label
    in the opposite direction. */
  lemma ListingsMirror(t: Tables, g: string, h: string, verb: string, d: Direction, gViews: seq<View>, hViews: seq<View>)
    requires Rows(t) && IsLabel(verb) && Lists(t.rows, g, gViews) && Lists(t.rows, h, hViews)
    ensures Times(gViews, h, verb, d) == Times(hViews, g, OtherLabel(verb), Opposite(d)) <= 1
  {
    hide Lists, Rows, EdgeShown, Times;
    ListedOnceIfStored(t, g, gViews, h, verb, d);
    ListedOnceIfStored(t, h, hViews, g, OtherLabel(verb), Opposite(d));
    EdgeShownFromBothEnds(g, h, verb, d);
  }

  // ---------------------------------------------------------------- operations

  datatype Created = Failed(error: Error) | Answer(id: nat, row: Row, created: bool)

  datatype Looked = Unreadable(error: Error) | NoEdge | Found(id: nat, row: Row)

  lemma SkippingKeepsInv(t: Tables, next: nat)
    requires Inv(t) && next >= t.nextId
    ensures Inv(t.(nextId := next))
  {
  }

  class Store {
    var known: set<string>
    var rows: map<nat, Row>
    var nextId: nat
    var audits: seq<Audit>
    var events: seq<Event>

    function View(): Tables
      reads this
    {
      Tables(known, rows, nextId, audits, events)
    }

    constructor (known: set<string>)
      ensures View() == Tables(known, map[], 1, [], []) && Inv(View())
    {
      this.known, rows, nextId, audits, events := known, map[], 1, [], [];
      new;
      assert Tally([], Creation) == 0 && Tally([], Deletion) == 0;
    }

    method Find(edge: Edge) returns (id: Option<nat>)
      ensures id.None? <==> !Holds(rows, edge)
      ensures id.Some? ==> id.value in rows && rows[id.value].edge == edge
    {
      var left := rows.Keys;
      while left != {}
        invariant left <= rows.Keys
        invariant forall k :: k in rows && k !in left ==> rows[k].edge != edge
      {
        ghost var some := Pick(left);
        var k :| k in left;
        if rows[k].edge == edge {
          return Some(k);
        }
        left := left - {k};
      }
      return None;
    }

    method Record(action: Action, id: nat, edge: Edge, who: Actor)
      modifies this`audits, this`events
      ensures audits == old(audits) + [Audit(action, who.user, id, edge, who)]
      ensures events == old(events) + [EventFor(Audit(action, who.user, id, edge, who))]
    {
      audits := audits + [Audit(action, who.user, id, edge, who)];
      events := events + [Event(if action == Creation then "relationship.created" else "relationship.deleted",
                                edge.source, id, edge, who)];
    }

    /** The statement draws an id from the sequence whatever becomes of it;
      `skipped` are those other statements drew meanwhile. */
    method CreateRelationship(source: string, verb: string, target: string, who: Actor, at: int, skipped: nat)
      returns (outcome: Created)
      requires Inv(View())
      modifies this
      ensures Inv(View())
      ensures match Check(source, verb, target, who)
              case Fault(error) => outcome == Failed(error) && View() == old(View())
              case Sound(edge) =>
                var id := old(nextId) + skipped;
                if Holds(old(rows), edge) then
                  && View() == old(View()).(nextId := id + 1)
                  && outcome.Answer? && !outcome.created
                  && outcome.id in rows && rows[outcome.id] == outcome.row && outcome.row.edge == edge
                else if edge.source in known && edge.target in known then
                  outcome == Answer(id, Row(edge, who, at), true) && View() == WithRow(old(View()), id, edge, who, at)
                else outcome == Failed(UnknownGlobalId) && View() == old(View()).(nextId := id + 1)
      ensures outcome.Answer? && outcome.created ==>
                && outcome.row.createdBy == who && outcome.row.createdAt == at && rows == old(rows)[outcome.id := outcome.row]
                && audits == old(audits) + [Audit(Creation, who.user, outcome.id, outcome.row.edge, who)]
                && events == old(events) +
                     [Event("relationship.created", outcome.row.edge.source, outcome.id, outcome.row.edge, who)]
    {
      hide Inv;
      if who.user == "" && who.service == "" {
        return Failed(MissingActor);
      }
      var canonical := Canonical(source, verb, target);
      if canonical.None? {
        return Failed(InvalidRelationType);
      }
      var edge := canonical.value;
      if edge.source == "" || edge.target == "" {
        return Failed(UnknownGlobalId);
      }
      if edge.source == edge.target {
        return Failed(SelfRelationship);
      }
      var id := nextId + skipped;
      SkippingKeepsInv(View(), id + 1);
      var existing := Find(edge);
      if existing.Some? {
        nextId := id + 1;
        return Answer(existing.value, rows[existing.value], false);
      }
      if edge.source !in known || edge.target !in known {
        nextId := id + 1;
        return Failed(UnknownGlobalId);
      }
      CreationKeepsInv(View(), id, edge, who, at);
      rows, nextId := rows[id := Row(edge, who, at)], id + 1;
      Record(Creation, id, edge, who);
      return Answer(id, rows[id], true);
    }

    method LookupRelationship(source: string, verb: string, target: string) returns (looked: Looked)
      ensures match Canonical(source, verb, target)
              case None => looked == Unreadable(InvalidRelationType)
              case Some(edge) =>
                && (looked == NoEdge <==> !Holds(rows, edge))
                && (Holds(rows, edge) ==> looked.Found? && looked.id in rows && rows[looked.id] == looked.row && looked.row.edge == edge)
    {
      var canonical := Canonical(source, verb, target);
      if canonical.None? {
        return Unreadable(InvalidRelationType);
      }
      var id := Find(canonical.value);
      if id.None? {
        return NoEdge;
      }
      return Found(id.value, rows[id.value]);
    }

    /** Deleting what is not there succeeds and leaves no trace. */
    method DeleteRelationship(id: nat, who: Actor) returns (deleted: Option<bool>)
      requires Inv(View())
      modifies this
      ensures Inv(View())
      ensures deleted.None? <==> who == Actor("", "")
      ensures deleted == Some(true) <==> who != Actor("", "") && id in old(rows)
      ensures View() == if deleted == Some(true) then WithoutRow(old(View()), id, who) else old(View())
      ensures deleted == Some(true) ==>
                && rows == old(rows) - {id}
                && audits == old(audits) + [Audit(Deletion, who.user, id, old(rows)[id].edge, who)]
                && events == old(events) +
                     [Event("relationship.deleted", old(rows)[id].edge.source, id, old(rows)[id].edge, who)]
    {
      hide Inv;
      if who.user == "" && who.service == "" {
        return None;
      }
      if id !in rows {
        return Some(false);
      }
      DeletionKeepsInv(View(), id, who);
      var edge := rows[id].edge;
      rows := rows - {id};
      Record(Deletion, id, edge, who);
      return Some(true);
    }

    /** The end of a row at hand that is oldest. */
    method OldestEnd(ends: set<(nat, Direction)>) returns (oldest: (nat, Direction))
      requires ends != {} && forall key :: key in ends ==> key.0 in rows
      ensures oldest in ends && forall key :: key in ends ==> rows[oldest.0].createdAt <= rows[key.0].createdAt
    {
      ghost var some := Pick(ends);
      oldest :| oldest in ends;
      var left := ends - {oldest};
      while left != {}
        invariant left <= ends && oldest in ends
        invariant forall key :: key in ends && key !in left ==> rows[oldest.0].createdAt <= rows[key.0].createdAt
      {
        ghost var one := Pick(left);
        var key :| key in left;
        if rows[key.0].createdAt < rows[oldest.0].createdAt {
          oldest := key;
        }
        left := left - {key};
      }
    }

    method ListRelationships(g: string) returns (views: seq<View>)
      ensures Lists(rows, g, views)
    {
      var left := (set id | id in rows && rows[id].edge.source == g :: (id, Outgoing)) +
                  (set id | id in rows && rows[id].edge.target == g :: (id, Incoming));
      assert forall key :: key in left <==> Touches(rows, g, key);
      hide Touches;
      views := [];
      ghost var keys: seq<(nat, Direction)> := [];
      while left != {}
        invariant forall key :: key in left <==> Touches(rows, g, key) && key !in keys
        invariant forall key :: key in keys ==> Touches(rows, g, key)
        invariant forall key :: Touches(rows, g, key) ==> key.0 in rows
        invariant |keys| == |views|
        invariant forall i, j :: 0 <= i < j < |keys| ==> keys[i] != keys[j]
        invariant forall i :: 0 <= i < |keys| ==> Touches(rows, g, keys[i]) && views[i] == ViewOf(rows[keys[i].0], keys[i].1)
        invariant forall i, j :: 0 <= i < j < |views| ==> views[i].createdAt <= views[j].createdAt
        invariant forall i, key :: 0 <= i < |views| && key in left ==> views[i].createdAt <= rows[key.0].createdAt
        decreases left
      {
        var key := OldestEnd(left);
        keys, views, left := keys + [key], views + [ViewOf(rows[key.0], key.1)], left - {key};
      }
      assert IsListing(rows, g, keys, views);
    }
  }
}
