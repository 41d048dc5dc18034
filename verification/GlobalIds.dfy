/** Global ID allocation: internal/platformdb/db.go, identity.go and
  service_identity.go, each call run by itself. */
module GlobalIds {
  import opened Wrappers
  import opened Decimal

  /** An upstream record: the unique key of the entity table. */
  datatype Key = Key(source: string, entityType: string, sourceId: string)

  /** What a call asks an identifier for. */
  datatype Request = Entity(key: Key) | User(subject: string) | Service(subject: string)

  datatype Counter = Counter(prefix: string, next: nat)

  /** A creation event queued with a mint, and the transaction that queued it. */
  datatype Announcement = Announcement(request: Request, id: string, tx: nat)

  datatype Tables = Tables(
    counters: map<string, Counter>,
    entities: map<Key, string>,
    users: map<string, string>,
    services: map<string, string>,
    announcements: seq<Announcement>)

  function TypeOf(r: Request): string {
    match r
    case Entity(key) => key.entityType
    case User(_) => "user"
    case Service(_) => "service"
  }

  /** The entity row that stands for a request in the entity table. */
  function KeyOf(r: Request): Key {
    match r
    case Entity(key) => key
    case User(subject) => Key("authentik", "user", subject)
    case Service(subject) => Key("authentik", "service", subject)
  }

  /** The identifier the tables hold for a request. */
  function Answer(t: Tables, r: Request): Option<string> {
    match r
    case Entity(key) => if key in t.entities then Some(t.entities[key]) else None
    case User(subject) => if subject in t.users then Some(t.users[subject]) else None
    case Service(subject) => if subject in t.services then Some(t.services[subject]) else None
  }

  // -------------------------------------------------------------- identifiers

  function Format(prefix: string, value: nat): string {
    prefix + "-" + Pad6(value)
  }

  /** No dash follows the one that ends the prefix. */
  lemma OnlyDigitsFollow(p: string, m: nat, i: nat)
    requires |p| < i < |Format(p, m)|
    ensures Format(p, m)[i] != '-'
  {
  }

  /** An identifier determines its prefix and its number. */
  lemma FormatInjective(p: string, m: nat, q: string, n: nat)
    ensures Format(p, m) == Format(q, n) ==> p == q && m == n
  {
    var s, r := Format(p, m), Format(q, n);
    assert s[|p|] == '-' && r[|q|] == '-';
    assert s[..|p|] == p && r[..|q|] == q;
    assert s[|p| + 1..] == Pad6(m) && r[|q| + 1..] == Pad6(n);
    forall i | |p| < i < |s|
      ensures s[i] != '-'
    {
      OnlyDigitsFollow(p, m, i);
    }
    forall i | |q| < i < |r|
      ensures r[i] != '-'
    {
      OnlyDigitsFollow(q, n, i);
    }
    Pad6Injective(m, n);
  }

  // --------------------------------------------------------------- a mint

  function NextId(t: Tables, r: Request): string
    requires TypeOf(r) in t.counters
  {
    var c := t.counters[TypeOf(r)];
    Format(c.prefix, c.next)
  }

  /** What a committed mint leaves: the counter moved, the row of the request,
    an entity row unless one was there, and the announcement. */
  function Minted(t: Tables, r: Request, tx: nat): Tables
    requires TypeOf(r) in t.counters
  {
    var c, id, key := t.counters[TypeOf(r)], NextId(t, r), KeyOf(r);
    Tables(
      t.counters[TypeOf(r) := c.(next := c.next + 1)],
      if key in t.entities then t.entities else t.entities[key := id],
      if r.User? then t.users[r.subject := id] else t.users,
      if r.Service? then t.services[r.subject := id] else t.services,
      t.announcements + [Announcement(r, id, tx)])
  }

  datatype Result = Unsupported | Allocated(tables: Tables, id: string, created: bool)

  /** One call alone: the identifier already held, or a mint. */
  function Allocate(t: Tables, r: Request, tx: nat): Result {
    if Answer(t, r).Some? then Allocated(t, Answer(t, r).value, false)
    else if TypeOf(r) !in t.counters then Unsupported
    else Allocated(Minted(t, r, tx), NextId(t, r), true)
  }

  /** Asking again returns the same identifier and changes nothing. */
  lemma AllocationIsIdempotent(t: Tables, r: Request, tx: nat, again: nat)
    requires Allocate(t, r, tx).Allocated?
    ensures var first := Allocate(t, r, tx);
            Allocate(first.tables, r, again) == Allocated(first.tables, first.id, false)
  {
  }

  /** A first-sighted identity is known to the entity table by the identifier it
    was given exactly when no entity row stood for it before. */
  lemma IdentityMatchesEntityExactlyWhen(t: Tables, r: Request, tx: nat)
    requires Answer(t, r).None? && TypeOf(r) in t.counters
    requires forall key :: key in t.entities ==> t.entities[key] != NextId(t, r)
    ensures var first := Allocate(t, r, tx);
            && Answer(first.tables, Entity(KeyOf(r))).Some?
            && (Answer(first.tables, Entity(KeyOf(r))) == Some(first.id) <==> KeyOf(r) !in t.entities)
  {
  }

  /** A mint, spelled out: the number goes to one counter's prefix, the counter
    moves by one, the row of the request and its event are written, and for an
    identity the entity row of its authentik subject unless one was there. */
  lemma MintWrites(t: Tables, r: Request, tx: nat)
    requires Allocate(t, r, tx).Allocated? && Allocate(t, r, tx).created
    ensures var kind, source, sourceId :=
              if r.User? then "user" else if r.Service? then "service" else r.key.entityType,
              if r.Entity? then r.key.source else "authentik",
              if r.Entity? then r.key.sourceId else r.subject;
            var key, after, id := Key(source, kind, sourceId), Allocate(t, r, tx).tables, Allocate(t, r, tx).id;
            && kind in t.counters
            && id == t.counters[kind].prefix + "-" + Pad6(t.counters[kind].next)
            && after.counters == t.counters[kind := Counter(t.counters[kind].prefix, t.counters[kind].next + 1)]
            && after.entities == (if key in t.entities then t.entities else t.entities[key := id])
            && (r.Entity? ==> key !in t.entities)
            && after.users == (if r.User? then t.users[sourceId := id] else t.users)
            && after.services == (if r.Service? then t.services[sourceId := id] else t.services)
            && after.announcements == t.announcements + [Announcement(r, id, tx)]
  {
  }

  /** An upstream record naming a subject that was sighted as an identity, and had
    no row before, is that identity: the same identifier, nothing minted. */
  lemma SightedSubjectIsKnown(t: Tables, subject: string, tx: nat, again: nat)
    ensures subject !in t.users && "user" in t.counters && Key("authentik", "user", subject) !in t.entities ==>
              var first := Allocate(t, User(subject), tx);
              && first.Allocated? && first.created
              && Allocate(first.tables, Entity(Key("authentik", "user", subject)), again) ==
                   Allocated(first.tables, first.id, false)
    ensures subject !in t.services && "service" in t.counters && Key("authentik", "service", subject) !in t.entities ==>
              var first := Allocate(t, Service(subject), tx);
              && first.Allocated? && first.created
              && Allocate(first.tables, Entity(Key("authentik", "service", subject)), again) ==
                   Allocated(first.tables, first.id, false)
  {
  }

  // ---------------------------------------------------------------- in batches

  datatype BatchResult = Refused | Mapped(tables: Tables)

  /** CreateGlobalEntity on each non-empty source id in order. */
  function MapEach(t: Tables, entityType: string, source: string, sourceIds: seq<string>, tx: nat): (r: BatchResult)
    ensures r.Mapped? ==> forall id :: id in sourceIds && id != "" ==> Key(source, entityType, id) in r.tables.entities
    ensures r.Mapped? ==> forall key :: key in t.entities ==> key in r.tables.entities && r.tables.entities[key] == t.entities[key]
    decreases |sourceIds|
  {
    if sourceIds == [] then Mapped(t)
    else if sourceIds[0] == "" then MapEach(t, entityType, source, sourceIds[1..], tx)
    else
      match Allocate(t, Entity(Key(source, entityType, sourceIds[0])), tx)
      case Unsupported => Refused
      case Allocated(next, _, _) => MapEach(next, entityType, source, sourceIds[1..], tx)
  }

  /** The distinct non-empty source ids without an identifier. */
  function Unmapped(t: Tables, entityType: string, source: string, sourceIds: seq<string>): set<string> {
    set id | id in sourceIds && id != "" && Key(source, entityType, id) !in t.entities
  }

  /** A batch fails exactly when it needs a mint of a type without a counter, and
    otherwise mints once for every distinct source id that had no identifier. */
  lemma {:induction false} BatchMintsOncePerNewId(t: Tables, entityType: string, source: string, sourceIds: seq<string>, tx: nat)
    ensures var r := MapEach(t, entityType, source, sourceIds, tx);
            var unseen := Unmapped(t, entityType, source, sourceIds);
            && (r.Refused? <==> entityType !in t.counters && unseen != {})
            && (r.Mapped? ==> |r.tables.announcements| == |t.announcements| + |unseen|)
            && (r.Mapped? && entityType in t.counters ==>
                  entityType in r.tables.counters && r.tables.counters[entityType].next == t.counters[entityType].next + |unseen|)
    decreases |sourceIds|
  {
    hide NextId;
    var unseen := Unmapped(t, entityType, source, sourceIds);
    if sourceIds != [] {
      var id, rest := sourceIds[0], sourceIds[1..];
      var r := Entity(Key(source, entityType, id));
      if id == "" || Answer(t, r).Some? {
        BatchMintsOncePerNewId(t, entityType, source, rest, tx);
        assert unseen == Unmapped(t, entityType, source, rest);
      } else {
        assert id in unseen;
        if entityType in t.counters {
          BatchMintsOncePerNewId(Minted(t, r, tx), entityType, source, rest, tx);
          assert Unmapped(Minted(t, r, tx), entityType, source, rest) == unseen - {id};
        }
      }
    }
  }

  lemma {:induction false} MapEachSplits(t: Tables, entityType: string, source: string, a: seq<string>, b: seq<string>, tx: nat)
    ensures MapEach(t, entityType, source, a + b, tx) ==
            match MapEach(t, entityType, source, a, tx)
            case Refused => Refused
            case Mapped(next) => MapEach(next, entityType, source, b, tx)
    decreases |a|
  {
    hide Allocate;
    if a == [] {
      assert a + b == b;
    } else {
      assert (a + b)[1..] == a[1..] + b;
      if a[0] == "" {
        MapEachSplits(t, entityType, source, a[1..], b, tx);
      } else {
        match Allocate(t, Entity(Key(source, entityType, a[0])), tx)
        case Unsupported =>
        case Allocated(next, _, _) => MapEachSplits(next, entityType, source, a[1..], b, tx);
      }
    }
  }

  lemma MapEachOne(t: Tables, entityType: string, source: string, id: string, tx: nat)
    ensures var r := Entity(Key(source, entityType, id));
            MapEach(t, entityType, source, [id], tx) ==
            if id == "" || r.key in t.entities then Mapped(t)
            else if entityType in t.counters then Mapped(Minted(t, r, tx)) else Refused
    ensures var r := Entity(Key(source, entityType, id));
            Allocate(t, r, tx) ==
            if r.key in t.entities then Allocated(t, t.entities[r.key], false)
            else if entityType in t.counters then Allocated(Minted(t, r, tx), NextId(t, r), true) else Unsupported
  {
  }

  /** Without a counter a batch can only read. */
  lemma {:induction false} NoCounterNoChange(t: Tables, entityType: string, source: string, sourceIds: seq<string>, tx: nat)
    ensures var r := MapEach(t, entityType, source, sourceIds, tx);
            r.Mapped? ==> (entityType in t.counters <==> entityType in r.tables.counters) &&
                          (entityType !in t.counters ==> r.tables == t)
    decreases |sourceIds|
  {
    hide NextId;
    if sourceIds != [] {
      if sourceIds[0] == "" {
        NoCounterNoChange(t, entityType, source, sourceIds[1..], tx);
      } else {
        var first := Allocate(t, Entity(Key(source, entityType, sourceIds[0])), tx);
        if first.Allocated? {
          NoCounterNoChange(first.tables, entityType, source, sourceIds[1..], tx);
        }
      }
    }
  }

  /** The identifiers held for the non-empty source ids of a list. */
  function Held(t: Tables, entityType: string, source: string, sourceIds: seq<string>): map<string, string> {
    map id | id in sourceIds && id != "" && Key(source, entityType, id) in t.entities :: t.entities[Key(source, entityType, id)]
  }

  lemma NothingHeld(t: Tables, entityType: string, source: string)
    ensures Held(t, entityType, source, []) == map[]
  {
  }

  lemma HeldHas(t: Tables, entityType: string, source: string, sourceIds: seq<string>, id: string)
    ensures id in Held(t, entityType, source, sourceIds) <==>
            id in sourceIds && id != "" && Key(source, entityType, id) in t.entities
    ensures var held := Held(t, entityType, source, sourceIds);
            id in held ==> held[id] == t.entities[Key(source, entityType, id)]
  {
  }

  lemma HeldGrows(t: Tables, entityType: string, source: string, sourceIds: seq<string>, id: string, tx: nat)
    requires id in sourceIds && id != "" && entityType in t.counters && Key(source, entityType, id) !in t.entities
    ensures var r := Entity(Key(source, entityType, id));
            Held(Minted(t, r, tx), entityType, source, sourceIds) ==
            Held(t, entityType, source, sourceIds)[id := NextId(t, r)]
  {
  }

  class Store {
    var counters: map<string, Counter>
    var entities: map<Key, string>
    var users: map<string, string>
    var services: map<string, string>
    var announcements: seq<Announcement>

    function View(): Tables
      reads this
    {
      Tables(counters, entities, users, services, announcements)
    }

    constructor (initial: map<string, Counter>)
      ensures View() == Tables(initial, map[], map[], map[], [])
    {
      counters, entities, users, services, announcements := initial, map[], map[], map[], [];
    }

    /** UPDATE … RETURNING prefix, next_value-1, formatted. */
    method BumpCounter(entityType: string) returns (id: Option<string>)
      modifies this`counters
      ensures id == if entityType in old(counters)
                    then Some(Format(old(counters)[entityType].prefix, old(counters)[entityType].next)) else None
      ensures counters == if entityType in old(counters)
                          then old(counters)[entityType := old(counters)[entityType].(next := old(counters)[entityType].next + 1)]
                          else old(counters)
    {
      if entityType !in counters {
        return None;
      }
      var c := counters[entityType];
      counters := counters[entityType := c.(next := c.next + 1)];
      return Some(Format(c.prefix, c.next));
    }

    method CreateGlobalEntity(key: Key, tx: nat) returns (id: Option<string>)
      modifies this
      ensures match Allocate(old(View()), Entity(key), tx)
              case Unsupported => id == None && View() == old(View())
              case Allocated(tables, value, _) => id == Some(value) && View() == tables
    {
      if key in entities {
        return Some(entities[key]);
      }
      id := BumpCounter(key.entityType);
      if id == None {
        return;
      }
      entities := entities[key := id.value];
      announcements := announcements + [Announcement(Entity(key), id.value, tx)];
    }

    method EnsureIdentity(subject: string, tx: nat) returns (id: Option<string>, created: bool)
      modifies this
      ensures match Allocate(old(View()), User(subject), tx)
              case Unsupported => id == None && View() == old(View())
              case Allocated(tables, value, minted) => id == Some(value) && created == minted && View() == tables
      ensures id.Some? && created ==>
                && subject !in old(users) && users == old(users)[subject := id.value]
                && entities == (if Key("authentik", "user", subject) in old(entities) then old(entities)
                                else old(entities)[Key("authentik", "user", subject) := id.value])
      ensures id.Some? && !created ==> subject in old(users) && id.value == old(users)[subject] && entities == old(entities)
    {
      created := false;
      if subject in users {
        id := Some(users[subject]);
      } else {
        id := BumpCounter("user");
        if id == None {
          return;
        }
        created := true;
        users := users[subject := id.value];
      }
      if created {
        var key := Key("authentik", "user", subject);
        if key !in entities {
          entities := entities[key := id.value];
        }
        announcements := announcements + [Announcement(User(subject), id.value, tx)];
      }
    }

    method EnsureServiceIdentity(subject: string, tx: nat) returns (id: Option<string>, created: bool)
      modifies this
      ensures match Allocate(old(View()), Service(subject), tx)
              case Unsupported => id == None && View() == old(View())
              case Allocated(tables, value, minted) => id == Some(value) && created == minted && View() == tables
      ensures id.Some? && created ==>
                && subject !in old(services) && services == old(services)[subject := id.value]
                && entities == (if Key("authentik", "service", subject) in old(entities) then old(entities)
                                else old(entities)[Key("authentik", "service", subject) := id.value])
      ensures id.Some? && !created ==> subject in old(services) && id.value == old(services)[subject] && entities == old(entities)
    {
      created := false;
      if subject in services {
        id := Some(services[subject]);
      } else {
        id := BumpCounter("service");
        if id == None {
          return;
        }
        created := true;
        services := services[subject := id.value];
      }
      if created {
        var key := Key("authentik", "service", subject);
        if key !in entities {
          entities := entities[key := id.value];
        }
        announcements := announcements + [Announcement(Service(subject), id.value, tx)];
      }
    }

    /** Same tables as one call per non-empty request, and an answer for exactly
      the non-empty source ids asked about; a refusal changes nothing. */
    method MapGlobalIDs(entityType: string, source: string, requests: seq<string>, tx: nat)
      returns (mapped: map<string, string>, ok: bool)
      modifies this
      ensures match MapEach(old(View()), entityType, source, requests, tx)
              case Refused => !ok && View() == old(View())
              case Mapped(tables) => ok && View() == tables && mapped == Held(tables, entityType, source, requests)
      ensures ok ==> forall id :: id in mapped <==> id in requests && id != ""
      ensures ok ==> forall id :: id in mapped ==>
                Key(source, entityType, id) in entities && mapped[id] == entities[Key(source, entityType, id)]
    {
      ok, mapped := true, map[];
      assert requests[..0] == [] && MapEach(View(), entityType, source, [], tx) == Mapped(View());
      hide *;
      if |requests| == 0 {
        assert Held(View(), entityType, source, requests) == map[] by { NothingHeld(View(), entityType, source); }
        return;
      }
      var sourceIds: seq<string> := [];
      var seen: set<string> := {};
      for i := 0 to |requests|
        invariant forall id :: id in sourceIds <==> id in requests[..i] && id != ""
        invariant forall id :: id in seen <==> id in sourceIds
      {
        assert requests[..i + 1] == requests[..i] + [requests[i]];
        if requests[i] == "" || requests[i] in seen {
          continue;
        }
        seen := seen + {requests[i]};
        sourceIds := sourceIds + [requests[i]];
      }
      assert requests[..|requests|] == requests;
      mapped := map id | id in sourceIds && Key(source, entityType, id) in entities :: entities[Key(source, entityType, id)];
      for i := 0 to |requests|
        invariant MapEach(old(View()), entityType, source, requests[..i], tx) == Mapped(View())
        invariant mapped == Held(View(), entityType, source, requests)
      {
        assert requests[..i + 1] == requests[..i] + [requests[i]];
        MapEachSplits(old(View()), entityType, source, requests[..i], [requests[i]], tx);
        MapEachOne(View(), entityType, source, requests[i], tx);
        if requests[i] == "" {
          continue;
        }
        HeldHas(View(), entityType, source, requests, requests[i]);
        if requests[i] in mapped {
          continue;
        }
        if entityType in counters {
          HeldGrows(View(), entityType, source, requests, requests[i], tx);
        }
        var id := CreateGlobalEntity(Key(source, entityType, requests[i]), tx);
        if id == None {
          assert requests == requests[..i + 1] + requests[i + 1..];
          MapEachSplits(old(View()), entityType, source, requests[..i + 1], requests[i + 1..], tx);
          NoCounterNoChange(old(View()), entityType, source, requests[..i], tx);
          return map[], false;
        }
        mapped := mapped[requests[i] := id.value];
      }
      assert requests[..|requests|] == requests;
      forall id: string
        ensures id in mapped <==> id in requests && id != ""
        ensures id in mapped ==> Key(source, entityType, id) in entities && mapped[id] == entities[Key(source, entityType, id)]
      {
        HeldHas(View(), entityType, source, requests, id);
      }
    }
  }
}
