/** The notification store of internal/platformdb/notifications.go and the keyset
  paging of cmd/server/notifications.go, with rows arriving while a caller walks
  the collection. */
module Notifications {
  import opened Cursors
  import opened Words
  import opened Wrappers

  datatype Note = Note(recipient: Option<string>, audience: Option<string>)

  /** The tables: notifications by id, and who has marked what as read. */
  datatype Tables = Tables(rows: map<int, Note>, marks: set<(int, string)>)

  datatype Reader = Reader(id: string, allAudiences: bool, permissions: seq<string>)

  datatype Query = Query(reader: Reader, unreadOnly: bool)

  datatype Item = Item(id: int, read: bool)

  const DEFAULT_LIMIT := 25
  const MAX_LIMIT := 100

  function ClampLimit(limit: int): (n: nat)
    ensures 1 <= n <= 100 && (1 <= limit <= 100 ==> n == limit)
  {
    if limit <= 0 then DEFAULT_LIMIT else if limit > MAX_LIMIT then MAX_LIMIT else limit
  }

  // -------------------------------------------------------------- visibility

  /** What the caller's principal lets it read: a confined one only what names
    it, an administrator every audience, anyone else the audiences it holds. */
  function ReaderFor(id: string, confined: bool, permissions: seq<string>): Reader {
    if confined then Reader(id, false, [])
    else if "*" in permissions then Reader(id, true, [])
    else Reader(id, false, permissions)
  }

  predicate Visible(r: Reader, n: Note) {
    || n.recipient == Some(r.id)
    || (r.allAudiences && n.audience.Some?)
    || (!r.allAudiences && n.audience.Some? && n.audience.value in r.permissions)
  }

  /** A confined principal sees a notification only if it is addressed to it by
    name, whatever permissions its role carries. */
  lemma ConfinedSeesOnlyItsOwn(id: string, permissions: seq<string>, n: Note)
    ensures Visible(ReaderFor(id, true, permissions), n) <==> n.recipient == Some(id)
  {
  }

  /** Any other principal sees its own and, of what is addressed to an audience,
    exactly the audiences it holds: all of them if it holds "*". */
  lemma OthersSeeTheirAudiences(id: string, permissions: seq<string>, n: Note)
    ensures Visible(ReaderFor(id, false, permissions), n) <==>
              || n.recipient == Some(id)
              || (n.audience.Some? && ("*" in permissions || n.audience.value in permissions))
  {
  }

  predicate Matches(t: Tables, q: Query, id: int) {
    && id in t.rows
    && Visible(q.reader, t.rows[id])
    && (q.unreadOnly ==> (id, q.reader.id) !in t.marks)
  }

  /** Everything the query matches strictly older than `after`; 0 is no bound. */
  function Older(t: Tables, q: Query, after: int): set<int> {
    set id | id in t.rows && Matches(t, q, id) && (after == 0 || id < after)
  }

  // ---------------------------------------------------------------- ordering

  ghost predicate IsLargest(s: set<int>, m: int) {
    m in s && forall k :: k in s ==> k <= m
  }

  lemma {:induction false} HasLargest(s: set<int>)
    requires s != {}
    ensures exists m :: IsLargest(s, m)
  {
    var x := Pick(s);
    if s == {x} {
      assert IsLargest(s, x);
    } else {
      var rest := s - {x};
      assert rest != {};
      HasLargest(rest);
      var m :| IsLargest(rest, m);
      forall k | k in s
        ensures k <= if x > m then x else m
      {
        assert k == x || k in rest;
      }
      assert IsLargest(s, if x > m then x else m);
    }
  }

  function Largest(s: set<int>): (m: int)
    requires s != {}
    ensures IsLargest(s, m)
  {
    HasLargest(s);
    var m: int :| m in s && forall k :: k in s ==> k <= m;
    m
  }

  /** The ids of a set, newest first. */
  function Descending(s: set<int>): (ids: seq<int>)
    ensures |ids| == |s|
  {
    if s == {} then [] else [Largest(s)] + Descending(s - {Largest(s)})
  }

  lemma {:induction false} DescendingLists(s: set<int>)
    ensures forall id :: id in Descending(s) <==> id in s
    ensures forall i, j :: 0 <= i < j < |s| ==> Descending(s)[i] > Descending(s)[j]
  {
    if s != {} {
      DescendingLists(s - {Largest(s)});
      var rest := Descending(s - {Largest(s)});
      forall i | 0 <= i < |rest|
        ensures rest[i] < Largest(s)
      {
        assert rest[i] in s - {Largest(s)};
      }
    }
  }

  /** The ids of `s` below `bound`. */
  function Below(s: set<int>, bound: int): set<int> {
    set id | id in s && id < bound
  }

  /** The first `n` ids of a listing and the listing of what is older than them
    make the whole listing. */
  lemma {:induction false} DescendingSplits(s: set<int>, n: nat)
    requires 0 < n <= |s|
    ensures var last := Descending(s)[n - 1];
            last in s && Descending(s) == Descending(s)[..n] + Descending(Below(s, last))
  {
    hide Largest, Below;
    var top, rest := Largest(s), s - {Largest(s)};
    var ids, older := Descending(s), Descending(rest);
    assert ids == [top] + older;
    if n == 1 {
      BelowTop(s);
      assert ids[..1] == [top];
    } else {
      hide Descending;
      DescendingSplits(rest, n - 1);
      var last := older[n - 2];
      assert ids[n - 1] == last;
      SameBelow(s, last);
      assert ids[..n] == [top] + older[..n - 1];
    }
  }

  lemma BelowTop(s: set<int>)
    requires s != {}
    ensures Below(s, Largest(s)) == s - {Largest(s)}
  {
  }

  lemma SameBelow(s: set<int>, last: int)
    requires last in s && last != Largest(s)
    ensures Below(s, last) == Below(s - {Largest(s)}, last)
  {
  }

  // ------------------------------------------------------------------ a page

  function Take(ids: seq<int>, n: nat): seq<int> {
    if n < |ids| then ids[..n] else ids
  }

  function ItemsFor(t: Tables, q: Query, ids: seq<int>): (items: seq<Item>)
    ensures |items| == |ids|
  {
    seq(|ids|, i requires 0 <= i < |ids| => Item(ids[i], (ids[i], q.reader.id) in t.marks))
  }

  datatype Listing = Listing(items: seq<Item>, total: nat, unread: nat)

  function ListingOf(t: Tables, q: Query, after: int, limit: nat): Listing {
    Listing(
      ItemsFor(t, q, Take(Descending(Older(t, q, after)), limit)),
      |Older(t, Query(q.reader, false), 0)|,
      |Older(t, Query(q.reader, true), 0)|)
  }

  /** A row reads as read to the reader that marked it from then on, and to nobody
    else; its unread count falls by one unless the mark was there. */
  lemma MarkReadsAsRead(t: Tables, q: Query, id: int, marker: string, after: int, limit: nat)
    requires id in t.rows && Visible(q.reader, t.rows[id]) && !q.unreadOnly
    ensures var before, later := ListingOf(t, q, after, limit), ListingOf(t.(marks := t.marks + {(id, marker)}), q, after, limit);
            && |later.items| == |before.items| && later.total == before.total
            && (forall i :: 0 <= i < |before.items| ==>
                  && later.items[i].id == before.items[i].id
                  && (later.items[i].read <==> before.items[i].read || (marker == q.reader.id && before.items[i].id == id)))
            && before.unread - later.unread == if marker == q.reader.id && (id, marker) !in t.marks then 1 else 0
    ensures id in Older(t.(marks := t.marks + {(id, marker)}), q.(unreadOnly := true), 0) <==>
              (id, q.reader.id) !in t.marks && marker != q.reader.id
  {
    hide Visible, Descending;
    var later := t.(marks := t.marks + {(id, marker)});
    assert Older(later, q, after) == Older(t, q, after) && Older(later, q, 0) == Older(t, q, 0);
    assert Older(later, Query(q.reader, false), 0) == Older(t, Query(q.reader, false), 0);
    var unread := Older(t, Query(q.reader, true), 0);
    if marker == q.reader.id {
      assert Older(later, Query(q.reader, true), 0) == unread - {id};
      assert id in unread <==> (id, marker) !in t.marks;
    } else {
      assert Older(later, Query(q.reader, true), 0) == unread;
    }
  }

  /** What a reader has not marked, and only that, reads as unread. */
  lemma ReadMeansMarked(t: Tables, q: Query, after: int, limit: nat, i: nat)
    requires i < |ListingOf(t, q, after, limit).items|
    ensures var item := ListingOf(t, q, after, limit).items[i];
            && (item.read <==> (item.id, q.reader.id) in t.marks)
            && (q.unreadOnly ==> !item.read)
  {
    hide Descending;
    DescendingLists(Older(t, q, after));
    var ids := Descending(Older(t, q, after));
    assert ids[i] in ids;
  }

  datatype Response = Served(listing: Listing, next: Token) | InvalidCursor

  function Respond(t: Tables, q: Query, token: Token, limit: int): Response {
    match Decode(NOTIFICATION_PREFIX, token)
    case Invalid => InvalidCursor
    case Position(after) =>
      var listing := ListingOf(t, q, after, ClampLimit(limit));
      var n := |listing.items|;
      Served(listing, if n == ClampLimit(limit) && n > 0 then Encode(NOTIFICATION_PREFIX, listing.items[n - 1].id) else Empty)
  }

  class Store {
    var rows: map<int, Note>
    var marks: set<(int, string)>
    var nextID: int
    var drawn: set<int>

    function View(): Tables
      reads this
    {
      Tables(rows, marks)
    }

    ghost predicate Valid()
      reads this
    {
      && nextID >= 1
      && (forall id :: id in rows || id in drawn ==> 1 <= id < nextID)
      && (forall id :: id in rows ==> id !in drawn)
    }

    constructor ()
      ensures Valid() && View() == Tables(map[], {}) && drawn == {}
    {
      rows, marks, nextID, drawn := map[], {}, 1, {};
    }

    /** The first half of an insert: its id, drawn from a sequence that may skip
      values but never repeats one. */
    method DrawID(skipped: nat) returns (id: int)
      requires Valid()
      modifies this
      ensures Valid() && View() == old(View()) && drawn == old(drawn) + {id}
      ensures id !in rows && id !in old(drawn) && forall k :: k in rows || k in old(drawn) ==> k < id
    {
      id := nextID + skipped;
      nextID := id + 1;
      drawn := drawn + {id};
    }

    /** The second half: the row becomes visible, possibly after rows whose ids
      were drawn later. */
    method InsertNotification(id: int, n: Note)
      requires Valid() && id in drawn
      modifies this
      ensures Valid() && id !in old(rows) && rows == old(rows)[id := n] && marks == old(marks)
      ensures drawn == old(drawn) - {id}
    {
      rows := rows[id := n];
      drawn := drawn - {id};
    }

    /** A notification the reader cannot see answers like one that does not
      exist, and marking one read twice is not an error. */
    method MarkNotificationRead(id: int, r: Reader) returns (visible: bool)
      requires Valid()
      modifies this
      ensures Valid() && (visible <==> id in rows && Visible(r, rows[id]))
      ensures rows == old(rows) && drawn == old(drawn)
      ensures marks == if visible then old(marks) + {(id, r.id)} else old(marks)
    {
      visible := false;
      if id in rows && Visible(r, rows[id]) {
        marks := marks + {(id, r.id)};
        visible := true;
      }
    }

    /** The page query: newest first, up to the limit. */
    method QueryPage(q: Query, after: int, limit: nat) returns (items: seq<Item>)
      ensures items == ItemsFor(View(), q, Take(Descending(Older(View(), q, after)), limit))
    {
      hide Largest, Older;
      var t := View();
      var left := Older(t, q, after);
      ghost var order := Descending(left);
      items := [];
      while left != {} && |items| < limit
        invariant |items| <= |order| && |items| <= limit
        invariant order[|items|..] == Descending(left)
        invariant items == ItemsFor(t, q, order[..|items|])
        decreases |left|
      {
        var id := Largest(left);
        assert order[|items|] == id;
        items := items + [Item(id, (id, q.reader.id) in marks)];
        left := left - {id};
      }
      assert order[..|items|] == Take(order, limit);
    }

    method ListNotifications(q: Query, after: int, limit: nat) returns (listing: Listing)
      ensures listing == ListingOf(View(), q, after, limit)
      ensures listing.total == |set id | id in rows && Visible(q.reader, rows[id])|
      ensures listing.unread == |set id | id in rows && Visible(q.reader, rows[id]) && (id, q.reader.id) !in marks|
    {
      hide Largest, Descending;
      var all := Older(View(), Query(q.reader, false), 0);
      var unread := set id | id in all && (id, q.reader.id) !in marks;
      assert unread == Older(View(), Query(q.reader, true), 0);
      assert all == (set id | id in rows && Visible(q.reader, rows[id]));
      assert unread == (set id | id in rows && Visible(q.reader, rows[id]) && (id, q.reader.id) !in marks);
      var items := QueryPage(q, after, limit);
      listing := Listing(items, |all|, |unread|);
    }

    method HandleList(q: Query, token: Token, limit: int) returns (response: Response)
      ensures response == Respond(View(), q, token, limit)
    {
      hide ListingOf, Decode;
      var after := Decode(NOTIFICATION_PREFIX, token);
      if after.Invalid? {
        return InvalidCursor;
      }
      var size := ClampLimit(limit);
      var listing := ListNotifications(q, after.value, size);
      var next := Empty;
      if |listing.items| == size && |listing.items| > 0 {
        next := Encode(NOTIFICATION_PREFIX, listing.items[|listing.items| - 1].id);
      }
      return Served(listing, next);
    }
  }

  // ------------------------------------------------------- walking the pages

  /** Ids are positive and fit an int64. */
  ghost predicate Keyed(t: Tables) {
    forall id :: id in t.rows ==> 0 < id < TWO63
  }

  /** What may happen between two page reads: rows arrive, under any ids, and, for
    a caller listing only unread rows, rows it has been given are marked. */
  ghost predicate Undisturbed(t: Tables, later: Tables, q: Query, cursor: int) {
    && (forall id :: id in t.rows ==> id in later.rows && later.rows[id] == t.rows[id])
    && (q.unreadOnly ==> forall id :: id in t.rows && id < cursor ==>
          ((id, q.reader.id) in later.marks <==> (id, q.reader.id) in t.marks))
  }

  /** Both writers of the store keep to that. */
  lemma WritersDoNotDisturb(t: Tables, q: Query, cursor: int, id: int, n: Note, given: int)
    requires id !in t.rows && given >= cursor
    ensures Undisturbed(t, t.(rows := t.rows[id := n]), q, cursor)
    ensures Undisturbed(t, t.(marks := t.marks + {(given, q.reader.id)}), q, cursor)
  {
  }

  function Rank(token: Token): nat {
    match Decode(NOTIFICATION_PREFIX, token)
    case Invalid => 0
    case Position(after) => if after == 0 then TWO63 else after
  }

  function Ids(items: seq<Item>): (ids: seq<int>)
    ensures |ids| == |items|
  {
    seq(|items|, i requires 0 <= i < |items| => items[i].id)
  }

  /** The ids of every page the cursor leads to; `at(n)` is the store when page
    `n` is read and `limits(n)` the page size asked for. */
  function Walk(at: nat -> Tables, q: Query, token: Token, limits: nat -> int, n: nat): Option<seq<int>>
    decreases Rank(token)
  {
    match Respond(at(n), q, token, limits(n))
    case InvalidCursor => None
    case Served(listing, Empty) => Some(Ids(listing.items))
    case Served(listing, next) =>
      if Rank(next) < Rank(token) then
        match Walk(at, q, next, limits, n + 1)
        case None => None
        case Some(rest) => Some(Ids(listing.items) + rest)
      else None
  }

  /** Nothing but the above happens along the walk. */
  ghost predicate WalkUndisturbed(at: nat -> Tables, q: Query, token: Token, limits: nat -> int, n: nat)
    decreases Rank(token)
  {
    Keyed(at(n)) &&
    match Respond(at(n), q, token, limits(n))
    case Served(listing, Encoded(body)) =>
      listing.items != [] &&
      Undisturbed(at(n), at(n + 1), q, listing.items[|listing.items| - 1].id) &&
      (Rank(Encoded(body)) < Rank(token) ==> WalkUndisturbed(at, q, Encoded(body), limits, n + 1))
    case _ => true
  }

  /** The row matches below the cursor when one of the walk's pages is read. */
  ghost predicate MatchesOnTheWay(at: nat -> Tables, q: Query, token: Token, limits: nat -> int, n: nat, id: int)
    decreases Rank(token)
  {
    match Decode(NOTIFICATION_PREFIX, token)
    case Invalid => false
    case Position(after) =>
      id in Older(at(n), q, after) ||
      match Respond(at(n), q, token, limits(n))
      case Served(_, Encoded(body)) =>
        Rank(Encoded(body)) < Rank(token) && MatchesOnTheWay(at, q, Encoded(body), limits, n + 1, id)
      case _ => false
  }

  lemma OlderStays(t: Tables, later: Tables, q: Query, cursor: int)
    requires Undisturbed(t, later, q, cursor) && cursor > 0
    ensures Older(t, q, cursor) <= Older(later, q, cursor)
    ensures forall id :: id in Older(later, q, cursor) && id in t.rows ==> id in Older(t, q, cursor)
  {
  }

  /** The page a well-formed cursor gets: a full one names its last row. */
  lemma PageAt(t: Tables, q: Query, after: int, limit: int)
    requires 0 <= after < TWO63
    ensures var ids := Take(Descending(Older(t, q, after)), ClampLimit(limit));
            var response := Respond(t, q, Encode(NOTIFICATION_PREFIX, after), limit);
            && response.Served?
            && Ids(response.listing.items) == ids
            && response.next == if |ids| == ClampLimit(limit) then Encode(NOTIFICATION_PREFIX, ids[|ids| - 1]) else Empty
  {
    hide Older, Descending, Decode;
    var ids := Take(Descending(Older(t, q, after)), ClampLimit(limit));
    CursorRoundTrip(NOTIFICATION_PREFIX, after);
    assert |ids| > 0 ==> ItemsFor(t, q, ids)[|ids| - 1].id == ids[|ids| - 1];
  }

  lemma RankOf(after: int)
    requires 0 <= after < TWO63
    ensures Rank(Encode(NOTIFICATION_PREFIX, after)) == if after == 0 then TWO63 else after
  {
    hide Decode;
    CursorRoundTrip(NOTIFICATION_PREFIX, after);
  }

  ghost predicate Falls(ids: seq<int>) {
    forall i, j :: 0 <= i < j < |ids| ==> ids[i] > ids[j]
  }

  /** A page and the rest of a walk below its last id. */
  lemma PageThenRest(older: set<int>, n: nat, rest: seq<int>)
    requires 0 < n <= |older| && Falls(rest)
    requires forall i :: 0 <= i < |rest| ==> rest[i] < Descending(older)[n - 1]
    ensures var page := Descending(older)[..n];
            && Falls(page + rest)
            && (forall id :: id in page ==> id in older)
            && (forall id :: id in older ==> id in page || id in Below(older, page[n - 1]))
  {
    hide Descending;
    DescendingLists(older);
    var ids := Descending(older);
    forall id | id in older && id >= ids[n - 1]
      ensures id in ids[..n]
    {
      var k :| 0 <= k < |ids| && ids[k] == id;
      assert k < n && ids[..n][k] == id;
    }
  }

  /** What a walk from a cursor must return. */
  ghost predicate Walked(at: nat -> Tables, q: Query, after: int, limits: nat -> int, n: nat, ids: seq<int>) {
    && Falls(ids)
    && (after != 0 ==> forall id :: id in ids ==> id < after)
    && (forall id :: id in Older(at(n), q, after) ==> id in ids)
    && (forall id :: id in ids <==> MatchesOnTheWay(at, q, Encode(NOTIFICATION_PREFIX, after), limits, n, id))
  }

  lemma ShortPage(at: nat -> Tables, q: Query, after: int, limits: nat -> int, n: nat)
    requires 0 <= after < TWO63
    requires |Descending(Older(at(n), q, after))| < ClampLimit(limits(n))
    ensures var ids := Descending(Older(at(n), q, after));
            && Walk(at, q, Encode(NOTIFICATION_PREFIX, after), limits, n) == Some(ids)
            && Walked(at, q, after, limits, n, ids)
  {
    hide Descending, Respond, Rank, ClampLimit, Decode, Encode;
    PageAt(at(n), q, after, limits(n));
    CursorRoundTrip(NOTIFICATION_PREFIX, after);
    DescendingLists(Older(at(n), q, after));
  }

  /** A full page: the walk is the page and the walk from its last id. */
  lemma FullPage(at: nat -> Tables, q: Query, after: int, limits: nat -> int, n: nat) returns (page: seq<int>, last: int)
    requires 0 <= after < TWO63 && Keyed(at(n))
    requires ClampLimit(limits(n)) <= |Descending(Older(at(n), q, after))|
    ensures page == Descending(Older(at(n), q, after))[..ClampLimit(limits(n))] && page != [] && last == page[|page| - 1]
    ensures 0 < last < TWO63 && last in Older(at(n), q, after) && (after != 0 ==> last < after)
    ensures var token, next := Encode(NOTIFICATION_PREFIX, after), Encode(NOTIFICATION_PREFIX, last);
            && Walk(at, q, token, limits, n) ==
                 (match Walk(at, q, next, limits, n + 1) case None => None case Some(rest) => Some(page + rest))
            && (WalkUndisturbed(at, q, token, limits, n) ==>
                  Undisturbed(at(n), at(n + 1), q, last) && WalkUndisturbed(at, q, next, limits, n + 1))
            && forall id :: MatchesOnTheWay(at, q, token, limits, n, id) <==>
                 id in Older(at(n), q, after) || MatchesOnTheWay(at, q, next, limits, n + 1, id)
  {
    hide Descending, Respond, Rank, ClampLimit, Decode, Older;
    var older, size := Older(at(n), q, after), ClampLimit(limits(n));
    page, last := Descending(older)[..size], Descending(older)[size - 1];
    PageAt(at(n), q, after, limits(n));
    CursorRoundTrip(NOTIFICATION_PREFIX, after);
    assert page == Take(Descending(older), size);
    DescendingLists(older);
    assert last in Descending(older);
    OlderInOrder(at(n), q, after, last);
    RankOf(after);
    RankOf(last);
    ItemsOf(at(n), q, after, limits(n));
  }

  lemma ItemsOf(t: Tables, q: Query, after: int, limit: int)
    requires 0 <= after < TWO63
    ensures var response, ids := Respond(t, q, Encode(NOTIFICATION_PREFIX, after), limit), Take(Descending(Older(t, q, after)), ClampLimit(limit));
            && response.Served? && |response.listing.items| == |ids|
            && forall i :: 0 <= i < |ids| ==> response.listing.items[i].id == ids[i]
  {
    hide Descending, Older, Decode, Encode, ClampLimit;
    CursorRoundTrip(NOTIFICATION_PREFIX, after);
  }

  /** A full page and what a walk from its last id must return, joined. */
  lemma JoinWalks(at: nat -> Tables, q: Query, after: int, limits: nat -> int, n: nat, last: int, size: nat, rest: seq<int>)
    requires 0 < size <= |Descending(Older(at(n), q, after))| && last == Descending(Older(at(n), q, after))[size - 1]
    requires last > 0 && (after != 0 ==> last < after)
    requires Below(Older(at(n), q, after), last) == Older(at(n), q, last)
    requires Older(at(n), q, last) <= Older(at(n + 1), q, last)
    requires Walked(at, q, last, limits, n + 1, rest)
    requires forall id :: MatchesOnTheWay(at, q, Encode(NOTIFICATION_PREFIX, after), limits, n, id) <==>
               id in Older(at(n), q, after) || MatchesOnTheWay(at, q, Encode(NOTIFICATION_PREFIX, last), limits, n + 1, id)
    ensures Walked(at, q, after, limits, n, Descending(Older(at(n), q, after))[..size] + rest)
  {
    hide Descending, Below, MatchesOnTheWay, Falls, Older;
    var older := Older(at(n), q, after);
    forall i | 0 <= i < |rest|
      ensures rest[i] < last
    {
      assert rest[i] in rest;
    }
    PageThenRest(older, size, rest);
    PageIsBelow(at(n), q, after);
    var page := Descending(older)[..size];
    assert forall id :: id in page + rest <==> id in page || id in rest;
  }

  lemma {:induction false} WalkFrom(at: nat -> Tables, q: Query, after: int, limits: nat -> int, n: nat)
    requires 0 <= after < TWO63
    requires WalkUndisturbed(at, q, Encode(NOTIFICATION_PREFIX, after), limits, n)
    ensures var walked := Walk(at, q, Encode(NOTIFICATION_PREFIX, after), limits, n);
            walked.Some? && Walked(at, q, after, limits, n, walked.value)
    decreases if after == 0 then TWO63 else after
  {
    hide *;
    var older, size := Older(at(n), q, after), ClampLimit(limits(n));
    WalkIsKeyed(at, q, after, limits, n);
    if |Descending(older)| < size {
      ShortPage(at, q, after, limits, n);
    } else {
      var page, last := FullPage(at, q, after, limits, n);
      WalkFrom(at, q, last, limits, n + 1);
      var rest := Walk(at, q, Encode(NOTIFICATION_PREFIX, last), limits, n + 1).value;
      OlderInOrder(at(n), q, after, last);
      OlderStays(at(n), at(n + 1), q, last);
      JoinWalks(at, q, after, limits, n, last, size, rest);
    }
  }

  lemma WalkIsKeyed(at: nat -> Tables, q: Query, after: int, limits: nat -> int, n: nat)
    requires WalkUndisturbed(at, q, Encode(NOTIFICATION_PREFIX, after), limits, n)
    ensures Keyed(at(n))
  {
    hide Respond, Rank, Keyed;
  }

  lemma PageIsBelow(t: Tables, q: Query, after: int)
    ensures after != 0 ==> forall id :: id in Older(t, q, after) ==> id < after
  {
  }

  lemma OlderInOrder(t: Tables, q: Query, after: int, last: int)
    requires Keyed(t) && last in Older(t, q, after)
    ensures last in t.rows && 0 < last < TWO63 && (after != 0 ==> last < after)
    ensures Below(Older(t, q, after), last) == Older(t, q, last)
  {
  }

  /** Walking by cursor while rows arrive, under any ids, ends, whatever the page
    sizes: it returns each row that matched at the first read exactly once, newest
    first; what else it returns are rows that arrived since and matched below the
    cursor when a page was read, and all of those. */
  lemma WalkReturnsTheFirstRead(at: nat -> Tables, q: Query, limits: nat -> int)
    requires WalkUndisturbed(at, q, Empty, limits, 0)
    ensures var walked := Walk(at, q, Empty, limits, 0);
            && walked.Some?
            && Falls(walked.value)
            && (forall id :: Matches(at(0), q, id) ==> id in walked.value)
            && (forall id :: id in walked.value <==> MatchesOnTheWay(at, q, Empty, limits, 0, id))
            && (forall id :: id in walked.value && !Matches(at(0), q, id) ==> id !in at(0).rows)
  {
    hide Walk, WalkUndisturbed, MatchesOnTheWay;
    WalkFrom(at, q, 0, limits, 0);
    forall id | id in at(0).rows && MatchesOnTheWay(at, q, Empty, limits, 0, id)
      ensures Matches(at(0), q, id)
    {
      MatchedFromTheStart(at, q, 0, limits, 0, id);
    }
  }

  /** A row that was there at a read and matches on the way already matched then. */
  lemma {:induction false} MatchedFromTheStart(at: nat -> Tables, q: Query, after: int, limits: nat -> int, n: nat, id: int)
    requires 0 <= after < TWO63
    requires WalkUndisturbed(at, q, Encode(NOTIFICATION_PREFIX, after), limits, n)
    requires id in at(n).rows && MatchesOnTheWay(at, q, Encode(NOTIFICATION_PREFIX, after), limits, n, id)
    ensures id in Older(at(n), q, after)
    decreases if after == 0 then TWO63 else after
  {
    WalkIsKeyed(at, q, after, limits, n);
    hide Descending, ClampLimit, Walk, WalkUndisturbed, MatchesOnTheWay, Keyed;
    if |Descending(Older(at(n), q, after))| < ClampLimit(limits(n)) {
      ShortPage(at, q, after, limits, n);
      DescendingLists(Older(at(n), q, after));
    } else if id !in Older(at(n), q, after) {
      var page, last := FullPage(at, q, after, limits, n);
      MatchedFromTheStart(at, q, last, limits, n + 1, id);
      OlderStays(at(n), at(n + 1), q, last);
    }
  }

  lemma {:induction false} WasThere(at: nat -> Tables, q: Query, token: Token, limits: nat -> int, n: nat, id: int)
    requires MatchesOnTheWay(at, q, token, limits, n, id)
    ensures exists m :: m >= n && id in at(m).rows
    decreases Rank(token)
  {
    var after := Decode(NOTIFICATION_PREFIX, token).value;
    if id in Older(at(n), q, after) {
      assert id in at(n).rows;
    } else {
      hide Respond, Rank, Older, Decode;
      WasThere(at, q, Respond(at(n), q, token, limits(n)).next, limits, n + 1, id);
    }
  }

  /** When rows arrive with larger ids only, as from a sequence that commits in
    order, nothing arrives below a cursor: the walk returns the first read and no
    more. */
  lemma LargerIdsAddNothing(at: nat -> Tables, q: Query, limits: nat -> int)
    requires WalkUndisturbed(at, q, Empty, limits, 0)
    requires forall n: nat, k, l :: k in at(n).rows && k !in at(0).rows && l in at(0).rows ==> l < k
    ensures Walk(at, q, Empty, limits, 0).Some?
    ensures forall id :: id in Walk(at, q, Empty, limits, 0).value <==> Matches(at(0), q, id)
  {
    hide Walk, WalkUndisturbed, MatchesOnTheWay, Descending, ClampLimit, Falls, Undisturbed, Keyed;
    WalkReturnsTheFirstRead(at, q, limits);
    WalkIsKeyed(at, q, 0, limits, 0);
    var older := Older(at(0), q, 0);
    DescendingLists(older);
    if |Descending(older)| < ClampLimit(limits(0)) {
      ShortPage(at, q, 0, limits, 0);
    } else {
      var page, last := FullPage(at, q, 0, limits, 0);
      WalkFrom(at, q, last, limits, 1);
      var rest := Walk(at, q, Encode(NOTIFICATION_PREFIX, last), limits, 1).value;
      forall id | id in page + rest
        ensures id in at(0).rows
      {
        if id in rest {
          WasThere(at, q, Encode(NOTIFICATION_PREFIX, last), limits, 1, id);
          var m :| m >= 1 && id in at(m).rows;
          assert id < last && last in at(0).rows;
        } else {
          assert id in page && id in Descending(older);
        }
      }
    }
  }
}
