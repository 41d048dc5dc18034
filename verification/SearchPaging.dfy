/** The search endpoint of cmd/server/search.go: authorization of the candidates,
  the page that stops early, and the cursor that resumes it.

  Authorization is an arbitrary fixed decision; it may also be unavailable. */
module SearchPaging {
  import opened Search
  import opened Sorting
  import opened Cursors
  import opened Words
  import opened Wrappers

  datatype Decision = Allowed | Denied | Unavailable

  /** The authorization service, for one caller: permission, scope type, scope. */
  type Evaluate = (string, string, string) -> Decision

  const DEFAULT_LIMIT := 20
  const MAX_LIMIT := 50
  const CANDIDATE_FACTOR := 4
  const CANDIDATE_CAP := 100

  function ClampLimit(limit: int): (n: nat)
    ensures 1 <= n <= 50 && (1 <= limit <= 50 ==> n == limit)
  {
    if limit <= 0 then DEFAULT_LIMIT else if limit > MAX_LIMIT then MAX_LIMIT else limit
  }

  function Candidates(limit: nat): nat {
    if limit * CANDIDATE_FACTOR > CANDIDATE_CAP then CANDIDATE_CAP else limit * CANDIDATE_FACTOR
  }

  // ----------------------------------------------------------- authorization

  function DecideFrom(evaluate: Evaluate, d: Document, i: nat): Decision
    requires i <= |d.permissions|
    decreases |d.permissions| - i
  {
    if i == |d.permissions| then Denied
    else
      match evaluate(d.permissions[i], d.scopeType, d.scopeID)
      case Denied => DecideFrom(evaluate, d, i + 1)
      case decided => decided
  }

  function Decide(evaluate: Evaluate, d: Document): Decision {
    DecideFrom(evaluate, d, 0)
  }

  method MayRead(evaluate: Evaluate, d: Document) returns (decision: Decision)
    ensures decision == Decide(evaluate, d)
  {
    for i := 0 to |d.permissions|
      invariant DecideFrom(evaluate, d, i) == Decide(evaluate, d)
    {
      decision := evaluate(d.permissions[i], d.scopeType, d.scopeID);
      if decision != Denied {
        return decision;
      }
    }
    return Denied;
  }

  /** With the service up, any one of a document's permissions is enough, and a
    document that carries none is visible to nobody. */
  lemma {:induction false} AnyPermissionIsEnough(evaluate: Evaluate, d: Document, i: nat)
    requires i <= |d.permissions|
    requires forall p :: p in d.permissions ==> evaluate(p, d.scopeType, d.scopeID) != Unavailable
    ensures DecideFrom(evaluate, d, i) == Allowed <==>
              exists k :: i <= k < |d.permissions| && evaluate(d.permissions[k], d.scopeType, d.scopeID) == Allowed
    ensures DecideFrom(evaluate, d, i) != Unavailable
    decreases |d.permissions| - i
  {
    if i < |d.permissions| {
      assert d.permissions[i] in d.permissions;
      AnyPermissionIsEnough(evaluate, d, i + 1);
    }
  }

  /** The first permission that is not denied decides, an unavailable service
    included; with all of them denied, so is the document. */
  lemma {:induction false} FirstDecisionCounts(evaluate: Evaluate, d: Document, i: nat, k: nat)
    requires i <= k <= |d.permissions|
    requires forall m :: i <= m < k ==> evaluate(d.permissions[m], d.scopeType, d.scopeID) == Denied
    requires k < |d.permissions| ==> evaluate(d.permissions[k], d.scopeType, d.scopeID) != Denied
    ensures DecideFrom(evaluate, d, i) ==
            if k == |d.permissions| then Denied else evaluate(d.permissions[k], d.scopeType, d.scopeID)
    decreases k - i
  {
    if i < k {
      FirstDecisionCounts(evaluate, d, i + 1, k);
    }
  }

  // ------------------------------------------------------------------ a page

  predicate Readable(evaluate: Evaluate, h: Hit) {
    Decide(evaluate, h.document) == Allowed
  }

  function Permitted(evaluate: Evaluate, hits: seq<Hit>): seq<Hit> {
    if hits == [] then []
    else Permitted(evaluate, hits[..|hits| - 1]) +
         (if Readable(evaluate, hits[|hits| - 1]) then [hits[|hits| - 1]] else [])
  }

  predicate Decided(evaluate: Evaluate, hits: seq<Hit>) {
    forall h :: h in hits ==> Decide(evaluate, h.document) != Unavailable
  }

  datatype Scanned = Undecided | Scanned(hits: seq<Hit>, consumed: nat)

  function ScanFrom(evaluate: Evaluate, candidates: seq<Hit>, limit: nat, i: nat, hits: seq<Hit>): Scanned
    requires i <= |candidates|
    decreases |candidates| - i
  {
    if i == |candidates| then Scanned(hits, i)
    else
      match Decide(evaluate, candidates[i].document)
      case Unavailable => Undecided
      case decision =>
        var more := if decision == Allowed then hits + [candidates[i]] else hits;
        if |more| == limit then Scanned(more, i + 1) else ScanFrom(evaluate, candidates, limit, i + 1, more)
  }

  function Scan(evaluate: Evaluate, candidates: seq<Hit>, limit: nat): Scanned {
    ScanFrom(evaluate, candidates, limit, 0, [])
  }

  /** The loop over the candidates, left as soon as the page is full. */
  method PermittedHits(evaluate: Evaluate, candidates: seq<Hit>, limit: nat) returns (result: Scanned)
    ensures result == Scan(evaluate, candidates, limit)
  {
    var permitted := [];
    var consumed := 0;
    for i := 0 to |candidates|
      invariant consumed == i
      invariant ScanFrom(evaluate, candidates, limit, i, permitted) == Scan(evaluate, candidates, limit)
    {
      consumed := consumed + 1;
      var decision := MayRead(evaluate, candidates[i].document);
      if decision == Unavailable {
        return Undecided;
      }
      if decision == Allowed {
        permitted := permitted + [candidates[i]];
      }
      if |permitted| == limit {
        break;
      }
    }
    return Scanned(permitted, consumed);
  }

  /** A page holds the readable ones among the candidates it consumed, and stops
    exactly when it is full or has seen them all. */
  lemma {:induction false} ScanStopsInTime(evaluate: Evaluate, candidates: seq<Hit>, limit: nat, i: nat, hits: seq<Hit>)
    requires i <= |candidates| && hits == Permitted(evaluate, candidates[..i]) && |hits| < limit
    requires Decided(evaluate, candidates)
    ensures var s := ScanFrom(evaluate, candidates, limit, i, hits);
            && s.Scanned? && i <= s.consumed <= |candidates|
            && s.hits == Permitted(evaluate, candidates[..s.consumed])
            && |s.hits| <= limit
            && (s.consumed < |candidates| ==> |s.hits| == limit)
            && (candidates != [] ==> s.consumed > 0)
    decreases |candidates| - i
  {
    if i < |candidates| {
      assert candidates[..i + 1][..i] == candidates[..i];
      assert candidates[i] in candidates;
      var more := if Readable(evaluate, candidates[i]) then hits + [candidates[i]] else hits;
      assert more == Permitted(evaluate, candidates[..i + 1]);
      if |more| != limit {
        ScanStopsInTime(evaluate, candidates, limit, i + 1, more);
      }
    }
  }

  /** The service fails on candidate `k`, which a page read from `i` still needs. */
  ghost predicate FailsAt(evaluate: Evaluate, candidates: seq<Hit>, limit: nat, i: nat, k: nat) {
    && i <= k < |candidates| && Decide(evaluate, candidates[k].document) == Unavailable
    && (forall m :: i <= m < k ==> Decide(evaluate, candidates[m].document) != Unavailable)
    && |Permitted(evaluate, candidates[..k])| < limit
  }

  /** A page is refused exactly when the service fails on a candidate the page
    still needs. */
  lemma {:induction false} ScanFailsExactlyWhen(evaluate: Evaluate, candidates: seq<Hit>, limit: nat, i: nat, hits: seq<Hit>)
    requires i <= |candidates| && hits == Permitted(evaluate, candidates[..i]) && |hits| < limit
    ensures ScanFrom(evaluate, candidates, limit, i, hits) == Undecided <==>
              exists k :: FailsAt(evaluate, candidates, limit, i, k)
    decreases |candidates| - i
  {
    if i == |candidates| {
      NoneLeft(evaluate, candidates, limit, i);
    } else if Decide(evaluate, candidates[i].document) == Unavailable {
      FailsHere(evaluate, candidates, limit, i);
      hide FailsAt, Decide;
    } else {
      var more := Permitted(evaluate, candidates[..i + 1]);
      OneMoreScanned(evaluate, candidates, limit, i);
      FailsLater(evaluate, candidates, limit, i, i + 1);
      hide Permitted, FailsAt, ScanFrom, Decide;
      if |more| != limit {
        ScanFailsExactlyWhen(evaluate, candidates, limit, i + 1, more);
      }
    }
  }

  lemma NoneLeft(evaluate: Evaluate, candidates: seq<Hit>, limit: nat, i: nat)
    requires i >= |candidates|
    ensures forall k :: !FailsAt(evaluate, candidates, limit, i, k)
  {
  }

  lemma FailsHere(evaluate: Evaluate, candidates: seq<Hit>, limit: nat, i: nat)
    requires i < |candidates| && Decide(evaluate, candidates[i].document) == Unavailable
    requires |Permitted(evaluate, candidates[..i])| < limit
    ensures FailsAt(evaluate, candidates, limit, i, i)
  {
  }

  lemma OneMoreScanned(evaluate: Evaluate, candidates: seq<Hit>, limit: nat, i: nat)
    requires i < |candidates| && Decide(evaluate, candidates[i].document) != Unavailable
    requires |Permitted(evaluate, candidates[..i])| < limit
    ensures var more := Permitted(evaluate, candidates[..i + 1]);
            && |more| <= limit
            && ScanFrom(evaluate, candidates, limit, i, Permitted(evaluate, candidates[..i])) ==
                 if |more| == limit then Scanned(more, i + 1) else ScanFrom(evaluate, candidates, limit, i + 1, more)
  {
    hide Decide;
    var hits, upto := Permitted(evaluate, candidates[..i]), candidates[..i + 1];
    assert upto[..|upto| - 1] == candidates[..i] && upto[|upto| - 1] == candidates[i];
    var more := if Readable(evaluate, candidates[i]) then hits + [candidates[i]] else hits;
    assert more == Permitted(evaluate, upto);
  }

  lemma FailsLater(evaluate: Evaluate, candidates: seq<Hit>, limit: nat, i: nat, next: nat)
    requires next == i + 1 <= |candidates| && Decide(evaluate, candidates[i].document) != Unavailable
    ensures forall k :: FailsAt(evaluate, candidates, limit, i, k) <==> FailsAt(evaluate, candidates, limit, next, k)
    ensures |Permitted(evaluate, candidates[..next])| >= limit ==> forall k :: !FailsAt(evaluate, candidates, limit, next, k)
  {
    hide Decide, Permitted;
    forall k | FailsAt(evaluate, candidates, limit, next, k)
      ensures |Permitted(evaluate, candidates[..next])| < limit
    {
      PermittedRises(evaluate, candidates, next, k);
    }
  }

  lemma {:induction false} PermittedRises(evaluate: Evaluate, candidates: seq<Hit>, j: nat, k: nat)
    requires j <= k <= |candidates|
    ensures |Permitted(evaluate, candidates[..j])| <= |Permitted(evaluate, candidates[..k])|
  {
    hide Readable;
    if j < k {
      PermittedRises(evaluate, candidates, j, k - 1);
      assert candidates[..k][..k - 1] == candidates[..k - 1];
    }
  }

  // ------------------------------------------------------------ the endpoint

  datatype Response = Served(hits: seq<Hit>, next: Token) | InvalidCursor | StoreUnavailable

  function Respond(ranked: seq<Hit>, evaluate: Evaluate, token: Token, limit: int): Response {
    match Decode(SEARCH_PREFIX, token)
    case Invalid => InvalidCursor
    case Position(offset) =>
      match Scan(evaluate, Window(ranked, offset, Candidates(ClampLimit(limit))), ClampLimit(limit))
      case Undecided => StoreUnavailable
      case Scanned(hits, consumed) =>
        Served(hits, if offset + consumed < |ranked| then Encode(SEARCH_PREFIX, offset + consumed) else Empty)
  }

  function Unpaged(q: Query): Query {
    q.(offset := 0, limit := 0)
  }

  /** Where a page starts and how long it is have no say in the ranking. */
  lemma RankingIgnoresWindow(documents: Documents, q: Query)
    requires Keyed(documents)
    ensures Ranked(documents, q) == Ranked(documents, Unpaged(q))
  {
    var hits := Ranked(documents, q);
    assert IsRanking(hits, documents, documents.Keys, Unpaged(q)) by {
      forall h
        ensures HitFor(h, q) == HitFor(h, Unpaged(q)) && IsCandidate(h, q) == IsCandidate(h, Unpaged(q))
      {
      }
    }
    RankingIsUnique(hits, Ranked(documents, Unpaged(q)), documents, documents.Keys, Unpaged(q));
  }

  method HandleSearch(memory: Memory, evaluate: Evaluate, query: Query, token: Token, limit: int) returns (response: Response)
    requires memory.Valid() && query == Unpaged(query)
    ensures response == Respond(Ranked(memory.documents, query), evaluate, token, limit)
  {
    hide Scan, Ranked, Decode, Encode, Window, ClampLimit;
    var position := Decode(SEARCH_PREFIX, token);
    if position.Invalid? {
      return InvalidCursor;
    }
    var size := ClampLimit(limit);
    var candidates := size * CANDIDATE_FACTOR;
    if candidates > CANDIDATE_CAP {
      candidates := CANDIDATE_CAP;
    }
    var paged := query.(offset := position.value, limit := candidates);
    var page := memory.Search(paged);
    RankingIgnoresWindow(memory.documents, paged);
    assert Unpaged(paged) == query;
    var result := PermittedHits(evaluate, page.hits, size);
    if result.Undecided? {
      return StoreUnavailable;
    }
    var next := Empty;
    if position.value + result.consumed < page.total {
      next := Encode(SEARCH_PREFIX, position.value + result.consumed);
    }
    return Served(result.hits, next);
  }

  // ---------------------------------------------------- following the cursor

  function Remaining(ranked: seq<Hit>, token: Token): nat {
    match Decode(SEARCH_PREFIX, token)
    case Invalid => 0
    case Position(offset) => if offset < |ranked| then |ranked| - offset else 0
  }

  lemma WindowOf(ranked: seq<Hit>, offset: nat, limit: nat)
    requires limit > 0 && offset <= |ranked|
    ensures Window(ranked, offset, limit) ==
              ranked[offset..offset + if limit < |ranked| - offset then limit else |ranked| - offset]
  {
  }

  /** A page of the walk: it takes the candidates from `offset` to `stop`. */
  lemma PageAdvances(ranked: seq<Hit>, evaluate: Evaluate, offset: nat, limit: int) returns (stop: nat)
    requires offset <= |ranked| < TWO63 && Decided(evaluate, ranked)
    ensures offset <= stop <= |ranked| && (offset < |ranked| ==> offset < stop)
    ensures Respond(ranked, evaluate, Encode(SEARCH_PREFIX, offset), limit) ==
              Served(Permitted(evaluate, ranked[offset..stop]),
                     if stop < |ranked| then Encode(SEARCH_PREFIX, stop) else Empty)
    ensures |Permitted(evaluate, ranked[offset..stop])| <= ClampLimit(limit)
    ensures |Permitted(evaluate, ranked[offset..stop])| < ClampLimit(limit) && stop < |ranked| ==>
              stop - offset == if 4 * ClampLimit(limit) <= 100 then 4 * ClampLimit(limit) else 100
  {
    hide ScanFrom, Decode, Encode, Decide, Permitted;
    CursorRoundTrip(SEARCH_PREFIX, offset);
    var size := ClampLimit(limit);
    var window := Window(ranked, offset, Candidates(size));
    WindowOf(ranked, offset, Candidates(size));
    hide Window, ClampLimit;
    WindowDecided(evaluate, ranked, window, offset);
    NothingScanned(evaluate, window);
    ScanStopsInTime(evaluate, window, size, 0, []);
    var s := Scan(evaluate, window, size);
    stop := offset + s.consumed;
    assert window[..s.consumed] == ranked[offset..stop];
  }

  lemma NothingScanned(evaluate: Evaluate, window: seq<Hit>)
    ensures Permitted(evaluate, window[..0]) == []
  {
  }

  lemma WindowDecided(evaluate: Evaluate, ranked: seq<Hit>, window: seq<Hit>, offset: nat)
    requires offset + |window| <= |ranked| && window == ranked[offset..offset + |window|] && Decided(evaluate, ranked)
    ensures Decided(evaluate, window)
  {
    forall h | h in window
      ensures h in ranked
    {
    }
  }

  /** Every page the cursor leads to, concatenated; the caller may ask for a
    different page size each time.  None: some page could not be served. */
  function Walk(ranked: seq<Hit>, evaluate: Evaluate, token: Token, limits: nat -> int, page: nat): Option<seq<Hit>>
    requires |ranked| < TWO63
    decreases Remaining(ranked, token)
  {
    match Respond(ranked, evaluate, token, limits(page))
    case Served(hits, Empty) => Some(hits)
    case Served(hits, next) =>
      if Remaining(ranked, next) < Remaining(ranked, token) then
        match Walk(ranked, evaluate, next, limits, page + 1)
        case None => None
        case Some(rest) => Some(hits + rest)
      else None
    case _ => None
  }

  lemma {:induction false} PermittedJoins(evaluate: Evaluate, a: seq<Hit>, b: seq<Hit>)
    ensures Permitted(evaluate, a + b) == Permitted(evaluate, a) + Permitted(evaluate, b)
  {
    if b == [] {
      assert a + b == a;
    } else {
      assert (a + b)[..|a + b| - 1] == a + b[..|b| - 1];
      PermittedJoins(evaluate, a, b[..|b| - 1]);
    }
  }

  lemma {:induction false} WalkFrom(ranked: seq<Hit>, evaluate: Evaluate, offset: nat, limits: nat -> int, page: nat)
    requires offset <= |ranked| < TWO63 && Decided(evaluate, ranked)
    ensures Walk(ranked, evaluate, Encode(SEARCH_PREFIX, offset), limits, page) ==
              Some(Permitted(evaluate, ranked[offset..]))
    decreases |ranked| - offset
  {
    hide Respond, Permitted, Decode, Decide;
    var stop := PageAdvances(ranked, evaluate, offset, limits(page));
    CursorRoundTrip(SEARCH_PREFIX, offset);
    if stop < |ranked| {
      CursorRoundTrip(SEARCH_PREFIX, stop);
      WalkFrom(ranked, evaluate, stop, limits, page + 1);
      assert ranked[offset..] == ranked[offset..stop] + ranked[stop..];
      PermittedJoins(evaluate, ranked[offset..stop], ranked[stop..]);
    } else {
      assert ranked[offset..stop] == ranked[offset..];
    }
  }

  predicate Distinct(hits: seq<Hit>) {
    forall i, j :: 0 <= i < j < |hits| ==> hits[i].document.id != hits[j].document.id
  }

  /** Appending a hit that comes after all the others. */
  lemma OneMoreHit(p: seq<Hit>, last: Hit)
    requires Distinct(p) && Sorted(p, RanksBefore)
    requires forall i :: 0 <= i < |p| ==> p[i].document.id != last.document.id && !RanksBefore(last, p[i])
    ensures Distinct(p + [last]) && Sorted(p + [last], RanksBefore)
  {
    hide RanksBefore;
  }

  lemma PrefixOfRanked(hits: seq<Hit>, n: nat)
    requires Distinct(hits) && Sorted(hits, RanksBefore) && n <= |hits|
    ensures Distinct(hits[..n]) && Sorted(hits[..n], RanksBefore)
  {
    hide RanksBefore;
  }

  lemma {:induction false} PermittedAre(evaluate: Evaluate, hits: seq<Hit>)
    ensures forall h :: h in Permitted(evaluate, hits) <==> h in hits && Readable(evaluate, h)
  {
    hide Readable;
    if hits != [] {
      PermittedAre(evaluate, hits[..|hits| - 1]);
      assert hits == hits[..|hits| - 1] + [hits[|hits| - 1]];
    }
  }

  lemma {:induction false} PermittedSelects(evaluate: Evaluate, hits: seq<Hit>)
    requires Distinct(hits) && Sorted(hits, RanksBefore)
    ensures forall h :: h in Permitted(evaluate, hits) <==> h in hits && Readable(evaluate, h)
    ensures Distinct(Permitted(evaluate, hits)) && Sorted(Permitted(evaluate, hits), RanksBefore)
  {
    hide RanksBefore, Readable;
    PermittedAre(evaluate, hits);
    if hits != [] {
      var before, last := hits[..|hits| - 1], hits[|hits| - 1];
      PrefixOfRanked(hits, |hits| - 1);
      PermittedSelects(evaluate, before);
      var p := Permitted(evaluate, before);
      forall i | 0 <= i < |p|
        ensures p[i].document.id != last.document.id && !RanksBefore(last, p[i])
      {
        assert p[i] in before;
        var k :| 0 <= k < |before| && before[k] == p[i];
        assert hits[k] == p[i];
      }
      hide Distinct, Sorted;
      OneMoreHit(p, last);
    }
  }

  /** Following next_cursor from the start over an unchanged index ends, whatever
    page sizes are asked for, and yields exactly the permitted candidates, each
    once, in rank order: one sequence, whatever order the index was scanned in. */
  lemma FollowingTheCursor(documents: Documents, q: Query, evaluate: Evaluate, limits: nat -> int, ranked: seq<Hit>)
    requires Keyed(documents) && IsRanking(ranked, documents, documents.Keys, q)
    requires |ranked| < TWO63 && Decided(evaluate, ranked)
    ensures ranked == Ranked(documents, q)
    ensures var walked := Walk(ranked, evaluate, Empty, limits, 0);
            && walked == Some(Permitted(evaluate, ranked))
            && (forall d :: (exists h :: h in walked.value && h.document == d) <==>
                  d.id in documents && documents[d.id] == d && IsCandidate(d, q) && Decide(evaluate, d) == Allowed)
            && (forall h :: h in walked.value ==> h.score == ScoreOf(h.document, Terms(q.text)))
            && Distinct(walked.value)
            && forall i, j :: 0 <= i < j < |walked.value| ==>
                 var a, b := walked.value[i], walked.value[j];
                 || a.score > b.score
                 || (a.score == b.score && a.document.updatedAt > b.document.updatedAt)
                 || (a.score == b.score && a.document.updatedAt == b.document.updatedAt
                     && Less(a.document.id, b.document.id))
  {
    RankingIsUnique(ranked, Ranked(documents, q), documents, documents.Keys, q);
    RankedAre(documents, q, ranked);
    hide Ranked, IsRanking, Walk, Permitted, RanksBefore, Decided, IsCandidate;
    WalkFrom(ranked, evaluate, 0, limits, 0);
    assert ranked[0..] == ranked;
    PermittedSelects(evaluate, ranked);
    var walked := Permitted(evaluate, ranked);
    forall d
      ensures (exists h :: h in walked && h.document == d) <==>
                d.id in documents && documents[d.id] == d && IsCandidate(d, q) && Decide(evaluate, d) == Allowed
    {
      if d.id in documents && documents[d.id] == d && IsCandidate(d, q) && Decide(evaluate, d) == Allowed {
        assert HitFor(d, q) in walked;
      }
    }
    forall i, j | 0 <= i < j < |walked|
      ensures var a, b := walked[i], walked[j];
              || a.score > b.score
              || (a.score == b.score && a.document.updatedAt > b.document.updatedAt)
              || (a.score == b.score && a.document.updatedAt == b.document.updatedAt && Less(a.document.id, b.document.id))
    {
      InOrder(walked, i, j);
    }
  }

  lemma RankedAre(documents: Documents, q: Query, ranked: seq<Hit>)
    requires Keyed(documents) && IsRanking(ranked, documents, documents.Keys, q)
    ensures Distinct(ranked) && Sorted(ranked, RanksBefore)
    ensures forall h :: h in ranked ==>
              && h.document.id in documents && documents[h.document.id] == h.document
              && IsCandidate(h.document, q) && h.score == ScoreOf(h.document, Terms(q.text))
    ensures forall d: Document :: d.id in documents && documents[d.id] == d && IsCandidate(d, q) ==>
              HitFor(d, q) in ranked && HitFor(d, q).document == d
  {
    hide RanksBefore, IsCandidate, ScoreOf;
  }
}
