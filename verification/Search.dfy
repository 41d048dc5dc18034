/** The in-memory search provider of internal/search/memory.go: tokens, scores,
  and the scan that ranks what a query matches.

  Go ranges over its document map in no particular order; the scan below picks
  documents in an arbitrary order too, and the result is shown not to depend on
  it.  Text is ASCII where case matters. */
module Search {
  import opened Sorting
  import opened Texts
  import opened Wrappers

  datatype Document = Document(
    id: string, kind: string, title: string, summary: string,
    permissions: seq<string>, scopeType: string, scopeID: string, updatedAt: int)

  datatype Hit = Hit(document: Document, score: nat)

  datatype Query = Query(
    text: string, kinds: seq<string>, permissions: seq<string>, allPermissions: bool, offset: nat, limit: nat)

  datatype Page = Page(hits: seq<Hit>, total: nat, examined: nat)

  // ------------------------------------------------------------------- terms

  predicate IsTermChar(c: char) {
    c == '-' || c == '_' || 'a' <= c <= 'z' || 'A' <= c <= 'Z' || '0' <= c <= '9' || c as int > 127
  }

  /** The terms of a text, given the term `open` being read when it starts. */
  function TermsFrom(open: string, text: string): seq<string>
    decreases |text|
  {
    if text == "" then (if open == "" then [] else [open])
    else
      var c := LowerChar(text[0]);
      if IsTermChar(c) then TermsFrom(open + [c], text[1..])
      else (if open == "" then [] else [open]) + TermsFrom("", text[1..])
  }

  function Terms(text: string): seq<string> {
    TermsFrom("", text)
  }

  method Tokenize(text: string) returns (terms: seq<string>)
    ensures terms == Terms(text)
  {
    terms := [];
    var open := "";
    for i := 0 to |text|
      invariant terms + TermsFrom(open, text[i..]) == Terms(text)
    {
      var c := LowerChar(text[i]);
      if IsTermChar(c) {
        open := open + [c];
      } else {
        if open != "" {
          terms := terms + [open];
        }
        open := "";
      }
    }
    if open != "" {
      terms := terms + [open];
    }
  }

  function Fold(text: string): (folded: string)
    ensures |folded| == |text|
  {
    seq(|text|, i requires 0 <= i < |text| => LowerChar(text[i]))
  }

  predicate OnlySeparators(gap: string) {
    forall i :: 0 <= i < |gap| ==> !IsTermChar(gap[i])
  }

  /** Gaps and terms in turn: a gap, then each term followed by a gap. */
  function Weave(gaps: seq<string>, terms: seq<string>): string
    requires |gaps| == |terms| + 1
  {
    if terms == [] then gaps[0] else gaps[0] + terms[0] + Weave(gaps[1..], terms[1..])
  }

  /** The gaps hold separators only, and between two terms there is one. */
  predicate GapsSeparate(gaps: seq<string>) {
    && (forall i :: 0 <= i < |gaps| ==> OnlySeparators(gaps[i]))
    && (forall i :: 0 < i < |gaps| - 1 ==> gaps[i] != "")
  }

  predicate IsTerm(term: string) {
    term != "" && forall i :: 0 <= i < |term| ==> IsTermChar(term[i]) && LowerChar(term[i]) == term[i]
  }

  lemma FoldTail(text: string)
    requires text != ""
    ensures Fold(text) == [LowerChar(text[0])] + Fold(text[1..])
  {
  }

  lemma LongerGap(c: char, gaps: seq<string>, terms: seq<string>)
    requires |gaps| == |terms| + 1 && GapsSeparate(gaps) && !IsTermChar(c)
    ensures var longer := [[c] + gaps[0]] + gaps[1..];
            GapsSeparate(longer) && Weave(longer, terms) == [c] + Weave(gaps, terms)
  {
    assert OnlySeparators(gaps[0]) && OnlySeparators([c] + gaps[0]);
    hide OnlySeparators, IsTermChar;
    var longer := [[c] + gaps[0]] + gaps[1..];
    forall i | 0 < i < |longer|
      ensures longer[i] == gaps[i]
    {
    }
    LongerWeave([c], gaps, terms);
  }

  lemma LongerWeave(head: string, gaps: seq<string>, terms: seq<string>)
    requires |gaps| == |terms| + 1
    ensures Weave([head + gaps[0]] + gaps[1..], terms) == head + Weave(gaps, terms)
  {
    var longer := [head + gaps[0]] + gaps[1..];
    assert longer[1..] == gaps[1..];
    if terms != [] {
      var tail := Weave(gaps[1..], terms[1..]);
      assert head + gaps[0] + terms[0] + tail == head + (gaps[0] + terms[0] + tail);
    }
  }

  lemma TermFirst(open: string, gaps: seq<string>, terms: seq<string>)
    requires |gaps| == |terms| + 1 && GapsSeparate(gaps) && (terms != [] ==> gaps[0] != "")
    ensures GapsSeparate([""] + gaps) && Weave([""] + gaps, [open] + terms) == open + Weave(gaps, terms)
  {
    WovenFirst(open, gaps, terms);
    EmptyGapFirst(gaps, terms);
    hide GapsSeparate, Weave;
  }

  lemma WovenFirst(open: string, gaps: seq<string>, terms: seq<string>)
    requires |gaps| == |terms| + 1
    ensures Weave([""] + gaps, [open] + terms) == open + Weave(gaps, terms)
  {
    var g, t := [""] + gaps, [open] + terms;
    assert g[1..] == gaps && t[1..] == terms && g[0] == "" && t[0] == open;
    assert "" + open == open;
  }

  lemma EmptyGapFirst(gaps: seq<string>, terms: seq<string>)
    requires |gaps| == |terms| + 1 && GapsSeparate(gaps) && (terms != [] ==> gaps[0] != "")
    ensures GapsSeparate([""] + gaps)
  {
    assert OnlySeparators("");
    hide OnlySeparators;
    var g := [""] + gaps;
    forall i | 0 < i < |g|
      ensures g[i] == gaps[i - 1]
    {
    }
  }

  lemma NoText(open: string) returns (gaps: seq<string>)
    ensures |gaps| == |TermsFrom(open, "")| + 1 && GapsSeparate(gaps)
    ensures Weave(gaps, TermsFrom(open, "")) == open + Fold("")
  {
    assert OnlySeparators("") && Fold("") == "";
    gaps := [""];
    if open != "" {
      TermFirst(open, [""], []);
      gaps := [""] + [""];
    }
  }

  /** The terms of a text read from inside the term `open`: what is woven is that
    term and the folded text. */
  lemma {:induction false} TermsFromWeave(open: string, text: string) returns (gaps: seq<string>)
    ensures |gaps| == |TermsFrom(open, text)| + 1 && GapsSeparate(gaps)
    ensures Weave(gaps, TermsFrom(open, text)) == open + Fold(text)
    decreases |text|
  {
    hide Weave, GapsSeparate, Fold;
    if text == "" {
      gaps := NoText(open);
    } else {
      var c := LowerChar(text[0]);
      FoldTail(text);
      if IsTermChar(c) {
        gaps := TermsFromWeave(open + [c], text[1..]);
        assert open + [c] + Fold(text[1..]) == open + ([c] + Fold(text[1..]));
      } else {
        var rest := TermsFromWeave("", text[1..]);
        var terms := TermsFrom("", text[1..]);
        gaps := [[c] + rest[0]] + rest[1..];
        LongerGap(c, rest, terms);
        assert "" + Fold(text[1..]) == Fold(text[1..]) && "" + Fold(text) == Fold(text);
        if open == "" {
          assert [] + terms == terms;
        } else {
          TermFirst(open, gaps, terms);
          gaps := [""] + gaps;
        }
      }
    }
  }

  /** The terms are the maximal runs of term characters: the folded text is the
    terms in order with separators around them, and between any two at least
    one. */
  lemma TermsAreTheRuns(text: string)
    ensures forall t :: t in Terms(text) ==> IsTerm(t)
    ensures exists gaps: seq<string> ::
              |gaps| == |Terms(text)| + 1 && GapsSeparate(gaps) && Weave(gaps, Terms(text)) == Fold(text)
  {
    TermsAreTerms("", text);
    var gaps := TermsFromWeave("", text);
    assert "" + Fold(text) == Fold(text);
  }

  lemma {:induction false} TermsAreTerms(open: string, text: string)
    requires open == "" || IsTerm(open)
    ensures forall t :: t in TermsFrom(open, text) ==> IsTerm(t)
    decreases |text|
  {
    if text != "" {
      var c := LowerChar(text[0]);
      if IsTermChar(c) {
        TermsAreTerms(open + [c], text[1..]);
      } else {
        TermsAreTerms("", text[1..]);
      }
    }
  }

  /** The same letter, or its capital. */
  predicate SameLetter(a: char, b: char) {
    a == b || ('A' <= a <= 'Z' && b as int == a as int + 32) || ('A' <= b <= 'Z' && a as int == b as int + 32)
  }

  /** Capitals make no difference. */
  lemma {:induction false} TermsIgnoreCase(open: string, a: string, b: string)
    requires |a| == |b| && forall i :: 0 <= i < |a| ==> SameLetter(a[i], b[i])
    ensures TermsFrom(open, a) == TermsFrom(open, b)
    decreases |a|
  {
    if a != "" {
      assert SameLetter(a[0], b[0]);
      forall i | 0 <= i < |a| - 1
        ensures SameLetter(a[1..][i], b[1..][i])
      {
        assert SameLetter(a[i + 1], b[i + 1]);
      }
      var c := LowerChar(a[0]);
      TermsIgnoreCase(if IsTermChar(c) then open + [c] else "", a[1..], b[1..]);
    }
  }

  // ------------------------------------------------------------------ scores

  /** 2 for a token equal to the term, 1 for one that merely begins with it. */
  function FieldScoreOf(tokens: seq<string>, term: string): nat {
    if term in tokens then 2
    else if exists k :: 0 <= k < |tokens| && term <= tokens[k] then 1
    else 0
  }

  method FieldScore(tokens: seq<string>, term: string) returns (best: nat)
    ensures best == FieldScoreOf(tokens, term)
  {
    best := 0;
    for i := 0 to |tokens|
      invariant term !in tokens[..i]
      invariant best == if exists k :: 0 <= k < i && term <= tokens[k] then 1 else 0
    {
      assert tokens[..i + 1] == tokens[..i] + [tokens[i]];
      if tokens[i] == term {
        return 2;
      } else if term <= tokens[i] {
        best := 1;
      }
    }
    assert tokens[..|tokens|] == tokens;
  }

  function TermScore(d: Document, term: string): nat {
    2 * FieldScoreOf(Terms(d.title), term) + FieldScoreOf(Terms(d.summary), term)
  }

  function SumScores(d: Document, terms: seq<string>): nat {
    if terms == [] then 0 else SumScores(d, terms[..|terms| - 1]) + TermScore(d, terms[|terms| - 1])
  }

  function ScoreOf(d: Document, terms: seq<string>): nat {
    if exists t :: t in terms && TermScore(d, t) == 0 then 0 else SumScores(d, terms)
  }

  method Score(d: Document, terms: seq<string>) returns (score: nat)
    ensures score == ScoreOf(d, terms)
  {
    var title := Tokenize(d.title);
    var summary := Tokenize(d.summary);
    score := 0;
    for i := 0 to |terms|
      invariant score == SumScores(d, terms[..i])
      invariant forall t :: t in terms[..i] ==> TermScore(d, t) > 0
    {
      var fieldScore := FieldScore(title, terms[i]);
      var termScore := fieldScore * 2;
      var summaryScore := FieldScore(summary, terms[i]);
      if summaryScore > 0 {
        termScore := termScore + summaryScore;
      }
      if termScore == 0 {
        return 0;
      }
      score := score + termScore;
      assert terms[..i + 1][..i] == terms[..i];
      assert forall t :: t in terms[..i + 1] <==> t in terms[..i] || t == terms[i];
    }
    assert terms[..|terms|] == terms;
  }

  predicate BeginsSome(tokens: seq<string>, term: string) {
    exists k :: 0 <= k < |tokens| && term <= tokens[k]
  }

  lemma FieldScoreSign(tokens: seq<string>, term: string)
    ensures FieldScoreOf(tokens, term) > 0 <==> BeginsSome(tokens, term)
  {
  }

  predicate Appears(d: Document, term: string) {
    BeginsSome(Terms(d.title), term) || BeginsSome(Terms(d.summary), term)
  }

  /** A document scores exactly when every term of a non-empty query begins some
    token of its title or summary. */
  lemma MatchesEveryTerm(d: Document, terms: seq<string>)
    ensures ScoreOf(d, terms) > 0 <==> terms != [] && forall t :: t in terms ==> Appears(d, t)
  {
    forall t
      ensures TermScore(d, t) > 0 <==> Appears(d, t)
    {
      FieldScoreSign(Terms(d.title), t);
      FieldScoreSign(Terms(d.summary), t);
    }
    if terms != [] {
      assert terms[|terms| - 1] in terms;
    }
  }

  /** What each further term adds to a document that has matched so far: 4 for a
    title token equal to it, 2 for one it begins, and half of either for the
    summary; a term that begins no token of either ends the match. */
  lemma EachTermAdds(d: Document, terms: seq<string>, term: string)
    requires terms == [] || ScoreOf(d, terms) > 0
    ensures ScoreOf(d, []) == 0
    ensures var title, summary := Terms(d.title), Terms(d.summary);
            ScoreOf(d, terms + [term]) ==
            if !Appears(d, term) then 0
            else
              ScoreOf(d, terms)
              + (if term in title then 4 else if BeginsSome(title, term) then 2 else 0)
              + (if term in summary then 2 else if BeginsSome(summary, term) then 1 else 0)
  {
    var more := terms + [term];
    assert more[..|more| - 1] == terms && more[|more| - 1] == term;
    FieldScoreSign(Terms(d.title), term);
    FieldScoreSign(Terms(d.summary), term);
    MatchesEveryTerm(d, terms);
    MatchesEveryTerm(d, more);
    hide Terms, BeginsSome, FieldScoreOf;
    assert term in more && forall t :: t in more <==> t in terms || t == term;
    FieldScores(Terms(d.title), term);
    FieldScores(Terms(d.summary), term);
    forall t
      ensures TermScore(d, t) > 0 <==> Appears(d, t)
    {
      FieldScores(Terms(d.title), t);
      FieldScores(Terms(d.summary), t);
    }
  }

  lemma FieldScores(tokens: seq<string>, term: string)
    ensures FieldScoreOf(tokens, term) == if term in tokens then 2 else if BeginsSome(tokens, term) then 1 else 0
    ensures term in tokens ==> BeginsSome(tokens, term)
  {
  }

  /** An equal token outweighs one merely begun, and a title the summary. */
  lemma BetterMatchScoresMore(a: Document, b: Document, term: string)
    ensures a.summary == b.summary && term in Terms(a.title) && term !in Terms(b.title) ==>
              ScoreOf(a, [term]) > ScoreOf(b, [term])
    ensures a.title == b.summary && a.summary == b.title && Appears(a, term) && !BeginsSome(Terms(a.summary), term) ==>
              ScoreOf(a, [term]) > ScoreOf(b, [term])
  {
    EachTermAdds(a, [], term);
    EachTermAdds(b, [], term);
    assert [] + [term] == [term];
    FieldScores(Terms(a.title), term);
    FieldScores(Terms(a.summary), term);
    hide Terms, ScoreOf, BeginsSome;
  }

  // ------------------------------------------------------------ the candidates

  predicate AnyPermission(required: seq<string>, held: seq<string>) {
    exists p :: p in required && p in held
  }

  predicate IsCandidate(d: Document, q: Query) {
    && (q.kinds == [] || d.kind in q.kinds)
    && (q.allPermissions || AnyPermission(d.permissions, q.permissions))
    && ScoreOf(d, Terms(q.text)) > 0
  }

  function HitFor(d: Document, q: Query): Hit {
    Hit(d, ScoreOf(d, Terms(q.text)))
  }

  /** Score first, then recency, then id. */
  predicate RanksBefore(a: Hit, b: Hit) {
    if a.score != b.score then a.score > b.score
    else if a.document.updatedAt != b.document.updatedAt then a.document.updatedAt > b.document.updatedAt
    else Less(a.document.id, b.document.id)
  }

  lemma RankingIsStrictWeakOrder()
    ensures StrictWeakOrder(RanksBefore)
  {
    LessIsStrictWeakOrder();
  }

  type Documents = map<string, Document>

  /** The index is keyed by document id. */
  predicate Keyed(documents: Documents) {
    forall id :: id in documents ==> documents[id].id == id
  }

  /** The hits are the candidates among `ids`, each once, in rank order. */
  ghost predicate IsRanking(hits: seq<Hit>, documents: Documents, ids: set<string>, q: Query) {
    && Sorted(hits, RanksBefore)
    && IsListing(hits, documents, ids, q)
  }

  ghost predicate IsListing(hits: seq<Hit>, documents: Documents, ids: set<string>, q: Query) {
    && (forall h :: h in hits <==> h.document.id in ids && h.document.id in documents
                                   && documents[h.document.id] == h.document
                                   && IsCandidate(h.document, q) && h == HitFor(h.document, q))
    && (forall i, j :: 0 <= i < j < |hits| ==> hits[i].document.id != hits[j].document.id)
  }

  lemma {:induction false} DistinctBag(a: seq<Hit>, h: Hit)
    requires forall i, j :: 0 <= i < j < |a| ==> a[i].document.id != a[j].document.id
    ensures multiset(a)[h] == if h in a then 1 else 0
  {
    if a != [] {
      DistinctBag(a[1..], h);
      assert a == [a[0]] + a[1..];
      if h in a[1..] {
        var i :| 0 <= i < |a| - 1 && a[1..][i] == h;
        assert a[0].document.id != a[i + 1].document.id;
      }
    }
  }

  lemma SameMembersSameBag(a: seq<Hit>, b: seq<Hit>)
    requires forall i, j :: 0 <= i < j < |a| ==> a[i].document.id != a[j].document.id
    requires forall i, j :: 0 <= i < j < |b| ==> b[i].document.id != b[j].document.id
    requires forall h :: h in a <==> h in b
    ensures multiset(a) == multiset(b)
  {
    forall h: Hit
      ensures multiset(a)[h] == multiset(b)[h]
    {
      DistinctBag(a, h);
      DistinctBag(b, h);
    }
  }

  /** A query has one ranking, whatever order the documents were visited in and
    whatever sort was used. */
  lemma RankingIsUnique(a: seq<Hit>, b: seq<Hit>, documents: Documents, ids: set<string>, q: Query)
    requires Keyed(documents) && IsRanking(a, documents, ids, q) && IsRanking(b, documents, ids, q)
    ensures a == b
  {
    assert forall h :: h in a <==> h in b;
    SameMembersSameBag(a, b);
    forall g, h | g in a && h in a && g != h
      ensures RanksBefore(g, h) || RanksBefore(h, g)
    {
      LessTotal(g.document.id, h.document.id);
    }
    SortedIsUnique(a, b, RanksBefore);
  }

  /** The order of a ranking: the higher score first, of equal scores the later
    update, and of those the smaller id. */
  lemma InOrder(hits: seq<Hit>, i: nat, j: nat)
    requires Sorted(hits, RanksBefore) && i < j < |hits| && hits[i].document.id != hits[j].document.id
    ensures var a, b := hits[i], hits[j];
            || a.score > b.score
            || (a.score == b.score && a.document.updatedAt > b.document.updatedAt)
            || (a.score == b.score && a.document.updatedAt == b.document.updatedAt && Less(a.document.id, b.document.id))
  {
    LessTotal(hits[i].document.id, hits[j].document.id);
  }

  /** What a ranking holds, and in which order. */
  lemma RankingTells(hits: seq<Hit>, documents: Documents, q: Query)
    requires Keyed(documents) && IsRanking(hits, documents, documents.Keys, q)
    ensures forall d :: (exists h :: h in hits && h.document == d) <==>
              && d.id in documents && documents[d.id] == d
              && (q.kinds == [] || d.kind in q.kinds)
              && (q.allPermissions || exists p :: p in d.permissions && p in q.permissions)
              && Terms(q.text) != [] && forall t :: t in Terms(q.text) ==> Appears(d, t)
    ensures forall h :: h in hits ==> h.score == ScoreOf(h.document, Terms(q.text))
    ensures forall i, j :: 0 <= i < j < |hits| ==>
              var a, b := hits[i], hits[j];
              || a.score > b.score
              || (a.score == b.score && a.document.updatedAt > b.document.updatedAt)
              || (a.score == b.score && a.document.updatedAt == b.document.updatedAt && Less(a.document.id, b.document.id))
  {
    forall i, j | 0 <= i < j < |hits|
      ensures var a, b := hits[i], hits[j];
              || a.score > b.score
              || (a.score == b.score && a.document.updatedAt > b.document.updatedAt)
              || (a.score == b.score && a.document.updatedAt == b.document.updatedAt && Less(a.document.id, b.document.id))
    {
      InOrder(hits, i, j);
    }
    hide Terms, ScoreOf, Appears, RanksBefore;
    forall d
      ensures (exists h :: h in hits && h.document == d) <==> d.id in documents && documents[d.id] == d && IsCandidate(d, q)
      ensures IsCandidate(d, q) <==>
                && (q.kinds == [] || d.kind in q.kinds)
                && (q.allPermissions || exists p :: p in d.permissions && p in q.permissions)
                && Terms(q.text) != [] && forall t :: t in Terms(q.text) ==> Appears(d, t)
    {
      MatchesEveryTerm(d, Terms(q.text));
      if d.id in documents && documents[d.id] == d && IsCandidate(d, q) {
        assert HitFor(d, q) in hits;
      }
    }
  }

  lemma SortingRanks(hits: seq<Hit>, documents: Documents, ids: set<string>, q: Query)
    requires IsListing(hits, documents, ids, q)
    ensures IsRanking(SortBy(hits, RanksBefore), documents, ids, q)
  {
    var sorted := SortBy(hits, RanksBefore);
    RankingIsStrictWeakOrder();
    SortBySorts(hits, RanksBefore);
    SortByPermutes(hits, RanksBefore);
    assert forall h :: h in sorted <==> h in multiset(hits);
    forall i, j | 0 <= i < j < |sorted|
      ensures sorted[i].document.id != sorted[j].document.id
    {
      DistinctAfterSort(hits, sorted, i, j);
    }
  }

  lemma TwiceInBag(b: seq<Hit>, i: nat, j: nat)
    requires i < j < |b| && b[i] == b[j]
    ensures multiset(b)[b[i]] >= 2
  {
    assert b == b[..j] + b[j..] && b[..j][i] == b[i] && b[j..][0] == b[i];
    assert b[i] in multiset(b[..j]) && b[i] in multiset(b[j..]);
  }

  lemma DistinctAfterSort(a: seq<Hit>, b: seq<Hit>, i: nat, j: nat)
    requires forall m, n :: 0 <= m < n < |a| ==> a[m].document.id != a[n].document.id
    requires multiset(a) == multiset(b) && i < j < |b|
    ensures b[i].document.id != b[j].document.id
  {
    if b[i] == b[j] {
      TwiceInBag(b, i, j);
      DistinctBag(a, b[i]);
    } else {
      assert b[i] in multiset(a) && b[j] in multiset(a);
      var m, n :| 0 <= m < |a| && a[m] == b[i] && 0 <= n < |a| && a[n] == b[j];
    }
  }

  /** The ranking of a query over an index. */
  ghost function Ranked(documents: Documents, q: Query): (hits: seq<Hit>)
    requires Keyed(documents)
    ensures IsRanking(hits, documents, documents.Keys, q)
  {
    RankingExists(documents, documents.Keys, q);
    var hits :| IsRanking(hits, documents, documents.Keys, q);
    hits
  }

  lemma {:induction false} RankingExists(documents: Documents, ids: set<string>, q: Query)
    requires Keyed(documents) && ids <= documents.Keys
    ensures exists hits :: IsRanking(hits, documents, ids, q)
    decreases ids
  {
    if ids == {} {
      assert IsRanking([], documents, ids, q);
    } else {
      var id :| id in ids;
      RankingExists(documents, ids - {id}, q);
      var hits :| IsRanking(hits, documents, ids - {id}, q);
      assert ids - {id} + {id} == ids;
      SortingRanks(if IsCandidate(documents[id], q) then hits + [HitFor(documents[id], q)] else hits, documents, ids, q);
    }
  }

  function Window(hits: seq<Hit>, offset: nat, limit: nat): seq<Hit> {
    var rest := hits[if offset > |hits| then |hits| else offset..];
    if 0 < limit < |rest| then rest[..limit] else rest
  }

  /** A window starts at the offset and holds up to the limit, none meaning all;
    windows next to each other leave nothing out between them. */
  lemma WindowIs(hits: seq<Hit>, offset: nat, limit: nat)
    ensures limit == 0 && offset <= |hits| ==> Window(hits, offset, limit) == hits[offset..]
    ensures limit > 0 && offset + limit <= |hits| ==>
              |Window(hits, offset, limit)| == limit &&
              Window(hits, offset, limit) + Window(hits, offset + limit, 0) == Window(hits, offset, 0)
    ensures offset <= |hits| < offset + limit ==> Window(hits, offset, limit) == hits[offset..]
    ensures offset >= |hits| ==> Window(hits, offset, limit) == []
  {
  }

  // ------------------------------------------------------------- the provider

  function Upserted(documents: Documents, batch: seq<Option<Document>>): Documents {
    if batch == [] then documents
    else
      var before, last := Upserted(documents, batch[..|batch| - 1]), batch[|batch| - 1];
      if last == None then before else before[last.value.id := last.value]
  }

  /** The last document of a batch with a given id. */
  function LastWith(batch: seq<Option<Document>>, id: string): Option<Document> {
    if batch == [] then None
    else
      var last := batch[|batch| - 1];
      if last != None && last.value.id == id then last else LastWith(batch[..|batch| - 1], id)
  }

  lemma {:induction false} UpsertedAt(documents: Documents, batch: seq<Option<Document>>, id: string)
    ensures var after, last := Upserted(documents, batch), LastWith(batch, id);
            && (id in after <==> last != None || id in documents)
            && (last != None ==> after[id] == last.value)
            && (last == None && id in documents ==> after[id] == documents[id])
  {
    if batch != [] {
      UpsertedAt(documents, batch[..|batch| - 1], id);
    }
  }

  /** Indexing replaces rather than duplicates, so replaying a request changes
    nothing. */
  lemma ReplayIsSafe(documents: Documents, batch: seq<Option<Document>>)
    ensures Upserted(Upserted(documents, batch), batch) == Upserted(documents, batch)
  {
    var once := Upserted(documents, batch);
    var twice := Upserted(once, batch);
    forall id
      ensures id in twice <==> id in once
      ensures id in once ==> twice[id] == once[id]
    {
      UpsertedAt(documents, batch, id);
      UpsertedAt(once, batch, id);
    }
  }

  predicate Named(ids: seq<string>, id: string) {
    exists i :: 0 <= i < |ids| && TrimSpace(ids[i]) == id
  }

  lemma NamedGrows(ids: seq<string>, last: string)
    ensures forall id :: Named(ids + [last], id) <==> Named(ids, id) || id == TrimSpace(last)
  {
    hide TrimSpace;
    var more := ids + [last];
    forall id
      ensures Named(more, id) <==> Named(ids, id) || id == TrimSpace(last)
    {
      assert more[|ids|] == last;
      if Named(ids, id) {
        var i :| 0 <= i < |ids| && TrimSpace(ids[i]) == id;
        assert TrimSpace(more[i]) == id;
      }
    }
  }

  class Memory {
    var documents: Documents

    ghost predicate Valid()
      reads this
    {
      Keyed(documents)
    }

    constructor ()
      ensures Valid() && documents == map[]
    {
      documents := map[];
    }

    /** Upserts a batch whose documents have been validated one by one; None is
      a document that did not validate.  Nothing is indexed unless all did. */
    method Index(batch: seq<Option<Document>>) returns (ok: bool)
      requires Valid()
      modifies this
      ensures Valid() && (ok <==> None !in batch)
      ensures documents == if ok then Upserted(old(documents), batch) else old(documents)
    {
      var normalized: seq<Document> := [];
      for i := 0 to |batch|
        invariant |normalized| == i && None !in batch[..i]
        invariant forall k :: 0 <= k < i ==> batch[k] == Some(normalized[k])
      {
        if batch[i] == None {
          return false;
        }
        normalized := normalized + [batch[i].value];
      }
      assert batch[..|batch|] == batch;
      for i := 0 to |normalized|
        invariant Keyed(documents) && documents == Upserted(old(documents), batch[..i])
      {
        assert batch[..i + 1][..i] == batch[..i];
        documents := documents[normalized[i].id := normalized[i]];
      }
      return true;
    }

    /** Exactly the documents named, spaces around an id aside, are gone; removing
      an absent one succeeds. */
    method Delete(ids: seq<string>)
      requires Valid()
      modifies this
      ensures Valid()
      ensures documents == map id | id in old(documents) && !Named(ids, id) :: old(documents)[id]
    {
      hide TrimSpace;
      for i := 0 to |ids|
        invariant documents == map id | id in old(documents) && !Named(ids[..i], id) :: old(documents)[id]
      {
        documents := documents - {TrimSpace(ids[i])};
        assert ids[..i + 1] == ids[..i] + [ids[i]];
        NamedGrows(ids[..i], ids[i]);
      }
      assert ids[..|ids|] == ids;
    }

    method Search(q: Query) returns (page: Page)
      requires Valid()
      ensures page.hits == Window(Ranked(documents, q), q.offset, q.limit)
      ensures page.total == |Ranked(documents, q)| && page.examined == |page.hits|
    {
      var terms := Tokenize(q.text);
      if |terms| == 0 {
        NoTermsNoHits(documents, q);
        return Page([], 0, 0);
      }
      var todo := documents.Keys;
      var candidates: seq<Hit> := [];
      while todo != {}
        invariant todo <= documents.Keys
        invariant IsListing(candidates, documents, documents.Keys - todo, q)
      {
        var id :| id in todo;
        assert documents.Keys - todo + {id} == documents.Keys - (todo - {id});
        todo := todo - {id};
        var d := documents[id];
        if |q.kinds| > 0 && d.kind !in q.kinds {
          continue;
        }
        if !q.allPermissions && !AnyPermission(d.permissions, q.permissions) {
          continue;
        }
        var score := Score(d, terms);
        if score <= 0 {
          continue;
        }
        candidates := candidates + [Hit(d, score)];
      }
      assert documents.Keys - {} == documents.Keys;
      SortingRanks(candidates, documents, documents.Keys, q);
      candidates := SortBy(candidates, RanksBefore);
      RankingIsUnique(candidates, Ranked(documents, q), documents, documents.Keys, q);
      var total := |candidates|;
      var offset := q.offset;
      if offset > total {
        offset := total;
      }
      var window := candidates[offset..];
      if q.limit > 0 && q.limit < |window| {
        window := window[..q.limit];
      }
      return Page(window, total, |window|);
    }
  }

  lemma NoTermsNoHits(documents: Documents, q: Query)
    requires Keyed(documents) && Terms(q.text) == []
    ensures Ranked(documents, q) == []
  {
    var hits := Ranked(documents, q);
    if hits != [] {
      assert hits[0] in hits;
      MatchesEveryTerm(hits[0].document, []);
    }
  }
}
