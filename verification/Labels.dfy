/** Metric label rendering and the counters keyed by it, from
  internal/observability/metrics.go.

  A series is identified by its rendered label set, so two observations share a
  series exactly when rendering maps them to one string.  That it does so only
  for equal values is the point of this module. */
module Labels {
  import opened Sorting

  // ---------------------------------------------------------------- escaping

  function EscapeChar(c: char): string {
    match c
    case '\\' => "\\\\"
    case '\"' => "\\\""
    case '\n' => "\\n"
    case _ => [c]
  }

  function Escape(value: string): string {
    if value == "" then "" else EscapeChar(value[0]) + Escape(value[1..])
  }

  datatype Read = NoQuote | Read(value: string, rest: string)

  /** How a scraper reads an escaped value up to its closing quote. */
  function ReadQuoted(text: string): Read {
    if text == "" then NoQuote
    else if text[0] == '\"' then Read("", text[1..])
    else
      var escaped := text[0] == '\\' && |text| > 1;
      var c := if !escaped then text[0] else if text[1] == 'n' then '\n' else text[1];
      match ReadQuoted(text[if escaped then 2 else 1..])
      case NoQuote => NoQuote
      case Read(value, rest) => Read([c] + value, rest)
  }

  function Prepend(c: char, r: Read): Read {
    match r
    case NoQuote => NoQuote
    case Read(value, rest) => Read([c] + value, rest)
  }

  lemma ReadsOneChar(c: char, tail: string)
    ensures ReadQuoted(EscapeChar(c) + tail) == Prepend(c, ReadQuoted(tail))
  {
  }

  /** Escaping can be undone: whatever follows the closing quote, the value read
    is the value escaped, and the text left is what followed. */
  lemma {:induction false} EscapeUndone(value: string, rest: string)
    ensures ReadQuoted(Escape(value) + "\"" + rest) == Read(value, rest)
  {
    if value == "" {
      assert Escape(value) + "\"" + rest == "\"" + rest;
    } else {
      EscapeUndone(value[1..], rest);
      var tail := Escape(value[1..]) + "\"" + rest;
      assert Escape(value) + "\"" + rest == EscapeChar(value[0]) + tail;
      ReadsOneChar(value[0], tail);
      assert [value[0]] + value[1..] == value;
    }
  }

  /** A rendered value stays on one line, whatever it holds. */
  lemma {:induction false} EscapedStaysOnOneLine(value: string)
    ensures '\n' !in Escape(value)
  {
    if value != "" {
      EscapedStaysOnOneLine(value[1..]);
    }
  }

  // --------------------------------------------------------------- rendering

  datatype Label = Label(name: string, value: string)

  function RenderOne(l: Label): string {
    l.name + "=\"" + Escape(l.value) + "\""
  }

  function RenderEach(ls: seq<Label>): (parts: seq<string>)
    ensures |parts| == |ls|
  {
    if ls == [] then [] else [RenderOne(ls[0])] + RenderEach(ls[1..])
  }

  function Join(parts: seq<string>): string {
    if parts == [] then ""
    else if |parts| == 1 then parts[0]
    else parts[0] + "," + Join(parts[1..])
  }

  /** The value a name gets: missing values read as empty, surplus ones are
    ignored. */
  function ValueAt(values: seq<string>, i: nat): string {
    if i < |values| then values[i] else ""
  }

  function Padded(names: seq<string>, values: seq<string>): (padded: seq<string>)
    ensures |padded| == |names|
  {
    seq(|names|, i requires 0 <= i < |names| => ValueAt(values, i))
  }

  function Zip(names: seq<string>, values: seq<string>): (ls: seq<Label>)
    requires |names| == |values|
    ensures |ls| == |names| && forall i :: 0 <= i < |ls| ==> ls[i] == Label(names[i], values[i])
  {
    if names == [] then [] else [Label(names[0], values[0])] + Zip(names[1..], values[1..])
  }

  function LabelSet(names: seq<string>, values: seq<string>): string {
    if names == [] then ""
    else "{" + Join(SortBy(RenderEach(Zip(names, Padded(names, values))), Less)) + "}"
  }

  /** A missing value is an empty one, and a surplus one is ignored. */
  lemma MissingReadsAsEmpty(names: seq<string>, values: seq<string>, surplus: string)
    ensures LabelSet(names, values) == LabelSet(names, values + [if |values| < |names| then "" else surplus])
  {
    assert Padded(names, values) == Padded(names, values + [if |values| < |names| then "" else surplus]);
  }

  method MakeLabelSet(names: seq<string>, values: seq<string>) returns (key: string)
    ensures key == LabelSet(names, values)
  {
    if |names| == 0 {
      return "";
    }
    var pairs := [];
    var labels := Zip(names, Padded(names, values));
    for i := 0 to |names|
      invariant pairs == RenderEach(labels[..i])
    {
      var value := "";
      if i < |values| {
        value := values[i];
      }
      pairs := pairs + [RenderOne(Label(names[i], value))];
      RenderEachAppends(labels[..i], labels[i]);
      assert labels[..i + 1] == labels[..i] + [labels[i]];
    }
    assert labels[..|names|] == labels;
    pairs := SortBy(pairs, Less);
    key := "{" + Join(pairs) + "}";
  }

  lemma {:induction false} RenderEachAppends(ls: seq<Label>, l: Label)
    ensures RenderEach(ls + [l]) == RenderEach(ls) + [RenderOne(l)]
  {
    if ls == [] {
      assert [l][1..] == [];
    } else {
      RenderEachAppends(ls[1..], l);
      assert (ls + [l])[1..] == ls[1..] + [l];
    }
  }

  // ------------------------------------- the order depends on the names alone

  /** Distinct label names, none holding the separator. */
  predicate ProperNames(names: seq<string>) {
    && (forall i :: 0 <= i < |names| ==> '=' !in names[i])
    && (forall i, j :: 0 <= i < j < |names| ==> names[i] != names[j])
  }

  function Names(ls: seq<Label>): (names: seq<string>)
    ensures |names| == |ls|
  {
    seq(|ls|, i requires 0 <= i < |ls| => ls[i].name)
  }

  predicate NameOrder(m: string, n: string) {
    Less(m + "=", n + "=")
  }

  predicate NameLess(a: Label, b: Label) {
    NameOrder(a.name, b.name)
  }

  lemma {:induction false} PrefixDecides(m: string, n: string, x: string, y: string)
    requires '=' !in m && '=' !in n && m != n
    ensures Less(m + "=" + x, n + "=" + y) == NameOrder(m, n)
  {
    var s, t := m + "=" + x, n + "=" + y;
    if m != "" && n != "" && m[0] == n[0] {
      assert m == [m[0]] + m[1..] && n == [n[0]] + n[1..];
      assert s[1..] == m[1..] + "=" + x && t[1..] == n[1..] + "=" + y;
      assert (m + "=")[1..] == m[1..] + "=" && (n + "=")[1..] == n[1..] + "=";
      PrefixDecides(m[1..], n[1..], x, y);
    } else {
      assert s[0] == (m + "=")[0] && t[0] == (n + "=")[0];
    }
  }

  lemma RenderedOrder(a: Label, b: Label)
    requires '=' !in a.name && '=' !in b.name && a.name != b.name
    ensures Less(RenderOne(a), RenderOne(b)) == NameLess(a, b)
  {
    var x, y := "\"" + Escape(a.value) + "\"", "\"" + Escape(b.value) + "\"";
    assert RenderOne(a) == a.name + "=" + x && RenderOne(b) == b.name + "=" + y;
    PrefixDecides(a.name, b.name, x, y);
  }

  lemma {:induction false} InsertRendered(l: Label, ls: seq<Label>)
    requires '=' !in l.name && forall k :: k in ls ==> '=' !in k.name && k.name != l.name
    ensures Insert(RenderOne(l), RenderEach(ls), Less) == RenderEach(Insert(l, ls, NameLess))
  {
    if ls != [] {
      assert ls[0] in ls;
      RenderedOrder(ls[0], l);
      InsertRendered(l, ls[1..]);
    }
  }

  /** Sorting the rendered pairs is rendering the pairs sorted by name. */
  lemma {:induction false} SortRendered(ls: seq<Label>)
    requires ProperNames(Names(ls))
    ensures SortBy(RenderEach(ls), Less) == RenderEach(SortBy(ls, NameLess))
  {
    if ls != [] {
      assert forall i :: 0 <= i < |ls| ==> ls[i].name == Names(ls)[i];
      assert forall i :: 0 <= i < |ls| - 1 ==> Names(ls[1..])[i] == Names(ls)[i + 1];
      SortRendered(ls[1..]);
      var rest := SortBy(ls[1..], NameLess);
      SortByPermutes(ls[1..], NameLess);
      forall k | k in rest
        ensures '=' !in k.name && k.name != ls[0].name
      {
        assert k in multiset(ls[1..]);
        var i :| 0 <= i < |ls| - 1 && ls[1..][i] == k;
        assert Names(ls)[i + 1] == k.name;
      }
      InsertRendered(ls[0], rest);
    }
  }

  lemma {:induction false} InsertNamed(l: Label, ls: seq<Label>)
    ensures Names(Insert(l, ls, NameLess)) == Insert(l.name, Names(ls), NameOrder)
  {
    if ls != [] {
      InsertNamed(l, ls[1..]);
      assert Names(ls)[1..] == Names(ls[1..]);
      assert Names([ls[0]] + Insert(l, ls[1..], NameLess)) == [ls[0].name] + Names(Insert(l, ls[1..], NameLess));
    }
    assert Names([l] + ls) == [l.name] + Names(ls);
  }

  /** The order of the rendered pairs depends on the names alone. */
  lemma {:induction false} OrderIgnoresValues(ls: seq<Label>)
    ensures Names(SortBy(ls, NameLess)) == SortBy(Names(ls), NameOrder)
  {
    if ls != [] {
      OrderIgnoresValues(ls[1..]);
      assert Names(ls)[1..] == Names(ls[1..]);
      InsertNamed(ls[0], SortBy(ls[1..], NameLess));
    }
  }

  // -------------------------------------------------------------- injectivity

  /** Reading the joined pairs back, given the names in their order. */
  function ReadLabels(names: seq<string>, text: string): seq<Label> {
    if names == [] || |text| < |names[0]| + 2 then []
    else
      match ReadQuoted(text[|names[0]| + 2..])
      case NoQuote => []
      case Read(value, rest) =>
        [Label(names[0], value)] + ReadLabels(names[1..], if rest == "" then "" else rest[1..])
  }

  lemma ReadsOneLabel(names: seq<string>, l: Label, rest: string)
    requires names != [] && names[0] == l.name
    ensures ReadLabels(names, RenderOne(l) + rest) ==
              [l] + ReadLabels(names[1..], if rest == "" then "" else rest[1..])
  {
    hide ReadQuoted, Escape;
    var text := RenderOne(l) + rest;
    assert text == (l.name + "=\"") + (Escape(l.value) + "\"" + rest);
    assert text[|l.name| + 2..] == Escape(l.value) + "\"" + rest;
    EscapeUndone(l.value, rest);
  }

  lemma {:induction false} JoinUndone(ls: seq<Label>)
    ensures ReadLabels(Names(ls), Join(RenderEach(ls))) == ls
  {
    hide ReadQuoted, Escape, RenderOne;
    if ls != [] {
      JoinUndone(ls[1..]);
      assert Names(ls)[1..] == Names(ls[1..]);
      var later := Join(RenderEach(ls[1..]));
      var rest := if |ls| == 1 then "" else "," + later;
      assert Join(RenderEach(ls)) == RenderOne(ls[0]) + rest;
      ReadsOneLabel(Names(ls), ls[0], rest);
      assert ls == [ls[0]] + ls[1..];
      if |ls| == 1 {
        assert later == "";
      } else {
        assert rest[1..] == later;
      }
    }
  }

  lemma ZipNames(names: seq<string>, values: seq<string>)
    requires |names| == |values|
    ensures Names(Zip(names, values)) == names
  {
  }

  /** For distinct names without the separator, a label set identifies its
    values: two series share a key exactly when their values agree. */
  lemma LabelSetIdentifies(names: seq<string>, v: seq<string>, w: seq<string>)
    requires ProperNames(names)
    ensures LabelSet(names, v) == LabelSet(names, w) <==> Padded(names, v) == Padded(names, w)
  {
    hide ReadLabels, RenderEach, Join, SortBy, Less, ProperNames, Padded;
    if LabelSet(names, v) == LabelSet(names, w) && names != [] {
      var ls, ms := Zip(names, Padded(names, v)), Zip(names, Padded(names, w));
      ZipNames(names, Padded(names, v));
      ZipNames(names, Padded(names, w));
      SortRendered(ls);
      SortRendered(ms);
      OrderIgnoresValues(ls);
      OrderIgnoresValues(ms);
      var sl, sm := SortBy(ls, NameLess), SortBy(ms, NameLess);
      var tl, tm := Join(RenderEach(sl)), Join(RenderEach(sm));
      assert ("{" + tl + "}")[1..|tl| + 1] == tl && ("{" + tm + "}")[1..|tm| + 1] == tm;
      JoinUndone(sl);
      JoinUndone(sm);
      assert sl == sm;
      SameSortSameMembers(ls, ms);
      SameLabelsSameValues(names, Padded(names, v), Padded(names, w));
    }
  }

  lemma SameSortSameMembers(ls: seq<Label>, ms: seq<Label>)
    requires SortBy(ls, NameLess) == SortBy(ms, NameLess)
    ensures forall l :: l in ls ==> l in ms
  {
    SortByPermutes(ls, NameLess);
    SortByPermutes(ms, NameLess);
    forall l | l in ls
      ensures l in ms
    {
      assert l in multiset(ls);
    }
  }

  lemma SameLabelsSameValues(names: seq<string>, v: seq<string>, w: seq<string>)
    requires ProperNames(names) && |names| == |v| == |w|
    requires forall l :: l in Zip(names, v) ==> l in Zip(names, w)
    ensures v == w
  {
    forall i | 0 <= i < |names|
      ensures v[i] == w[i]
    {
      assert Zip(names, v)[i] in Zip(names, w);
      var j :| 0 <= j < |names| && Zip(names, w)[j] == Zip(names, v)[i];
      assert names[i] == names[j];
    }
  }

  // ------------------------------------------------------------------ metrics

  /** A counter vector: its series live in a map keyed by label set. */
  class CounterVec {
    const labels: seq<string>
    var values: map<string, real>

    ghost predicate Valid() {
      ProperNames(labels)
    }

    function Reading(labelValues: seq<string>): real
      reads this
    {
      var key := LabelSet(labels, labelValues);
      if key in values then values[key] else 0.0
    }

    constructor (labels: seq<string>)
      requires ProperNames(labels)
      ensures Valid() && this.labels == labels && values == map[]
    {
      this.labels := labels;
      values := map[];
    }

    /** Only the series whose values agree moves, and it moves by delta. */
    method Add(delta: real, labelValues: seq<string>)
      requires Valid()
      modifies this
      ensures forall other ::
                Reading(other) == old(Reading(other)) +
                  (if Padded(labels, other) == Padded(labels, labelValues) then delta else 0.0)
      ensures forall key :: key in values <==> key in old(values) || key == LabelSet(labels, labelValues)
    {
      var key := MakeLabelSet(labels, labelValues);
      values := values[key := (if key in values then values[key] else 0.0) + delta];
      forall other
        ensures Reading(other) == old(Reading(other)) +
                  (if Padded(labels, other) == Padded(labels, labelValues) then delta else 0.0)
      {
        LabelSetIdentifies(labels, other, labelValues);
      }
    }
  }

  function AtMost(observed: seq<real>, bound: real): nat {
    if observed == [] then 0
    else AtMost(observed[..|observed| - 1], bound) + (if observed[|observed| - 1] <= bound then 1 else 0)
  }

  function Total(observed: seq<real>): real {
    if observed == [] then 0.0 else Total(observed[..|observed| - 1]) + observed[|observed| - 1]
  }

  lemma {:induction false} BucketsAreCumulative(observed: seq<real>, low: real, high: real)
    requires low <= high
    ensures AtMost(observed, low) <= AtMost(observed, high) <= |observed|
  {
    if observed != [] {
      BucketsAreCumulative(observed[..|observed| - 1], low, high);
    }
  }

  /** An observation equal to a bound counts in that bound's bucket. */
  lemma {:induction false} BucketsCountUpToTheBound(observed: seq<real>, bound: real)
    ensures AtMost(observed, bound) == |set i | 0 <= i < |observed| && observed[i] <= bound|
  {
    var within := set i | 0 <= i < |observed| && observed[i] <= bound;
    if observed == [] {
      assert within == {};
    } else {
      var last, before := |observed| - 1, observed[..|observed| - 1];
      BucketsCountUpToTheBound(before, bound);
      assert within == (set i | 0 <= i < |before| && before[i] <= bound) + if observed[last] <= bound then {last} else {};
    }
  }

  /** One series of a histogram vector, counts updated in place. */
  class Histogram {
    const bounds: seq<real>
    const counts: array<nat>
    var sum: real
    var count: nat
    ghost var observed: seq<real>

    /** Each bucket counts the observations at or below its bound. */
    ghost predicate Valid()
      reads this, counts
    {
      && counts.Length == |bounds|
      && (forall i :: 0 <= i < |bounds| ==> counts[i] == AtMost(observed, bounds[i]))
      && sum == Total(observed)
      && count == |observed|
    }

    constructor (bounds: seq<real>)
      ensures Valid() && fresh(counts) && this.bounds == bounds && observed == []
    {
      this.bounds := bounds;
      counts := new nat[|bounds|](i => 0);
      sum, count, observed := 0.0, 0, [];
    }

    method Observe(value: real)
      requires Valid()
      modifies this, counts
      ensures Valid() && observed == old(observed) + [value]
      ensures forall i :: 0 <= i < |bounds| ==> counts[i] == old(counts[i]) + if value <= bounds[i] then 1 else 0
      ensures sum == old(sum) + value && count == old(count) + 1
    {
      observed := observed + [value];
      assert observed[..|observed| - 1] == old(observed);
      sum := sum + value;
      count := count + 1;
      for i := 0 to |bounds|
        invariant counts.Length == |bounds|
        invariant forall k :: 0 <= k < i ==> counts[k] == AtMost(observed, bounds[k])
        invariant forall k :: 0 <= k < |bounds| ==>
          counts[k] == old(counts[k]) + if k < i && value <= bounds[k] then 1 else 0
        modifies counts
      {
        if value <= bounds[i] {
          counts[i] := counts[i] + 1;
        }
      }
    }
  }
}
