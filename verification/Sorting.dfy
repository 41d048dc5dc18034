/** Byte order on strings, and sorting.  `SortBy` stands for Go's library sort:
  by `SortedIsUnique`, every correct sort by an order that tells the elements
  apart returns the same sequence. */
module Sorting {
  /** Go's `<` on strings. */
  predicate Less(a: string, b: string) {
    if b == [] then false
    else if a == [] then true
    else if a[0] != b[0] then a[0] < b[0]
    else Less(a[1..], b[1..])
  }

  /** What a sort may be given: a strict weak order. */
  ghost predicate StrictWeakOrder<T(!new)>(less: (T, T) -> bool) {
    && (forall a, b :: less(a, b) ==> !less(b, a))
    && (forall a, b, c :: less(a, c) ==> less(a, b) || less(b, c))
  }

  /** The order tells any two members apart. */
  ghost predicate Separates<T>(less: (T, T) -> bool, xs: seq<T>) {
    forall a, b :: a in xs && b in xs && a != b ==> less(a, b) || less(b, a)
  }

  lemma {:induction false} LessTotal(a: string, b: string)
    ensures a == b <==> !Less(a, b) && !Less(b, a)
    ensures !(Less(a, b) && Less(b, a))
  {
    if a != [] && b != [] && a[0] == b[0] {
      assert a == [a[0]] + a[1..] && b == [b[0]] + b[1..];
      LessTotal(a[1..], b[1..]);
    }
  }

  lemma {:induction false} WhereLess(a: string, b: string) returns (k: nat)
    requires Less(a, b)
    ensures k <= |a| && k < |b| && a[..k] == b[..k] && (k == |a| || a[k] < b[k])
  {
    if a != [] && a[0] == b[0] {
      k := WhereLess(a[1..], b[1..]);
      assert a[..k + 1] == [a[0]] + a[1..][..k] && b[..k + 1] == [b[0]] + b[1..][..k];
      k := k + 1;
    } else {
      k := 0;
    }
  }

  lemma {:induction false} LessFrom(a: string, b: string, k: nat)
    requires k <= |a| && k < |b| && a[..k] == b[..k] && (k == |a| || a[k] < b[k])
    ensures Less(a, b)
  {
    if k > 0 {
      assert a[0] == a[..k][0] && b[0] == b[..k][0];
      assert a[1..][..k - 1] == a[..k][1..] && b[1..][..k - 1] == b[..k][1..];
      LessFrom(a[1..], b[1..], k - 1);
    }
  }

  /** The first difference decides, and a prefix comes before what continues it. */
  lemma LessExactlyWhen(a: string, b: string)
    ensures Less(a, b) <==>
              exists k :: 0 <= k <= |a| && k < |b| && a[..k] == b[..k] && (k == |a| || a[k] < b[k])
  {
    if Less(a, b) {
      var k := WhereLess(a, b);
    }
    forall k | 0 <= k <= |a| && k < |b| && a[..k] == b[..k] && (k == |a| || a[k] < b[k])
      ensures Less(a, b)
    {
      LessFrom(a, b, k);
    }
  }

  lemma {:induction false} LessSplits(a: string, b: string, c: string)
    requires Less(a, c)
    ensures Less(a, b) || Less(b, c)
  {
    if a != [] && b != [] && a[0] == b[0] == c[0] {
      LessSplits(a[1..], b[1..], c[1..]);
    }
  }

  lemma LessIsStrictWeakOrder()
    ensures StrictWeakOrder(Less)
  {
    forall a, b | Less(a, b)
      ensures !Less(b, a)
    {
      LessTotal(a, b);
    }
    forall a, b, c | Less(a, c)
      ensures Less(a, b) || Less(b, c)
    {
      LessSplits(a, b, c);
    }
  }

  predicate Sorted<T>(xs: seq<T>, less: (T, T) -> bool) {
    forall i, j :: 0 <= i < j < |xs| ==> !less(xs[j], xs[i])
  }

  function Insert<T>(x: T, xs: seq<T>, less: (T, T) -> bool): seq<T> {
    if xs == [] || !less(xs[0], x) then [x] + xs
    else [xs[0]] + Insert(x, xs[1..], less)
  }

  function SortBy<T>(xs: seq<T>, less: (T, T) -> bool): seq<T> {
    if xs == [] then [] else Insert(xs[0], SortBy(xs[1..], less), less)
  }

  lemma {:induction false} InsertAdds<T>(x: T, xs: seq<T>, less: (T, T) -> bool)
    ensures multiset(Insert(x, xs, less)) == multiset(xs) + multiset{x}
    ensures |Insert(x, xs, less)| == |xs| + 1
  {
    if xs != [] && less(xs[0], x) {
      InsertAdds(x, xs[1..], less);
      assert xs == [xs[0]] + xs[1..];
    }
  }

  lemma {:induction false} InsertSorts<T(!new)>(x: T, xs: seq<T>, less: (T, T) -> bool)
    requires StrictWeakOrder(less) && Sorted(xs, less)
    ensures Sorted(Insert(x, xs, less), less)
  {
    if xs != [] && less(xs[0], x) {
      var rest := Insert(x, xs[1..], less);
      InsertSorts(x, xs[1..], less);
      InsertAdds(x, xs[1..], less);
      forall j | 0 <= j < |rest|
        ensures !less(rest[j], xs[0])
      {
        assert rest[j] in multiset(rest);
        assert rest[j] == x || rest[j] in xs[1..];
      }
    } else {
      forall j | 0 <= j < |xs|
        ensures !less(xs[j], x)
      {
        assert !less(xs[j], xs[0]);
      }
    }
  }

  lemma {:induction false} SortByPermutes<T>(xs: seq<T>, less: (T, T) -> bool)
    ensures multiset(SortBy(xs, less)) == multiset(xs)
    ensures |SortBy(xs, less)| == |xs|
  {
    if xs != [] {
      SortByPermutes(xs[1..], less);
      InsertAdds(xs[0], SortBy(xs[1..], less), less);
      assert xs == [xs[0]] + xs[1..];
    }
  }

  lemma {:induction false} SortBySorts<T(!new)>(xs: seq<T>, less: (T, T) -> bool)
    requires StrictWeakOrder(less)
    ensures Sorted(SortBy(xs, less), less)
  {
    if xs != [] {
      SortBySorts(xs[1..], less);
      InsertSorts(xs[0], SortBy(xs[1..], less), less);
    }
  }

  lemma SameFirst<T>(a: seq<T>, b: seq<T>, less: (T, T) -> bool)
    requires Sorted(a, less) && Sorted(b, less) && Separates(less, a)
    requires a != [] && b != [] && multiset(a) == multiset(b)
    ensures a[0] == b[0]
  {
    assert b[0] in multiset(a) && a[0] in multiset(b);
    var i, j :| 0 <= i < |a| && a[i] == b[0] && 0 <= j < |b| && b[j] == a[0];
    assert i == 0 || !less(a[i], a[0]);
    assert j == 0 || !less(b[j], b[0]);
  }

  lemma TailSorted<T>(a: seq<T>, less: (T, T) -> bool)
    requires a != [] && Sorted(a, less)
    ensures Sorted(a[1..], less) && (Separates(less, a) ==> Separates(less, a[1..]))
  {
  }

  lemma SameLength<T>(a: seq<T>, b: seq<T>)
    requires multiset(a) == multiset(b)
    ensures |a| == |b|
  {
    assert |multiset(a)| == |a| && |multiset(b)| == |b|;
  }

  lemma SameTail<T>(a: seq<T>, b: seq<T>)
    requires a != [] && b != [] && a[0] == b[0] && multiset(a) == multiset(b)
    ensures multiset(a[1..]) == multiset(b[1..])
  {
    assert a == [a[0]] + a[1..] && b == [b[0]] + b[1..];
    assert multiset(a[1..]) == multiset(a) - multiset{a[0]};
  }

  /** There is one sorted arrangement of a bag of elements the order separates. */
  lemma {:induction false} SortedIsUnique<T>(a: seq<T>, b: seq<T>, less: (T, T) -> bool)
    requires Sorted(a, less) && Sorted(b, less) && Separates(less, a) && multiset(a) == multiset(b)
    ensures a == b
  {
    SameLength(a, b);
    if a != [] {
      SameFirst(a, b, less);
      SameTail(a, b);
      TailSorted(a, less);
      TailSorted(b, less);
      hide Sorted, Separates;
      SortedIsUnique(a[1..], b[1..], less);
      assert a == [a[0]] + a[1..] && b == [b[0]] + b[1..];
    }
  }
}
