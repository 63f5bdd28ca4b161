/** Python's `sorted` and `list.sort`, for any total order, and the order of tuples and strings. */
module Sorting {
  import opened Sequences

  ghost predicate TotalOrder<T(!new)>(leq: (T, T) -> bool) {
    && (forall a, b :: leq(a, b) || leq(b, a))
    && (forall a, b | leq(a, b) && leq(b, a) :: a == b)
    && (forall a, b, c | leq(a, b) && leq(b, c) :: leq(a, c))
  }

  ghost predicate Sorted<T>(s: seq<T>, leq: (T, T) -> bool) {
    forall i, j | 0 <= i < j < |s| :: leq(s[i], s[j])
  }

  function Insert<T>(x: T, s: seq<T>, leq: (T, T) -> bool): seq<T> {
    if s == [] || leq(x, s[0]) then [x] + s else [s[0]] + Insert(x, s[1..], leq)
  }

  function Sort<T>(s: seq<T>, leq: (T, T) -> bool): seq<T> {
    if s == [] then [] else Insert(s[0], Sort(s[1..], leq), leq)
  }

  lemma SortedCons<T>(x: T, s: seq<T>, leq: (T, T) -> bool)
    requires Sorted(s, leq) && forall i | 0 <= i < |s| :: leq(x, s[i])
    ensures Sorted([x] + s, leq)
  {}

  lemma {:induction false} InsertSorts<T(!new)>(x: T, s: seq<T>, leq: (T, T) -> bool)
    requires TotalOrder(leq) && Sorted(s, leq)
    ensures Sorted(Insert(x, s, leq), leq) && multiset(Insert(x, s, leq)) == multiset(s) + multiset{x}
  {
    if s == [] {
    } else if leq(x, s[0]) {
      forall i | 0 <= i < |s| ensures leq(x, s[i]) { assert i > 0 ==> leq(s[0], s[i]); }
      SortedCons(x, s, leq);
    } else {
      assert leq(s[0], x);
      InsertSorts(x, s[1..], leq);
      var r := Insert(x, s[1..], leq);
      assert s == [s[0]] + s[1..];
      forall i | 0 <= i < |r| ensures leq(s[0], r[i]) {
        assert r[i] in multiset(r);
        assert r[i] == x || r[i] in s[1..];
      }
      SortedCons(s[0], r, leq);
    }
  }

  /** The result is in order and has the same elements, each as often. */
  lemma {:induction false} SortSorts<T(!new)>(s: seq<T>, leq: (T, T) -> bool)
    requires TotalOrder(leq)
    ensures Sorted(Sort(s, leq), leq) && multiset(Sort(s, leq)) == multiset(s)
  {
    if s == [] {
    } else {
      SortSorts(s[1..], leq);
      InsertSorts(s[0], Sort(s[1..], leq), leq);
      assert s == [s[0]] + s[1..];
    }
  }

  /** There is only one such list. */
  lemma {:induction false} SortedUnique<T(!new)>(a: seq<T>, b: seq<T>, leq: (T, T) -> bool)
    requires TotalOrder(leq) && Sorted(a, leq) && Sorted(b, leq) && multiset(a) == multiset(b)
    ensures a == b
  {
    if a == [] {
      assert |multiset(b)| == 0;
    } else {
      assert |multiset(a)| == |multiset(b)|;
      FirstIsLeast(a, b, leq);
      FirstIsLeast(b, a, leq);
      TailsAgree(a, b);
      SortedUnique(a[1..], b[1..], leq);
      assert a == [a[0]] + a[1..] && b == [b[0]] + b[1..];
    }
  }

  lemma TailsAgree<T>(a: seq<T>, b: seq<T>)
    requires a != [] && b != [] && a[0] == b[0] && multiset(a) == multiset(b)
    ensures multiset(a[1..]) == multiset(b[1..])
  {
    assert a == [a[0]] + a[1..] && b == [b[0]] + b[1..];
    assert multiset(a[1..]) == multiset(a) - multiset([a[0]]);
    assert multiset(b[1..]) == multiset(b) - multiset([b[0]]);
  }

  lemma FirstIsLeast<T(!new)>(a: seq<T>, b: seq<T>, leq: (T, T) -> bool)
    requires TotalOrder(leq) && Sorted(a, leq) && a != [] && b != [] && multiset(a) == multiset(b)
    ensures leq(a[0], b[0])
  {
    var j := SameElement(a, b, 0);
    assert leq(a[0], a[0]);
  }

  lemma SortOfPermutation<T(!new)>(a: seq<T>, b: seq<T>, leq: (T, T) -> bool)
    requires TotalOrder(leq) && multiset(a) == multiset(b)
    ensures Sort(a, leq) == Sort(b, leq)
  {
    SortSorts(a, leq);
    SortSorts(b, leq);
    SortedUnique(Sort(a, leq), Sort(b, leq), leq);
  }

  /** Sorting a list without repetitions. */
  lemma SortOfDistinct<T(!new)>(s: seq<T>, leq: (T, T) -> bool)
    requires TotalOrder(leq) && Distinct(s)
    ensures Distinct(Sort(s, leq)) && forall x :: x in Sort(s, leq) <==> x in s
  {
    SortSorts(s, leq);
    DistinctIffOnce(s);
    DistinctIffOnce(Sort(s, leq));
    forall x ensures x in Sort(s, leq) <==> x in s {
      assert x in multiset(Sort(s, leq)) <==> x in multiset(s);
    }
  }

  // ----- Tuples and strings -----

  /** Tuples compare by their first difference, and a prefix comes first. */
  predicate Lexicographic<T(==)>(a: seq<T>, b: seq<T>, leq: (T, T) -> bool) {
    a == [] || (b != [] && if a[0] == b[0] then Lexicographic(a[1..], b[1..], leq) else leq(a[0], b[0]))
  }

  lemma {:induction false} LexicographicTotal<T(!new)>(a: seq<T>, b: seq<T>, leq: (T, T) -> bool)
    requires TotalOrder(leq)
    ensures Lexicographic(a, b, leq) || Lexicographic(b, a, leq)
    ensures Lexicographic(a, b, leq) && Lexicographic(b, a, leq) ==> a == b
  {
    if a == [] || b == [] {
    } else if a[0] == b[0] {
      LexicographicTotal(a[1..], b[1..], leq);
      assert a == [a[0]] + a[1..] && b == [b[0]] + b[1..];
    }
  }

  lemma {:induction false} LexicographicTransitive<T(!new)>(a: seq<T>, b: seq<T>, d: seq<T>, leq: (T, T) -> bool)
    requires TotalOrder(leq) && Lexicographic(a, b, leq) && Lexicographic(b, d, leq)
    ensures Lexicographic(a, d, leq)
  {
    if a == [] {
    } else if a[0] == b[0] == d[0] {
      LexicographicTransitive(a[1..], b[1..], d[1..], leq);
    }
  }

  predicate CharLeq(a: char, b: char) {
    a <= b
  }

  predicate StringLeq(a: string, b: string) {
    Lexicographic(a, b, CharLeq)
  }

  lemma StringOrder()
    ensures TotalOrder(StringLeq)
  {
    assert TotalOrder(CharLeq);
    forall a: string, b: string
      ensures StringLeq(a, b) || StringLeq(b, a)
      ensures StringLeq(a, b) && StringLeq(b, a) ==> a == b
    {
      LexicographicTotal(a, b, CharLeq);
    }
    forall a: string, b: string, d: string | StringLeq(a, b) && StringLeq(b, d) ensures StringLeq(a, d) {
      LexicographicTransitive(a, b, d, CharLeq);
    }
  }
}
