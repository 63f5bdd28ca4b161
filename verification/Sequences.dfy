/** Facts about sequences of anything. */
module Sequences {
  ghost predicate Distinct<T>(s: seq<T>) {
    forall i, j | 0 <= i < j < |s| :: s[i] != s[j]
  }

  /** Taking the first of `a` out of `b` leaves the two rests equal as multisets. */
  lemma TakeOut<T>(a: seq<T>, b: seq<T>) returns (front: seq<T>, back: seq<T>)
    requires a != [] && multiset(a) == multiset(b)
    ensures b == front + [a[0]] + back && multiset(a[1..]) == multiset(front + back)
  {
    assert a[0] in multiset(b);
    var k :| 0 <= k < |b| && b[k] == a[0];
    front, back := b[..k], b[k + 1..];
    assert b == front + [a[0]] + back;
    assert a == [a[0]] + a[1..];
    assert multiset(a[1..]) == multiset(a) - multiset([a[0]]);
    assert multiset(front + back) == multiset(b) - multiset([a[0]]);
  }

  lemma SameElement<T>(a: seq<T>, b: seq<T>, i: nat) returns (k: nat)
    requires multiset(a) == multiset(b) && i < |b|
    ensures k < |a| && a[k] == b[i]
  {
    assert b[i] in multiset(a);
    k :| 0 <= k < |a| && a[k] == b[i];
  }

  /** No two places hold the same element exactly if no element occurs more than once. */
  lemma {:induction false} DistinctIffOnce<T>(s: seq<T>)
    ensures Distinct(s) <==> forall x :: multiset(s)[x] <= 1
  {
    if s == [] {
    } else {
      var n := |s| - 1;
      DistinctIffOnce(s[..n]);
      assert s == s[..n] + [s[n]];
      assert s[n] in multiset(s[..n]) <==> s[n] in s[..n];
      if Distinct(s) {
        assert Distinct(s[..n]);
      }
      if forall x :: multiset(s)[x] <= 1 {
        forall x ensures multiset(s[..n])[x] <= 1 { assert multiset(s)[x] <= 1; }
        assert multiset(s)[s[n]] <= 1;
        forall i, j | 0 <= i < j < |s| ensures s[i] != s[j] {
          if j == n { assert s[..n][i] == s[i]; }
        }
      }
    }
  }

  lemma AppendedLast<T>(a: seq<T>, b: seq<T>, x: T)
    ensures a + (b + [x]) == (a + b) + [x]
  {}
}
