/** When the gathered configuration paths repeat an entry: nothing in print-introspected-doxygen.cc removes duplicates,
    so this is a question about the type graph.
  */
module Repetitions {
  import opened Sequences
  import opened TypeGraph
  import opened Wrappers

  /** At each type, a label that with a slash after it begins another one belongs to the same edge. */
  ghost predicate Unambiguous(g: Graph) {
    forall t, i: nat, j: nat | t in g.registered && Slot(g, t, i).Some? && Slot(g, t, j).Some? ::
      Begins(Slot(g, t, i).value.name, Slot(g, t, j).value.name) ==> Slot(g, t, i) == Slot(g, t, j)
  }

  predicate Begins(a: string, b: string) {
    a + "/" <= b + "/"
  }

  /** `r` is simple, and two slots of the type at its end hold the same edge, to a type that `r` has not met. */
  ghost predicate Fork(g: Graph, t: TypeId, seen: set<TypeId>, r: Path, i: nat, j: nat) {
    && Simple(g, t, seen, r) && i < j
    && Slot(g, End(g, t, r), i).Some? && Slot(g, End(g, t, r), i) == Slot(g, End(g, t, r), j)
    && IsNew(g, t, seen, r, Slot(g, End(g, t, r), i).value.target)
  }

  ghost predicate IsNew(g: Graph, t: TypeId, seen: set<TypeId>, r: Path, x: TypeId) {
    x !in Stops(g, t, r) && x !in seen
  }

  // ----- Paths one slot longer -----

  /** A simple path goes on over an edge exactly if that leads to a new type. */
  lemma {:induction false} SimpleSnoc(g: Graph, t: TypeId, seen: set<TypeId>, r: Path, k: nat)
    requires Simple(g, t, seen, r) && Slot(g, End(g, t, r), k).Some?
    ensures var e := Slot(g, End(g, t, r), k).value;
      && (Simple(g, t, seen, r + [k]) <==> IsNew(g, t, seen, r, e.target))
      && End(g, t, r + [k]) == e.target
    decreases |r|
  {
    StartUnseen(g, t, seen, r);
    if r == [] {
      assert r + [k] == [k] && [k][1..] == [];
      SimpleStep(g, t, seen, [k]);
      EmptyPath(g, Slot(g, t, k).value.target, seen + {t});
    } else {
      var u := Slot(g, t, r[0]).value.target;
      assert (r + [k])[1..] == r[1..] + [k];
      SimpleStep(g, t, seen, r);
      SimpleSnoc(g, u, seen + {t}, r[1..], k);
      SimpleStep(g, t, seen, r + [k]);
    }
  }

  lemma {:induction false} TextSnoc(g: Graph, t: TypeId, r: Path, k: nat)
    requires Follows(g, t, r) && Slot(g, End(g, t, r), k).Some?
    ensures Text(g, t, r + [k]) == Text(g, t, r) + ("/" + Slot(g, End(g, t, r), k).value.name)
    decreases |r|
  {
    if r == [] {
      assert r + [k] == [k] && [k][1..] == [];
      assert Text(g, Slot(g, t, k).value.target, []) == "";
    } else {
      var e, last := Slot(g, t, r[0]).value, "/" + Slot(g, End(g, t, r), k).value.name;
      assert (r + [k])[1..] == r[1..] + [k];
      TextSnoc(g, e.target, r[1..], k);
      Associate("/" + e.name, Text(g, e.target, r[1..]), last);
    }
  }

  lemma Associate(a: string, b: string, c: string)
    ensures (a + b) + c == a + (b + c)
  {}

  lemma EmptyPath(g: Graph, t: TypeId, seen: set<TypeId>)
    ensures Simple(g, t, seen, []) <==> t !in seen
  {
    assert Stops(g, t, []) == [t];
  }

  lemma StartUnseen(g: Graph, t: TypeId, seen: set<TypeId>, p: Path)
    requires Simple(g, t, seen, p)
    ensures t !in seen
  {
    assert Stops(g, t, p)[0] == t;
  }

  // ----- Two paths with the same text -----

  /** A text goes on after a label with a slash, or not at all. */
  ghost predicate IsRest(s: string) {
    s == "" || s[0] == '/'
  }

  lemma TextIsRest(g: Graph, t: TypeId, p: Path)
    ensures IsRest(Text(g, t, p))
    ensures Follows(g, t, p) ==> (Text(g, t, p) == "" <==> p == [])
  {}

  /** If two labels, each with a rest, give the same text, the shorter one begins the other. */
  lemma LabelsBegin(a: string, x: string, b: string, y: string)
    requires a + x == b + y && IsRest(x) && IsRest(y) && |a| <= |b|
    ensures Begins(a, b)
    ensures a == b ==> x == y
  {
    assert forall i | 0 <= i < |a| :: a[i] == (a + x)[i] == (b + y)[i] == b[i];
    if |a| == |b| {
      assert a == b;
      assert x == (a + x)[|a|..] && y == (b + y)[|b|..];
    } else {
      assert x[0] == (a + x)[|a|] == b[|a|];
    }
  }

  lemma FirstLabels(a: string, x: string, b: string, y: string)
    requires "/" + a + x == "/" + b + y && IsRest(x) && IsRest(y)
    ensures Begins(a, b) || Begins(b, a)
    ensures a == b ==> x == y
  {
    Associate("/", a, x);
    Associate("/", b, y);
    assert ("/" + (a + x))[1..] == a + x && ("/" + (b + y))[1..] == b + y;
    if |a| <= |b| {
      LabelsBegin(a, x, b, y);
    } else {
      LabelsBegin(b, y, a, x);
    }
  }

  /** With unambiguous labels, two paths of the same text start with the same edge. */
  lemma SameFirstEdge(g: Graph, t: TypeId, p: Path, q: Path)
    requires Unambiguous(g) && t in g.registered
    requires p != [] && q != [] && Follows(g, t, p) && Follows(g, t, q) && Text(g, t, p) == Text(g, t, q)
    ensures Slot(g, t, p[0]) == Slot(g, t, q[0])
    ensures var u := Slot(g, t, p[0]).value.target; Text(g, u, p[1..]) == Text(g, u, q[1..])
  {
    var e, f := Slot(g, t, p[0]).value, Slot(g, t, q[0]).value;
    TextIsRest(g, e.target, p[1..]);
    TextIsRest(g, f.target, q[1..]);
    FirstLabels(e.name, Text(g, e.target, p[1..]), f.name, Text(g, f.target, q[1..]));
  }

  /** With unambiguous labels, two different simple paths of the same text part at a fork. */
  lemma {:induction false} Diverge(g: Graph, t: TypeId, seen: set<TypeId>, p: Path, q: Path) returns (r: Path, i: nat, j: nat)
    requires Closed(g) && Unambiguous(g) && t in g.registered
    requires Simple(g, t, seen, p) && Simple(g, t, seen, q) && p != q && Text(g, t, p) == Text(g, t, q)
    ensures Fork(g, t, seen, r, i, j)
    decreases |p|
  {
    StartUnseen(g, t, seen, p);
    TextIsRest(g, t, p);
    TextIsRest(g, t, q);
    SameFirstEdge(g, t, p, q);
    SimpleStep(g, t, seen, p);
    SimpleStep(g, t, seen, q);
    var u := Slot(g, t, p[0]).value.target;
    if p[0] == q[0] {
      assert p == [p[0]] + p[1..] && q == [q[0]] + q[1..];
      r, i, j := Diverge(g, u, seen + {t}, p[1..], q[1..]);
      ForkBelow(g, t, seen, p[0], r, i, j);
      r := [p[0]] + r;
    } else {
      StartUnseen(g, u, seen + {t}, p[1..]);
      EmptyPath(g, t, seen);
      r, i, j := [], if p[0] < q[0] then p[0] else q[0], if p[0] < q[0] then q[0] else p[0];
    }
  }

  lemma ForkBelow(g: Graph, t: TypeId, seen: set<TypeId>, k: nat, r: Path, i: nat, j: nat)
    requires t !in seen && Slot(g, t, k).Some?
    requires Fork(g, Slot(g, t, k).value.target, seen + {t}, r, i, j)
    ensures Fork(g, t, seen, [k] + r, i, j)
  {
    assert ([k] + r)[1..] == r;
    SimpleStep(g, t, seen, [k] + r);
  }

  // ----- Repeated entries -----

  ghost predicate SameEntry(g: Graph, root: TypeId, p: Path, q: Path) {
    && p != q && Simple(g, root, {}, p) && Simple(g, root, {}, q)
    && EntryOf(g, root, "", p) == EntryOf(g, root, "", q)
  }

  lemma WalkEntryAt(g: Graph, root: TypeId, k: nat)
    requires Closed(g) && root in g.registered
    ensures |WalkEntries(g, root, "", {})| == |Walks(g, root, {})|
    ensures k < |Walks(g, root, {})| ==>
      && WalkEntries(g, root, "", {})[k] == EntryOf(g, root, "", Walks(g, root, {})[k])
      && Simple(g, root, {}, Walks(g, root, {})[k])
  {
    WalkEntriesAreThoseOfWalks(g, root, "", {});
    EntryAt(g, root, "", Walks(g, root, {}), k);
    if k < |Walks(g, root, {})| {
      WalksExact(g, root, {}, Walks(g, root, {})[k]);
    }
  }

  lemma WalkIndex(g: Graph, root: TypeId, p: Path) returns (k: nat)
    requires Closed(g) && root in g.registered && Simple(g, root, {}, p)
    ensures k < |Walks(g, root, {})| == |WalkEntries(g, root, "", {})| && Walks(g, root, {})[k] == p
    ensures WalkEntries(g, root, "", {})[k] == EntryOf(g, root, "", p)
  {
    WalksExact(g, root, {}, p);
    k :| 0 <= k < |Walks(g, root, {})| && Walks(g, root, {})[k] == p;
    WalkEntryAt(g, root, k);
  }

  /** The output from `root` repeats an entry if two different simple paths give the same one. */
  lemma SameEntryRepeats(g: Graph, root: TypeId, p: Path, q: Path)
    requires Closed(g) && root in g.registered && SameEntry(g, root, p, q)
    ensures !Distinct(WalkEntries(g, root, "", {}))
  {
    var a := WalkIndex(g, root, p);
    var b := WalkIndex(g, root, q);
    assert WalkEntries(g, root, "", {})[a] == WalkEntries(g, root, "", {})[b];
  }

  /** And only then. */
  lemma RepeatIsSameEntry(g: Graph, root: TypeId) returns (p: Path, q: Path)
    requires Closed(g) && root in g.registered && !Distinct(WalkEntries(g, root, "", {}))
    ensures SameEntry(g, root, p, q)
  {
    var es := WalkEntries(g, root, "", {});
    var a, b :| 0 <= a < b < |es| && es[a] == es[b];
    WalkEntryAt(g, root, a);
    WalkEntryAt(g, root, b);
    WalksOrdered(g, root, {});
    p, q := Walks(g, root, {})[a], Walks(g, root, {})[b];
  }

  /** Nothing removes duplicates: two equal edges to a new type, anywhere along a simple path, repeat an entry. */
  lemma ParallelEdgesRepeat(g: Graph, root: TypeId, r: Path, i: nat, j: nat)
    requires Closed(g) && root in g.registered && Fork(g, root, {}, r, i, j)
    ensures !Distinct(WalkEntries(g, root, "", {}))
  {
    SimpleSnoc(g, root, {}, r, i);
    SimpleSnoc(g, root, {}, r, j);
    TextSnoc(g, root, r, i);
    TextSnoc(g, root, r, j);
    assert (r + [i])[|r|] != (r + [j])[|r|];
    SameEntryRepeats(g, root, r + [i], r + [j]);
  }

  /** With unambiguous labels, these are the only repetitions. */
  lemma DistinctIffNoFork(g: Graph, root: TypeId)
    requires Closed(g) && root in g.registered && Unambiguous(g)
    ensures Distinct(WalkEntries(g, root, "", {})) <==> !exists r, i, j :: Fork(g, root, {}, r, i, j)
  {
    if r, i, j :| Fork(g, root, {}, r, i, j) {
      ParallelEdgesRepeat(g, root, r, i, j);
    }
    if !Distinct(WalkEntries(g, root, "", {})) {
      var p, q := RepeatIsSameEntry(g, root);
      WithoutStem(Text(g, root, p), Text(g, root, q));
      var r, i, j := Diverge(g, root, {}, p, q);
    }
  }

  lemma WithoutStem(a: string, b: string)
    requires "" + a == "" + b
    ensures a == b
  {
    assert "" + a == a && "" + b == b;
  }

  /** Without that, labels can repeat an entry with no two equal edges: a container "n" with items of type `x`, beside a
      pointer "n" to a type with a pointer "[i]" to `x`. */
  lemma AmbiguousLabelsRepeat(g: Graph, root: TypeId, y: TypeId, x: TypeId, name: string, i: nat, j: nat, k: nat)
    requires Closed(g) && root in g.registered && root != y && root != x && x != y
    requires Slot(g, root, i) == Some(Edge(name + "/[i]", x))
    requires Slot(g, root, j) == Some(Edge(name, y)) && Slot(g, y, k) == Some(Edge("[i]", x))
    ensures !Distinct(WalkEntries(g, root, "", {}))
  {
    OneEdge(g, root, i);
    OneEdge(g, root, j);
    SimpleSnoc(g, root, {}, [j], k);
    TextSnoc(g, root, [j], k);
    SameLabels(name);
    assert [i] != [j] + [k];
    SameEntryRepeats(g, root, [i], [j] + [k]);
  }

  lemma OneEdge(g: Graph, root: TypeId, i: nat)
    requires Slot(g, root, i).Some? && Slot(g, root, i).value.target != root
    ensures var e := Slot(g, root, i).value;
      && Simple(g, root, {}, [i]) && Stops(g, root, [i]) == [root, e.target]
      && End(g, root, [i]) == e.target && Text(g, root, [i]) == "/" + e.name
  {
    assert [i][1..] == [];
    EmptyPath(g, Slot(g, root, i).value.target, {root});
    SimpleStep(g, root, {}, [i]);
    assert {} + {root} == {root};
    assert Text(g, Slot(g, root, i).value.target, []) == "";
  }

  lemma SameLabels(name: string)
    ensures "/" + (name + "/[i]") == ("/" + name) + ("/" + "[i]")
  {}

  // ----- Several roots -----

  /** What one root repeats is repeated in the output of all. */
  lemma {:induction false} RootRepeats(g: Graph, roots: seq<TypeId>, n: nat, k: nat)
    requires Closed(g) && AllRegistered(g, roots) && k < n <= |roots|
    requires !Distinct(WalkEntries(g, roots[k], "", {}))
    ensures !Distinct(Gathered(g, roots, n))
  {
    var a, b := Gathered(g, roots, n - 1), WalkEntries(g, roots[n - 1], "", {});
    if k == n - 1 {
    } else {
      RootRepeats(g, roots, n - 1, k);
    }
    RepeatsInConcat(a, b);
  }

  lemma RepeatsInConcat<T>(a: seq<T>, b: seq<T>)
    ensures Distinct(a + b) ==> Distinct(a) && Distinct(b)
  {
    if Distinct(a + b) {
      forall i, j | 0 <= i < j < |a| ensures a[i] != a[j] { assert (a + b)[i] != (a + b)[j]; }
      forall i, j | 0 <= i < j < |b| ensures b[i] != b[j] { assert (a + b)[|a| + i] != (a + b)[|a| + j]; }
    }
  }

  /** An aggregation recorded twice is an edge twice, out of both of its types. */
  lemma AggregateTwice(g: Graph, t: TypeId, a: nat, b: nat)
    requires a < b < |g.aggregates| && g.aggregates[a] == g.aggregates[b] && AggregateEdge(g, t, g.aggregates[a]).Some?
    ensures var n := |g.Attributes(t)| + |g.registered|;
      Slot(g, t, n + a) == Slot(g, t, n + b) == AggregateEdge(g, t, g.aggregates[a])
  {}
}
