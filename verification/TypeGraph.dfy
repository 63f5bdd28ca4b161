/** The configuration-path enumerator of print-introspected-doxygen.cc.

    Scanning a type means looking in turn at its attributes, at all registered types (for
    children) and at all aggregations.  Each of these positions is a slot, and a slot may hold
    an edge to another type.  A path is named by the slots it takes, so parallel edges with
    equal labels give different paths.
  */
module TypeGraph {
  import opened Sequences
  import opened Wrappers

  type TypeId = nat
  type Path = seq<nat>

  datatype Edge = Edge(name: string, target: TypeId)

  datatype Attribute =
    | Pointer(name: string, pointee: TypeId)
    | Container(name: string, item: TypeId)
    | Plain(name: string)

  /** What the registry answers (`childOf` holds the pairs (child, ancestor)), and the recorded aggregations. */
  datatype Graph = Graph(
    registered: seq<TypeId>,
    attributes: map<TypeId, seq<Attribute>>,
    childOf: set<(TypeId, TypeId)>,
    names: map<TypeId, string>,
    objectType: TypeId,
    aggregates: seq<(TypeId, TypeId)>)
  {
    function Attributes(t: TypeId): seq<Attribute> {
      if t in attributes then attributes[t] else []
    }

    function Name(t: TypeId): string {
      if t in names then names[t] else ""
    }
  }

  function AttributeEdge(g: Graph, a: Attribute): Option<Edge> {
    match a
    case Pointer(name, pointee) => if pointee == g.objectType then None else Some(Edge(name, pointee))
    case Container(name, item) => Some(Edge(name + "/[i]", item))
    case Plain(_) => None
  }

  function ChildEdge(g: Graph, t: TypeId, child: TypeId): Option<Edge> {
    if (child, t) in g.childOf then Some(Edge("$" + g.Name(child), child)) else None
  }

  function AggregateEdge(g: Graph, t: TypeId, pair: (TypeId, TypeId)): Option<Edge> {
    if pair.1 == t then Some(Edge("$" + g.Name(pair.0), pair.0))
    else if pair.0 == t then Some(Edge("$" + g.Name(pair.1), pair.1))
    else None
  }

  function Slots(g: Graph, t: TypeId): nat {
    |g.Attributes(t)| + |g.registered| + |g.aggregates|
  }

  function Slot(g: Graph, t: TypeId, k: nat): Option<Edge> {
    var attrs := g.Attributes(t);
    if k < |attrs| then AttributeEdge(g, attrs[k])
    else if k < |attrs| + |g.registered| then ChildEdge(g, t, g.registered[k - |attrs|])
    else if k < Slots(g, t) then AggregateEdge(g, t, g.aggregates[k - |attrs| - |g.registered|])
    else None
  }

  /** Edges lead to registered types. */
  ghost predicate Closed(g: Graph) {
    forall t, k: nat | t in g.registered && Slot(g, t, k).Some? :: Slot(g, t, k).value.target in g.registered
  }

  /** The registry hands out registered types only. */
  ghost predicate Consistent(g: Graph) {
    && (forall t, i | t in g.attributes && 0 <= i < |g.attributes[t]| ::
          match g.attributes[t][i]
          case Pointer(_, p) => p in g.registered
          case Container(_, c) => c in g.registered
          case Plain(_) => true)
    && (forall i | 0 <= i < |g.aggregates| ::
          g.aggregates[i].0 in g.registered && g.aggregates[i].1 in g.registered)
  }

  lemma ConsistentIsClosed(g: Graph)
    requires Consistent(g)
    ensures Closed(g)
  {
    forall t, k: nat | t in g.registered && Slot(g, t, k).Some? ensures Slot(g, t, k).value.target in g.registered {
      var attrs := g.Attributes(t);
      if k < |attrs| {
        assert g.attributes[t][k] == attrs[k];
      }
    }
  }

  function ToSet<T>(s: seq<T>): set<T> {
    set x | x in s
  }

  // ----- The reference notion: simple paths -----

  /** `p` can be followed from `t`: every slot it takes holds an edge. */
  ghost predicate Follows(g: Graph, t: TypeId, p: Path)
    decreases p
  {
    p == [] || (Slot(g, t, p[0]).Some? && Follows(g, Slot(g, t, p[0]).value.target, p[1..]))
  }

  /** The types met along `p`, from `t` to the end (or to the first slot without an edge). */
  ghost function Stops(g: Graph, t: TypeId, p: Path): seq<TypeId>
    decreases p
  {
    if p == [] || Slot(g, t, p[0]).None? then [t] else [t] + Stops(g, Slot(g, t, p[0]).value.target, p[1..])
  }

  /** The labels along `p`, each after a slash. */
  ghost function Text(g: Graph, t: TypeId, p: Path): string
    decreases p
  {
    if p == [] || Slot(g, t, p[0]).None? then ""
    else "/" + Slot(g, t, p[0]).value.name + Text(g, Slot(g, t, p[0]).value.target, p[1..])
  }

  ghost function End(g: Graph, t: TypeId, p: Path): TypeId
    decreases p
  {
    if p == [] || Slot(g, t, p[0]).None? then t else End(g, Slot(g, t, p[0]).value.target, p[1..])
  }

  /** A path that meets no type twice and no type of `seen`. */
  ghost predicate Simple(g: Graph, t: TypeId, seen: set<TypeId>, p: Path) {
    && Follows(g, t, p)
    && Distinct(Stops(g, t, p))
    && forall x | x in Stops(g, t, p) :: x !in seen
  }

  lemma SimpleStep(g: Graph, t: TypeId, seen: set<TypeId>, p: Path)
    requires p != [] && Slot(g, t, p[0]).Some? && t !in seen
    ensures Simple(g, t, seen, p) <==> Simple(g, Slot(g, t, p[0]).value.target, seen + {t}, p[1..])
  {
    var u := Slot(g, t, p[0]).value.target;
    var rest, all := Stops(g, u, p[1..]), Stops(g, t, p);
    assert all == [t] + rest;
    assert forall i | 0 <= i < |rest| :: rest[i] == all[i + 1];
    if Simple(g, t, seen, p) {
      forall x | x in rest ensures x !in seen + {t} {
        var i :| 0 <= i < |rest| && rest[i] == x;
        assert all[0] != all[i + 1];
        assert x in all;
      }
      forall i, j | 0 <= i < j < |rest| ensures rest[i] != rest[j] {
        assert all[i + 1] != all[j + 1];
      }
    }
    if Simple(g, u, seen + {t}, p[1..]) {
      forall i, j | 0 <= i < j < |all| ensures all[i] != all[j] {
        assert all[j] == rest[j - 1] && rest[j - 1] in rest;
      }
      forall x | x in all ensures x !in seen {
        assert x == t || x in rest;
      }
    }
  }

  // ----- The enumeration -----

  function Prepend(i: nat, ps: seq<Path>): seq<Path> {
    if ps == [] then [] else Prepend(i, ps[..|ps| - 1]) + [[i] + ps[|ps| - 1]]
  }

  /** The paths a depth-first search from `t` that refuses the types of `seen` records. */
  function Walks(g: Graph, t: TypeId, seen: set<TypeId>): seq<Path>
    requires Closed(g) && t in g.registered
    decreases ToSet(g.registered) - seen, 1, 0
  {
    if t in seen then []
    else
      Smaller(g, t, seen);
      [[]] + Fan(g, t, Slots(g, t), seen + {t})
  }

  /** The paths recorded through the first `n` slots of `t`. */
  function Fan(g: Graph, t: TypeId, n: nat, below: set<TypeId>): seq<Path>
    requires Closed(g) && t in g.registered
    decreases ToSet(g.registered) - below, 2, n
  {
    if n == 0 then []
    else
      match Slot(g, t, n - 1)
      case None => Fan(g, t, n - 1, below)
      case Some(e) => Fan(g, t, n - 1, below) + Prepend(n - 1, Walks(g, e.target, below))
  }

  lemma Smaller(g: Graph, t: TypeId, seen: set<TypeId>)
    requires t in g.registered && t !in seen
    ensures ToSet(g.registered) - (seen + {t}) < ToSet(g.registered) - seen
  {
    assert t in ToSet(g.registered) - seen;
  }

  lemma {:induction false} PrependAt(i: nat, ps: seq<Path>)
    ensures |Prepend(i, ps)| == |ps| && forall k | 0 <= k < |ps| :: Prepend(i, ps)[k] == [i] + ps[k]
  {
    if ps == [] {
    } else {
      PrependAt(i, ps[..|ps| - 1]);
    }
  }

  lemma PrependMember(i: nat, ps: seq<Path>, p: Path)
    ensures p in Prepend(i, ps) <==> p != [] && p[0] == i && p[1..] in ps
  {
    PrependAt(i, ps);
    if p in Prepend(i, ps) {
      var k :| 0 <= k < |ps| && Prepend(i, ps)[k] == p;
      assert p[1..] == ps[k];
    }
    if p != [] && p[0] == i && p[1..] in ps {
      var k :| 0 <= k < |ps| && ps[k] == p[1..];
      assert p == [i] + p[1..] == Prepend(i, ps)[k];
    }
  }

  /** Sound and complete: the search records exactly the simple paths. */
  lemma {:induction false} WalksExact(g: Graph, t: TypeId, seen: set<TypeId>, p: Path)
    requires Closed(g) && t in g.registered
    ensures p in Walks(g, t, seen) <==> Simple(g, t, seen, p)
    decreases ToSet(g.registered) - seen, 1, 0
  {
    if t in seen {
      assert Stops(g, t, p)[0] == t;
    } else {
      Smaller(g, t, seen);
      FanExact(g, t, Slots(g, t), seen + {t}, p);
      if p != [] && Slot(g, t, p[0]).Some? { SimpleStep(g, t, seen, p); }
    }
  }

  lemma {:induction false} FanExact(g: Graph, t: TypeId, n: nat, below: set<TypeId>, p: Path)
    requires Closed(g) && t in g.registered
    ensures p in Fan(g, t, n, below) <==>
            p != [] && p[0] < n && Slot(g, t, p[0]).Some? && Simple(g, Slot(g, t, p[0]).value.target, below, p[1..])
    decreases ToSet(g.registered) - below, 2, n
  {
    if n == 0 {
    } else {
      FanExact(g, t, n - 1, below, p);
      match Slot(g, t, n - 1)
      case None =>
      case Some(e) =>
        PrependMember(n - 1, Walks(g, e.target, below), p);
        if p != [] { WalksExact(g, e.target, below, p[1..]); }
    }
  }

  /** Depth-first preorder: a path comes before its extensions, and siblings by slot. */
  ghost predicate Before(p: Path, q: Path) {
    q != [] && (p == [] || p[0] < q[0] || (p[0] == q[0] && Before(p[1..], q[1..])))
  }

  ghost predicate Ordered(ps: seq<Path>) {
    forall i, j | 0 <= i < j < |ps| :: Before(ps[i], ps[j])
  }

  lemma BeforeIrreflexive(p: Path)
    ensures !Before(p, p)
  {}

  /** Each simple path is recorded once, and in depth-first preorder. */
  lemma {:induction false} WalksOrdered(g: Graph, t: TypeId, seen: set<TypeId>)
    requires Closed(g) && t in g.registered
    ensures Ordered(Walks(g, t, seen))
    ensures Distinct(Walks(g, t, seen))
    decreases ToSet(g.registered) - seen, 1, 0
  {
    var ws := Walks(g, t, seen);
    if t in seen {
    } else {
      Smaller(g, t, seen);
      var fan := Fan(g, t, Slots(g, t), seen + {t});
      FanOrdered(g, t, Slots(g, t), seen + {t});
      forall i | 0 <= i < |fan| ensures fan[i] != [] { FanExact(g, t, Slots(g, t), seen + {t}, fan[i]); }
      assert ws == [[]] + fan;
    }
    forall i, j | 0 <= i < j < |ws| ensures ws[i] != ws[j] { BeforeIrreflexive(ws[i]); }
  }

  lemma {:induction false} FanOrdered(g: Graph, t: TypeId, n: nat, below: set<TypeId>)
    requires Closed(g) && t in g.registered
    ensures Ordered(Fan(g, t, n, below))
    decreases ToSet(g.registered) - below, 2, n
  {
    if n == 0 {
    } else {
      FanOrdered(g, t, n - 1, below);
      match Slot(g, t, n - 1)
      case None =>
      case Some(e) =>
        WalksOrdered(g, e.target, below);
        var a, ws := Fan(g, t, n - 1, below), Walks(g, e.target, below);
        forall i | 0 <= i < |a| ensures a[i] != [] && a[i][0] < n - 1 { FanExact(g, t, n - 1, below, a[i]); }
        OrderedConcat(n - 1, a, ws);
    }
  }

  lemma OrderedConcat(n: nat, a: seq<Path>, ws: seq<Path>)
    requires Ordered(a) && Ordered(ws) && forall i | 0 <= i < |a| :: a[i] != [] && a[i][0] < n
    ensures Ordered(a + Prepend(n, ws))
  {
    var b := Prepend(n, ws);
    PrependAt(n, ws);
    forall i, j | 0 <= i < j < |b| ensures Before(b[i], b[j]) {
      assert b[i][1..] == ws[i] && b[j][1..] == ws[j];
    }
  }

  // ----- What is recorded for a path -----

  datatype Entry = Entry(tid: TypeId, path: string)

  ghost function EntryOf(g: Graph, t: TypeId, stem: string, p: Path): Entry {
    Entry(End(g, t, p), stem + Text(g, t, p))
  }

  ghost function Entries(g: Graph, t: TypeId, stem: string, ps: seq<Path>): seq<Entry> {
    if ps == [] then [] else Entries(g, t, stem, ps[..|ps| - 1]) + [EntryOf(g, t, stem, ps[|ps| - 1])]
  }

  /** Recording from the target of slot `n` is recording the paths that start with `n`. */
  lemma {:induction false} EntriesPrepend(g: Graph, t: TypeId, stem: string, n: nat, ps: seq<Path>)
    requires Slot(g, t, n).Some?
    ensures var e := Slot(g, t, n).value;
      Entries(g, e.target, stem + "/" + e.name, ps) == Entries(g, t, stem, Prepend(n, ps))
  {
    if ps == [] {
    } else {
      var e, p, qs := Slot(g, t, n).value, ps[|ps| - 1], Prepend(n, ps);
      EntriesPrepend(g, t, stem, n, ps[..|ps| - 1]);
      PrependAt(n, ps);
      assert qs[..|qs| - 1] == Prepend(n, ps[..|ps| - 1]);
      assert ([n] + p)[1..] == p;
      assert stem + ("/" + e.name + Text(g, e.target, p)) == (stem + "/" + e.name) + Text(g, e.target, p);
    }
  }

  lemma {:induction false} EntriesConcat(g: Graph, t: TypeId, stem: string, ps: seq<Path>, qs: seq<Path>)
    ensures Entries(g, t, stem, ps + qs) == Entries(g, t, stem, ps) + Entries(g, t, stem, qs)
  {
    if qs == [] {
      assert ps + qs == ps;
    } else {
      var n := |qs| - 1;
      EntriesConcat(g, t, stem, ps, qs[..n]);
      assert (ps + qs)[..|ps + qs| - 1] == ps + qs[..n];
    }
  }

  lemma EntriesRoot(g: Graph, t: TypeId, stem: string, fan: seq<Path>)
    ensures Entries(g, t, stem, [[]] + fan) == [Entry(t, stem)] + Entries(g, t, stem, fan)
  {
    var root: seq<Path> := [[]];
    assert root[..0] == [] && stem + Text(g, t, []) == stem;
    EntriesConcat(g, t, stem, root, fan);
  }

  lemma EntriesGrow(g: Graph, t: TypeId, stem: string, n: nat, fan: seq<Path>, ws: seq<Path>)
    requires Slot(g, t, n).Some?
    ensures var e := Slot(g, t, n).value;
      Entries(g, t, stem, fan + Prepend(n, ws))
      == Entries(g, t, stem, fan) + Entries(g, e.target, stem + "/" + e.name, ws)
  {
    EntriesPrepend(g, t, stem, n, ws);
    EntriesConcat(g, t, stem, fan, Prepend(n, ws));
  }

  /** One entry per path, in the order of the paths. */
  lemma {:induction false} EntryAt(g: Graph, t: TypeId, stem: string, ps: seq<Path>, k: nat)
    ensures |Entries(g, t, stem, ps)| == |ps|
    ensures k < |ps| ==> Entries(g, t, stem, ps)[k] == EntryOf(g, t, stem, ps[k])
    decreases |ps|
  {
    if ps == [] {
    } else {
      EntryAt(g, t, stem, ps[..|ps| - 1], k);
    }
  }

  /** What the search appends to its output from `t`, with `stem` the text of the labels on the stack. */
  function WalkEntries(g: Graph, t: TypeId, stem: string, seen: set<TypeId>): seq<Entry>
    requires Closed(g) && t in g.registered
    decreases ToSet(g.registered) - seen, 1, 0
  {
    if t in seen then []
    else
      Smaller(g, t, seen);
      [Entry(t, stem)] + FanEntries(g, t, stem, Slots(g, t), seen + {t})
  }

  /** What it appends through the first `n` slots of `t`. */
  function FanEntries(g: Graph, t: TypeId, stem: string, n: nat, below: set<TypeId>): seq<Entry>
    requires Closed(g) && t in g.registered
    decreases ToSet(g.registered) - below, 2, n
  {
    if n == 0 then []
    else
      match Slot(g, t, n - 1)
      case None => FanEntries(g, t, stem, n - 1, below)
      case Some(e) => FanEntries(g, t, stem, n - 1, below) + WalkEntries(g, e.target, stem + "/" + e.name, below)
  }

  /** The output is one entry per path of the enumeration, in its order. */
  lemma {:induction false} WalkEntriesAreThoseOfWalks(g: Graph, t: TypeId, stem: string, seen: set<TypeId>)
    requires Closed(g) && t in g.registered
    ensures WalkEntries(g, t, stem, seen) == Entries(g, t, stem, Walks(g, t, seen))
    decreases ToSet(g.registered) - seen, 1, 0
  {
    if t in seen {
    } else {
      Smaller(g, t, seen);
      FanEntriesAreThoseOfFan(g, t, stem, Slots(g, t), seen + {t});
      EntriesRoot(g, t, stem, Fan(g, t, Slots(g, t), seen + {t}));
    }
  }

  lemma {:induction false} FanEntriesAreThoseOfFan(g: Graph, t: TypeId, stem: string, n: nat, below: set<TypeId>)
    requires Closed(g) && t in g.registered
    ensures FanEntries(g, t, stem, n, below) == Entries(g, t, stem, Fan(g, t, n, below))
    decreases ToSet(g.registered) - below, 2, n
  {
    if n == 0 {
    } else {
      FanEntriesAreThoseOfFan(g, t, stem, n - 1, below);
      match Slot(g, t, n - 1)
      case None =>
      case Some(e) =>
        WalkEntriesAreThoseOfWalks(g, e.target, stem + "/" + e.name, below);
        EntriesGrow(g, t, stem, n - 1, Fan(g, t, n - 1, below), Walks(g, e.target, below));
    }
  }

  // ----- Several roots -----

  datatype RootPath = RootPath(root: nat, path: Path)

  ghost predicate AllRegistered(g: Graph, roots: seq<TypeId>) {
    forall i | 0 <= i < |roots| :: roots[i] in g.registered
  }

  function Rooted(r: nat, ps: seq<Path>): seq<RootPath> {
    if ps == [] then [] else Rooted(r, ps[..|ps| - 1]) + [RootPath(r, ps[|ps| - 1])]
  }

  /** The paths recorded through the first `n` roots. */
  function RootWalks(g: Graph, roots: seq<TypeId>, n: nat): seq<RootPath>
    requires Closed(g) && AllRegistered(g, roots) && n <= |roots|
  {
    if n == 0 then [] else RootWalks(g, roots, n - 1) + Rooted(n - 1, Walks(g, roots[n - 1], {}))
  }

  lemma {:induction false} RootedAt(r: nat, ps: seq<Path>)
    ensures |Rooted(r, ps)| == |ps| && forall k | 0 <= k < |ps| :: Rooted(r, ps)[k] == RootPath(r, ps[k])
  {
    if ps == [] {
    } else {
      RootedAt(r, ps[..|ps| - 1]);
    }
  }

  ghost predicate RootBefore(p: RootPath, q: RootPath) {
    p.root < q.root || (p.root == q.root && Before(p.path, q.path))
  }

  ghost predicate RootOrdered(rps: seq<RootPath>) {
    forall i, j | 0 <= i < j < |rps| :: RootBefore(rps[i], rps[j])
  }

  /** Over all roots: exactly the simple paths of each root. */
  lemma {:induction false} RootWalksExact(g: Graph, roots: seq<TypeId>, n: nat, rp: RootPath)
    requires Closed(g) && AllRegistered(g, roots) && n <= |roots|
    ensures rp in RootWalks(g, roots, n) <==> rp.root < n && Simple(g, roots[rp.root], {}, rp.path)
  {
    if n == 0 {
    } else {
      var ws := Walks(g, roots[n - 1], {});
      RootWalksExact(g, roots, n - 1, rp);
      WalksExact(g, roots[n - 1], {}, rp.path);
      RootedAt(n - 1, ws);
      if rp.root == n - 1 && rp.path in ws {
        var k :| 0 <= k < |ws| && ws[k] == rp.path;
        assert Rooted(n - 1, ws)[k] == rp;
      }
    }
  }

  /** Root by root, and each root's paths in preorder. */
  lemma {:induction false} RootWalksOrdered(g: Graph, roots: seq<TypeId>, n: nat)
    requires Closed(g) && AllRegistered(g, roots) && n <= |roots|
    ensures RootOrdered(RootWalks(g, roots, n))
  {
    if n == 0 {
    } else {
      var a, ws := RootWalks(g, roots, n - 1), Walks(g, roots[n - 1], {});
      RootWalksOrdered(g, roots, n - 1);
      WalksOrdered(g, roots[n - 1], {});
      RootedAt(n - 1, ws);
      forall i | 0 <= i < |a| ensures a[i].root < n - 1 { RootWalksExact(g, roots, n - 1, a[i]); }
    }
  }

  ghost function RootEntries(g: Graph, roots: seq<TypeId>, rps: seq<RootPath>): seq<Entry> {
    if rps == [] then [] else RootEntries(g, roots, rps[..|rps| - 1]) + [RootEntry(g, roots, rps[|rps| - 1])]
  }

  ghost function RootEntry(g: Graph, roots: seq<TypeId>, rp: RootPath): Entry {
    if rp.root < |roots| then EntryOf(g, roots[rp.root], "", rp.path) else Entry(0, "")
  }

  /** What is in the output after the first `n` roots. */
  function Gathered(g: Graph, roots: seq<TypeId>, n: nat): seq<Entry>
    requires Closed(g) && AllRegistered(g, roots) && n <= |roots|
  {
    if n == 0 then [] else Gathered(g, roots, n - 1) + WalkEntries(g, roots[n - 1], "", {})
  }

  lemma {:induction false} GatheredAreThoseOfRootWalks(g: Graph, roots: seq<TypeId>, n: nat)
    requires Closed(g) && AllRegistered(g, roots) && n <= |roots|
    ensures Gathered(g, roots, n) == RootEntries(g, roots, RootWalks(g, roots, n))
  {
    if n == 0 {
    } else {
      GatheredAreThoseOfRootWalks(g, roots, n - 1);
      WalkEntriesAreThoseOfWalks(g, roots[n - 1], "", {});
      RootEntriesConcat(g, roots, n - 1, RootWalks(g, roots, n - 1), Walks(g, roots[n - 1], {}));
    }
  }

  lemma RootEntriesSnoc(g: Graph, roots: seq<TypeId>, rps: seq<RootPath>, rp: RootPath)
    ensures RootEntries(g, roots, rps + [rp]) == RootEntries(g, roots, rps) + [RootEntry(g, roots, rp)]
  {
    assert (rps + [rp])[..|rps|] == rps;
  }

  lemma {:induction false} RootEntriesConcat(g: Graph, roots: seq<TypeId>, n: nat, rps: seq<RootPath>, ws: seq<Path>)
    requires n < |roots|
    ensures RootEntries(g, roots, rps + Rooted(n, ws)) == RootEntries(g, roots, rps) + Entries(g, roots[n], "", ws)
  {
    if ws == [] {
      assert rps + Rooted(n, ws) == rps;
    } else {
      var before, last := ws[..|ws| - 1], RootPath(n, ws[|ws| - 1]);
      RootEntriesConcat(g, roots, n, rps, before);
      AppendedLast(rps, Rooted(n, before), last);
      RootEntriesSnoc(g, roots, rps + Rooted(n, before), last);
      AppendedLast(RootEntries(g, roots, rps), Entries(g, roots[n], "", before), RootEntry(g, roots, last));
    }
  }

  lemma {:induction false} RootEntryAt(g: Graph, roots: seq<TypeId>, rps: seq<RootPath>, k: nat)
    ensures |RootEntries(g, roots, rps)| == |rps|
    ensures k < |rps| ==> RootEntries(g, roots, rps)[k] == RootEntry(g, roots, rps[k])
    decreases |rps|
  {
    if rps == [] {
    } else {
      RootEntryAt(g, roots, rps[..|rps| - 1], k);
    }
  }

  /** The strings recorded for one type. */
  function Select(es: seq<Entry>, tid: TypeId): seq<string> {
    if es == [] then []
    else Select(es[..|es| - 1], tid) + (if es[|es| - 1].tid == tid then [es[|es| - 1].path] else [])
  }

  lemma {:induction false} SelectMember(es: seq<Entry>, tid: TypeId, s: string)
    ensures s in Select(es, tid) <==> Entry(tid, s) in es
  {
    if es == [] {
    } else {
      SelectMember(es[..|es| - 1], tid, s);
      assert es == es[..|es| - 1] + [es[|es| - 1]];
    }
  }

  /** Entry `e` comes from a simple path of one of the roots. */
  ghost predicate FromSimplePath(g: Graph, roots: seq<TypeId>, e: Entry) {
    exists rp: RootPath :: rp.root < |roots| && Simple(g, roots[rp.root], {}, rp.path) && RootEntry(g, roots, rp) == e
  }

  lemma GatheredFromSimplePaths(g: Graph, roots: seq<TypeId>, e: Entry)
    requires Closed(g) && AllRegistered(g, roots)
    requires e in Gathered(g, roots, |roots|)
    ensures FromSimplePath(g, roots, e)
  {
    var rps := RootWalks(g, roots, |roots|);
    GatheredAreThoseOfRootWalks(g, roots, |roots|);
    RootEntryAt(g, roots, rps, 0);
    var k :| 0 <= k < |rps| && RootEntries(g, roots, rps)[k] == e;
    RootEntryAt(g, roots, rps, k);
    RootWalksExact(g, roots, |roots|, rps[k]);
  }

  lemma SimplePathGathered(g: Graph, roots: seq<TypeId>, rp: RootPath)
    requires Closed(g) && AllRegistered(g, roots)
    requires rp.root < |roots| && Simple(g, roots[rp.root], {}, rp.path)
    ensures RootEntry(g, roots, rp) in Gathered(g, roots, |roots|)
  {
    var rps := RootWalks(g, roots, |roots|);
    GatheredAreThoseOfRootWalks(g, roots, |roots|);
    RootWalksExact(g, roots, |roots|, rp);
    var k :| 0 <= k < |rps| && rps[k] == rp;
    RootEntryAt(g, roots, rps, k);
  }

  /** After all roots, the paths reported for `tid` are exactly those of the simple paths that end there. */
  lemma GatheredSlotPathsExact(g: Graph, roots: seq<TypeId>, tid: TypeId, s: string)
    requires Closed(g) && AllRegistered(g, roots)
    ensures s in Select(Gathered(g, roots, |roots|), tid) <==> FromSimplePath(g, roots, Entry(tid, s))
  {
    SelectMember(Gathered(g, roots, |roots|), tid, s);
    if Entry(tid, s) in Gathered(g, roots, |roots|) {
      GatheredFromSimplePaths(g, roots, Entry(tid, s));
    }
    if FromSimplePath(g, roots, Entry(tid, s)) {
      var rp: RootPath :| rp.root < |roots| && Simple(g, roots[rp.root], {}, rp.path) && RootEntry(g, roots, rp) == Entry(tid, s);
      SimplePathGathered(g, roots, rp);
    }
  }
}
