/** The configuration paths in terms of the registry alone: which attributes, children and aggregations are edges, and the
    reported strings as the labels of chains of such edges.
  */
module RegistryPaths {
  import opened Sequences
  import opened TypeGraph
  import opened Wrappers

  /** Following attribute, child or aggregation `k` of `t`, counted in this order, adds `name` to the path and leads to `u`. */
  ghost predicate HoldsEdge(g: Graph, t: TypeId, k: nat, name: string, u: TypeId) {
    var attributes := if t in g.attributes then |g.attributes[t]| else 0;
    if k < attributes then
      || (g.attributes[t][k] == Pointer(name, u) && u != g.objectType)
      || (g.attributes[t][k].Container? && g.attributes[t][k].item == u && name == g.attributes[t][k].name + "/[i]")
    else if k < attributes + |g.registered| then
      g.registered[k - attributes] == u && (u, t) in g.childOf && name == "$" + NameOf(g, u)
    else if k < attributes + |g.registered| + |g.aggregates| then
      var pair := g.aggregates[k - attributes - |g.registered|];
      (pair == (t, u) || pair == (u, t)) && name == "$" + NameOf(g, u)
    else false
  }

  ghost function NameOf(g: Graph, t: TypeId): string {
    if t in g.names then g.names[t] else ""
  }

  /** The slots of the search are these edges, no more and no fewer. */
  lemma SlotExact(g: Graph, t: TypeId, k: nat, name: string, u: TypeId)
    ensures Slot(g, t, k) == Some(Edge(name, u)) <==> HoldsEdge(g, t, k, name, u)
  {
    var attrs := g.Attributes(t);
    assert |attrs| == if t in g.attributes then |g.attributes[t]| else 0;
    if k < |attrs| {
      assert attrs[k] == g.attributes[t][k];
    } else if k < |attrs| + |g.registered| {
    } else if k < Slots(g, t) {
      var pair := g.aggregates[k - |attrs| - |g.registered|];
      assert pair == (pair.0, pair.1);
    }
  }

  /** `t` has an edge `name` to `u`: a pointer attribute to a type other than Object, a container attribute, a registered
      child, or a recorded aggregation. */
  ghost predicate Link(g: Graph, t: TypeId, name: string, u: TypeId) {
    || (t in g.attributes && Pointer(name, u) in g.attributes[t] && u != g.objectType)
    || (t in g.attributes && exists m :: Container(m, u) in g.attributes[t] && name == m + "/[i]")
    || (u in g.registered && (u, t) in g.childOf && name == "$" + NameOf(g, u))
    || (((t, u) in g.aggregates || (u, t) in g.aggregates) && name == "$" + NameOf(g, u))
  }

  lemma LinkOfSlot(g: Graph, t: TypeId, k: nat, name: string, u: TypeId)
    requires Slot(g, t, k) == Some(Edge(name, u))
    ensures Link(g, t, name, u)
  {
    SlotExact(g, t, k, name, u);
    var attributes := if t in g.attributes then |g.attributes[t]| else 0;
    if k < attributes {
      if g.attributes[t][k].Container? {
        assert Container(g.attributes[t][k].name, u) in g.attributes[t];
      }
    }
  }

  lemma SlotOfLink(g: Graph, t: TypeId, name: string, u: TypeId) returns (k: nat)
    requires Link(g, t, name, u)
    ensures Slot(g, t, k) == Some(Edge(name, u))
  {
    var attributes := if t in g.attributes then |g.attributes[t]| else 0;
    if t in g.attributes && Pointer(name, u) in g.attributes[t] && u != g.objectType {
      k :| 0 <= k < attributes && g.attributes[t][k] == Pointer(name, u);
    } else if m :| t in g.attributes && Container(m, u) in g.attributes[t] && name == m + "/[i]" {
      k :| 0 <= k < attributes && g.attributes[t][k] == Container(m, u);
    } else if u in g.registered && (u, t) in g.childOf && name == "$" + NameOf(g, u) {
      var i :| 0 <= i < |g.registered| && g.registered[i] == u;
      k := attributes + i;
    } else {
      var pair := if (t, u) in g.aggregates then (t, u) else (u, t);
      var i :| 0 <= i < |g.aggregates| && g.aggregates[i] == pair;
      k := attributes + |g.registered| + i;
    }
    SlotExact(g, t, k, name, u);
  }

  // ----- Chains of edges -----

  /** From `t` along edges with these labels, through these types. */
  ghost predicate Trail(g: Graph, t: TypeId, labels: seq<string>, types: seq<TypeId>) {
    && |types| == |labels| + 1 && types[0] == t
    && forall i | 0 <= i < |labels| :: Link(g, types[i], labels[i], types[i + 1])
  }

  /** "/a/b/c" for the labels a, b and c. */
  ghost function Slashed(labels: seq<string>): string {
    if labels == [] then "" else "/" + labels[0] + Slashed(labels[1..])
  }

  lemma {:induction false} TrailOfPath(g: Graph, t: TypeId, p: Path) returns (labels: seq<string>)
    requires Follows(g, t, p)
    ensures Trail(g, t, labels, Stops(g, t, p))
    ensures Stops(g, t, p)[|labels|] == End(g, t, p) && Slashed(labels) == Text(g, t, p)
    decreases |p|
  {
    if p == [] {
      labels := [];
    } else {
      var e := Slot(g, t, p[0]).value;
      var rest := TrailOfPath(g, e.target, p[1..]);
      labels := [e.name] + rest;
      LinkOfSlot(g, t, p[0], e.name, e.target);
      TrailCons(g, t, e.name, rest, Stops(g, e.target, p[1..]));
    }
  }

  lemma TrailCons(g: Graph, t: TypeId, name: string, labels: seq<string>, types: seq<TypeId>)
    requires types != [] && Trail(g, types[0], labels, types) && Link(g, t, name, types[0])
    ensures Trail(g, t, [name] + labels, [t] + types)
    ensures Slashed([name] + labels) == "/" + name + Slashed(labels)
  {
    var longer, through := [name] + labels, [t] + types;
    assert longer[1..] == labels;
    forall i | 0 <= i < |longer| ensures Link(g, through[i], longer[i], through[i + 1]) {
      if i > 0 { assert Link(g, types[i - 1], labels[i - 1], types[i - 1 + 1]); }
    }
  }

  lemma {:induction false} PathOfTrail(g: Graph, t: TypeId, labels: seq<string>, types: seq<TypeId>) returns (p: Path)
    requires Trail(g, t, labels, types)
    ensures Follows(g, t, p) && Stops(g, t, p) == types
    ensures End(g, t, p) == types[|labels|] && Text(g, t, p) == Slashed(labels)
    decreases |labels|
  {
    if labels == [] {
      p := [];
    } else {
      assert Link(g, types[0], labels[0], types[0 + 1]);
      TrailTail(g, t, labels, types);
      var rest := PathOfTrail(g, types[1], labels[1..], types[1..]);
      var k := SlotOfLink(g, t, labels[0], types[1]);
      p := [k] + rest;
      assert p[1..] == rest && types == [t] + types[1..];
    }
  }

  lemma TrailTail(g: Graph, t: TypeId, labels: seq<string>, types: seq<TypeId>)
    requires Trail(g, t, labels, types) && labels != []
    ensures Trail(g, types[1], labels[1..], types[1..])
  {
    forall i | 0 <= i < |labels[1..]| ensures Link(g, types[1..][i], labels[1..][i], types[1..][i + 1]) {
      assert Link(g, types[i + 1], labels[i + 1], types[i + 1 + 1]);
    }
  }

  // ----- What is reported -----

  /** The strings come in the order of the output, each as often as it is there. */
  lemma {:induction false} SelectConcat(a: seq<Entry>, tid: TypeId, b: seq<Entry>)
    ensures Select(a + b, tid) == Select(a, tid) + Select(b, tid)
    decreases |b|
  {
    if b == [] {
      assert a + b == a;
    } else {
      var n := |b| - 1;
      SelectConcat(a, tid, b[..n]);
      assert (a + b)[..|a + b| - 1] == a + b[..n];
    }
  }

  lemma SelectOne(e: Entry, tid: TypeId)
    ensures Select([e], tid) == (if e.tid == tid then [e.path] else [])
  {
    assert [e][..0] == [];
  }

  /** From some root a chain of edges that meets no type twice ends at `tid`, with `s` as its labels. */
  ghost predicate Reachable(g: Graph, roots: seq<TypeId>, tid: TypeId, s: string) {
    exists labels, types ::
      types != [] && types[0] in roots && Trail(g, types[0], labels, types) && Distinct(types)
      && types[|labels|] == tid && s == Slashed(labels)
  }

  lemma ReachableIfSimple(g: Graph, roots: seq<TypeId>, rp: RootPath, tid: TypeId, s: string)
    requires rp.root < |roots| && Simple(g, roots[rp.root], {}, rp.path) && RootEntry(g, roots, rp) == Entry(tid, s)
    ensures Reachable(g, roots, tid, s)
  {
    var t := roots[rp.root];
    var labels := TrailOfPath(g, t, rp.path);
    NoStem(Text(g, t, rp.path));
    assert Stops(g, t, rp.path)[0] in roots;
  }

  lemma SimpleIfReachable(g: Graph, roots: seq<TypeId>, tid: TypeId, s: string)
    requires Reachable(g, roots, tid, s)
    ensures FromSimplePath(g, roots, Entry(tid, s))
  {
    var labels, types :|
      types != [] && types[0] in roots && Trail(g, types[0], labels, types) && Distinct(types)
      && types[|labels|] == tid && s == Slashed(labels);
    var r: nat :| r < |roots| && roots[r] == types[0];
    var p := PathOfTrail(g, types[0], labels, types);
    NoStem(Text(g, types[0], p));
    assert RootEntry(g, roots, RootPath(r, p)) == Entry(tid, s);
  }

  lemma NoStem(text: string)
    ensures "" + text == text
  {}

  /** After all roots, exactly these strings are reported for a type. */
  lemma GatheredPathsExact(g: Graph, roots: seq<TypeId>, tid: TypeId, s: string)
    requires Closed(g) && AllRegistered(g, roots)
    ensures s in Select(Gathered(g, roots, |roots|), tid) <==> Reachable(g, roots, tid, s)
  {
    GatheredSlotPathsExact(g, roots, tid, s);
    if FromSimplePath(g, roots, Entry(tid, s)) {
      var rp: RootPath :| rp.root < |roots| && Simple(g, roots[rp.root], {}, rp.path) && RootEntry(g, roots, rp) == Entry(tid, s);
      ReachableIfSimple(g, roots, rp, tid, s);
    }
    if Reachable(g, roots, tid, s) {
      SimpleIfReachable(g, roots, tid, s);
    }
  }
}
