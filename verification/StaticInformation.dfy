/** `StaticInformation`: the state and the methods of the path enumerator.  Queries to ns-3's
    type registry are answered by values that do not change while paths are gathered.
  */
module StaticInformationModel {
  import opened Sequences
  import opened TypeGraph
  import opened Wrappers

  /** "/a/b/c" for [a, b, c]. */
  function Join(labels: seq<string>): string {
    if labels == [] then "" else Join(labels[..|labels| - 1]) + "/" + labels[|labels| - 1]
  }

  lemma WalkIsFan(g: Graph, t: TypeId, stem: string, seen: set<TypeId>)
    requires Closed(g) && t in g.registered && t !in seen
    ensures WalkEntries(g, t, stem, seen) == [Entry(t, stem)] + FanEntries(g, t, stem, Slots(g, t), seen + {t})
  {}

  lemma AddedTogether<T>(s: seq<T>, x: T, t: seq<T>)
    ensures (s + [x]) + t == s + ([x] + t)
  {}

  class StaticInformation {
    const types: Graph  // the registry; its own `aggregates` are not used
    const lookup: map<string, TypeId>
    var output: seq<Entry>
    var currentPath: seq<string>
    var alreadyProcessed: seq<TypeId>
    var aggregates: seq<(TypeId, TypeId)>
    var noTids: seq<string>

    /** The graph that is walked: the registry with the aggregations recorded so far. */
    function G(): Graph
      reads this`aggregates
    {
      types.(aggregates := aggregates)
    }

    /** The stacks move together, and no type is on the stack twice. */
    ghost predicate Stacks()
      reads this`currentPath, this`alreadyProcessed
    {
      Distinct(alreadyProcessed) && |currentPath| == |alreadyProcessed|
    }

    ghost predicate Valid()
      reads this
    {
      Consistent(G()) && (forall s | s in lookup :: lookup[s] in types.registered) && Stacks()
    }

    constructor (types: Graph, lookup: map<string, TypeId>)
      requires Consistent(types.(aggregates := [])) && forall s | s in lookup :: lookup[s] in types.registered
      ensures Valid() && this.types == types && this.lookup == lookup
      ensures output == [] && currentPath == [] && alreadyProcessed == [] && aggregates == [] && noTids == []
    {
      this.types, this.lookup := types, lookup;
      output, currentPath, alreadyProcessed, aggregates, noTids := [], [], [], [], [];
    }

    /** A name the registry does not know is noted, and no relation is recorded. */
    method RecordAggregationInfo(a: string, b: string)
      requires Valid()
      modifies this`aggregates, this`noTids
      ensures Valid()
      ensures a in lookup && b in lookup ==>
                aggregates == old(aggregates) + [(lookup[a], lookup[b])] && noTids == old(noTids)
      ensures a !in lookup ==> aggregates == old(aggregates) && noTids == old(noTids) + [a]
      ensures a in lookup && b !in lookup ==> aggregates == old(aggregates) && noTids == old(noTids) + [b]
    {
      if a !in lookup {
        noTids := noTids + [a];
        return;
      }
      if b !in lookup {
        noTids := noTids + [b];
        return;
      }
      aggregates := aggregates + [(lookup[a], lookup[b])];
    }

    method GetCurrentPath() returns (path: string)
      ensures path == Join(currentPath)
    {
      path := "";
      for i := 0 to |currentPath|
        invariant path == Join(currentPath[..i])
      {
        assert currentPath[..i + 1][..i] == currentPath[..i];
        path := path + "/" + currentPath[i];
      }
      assert currentPath[..|currentPath|] == currentPath;
    }

    method RecordOutput(tid: TypeId)
      modifies this`output
      ensures output == old(output) + [Entry(tid, Join(currentPath))]
    {
      var path := GetCurrentPath();
      output := output + [Entry(tid, path)];
    }

    method HasAlreadyBeenProcessed(tid: TypeId) returns (found: bool)
      ensures found <==> tid in alreadyProcessed
    {
      for i := 0 to |alreadyProcessed|
        invariant tid !in alreadyProcessed[..i]
      {
        if alreadyProcessed[i] == tid {
          return true;
        }
      }
      return false;
    }

    method Get(tid: TypeId) returns (paths: seq<string>)
      ensures paths == Select(output, tid)
    {
      paths := [];
      for i := 0 to |output|
        invariant paths == Select(output[..i], tid)
      {
        assert output[..i + 1][..i] == output[..i];
        if output[i].tid == tid {
          paths := paths + [output[i].path];
        }
      }
      assert output[..|output|] == output;
    }

    /** Appends one entry per simple path from `tid` that avoids the types on the stack, and
        leaves both stacks as they were. */
    method DoGather(tid: TypeId)
      requires Closed(G()) && Stacks() && tid in types.registered
      modifies this`output, this`currentPath, this`alreadyProcessed
      ensures currentPath == old(currentPath) && alreadyProcessed == old(alreadyProcessed)
      ensures output == old(output) + WalkEntries(G(), tid, Join(currentPath), ToSet(alreadyProcessed))
      decreases ToSet(types.registered) - ToSet(alreadyProcessed), 2
    {
      var processed := HasAlreadyBeenProcessed(tid);
      if processed {
        return;
      }
      ghost var base := output + [Entry(tid, Join(currentPath))];
      GatherBelow(tid, base);
      WalkIsFan(G(), tid, Join(currentPath), ToSet(alreadyProcessed));
      AddedTogether(old(output), Entry(tid, Join(currentPath)),
                    FanEntries(G(), tid, Join(currentPath), Slots(G(), tid), ToSet(alreadyProcessed) + {tid}));
    }

    /** The rest of `DoGather`, for a type that is not being processed: its own entry, then the three loops. */
    method GatherBelow(tid: TypeId, ghost base: seq<Entry>)
      requires Closed(G()) && Stacks() && tid in types.registered && tid !in alreadyProcessed
      requires base == output + [Entry(tid, Join(currentPath))]
      modifies this`output, this`currentPath, this`alreadyProcessed
      ensures currentPath == old(currentPath) && alreadyProcessed == old(alreadyProcessed)
      ensures Reached(Slots(G(), tid), tid, base)
      decreases ToSet(types.registered) - ToSet(alreadyProcessed), 1, 1
    {
      RecordOutput(tid);
      GatherAttributes(tid, base);
      GatherChildren(tid, base);
      GatherAggregates(tid, base);
    }

    /** The first loop of `DoGather`. */
    method GatherAttributes(tid: TypeId, ghost base: seq<Entry>)
      requires Closed(G()) && Stacks() && tid !in alreadyProcessed
      requires Reached(0, tid, base)
      modifies this`output, this`currentPath, this`alreadyProcessed
      ensures currentPath == old(currentPath) && alreadyProcessed == old(alreadyProcessed)
      ensures Reached(|types.Attributes(tid)|, tid, base)
      decreases ToSet(types.registered) - ToSet(alreadyProcessed), 1, 0
    {
      var attrs := types.Attributes(tid);
      for i := 0 to |attrs|
        invariant currentPath == old(currentPath) && alreadyProcessed == old(alreadyProcessed)
        invariant Reached(i, tid, base)
      {
        match attrs[i]
        case Pointer(name, pointee) =>
          if pointee != types.objectType {
            Descend(tid, name, pointee, i, base);
          }
        case Container(name, item) =>
          Descend(tid, name + "/[i]", item, i, base);
        case Plain(_) =>
      }
    }

    /** The second loop: the registered types that are children of `tid`. */
    method GatherChildren(tid: TypeId, ghost base: seq<Entry>)
      requires Closed(G()) && Stacks() && tid !in alreadyProcessed
      requires Reached(|types.Attributes(tid)|, tid, base)
      modifies this`output, this`currentPath, this`alreadyProcessed
      ensures currentPath == old(currentPath) && alreadyProcessed == old(alreadyProcessed)
      ensures Reached(|types.Attributes(tid)| + |types.registered|, tid, base)
      decreases ToSet(types.registered) - ToSet(alreadyProcessed), 1, 0
    {
      for j := 0 to |types.registered|
        invariant currentPath == old(currentPath) && alreadyProcessed == old(alreadyProcessed)
        invariant Reached(|types.Attributes(tid)| + j, tid, base)
      {
        var child := types.registered[j];
        if (child, tid) in types.childOf {
          Descend(tid, "$" + types.Name(child), child, |types.Attributes(tid)| + j, base);
        }
      }
    }

    /** The third loop: the aggregations `tid` takes part in. */
    method GatherAggregates(tid: TypeId, ghost base: seq<Entry>)
      requires Closed(G()) && Stacks() && tid !in alreadyProcessed
      requires Reached(|types.Attributes(tid)| + |types.registered|, tid, base)
      modifies this`output, this`currentPath, this`alreadyProcessed
      ensures currentPath == old(currentPath) && alreadyProcessed == old(alreadyProcessed)
      ensures Reached(Slots(G(), tid), tid, base)
      decreases ToSet(types.registered) - ToSet(alreadyProcessed), 1, 0
    {
      for k := 0 to |aggregates|
        invariant currentPath == old(currentPath) && alreadyProcessed == old(alreadyProcessed)
        invariant Reached(|types.Attributes(tid)| + |types.registered| + k, tid, base)
      {
        var item := aggregates[k];
        ghost var n := |types.Attributes(tid)| + |types.registered| + k;
        assert Slot(G(), tid, n) == AggregateEdge(G(), tid, item);
        if item.0 == tid || item.1 == tid {
          var other := item.1;
          if item.1 == tid {
            other := item.0;
          }
          Descend(tid, "$" + types.Name(other), other, n, base);
        }
      }
    }

    /** The entries after `base` are those of the first `n` slots of `tid`, with `tid` being processed. */
    ghost predicate Reached(n: nat, tid: TypeId, base: seq<Entry>)
      requires Closed(G())
      reads this`aggregates, this`output, this`currentPath, this`alreadyProcessed
    {
      && tid in types.registered
      && output == base + FanEntries(G(), tid, Join(currentPath), n, ToSet(alreadyProcessed) + {tid})
    }

    /** Push the edge, gather from its target, pop: what each of the three loops does for an edge. */
    method Descend(tid: TypeId, name: string, next: TypeId, ghost n: nat, ghost base: seq<Entry>)
      requires Closed(G()) && Stacks() && tid !in alreadyProcessed
      requires Slot(G(), tid, n) == Some(Edge(name, next))
      requires Reached(n, tid, base)
      modifies this`output, this`currentPath, this`alreadyProcessed
      ensures currentPath == old(currentPath) && alreadyProcessed == old(alreadyProcessed)
      ensures Reached(n + 1, tid, base)
      decreases ToSet(types.registered) - ToSet(alreadyProcessed), 0
    {
      currentPath := currentPath + [name];
      alreadyProcessed := alreadyProcessed + [tid];
      assert Join(currentPath) == Join(old(currentPath)) + "/" + name;
      assert ToSet(alreadyProcessed) == ToSet(old(alreadyProcessed)) + {tid};
      assert tid in ToSet(types.registered) - ToSet(old(alreadyProcessed));
      DoGather(next);
      alreadyProcessed := alreadyProcessed[..|alreadyProcessed| - 1];
      currentPath := currentPath[..|currentPath| - 1];
      assert alreadyProcessed == old(alreadyProcessed) && currentPath == old(currentPath);
    }

    /** `Uniquefy` is handed a copy, so it leaves `output` as `DoGather` left it. */
    method Gather(tid: TypeId)
      requires Closed(G()) && Stacks() && alreadyProcessed == [] && tid in types.registered
      modifies this`output, this`currentPath, this`alreadyProcessed
      ensures currentPath == [] && alreadyProcessed == []
      ensures output == old(output) + WalkEntries(G(), tid, "", {})
    {
      assert currentPath == [] && ToSet(alreadyProcessed) == {};
      DoGather(tid);
      assert ToSet(alreadyProcessed) == {};
    }

    /** The root loop: gather from every root namespace object. */
    method GatherRoots(roots: seq<TypeId>)
      requires Valid() && alreadyProcessed == [] && output == [] && AllRegistered(types, roots)
      modifies this`output, this`currentPath, this`alreadyProcessed
      ensures Valid() && alreadyProcessed == []
      ensures Closed(G()) && AllRegistered(G(), roots) && output == Gathered(G(), roots, |roots|)
    {
      ConsistentIsClosed(G());
      for i := 0 to |roots|
        invariant Stacks() && alreadyProcessed == []
        invariant output == Gathered(G(), roots, i)
      {
        Gather(roots[i]);
      }
    }
  }
}
