/** The load order of the ns-3 libraries, from bindings/python/ns__init__.py: rounds that each load
    every library whose dependencies are all loaded.

    Only the identity of a library name matters here, so names are numbers.
  */
module DependencySort {
  import opened Sequences
  import opened Wrappers

  type Library = nat
  type Dependencies = map<Library, seq<Library>>

  // ----- Dependency chains -----

  /** There is a chain of `k` dependencies from `m`, or a chain that runs into an unknown library. */
  ghost predicate Deep(deps: Dependencies, m: Library, k: nat)
    decreases k
  {
    k == 0 || m !in deps || exists d :: d in deps[m] && Deep(deps, d, k - 1)
  }

  ghost predicate Closed(deps: Dependencies) {
    forall m, d | m in deps && d in deps[m] :: d in deps
  }

  /** Each library of `p` depends on the next. */
  ghost predicate Chain(deps: Dependencies, p: seq<Library>) {
    && p != []
    && forall i | 0 <= i < |p| - 1 :: p[i] in deps && p[i + 1] in deps[p[i]]
  }

  ghost predicate Acyclic(deps: Dependencies) {
    forall p | Chain(deps, p) && |p| > 1 :: p[0] != p[|p| - 1]
  }

  lemma {:induction false} DeepMonotone(deps: Dependencies, m: Library, k: nat, j: nat)
    requires Deep(deps, m, k) && j <= k
    ensures Deep(deps, m, j)
    decreases k
  {
    if j == 0 || m !in deps {
    } else {
      var d :| d in deps[m] && Deep(deps, d, k - 1);
      DeepMonotone(deps, d, k - 1, j - 1);
    }
  }

  /** With all dependencies known, being deep is having a chain of that length. */
  lemma {:induction false} ChainFromDeep(deps: Dependencies, m: Library, k: nat) returns (p: seq<Library>)
    requires Closed(deps) && m in deps && Deep(deps, m, k)
    ensures Chain(deps, p) && |p| == k + 1 && p[0] == m && forall i | 0 <= i < |p| :: p[i] in deps
    decreases k
  {
    if k == 0 {
      p := [m];
    } else {
      var d :| d in deps[m] && Deep(deps, d, k - 1);
      var rest := ChainFromDeep(deps, d, k - 1);
      p := [m] + rest;
    }
  }

  lemma {:induction false} DeepFromChain(deps: Dependencies, p: seq<Library>)
    requires Chain(deps, p)
    ensures Deep(deps, p[0], |p| - 1)
  {
    if |p| <= 1 {
    } else {
      assert Chain(deps, p[1..]) by {
        forall i | 0 <= i < |p[1..]| - 1 ensures p[1..][i] in deps && p[1..][i + 1] in deps[p[1..][i]] {
          assert p[1..][i] == p[i + 1] && p[1..][i + 1] == p[i + 1 + 1];
        }
      }
      DeepFromChain(deps, p[1..]);
      assert p[1] in deps[p[0]] && Deep(deps, p[1], |p| - 2) by { assert p[0 + 1] in deps[p[0]]; }
    }
  }

  lemma {:induction false} DistinctBound(p: seq<Library>, s: set<Library>)
    requires Distinct(p) && forall i | 0 <= i < |p| :: p[i] in s
    ensures |p| <= |s|
  {
    if p == [] {
    } else {
      var n := |p| - 1;
      forall i | 0 <= i < n ensures p[..n][i] in s - {p[n]} {}
      DistinctBound(p[..n], s - {p[n]});
    }
  }

  lemma SubChain(deps: Dependencies, p: seq<Library>, i: nat, j: nat)
    requires Chain(deps, p) && i < j < |p|
    ensures Chain(deps, p[i..j + 1])
  {
    var q := p[i..j + 1];
    forall k | 0 <= k < |q| - 1 ensures q[k] in deps && q[k + 1] in deps[q[k]] {
      assert q[k] == p[i + k] && q[k + 1] == p[i + k + 1];
    }
  }

  /** On a closed acyclic map no chain is longer than there are libraries. */
  lemma AcyclicBounds(deps: Dependencies, m: Library)
    requires Closed(deps) && Acyclic(deps) && m in deps
    ensures !Deep(deps, m, |deps|)
  {
    if Deep(deps, m, |deps|) {
      var p := ChainFromDeep(deps, m, |deps|);
      assert |deps.Keys| == |deps|;
      ChainsAreDistinct(deps, p);
      DistinctBound(p, deps.Keys);
    }
  }

  lemma ChainsAreDistinct(deps: Dependencies, p: seq<Library>)
    requires Acyclic(deps) && Chain(deps, p)
    ensures Distinct(p)
  {
    forall i, j | 0 <= i < j < |p| ensures p[i] != p[j] {
      SubChain(deps, p, i, j);
      assert p[i..j + 1][0] == p[i] && p[i..j + 1][j - i] == p[j];
    }
  }

  /** A library on a cycle has chains of every length. */
  lemma {:induction false} CyclesAreDeep(deps: Dependencies, p: seq<Library>, i: nat, k: nat)
    requires Chain(deps, p) && |p| > 1 && p[0] == p[|p| - 1] && i < |p| - 1
    ensures Deep(deps, p[i], k)
    decreases k
  {
    if k == 0 {
    } else {
      var next := if i + 1 < |p| - 1 then i + 1 else 0;
      CyclesAreDeep(deps, p, next, k - 1);
      assert p[i + 1] in deps[p[i]] && p[next] == p[i + 1];
    }
  }

  ghost predicate AllLoaded(deps: Dependencies, k: nat) {
    forall m | m in deps :: !Deep(deps, m, k)
  }

  /** Some number of rounds loads everything exactly when every dependency is known and none is circular. */
  lemma LoadsIffClosedAcyclic(deps: Dependencies)
    ensures (exists k: nat :: AllLoaded(deps, k)) <==> Closed(deps) && Acyclic(deps)
  {
    if Closed(deps) && Acyclic(deps) {
      forall m | m in deps ensures !Deep(deps, m, |deps|) { AcyclicBounds(deps, m); }
      assert AllLoaded(deps, |deps|);
    }
    if k: nat :| AllLoaded(deps, k) {
      forall m, d | m in deps && d in deps[m] ensures d in deps {
        if k > 0 && d !in deps { assert Deep(deps, d, k - 1); }
      }
      forall p | Chain(deps, p) && |p| > 1 ensures p[0] != p[|p| - 1] {
        assert p[0] in deps;
        if p[0] == p[|p| - 1] { CyclesAreDeep(deps, p, 0, k); }
      }
    }
  }

  // ----- The rounds -----

  predicate CanLoad(deps: Dependencies, m: Library, current: seq<Library>) {
    m in deps && forall d | d in deps[m] :: d in current
  }

  function Loadable(deps: Dependencies, pending: seq<Library>, current: seq<Library>): seq<Library> {
    if pending == [] then []
    else
      Loadable(deps, pending[..|pending| - 1], current)
      + (if CanLoad(deps, pending[|pending| - 1], current) then [pending[|pending| - 1]] else [])
  }

  method ModulesThatCanBeLoaded(deps: Dependencies, pending: seq<Library>, current: seq<Library>)
    returns (modules: seq<Library>)
    requires forall i | 0 <= i < |pending| :: pending[i] in deps
    ensures modules == Loadable(deps, pending, current)
  {
    modules := [];
    for i := 0 to |pending|
      invariant modules == Loadable(deps, pending[..i], current)
    {
      assert pending[..i + 1][..i] == pending[..i];
      var canBeLoaded := true;
      var needs := deps[pending[i]];
      for j := 0 to |needs|
        invariant canBeLoaded
        invariant forall k | 0 <= k < j :: needs[k] in current
      {
        if needs[j] !in current {
          canBeLoaded := false;
          break;
        }
      }
      if canBeLoaded {
        modules := modules + [pending[i]];
      }
    }
    assert pending[..|pending|] == pending;
  }

  lemma {:induction false} LoadableMember(deps: Dependencies, pending: seq<Library>, current: seq<Library>, m: Library)
    ensures m in Loadable(deps, pending, current) <==> m in pending && CanLoad(deps, m, current)
  {
    if pending == [] {
    } else {
      LoadableMember(deps, pending[..|pending| - 1], current, m);
      assert pending == pending[..|pending| - 1] + [pending[|pending| - 1]];
    }
  }

  /** All libraries of the steps, in order. */
  function Flatten(steps: seq<seq<Library>>): seq<Library> {
    if steps == [] then [] else Flatten(steps[..|steps| - 1]) + steps[|steps| - 1]
  }

  /** Every library comes after all the libraries it depends on. */
  ghost predicate InOrder(deps: Dependencies, s: seq<Library>) {
    forall i, d | 0 <= i < |s| && s[i] in deps && d in deps[s[i]] :: d in s[..i]
  }

  /** `keys` lists the libraries of the map, each once. */
  ghost predicate KeysOf(deps: Dependencies, keys: seq<Library>) {
    && (forall m :: m in keys <==> m in deps)
    && (forall m :: multiset(keys)[m] <= 1)
  }

  /** The two lists after `k` rounds. */
  ghost predicate AfterRounds(deps: Dependencies, keys: seq<Library>, k: nat,
                              pending: seq<Library>, current: seq<Library>)
  {
    && multiset(pending) + multiset(current) == multiset(keys)
    && (forall m | m in deps :: m in current <==> !Deep(deps, m, k))
    && InOrder(deps, current)
  }

  /** The steps filled so far: each holds the libraries of its depth, and in order they are `current`. */
  ghost predicate Filled(deps: Dependencies, steps: seq<seq<Library>>, current: seq<Library>) {
    && current == Flatten(steps)
    && forall j | 0 <= j < |steps| :: HoldsStep(deps, steps[j], j)
  }

  ghost predicate HoldsStep(deps: Dependencies, step: seq<Library>, j: nat) {
    forall m :: m in step <==> InStep(deps, m, j)
  }

  /** The longest dependency chain from `m` has length `j`. */
  ghost predicate InStep(deps: Dependencies, m: Library, j: nat) {
    m in deps && Deep(deps, m, j) && !Deep(deps, m, j + 1)
  }

  lemma {:induction false} LoadableIsPart(deps: Dependencies, pending: seq<Library>, current: seq<Library>)
    ensures multiset(Loadable(deps, pending, current)) <= multiset(pending)
  {
    if pending == [] {
    } else {
      LoadableIsPart(deps, pending[..|pending| - 1], current);
      assert pending == pending[..|pending| - 1] + [pending[|pending| - 1]];
    }
  }

  lemma Known(deps: Dependencies, keys: seq<Library>, k: nat, pending: seq<Library>, current: seq<Library>, m: Library)
    requires KeysOf(deps, keys) && AfterRounds(deps, keys, k, pending, current)
    ensures m in pending || m in current <==> m in deps
    ensures !(m in pending && m in current)
  {
    assert m in pending <==> multiset(pending)[m] > 0;
    assert m in current <==> multiset(current)[m] > 0;
    assert m in keys <==> multiset(keys)[m] > 0;
    assert multiset(pending)[m] + multiset(current)[m] == multiset(keys)[m];
  }

  /** What can be loaded after `k` rounds are the libraries of step `k`. */
  lemma LoadableIsStep(deps: Dependencies, keys: seq<Library>, k: nat, pending: seq<Library>, current: seq<Library>)
    requires KeysOf(deps, keys) && AfterRounds(deps, keys, k, pending, current)
    ensures HoldsStep(deps, Loadable(deps, pending, current), k)
  {
    forall m ensures m in Loadable(deps, pending, current) <==> InStep(deps, m, k) {
      LoadableMember(deps, pending, current, m);
      Known(deps, keys, k, pending, current, m);
      if m in deps {
        forall d | d in deps[m] ensures d in current <==> !Deep(deps, d, k) {
          Known(deps, keys, k, pending, current, d);
        }
      }
    }
  }

  lemma RoundAdvances(deps: Dependencies, keys: seq<Library>, k: nat, pending: seq<Library>, current: seq<Library>,
                      modules: seq<Library>, left: seq<Library>)
    requires KeysOf(deps, keys) && AfterRounds(deps, keys, k, pending, current)
    requires modules == Loadable(deps, pending, current)
    requires multiset(left) + multiset(modules) == multiset(pending)
    ensures AfterRounds(deps, keys, k + 1, left, current + modules)
    ensures HoldsStep(deps, modules, k)
  {
    LoadableIsStep(deps, keys, k, pending, current);
    forall m | m in deps ensures m in current + modules <==> !Deep(deps, m, k + 1) {
      assert m in modules <==> InStep(deps, m, k);
      if Deep(deps, m, k + 1) { DeepMonotone(deps, m, k + 1, k); }
    }
    OrderKept(deps, pending, current, modules);
    assert multiset(current + modules) == multiset(current) + multiset(modules);
  }

  lemma OrderKept(deps: Dependencies, pending: seq<Library>, current: seq<Library>, modules: seq<Library>)
    requires InOrder(deps, current) && modules == Loadable(deps, pending, current)
    ensures InOrder(deps, current + modules)
  {
    var s := current + modules;
    forall i, d | 0 <= i < |s| && s[i] in deps && d in deps[s[i]] ensures d in s[..i] {
      if i < |current| {
        assert s[..i] == current[..i];
      } else {
        assert s[i] in modules;
        LoadableMember(deps, pending, current, s[i]);
        assert s[..i] == current + modules[..i - |current|];
      }
    }
  }

  /** Python's `list.remove`: without the first occurrence. */
  function RemoveFirst(s: seq<Library>, m: Library): (r: seq<Library>)
    requires m in s
    ensures multiset(r) + multiset{m} == multiset(s)
  {
    assert s == [s[0]] + s[1..];
    if s[0] == m then s[1..] else [s[0]] + RemoveFirst(s[1..], m)
  }

  // ----- The order within a step -----

  /** `a` is listed before `b`. */
  ghost predicate Ahead(keys: seq<Library>, a: Library, b: Library) {
    exists i, j :: 0 <= i < j < |keys| && keys[i] == a && keys[j] == b
  }

  /** The list keeps the order of the keys. */
  ghost predicate InKeyOrder(keys: seq<Library>, s: seq<Library>) {
    forall i, j | 0 <= i < j < |s| :: Ahead(keys, s[i], s[j])
  }

  ghost predicate StepsInKeyOrder(keys: seq<Library>, steps: seq<seq<Library>>) {
    forall j | 0 <= j < |steps| :: InKeyOrder(keys, steps[j])
  }

  lemma {:induction false} LoadableKeepsOrder(deps: Dependencies, keys: seq<Library>, pending: seq<Library>, current: seq<Library>)
    requires InKeyOrder(keys, pending)
    ensures InKeyOrder(keys, Loadable(deps, pending, current))
  {
    if pending == [] {
    } else {
      var n := |pending| - 1;
      var before := Loadable(deps, pending[..n], current);
      LoadableKeepsOrder(deps, keys, pending[..n], current);
      forall i | 0 <= i < |before| ensures Ahead(keys, before[i], pending[n]) {
        LoadableMember(deps, pending[..n], current, before[i]);
        assert before[i] in before;
        var k :| 0 <= k < |pending[..n]| && pending[..n][k] == before[i];
        assert pending[k] == before[i];
      }
    }
  }

  lemma {:induction false} RemoveKeepsOrder(keys: seq<Library>, s: seq<Library>, m: Library)
    requires m in s && InKeyOrder(keys, s)
    ensures InKeyOrder(keys, RemoveFirst(s, m)) && forall x | x in RemoveFirst(s, m) :: x in s
  {
    if s[0] == m {
    } else {
      var rest := RemoveFirst(s[1..], m);
      RemoveKeepsOrder(keys, s[1..], m);
      forall j | 0 <= j < |rest| ensures Ahead(keys, s[0], rest[j]) {
        assert rest[j] in rest;
        var k :| 0 <= k < |s[1..]| && s[1..][k] == rest[j];
        assert s[k + 1] == rest[j];
      }
    }
  }

  /** The lists that `dependency_order` works on. */
  class Loader {
    const deps: Dependencies
    var pending: seq<Library>
    var current: seq<Library>
    var steps: seq<seq<Library>>

    ghost predicate After(keys: seq<Library>, k: nat)
      reads this
    {
      && KeysOf(deps, keys) && AfterRounds(deps, keys, k, pending, current) && |steps| == k && Filled(deps, steps, current)
      && InKeyOrder(keys, pending) && StepsInKeyOrder(keys, steps)
    }

    constructor (deps: Dependencies, keys: seq<Library>)
      requires KeysOf(deps, keys)
      ensures this.deps == deps && After(keys, 0)
    {
      this.deps, pending, current, steps := deps, keys, [], [];
    }

    /** Move the loadable modules from `pending` to `current`. */
    method Move(modules: seq<Library>, ghost keys: seq<Library>)
      requires multiset(modules) <= multiset(pending) && InKeyOrder(keys, pending)
      modifies this`pending, this`current
      ensures current == old(current) + modules
      ensures multiset(pending) + multiset(modules) == multiset(old(pending)) && InKeyOrder(keys, pending)
    {
      for i := 0 to |modules|
        invariant current == old(current) + modules[..i]
        invariant multiset(pending) + multiset(modules[..i]) == multiset(old(pending)) && InKeyOrder(keys, pending)
      {
        assert modules[..i + 1] == modules[..i] + [modules[i]];
        StillPending(pending, old(pending), modules, i);
        RemoveKeepsOrder(keys, pending, modules[i]);
        pending := RemoveFirst(pending, modules[i]);
        current := current + [modules[i]];
      }
      assert modules[..|modules|] == modules;
    }

    /** One round: load what can be loaded. */
    method LoadStep(ghost keys: seq<Library>, stepNumber: nat)
      requires After(keys, stepNumber)
      modifies this
      ensures After(keys, stepNumber + 1)
    {
      ghost var pending0, current0, steps0 := pending, current, steps;
      forall m | m in pending ensures m in deps { Known(deps, keys, stepNumber, pending, current, m); }
      var modules := ModulesThatCanBeLoaded(deps, pending, current);
      LoadableIsPart(deps, pending, current);
      LoadableKeepsOrder(deps, keys, pending, current);
      Move(modules, keys);
      steps := steps + [modules];
      RoundAdvances(deps, keys, stepNumber, pending0, current0, modules, pending);
      FilledGrows(deps, steps0, current0, modules);
    }

    /** `limit` is how many more calls the interpreter allows; false stands for its RecursionError. */
    method DependencyOrder(ghost keys: seq<Library>, stepNumber: nat, limit: nat) returns (ok: bool)
      requires After(keys, stepNumber)
      modifies this
      ensures After(keys, |steps|) && |steps| >= stepNumber
      ensures ok ==> pending == [] && forall j | stepNumber <= j < |steps| :: steps[j] != []
      ensures ok <==> limit > 0 && AllLoaded(deps, stepNumber + limit - 1)
      decreases limit
    {
      if limit == 0 {
        return false;
      }
      EmptyIffAllLoaded(deps, keys, stepNumber, pending, current);
      if |pending| == 0 {
        AllLoadedMonotone(deps, stepNumber, stepNumber + limit - 1);
        return true;
      }
      LoadStep(keys, stepNumber);
      ok := DependencyOrder(keys, stepNumber + 1, limit - 1);
      if ok {
        ghost var m := SomeLibraryInStep(deps, stepNumber, stepNumber + limit - 1);
        assert HoldsStep(deps, steps[stepNumber], stepNumber);
        assert m in steps[stepNumber];
      }
    }
  }

  lemma FilledGrows(deps: Dependencies, steps: seq<seq<Library>>, current: seq<Library>, modules: seq<Library>)
    requires Filled(deps, steps, current) && HoldsStep(deps, modules, |steps|)
    ensures Filled(deps, steps + [modules], current + modules)
  {
    assert (steps + [modules])[..|steps|] == steps;
  }

  lemma StillPending(pending: seq<Library>, pending0: seq<Library>, modules: seq<Library>, i: nat)
    requires i < |modules| && multiset(modules) <= multiset(pending0)
    requires multiset(pending) + multiset(modules[..i]) == multiset(pending0)
    ensures modules[i] in pending
  {
    var m := modules[i];
    assert modules == modules[..i] + [m] + modules[i + 1..];
    assert multiset(modules)[m] >= multiset(modules[..i])[m] + 1;
    assert multiset(pending)[m] >= 1;
  }

  lemma EmptyIffAllLoaded(deps: Dependencies, keys: seq<Library>, k: nat, pending: seq<Library>, current: seq<Library>)
    requires KeysOf(deps, keys) && AfterRounds(deps, keys, k, pending, current)
    ensures pending == [] <==> AllLoaded(deps, k)
  {
    if pending == [] {
      forall m | m in deps ensures !Deep(deps, m, k) { Known(deps, keys, k, pending, current, m); }
    } else {
      Known(deps, keys, k, pending, current, pending[0]);
    }
  }

  lemma AllLoadedMonotone(deps: Dependencies, j: nat, k: nat)
    requires AllLoaded(deps, j) && j <= k
    ensures AllLoaded(deps, k)
  {
    forall m | m in deps ensures !Deep(deps, m, k) {
      if Deep(deps, m, k) { DeepMonotone(deps, m, k, j); }
    }
  }

  /** When no library has its longest chain at length `k`, those that are deeper never get loaded. */
  lemma {:induction false} StuckForever(deps: Dependencies, k: nat, j: nat, m: Library)
    requires forall n | n in deps && Deep(deps, n, k) :: Deep(deps, n, k + 1)
    requires Deep(deps, m, k)
    ensures Deep(deps, m, k + j)
    decreases j
  {
    if j == 0 || m !in deps {
    } else {
      var d :| d in deps[m] && Deep(deps, d, k);
      StuckForever(deps, k, j - 1, d);
    }
  }

  /** Every round before the last one loads something. */
  lemma SomeLibraryInStep(deps: Dependencies, k: nat, last: nat) returns (m: Library)
    requires !AllLoaded(deps, k) && AllLoaded(deps, last) && k <= last
    ensures InStep(deps, m, k)
  {
    if n :| n in deps && InStep(deps, n, k) {
      m := n;
    } else {
      var deepest :| deepest in deps && Deep(deps, deepest, k);
      StuckForever(deps, k, last - k, deepest);
      assert false;
    }
  }

  // ----- The whole sort -----

  ghost predicate LimitSuffices(deps: Dependencies, limit: nat) {
    limit > 0 && AllLoaded(deps, limit - 1)
  }

  /** The sorted libraries, or None when the interpreter's recursion limit is reached. */
  method SortToDependencies(deps: Dependencies, keys: seq<Library>, limit: nat)
    returns (sorted: Option<seq<Library>>, ghost steps: seq<seq<Library>>)
    requires KeysOf(deps, keys)
    ensures sorted.Some? <==> LimitSuffices(deps, limit)
    ensures sorted.Some? ==>
      && multiset(sorted.value) == multiset(keys) && InOrder(deps, sorted.value)
      && Filled(deps, steps, sorted.value) && NoEmptyStep(steps) && AllLoaded(deps, |steps|)
      && StepsInKeyOrder(keys, steps)
  {
    var loader := new Loader(deps, keys);
    var ok := loader.DependencyOrder(keys, 0, limit);
    steps := loader.steps;
    if !ok {
      return None, steps;
    }
    EmptyIffAllLoaded(deps, keys, |steps|, loader.pending, loader.current);
    var sortedLibraries := Extended(loader.steps);
    sorted := Some(sortedLibraries);
  }

  /** The loop that extends the result by one step after the other. */
  method Extended(steps: seq<seq<Library>>) returns (sortedLibraries: seq<Library>)
    ensures sortedLibraries == Flatten(steps)
  {
    sortedLibraries := [];
    for i := 0 to |steps|
      invariant sortedLibraries == Flatten(steps[..i])
    {
      assert steps[..i + 1][..i] == steps[..i];
      sortedLibraries := sortedLibraries + steps[i];
    }
    assert steps[..|steps|] == steps;
  }

  ghost predicate NoEmptyStep(steps: seq<seq<Library>>) {
    forall j | 0 <= j < |steps| :: steps[j] != []
  }

  /** The sort ends for some recursion limit exactly on closed acyclic maps, and there a limit of one
      more than the number of libraries is enough. */
  lemma SortEndsIffClosedAcyclic(deps: Dependencies)
    ensures (exists limit: nat :: LimitSuffices(deps, limit)) <==> Closed(deps) && Acyclic(deps)
    ensures Closed(deps) && Acyclic(deps) ==> LimitSuffices(deps, |deps| + 1)
  {
    LoadsIffClosedAcyclic(deps);
    if Closed(deps) && Acyclic(deps) {
      forall m | m in deps ensures !Deep(deps, m, |deps|) { AcyclicBounds(deps, m); }
      assert LimitSuffices(deps, |deps| + 1);
    }
    if limit: nat :| LimitSuffices(deps, limit) {
      assert AllLoaded(deps, limit - 1);
    }
  }

  /** Any assignment of libraries to steps that puts dependencies into earlier steps. */
  ghost predicate Layering(deps: Dependencies, layer: map<Library, nat>) {
    && layer.Keys == deps.Keys
    && forall m, d | m in deps && d in deps[m] :: d in layer && layer[d] < layer[m]
  }

  lemma {:induction false} LayersAreDeepEnough(deps: Dependencies, layer: map<Library, nat>, m: Library, k: nat)
    requires Layering(deps, layer) && m in deps && Deep(deps, m, k)
    ensures layer[m] >= k
    decreases k
  {
    if k == 0 {
    } else {
      var d :| d in deps[m] && Deep(deps, d, k - 1);
      LayersAreDeepEnough(deps, layer, d, k - 1);
    }
  }

  /** No layering uses fewer steps than the sort, and none has a library earlier. */
  lemma FewestSteps(deps: Dependencies, layer: map<Library, nat>, steps: seq<seq<Library>>, sorted: seq<Library>, height: nat)
    requires Layering(deps, layer) && forall m | m in deps :: layer[m] < height
    requires Filled(deps, steps, sorted) && NoEmptyStep(steps)
    ensures |steps| <= height
    ensures forall j, m | 0 <= j < |steps| && m in steps[j] :: m in layer && j <= layer[m]
  {
    forall j, m | 0 <= j < |steps| && m in steps[j] ensures m in layer && j <= layer[m] {
      assert HoldsStep(deps, steps[j], j);
      LayersAreDeepEnough(deps, layer, m, j);
    }
    if steps != [] {
      var last := steps[|steps| - 1];
      assert last[0] in last && last[0] in layer;
    }
  }

  /** On a closed map the step of a library is the length of its longest dependency chain. */
  lemma StepIsLongestChain(deps: Dependencies, m: Library, j: nat)
    requires Closed(deps) && m in deps
    ensures InStep(deps, m, j) <==>
            && (exists p :: Chain(deps, p) && p[0] == m && |p| == j + 1)
            && (forall p | Chain(deps, p) && p[0] == m :: |p| <= j + 1)
  {
    forall p | Chain(deps, p) && p[0] == m ensures Deep(deps, m, |p| - 1) { DeepFromChain(deps, p); }
    if InStep(deps, m, j) {
      var q := ChainFromDeep(deps, m, j);
      forall p | Chain(deps, p) && p[0] == m ensures |p| <= j + 1 {
        if |p| > j + 1 { DeepMonotone(deps, m, |p| - 1, j + 1); }
      }
    } else if Deep(deps, m, j + 1) {
      var q := ChainFromDeep(deps, m, j + 1);
    }
  }
}
