/** Which modules a development session starts, and in what order: a depth-first search over their dependencies. */
module DevModules {
  import opened Basics
  import opened Ordering

  /** The modules found, each with the modules it depends on. */
  type Index = map<string, seq<string>>

  /** Why selection fails, with the dependency chain that shows it. */
  datatype Failure = Missing(chain: seq<string>) | Cycle(chain: seq<string>)

  // ---------------------------------------------------------------- dependency paths

  predicate Path(index: Index, p: seq<string>) {
    p != [] && forall i | 0 <= i < |p| - 1 :: p[i] in index && p[i + 1] in index[p[i]]
  }

  ghost predicate Reaches(index: Index, a: string, b: string) {
    exists p :: Path(index, p) && p[0] == a && p[|p| - 1] == b
  }

  ghost predicate Reachable(index: Index, roots: seq<string>, x: string) {
    exists r :: r in roots && Reaches(index, r, x)
  }

  ghost predicate OnCycle(index: Index, x: string) {
    exists p :: Path(index, p) && |p| >= 2 && p[0] == x && p[|p| - 1] == x
  }

  /** Everything the roots need exists, and nothing among it depends on itself. */
  ghost predicate Resolvable(index: Index, roots: seq<string>) {
    forall x | Reachable(index, roots, x) :: x in index && !OnCycle(index, x)
  }

  /** Every module listed is known, and its dependencies are listed before it. */
  predicate DependenciesFirst(index: Index, xs: seq<string>) {
    forall i | 0 <= i < |xs| :: xs[i] in index && forall d | d in index[xs[i]] :: d in xs[..i]
  }

  /** A chain from a root, ending with a module that is missing or already on the chain. */
  predicate Explains(index: Index, roots: seq<string>, f: Failure) {
    && Path(index, f.chain) && f.chain[0] in roots
    && match f
       case Missing(chain) => chain[|chain| - 1] !in index
       case Cycle(chain) => chain[|chain| - 1] in chain[..|chain| - 1]
  }

  lemma PathPart(index: Index, p: seq<string>, i: nat, j: nat)
    requires Path(index, p) && i < j <= |p|
    ensures Path(index, p[i..j])
  {
    forall k | 0 <= k < j - i - 1 ensures p[i..j][k] in index && p[i..j][k + 1] in index[p[i..j][k]] {
      assert p[i + k] in index && p[i + k + 1] in index[p[i + k]];
    }
  }

  lemma PathMore(index: Index, p: seq<string>, x: string)
    requires Path(index, p) && p[|p| - 1] in index && x in index[p[|p| - 1]]
    ensures Path(index, p + [x])
  {
    var q := p + [x];
    forall k | 0 <= k < |q| - 1 ensures q[k] in index && q[k + 1] in index[q[k]] {
      if k < |p| - 1 { assert p[k] in index && p[k + 1] in index[p[k]]; }
    }
  }

  lemma ChainReaches(index: Index, roots: seq<string>, p: seq<string>)
    requires Path(index, p) && p[0] in roots
    ensures Reachable(index, roots, p[|p| - 1])
  {
    assert Reaches(index, p[0], p[|p| - 1]);
  }

  /** An explained failure is a real one. */
  lemma ExplainedFails(index: Index, roots: seq<string>, f: Failure)
    requires Explains(index, roots, f)
    ensures !Resolvable(index, roots)
  {
    var p := f.chain;
    var last := p[|p| - 1];
    ChainReaches(index, roots, p);
    if f.Cycle? {
      var i :| 0 <= i < |p| - 1 && p[..|p| - 1][i] == last;
      PathPart(index, p, i, |p|);
      var loop := p[i..];
      assert p[i..|p|] == loop && loop[0] == last && loop[|loop| - 1] == last;
      assert OnCycle(index, last);
    }
  }

  /** In a list with dependencies first, a path only leads backwards. */
  lemma {:induction false} PathGoesBack(index: Index, xs: seq<string>, p: seq<string>, i: nat)
    requires DependenciesFirst(index, xs) && Path(index, p) && i < |xs| && xs[i] == p[0]
    ensures exists j :: 0 <= j <= i && xs[j] == p[|p| - 1] && (|p| > 1 ==> j < i)
    decreases |p|
  {
    if |p| > 1 {
      assert p[1] in index[p[0]];
      assert p[1] in xs[..i];
      var k :| 0 <= k < i && xs[..i][k] == p[1];
      PathPart(index, p, 1, |p|);
      PathGoesBack(index, xs, p[1..|p|], k);
      var j :| 0 <= j <= k && xs[j] == p[1..|p|][|p| - 2] && (|p| - 1 > 1 ==> j < k);
      assert xs[j] == p[|p| - 1];
    }
  }

  /** A list of the roots with dependencies first holds everything reachable, and no cycles. */
  lemma ListedResolves(index: Index, roots: seq<string>, xs: seq<string>)
    requires DependenciesFirst(index, xs) && Distinct(xs) && forall r | r in roots :: r in xs
    ensures Resolvable(index, roots)
    ensures forall x | Reachable(index, roots, x) :: x in xs
  {
    forall x | Reachable(index, roots, x) ensures x in xs && x in index && !OnCycle(index, x) {
      var r :| r in roots && Reaches(index, r, x);
      var p :| Path(index, p) && p[0] == r && p[|p| - 1] == x;
      var i :| 0 <= i < |xs| && xs[i] == r;
      PathGoesBack(index, xs, p, i);
      var j :| 0 <= j <= i && xs[j] == x;
      if OnCycle(index, x) {
        var q :| Path(index, q) && |q| >= 2 && q[0] == x && q[|q| - 1] == x;
        PathGoesBack(index, xs, q, j);
      }
    }
  }

  // ---------------------------------------------------------------- the search

  const OPEN := 1
  const DONE := 2

  class DevResolver {
    const index: Index
    /** Absent, being visited (1) or selected (2). */
    var state: map<string, int>
    var selected: seq<string>

    constructor (index: Index)
      ensures this.index == index && state == map[] && selected == []
    {
      this.index, this.state, this.selected := index, map[], [];
    }

    ghost predicate Valid(chain: seq<string>, roots: seq<string>)
      reads this
    {
      Consistent(index, state, selected, chain, roots)
    }

    method Visit(name: string, chain: seq<string>, ghost roots: seq<string>) returns (failure: Option<Failure>)
      requires Valid(chain, roots) && Path(index, chain + [name]) && (chain + [name])[0] in roots
      modifies this
      ensures failure.None? ==> Valid(chain, roots) && name in selected
      ensures failure.None? ==> old(selected) <= selected && old(state.Keys) <= state.Keys
      ensures failure.Some? ==> Explains(index, roots, failure.value)
      decreases index.Keys - state.Keys
    {
      hide Consistent, Path, Explains;
      var chain' := chain + [name];
      if name in state && state[name] == OPEN {
        OpenCloses(index, state, selected, chain, roots, name);
        return Some(Cycle(chain'));
      }
      if name in state && state[name] == DONE {
        DoneSelected(index, state, selected, chain, roots, name);
        return None;
      }
      if name !in index {
        MissingExplains(index, roots, chain');
        return Some(Missing(chain'));
      }
      MarksKnown(index, state, selected, chain, roots, name);
      Opens(index, state, selected, chain, roots, name);
      state := state[name := OPEN];
      var dependencies := index[name];
      for i := 0 to |dependencies|
        invariant Valid(chain', roots) && old(selected) <= selected && old(state.Keys) + {name} <= state.Keys
        invariant forall j | 0 <= j < i :: dependencies[j] in selected
      {
        PathMore(index, chain', dependencies[i]);
        ghost var before := selected;
        failure := Visit(dependencies[i], chain', roots);
        if failure.Some? {
          return;
        }
        Kept(before, selected, dependencies, i);
      }
      ChainReaches(index, roots, chain');
      Closes(index, state, selected, chain, roots, name);
      state := state[name := DONE];
      selected := selected + [name];
      return None;
    }
  }

  /** The modules being visited are the chain; the ones selected come with their dependencies. */
  ghost predicate Consistent(index: Index, state: map<string, int>, selected: seq<string>, chain: seq<string>, roots: seq<string>) {
    && (forall n | n in state :: n in index && (state[n] == OPEN || state[n] == DONE))
    && (forall n :: n in chain <==> n in state && state[n] == OPEN) && Distinct(chain)
    && (forall n :: n in selected <==> n in state && state[n] == DONE)
    && Distinct(selected) && DependenciesFirst(index, selected)
    && forall n | n in selected :: Reachable(index, roots, n)
  }

  lemma Kept(before: seq<string>, after: seq<string>, xs: seq<string>, i: nat)
    requires before <= after && i < |xs| && xs[i] in after && forall j | 0 <= j < i :: xs[j] in before
    ensures forall j | 0 <= j < i + 1 :: xs[j] in after
  {
  }

  lemma OpenCloses(index: Index, state: map<string, int>, selected: seq<string>, chain: seq<string>, roots: seq<string>, name: string)
    requires Consistent(index, state, selected, chain, roots) && Path(index, chain + [name]) && (chain + [name])[0] in roots
    requires name in state && state[name] == OPEN
    ensures Explains(index, roots, Cycle(chain + [name]))
  {
    assert (chain + [name])[..|chain|] == chain;
  }

  lemma MissingExplains(index: Index, roots: seq<string>, chain: seq<string>)
    requires Path(index, chain) && chain[0] in roots && chain[|chain| - 1] !in index
    ensures Explains(index, roots, Missing(chain))
  {
  }

  lemma DoneSelected(index: Index, state: map<string, int>, selected: seq<string>, chain: seq<string>, roots: seq<string>, name: string)
    requires Consistent(index, state, selected, chain, roots) && name in state && state[name] == DONE
    ensures name in selected
  {
  }

  /** A module without a mark is on neither list. */
  lemma MarksKnown(index: Index, state: map<string, int>, selected: seq<string>, chain: seq<string>, roots: seq<string>, name: string)
    requires Consistent(index, state, selected, chain, roots) && !(name in state && (state[name] == OPEN || state[name] == DONE))
    ensures name !in state && name !in chain && name !in selected
  {
  }

  lemma Opens(index: Index, state: map<string, int>, selected: seq<string>, chain: seq<string>, roots: seq<string>, name: string)
    requires Consistent(index, state, selected, chain, roots) && name in index && name !in state && name !in chain
    ensures Consistent(index, state[name := OPEN], selected, chain + [name], roots)
  {
    hide DependenciesFirst, Reachable;
    forall n ensures n in chain + [name] <==> n in state[name := OPEN] && state[name := OPEN][n] == OPEN {
      assert n in chain + [name] <==> n in chain || n == name;
    }
  }

  lemma Closes(index: Index, state: map<string, int>, selected: seq<string>, chain: seq<string>, roots: seq<string>, name: string)
    requires Consistent(index, state, selected, chain + [name], roots) && name in index && Reachable(index, roots, name)
    requires forall j | 0 <= j < |index[name]| :: index[name][j] in selected
    ensures Consistent(index, state[name := DONE], selected + [name], chain, roots)
  {
    hide DependenciesFirst, Reachable;
    var all := chain + [name];
    assert all[|chain|] == name && name in all;
    assert name !in chain by {
      forall i | 0 <= i < |chain| ensures chain[i] != name { assert all[i] != all[|chain|]; }
    }
    assert Distinct(chain) by {
      forall i, j | 0 <= i < j < |chain| ensures chain[i] != chain[j] { assert all[i] != all[j]; }
    }
    Selects(index, selected, name);
    forall n ensures n in chain <==> n in state[name := DONE] && state[name := DONE][n] == OPEN {
      assert n in all <==> n in chain || n == name;
    }
    forall n ensures n in selected + [name] <==> n in state[name := DONE] && state[name := DONE][n] == DONE {
      assert n in selected + [name] <==> n in selected || n == name;
    }
  }

  lemma Selects(index: Index, xs: seq<string>, name: string)
    requires Distinct(xs) && DependenciesFirst(index, xs) && name !in xs && name in index
    requires forall j | 0 <= j < |index[name]| :: index[name][j] in xs
    ensures Distinct(xs + [name]) && DependenciesFirst(index, xs + [name])
  {
    var ys := xs + [name];
    forall i | 0 <= i < |ys| ensures ys[i] in index && forall d | d in index[ys[i]] :: d in ys[..i] {
      assert ys[..i] == xs[..i];
    }
  }

  lemma Starts(index: Index, roots: seq<string>)
    ensures Consistent(index, map[], [], [], roots)
  {
  }

  lemma RootPath(index: Index, x: string)
    ensures Path(index, [x])
  {
  }

  lemma Finished(index: Index, state: map<string, int>, selected: seq<string>, roots: seq<string>)
    requires Consistent(index, state, selected, [], roots) && forall r | r in roots :: r in selected
    ensures Distinct(selected) && DependenciesFirst(index, selected) && Resolvable(index, roots)
    ensures forall x :: x in selected <==> Reachable(index, roots, x)
  {
    hide Reachable, DependenciesFirst, Resolvable;
    ListedResolves(index, roots, selected);
  }

  /**
   The selection: it succeeds exactly when nothing reachable from the roots is missing or
   on a cycle; then it lists each reachable module once, dependencies first. Otherwise
   the failure's chain is a dependency path from a root that shows why.
   */
  method SelectSources(index: Index, current: string, includes: seq<string>) returns (r: Result<seq<string>, Failure>)
    ensures r.Ok? <==> Resolvable(index, [current] + includes)
    ensures r.Ok? ==> Distinct(r.value) && DependenciesFirst(index, r.value)
    ensures r.Ok? ==> forall x :: x in r.value <==> Reachable(index, [current] + includes, x)
    ensures r.Err? ==> Explains(index, [current] + includes, r.error)
  {
    hide Consistent, Path, Explains, Resolvable, Reachable, DependenciesFirst, Distinct;
    var roots := [current] + includes;
    var resolver := new DevResolver(index);
    Starts(index, roots);
    for i := 0 to |roots|
      invariant resolver.index == index && resolver.Valid([], roots)
      invariant forall j | 0 <= j < i :: roots[j] in resolver.selected
    {
      RootPath(index, roots[i]);
      assert [] + [roots[i]] == [roots[i]];
      ghost var before := resolver.selected;
      var failure := resolver.Visit(roots[i], [], roots);
      if failure.Some? {
        ExplainedFails(index, roots, failure.value);
        return Err(failure.value);
      }
      Kept(before, resolver.selected, roots, i);
    }
    Finished(index, resolver.state, resolver.selected, roots);
    return Ok(resolver.selected);
  }
}
