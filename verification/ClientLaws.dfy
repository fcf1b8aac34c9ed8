/** Generating a client from start to end: when it succeeds, and that what it says is declared. */
module ClientLaws {
  import opened Basics
  import opened Ordering
  import opened TypeShapes
  import opened TypeClosure
  import opened ClientPlan
  import opened ClientRun

  // ---------------------------------------------------------------- action names

  /** Sort the named routes and compare neighbours. */
  method CheckActionNames(routes: seq<Route>) returns (ok: bool)
    ensures ok <==> ActionNamesAgree(routes)
  {
    hide Sort, ActionLeq, Kept;
    var named := (r: Route) => r.name != "";
    var actions := Sort(Kept(routes, named), ActionLeq);
    RoutesOrdered();
    SortSorts(Kept(routes, named), ActionLeq);
    SameRoutes(routes, named, actions);
    var i := 1;
    while i < |actions|
      invariant 1 <= i && forall k | 0 < k < i && k < |actions| :: Neighbours(actions, k)
    {
      if actions[i - 1].name == actions[i].name && actions[i - 1].model != actions[i].model {
        Disagree(routes, actions[i - 1], actions[i]);
        return false;
      }
      assert Neighbours(actions, i);
      i := i + 1;
    }
    forall i, j | 0 <= i < |routes| && 0 <= j < |routes| && routes[i].name != "" && routes[i].name == routes[j].name
      ensures routes[i].model == routes[j].model
    {
      assert routes[i] in actions && routes[j] in actions;
      var a :| 0 <= a < |actions| && actions[a] == routes[i];
      var b :| 0 <= b < |actions| && actions[b] == routes[j];
      if a < b { NeighboursAgree(actions, a, b); } else if b < a { NeighboursAgree(actions, b, a); }
    }
    return true;
  }

  predicate Neighbours(actions: seq<Route>, k: nat)
    requires 0 < k < |actions|
  {
    actions[k - 1].name == actions[k].name ==> actions[k - 1].model == actions[k].model
  }

  lemma Disagree(routes: seq<Route>, a: Route, b: Route)
    requires a in routes && b in routes && a.name != "" && a.name == b.name && a.model != b.model
    ensures !ActionNamesAgree(routes)
  {
    var i :| 0 <= i < |routes| && routes[i] == a;
    var j :| 0 <= j < |routes| && routes[j] == b;
    assert routes[i].name == routes[j].name && routes[i].model != routes[j].model;
  }

  lemma {:induction false} KeptIn<T>(xs: seq<T>, p: T -> bool)
    ensures forall x :: x in Kept(xs, p) <==> x in xs && p(x)
    decreases |xs|
  {
    if xs != [] {
      KeptIn(xs[..|xs| - 1], p);
      assert xs == xs[..|xs| - 1] + [xs[|xs| - 1]];
    }
  }

  lemma SameRoutes(routes: seq<Route>, p: Route -> bool, sorted: seq<Route>)
    requires multiset(sorted) == multiset(Kept(routes, p))
    ensures forall x :: x in sorted <==> x in routes && p(x)
  {
    hide Kept;
    KeptIn(routes, p);
    forall x ensures x in sorted <==> x in Kept(routes, p) {
      assert x in sorted <==> x in multiset(sorted);
      assert x in Kept(routes, p) <==> x in multiset(Kept(routes, p));
    }
  }

  /** In the sorted list, routes of one name stand together. */
  lemma {:induction false} NeighboursAgree(actions: seq<Route>, i: nat, j: nat)
    requires i < j < |actions| && Sorted(actions, ActionLeq) && actions[i].name == actions[j].name
    requires forall k | 0 < k < |actions| :: Neighbours(actions, k)
    ensures actions[i].model == actions[j].model
    decreases j - i
  {
    assert Neighbours(actions, j);
    if i < j - 1 {
      assert ActionLeq(actions[i], actions[j - 1]) && ActionLeq(actions[j - 1], actions[j]);
      LeqTotal(actions[i].name, actions[j - 1].name);
      hide Leq;
      NeighboursAgree(actions, i, j - 1);
    }
  }

  // ---------------------------------------------------------------- routes and actions

  lemma {:induction false} KeptCounts<T>(xs: seq<T>, p: T -> bool, x: T)
    ensures multiset(Kept(xs, p))[x] == if p(x) then multiset(xs)[x] else 0
    decreases |xs|
  {
    if xs != [] {
      KeptCounts(xs[..|xs| - 1], p, x);
      assert xs == xs[..|xs| - 1] + [xs[|xs| - 1]];
    }
  }

  /** The routes that get a function are sorted, each as often as it is declared. */
  lemma FunctionRoutesAre(input: Input)
    ensures Sorted(FunctionRoutes(input), RouteLeq)
    ensures forall r :: multiset(FunctionRoutes(input))[r] == if GetsFunction(input, r) then multiset(input.routes)[r] else 0
  {
    hide GetsFunction, Sort, RouteLeq, Kept;
    var p := (r: Route) => GetsFunction(input, r);
    RoutesOrdered();
    SortSorts(Kept(input.routes, p), RouteLeq);
    forall r ensures multiset(FunctionRoutes(input))[r] == if GetsFunction(input, r) then multiset(input.routes)[r] else 0 {
      KeptCounts(input.routes, p, r);
    }
  }

  /** Exactly the routes that get a function: actions by model and name, then the others by path and method. */
  method RoutesOf(input: Input) returns (routes: seq<Route>)
    ensures routes == FunctionRoutes(input) && Sorted(routes, RouteLeq)
    ensures forall r :: multiset(routes)[r] == if GetsFunction(input, r) then multiset(input.routes)[r] else 0
  {
    FunctionRoutesAre(input);
    hide GetsFunction, Sort, RouteLeq;
    var p := (r: Route) => GetsFunction(input, r);
    var kept: seq<Route> := [];
    assert input.routes[..0] == [];
    for i := 0 to |input.routes|
      invariant kept == Kept(input.routes[..i], p)
    {
      assert input.routes[..i + 1][..i] == input.routes[..i];
      if GetsFunction(input, input.routes[i]) {
        kept := kept + [input.routes[i]];
      }
    }
    assert input.routes[..|input.routes|] == input.routes;
    return Sort(kept, RouteLeq);
  }

  /** Each action name's route: a workflow transition gives way to any later route of its name. */
  method ActionRoutes(routes: seq<Route>) returns (actions: seq<Route>)
    ensures ActionsOf(routes, actions)
  {
    hide StandsFor, Callable, ChosenFor, Transition;
    var chosen: map<string, Route> := map[];
    for i := 0 to |routes|
      invariant forall n | n in chosen :: ChosenFor(routes[..i], n, chosen[n])
      invariant forall k | 0 <= k < i && Callable(routes[k]) :: routes[k].name in chosen
    {
      var r := routes[i];
      ghost var before := chosen;
      if Callable(r) && !(r.name in chosen && !Transition(chosen[r.name])) {
        chosen := chosen[r.name := r];
      }
      ChosenNext(routes, i, before, chosen);
    }
    assert routes[..|routes|] == routes;
    var names := SortedKeys(chosen.Keys);
    actions := seq(|names|, i requires 0 <= i < |names| => chosen[names[i]]);
    ListedActions(routes, chosen, names, actions);
  }

  /** A later route leaves the choice for a name alone unless it is of that name and replaces a transition. */
  lemma ChosenKept(routes: seq<Route>, r: Route, name: string, c: Route)
    requires ChosenFor(routes, name, c) && (!Callable(r) || r.name != name || !Transition(c))
    ensures ChosenFor(routes + [r], name, c)
  {
    hide Callable, Transition;
    var k: nat :| k < |routes| && routes[k] == c && StandsFor(routes, name, k);
    var now := routes + [r];
    assert forall q | 0 <= q < |routes| :: now[q] == routes[q];
    assert now[k] == c && StandsFor(now, name, k);
  }

  lemma ChosenLast(routes: seq<Route>, r: Route, name: string)
    requires Callable(r) && r.name == name
    requires forall q | 0 <= q < |routes| && Callable(routes[q]) && routes[q].name == name :: Transition(routes[q])
    ensures ChosenFor(routes + [r], name, r)
  {
    hide Callable, Transition;
    var now := routes + [r];
    assert forall q | 0 <= q < |routes| :: now[q] == routes[q];
    assert now[|routes|] == r && StandsFor(now, name, |routes|);
  }

  lemma ChosenNext(routes: seq<Route>, i: nat, before: map<string, Route>, after: map<string, Route>)
    requires i < |routes|
    requires forall n | n in before :: ChosenFor(routes[..i], n, before[n])
    requires forall k | 0 <= k < i && Callable(routes[k]) :: routes[k].name in before
    requires var r := routes[i];
             after == if Callable(r) && !(r.name in before && !Transition(before[r.name])) then before[r.name := r] else before
    ensures forall n | n in after :: ChosenFor(routes[..i + 1], n, after[n])
  {
    hide Callable, Transition;
    var was, r := routes[..i], routes[i];
    assert routes[..i + 1] == was + [r];
    forall n | n in after ensures ChosenFor(was + [r], n, after[n]) {
      if Callable(r) && n == r.name && !(n in before && !Transition(before[n])) {
        forall q | 0 <= q < |was| && Callable(was[q]) && was[q].name == n ensures Transition(was[q]) {
          assert was[q] == routes[q] && ChosenFor(was, n, before[n]);
        }
        ChosenLast(was, r, n);
      } else {
        hide ChosenFor;
        ChosenKept(was, r, n, before[n]);
      }
    }
  }

  lemma ListedActions(routes: seq<Route>, chosen: map<string, Route>, names: seq<string>, actions: seq<Route>)
    requires Sorted(names, Leq) && Distinct(names) && (forall n :: n in names <==> n in chosen)
    requires |actions| == |names| && forall i | 0 <= i < |names| :: actions[i] == chosen[names[i]]
    requires forall n | n in chosen :: ChosenFor(routes, n, chosen[n])
    requires forall k | 0 <= k < |routes| && Callable(routes[k]) :: routes[k].name in chosen
    ensures ActionsOf(routes, actions)
  {
    hide Leq;
    forall i | 0 <= i < |actions| ensures actions[i].name == names[i] && ChosenFor(routes, actions[i].name, actions[i]) {
      assert ChosenFor(routes, names[i], chosen[names[i]]);
    }
    hide StandsFor;
    forall k | 0 <= k < |routes| && Callable(routes[k]) ensures exists i :: 0 <= i < |actions| && actions[i].name == routes[k].name {
      var i :| 0 <= i < |names| && names[i] == routes[k].name;
      assert actions[i].name == routes[k].name;
    }
    forall i, j | 0 <= i < j < |actions| ensures actions[i].name != actions[j].name && Leq(actions[i].name, actions[j].name) {
      assert names[i] != names[j] && Leq(names[i], names[j]);
    }
    assert forall i | 0 <= i < |actions| :: ChosenFor(routes, actions[i].name, actions[i]);
  }

  ghost function ActionNames(actions: seq<Route>): seq<string> {
    seq(|actions|, i requires 0 <= i < |actions| => actions[i].name)
  }

  /** The routes leave no choice about the registry's actions. */
  lemma ActionsOnce(routes: seq<Route>, a: seq<Route>, b: seq<Route>)
    requires ActionsOf(routes, a) && ActionsOf(routes, b)
    ensures a == b
  {
    ActionNamesOnce(routes, a, b);
    hide StandsFor, Leq;
    forall i | 0 <= i < |a| ensures a[i] == b[i] {
      assert ActionNames(a)[i] == ActionNames(b)[i];
      ChosenOnce(routes, a[i].name, a[i], b[i]);
    }
  }

  lemma ChosenOnce(routes: seq<Route>, name: string, a: Route, b: Route)
    requires ChosenFor(routes, name, a) && ChosenFor(routes, name, b)
    ensures a == b
  {
    hide StandsFor;
    var j: nat :| j < |routes| && routes[j] == a && StandsFor(routes, name, j);
    var k: nat :| k < |routes| && routes[k] == b && StandsFor(routes, name, k);
    StandsForOne(routes, name, j, k);
  }

  lemma ActionNamesOnce(routes: seq<Route>, a: seq<Route>, b: seq<Route>)
    requires ActionsOf(routes, a) && ActionsOf(routes, b)
    ensures ActionNames(a) == ActionNames(b)
  {
    hide StandsFor, Leq, ChosenFor;
    var x, y := ActionNames(a), ActionNames(b);
    NamesCover(routes, a, b);
    NamesCover(routes, b, a);
    SameMembers(x, y);
    StringsOrdered();
    SortedUnique(x, y, Leq);
  }

  lemma SameMembers(x: seq<string>, y: seq<string>)
    requires Distinct(x) && Distinct(y) && (forall n | n in x :: n in y) && forall n | n in y :: n in x
    ensures multiset(x) == multiset(y)
  {
    DistinctCounts(x);
    DistinctCounts(y);
    forall n ensures multiset(x)[n] == multiset(y)[n] {
      assert n in x <==> n in multiset(x);
      assert n in y <==> n in multiset(y);
    }
  }

  lemma StandsForCallable(routes: seq<Route>, name: string, k: nat)
    requires k < |routes| && StandsFor(routes, name, k)
    ensures Callable(routes[k]) && routes[k].name == name
  {
  }

  lemma NamesCover(routes: seq<Route>, a: seq<Route>, b: seq<Route>)
    requires ActionsOf(routes, a) && ActionsOf(routes, b)
    ensures forall n | n in ActionNames(a) :: n in ActionNames(b)
  {
    hide Leq, StandsFor;
    forall n | n in ActionNames(a) ensures n in ActionNames(b) {
      var i :| 0 <= i < |a| && ActionNames(a)[i] == n;
      assert ChosenFor(routes, n, a[i]);
      var k: nat :| k < |routes| && routes[k] == a[i] && StandsFor(routes, n, k);
      StandsForCallable(routes, n, k);
      var j :| 0 <= j < |b| && b[j].name == routes[k].name;
      assert ActionNames(b)[j] == n;
    }
  }

  // ---------------------------------------------------------------- the run

  /** What the generated client says. */
  ghost predicate IsClient(input: Input, actions: seq<Route>, c: Client) {
    && |c.functions| == |FunctionRoutes(input)|
    && (forall i | 0 <= i < |c.functions| :: c.functions[i] == Signature(FunctionRoutes(input)[i]))
    && |c.actions| == |actions|
    && (forall i | 0 <= i < |c.actions| :: c.actions[i] == Entry(actions[i]))
    && Declares(c.interfaces, Bodies(ModelNames(input), Demands(input, actions)))
  }

  /** The client, if there is one, and the routes its action registry lists. */
  method Generate(input: Input) returns (r: Option<Client>, actions: seq<Route>)
    ensures ActionsOf(input.routes, actions)
    ensures r.Some? <==> Accepted(input, actions)
    ensures r.Some? ==> IsClient(input, actions, r.value)
  {
    hide Good, Met, Bodies, Taken, Sort, Models, FunctionRoutes, ActionNamesAgree, ActionsOf, ReadKeysFit, RouteFits, Flat, Signature, Entry, RegistryOk, Declares, Reserved;
    actions := ActionRoutes(input.routes);
    ghost var names, all := ModelNames(input), Demands(input, actions);
    var g := new Generator(names);
    Reserve(g);
    ghost var ds: seq<Demand> := [Name(input.apiName)];
    var ok := Take(g, input.apiName, "the module's API object", []);
    assert [] + ds == ds;
    if !ok { Fails(names, [], ds, all); assert [] + all == all; return None, actions; }
    var models := Models(input);
    SameModels(input);
    ok := CheckActionNames(input.routes);
    if !ok { return None, actions; }
    ok := RenderModels(g, models, ds);
    ghost var more := Flat(models, ModelDemands);
    if !ok { FailsEarly(input, actions, ds, more, all); return None, actions; }
    ds := ds + more;
    more := Flat(models, CrudDemands);
    ok := PlanModels(g, models, ds);
    if !ok { FailsEarly(input, actions, ds, more, all); return None, actions; }
    ds := ds + more;
    var routes := RoutesOf(input);
    more := Flat(routes, RouteDemands);
    var functions := PlanRoutes(g, routes, ds);
    if functions.None? { FailsEarly(input, actions, ds, more, all); return None, actions; }
    ds := ds + more;
    more := Flat(actions, ActionDemands);
    var entries := RenderRegistries(g, actions, ds);
    assert ds + more == all;
    if entries.None? { return None, actions; }
    var interfaces := DeclareBodies(g, ds + more);
    return Some(Client(functions.value, entries.value, interfaces)), actions;
  }

  /** The imports take their names first. */
  method Reserve(g: Generator)
    requires g.Valid({}) && g.taken == {} && g.shapes == {}
    modifies g`names, g`taken
    ensures Met(g, [])
  {
    hide Reserved, FieldShapes, Identifier;
    var names := Reserved();
    for i := 0 to |names|
      invariant g.Valid({}) && g.taken == SetOf(names[..i]) && g.shapes == {}
    {
      g.names := g.names[names[i] := "an import"];
      g.taken := g.taken + {names[i]};
      assert names[..i + 1] == names[..i] + [names[i]];
    }
    assert names[..|names|] == names;
  }

  lemma SameModels(input: Input)
    ensures forall m :: m in Models(input) <==> m in input.models
    ensures ModelNames(input) == set m | m in Models(input) :: m.typeName
  {
    var sorted := Models(input);
    forall m ensures m in sorted <==> m in input.models {
      assert m in sorted <==> m in multiset(sorted);
      assert m in input.models <==> m in multiset(input.models);
    }
  }

  lemma FailsEarly(input: Input, actions: seq<Route>, ds: seq<Demand>, more: seq<Demand>, all: seq<Demand>)
    requires ds + more <= all && all == Demands(input, actions)
    ensures !Good(ModelNames(input), ds + more) ==> !Accepted(input, actions)
  {
    hide Good, Demands;
    assert all == (ds + more) + all[|ds + more|..];
    GoodPrefix(ModelNames(input), ds + more, all[|ds + more|..]);
  }

  // ---------------------------------------------------------------- what is said is declared

  lemma {:induction false} FlatIn<T>(xs: seq<T>, f: T -> seq<Demand>, x: T, d: Demand)
    requires x in xs && d in f(x)
    ensures d in Flat(xs, f)
    decreases |xs|
  {
    var k := |xs| - 1;
    if x != xs[k] {
      assert x in xs[..k];
      FlatIn(xs[..k], f, x, d);
    }
  }

  lemma {:induction false} BodyIn(models: set<string>, ds: seq<Demand>, d: Option<TypeDesc>)
    requires Body(d) in ds
    ensures Shapes(models, d) <= Bodies(models, ds)
    decreases |ds|
  {
    hide Shapes;
    var k := |ds| - 1;
    if ds[k] != Body(d) {
      assert Body(d) in ds[..k];
      BodyIn(models, ds[..k], d);
    }
  }

  lemma {:induction false} NameIn(ds: seq<Demand>, n: string)
    requires Name(n) in ds
    ensures n in Taken(ds)
    decreases |ds|
  {
    var k := |ds| - 1;
    if ds[k] != Name(n) {
      assert Name(n) in ds[..k];
      NameIn(ds[..k], n);
    }
  }

  lemma {:induction false} BodiesClosed(models: set<string>, ds: seq<Demand>, s: TypeDesc)
    requires s in Bodies(models, ds)
    ensures FieldShapes(models, s.fields) <= Bodies(models, ds)
    decreases |ds|
  {
    hide Shapes, FieldShapes;
    var k := |ds| - 1;
    if s in Bodies(models, ds[..k]) {
      BodiesClosed(models, ds[..k], s);
    } else {
      ShapesClosed(models, ds[k].desc);
    }
  }

  lemma NamesGrow(a: set<TypeDesc>, b: set<TypeDesc>)
    requires a <= b
    ensures NamesOf(a) <= NamesOf(b)
  {
  }

  /** The type names the file declares. */
  ghost function Declared(input: Input, c: Client): set<string> {
    ModelNames(input) + set i | i in c.interfaces :: i.name
  }

  lemma DeclaredBodies(input: Input, actions: seq<Route>, c: Client)
    requires IsClient(input, actions, c)
    ensures ModelNames(input) + NamesOf(Bodies(ModelNames(input), Demands(input, actions))) == Declared(input, c)
  {
    hide Bodies, Demands, FunctionRoutes, Signature, Entry;
    var shapes := Bodies(ModelNames(input), Demands(input, actions));
    var names := set i | i in c.interfaces :: i.name;
    forall n ensures n in names <==> n in NamesOf(shapes) {
      if n in names {
        var i :| 0 <= i < |c.interfaces| && c.interfaces[i].name == n;
        assert DeclaredFrom(c.interfaces[i], shapes);
      }
      if n in NamesOf(shapes) {
        var s :| s in shapes && s.name == n;
        var i :| 0 <= i < |c.interfaces| && c.interfaces[i].name == s.name;
        assert c.interfaces[i] in c.interfaces;
      }
    }
  }

  lemma RenderedDeclared(input: Input, actions: seq<Route>, c: Client, d: Option<TypeDesc>)
    requires IsClient(input, actions, c) && Body(d) in Demands(input, actions)
    ensures Refs(Rendered(d)) <= Declared(input, c)
  {
    hide Demands, IsClient, Refs, Rendered, Shapes, Bodies, Declared, NamesOf;
    var models, ds := ModelNames(input), Demands(input, actions);
    RefsCovered(models, d);
    BodyIn(models, ds, d);
    NamesGrow(Shapes(models, d), Bodies(models, ds));
    DeclaredBodies(input, actions, c);
  }

  /** Every type named in a function, an action or an interface is declared in the file. */
  lemma ClientClosed(input: Input, actions: seq<Route>, c: Client)
    requires IsClient(input, actions, c)
    ensures forall i | 0 <= i < |c.functions| ::
              Refs(c.functions[i].response) <= Declared(input, c)
              && (c.functions[i].request.Some? ==> Refs(c.functions[i].request.value) <= Declared(input, c))
    ensures forall i | 0 <= i < |c.actions| ::
              Refs(c.actions[i].response) <= Declared(input, c)
              && (c.actions[i].request.Some? ==> Refs(c.actions[i].request.value) <= Declared(input, c))
    ensures forall i | 0 <= i < |c.interfaces| :: MemberRefs(c.interfaces[i].members) <= Declared(input, c)
  {
    hide Demands, FunctionRoutes, Flat, Refs, Rendered, Declared, Declares, MemberRefs, Bodies;
    forall i | 0 <= i < |c.functions|
      ensures Refs(c.functions[i].response) <= Declared(input, c)
      ensures c.functions[i].request.Some? ==> Refs(c.functions[i].request.value) <= Declared(input, c)
    {
      var r := FunctionRoutes(input)[i];
      RouteBodies(input, actions, r);
      RenderedDeclared(input, actions, c, r.response);
      if c.functions[i].request.Some? { RenderedDeclared(input, actions, c, r.request); }
    }
    forall i | 0 <= i < |c.actions|
      ensures Refs(c.actions[i].response) <= Declared(input, c)
      ensures c.actions[i].request.Some? ==> Refs(c.actions[i].request.value) <= Declared(input, c)
    {
      ActionBodies(input, actions, actions[i]);
      RenderedDeclared(input, actions, c, actions[i].response);
      if c.actions[i].request.Some? { RenderedDeclared(input, actions, c, actions[i].request); }
    }
    forall i | 0 <= i < |c.interfaces| ensures MemberRefs(c.interfaces[i].members) <= Declared(input, c) {
      InterfaceClosed(input, actions, c, i);
    }
  }

  lemma RouteBodies(input: Input, actions: seq<Route>, r: Route)
    requires r in FunctionRoutes(input)
    ensures Body(r.response) in Demands(input, actions)
    ensures r.name != "" || SendsBody(r) ==> Body(r.request) in Demands(input, actions)
  {
    hide Flat, FunctionRoutes, Models, ModelDemands, CrudDemands;
    var ds := RouteDemands(r);
    assert ds[if r.name != "" then 1 else 0] == Body(r.response);
    FlatIn(FunctionRoutes(input), RouteDemands, r, Body(r.response));
    if r.name != "" || SendsBody(r) {
      assert ds[if r.name != "" then 0 else 1] == Body(r.request);
      FlatIn(FunctionRoutes(input), RouteDemands, r, Body(r.request));
    }
  }

  lemma ActionBodies(input: Input, actions: seq<Route>, r: Route)
    requires r in actions
    ensures Body(r.response) in Demands(input, actions) && Body(r.request) in Demands(input, actions)
  {
    hide Flat, FunctionRoutes, Models, ModelDemands, CrudDemands, RouteDemands;
    FlatIn(actions, ActionDemands, r, Body(r.response));
    FlatIn(actions, ActionDemands, r, Body(r.request));
  }

  lemma InterfaceClosed(input: Input, actions: seq<Route>, c: Client, i: nat)
    requires IsClient(input, actions, c) && i < |c.interfaces|
    ensures MemberRefs(c.interfaces[i].members) <= Declared(input, c)
  {
    hide Demands, Bodies, FunctionRoutes, Signature, Entry, MemberRefs, Members, FieldShapes, Declared, NamesOf;
    var models, ds := ModelNames(input), Demands(input, actions);
    assert DeclaredFrom(c.interfaces[i], Bodies(models, ds));
    var s :| s in Bodies(models, ds) && c.interfaces[i].members == Members(s.fields);
    MembersCovered(models, s.fields);
    BodiesClosed(models, ds, s);
    NamesGrow(FieldShapes(models, s.fields), Bodies(models, ds));
    DeclaredBodies(input, actions, c);
  }

  /** No two declarations share a name, and none takes an import's. */
  lemma NamesDistinct(input: Input, actions: seq<Route>, c: Client)
    requires Accepted(input, actions) && IsClient(input, actions, c)
    ensures Distinct(Taken(Demands(input, actions)) + seq(|c.interfaces|, i requires 0 <= i < |c.interfaces| => c.interfaces[i].name))
    ensures forall n | n in Taken(Demands(input, actions)) || n in Declared(input, c) :: n !in Reserved()
    ensures ModelNames(input) <= SetOf(Taken(Demands(input, actions)))
  {
    hide Bodies, Demands, FunctionRoutes, Signature, Entry, Reserved, Identifier, Taken;
    var ds := Demands(input, actions);
    var taken, shapes := Taken(ds), Bodies(ModelNames(input), ds);
    var names := seq(|c.interfaces|, i requires 0 <= i < |c.interfaces| => c.interfaces[i].name);
    forall i | 0 <= i < |names| ensures names[i] !in taken && names[i] !in Reserved() {
      assert DeclaredFrom(c.interfaces[i], shapes);
      assert names[i] in SetOf(taken) <==> names[i] in taken;
      assert names[i] in SetOf(Reserved()) <==> names[i] in Reserved();
    }
    var both := taken + names;
    forall i, j | 0 <= i < j < |both| ensures both[i] != both[j] {
      if |taken| <= i { assert names[i - |taken|] != names[j - |taken|]; }
      else if |taken| <= j { assert both[i] in taken && names[j - |taken|] !in taken; }
    }
    forall n | n in ModelNames(input) ensures n in taken {
      ModelTaken(input, actions, n);
    }
  }

  lemma ModelTaken(input: Input, actions: seq<Route>, n: string)
    requires n in ModelNames(input)
    ensures n in Taken(Demands(input, actions))
  {
    hide Flat, FunctionRoutes, Models, CrudDemands, RouteDemands, Taken;
    var m :| m in input.models && m.typeName == n;
    SameModels(input);
    assert ModelDemands(m)[0] == Name(n);
    FlatIn(Models(input), ModelDemands, m, Name(n));
    NameIn(Demands(input, actions), n);
  }

  /** The types a model's CRUD functions and registry entry name. */
  function CrudRefs(m: Model): set<string> {
    {m.typeName} + (if "create" in m.ops then {m.typeName + "Create"} else {}) + (if "update" in m.ops then {m.typeName + "Update"} else {})
  }

  lemma CrudRefsDeclared(input: Input, actions: seq<Route>, m: Model)
    requires m in input.models
    ensures CrudRefs(m) <= SetOf(Taken(Demands(input, actions)))
  {
    hide Flat, FunctionRoutes, Models, CrudDemands, RouteDemands, Taken;
    SameModels(input);
    forall n | n in CrudRefs(m) ensures n in Taken(Demands(input, actions)) {
      assert Name(n) in ModelDemands(m);
      FlatIn(Models(input), ModelDemands, m, Name(n));
      NameIn(Demands(input, actions), n);
    }
  }

  // ---------------------------------------------------------------- the names of a client

  const SDK_NAMES := ["apiClient", "resourceApi", "callAction", "toPagedResponse", "ListParams", "PagedResponse", "PagedResponseWire"]
  const HOOK_NAMES := ["useRecord", "useInfiniteList", "useAction", "UseRecordOptions", "UseInfiniteListOptions", "ActionOptions"]
  const QUERY_NAMES := ["useQuery", "useMutation", "UseQueryOptions", "UseMutationOptions"]

  /** Reserved is what a generated file may import: from the SDK, from its hooks, and from the query library. */
  lemma ImportsReserved()
    ensures Reserved() == SDK_NAMES + HOOK_NAMES + QUERY_NAMES
  {
    assert SDK_NAMES + HOOK_NAMES == ["apiClient", "resourceApi", "callAction", "toPagedResponse", "ListParams", "PagedResponse", "PagedResponseWire",
                                      "useRecord", "useInfiniteList", "useAction", "UseRecordOptions", "UseInfiniteListOptions", "ActionOptions"];
  }

  lemma {:induction false} TakenFlat<T>(xs: seq<T>, f: T -> seq<Demand>, n: string)
    ensures n in Taken(Flat(xs, f)) <==> exists x :: x in xs && n in Taken(f(x))
    decreases |xs|
  {
    hide Taken;
    if xs != [] {
      var k := |xs| - 1;
      TakenFlat(xs[..k], f, n);
      TakenAppend(Flat(xs[..k], f), f(xs[k]));
      assert forall x :: x in xs <==> x in xs[..k] || x == xs[k];
    } else {
      NothingTaken();
    }
  }

  lemma NothingTaken()
    ensures Taken([]) == []
  {
  }

  lemma TakenOne(n: string)
    ensures Taken([Name(n)]) == [n]
  {
    assert [Name(n)][..0] == [];
  }

  /** The names a model's types, functions and hooks have, by the operations it enables. */
  predicate ModelName(m: Model, n: string) {
    || n == m.typeName
    || (n == m.typeName + "Create" && ("create" in m.ops || "update" in m.ops))
    || (n == m.typeName + "Update" && "update" in m.ops)
    || (n in {"list" + m.plural, "use" + m.plural} && "list" in m.ops)
    || (n in {"get" + m.typeName, "use" + m.typeName} && "get" in m.ops)
    || (n == "create" + m.typeName && "create" in m.ops)
    || (n == "update" + m.typeName && "update" in m.ops)
    || (n == "delete" + m.typeName && "delete" in m.ops)
  }

  lemma ModelTakes(m: Model, n: string)
    ensures n in Taken(ModelDemands(m)) <==> || n == m.typeName || (n == m.typeName + "Create" && ("create" in m.ops || "update" in m.ops))
                                             || (n == m.typeName + "Update" && "update" in m.ops)
  {
    hide Taken;
    var a := [Name(m.typeName)];
    var b := if "create" in m.ops || "update" in m.ops then [Name(m.typeName + "Create")] else [];
    var c := if "update" in m.ops then [Name(m.typeName + "Update")] else [];
    NothingTaken();
    TakenOne(m.typeName);
    TakenOne(m.typeName + "Create");
    TakenOne(m.typeName + "Update");
    TakenAppend(a, b);
    TakenAppend(a + b, c);
  }

  predicate OpName(m: Model, op: string, n: string) { op in m.ops && n == CrudName(m, op) }

  lemma EnabledTakes(m: Model, n: string)
    ensures n in Taken(EnabledNames(m, CrudOps()))
            <==> OpName(m, "list", n) || OpName(m, "get", n) || OpName(m, "create", n) || OpName(m, "update", n) || OpName(m, "delete", n)
  {
    hide Taken, CrudName;
    var f := (op: string) => if op in m.ops then [Name(CrudName(m, op))] else [];
    TakenFlat(CrudOps(), f, n);
    NothingTaken();
    forall op ensures n in Taken(f(op)) <==> OpName(m, op, n) { TakenOne(CrudName(m, op)); }
    var ops := CrudOps();
    assert ops[0] == "list" && ops[1] == "get" && ops[2] == "create" && ops[3] == "update" && ops[4] == "delete";
  }

  lemma CrudTakes(m: Model, n: string)
    ensures n in Taken(CrudDemands(m))
            <==> n in Taken(EnabledNames(m, CrudOps())) || ("list" in m.ops && n == "use" + m.plural) || ("get" in m.ops && n == "use" + m.typeName)
  {
    hide Taken, EnabledNames;
    var a := EnabledNames(m, CrudOps());
    var b := if "list" in m.ops then [Name("use" + m.plural)] else [];
    var c := if "get" in m.ops then [Name("use" + m.typeName)] else [];
    NothingTaken();
    TakenOne("use" + m.plural);
    TakenOne("use" + m.typeName);
    TakenAppend(a, b);
    TakenAppend(a + b, c);
  }

  lemma ModelNamesExactly(m: Model, n: string)
    ensures n in Taken(ModelDemands(m)) || n in Taken(CrudDemands(m)) <==> ModelName(m, n)
  {
    hide Taken, ModelDemands, CrudDemands, EnabledNames;
    ModelTakes(m, n);
    CrudTakes(m, n);
    EnabledTakes(m, n);
  }

  lemma RouteTakes(r: Route, n: string)
    ensures n in Taken(RouteDemands(r)) <==> n == r.fn || n == r.hook
  {
    hide Taken;
    var a := if r.name != "" then [Body(r.request), Body(r.response)] else [Body(r.response)] + (if SendsBody(r) then [Body(r.request)] else []);
    BodiesTakeNothing(a);
    assert [Name(r.fn)] + [Name(r.hook)] == [Name(r.fn), Name(r.hook)];
    TakenOne(r.fn);
    TakenOne(r.hook);
    TakenAppend([Name(r.fn)], [Name(r.hook)]);
    TakenAppend(a, [Name(r.fn), Name(r.hook)]);
  }

  lemma {:induction false} BodiesTakeNothing(ds: seq<Demand>)
    requires forall i | 0 <= i < |ds| :: ds[i].Body?
    ensures Taken(ds) == []
    decreases |ds|
  {
    if ds != [] { BodiesTakeNothing(ds[..|ds| - 1]); }
  }

  lemma {:induction false} ActionsTakeNothing(actions: seq<Route>)
    ensures Taken(Flat(actions, ActionDemands)) == []
    decreases |actions|
  {
    hide Taken;
    if actions != [] {
      var k := |actions| - 1;
      ActionsTakeNothing(actions[..k]);
      TakenAppend(Flat(actions[..k], ActionDemands), ActionDemands(actions[k]));
      BodiesTakeNothing(ActionDemands(actions[k]));
    } else {
      NothingTaken();
    }
  }

  /** The names a client declares besides body types: its API object's, its models' and its functions' and hooks'. */
  lemma NamesExactly(input: Input, actions: seq<Route>, n: string)
    ensures n in Taken(Demands(input, actions))
            <==> || n == input.apiName || (exists m :: m in input.models && ModelName(m, n))
                 || exists r :: r in FunctionRoutes(input) && (n == r.fn || n == r.hook)
  {
    hide Taken, Models, FunctionRoutes, ModelDemands, CrudDemands, RouteDemands, Flat, ModelName;
    var a, b, c, d, e := [Name(input.apiName)], Flat(Models(input), ModelDemands), Flat(Models(input), CrudDemands),
                         Flat(FunctionRoutes(input), RouteDemands), Flat(actions, ActionDemands);
    TakenAppend(a + b + c + d, e);
    TakenAppend(a + b + c, d);
    TakenAppend(a + b, c);
    TakenAppend(a, b);
    TakenOne(input.apiName);
    ActionsTakeNothing(actions);
    TakenFlat(Models(input), ModelDemands, n);
    TakenFlat(Models(input), CrudDemands, n);
    TakenFlat(FunctionRoutes(input), RouteDemands, n);
    SameModels(input);
    forall m: Model ensures n in Taken(ModelDemands(m)) || n in Taken(CrudDemands(m)) <==> ModelName(m, n) { ModelNamesExactly(m, n); }
    forall r: Route ensures n in Taken(RouteDemands(r)) <==> n == r.fn || n == r.hook { RouteTakes(r, n); }
  }

  // ---------------------------------------------------------------- registered, with exactly its shape

  /** The registered shape of a name is the one its interface is declared with. */
  lemma ShapeDeclared(input: Input, actions: seq<Route>, c: Client, s: TypeDesc)
    requires Accepted(input, actions) && IsClient(input, actions, c) && s in Bodies(ModelNames(input), Demands(input, actions))
    ensures exists i :: 0 <= i < |c.interfaces| && c.interfaces[i] == Interface(s.name, Members(s.fields))
  {
    hide Bodies, Demands, FunctionRoutes, Signature, Entry, Reserved, Identifier, Taken, Members;
    var shapes := Bodies(ModelNames(input), Demands(input, actions));
    var i :| 0 <= i < |c.interfaces| && c.interfaces[i].name == s.name;
    assert DeclaredFrom(c.interfaces[i], shapes);
  }

  /** Every named object in the types that are rendered, also inside models' objects. */
  function AllBodies(models: set<string>, ds: seq<Demand>): set<TypeDesc> {
    if ds == [] then {}
    else AllBodies(models, ds[..|ds| - 1]) + (match ds[|ds| - 1] case Name(_) => {} case Body(d) => AllShapes(models, d))
  }

  /** Those inside models' objects. */
  function HiddenBodies(models: set<string>, ds: seq<Demand>): set<TypeDesc> {
    if ds == [] then {}
    else HiddenBodies(models, ds[..|ds| - 1]) + (match ds[|ds| - 1] case Name(_) => {} case Body(d) => Hidden(models, d))
  }

  lemma {:induction false} AllBodiesAre(models: set<string>, ds: seq<Demand>)
    ensures AllBodies(models, ds) == Bodies(models, ds) + HiddenBodies(models, ds)
    decreases |ds|
  {
    hide AllShapes, Shapes, Hidden;
    if ds != [] {
      AllBodiesAre(models, ds[..|ds| - 1]);
      if ds[|ds| - 1].Body? { AllObliged(models, ds[|ds| - 1].desc); }
    }
  }

  lemma {:induction false} AllBodiesFrom(models: set<string>, ds: seq<Demand>, s: TypeDesc)
    ensures s in AllBodies(models, ds) <==> exists d :: Body(d) in ds && s in AllShapes(models, d)
    decreases |ds|
  {
    hide AllShapes;
    if ds != [] {
      var k := |ds| - 1;
      AllBodiesFrom(models, ds[..k], s);
      assert ds == ds[..k] + [ds[k]];
      if s in AllBodies(models, ds) && !(ds[k].Body? && s in AllShapes(models, ds[k].desc)) {
        var d :| Body(d) in ds[..k] && s in AllShapes(models, d);
        assert Body(d) in ds;
      }
      if d :| Body(d) in ds && s in AllShapes(models, d) && !(ds[k] == Body(d)) {
        assert Body(d) in ds[..k];
      }
    }
  }

  /**
   Every named object in every rendered type is registered with its shape exactly when
   those inside models' objects are also met outside one, in this type or another.
   */
  lemma RegisteredExactly(input: Input, actions: seq<Route>)
    ensures var models, ds := ModelNames(input), Demands(input, actions);
            (forall d, s | Body(d) in ds && s in AllShapes(models, d) :: s in Bodies(models, ds))
            <==> HiddenBodies(models, ds) <= Bodies(models, ds)
  {
    hide Demands, AllShapes, Bodies, HiddenBodies, AllBodies, ModelNames;
    var models, ds := ModelNames(input), Demands(input, actions);
    AllBodiesAre(models, ds);
    if HiddenBodies(models, ds) <= Bodies(models, ds) {
      forall d, s | Body(d) in ds && s in AllShapes(models, d) ensures s in Bodies(models, ds) { AllBodiesFrom(models, ds, s); }
    }
    if forall d, s | Body(d) in ds && s in AllShapes(models, d) :: s in Bodies(models, ds) {
      forall s | s in HiddenBodies(models, ds) ensures s in Bodies(models, ds) {
        AllBodiesFrom(models, ds, s);
        var d :| Body(d) in ds && s in AllShapes(models, d);
      }
    }
  }

  const ADDRESS := TypeDesc(ObjectKind, "Address", None, [], false)
  const CONTACT := TypeDesc(ObjectKind, "Contact", None, [FieldDesc("address", ADDRESS, false)], false)
  const CONTACT_MODEL := Model("c.contact", "Contact", "Contacts", [], {})
  const CONTACT_ROUTE := Route("GET", "/c", "", "", "", "", false, None, Some(CONTACT), false, "getC", "useGetC", [])

  /** A module with a model and a route that returns its record. */
  const CONTACTS := Input("cApi", [CONTACT_MODEL], [CONTACT_ROUTE])

  lemma ContactsDemands()
    ensures Demands(CONTACTS, []) == [Name("cApi"), Name("Contact"), Body(Some(CONTACT)), Name("getC"), Name("useGetC")]
    ensures FunctionRoutes(CONTACTS) == [CONTACT_ROUTE]
  {
    SortOne([CONTACT_MODEL], ModelLeq);
    var p := (r: Route) => GetsFunction(CONTACTS, r);
    assert CONTACT_ROUTE.name !in CrudOps();
    assert [CONTACT_ROUTE][..0] == [];
    assert Kept([CONTACT_ROUTE], p) == Kept([CONTACT_ROUTE][..0], p) + [CONTACT_ROUTE];
    SortOne([CONTACT_ROUTE], RouteLeq);
    FlatOne(CONTACT_MODEL, ModelDemands);
    FlatOne(CONTACT_MODEL, CrudDemands);
    FlatOne(CONTACT_ROUTE, RouteDemands);
    NoCrud(CONTACT_MODEL);
  }

  lemma SortOne<T>(xs: seq<T>, le: (T, T) -> bool)
    requires |xs| == 1
    ensures Sort(xs, le) == xs
  {
    assert xs[..0] == [];
    assert Sort(xs, le) == Insert(xs[0], Sort(xs[..0], le), le);
  }

  lemma FlatOne<T>(x: T, f: T -> seq<Demand>)
    ensures Flat([x], f) == f(x)
  {
    assert [x][..0] == [];
    assert Flat([x], f) == Flat([x][..0], f) + f(x);
  }

  lemma NoCrud(m: Model)
    requires m.ops == {}
    ensures CrudDemands(m) == []
  {
    NoneEnabled(m, CrudOps());
  }

  lemma {:induction false} NoneEnabled(m: Model, ops: seq<string>)
    requires m.ops == {}
    ensures EnabledNames(m, ops) == []
    decreases |ops|
  {
    if ops != [] { NoneEnabled(m, ops[..|ops| - 1]); }
  }

  lemma ContactsGood()
    ensures Good({"Contact"}, [Name("cApi"), Name("Contact"), Body(Some(CONTACT)), Name("getC"), Name("useGetC")])
    ensures Bodies({"Contact"}, [Name("cApi"), Name("Contact"), Body(Some(CONTACT)), Name("getC"), Name("useGetC")]) == {}
  {
    var models := {"Contact"};
    assert Shapes(models, Some(CONTACT)) == {};
    ContactNames();
    NoDemands(models);
    hide Good, Reserved, Identifier, Bodies, Taken, Shapes;
    var a := [] + [Name("cApi")];
    GoodName(models, [], "cApi");
    var b := a + [Name("Contact")];
    GoodName(models, a, "Contact");
    var c := b + [Body(Some(CONTACT))];
    GoodBody(models, b, Some(CONTACT));
    NothingObliged(models, b);
    assert Bodies(models, b) + {} == Bodies(models, b);
    var d := c + [Name("getC")];
    GoodName(models, c, "getC");
    var e := d + [Name("useGetC")];
    GoodName(models, d, "useGetC");
    assert e == [Name("cApi"), Name("Contact"), Body(Some(CONTACT)), Name("getC"), Name("useGetC")];
  }

  lemma NoDemands(models: set<string>)
    ensures Good(models, []) && Taken([]) == [] && Bodies(models, []) == {}
  {
  }

  lemma NothingObliged(models: set<string>, ds: seq<Demand>)
    requires Good(models, ds)
    ensures Coherent(SetOf(Reserved()) + SetOf(Taken(ds)), Bodies(models, ds))
  {
  }

  lemma ContactNames()
    ensures forall n | n in ["cApi", "Contact", "getC", "useGetC"] :: Identifier(n) && n !in Reserved()
  {
  }

  lemma ContactsAccepted()
    ensures ActionsOf(CONTACTS.routes, []) && ModelNames(CONTACTS) == {"Contact"} && ActionNamesAgree(CONTACTS.routes)
    ensures ReadKeysFit(CONTACT_MODEL) && RouteFits(CONTACT_ROUTE)
  {
    assert !Callable(CONTACT_ROUTE);
    assert CONTACTS.models[0] == CONTACT_MODEL;
  }

  lemma AddressInside()
    ensures ADDRESS in AllShapes({"Contact"}, Some(CONTACT))
  {
    var fields := CONTACT.fields;
    assert fields[..0] == [];
    assert AllFieldShapes({"Contact"}, fields) == AllFieldShapes({"Contact"}, fields[..0]) + AllShapes({"Contact"}, Some(ADDRESS));
  }

  /** The record's own address type is rendered nowhere, so a client is generated that does not declare it. */
  lemma ModelHides()
    ensures ActionsOf(CONTACTS.routes, []) && Accepted(CONTACTS, []) && Body(Some(CONTACT)) in Demands(CONTACTS, [])
    ensures ADDRESS in AllShapes(ModelNames(CONTACTS), Some(CONTACT))
    ensures ADDRESS !in Bodies(ModelNames(CONTACTS), Demands(CONTACTS, []))
  {
    hide *;
    ContactsDemands();
    ContactsGood();
    ContactsAccepted();
    AddressInside();
    assert Demands(CONTACTS, [])[2] == Body(Some(CONTACT));
    ContactsAccept();
  }

  lemma ContactsAccept()
    requires Demands(CONTACTS, []) == [Name("cApi"), Name("Contact"), Body(Some(CONTACT)), Name("getC"), Name("useGetC")]
    requires FunctionRoutes(CONTACTS) == [CONTACT_ROUTE] && ModelNames(CONTACTS) == {"Contact"} && ActionNamesAgree(CONTACTS.routes)
    requires ReadKeysFit(CONTACT_MODEL) && RouteFits(CONTACT_ROUTE) && Good({"Contact"}, Demands(CONTACTS, []))
    ensures Accepted(CONTACTS, [])
  {
    hide Good, Demands, FunctionRoutes, ModelNames, ActionNamesAgree, ReadKeysFit, RouteFits;
  }
}
