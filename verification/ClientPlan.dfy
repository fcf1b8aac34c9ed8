/**
 What a module's models and routes ask of its generated client: names to declare and body
 types to render, pass by pass, and when they can all be had together.
 */
module ClientPlan {
  import opened Basics
  import opened Ordering
  import opened TypeShapes

  datatype Field = Field(name: string, kind: string, readKey: string)

  /** `typeName` and `plural` are the identifiers derived from the model's name and label. */
  datatype Model = Model(name: string, typeName: string, plural: string, fields: seq<Field>, ops: set<string>)

  /** `fn`, `hook` and `params` are the identifiers derived from the action name or the path. */
  datatype Route = Route(verb: string, path: string, model: string, name: string, scope: string, crudAction: string, channel: bool,
                         request: Option<TypeDesc>, response: Option<TypeDesc>, list: bool,
                         fn: string, hook: string, params: seq<string>)

  datatype Input = Input(apiName: string, models: seq<Model>, routes: seq<Route>)

  // ---------------------------------------------------------------- demands

  datatype Demand = Name(name: string) | Body(desc: Option<TypeDesc>)

  function Taken(ds: seq<Demand>): seq<string> {
    if ds == [] then []
    else Taken(ds[..|ds| - 1]) + (match ds[|ds| - 1] case Name(n) => [n] case Body(_) => [])
  }

  function Bodies(models: set<string>, ds: seq<Demand>): set<TypeDesc> {
    if ds == [] then {}
    else Bodies(models, ds[..|ds| - 1]) + (match ds[|ds| - 1] case Name(_) => {} case Body(d) => Shapes(models, d))
  }

  function Reserved(): seq<string> {
    ["apiClient", "resourceApi", "callAction", "toPagedResponse", "ListParams", "PagedResponse", "PagedResponseWire",
     "useRecord", "useInfiniteList", "useAction", "UseRecordOptions", "UseInfiniteListOptions", "ActionOptions",
     "useQuery", "useMutation", "UseQueryOptions", "UseMutationOptions"]
  }

  function SetOf(xs: seq<string>): set<string> { set x | x in xs }

  /**
   Demands that can be met together, in whatever order they come: no name twice, none
   reserved or malformed, one shape under each body type's name, and no such name taken.
   */
  ghost predicate Good(models: set<string>, ds: seq<Demand>) {
    && Distinct(Taken(ds))
    && (forall n | n in Taken(ds) :: Identifier(n) && n !in Reserved())
    && Coherent(SetOf(Reserved()) + SetOf(Taken(ds)), Bodies(models, ds))
  }

  lemma GoodName(models: set<string>, ds: seq<Demand>, name: string)
    requires Good(models, ds)
    ensures Good(models, ds + [Name(name)])
            <==> Identifier(name) && name !in Reserved() && name !in Taken(ds) && name !in NamesOf(Bodies(models, ds))
    ensures Taken(ds + [Name(name)]) == Taken(ds) + [name] && Bodies(models, ds + [Name(name)]) == Bodies(models, ds)
    ensures SetOf(Taken(ds + [Name(name)])) == SetOf(Taken(ds)) + {name}
  {
    var more := ds + [Name(name)];
    assert more[..|ds|] == ds;
    assert Taken(more) == Taken(ds) + [name] && Bodies(models, more) == Bodies(models, ds);
    hide Bodies, Taken, Reserved, Identifier;
    DistinctNext(Taken(ds), name);
    var bodies := Bodies(models, ds);
    if Good(models, more) {
      forall s | s in bodies ensures s.name != name { assert name in SetOf(Taken(more)); }
    }
    if name !in NamesOf(bodies) {
      forall s | s in bodies ensures s.name != name { assert s.name in NamesOf(bodies); }
    }
  }

  lemma DistinctNext(xs: seq<string>, x: string)
    requires Distinct(xs)
    ensures Distinct(xs + [x]) <==> x !in xs
  {
    if x in xs {
      var i :| 0 <= i < |xs| && xs[i] == x;
      assert (xs + [x])[i] == (xs + [x])[|xs|];
    }
  }

  lemma GoodBody(models: set<string>, ds: seq<Demand>, d: Option<TypeDesc>)
    requires Good(models, ds)
    ensures Good(models, ds + [Body(d)])
            <==> Coherent(SetOf(Reserved()) + SetOf(Taken(ds)), Bodies(models, ds) + Shapes(models, d))
    ensures Taken(ds + [Body(d)]) == Taken(ds) && Bodies(models, ds + [Body(d)]) == Bodies(models, ds) + Shapes(models, d)
  {
    assert (ds + [Body(d)])[..|ds|] == ds;
    hide Reserved, Coherent, Identifier;
  }

  lemma {:induction false} TakenAppend(a: seq<Demand>, b: seq<Demand>)
    ensures Taken(a + b) == Taken(a) + Taken(b)
    decreases |b|
  {
    if b == [] {
      assert a + b == a;
    } else {
      TakenAppend(a, b[..|b| - 1]);
      assert (a + b)[..|a + b| - 1] == a + b[..|b| - 1] && (a + b)[|a + b| - 1] == b[|b| - 1];
    }
  }

  lemma {:induction false} BodiesAppend(models: set<string>, a: seq<Demand>, b: seq<Demand>)
    ensures Bodies(models, a + b) == Bodies(models, a) + Bodies(models, b)
    decreases |b|
  {
    if b == [] {
      assert a + b == a;
    } else {
      BodiesAppend(models, a, b[..|b| - 1]);
      assert (a + b)[..|a + b| - 1] == a + b[..|b| - 1] && (a + b)[|a + b| - 1] == b[|b| - 1];
    }
  }

  /** Demands that fail fail with more demands behind them. */
  lemma GoodPrefix(models: set<string>, a: seq<Demand>, b: seq<Demand>)
    ensures Good(models, a + b) ==> Good(models, a)
  {
    TakenAppend(a, b);
    BodiesAppend(models, a, b);
    hide Taken, Bodies, Reserved, Identifier;
    if Good(models, a + b) {
      var t := Taken(a + b);
      forall i, j | 0 <= i < j < |Taken(a)| ensures Taken(a)[i] != Taken(a)[j] { assert t[i] == Taken(a)[i] && t[j] == Taken(a)[j]; }
    }
  }

  // ---------------------------------------------------------------- lists of demands

  function Flat<T>(xs: seq<T>, f: T -> seq<Demand>): seq<Demand> {
    if xs == [] then [] else Flat(xs[..|xs| - 1], f) + f(xs[|xs| - 1])
  }

  lemma FlatNext<T>(xs: seq<T>, i: nat, f: T -> seq<Demand>)
    requires i < |xs|
    ensures Flat(xs[..i + 1], f) == Flat(xs[..i], f) + f(xs[i])
  {
    assert xs[..i + 1][..i] == xs[..i];
  }

  lemma {:induction false} FlatPrefix<T>(models: set<string>, base: seq<Demand>, xs: seq<T>, i: nat, f: T -> seq<Demand>)
    requires i <= |xs| && Good(models, base + Flat(xs, f))
    ensures Good(models, base + Flat(xs[..i], f))
    decreases |xs| - i
  {
    hide Good, Flat;
    if i == |xs| {
      assert xs[..i] == xs;
    } else {
      FlatPrefix(models, base, xs, i + 1, f);
      FlatNext(xs, i, f);
      assert base + Flat(xs[..i + 1], f) == (base + Flat(xs[..i], f)) + f(xs[i]);
      GoodPrefix(models, base + Flat(xs[..i], f), f(xs[i]));
    }
  }

  // ---------------------------------------------------------------- what each pass asks

  function ModelDemands(m: Model): seq<Demand> {
    [Name(m.typeName)]
    + (if "create" in m.ops || "update" in m.ops then [Name(m.typeName + "Create")] else [])
    + (if "update" in m.ops then [Name(m.typeName + "Update")] else [])
  }

  /** A field whose related records come expanded needs a response key of its own. */
  predicate ReadKeysFit(m: Model) {
    forall i | 0 <= i < |m.fields| && (m.fields[i].kind == "file" || m.fields[i].kind == "file_multi" || m.fields[i].kind == "many2many") ::
      m.fields[i].readKey != "" && forall k | 0 <= k < |m.fields| :: m.fields[k].name != m.fields[i].readKey
  }

  function CrudOps(): seq<string> { ["list", "get", "create", "update", "delete"] }

  function CrudName(m: Model, op: string): string { op + (if op == "list" then m.plural else m.typeName) }

  function EnabledNames(m: Model, ops: seq<string>): seq<Demand> {
    Flat(ops, (op: string) => if op in m.ops then [Name(CrudName(m, op))] else [])
  }

  function CrudDemands(m: Model): seq<Demand> {
    EnabledNames(m, CrudOps())
    + (if "list" in m.ops then [Name("use" + m.plural)] else [])
    + (if "get" in m.ops then [Name("use" + m.typeName)] else [])
  }

  predicate SendsBody(r: Route) { r.verb == "POST" || r.verb == "PUT" || r.verb == "PATCH" }

  function RouteDemands(r: Route): seq<Demand> {
    (if r.name != "" then [Body(r.request), Body(r.response)]
     else [Body(r.response)] + (if SendsBody(r) then [Body(r.request)] else []))
    + [Name(r.fn), Name(r.hook)]
  }

  /** The parameter names of a raw route, suffixed where the function needs the name itself. */
  predicate ParamsFit(params: seq<string>, used: set<string>) {
    params == []
    || var p := if params[0] in used then params[0] + "Param" else params[0];
       p !in used && ParamsFit(params[1..], used + {p})
  }

  predicate RouteFits(r: Route) {
    r.name != "" || ((r.verb == "GET" || r.verb == "DELETE" || SendsBody(r)) && ParamsFit(r.params, {"body", "params", "options"}))
  }

  function ActionDemands(r: Route): seq<Demand> { [Body(r.request), Body(r.response)] }

  // ---------------------------------------------------------------- orders

  type Key = (string, string, string)

  predicate KeyLeq(a: Key, b: Key) {
    if a.0 != b.0 then Leq(a.0, b.0) else if a.1 != b.1 then Leq(a.1, b.1) else Leq(a.2, b.2)
  }

  lemma KeyTotal(a: Key, b: Key, c: Key)
    ensures KeyLeq(a, b) || KeyLeq(b, a)
    ensures KeyLeq(a, b) && KeyLeq(b, c) ==> KeyLeq(a, c)
  {
    StringsOrdered();
    hide Leq;
  }

  function RouteKey(r: Route): Key {
    if r.name != "" then ("action", r.model, r.name) else ("raw", r.path, r.verb)
  }

  predicate RouteLeq(a: Route, b: Route) { KeyLeq(RouteKey(a), RouteKey(b)) }

  function ActionKey(r: Route): Key { (r.name, r.model, "") }

  predicate ActionLeq(a: Route, b: Route) { KeyLeq(ActionKey(a), ActionKey(b)) }

  predicate ModelLeq(a: Model, b: Model) { Leq(a.name, b.name) }

  lemma RoutesOrdered()
    ensures Total(RouteLeq) && Total(ActionLeq)
  {
    hide KeyLeq;
    forall x: Route, y: Route, z: Route
      ensures (RouteLeq(x, y) || RouteLeq(y, x)) && (RouteLeq(x, y) && RouteLeq(y, z) ==> RouteLeq(x, z))
      ensures (ActionLeq(x, y) || ActionLeq(y, x)) && (ActionLeq(x, y) && ActionLeq(y, z) ==> ActionLeq(x, z))
    {
      KeyTotal(RouteKey(x), RouteKey(y), RouteKey(z));
      KeyTotal(ActionKey(x), ActionKey(y), ActionKey(z));
    }
  }

  // ---------------------------------------------------------------- the whole plan

  function Models(input: Input): seq<Model> { Sort(input.models, ModelLeq) }

  function ModelNames(input: Input): set<string> { set m | m in input.models :: m.typeName }

  /** Whether a route gets a function: it is no channel, transition, preview, pivot or covered CRUD override. */
  predicate GetsFunction(input: Input, r: Route) {
    && !r.channel && r.crudAction != "workflow_transition" && r.name != "preview" && r.name != "pivot"
    && !(r.name in CrudOps() && exists m | m in input.models :: m.name == r.model && r.name in m.ops)
  }

  function Kept<T>(xs: seq<T>, p: T -> bool): seq<T> {
    if xs == [] then [] else Kept(xs[..|xs| - 1], p) + (if p(xs[|xs| - 1]) then [xs[|xs| - 1]] else [])
  }

  function FunctionRoutes(input: Input): seq<Route> {
    Sort(Kept(input.routes, (r: Route) => GetsFunction(input, r)), RouteLeq)
  }

  /** One name, one model: an action is called by its name alone. */
  predicate ActionNamesAgree(routes: seq<Route>) {
    forall i, j | 0 <= i < |routes| && 0 <= j < |routes| && routes[i].name != "" && routes[i].name == routes[j].name ::
      routes[i].model == routes[j].model
  }

  // The route an action name stands for: its first route that is no workflow transition,
  // or else its last transition.

  predicate Callable(r: Route) { r.name != "" && !r.channel }

  predicate Transition(r: Route) { r.crudAction == "workflow_transition" }

  predicate StandsFor(routes: seq<Route>, name: string, k: nat)
    requires k < |routes|
  {
    && Callable(routes[k]) && routes[k].name == name
    && (if Transition(routes[k])
        then forall i | 0 <= i < |routes| && Callable(routes[i]) && routes[i].name == name :: Transition(routes[i]) && i <= k
        else forall i | 0 <= i < k && Callable(routes[i]) && routes[i].name == name :: Transition(routes[i]))
  }

  lemma StandsForOne(routes: seq<Route>, name: string, a: nat, b: nat)
    requires a < |routes| && b < |routes| && StandsFor(routes, name, a) && StandsFor(routes, name, b)
    ensures a == b
  {
  }

  ghost predicate ChosenFor(routes: seq<Route>, name: string, r: Route) {
    exists k: nat :: k < |routes| && routes[k] == r && StandsFor(routes, name, k)
  }

  /** The actions of the registry, in the order of their names. */
  ghost predicate ActionsOf(routes: seq<Route>, actions: seq<Route>) {
    && (forall i, j | 0 <= i < j < |actions| :: actions[i].name != actions[j].name && Leq(actions[i].name, actions[j].name))
    && (forall i | 0 <= i < |actions| :: ChosenFor(routes, actions[i].name, actions[i]))
    && forall k | 0 <= k < |routes| && Callable(routes[k]) :: exists i :: 0 <= i < |actions| && actions[i].name == routes[k].name
  }

  function Demands(input: Input, actions: seq<Route>): seq<Demand> {
    [Name(input.apiName)] + Flat(Models(input), ModelDemands) + Flat(Models(input), CrudDemands)
    + Flat(FunctionRoutes(input), RouteDemands) + Flat(actions, ActionDemands)
  }

  /** When a client can be generated. */
  ghost predicate Accepted(input: Input, actions: seq<Route>) {
    && ActionNamesAgree(input.routes)
    && (forall m | m in input.models :: ReadKeysFit(m))
    && (forall r | r in FunctionRoutes(input) :: RouteFits(r))
    && Good(ModelNames(input), Demands(input, actions))
  }
}
