/** The generator's passes over models and routes, and the client they make. */
module ClientRun {
  import opened Basics
  import opened Ordering
  import opened TypeShapes
  import opened TypeClosure
  import opened ClientPlan

  /** A function and its hook: whether it takes a record's ID, the body it takes, and what it returns, or pages of. */
  datatype Function = Function(name: string, hook: string, takesId: bool, request: Option<Ts>, response: Ts, paged: bool)

  datatype Action = Action(name: string, takesId: bool, request: Option<Ts>, response: Ts, paged: bool)

  datatype Interface = Interface(name: string, members: seq<TsMember>)

  datatype Client = Client(functions: seq<Function>, actions: seq<Action>, interfaces: seq<Interface>)

  // ---------------------------------------------------------------- one demand

  /** The generator has met these demands and no others. */
  ghost predicate Met(g: Generator, ds: seq<Demand>)
    reads g
  {
    && g.Valid({}) && Good(g.models, ds)
    && g.taken == SetOf(Reserved()) + SetOf(Taken(ds)) && g.shapes == Bodies(g.models, ds)
  }

  method Take(g: Generator, name: string, origin: string, ghost ds: seq<Demand>) returns (ok: bool)
    requires Met(g, ds)
    modifies g`names, g`taken
    ensures ok <==> Good(g.models, ds + [Name(name)])
    ensures ok ==> Met(g, ds + [Name(name)])
  {
    hide Good, Coherent, FieldShapes, Identifier, Reserved, Taken, Bodies;
    GoodName(g.models, ds, name);
    assert name in SetOf(Reserved()) <==> name in Reserved();
    assert name in SetOf(Taken(ds)) <==> name in Taken(ds);
    ok := g.Claim(name, origin);
  }

  method TsType(g: Generator, d: Option<TypeDesc>, origin: string, ghost ds: seq<Demand>) returns (r: Option<Ts>)
    requires Met(g, ds) && g.modelTypes == g.models
    modifies g`names, g`bodyTypes, g`bodyOrigin, g`shapes
    ensures r.Some? <==> Good(g.models, ds + [Body(d)])
    ensures r.Some? ==> r.value == Rendered(d) && Met(g, ds + [Body(d)])
  {
    hide Good, Coherent, RegistryOk, FieldShapes, Identifier, Reserved, Taken, Bodies, Rendered, Shapes;
    GoodBody(g.models, ds, d);
    r := g.RenderType(d, origin, {});
  }

  lemma Fails(models: set<string>, ds: seq<Demand>, part: seq<Demand>, all: seq<Demand>)
    requires !Good(models, ds + part) && part <= all
    ensures !Good(models, ds + all)
  {
    hide Good;
    assert ds + all == (ds + part) + all[|part|..];
    GoodPrefix(models, ds + part, all[|part|..]);
  }

  // ---------------------------------------------------------------- models

  /** Declare a model's types. */
  method RenderModelTypes(g: Generator, m: Model, ghost ds: seq<Demand>) returns (ok: bool)
    requires Met(g, ds) && m.typeName in g.models
    modifies g`names, g`taken, g`modelTypes
    ensures ok <==> ReadKeysFit(m) && Good(g.models, ds + ModelDemands(m))
    ensures ok ==> Met(g, ds + ModelDemands(m)) && g.modelTypes == old(g.modelTypes) + {m.typeName}
  {
    hide Good, Bodies, Taken, Reserved, RegistryOk, ReadKeysFit, NamesOf, Identifier;
    ghost var all, part := ModelDemands(m), [Name(m.typeName)];
    ok := Take(g, m.typeName, "model " + m.name, ds);
    if !ok { Fails(g.models, ds, part, all); return false; }
    g.modelTypes := g.modelTypes + {m.typeName};
    ok := ReadKeysFitted(m);
    if !ok { return false; }
    if "create" in m.ops || "update" in m.ops {
      ok := Take(g, m.typeName + "Create", "model " + m.name, ds + part);
      Grouped(ds, part, Name(m.typeName + "Create"));
      part := part + [Name(m.typeName + "Create")];
      if !ok { Fails(g.models, ds, part, all); return false; }
      if "update" in m.ops {
        ok := Take(g, m.typeName + "Update", "model " + m.name, ds + part);
        Grouped(ds, part, Name(m.typeName + "Update"));
        part := part + [Name(m.typeName + "Update")];
        if !ok { Fails(g.models, ds, part, all); return false; }
      }
    }
    assert part == all;
  }

  lemma Grouped(ds: seq<Demand>, part: seq<Demand>, d: Demand)
    ensures (ds + part) + [d] == ds + (part + [d])
  {
  }

  method ReadKeysFitted(m: Model) returns (ok: bool)
    ensures ok <==> ReadKeysFit(m)
  {
    for i := 0 to |m.fields|
      invariant forall q | 0 <= q < i && (m.fields[q].kind == "file" || m.fields[q].kind == "file_multi" || m.fields[q].kind == "many2many") ::
                  m.fields[q].readKey != "" && forall k | 0 <= k < |m.fields| :: m.fields[k].name != m.fields[q].readKey
    {
      var f := m.fields[i];
      if f.kind == "file" || f.kind == "file_multi" || f.kind == "many2many" {
        if f.readKey == "" || exists k | 0 <= k < |m.fields| :: m.fields[k].name == f.readKey {
          return false;
        }
      }
    }
    return true;
  }

  /** Plan a model's CRUD functions and hooks. */
  method PlanCrud(g: Generator, m: Model, ghost ds: seq<Demand>) returns (ok: bool)
    requires Met(g, ds)
    modifies g`names, g`taken
    ensures ok <==> Good(g.models, ds + CrudDemands(m))
    ensures ok ==> Met(g, ds + CrudDemands(m))
  {
    hide Good, Bodies, Taken, Reserved, RegistryOk, NamesOf, Identifier, CrudOps;
    ghost var all := CrudDemands(m);
    ok := PlanCrudNames(g, m, ds);
    ghost var part := EnabledNames(m, CrudOps());
    if !ok { Fails(g.models, ds, part, all); return false; }
    if "list" in m.ops {
      ok := Take(g, "use" + m.plural, "EnableOps list on " + m.name, ds + part);
      Grouped(ds, part, Name("use" + m.plural));
      part := part + [Name("use" + m.plural)];
      if !ok { Fails(g.models, ds, part, all); return false; }
    }
    if "get" in m.ops {
      ok := Take(g, "use" + m.typeName, "EnableOps get on " + m.name, ds + part);
      Grouped(ds, part, Name("use" + m.typeName));
      part := part + [Name("use" + m.typeName)];
      if !ok { Fails(g.models, ds, part, all); return false; }
    }
    assert part == all;
  }

  method PlanCrudNames(g: Generator, m: Model, ghost ds: seq<Demand>) returns (ok: bool)
    requires Met(g, ds)
    modifies g`names, g`taken
    ensures ok <==> Good(g.models, ds + EnabledNames(m, CrudOps()))
    ensures ok ==> Met(g, ds + EnabledNames(m, CrudOps()))
  {
    hide Good, Bodies, Taken, Reserved, RegistryOk, NamesOf, Identifier;
    var ops := CrudOps();
    ghost var f := (op: string) => if op in m.ops then [Name(CrudName(m, op))] else [];
    assert ds + Flat(ops[..0], f) == ds;
    for i := 0 to |ops|
      invariant Met(g, ds + Flat(ops[..i], f))
    {
      FlatNext(ops, i, f);
      if ops[i] in m.ops {
        ok := Take(g, CrudName(m, ops[i]), "EnableOps " + ops[i] + " on " + m.name, ds + Flat(ops[..i], f));
        Grouped(ds, Flat(ops[..i], f), Name(CrudName(m, ops[i])));
        if !ok {
          if Good(g.models, ds + Flat(ops, f)) { FlatPrefix(g.models, ds, ops, i + 1, f); }
          return false;
        }
      } else {
        assert Flat(ops[..i], f) + [] == Flat(ops[..i], f);
      }
    }
    assert ops[..|ops|] == ops;
    return true;
  }

  method RenderModels(g: Generator, models: seq<Model>, ghost ds: seq<Demand>) returns (ok: bool)
    requires Met(g, ds) && forall m | m in models :: m.typeName in g.models
    modifies g`names, g`taken, g`modelTypes
    ensures ok <==> (forall m | m in models :: ReadKeysFit(m)) && Good(g.models, ds + Flat(models, ModelDemands))
    ensures ok ==> Met(g, ds + Flat(models, ModelDemands))
    ensures ok ==> g.modelTypes == old(g.modelTypes) + set m | m in models :: m.typeName
  {
    hide Good, Met, ReadKeysFit, ModelDemands;
    MetGood(g, ds);
    assert ds + Flat(models[..0], ModelDemands) == ds;
    for i := 0 to |models|
      invariant Met(g, ds + Flat(models[..i], ModelDemands))
      invariant forall k | 0 <= k < i :: ReadKeysFit(models[k])
      invariant g.modelTypes == old(g.modelTypes) + set m | m in models[..i] :: m.typeName
    {
      FlatNext(models, i, ModelDemands);
      ghost var part := ds + Flat(models[..i], ModelDemands);
      ok := RenderModelTypes(g, models[i], part);
      assert part + ModelDemands(models[i]) == ds + Flat(models[..i + 1], ModelDemands);
      if !ok {
        if Good(g.models, ds + Flat(models, ModelDemands)) { FlatPrefix(g.models, ds, models, i + 1, ModelDemands); }
        return false;
      }
      assert models[..i + 1] == models[..i] + [models[i]];
    }
    assert models[..|models|] == models;
    MetGood(g, ds + Flat(models, ModelDemands));
    return true;
  }

  lemma MetGood(g: Generator, ds: seq<Demand>)
    requires Met(g, ds)
    ensures Good(g.models, ds)
  {
  }

  method PlanModels(g: Generator, models: seq<Model>, ghost ds: seq<Demand>) returns (ok: bool)
    requires Met(g, ds)
    modifies g`names, g`taken
    ensures ok <==> Good(g.models, ds + Flat(models, CrudDemands))
    ensures ok ==> Met(g, ds + Flat(models, CrudDemands))
  {
    hide Good, Met, CrudDemands;
    assert ds + Flat(models[..0], CrudDemands) == ds;
    for i := 0 to |models|
      invariant Met(g, ds + Flat(models[..i], CrudDemands))
    {
      FlatNext(models, i, CrudDemands);
      ghost var part := ds + Flat(models[..i], CrudDemands);
      ok := PlanCrud(g, models[i], part);
      assert part + CrudDemands(models[i]) == ds + Flat(models[..i + 1], CrudDemands);
      if !ok {
        if Good(g.models, ds + Flat(models, CrudDemands)) { FlatPrefix(g.models, ds, models, i + 1, CrudDemands); }
        return false;
      }
    }
    assert models[..|models|] == models;
    MetGood(g, ds + Flat(models, CrudDemands));
    return true;
  }

  // ---------------------------------------------------------------- routes

  /** The function and hook of a route. */
  function Signature(r: Route): Function {
    Function(r.fn, r.hook, r.name != "" && r.scope != "collection",
             if (if r.name != "" then r.request.Some? else SendsBody(r)) then Some(Rendered(r.request)) else None,
             Rendered(r.response), r.list)
  }

  method PlanAction(g: Generator, r: Route, ghost ds: seq<Demand>) returns (f: Option<Function>)
    requires Met(g, ds) && g.modelTypes == g.models && r.name != ""
    modifies g`names, g`taken, g`bodyTypes, g`bodyOrigin, g`shapes
    ensures f.Some? <==> Good(g.models, ds + RouteDemands(r))
    ensures f.Some? ==> f.value == Signature(r) && Met(g, ds + RouteDemands(r))
  {
    hide Good, Met, Rendered;
    ghost var all, part := RouteDemands(r), [Body(r.request)];
    var origin := "action " + r.name + " on " + r.model;
    var req := TsType(g, r.request, origin, ds);
    if req.None? { Fails(g.models, ds, part, all); return None; }
    var res := TsType(g, r.response, origin, ds + part);
    Grouped(ds, part, Body(r.response));
    part := part + [Body(r.response)];
    if res.None? { Fails(g.models, ds, part, all); return None; }
    var ok := TakeBoth(g, r, origin, ds + part);
    assert (ds + part) + [Name(r.fn), Name(r.hook)] == ds + all;
    if !ok { return None; }
    return Some(Function(r.fn, r.hook, r.scope != "collection", if r.request.Some? then req else None, res.value, r.list));
  }

  method TakeBoth(g: Generator, r: Route, origin: string, ghost ds: seq<Demand>) returns (ok: bool)
    requires Met(g, ds)
    modifies g`names, g`taken
    ensures ok <==> Good(g.models, ds + [Name(r.fn), Name(r.hook)])
    ensures ok ==> Met(g, ds + [Name(r.fn), Name(r.hook)])
  {
    hide Good, Met;
    ok := Take(g, r.fn, origin, ds);
    if !ok { Fails(g.models, ds, [Name(r.fn)], [Name(r.fn), Name(r.hook)]); return false; }
    ok := Take(g, r.hook, origin, ds + [Name(r.fn)]);
    assert (ds + [Name(r.fn)]) + [Name(r.hook)] == ds + [Name(r.fn), Name(r.hook)];
  }

  method PlanRaw(g: Generator, r: Route, ghost ds: seq<Demand>) returns (f: Option<Function>)
    requires Met(g, ds) && g.modelTypes == g.models && r.name == ""
    modifies g`names, g`taken, g`bodyTypes, g`bodyOrigin, g`shapes
    ensures f.Some? <==> RouteFits(r) && Good(g.models, ds + RouteDemands(r))
    ensures f.Some? ==> f.value == Signature(r) && Met(g, ds + RouteDemands(r))
  {
    hide Good, Met, Rendered, ParamsFit;
    ghost var all, part := RouteDemands(r), [Body(r.response)];
    var origin := r.verb + " " + r.path;
    if !ParamsFit(r.params, {"body", "params", "options"}) {
      return None;
    }
    var res := TsType(g, r.response, origin, ds);
    if res.None? { Fails(g.models, ds, part, all); return None; }
    var req: Option<Ts> := None;
    if SendsBody(r) {
      req := TsType(g, r.request, origin, ds + part);
      Grouped(ds, part, Body(r.request));
      part := part + [Body(r.request)];
      if req.None? { Fails(g.models, ds, part, all); return None; }
    } else if r.verb != "GET" && r.verb != "DELETE" {
      return None;
    }
    var ok := TakeBoth(g, r, origin, ds + part);
    assert (ds + part) + [Name(r.fn), Name(r.hook)] == ds + all;
    if !ok { return None; }
    return Some(Function(r.fn, r.hook, false, req, res.value, r.list));
  }

  method PlanRoutes(g: Generator, routes: seq<Route>, ghost ds: seq<Demand>) returns (fs: Option<seq<Function>>)
    requires Met(g, ds) && g.modelTypes == g.models
    modifies g`names, g`taken, g`bodyTypes, g`bodyOrigin, g`shapes
    ensures fs.Some? <==> (forall r | r in routes :: RouteFits(r)) && Good(g.models, ds + Flat(routes, RouteDemands))
    ensures fs.Some? ==> |fs.value| == |routes| && forall i | 0 <= i < |routes| :: fs.value[i] == Signature(routes[i])
    ensures fs.Some? ==> Met(g, ds + Flat(routes, RouteDemands))
  {
    hide Good, Met, RouteDemands, Signature;
    assert ds + Flat(routes[..0], RouteDemands) == ds;
    var done: seq<Function> := [];
    for i := 0 to |routes|
      invariant Met(g, ds + Flat(routes[..i], RouteDemands))
      invariant |done| == i && forall k | 0 <= k < i :: done[k] == Signature(routes[k]) && RouteFits(routes[k])
    {
      FlatNext(routes, i, RouteDemands);
      ghost var part := ds + Flat(routes[..i], RouteDemands);
      var f: Option<Function>;
      if routes[i].name != "" {
        f := PlanAction(g, routes[i], part);
      } else {
        f := PlanRaw(g, routes[i], part);
      }
      assert part + RouteDemands(routes[i]) == ds + Flat(routes[..i + 1], RouteDemands);
      if f.None? {
        if Good(g.models, ds + Flat(routes, RouteDemands)) { FlatPrefix(g.models, ds, routes, i + 1, RouteDemands); }
        return None;
      }
      done := done + [f.value];
    }
    assert routes[..|routes|] == routes;
    MetGood(g, ds + Flat(routes, RouteDemands));
    return Some(done);
  }

  // ---------------------------------------------------------------- the action registry

  /** What the registry says of an action. */
  function Entry(r: Route): Action {
    Action(r.name, r.scope == "record", if r.request.Some? then Some(Rendered(r.request)) else None, Rendered(r.response), r.list)
  }

  method RenderEntry(g: Generator, a: Route, ghost ds: seq<Demand>) returns (r: Option<Action>)
    requires Met(g, ds) && g.modelTypes == g.models
    modifies g`names, g`bodyTypes, g`bodyOrigin, g`shapes
    ensures r.Some? <==> Good(g.models, ds + ActionDemands(a))
    ensures r.Some? ==> r.value == Entry(a) && Met(g, ds + ActionDemands(a))
  {
    hide Good, Met, Rendered;
    ghost var all, part := ActionDemands(a), [Body(a.request)];
    var req := TsType(g, a.request, "action " + a.name, ds);
    if req.None? { Fails(g.models, ds, part, all); return None; }
    var res := TsType(g, a.response, "action " + a.name, ds + part);
    Grouped(ds, part, Body(a.response));
    assert part + [Body(a.response)] == all;
    if res.None? { return None; }
    return Some(Action(a.name, a.scope == "record", if a.request.Some? then req else None, res.value, a.list));
  }

  method RenderRegistries(g: Generator, actions: seq<Route>, ghost ds: seq<Demand>) returns (r: Option<seq<Action>>)
    requires Met(g, ds) && g.modelTypes == g.models
    modifies g`names, g`bodyTypes, g`bodyOrigin, g`shapes
    ensures r.Some? <==> Good(g.models, ds + Flat(actions, ActionDemands))
    ensures r.Some? ==> |r.value| == |actions| && forall i | 0 <= i < |actions| :: r.value[i] == Entry(actions[i])
    ensures r.Some? ==> Met(g, ds + Flat(actions, ActionDemands))
  {
    hide Good, Met, Entry, ActionDemands;
    assert ds + Flat(actions[..0], ActionDemands) == ds;
    var done: seq<Action> := [];
    for i := 0 to |actions|
      invariant Met(g, ds + Flat(actions[..i], ActionDemands))
      invariant |done| == i && forall k | 0 <= k < i :: done[k] == Entry(actions[k])
    {
      FlatNext(actions, i, ActionDemands);
      ghost var part := ds + Flat(actions[..i], ActionDemands);
      var entry := RenderEntry(g, actions[i], part);
      assert part + ActionDemands(actions[i]) == ds + Flat(actions[..i + 1], ActionDemands);
      if entry.None? {
        if Good(g.models, ds + Flat(actions, ActionDemands)) { FlatPrefix(g.models, ds, actions, i + 1, ActionDemands); }
        return None;
      }
      done := done + [entry.value];
    }
    assert actions[..|actions|] == actions;
    MetGood(g, ds + Flat(actions, ActionDemands));
    return Some(done);
  }

  // ---------------------------------------------------------------- declarations

  /** Declaring the registered types registers nothing more and cannot fail. */
  method DeclareBodies(g: Generator, ghost ds: seq<Demand>) returns (interfaces: seq<Interface>)
    requires Met(g, ds) && g.modelTypes == g.models
    modifies g`names, g`bodyTypes, g`bodyOrigin, g`shapes
    ensures Met(g, ds) && Declares(interfaces, Bodies(g.models, ds))
  {
    hide Good, Met, Bodies, RegistryOk, DeclaredFrom;
    MetShapes(g, ds);
    var names := SortedKeys(g.bodyTypes.Keys);
    interfaces := [];
    for i := 0 to |names|
      invariant Met(g, ds) && g.bodyTypes.Keys == NamesOf(Bodies(g.models, ds))
      invariant |interfaces| == i
      invariant forall k | 0 <= k < i :: interfaces[k].name == names[k] && DeclaredFrom(interfaces[k], Bodies(g.models, ds))
    {
      var one := DeclareBody(g, names[i], ds);
      interfaces := interfaces + [one];
    }
    DeclaresAll(interfaces, names, Bodies(g.models, ds));
  }

  method DeclareBody(g: Generator, name: string, ghost ds: seq<Demand>) returns (one: Interface)
    requires Met(g, ds) && g.modelTypes == g.models && name in g.bodyTypes
    modifies g`names, g`bodyTypes, g`bodyOrigin, g`shapes
    ensures Met(g, ds) && g.bodyTypes.Keys == NamesOf(Bodies(g.models, ds))
    ensures one.name == name && DeclaredFrom(one, Bodies(g.models, ds))
  {
    hide Good, Met, Bodies, RegistryOk, Members, FieldShapes, Coherent, NamesOf, Reserved, Taken;
    MetShapes(g, ds);
    MetGood(g, ds);
    var d := g.bodyTypes[name];
    NothingMore(g, d);
    var body := g.ObjectBody(d.fields, g.bodyOrigin[name], {});
    StillMet(g, ds);
    MetShapes(g, ds);
    return Interface(name, body.value);
  }

  lemma MetShapes(g: Generator, ds: seq<Demand>)
    requires Met(g, ds)
    ensures g.shapes == Bodies(g.models, ds) && g.Valid({}) && g.taken == SetOf(Reserved()) + SetOf(Taken(ds))
    ensures g.bodyTypes.Keys == NamesOf(g.shapes) && g.bodyOrigin.Keys == g.bodyTypes.Keys
    ensures forall n | n in g.bodyTypes :: g.bodyTypes[n] in g.shapes && g.bodyTypes[n].name == n
  {
    hide Good, Coherent, FieldShapes, Bodies;
    forall n ensures n in g.bodyTypes <==> n in NamesOf(g.shapes) {
      if n in g.bodyTypes { assert g.bodyTypes[n] in g.shapes; }
    }
  }

  /** The shapes inside a registered type are registered. */
  lemma NothingMore(g: Generator, d: TypeDesc)
    requires g.Valid({}) && d in g.shapes
    ensures g.shapes + FieldShapes(g.models, d.fields) == g.shapes && Coherent(g.taken, g.shapes)
  {
    hide FieldShapes, Coherent;
  }

  lemma StillMet(g: Generator, ds: seq<Demand>)
    requires Good(g.models, ds) && g.Valid({}) && g.shapes == Bodies(g.models, ds)
    requires g.taken == SetOf(Reserved()) + SetOf(Taken(ds))
    ensures Met(g, ds)
  {
  }

  ghost predicate DeclaredFrom(one: Interface, shapes: set<TypeDesc>) {
    exists s | s in shapes :: s.name == one.name && one.members == Members(s.fields)
  }

  /** One interface for each shape, by name and in the order of names. */
  ghost predicate Declares(interfaces: seq<Interface>, shapes: set<TypeDesc>) {
    && (forall i, j | 0 <= i < j < |interfaces| :: interfaces[i].name != interfaces[j].name && Leq(interfaces[i].name, interfaces[j].name))
    && (forall i | 0 <= i < |interfaces| :: DeclaredFrom(interfaces[i], shapes))
    && forall s | s in shapes :: exists i :: 0 <= i < |interfaces| && interfaces[i].name == s.name
  }

  lemma DeclaresAll(interfaces: seq<Interface>, names: seq<string>, shapes: set<TypeDesc>)
    requires Sorted(names, Leq) && Distinct(names) && |interfaces| == |names|
    requires forall k | 0 <= k < |names| :: interfaces[k].name == names[k] && DeclaredFrom(interfaces[k], shapes)
    requires forall n | n in NamesOf(shapes) :: n in names
    ensures Declares(interfaces, shapes)
  {
    hide DeclaredFrom, Leq;
    forall i, j | 0 <= i < j < |interfaces| ensures interfaces[i].name != interfaces[j].name && Leq(interfaces[i].name, interfaces[j].name) {
      assert names[i] != names[j] && Leq(names[i], names[j]);
    }
    forall s | s in shapes ensures exists i :: 0 <= i < |interfaces| && interfaces[i].name == s.name {
      assert s.name in NamesOf(shapes);
      var i :| 0 <= i < |names| && names[i] == s.name;
      assert interfaces[i].name == s.name;
    }
  }

  method SortedKeys(keys: set<string>) returns (r: seq<string>)
    ensures Sorted(r, Leq) && Distinct(r) && forall k :: k in r <==> k in keys
  {
    hide Leq;
    var left, list: seq<string> := keys, [];
    while left != {}
      invariant left <= keys && Distinct(list) && forall k :: k in list <==> k in keys && k !in left
      decreases left
    {
      var k :| k in left;
      DistinctNext(list, k);
      list, left := list + [k], left - {k};
    }
    r := SortStrings(list);
    SortStringsSorts(list);
    DistinctCounts(list);
    DistinctPermutation(r, multiset(list));
    assert forall k :: k in list <==> k in multiset(list);
  }
}
