/**
 The generator's registry of names and body types, filled while types are rendered and
 closed whenever no type is being walked.
 */
module TypeClosure {
  import opened Basics
  import opened TypeShapes

  /** The registry: names in use, types to declare, and what they come from. */
  datatype Registry = Registry(models: set<string>, names: set<string>, types: map<string, TypeDesc>,
                               taken: set<string>, shapes: set<TypeDesc>)

  /** The registry is coherent and, but for the shapes still being walked, closed. */
  ghost predicate RegistryOk(g: Registry, pending: set<string>) {
    && Coherent(g.taken, g.shapes)
    && g.names == g.taken + NamesOf(g.shapes)
    && Indexed(g.types, g.shapes)
    && ClosedBut(g.models, g.shapes, pending)
  }

  ghost predicate Indexed(types: map<string, TypeDesc>, shapes: set<TypeDesc>) {
    && (forall s | s in shapes :: s.name in types && types[s.name] == s)
    && forall n | n in types :: types[n] in shapes && types[n].name == n
  }

  ghost predicate ClosedBut(models: set<string>, shapes: set<TypeDesc>, pending: set<string>) {
    forall s | s in shapes && s.name !in pending :: FieldShapes(models, s.fields) <= shapes
  }

  lemma ClaimKeeps(g: Registry, name: string)
    requires RegistryOk(g, {}) && name !in g.names
    ensures RegistryOk(g.(names := g.names + {name}, taken := g.taken + {name}), {})
  {
    hide FieldShapes, Identifier;
    assert forall s | s in g.shapes :: s.name in NamesOf(g.shapes);
  }

  /** A name already registered: the new type must be the registered one, and then it brings nothing. */
  lemma PriorShape(g: Registry, d: TypeDesc, pending: set<string>)
    requires RegistryOk(g, pending) && d.kind == ObjectKind && d.name != "" && d.name !in g.models && d.name in g.types
    requires g.types[d.name] == Shape(d) ==> d.name !in pending
    ensures g.types[d.name] == Shape(d) <==> Coherent(g.taken, g.shapes + Shapes(g.models, Some(d)))
    ensures g.types[d.name] == Shape(d) ==> g.shapes + Shapes(g.models, Some(d)) == g.shapes
  {
    hide FieldShapes, Identifier;
    assert Shape(d) in Shapes(g.models, Some(d));
    if g.types[d.name] == Shape(d) {
      assert Shapes(g.models, Some(d)) <= g.shapes;
    }
  }

  /** A name in use for something else cannot be a body type's. */
  lemma RefusedShape(g: Registry, d: TypeDesc, pending: set<string>)
    requires RegistryOk(g, pending) && d.kind == ObjectKind && d.name != "" && d.name !in g.models && d.name !in g.types
    requires !Identifier(d.name) || d.name in g.names
    ensures !Coherent(g.taken, g.shapes + Shapes(g.models, Some(d)))
  {
    hide FieldShapes, Identifier;
    assert Shape(d) in g.shapes + Shapes(g.models, Some(d));
    assert forall s | s in g.shapes :: s.name != d.name;
  }

  lemma RegisterKeeps(g: Registry, d: TypeDesc, pending: set<string>)
    requires RegistryOk(g, pending) && d.kind == ObjectKind && d.name != "" && d.name !in g.models
    requires Identifier(d.name) && d.name !in g.names
    ensures RegistryOk(g.(names := g.names + {d.name}, types := g.types[d.name := Shape(d)], shapes := g.shapes + {Shape(d)}), pending + {d.name})
    ensures (g.shapes + {Shape(d)}) + FieldShapes(g.models, d.fields) == g.shapes + Shapes(g.models, Some(d))
  {
    hide FieldShapes, Coherent, NamesOf, Shapes, Indexed, ClosedBut, Identifier;
    var s := Shape(d);
    CoherentPlus(g, s);
    IndexedPlus(g.types, g.shapes, s);
    ClosedPlus(g.models, g.shapes, s, pending);
    NamesPlus(g.shapes, s);
    NamedShapes(g.models, d);
    assert (g.taken + NamesOf(g.shapes)) + {s.name} == g.taken + (NamesOf(g.shapes) + {s.name});
    assert (g.shapes + {s}) + FieldShapes(g.models, d.fields) == g.shapes + ({s} + FieldShapes(g.models, d.fields));
  }

  lemma NamesPlus(shapes: set<TypeDesc>, s: TypeDesc)
    ensures NamesOf(shapes + {s}) == NamesOf(shapes) + {s.name}
  {
  }

  lemma NamedShapes(models: set<string>, d: TypeDesc)
    requires d.kind == ObjectKind && d.name != "" && d.name !in models
    ensures Shapes(models, Some(d)) == {Shape(d)} + FieldShapes(models, d.fields)
  {
    hide FieldShapes;
  }

  lemma IndexedPlus(types: map<string, TypeDesc>, shapes: set<TypeDesc>, s: TypeDesc)
    requires Indexed(types, shapes) && forall t | t in shapes :: t.name != s.name
    ensures Indexed(types[s.name := s], shapes + {s})
  {
  }

  lemma ClosedPlus(models: set<string>, shapes: set<TypeDesc>, s: TypeDesc, pending: set<string>)
    requires ClosedBut(models, shapes, pending)
    ensures ClosedBut(models, shapes + {s}, pending + {s.name})
  {
    hide FieldShapes;
  }

  lemma CoherentPlus(g: Registry, s: TypeDesc)
    requires Coherent(g.taken, g.shapes) && g.names == g.taken + NamesOf(g.shapes)
    requires Identifier(s.name) && s.name !in g.names
    ensures Coherent(g.taken, g.shapes + {s}) && forall t | t in g.shapes :: t.name != s.name
  {
    hide Identifier;
    assert forall t | t in g.shapes :: t.name in NamesOf(g.shapes);
  }

  lemma NothingNew(g: Registry, pending: set<string>)
    requires RegistryOk(g, pending)
    ensures g.shapes + {} == g.shapes && Coherent(g.taken, g.shapes)
  {
  }

  /** A shape whose fields have been walked is no longer pending. */
  lemma WalkedCloses(g: Registry, d: TypeDesc, pending: set<string>)
    requires RegistryOk(g, pending + {d.name}) && Shape(d) in g.shapes && FieldShapes(g.models, d.fields) <= g.shapes
    ensures RegistryOk(g, pending)
  {
    hide FieldShapes, Identifier;
    forall s | s in g.shapes && s.name !in pending ensures FieldShapes(g.models, s.fields) <= g.shapes {
      if s.name == d.name { assert s == Shape(d); }
    }
  }

  lemma TypesKept(before: Registry, after: Registry, pending: set<string>)
    requires RegistryOk(before, pending) && RegistryOk(after, pending) && before.shapes <= after.shapes
    ensures forall n | n in before.types :: n in after.types && after.types[n] == before.types[n]
  {
    hide FieldShapes, Coherent, NamesOf;
  }

  lemma CoherentUnless(taken: set<string>, part: set<TypeDesc>, all: set<TypeDesc>)
    requires !Coherent(taken, part) && part <= all
    ensures !Coherent(taken, all)
  {
  }

  class Generator {
    /** The final model type names; the model pass fills `modelTypes` up to them. */
    ghost const models: set<string>

    var names: map<string, string>
    var bodyTypes: map<string, TypeDesc>
    var bodyOrigin: map<string, string>
    var modelTypes: set<string>

    /** Names taken by imports and claims, and the shapes registered besides. */
    ghost var taken: set<string>
    ghost var shapes: set<TypeDesc>

    ghost function Reg(): Registry
      reads this
    {
      Registry(models, names.Keys, bodyTypes, taken, shapes)
    }

    ghost predicate Valid(pending: set<string>)
      reads this
    {
      RegistryOk(Reg(), pending) && bodyOrigin.Keys == bodyTypes.Keys && modelTypes <= models
    }

    ghost predicate Outgrows(pending: set<string>, size: nat)
      reads this
    {
      forall n | n in pending :: n in bodyTypes && Size(bodyTypes[n]) > size
    }

    constructor (ghost models: set<string>)
      ensures this.models == models && Valid({}) && taken == {} && shapes == {} && modelTypes == {}
    {
      this.models := models;
      names, bodyTypes, bodyOrigin, modelTypes := map[], map[], map[], {};
      taken, shapes := {}, {};
    }

    /** Take a name for a declaration of its own. */
    method Claim(name: string, origin: string) returns (ok: bool)
      requires Valid({})
      modifies this`names, this`taken
      ensures ok <==> Identifier(name) && name !in old(names)
      ensures Valid({}) && taken == old(taken) + (if ok then {name} else {})
    {
      hide RegistryOk, Identifier;
      if !Identifier(name) || name in names {
        return false;
      }
      ClaimKeeps(Reg(), name);
      names := names[name := origin];
      taken := taken + {name};
      assert names.Keys == old(names).Keys + {name};
      return true;
    }

    /** Render a type, registering every named object it reaches; none if two types clash. */
    method RenderType(d: Option<TypeDesc>, origin: string, ghost pending: set<string>) returns (r: Option<Ts>)
      requires Valid(pending) && Outgrows(pending, SizeOf(d)) && modelTypes == models
      modifies this`names, this`bodyTypes, this`bodyOrigin, this`shapes
      ensures r.Some? <==> Coherent(taken, old(shapes) + Shapes(models, d))
      ensures r.Some? ==> r.value == Rendered(d) && shapes == old(shapes) + Shapes(models, d) && Valid(pending)
      decreases SizeOf(d), 2
    {
      hide RegistryOk, Coherent, FieldShapes, Members, NamesOf;
      if d.None? {
        NothingNew(Reg(), pending);
        return Some(Unknown);
      }
      var ts: Ts;
      match d.value.kind {
        case ArrayKind =>
          var elem := RenderType(d.value.elem, origin, pending);
          if elem.None? { return None; }
          ts := ArrayOf(elem.value);
        case RecordKind =>
          var elem := RenderType(d.value.elem, origin, pending);
          if elem.None? { return None; }
          ts := RecordOf(elem.value);
        case ObjectKind =>
          if d.value.name != "" {
            var ok := RegisterBodyType(d.value, origin, pending);
            if !ok { return None; }
            ts := Ref(d.value.name);
          } else {
            var members := ObjectBody(d.value.fields, origin, pending);
            if members.None? { return None; }
            ts := Literal(members.value);
          }
        case UnknownKind =>
          NothingNew(Reg(), pending);
          return Some(Unknown);
        case _ =>
          NothingNew(Reg(), pending);
          ts := Builtin(d.value.kind);
      }
      return Some(if d.value.nullable then Nullable(ts) else ts);
    }

    /** Record a named object for declaration, and walk its fields. */
    method RegisterBodyType(d: TypeDesc, origin: string, ghost pending: set<string>) returns (ok: bool)
      requires Valid(pending) && Outgrows(pending, Size(d)) && modelTypes == models
      requires d.kind == ObjectKind && d.name != ""
      modifies this`names, this`bodyTypes, this`bodyOrigin, this`shapes
      ensures ok <==> Coherent(taken, old(shapes) + Shapes(models, Some(d)))
      ensures ok ==> shapes == old(shapes) + Shapes(models, Some(d)) && Valid(pending)
      decreases Size(d), 1
    {
      hide RegistryOk, Coherent, FieldShapes, NamesOf, Identifier;
      if d.name in modelTypes {
        NothingNew(Reg(), pending);
        return true;
      }
      var shape := d.(nullable := false);
      if d.name in bodyTypes {
        PriorShape(Reg(), d, pending);
        return bodyTypes[d.name] == shape;
      }
      if !Identifier(d.name) || d.name in names {
        RefusedShape(Reg(), d, pending);
        return false;
      }
      RegisterKeeps(Reg(), d, pending);
      names := names[d.name := origin];
      bodyTypes, bodyOrigin := bodyTypes[d.name := shape], bodyOrigin[d.name := origin];
      shapes := shapes + {shape};
      assert names.Keys == old(names).Keys + {d.name};
      var body := ObjectBody(shape.fields, origin, pending + {d.name});
      if body.Some? { WalkedCloses(Reg(), d, pending); }
      return body.Some?;
    }

    /** Render an object's fields. */
    method ObjectBody(fields: seq<FieldDesc>, origin: string, ghost pending: set<string>) returns (r: Option<seq<TsMember>>)
      requires Valid(pending) && Outgrows(pending, FieldsSize(fields)) && modelTypes == models
      modifies this`names, this`bodyTypes, this`bodyOrigin, this`shapes
      ensures r.Some? <==> Coherent(taken, old(shapes) + FieldShapes(models, fields))
      ensures r.Some? ==> r.value == Members(fields) && shapes == old(shapes) + FieldShapes(models, fields) && Valid(pending)
      decreases FieldsSize(fields), 3
    {
      hide RegistryOk, Coherent, NamesOf, Shapes, Rendered;
      NothingNew(Reg(), pending);
      var members: seq<TsMember> := [];
      for i := 0 to |fields|
        invariant Valid(pending) && Outgrows(pending, FieldsSize(fields)) && modelTypes == models
        invariant members == Members(fields[..i]) && shapes == old(shapes) + FieldShapes(models, fields[..i])
      {
        FieldSmaller(fields, i);
        FieldShapesNext(models, fields, i);
        FieldShapesGrow(models, fields, i + 1);
        hide FieldShapes, Members;
        ghost var before, was := shapes, Reg();
        var ts := RenderType(Some(fields[i].ty), origin, pending);
        assert before + Shapes(models, Some(fields[i].ty)) == old(shapes) + FieldShapes(models, fields[..i + 1]);
        if ts.None? {
          CoherentUnless(taken, old(shapes) + FieldShapes(models, fields[..i + 1]), old(shapes) + FieldShapes(models, fields));
          return None;
        }
        TypesKept(was, Reg(), pending);
        members := members + [TsMember(fields[i].name, fields[i].optional, ts.value)];
      }
      assert fields[..|fields|] == fields;
      NothingNew(Reg(), pending);
      return Some(members);
    }
  }
}
