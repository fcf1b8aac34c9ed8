/**
 The types of route bodies: how one is rendered, which names the rendering mentions,
 and which named shapes it obliges the generated file to declare.
 */
module TypeShapes {
  import opened Basics

  datatype Kind = StringKind | NumberKind | BooleanKind | UnknownKind | ArrayKind | RecordKind | ObjectKind

  datatype TypeDesc = TypeDesc(kind: Kind, name: string, elem: Option<TypeDesc>, fields: seq<FieldDesc>, nullable: bool)

  datatype FieldDesc = FieldDesc(name: string, ty: TypeDesc, optional: bool)

  function Size(d: TypeDesc): nat {
    1 + (if d.elem.Some? then Size(d.elem.value) else 0) + FieldsSize(d.fields)
  }

  function FieldsSize(fields: seq<FieldDesc>): nat {
    if fields == [] then 0 else FieldsSize(fields[..|fields| - 1]) + Size(fields[|fields| - 1].ty)
  }

  function SizeOf(d: Option<TypeDesc>): nat { if d.Some? then Size(d.value) else 0 }

  lemma {:induction false} FieldSmaller(fields: seq<FieldDesc>, i: nat)
    requires i < |fields|
    ensures Size(fields[i].ty) <= FieldsSize(fields)
    decreases |fields|
  {
    if i < |fields| - 1 { FieldSmaller(fields[..|fields| - 1], i); }
  }

  // ---------------------------------------------------------------- rendering

  /** A TypeScript type, without its layout. */
  datatype Ts = Unknown | Builtin(kind: Kind) | Ref(name: string) | ArrayOf(elem: Ts) | RecordOf(elem: Ts)
              | Literal(members: seq<TsMember>) | OrNull(inner: Ts)

  datatype TsMember = TsMember(name: string, optional: bool, ty: Ts)

  /** A type spelled `unknown` takes no null, whether or not it is the built-in one. */
  function Nullable(t: Ts): Ts { if t == Unknown || t == Ref("unknown") then t else OrNull(t) }

  function Rendered(d: Option<TypeDesc>): Ts
    decreases SizeOf(d), 1
  {
    if d.None? || d.value.kind == UnknownKind then Unknown
    else
      var t := match d.value.kind
        case ArrayKind => ArrayOf(Rendered(d.value.elem))
        case RecordKind => RecordOf(Rendered(d.value.elem))
        case ObjectKind => if d.value.name != "" then Ref(d.value.name) else Literal(Members(d.value.fields))
        case _ => Builtin(d.value.kind);
      if d.value.nullable then Nullable(t) else t
  }

  function Members(fields: seq<FieldDesc>): (r: seq<TsMember>)
    ensures |r| == |fields|
    decreases FieldsSize(fields), 2, |fields|
  {
    if fields == [] then []
    else
      var f := fields[|fields| - 1];
      Members(fields[..|fields| - 1]) + [TsMember(f.name, f.optional, Rendered(Some(f.ty)))]
  }

  /** The type names a rendering mentions. */
  function Refs(t: Ts): set<string> {
    match t
    case Unknown => {}
    case Builtin(_) => {}
    case Ref(name) => {name}
    case ArrayOf(e) => Refs(e)
    case RecordOf(e) => Refs(e)
    case Literal(members) => MemberRefs(members)
    case OrNull(e) => Refs(e)
  }

  function MemberRefs(members: seq<TsMember>): set<string> {
    if members == [] then {} else MemberRefs(members[..|members| - 1]) + Refs(members[|members| - 1].ty)
  }

  // ---------------------------------------------------------------- shapes

  function Shape(d: TypeDesc): TypeDesc { d.(nullable := false) }

  /**
   The named objects met inside a type, as the shapes to declare. An object with a model's
   name stands for the model and is not looked into.
   */
  function Shapes(models: set<string>, d: Option<TypeDesc>): set<TypeDesc>
    decreases SizeOf(d), 1
  {
    if d.None? then {}
    else match d.value.kind
      case ArrayKind => Shapes(models, d.value.elem)
      case RecordKind => Shapes(models, d.value.elem)
      case ObjectKind =>
        if d.value.name == "" then FieldShapes(models, d.value.fields)
        else if d.value.name in models then {}
        else {Shape(d.value)} + FieldShapes(models, d.value.fields)
      case _ => {}
  }

  function FieldShapes(models: set<string>, fields: seq<FieldDesc>): set<TypeDesc>
    decreases FieldsSize(fields), 2, |fields|
  {
    if fields == [] then {}
    else FieldShapes(models, fields[..|fields| - 1]) + Shapes(models, Some(fields[|fields| - 1].ty))
  }

  lemma FieldShapesNext(models: set<string>, fields: seq<FieldDesc>, i: nat)
    requires i < |fields|
    ensures FieldShapes(models, fields[..i + 1]) == FieldShapes(models, fields[..i]) + Shapes(models, Some(fields[i].ty))
    ensures Members(fields[..i + 1]) == Members(fields[..i]) + [TsMember(fields[i].name, fields[i].optional, Rendered(Some(fields[i].ty)))]
  {
    assert fields[..i + 1][..i] == fields[..i] && fields[..i + 1][i] == fields[i];
  }

  lemma {:induction false} FieldShapesGrow(models: set<string>, fields: seq<FieldDesc>, i: nat)
    requires i <= |fields|
    ensures FieldShapes(models, fields[..i]) <= FieldShapes(models, fields)
    decreases |fields| - i
  {
    if i == |fields| {
      assert fields[..i] == fields;
    } else {
      FieldShapesNext(models, fields, i);
      FieldShapesGrow(models, fields, i + 1);
    }
  }

  function NamesOf(shapes: set<TypeDesc>): set<string> { set s | s in shapes :: s.name }

  /** A rendering mentions only models and the shapes it obliges. */
  lemma {:induction false} RefsCovered(models: set<string>, d: Option<TypeDesc>)
    ensures Refs(Rendered(d)) <= models + NamesOf(Shapes(models, d))
    decreases SizeOf(d), 1
  {
    if d.Some? {
      match d.value.kind
      case ArrayKind => RefsCovered(models, d.value.elem);
      case RecordKind => RefsCovered(models, d.value.elem);
      case ObjectKind =>
        if d.value.name == "" {
          MembersCovered(models, d.value.fields);
        } else if d.value.name !in models {
          assert Shape(d.value) in Shapes(models, d) && Shape(d.value).name == d.value.name;
        }
      case _ =>
    }
  }

  lemma {:induction false} MembersCovered(models: set<string>, fields: seq<FieldDesc>)
    ensures MemberRefs(Members(fields)) <= models + NamesOf(FieldShapes(models, fields))
    decreases FieldsSize(fields), 2, |fields|
  {
    if fields != [] {
      var k := |fields| - 1;
      MembersCovered(models, fields[..k]);
      RefsCovered(models, Some(fields[k].ty));
      var all := Members(fields);
      assert all[..k] == Members(fields[..k]) && all[k].ty == Rendered(Some(fields[k].ty));
      hide Members, Rendered, Shapes;
    }
  }

  /** The shapes of a type hold the shapes of each other's fields. */
  lemma {:induction false} ShapesClosed(models: set<string>, d: Option<TypeDesc>)
    ensures forall s | s in Shapes(models, d) :: FieldShapes(models, s.fields) <= Shapes(models, d)
    decreases SizeOf(d), 1
  {
    if d.Some? {
      match d.value.kind
      case ArrayKind => ShapesClosed(models, d.value.elem);
      case RecordKind => ShapesClosed(models, d.value.elem);
      case ObjectKind => FieldShapesClosed(models, d.value.fields);
      case _ =>
    }
  }

  lemma {:induction false} FieldShapesClosed(models: set<string>, fields: seq<FieldDesc>)
    ensures forall s | s in FieldShapes(models, fields) :: FieldShapes(models, s.fields) <= FieldShapes(models, fields)
    decreases FieldsSize(fields), 2, |fields|
  {
    if fields != [] {
      FieldShapesClosed(models, fields[..|fields| - 1]);
      ShapesClosed(models, Some(fields[|fields| - 1].ty));
    }
  }

  // ---------------------------------------------------------------- what a model's name covers

  /** All named objects inside a type that are no model's, also those inside a model's. */
  function AllShapes(models: set<string>, d: Option<TypeDesc>): set<TypeDesc>
    decreases SizeOf(d), 1
  {
    if d.None? then {}
    else match d.value.kind
      case ArrayKind => AllShapes(models, d.value.elem)
      case RecordKind => AllShapes(models, d.value.elem)
      case ObjectKind =>
        (if d.value.name == "" || d.value.name in models then {} else {Shape(d.value)}) + AllFieldShapes(models, d.value.fields)
      case _ => {}
  }

  function AllFieldShapes(models: set<string>, fields: seq<FieldDesc>): set<TypeDesc>
    decreases FieldsSize(fields), 2, |fields|
  {
    if fields == [] then {}
    else AllFieldShapes(models, fields[..|fields| - 1]) + AllShapes(models, Some(fields[|fields| - 1].ty))
  }

  /** The named objects inside the objects that stand for models. */
  function Hidden(models: set<string>, d: Option<TypeDesc>): set<TypeDesc>
    decreases SizeOf(d), 1
  {
    if d.None? then {}
    else match d.value.kind
      case ArrayKind => Hidden(models, d.value.elem)
      case RecordKind => Hidden(models, d.value.elem)
      case ObjectKind =>
        if d.value.name in models && d.value.name != "" then AllFieldShapes(models, d.value.fields)
        else HiddenFields(models, d.value.fields)
      case _ => {}
  }

  function HiddenFields(models: set<string>, fields: seq<FieldDesc>): set<TypeDesc>
    decreases FieldsSize(fields), 2, |fields|
  {
    if fields == [] then {}
    else HiddenFields(models, fields[..|fields| - 1]) + Hidden(models, Some(fields[|fields| - 1].ty))
  }

  /** What a type holds is what it obliges and what models hide in it. */
  lemma {:induction false} AllObliged(models: set<string>, d: Option<TypeDesc>)
    ensures AllShapes(models, d) == Shapes(models, d) + Hidden(models, d)
    decreases SizeOf(d), 1
  {
    if d.Some? {
      match d.value.kind
      case ArrayKind => AllObliged(models, d.value.elem);
      case RecordKind => AllObliged(models, d.value.elem);
      case ObjectKind => AllFieldsObliged(models, d.value.fields);
      case _ =>
    }
  }

  lemma {:induction false} AllFieldsObliged(models: set<string>, fields: seq<FieldDesc>)
    ensures AllFieldShapes(models, fields) == FieldShapes(models, fields) + HiddenFields(models, fields)
    decreases FieldsSize(fields), 2, |fields|
  {
    hide AllShapes, Shapes, Hidden;
    if fields != [] {
      AllFieldsObliged(models, fields[..|fields| - 1]);
      AllObliged(models, Some(fields[|fields| - 1].ty));
    }
  }

  // ---------------------------------------------------------------- one declaration per name

  /** What a file may declare: one shape under each name, none under a name taken otherwise. */
  ghost predicate Coherent(taken: set<string>, shapes: set<TypeDesc>) {
    && (forall a, b | a in shapes && b in shapes && a.name == b.name :: a == b)
    && forall s | s in shapes :: Identifier(s.name) && s.name !in taken
  }

  predicate IdentifierStart(c: char) { 'A' <= c <= 'Z' || 'a' <= c <= 'z' || c == '_' || c == '$' }

  predicate Identifier(s: string) {
    s != "" && IdentifierStart(s[0]) && forall i | 0 <= i < |s| :: IdentifierStart(s[i]) || '0' <= s[i] <= '9'
  }
}
