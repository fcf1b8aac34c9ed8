/**
 What the types of a generated client mean: which JSON values a route's body description
 admits, which values a rendered type admits, and that the two agree.
 */
module TypeMeaning {
  import opened Basics
  import opened TypeShapes
  import opened ClientPlan
  import opened ClientRun
  import opened ClientLaws

  datatype Value = Null | Str(text: string) | Num(text: string) | Bool(on: bool) | Arr(items: seq<Value>) | Obj(members: seq<Pair>)

  datatype Pair = Pair(name: string, value: Value)

  /** The values of the module's own model types, which are given. */
  type Records = (string, Value) -> bool

  // ---------------------------------------------------------------- the description of a body

  ghost predicate Describes(models: set<string>, records: Records, v: Value, d: Option<TypeDesc>)
    decreases v, 1
  {
    d.None? || (d.value.nullable && v.Null?)
    || match d.value.kind
       case StringKind => v.Str?
       case NumberKind => v.Num?
       case BooleanKind => v.Bool?
       case UnknownKind => true
       case ArrayKind => v.Arr? && forall i | 0 <= i < |v.items| :: Describes(models, records, v.items[i], d.value.elem)
       case RecordKind => v.Obj? && forall i | 0 <= i < |v.members| :: Describes(models, records, v.members[i].value, d.value.elem)
       case ObjectKind =>
         if d.value.name != "" && d.value.name in models then records(d.value.name, v)
         else v.Obj? && DescribesFields(models, records, v, d.value.fields)
  }

  /** A field stands in the object, unless it is optional, and what stands there is of its type. */
  ghost predicate DescribesField(models: set<string>, records: Records, v: Value, f: FieldDesc)
    requires v.Obj?
    decreases v, 0, 0
  {
    && (f.optional || exists k :: 0 <= k < |v.members| && v.members[k].name == f.name)
    && forall k | 0 <= k < |v.members| && v.members[k].name == f.name :: Describes(models, records, v.members[k].value, Some(f.ty))
  }

  ghost predicate DescribesFields(models: set<string>, records: Records, v: Value, fields: seq<FieldDesc>)
    requires v.Obj?
    decreases v, 0, 1
  {
    forall i | 0 <= i < |fields| :: DescribesField(models, records, v, fields[i])
  }

  // ---------------------------------------------------------------- the rendered type

  /** The values of a TypeScript type; a name is a model's or that of a declared interface. */
  ghost predicate Fits(file: seq<Interface>, models: set<string>, records: Records, v: Value, t: Ts)
    decreases v, 1, t
  {
    match t
    case Unknown => true
    case Builtin(kind) => (kind.StringKind? && v.Str?) || (kind.NumberKind? && v.Num?) || (kind.BooleanKind? && v.Bool?)
    case Ref(name) =>
      if name in models then records(name, v)
      else exists i :: 0 <= i < |file| && file[i].name == name && v.Obj? && FitsMembers(file, models, records, v, file[i].members)
    case ArrayOf(e) => v.Arr? && forall i | 0 <= i < |v.items| :: Fits(file, models, records, v.items[i], e)
    case RecordOf(e) => v.Obj? && forall i | 0 <= i < |v.members| :: Fits(file, models, records, v.members[i].value, e)
    case Literal(members) => v.Obj? && FitsMembers(file, models, records, v, members)
    case OrNull(e) => v.Null? || Fits(file, models, records, v, e)
  }

  ghost predicate FitsMembers(file: seq<Interface>, models: set<string>, records: Records, v: Value, members: seq<TsMember>)
    requires v.Obj?
    decreases v, 0, 1
  {
    forall i | 0 <= i < |members| :: FitsMember(file, models, records, v, members[i])
  }

  ghost predicate FitsMember(file: seq<Interface>, models: set<string>, records: Records, v: Value, m: TsMember)
    requires v.Obj?
    decreases v, 0, 0
  {
    && (m.optional || exists k :: 0 <= k < |v.members| && v.members[k].name == m.name)
    && forall k | 0 <= k < |v.members| && v.members[k].name == m.name :: Fits(file, models, records, v.members[k].value, m.ty)
  }

  // ---------------------------------------------------------------- a null that is lost

  /** No object that may be null has the name `unknown`, outside what models cover. */
  predicate Plain(models: set<string>, d: Option<TypeDesc>)
    decreases SizeOf(d), 1
  {
    d.None? || match d.value.kind
               case ArrayKind => Plain(models, d.value.elem)
               case RecordKind => Plain(models, d.value.elem)
               case ObjectKind =>
                 && !(d.value.nullable && d.value.name == "unknown")
                 && ((d.value.name != "" && d.value.name in models) || PlainFields(models, d.value.fields))
               case _ => true
  }

  predicate PlainFields(models: set<string>, fields: seq<FieldDesc>)
    decreases FieldsSize(fields), 2, |fields|
  {
    fields == [] || (PlainFields(models, fields[..|fields| - 1]) && Plain(models, Some(fields[|fields| - 1].ty)))
  }

  lemma {:induction false} PlainAt(models: set<string>, fields: seq<FieldDesc>, i: nat)
    requires i < |fields|
    ensures PlainFields(models, fields) ==> Plain(models, Some(fields[i].ty))
    decreases |fields|
  {
    if i < |fields| - 1 { PlainAt(models, fields[..|fields| - 1], i); }
  }

  lemma {:induction false} MembersAt(fields: seq<FieldDesc>, i: nat)
    requires i < |fields|
    ensures Members(fields)[i] == TsMember(fields[i].name, fields[i].optional, Rendered(Some(fields[i].ty)))
    decreases |fields|
  {
    hide Rendered;
    if i < |fields| - 1 { MembersAt(fields[..|fields| - 1], i); }
  }

  lemma {:induction false} FieldShapesAt(models: set<string>, fields: seq<FieldDesc>, i: nat)
    requires i < |fields|
    ensures Shapes(models, Some(fields[i].ty)) <= FieldShapes(models, fields)
    decreases |fields|
  {
    hide Shapes;
    if i < |fields| - 1 { FieldShapesAt(models, fields[..|fields| - 1], i); }
  }

  // ---------------------------------------------------------------- what is rendered means what is described

  /** The file declares every shape under its own name, once. */
  ghost predicate Known(file: seq<Interface>, models: set<string>, shapes: set<TypeDesc>) {
    && (forall i, j | 0 <= i < j < |file| :: file[i].name != file[j].name)
    && forall s | s in shapes :: KnownShape(file, s)
  }

  ghost predicate KnownShape(file: seq<Interface>, s: TypeDesc) {
    exists i :: 0 <= i < |file| && file[i] == Interface(s.name, Members(s.fields))
  }

  /** Whatever a rendered type admits is described; where no null is lost, the two agree. */
  ghost predicate Agree(file: seq<Interface>, models: set<string>, records: Records, v: Value, t: Ts, d: Option<TypeDesc>) {
    && (Fits(file, models, records, v, t) ==> Describes(models, records, v, d))
    && (Plain(models, d) ==> (Describes(models, records, v, d) ==> Fits(file, models, records, v, t)))
  }

  lemma {:induction false} RenderedAgrees(file: seq<Interface>, models: set<string>, records: Records, v: Value, d: Option<TypeDesc>)
    requires Known(file, models, Shapes(models, d))
    ensures Agree(file, models, records, v, Rendered(d), d)
    decreases v, 2
  {
    hide Known;
    if d.Some? && d.value.kind != UnknownKind {
      var bare := Some(d.value.(nullable := false));
      BareSame(models, d.value);
      BareAgrees(file, models, records, v, bare.value);
      NullAgrees(file, models, records, v, d.value);
    }
  }

  lemma BareSame(models: set<string>, d: TypeDesc)
    ensures Shapes(models, Some(d.(nullable := false))) == Shapes(models, Some(d))
    ensures Plain(models, Some(d)) ==> Plain(models, Some(d.(nullable := false)))
  {
  }

  lemma NullAgrees(file: seq<Interface>, models: set<string>, records: Records, v: Value, d: TypeDesc)
    requires d.kind != UnknownKind && Agree(file, models, records, v, Rendered(Some(d.(nullable := false))), Some(d.(nullable := false)))
    ensures Agree(file, models, records, v, Rendered(Some(d)), Some(d))
  {
    hide FitsMembers, DescribesFields, Members, Shapes, PlainFields;
    BareSame(models, d);
    BareDescribes(models, records, v, d);
    BareRendered(d);
    hide Describes, Rendered;
    var t := Rendered(Some(d.(nullable := false)));
    if d.nullable && t != Ref("unknown") {
      assert Fits(file, models, records, v, OrNull(t)) <==> v.Null? || Fits(file, models, records, v, t);
    }
  }

  lemma BareDescribes(models: set<string>, records: Records, v: Value, d: TypeDesc)
    ensures Describes(models, records, v, Some(d)) <==> (d.nullable && v.Null?) || Describes(models, records, v, Some(d.(nullable := false)))
  {
    hide DescribesFields;
  }

  lemma BareRendered(d: TypeDesc)
    requires d.kind != UnknownKind
    ensures var t := Rendered(Some(d.(nullable := false)));
            && Rendered(Some(d)) == (if d.nullable && t != Ref("unknown") then OrNull(t) else t)
            && (t == Ref("unknown") ==> d.kind.ObjectKind? && d.name == "unknown")
  {
  }

  lemma {:induction false} BareAgrees(file: seq<Interface>, models: set<string>, records: Records, v: Value, d: TypeDesc)
    requires Known(file, models, Shapes(models, Some(d))) && d.kind != UnknownKind && !d.nullable
    ensures Agree(file, models, records, v, Rendered(Some(d)), Some(d))
    decreases v, 1
  {
    hide Known, FitsMembers, DescribesFields, Members;
    match d.kind
    case ArrayKind =>
      if v.Arr? {
        forall i | 0 <= i < |v.items| ensures Agree(file, models, records, v.items[i], Rendered(d.elem), d.elem) {
          RenderedAgrees(file, models, records, v.items[i], d.elem);
        }
      }
    case RecordKind =>
      if v.Obj? {
        forall i | 0 <= i < |v.members| ensures Agree(file, models, records, v.members[i].value, Rendered(d.elem), d.elem) {
          RenderedAgrees(file, models, records, v.members[i].value, d.elem);
        }
      }
    case ObjectKind =>
      if v.Obj? && (d.name == "" || d.name !in models) {
        assert FieldShapes(models, d.fields) <= Shapes(models, Some(d));
        KnownLess(file, models, Shapes(models, Some(d)), FieldShapes(models, d.fields));
        FieldsAgree(file, models, records, v, d.fields);
      }
      ObjectAgrees(file, models, records, v, d);
    case _ =>
  }

  lemma KnownLess(file: seq<Interface>, models: set<string>, more: set<TypeDesc>, less: set<TypeDesc>)
    requires Known(file, models, more) && less <= more
    ensures Known(file, models, less)
  {
    hide KnownShape;
  }

  ghost predicate FieldsMean(file: seq<Interface>, models: set<string>, records: Records, v: Value, fields: seq<FieldDesc>)
    requires v.Obj?
  {
    && (FitsMembers(file, models, records, v, Members(fields)) ==> DescribesFields(models, records, v, fields))
    && (PlainFields(models, fields) && DescribesFields(models, records, v, fields) ==> FitsMembers(file, models, records, v, Members(fields)))
  }

  lemma ObjectAgrees(file: seq<Interface>, models: set<string>, records: Records, v: Value, d: TypeDesc)
    requires Known(file, models, Shapes(models, Some(d))) && d.kind.ObjectKind? && !d.nullable
    requires v.Obj? && (d.name == "" || d.name !in models) ==> FieldsMean(file, models, records, v, d.fields)
    ensures Agree(file, models, records, v, Rendered(Some(d)), Some(d))
  {
    hide FitsMembers, DescribesFields, Members, PlainFields;
    if d.name != "" && d.name !in models {
      assert Shape(d) in Shapes(models, Some(d)) && Shape(d) == d;
      assert KnownShape(file, d);
      var i :| 0 <= i < |file| && file[i] == Interface(d.name, Members(d.fields));
      OnlyDeclared(file, models, records, v, d.name, i);
    }
  }

  /** A declared name means its one declaration. */
  lemma OnlyDeclared(file: seq<Interface>, models: set<string>, records: Records, v: Value, name: string, i: nat)
    requires (forall i, j | 0 <= i < j < |file| :: file[i].name != file[j].name) && name !in models && i < |file| && file[i].name == name
    ensures Fits(file, models, records, v, Ref(name)) <==> v.Obj? && FitsMembers(file, models, records, v, file[i].members)
  {
    hide FitsMembers;
  }

  lemma {:induction false} FieldsAgree(file: seq<Interface>, models: set<string>, records: Records, v: Value, fields: seq<FieldDesc>)
    requires v.Obj? && Known(file, models, FieldShapes(models, fields))
    ensures FieldsMean(file, models, records, v, fields)
    decreases v, 0
  {
    hide Known, Plain, PlainFields, Rendered, Describes, Fits, FieldShapes, Shapes, Members;
    var ms := Members(fields);
    forall i | 0 <= i < |fields|
      ensures FitsMember(file, models, records, v, ms[i]) ==> DescribesField(models, records, v, fields[i])
      ensures PlainFields(models, fields) && DescribesField(models, records, v, fields[i]) ==> FitsMember(file, models, records, v, ms[i])
    {
      MembersAt(fields, i);
      PlainAt(models, fields, i);
      FieldShapesAt(models, fields, i);
      KnownLess(file, models, FieldShapes(models, fields), Shapes(models, Some(fields[i].ty)));
      forall k | 0 <= k < |v.members|
        ensures Agree(file, models, records, v.members[k].value, Rendered(Some(fields[i].ty)), Some(fields[i].ty)) {
        RenderedAgrees(file, models, records, v.members[k].value, Some(fields[i].ty));
      }
    }
  }

  // ---------------------------------------------------------------- and nothing else agrees

  /** The fields of every object outside what models cover have names of their own. */
  predicate Named(models: set<string>, d: Option<TypeDesc>)
    decreases SizeOf(d), 1
  {
    d.None? || match d.value.kind
               case ArrayKind => Named(models, d.value.elem)
               case RecordKind => Named(models, d.value.elem)
               case ObjectKind => (d.value.name != "" && d.value.name in models) || (DistinctFields(d.value.fields) && NamedFields(models, d.value.fields))
               case _ => true
  }

  predicate NamedFields(models: set<string>, fields: seq<FieldDesc>)
    decreases FieldsSize(fields), 2, |fields|
  {
    fields == [] || (NamedFields(models, fields[..|fields| - 1]) && Named(models, Some(fields[|fields| - 1].ty)))
  }

  predicate DistinctFields(fields: seq<FieldDesc>) {
    forall i, j | 0 <= i < j < |fields| :: fields[i].name != fields[j].name
  }

  /** A model's values are objects. */
  const ANY_RECORD: Records := (name: string, v: Value) => v.Obj?

  /** A value of a described type. */
  function Sample(models: set<string>, d: Option<TypeDesc>): Value
    decreases SizeOf(d), 1
  {
    if d.None? then Null
    else match d.value.kind
      case StringKind => Str("")
      case NumberKind => Num("0")
      case BooleanKind => Bool(true)
      case UnknownKind => Null
      case ArrayKind => Arr([])
      case RecordKind => Obj([])
      case ObjectKind => if d.value.name != "" && d.value.name in models then Obj([]) else Obj(SampleFields(models, d.value.fields))
  }

  function SampleFields(models: set<string>, fields: seq<FieldDesc>): (r: seq<Pair>)
    ensures |r| == |fields| && forall i | 0 <= i < |r| :: r[i].name == fields[i].name
    decreases FieldsSize(fields), 2, |fields|
  {
    if fields == [] then []
    else SampleFields(models, fields[..|fields| - 1]) + [Pair(fields[|fields| - 1].name, Sample(models, Some(fields[|fields| - 1].ty)))]
  }

  lemma {:induction false} SampleAt(models: set<string>, fields: seq<FieldDesc>, i: nat)
    requires i < |fields|
    ensures SampleFields(models, fields)[i].value == Sample(models, Some(fields[i].ty))
    ensures NamedFields(models, fields) ==> Named(models, Some(fields[i].ty))
    decreases |fields|
  {
    hide Sample, Named;
    if i < |fields| - 1 { SampleAt(models, fields[..|fields| - 1], i); }
  }

  lemma {:induction false} SampleDescribed(models: set<string>, d: Option<TypeDesc>)
    requires Named(models, d)
    ensures Describes(models, ANY_RECORD, Sample(models, d), d)
    decreases SizeOf(d)
  {
    hide DescribesField, SampleFields, NamedFields;
    if d.Some? && d.value.kind.ObjectKind? && !(d.value.name != "" && d.value.name in models) {
      var fields := d.value.fields;
      var all := SampleFields(models, fields);
      forall i | 0 <= i < |fields| ensures DescribesField(models, ANY_RECORD, Obj(all), fields[i]) {
        FieldSmaller(fields, i);
        SampleAt(models, fields, i);
        SampleDescribed(models, Some(fields[i].ty));
        FieldStands(models, fields, all, i);
      }
    }
  }

  /** In an object made field by field, the value at a field's place is the one of that name. */
  lemma FieldStands(models: set<string>, fields: seq<FieldDesc>, all: seq<Pair>, i: nat)
    requires DistinctFields(fields) && i < |fields| == |all| && (forall k | 0 <= k < |all| :: all[k].name == fields[k].name)
    requires Describes(models, ANY_RECORD, all[i].value, Some(fields[i].ty))
    ensures DescribesField(models, ANY_RECORD, Obj(all), fields[i])
  {
    hide Describes;
    var v := Obj(all);
    assert v.members[i].name == fields[i].name;
    forall k | 0 <= k < |v.members| && v.members[k].name == fields[i].name ensures k == i { }
  }

  /** The first field that is not plain. */
  function FirstLost(models: set<string>, fields: seq<FieldDesc>): (i: nat)
    requires !PlainFields(models, fields)
    ensures i < |fields| && !Plain(models, Some(fields[i].ty))
    decreases |fields|
  {
    if !PlainFields(models, fields[..|fields| - 1]) then FirstLost(models, fields[..|fields| - 1]) else |fields| - 1
  }

  /** A value that is described and does not fit. */
  function Lost(models: set<string>, d: Option<TypeDesc>): Value
    requires !Plain(models, d)
    decreases SizeOf(d)
  {
    if d.value.kind.ArrayKind? then Arr([Lost(models, d.value.elem)])
    else if d.value.kind.RecordKind? then Obj([Pair("", Lost(models, d.value.elem))])
    else if d.value.nullable && d.value.name == "unknown" then Null
    else
      var fields := d.value.fields;
      var i := FirstLost(models, fields);
      FieldSmaller(fields, i);
      Obj(SampleFields(models, fields)[i := Pair(fields[i].name, Lost(models, Some(fields[i].ty)))])
  }

  lemma {:induction false} LostDescribed(models: set<string>, d: Option<TypeDesc>)
    requires !Plain(models, d) && Named(models, d)
    ensures Describes(models, ANY_RECORD, Lost(models, d), d)
    decreases SizeOf(d)
  {
    hide DescribesField, SampleFields, NamedFields, PlainFields;
    if d.value.kind.ArrayKind? || d.value.kind.RecordKind? {
      LostDescribed(models, d.value.elem);
    } else if !(d.value.nullable && d.value.name == "unknown") {
      var fields := d.value.fields;
      var at := FirstLost(models, fields);
      var all := Lost(models, d).members;
      forall i | 0 <= i < |fields| ensures DescribesField(models, ANY_RECORD, Obj(all), fields[i]) {
        FieldSmaller(fields, i);
        SampleAt(models, fields, i);
        if i == at { LostDescribed(models, Some(fields[i].ty)); } else { SampleDescribed(models, Some(fields[i].ty)); }
        FieldStands(models, fields, all, i);
      }
    }
  }

  lemma {:induction false} LostUnfit(file: seq<Interface>, models: set<string>, d: Option<TypeDesc>)
    requires !Plain(models, d) && Known(file, models, Shapes(models, d))
    ensures !Fits(file, models, ANY_RECORD, Lost(models, d), Rendered(d))
    decreases SizeOf(d)
  {
    var v := Lost(models, d);
    BareRendered(d.value);
    if d.value.kind.ArrayKind? {
      LostUnfit(file, models, d.value.elem);
      assert v.items[0] == Lost(models, d.value.elem);
    } else if d.value.kind.RecordKind? {
      LostUnfit(file, models, d.value.elem);
      assert v.members[0].value == Lost(models, d.value.elem);
    } else if !(d.value.nullable && d.value.name == "unknown") {
      LostField(file, models, d.value);
      LostObject(file, models, d.value);
    }
  }

  lemma {:induction false} LostField(file: seq<Interface>, models: set<string>, d: TypeDesc)
    requires !Plain(models, Some(d)) && Known(file, models, Shapes(models, Some(d)))
    requires d.kind.ObjectKind? && !(d.nullable && d.name == "unknown")
    ensures var v := Lost(models, Some(d)); v.Obj? && !FitsMembers(file, models, ANY_RECORD, v, Members(d.fields))
    decreases Size(d), 0
  {
    hide Known, SampleFields, Members, Fits, Rendered;
    var fields, v := d.fields, Lost(models, Some(d));
    var i := FirstLost(models, fields);
    FieldSmaller(fields, i);
    FieldShapesAt(models, fields, i);
    KnownLess(file, models, Shapes(models, Some(d)), Shapes(models, Some(fields[i].ty)));
    LostUnfit(file, models, Some(fields[i].ty));
    MembersAt(fields, i);
    assert v.members[i].name == fields[i].name && v.members[i].value == Lost(models, Some(fields[i].ty));
    assert !FitsMember(file, models, ANY_RECORD, v, Members(fields)[i]);
  }

  lemma LostObject(file: seq<Interface>, models: set<string>, d: TypeDesc)
    requires !Plain(models, Some(d)) && Known(file, models, Shapes(models, Some(d)))
    requires d.kind.ObjectKind? && !(d.nullable && d.name == "unknown")
    requires var v := Lost(models, Some(d)); v.Obj? && !FitsMembers(file, models, ANY_RECORD, v, Members(d.fields))
    ensures !Fits(file, models, ANY_RECORD, Lost(models, Some(d)), Rendered(Some(d)))
  {
    hide Lost, FitsMembers, Members, FieldShapes, PlainFields;
    var v, bare := Lost(models, Some(d)), d.(nullable := false);
    BareRendered(d);
    var t := Rendered(Some(bare));
    if d.name != "" {
      assert Shape(d) in Shapes(models, Some(d));
      assert KnownShape(file, Shape(d));
      var i :| 0 <= i < |file| && file[i] == Interface(d.name, Members(d.fields));
      OnlyDeclared(file, models, ANY_RECORD, v, d.name, i);
    }
    assert !Fits(file, models, ANY_RECORD, v, t);
    if d.nullable { assert Fits(file, models, ANY_RECORD, v, OrNull(t)) <==> v.Null? || Fits(file, models, ANY_RECORD, v, t); }
  }

  /** A rendered type admits exactly the described values, whatever the models are, exactly when no null is lost in it. */
  lemma RenderedExactly(file: seq<Interface>, models: set<string>, d: Option<TypeDesc>)
    requires Known(file, models, Shapes(models, d)) && Named(models, d)
    ensures (forall records: Records, v: Value :: Fits(file, models, records, v, Rendered(d)) <==> Describes(models, records, v, d)) <==> Plain(models, d)
  {
    hide Known, Fits, Describes, Rendered, Plain, Named, Lost;
    if Plain(models, d) {
      forall records: Records, v: Value ensures Fits(file, models, records, v, Rendered(d)) <==> Describes(models, records, v, d) {
        RenderedAgrees(file, models, records, v, d);
      }
    } else {
      LostDescribed(models, d);
      LostUnfit(file, models, d);
    }
  }

  // ---------------------------------------------------------------- every type of a client

  ghost predicate Means(file: seq<Interface>, models: set<string>, t: Ts, d: Option<TypeDesc>) {
    forall records: Records, v: Value :: Agree(file, models, records, v, t, d)
  }

  /** A route's function takes a body: an action that declares one, or a raw route whose method sends one. */
  predicate TakesBody(r: Route) {
    if r.name == "" then r.verb in {"POST", "PUT", "PATCH"} else r.request != None
  }

  lemma ClientKnows(input: Input, actions: seq<Route>, c: Client)
    requires Accepted(input, actions) && IsClient(input, actions, c)
    ensures Known(c.interfaces, ModelNames(input), Bodies(ModelNames(input), Demands(input, actions)))
  {
    hide Bodies, Demands, FunctionRoutes, Signature, Entry, DeclaredFrom, Good;
    forall s | s in Bodies(ModelNames(input), Demands(input, actions)) ensures KnownShape(c.interfaces, s) { ShapeDeclared(input, actions, c, s); }
  }

  lemma BodyMeans(input: Input, actions: seq<Route>, c: Client, d: Option<TypeDesc>)
    requires Accepted(input, actions) && IsClient(input, actions, c) && Body(d) in Demands(input, actions)
    ensures Means(c.interfaces, ModelNames(input), Rendered(d), d)
  {
    hide Bodies, Demands, Accepted, IsClient, Known, Agree, Rendered, Shapes;
    var models := ModelNames(input);
    ClientKnows(input, actions, c);
    BodyIn(models, Demands(input, actions), d);
    KnownLess(c.interfaces, models, Bodies(models, Demands(input, actions)), Shapes(models, d));
    forall records: Records, v: Value ensures Agree(c.interfaces, models, records, v, Rendered(d), d) {
      RenderedAgrees(c.interfaces, models, records, v, d);
    }
  }

  /**
   Every function, action and interface of a client stands for what its route or body type
   describes: its name, whether it takes a body, and the values its types admit.
   */
  lemma ClientMeans(input: Input, actions: seq<Route>, c: Client)
    requires Accepted(input, actions) && IsClient(input, actions, c)
    ensures |c.functions| == |FunctionRoutes(input)| && forall i | 0 <= i < |c.functions| ::
              FunctionMeans(c.interfaces, ModelNames(input), c.functions[i], FunctionRoutes(input)[i])
    ensures |c.actions| == |actions| && forall i | 0 <= i < |actions| :: ActionMeans(c.interfaces, ModelNames(input), c.actions[i], actions[i])
    ensures forall s | s in Bodies(ModelNames(input), Demands(input, actions)) ::
              exists i :: 0 <= i < |c.interfaces| && InterfaceMeans(c.interfaces, ModelNames(input), c.interfaces[i], s)
  {
    hide Accepted, Demands, FunctionRoutes, Bodies, Means, Rendered, InterfaceMeans, Declares;
    forall i | 0 <= i < |c.functions| ensures FunctionMeans(c.interfaces, ModelNames(input), c.functions[i], FunctionRoutes(input)[i]) {
      var r := FunctionRoutes(input)[i];
      RouteBodies(input, actions, r);
      BodyMeans(input, actions, c, r.response);
      if TakesBody(r) { BodyMeans(input, actions, c, r.request); }
    }
    forall i | 0 <= i < |actions| ensures ActionMeans(c.interfaces, ModelNames(input), c.actions[i], actions[i]) {
      ActionBodies(input, actions, actions[i]);
      BodyMeans(input, actions, c, actions[i].response);
      BodyMeans(input, actions, c, actions[i].request);
    }
    forall s | s in Bodies(ModelNames(input), Demands(input, actions))
      ensures exists i :: 0 <= i < |c.interfaces| && InterfaceMeans(c.interfaces, ModelNames(input), c.interfaces[i], s) {
      ShapeMeans(input, actions, c, s);
    }
  }

  ghost predicate FunctionMeans(file: seq<Interface>, models: set<string>, f: Function, r: Route) {
    && f.name == r.fn && f.hook == r.hook && Means(file, models, f.response, r.response) && f.paged == r.list
    && (f.takesId <==> r.name != "" && r.scope != "collection")
    && (f.request.Some? <==> TakesBody(r)) && (f.request.Some? ==> Means(file, models, f.request.value, r.request))
  }

  ghost predicate ActionMeans(file: seq<Interface>, models: set<string>, a: Action, r: Route) {
    && a.name == r.name && Means(file, models, a.response, r.response) && a.paged == r.list && (a.takesId <==> r.scope == "record")
    && (a.request.Some? <==> r.request.Some?) && (a.request.Some? ==> Means(file, models, a.request.value, r.request))
  }

  ghost predicate InterfaceMeans(file: seq<Interface>, models: set<string>, one: Interface, s: TypeDesc) {
    && one.name == s.name
    && forall records: Records, v: Value | v.Obj? ::
         && (FitsMembers(file, models, records, v, one.members) ==> DescribesFields(models, records, v, s.fields))
         && (PlainFields(models, s.fields) && DescribesFields(models, records, v, s.fields) ==> FitsMembers(file, models, records, v, one.members))
  }

  lemma ShapeMeans(input: Input, actions: seq<Route>, c: Client, s: TypeDesc)
    requires Accepted(input, actions) && IsClient(input, actions, c) && s in Bodies(ModelNames(input), Demands(input, actions))
    ensures exists i :: 0 <= i < |c.interfaces| && InterfaceMeans(c.interfaces, ModelNames(input), c.interfaces[i], s)
  {
    hide Accepted, IsClient, Bodies, Demands, Known, Members, FitsMembers, DescribesFields, PlainFields;
    var models := ModelNames(input);
    ClientKnows(input, actions, c);
    BodiesClosed(models, Demands(input, actions), s);
    KnownLess(c.interfaces, models, Bodies(models, Demands(input, actions)), FieldShapes(models, s.fields));
    ShapeDeclared(input, actions, c, s);
    var i :| 0 <= i < |c.interfaces| && c.interfaces[i] == Interface(s.name, Members(s.fields));
    var one := c.interfaces[i];
    forall records: Records, v: Value | v.Obj?
      ensures FitsMembers(c.interfaces, models, records, v, one.members) ==> DescribesFields(models, records, v, s.fields)
      ensures PlainFields(models, s.fields) && DescribesFields(models, records, v, s.fields) ==> FitsMembers(c.interfaces, models, records, v, one.members)
    {
      FieldsAgree(c.interfaces, models, records, v, s.fields);
    }
    assert InterfaceMeans(c.interfaces, models, c.interfaces[i], s);
  }

  // ---------------------------------------------------------------- a client that loses a null

  const UNKNOWN := TypeDesc(ObjectKind, "unknown", None, [], true)
  const UNKNOWN_ROUTE := Route("GET", "/c", "", "", "", "", false, None, Some(UNKNOWN), false, "getC", "useGetC", [])

  /** A module with a route that returns an object type called `unknown`, or null. */
  const UNKNOWNS := Input("cApi", [], [UNKNOWN_ROUTE])

  lemma UnknownsDemands()
    ensures Demands(UNKNOWNS, []) == [Name("cApi"), Body(Some(UNKNOWN)), Name("getC"), Name("useGetC")]
    ensures FunctionRoutes(UNKNOWNS) == [UNKNOWN_ROUTE] && ModelNames(UNKNOWNS) == {}
  {
    var p := (r: Route) => GetsFunction(UNKNOWNS, r);
    assert UNKNOWN_ROUTE.name !in CrudOps();
    assert [UNKNOWN_ROUTE][..0] == [];
    assert Kept([UNKNOWN_ROUTE], p) == Kept([UNKNOWN_ROUTE][..0], p) + [UNKNOWN_ROUTE];
    SortOne([UNKNOWN_ROUTE], RouteLeq);
    FlatOne(UNKNOWN_ROUTE, RouteDemands);
  }

  lemma UnknownsCoherent(taken: set<string>)
    requires "unknown" !in taken
    ensures Shapes({}, Some(UNKNOWN)) == {Shape(UNKNOWN)} && Coherent(taken, {} + {Shape(UNKNOWN)})
  {
  }

  lemma UnknownNames()
    ensures "unknown" !in Reserved() && (forall n | n in ["cApi", "getC", "useGetC"] :: Identifier(n) && n !in Reserved())
  {
    ContactNames();
  }

  lemma UnknownsBody()
    ensures var ds := [Name("cApi"), Body(Some(UNKNOWN))];
            Good({}, ds) && Taken(ds) == ["cApi"] && NamesOf(Bodies({}, ds)) == {"unknown"}
  {
    var models: set<string> := {};
    UnknownNames();
    NoDemands(models);
    hide Good, Reserved, Identifier, Bodies, Taken, Shapes, Coherent;
    var a := [] + [Name("cApi")];
    assert "cApi" in ["cApi", "getC", "useGetC"];
    GoodName(models, [], "cApi");
    assert Taken(a) == ["cApi"];
    UnknownsCoherent(SetOf(Reserved()) + SetOf(Taken(a)));
    GoodBody(models, a, Some(UNKNOWN));
    assert a + [Body(Some(UNKNOWN))] == [Name("cApi"), Body(Some(UNKNOWN))];
    UnknownNamed();
  }

  lemma UnknownNamed()
    ensures NamesOf({} + {Shape(UNKNOWN)}) == {"unknown"}
  {
    assert Shape(UNKNOWN) in {Shape(UNKNOWN)} && Shape(UNKNOWN).name == "unknown";
  }

  lemma UnknownsGood()
    ensures Good({}, [Name("cApi"), Body(Some(UNKNOWN)), Name("getC"), Name("useGetC")])
  {
    UnknownNames();
    UnknownsBody();
    hide Good, Reserved, Identifier, Bodies, Taken, NamesOf;
    var b := [Name("cApi"), Body(Some(UNKNOWN))];
    assert "getC" in ["cApi", "getC", "useGetC"] && "useGetC" in ["cApi", "getC", "useGetC"];
    GoodName({}, b, "getC");
    GoodName({}, b + [Name("getC")], "useGetC");
    assert b + [Name("getC")] + [Name("useGetC")] == [Name("cApi"), Body(Some(UNKNOWN)), Name("getC"), Name("useGetC")];
  }

  lemma UnknownsAccepted()
    ensures ActionsOf(UNKNOWNS.routes, []) && Accepted(UNKNOWNS, [])
  {
    UnknownsDemands();
    UnknownsGood();
    hide Good, Demands, FunctionRoutes, ModelNames, Flat;
    assert !Callable(UNKNOWN_ROUTE);
  }

  /** The client is generated, and the type of its function refuses a null the route may return. */
  lemma NullLost(c: Client, records: Records)
    requires IsClient(UNKNOWNS, [], c)
    ensures ActionsOf(UNKNOWNS.routes, []) && Accepted(UNKNOWNS, []) && |c.functions| == 1
    ensures Describes({}, records, Null, UNKNOWN_ROUTE.response) && !Fits(c.interfaces, {}, records, Null, c.functions[0].response)
  {
    UnknownsAccepted();
    UnknownsDemands();
    hide Demands, FunctionRoutes, ModelNames, Accepted, ActionsOf, Declares;
    assert c.functions[0] == Signature(UNKNOWN_ROUTE);
  }
}
