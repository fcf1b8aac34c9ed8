/**
 Tenants' overrides of view elements: what the table says, the check each write must
 pass, and that writes which pass it keep every view safe.
 */
module ViewOverrides {
  import opened Basics
  import opened ViewTree

  // ---------------------------------------------------------------- schema and views

  datatype Field = Field(name: string, required: bool, related: string)

  /** A view's own members hold the collections; they are not an element themselves. */
  datatype View = View(name: string, resource: string, root: Item)

  /** Every module's models by resource, and every module's views. */
  datatype Schema = Schema(models: map<string, seq<Field>>, views: seq<View>)

  function FindField(fields: seq<Field>, name: string): Option<Field> {
    if fields == [] then None else if fields[0].name == name then Some(fields[0]) else FindField(fields[1..], name)
  }

  function SchemaField(schema: Schema, resource: string, name: string): Option<Field> {
    if resource in schema.models then FindField(schema.models[resource], name) else None
  }

  /** An element met on the way through a view, with the resource its name refers to. */
  datatype Visit = Visit(resource: string, props: Props)

  /** Inside a sub-list, names refer to the related model. */
  function ChildResource(schema: Schema, resource: string, props: Props): string {
    var field := SchemaField(schema, resource, NameOf(props));
    if "type" in props && props["type"] == Text("sub_list") && field.Some? then field.value.related else resource
  }

  function Walk(schema: Schema, parent: Item, resource: string): seq<Visit>
    decreases parent, 1
  {
    match parent
    case Opaque(_) => []
    case Element(_, columns, fields, sections, tabs) =>
      WalkAll(schema, columns, resource) + WalkAll(schema, fields, resource)
      + WalkAll(schema, sections, resource) + WalkAll(schema, tabs, resource)
  }

  /** An element and everything in it. */
  function VisitsOf(schema: Schema, item: Item, resource: string): seq<Visit>
    decreases item, 2
  {
    if item.Opaque? then []
    else [Visit(resource, item.props)] + Walk(schema, item, ChildResource(schema, resource, item.props))
  }

  function WalkAll(schema: Schema, items: seq<Item>, resource: string): seq<Visit>
    decreases items, 0
  {
    if items == [] then [] else VisitsOf(schema, items[0], resource) + WalkAll(schema, items[1..], resource)
  }

  // ---------------------------------------------------------------- overrides

  /** An override's value as it was sent. */
  datatype Raw = Malformed | Null | RawText(text: string) | RawFlag(on: bool) | RawNumber(value: Option<int>) | RawOther

  /** The value a property accepts, or none. */
  function OverrideValue(property: string, raw: Raw): Option<Prop> {
    if property == "label" || property == "help_text" || property == "placeholder" then
      if raw.RawText? then Some(Text(raw.text)) else None
    else if property == "hidden" || property == "required" then
      if raw.RawFlag? then Some(Flag(raw.on)) else None
    else if property == "order" then
      if raw.RawNumber? && raw.value.Some? && raw.value.value >= 0 then Some(Number(raw.value)) else None
    else None
  }

  /** `raw` is the value `v` of a property that can be overridden, in the form that property has. */
  predicate Accepts(property: string, raw: Raw, v: Prop) {
    || (v.Text? && raw == RawText(v.text) && property in {"label", "help_text", "placeholder"})
    || (v.Flag? && raw == RawFlag(v.on) && property in {"hidden", "required"})
    || (v.Number? && v.value.Some? && 0 <= v.value.value && raw == RawNumber(v.value) && property == "order")
  }

  lemma AcceptsExactly(property: string, raw: Raw, v: Prop)
    ensures OverrideValue(property, raw) == Some(v) <==> Accepts(property, raw, v)
    ensures Accepts(property, raw, v) ==> property in Properties()
  {
  }

  function Properties(): set<string> {
    {"label", "help_text", "placeholder", "hidden", "required", "order"}
  }

  type Key = (string, string, string)

  /** What the table says, by view, element and property. */
  type Values = map<Key, Raw>

  /** The patch of one element of one view. */
  function PatchOf(values: Values, view: string, element: string): Props {
    map p | p in Properties() && (view, element, p) in values && OverrideValue(p, values[(view, element, p)]).Some?
      :: OverrideValue(p, values[(view, element, p)]).value
  }

  // ---------------------------------------------------------------- hidden and required

  predicate HiddenNow(props: Props, patch: Props) {
    if "hidden" in patch && patch["hidden"].Flag? then patch["hidden"].on else FlagOf(props, "hidden")
  }

  /** An override decides; without one, the element's own flag or the model field's. */
  predicate RequiredNow(field: Field, props: Props, patch: Props) {
    if "required" in patch && patch["required"].Flag? then patch["required"].on else FlagOf(props, "required") || field.required
  }

  predicate Conflicts(schema: Schema, v: Visit, patch: Props) {
    var field := SchemaField(schema, v.resource, NameOf(v.props));
    field.Some? && HiddenNow(v.props, patch) && RequiredNow(field.value, v.props, patch)
  }

  /** The check a write must pass: the target element, wherever the view of that name has it. */
  predicate StateValid(schema: Schema, values: Values, view: string, target: string) {
    forall i | 0 <= i < |schema.views| && schema.views[i].name == view ::
      var visits := Walk(schema, schema.views[i].root, schema.views[i].resource);
      forall k | 0 <= k < |visits| && NameOf(visits[k].props) == target ::
        !Conflicts(schema, visits[k], PatchOf(values, view, target))
  }

  /** No element of any view that names a model field is hidden and required. */
  predicate Safe(schema: Schema, values: Values) {
    forall i | 0 <= i < |schema.views| :: SafeView(schema, schema.views[i], values)
  }

  predicate SafeView(schema: Schema, view: View, values: Values) {
    var visits := Walk(schema, view.root, view.resource);
    forall k | 0 <= k < |visits| :: !Conflicts(schema, visits[k], PatchOf(values, view.name, NameOf(visits[k].props)))
  }

  // ---------------------------------------------------------------- rows

  datatype Row = Row(id: string, view: string, element: string, property: string, value: Raw)

  function KeyOf(r: Row): Key { (r.view, r.element, r.property) }

  function ValuesOf(rows: seq<Row>): Values {
    if rows == [] then map[] else ValuesOf(rows[..|rows| - 1])[KeyOf(rows[|rows| - 1]) := rows[|rows| - 1].value]
  }

  predicate UniqueKeys(rows: seq<Row>) {
    forall i, j | 0 <= i < j < |rows| :: KeyOf(rows[i]) != KeyOf(rows[j])
  }

  lemma {:induction false} ValuesAt(rows: seq<Row>, key: Key)
    requires UniqueKeys(rows)
    ensures key in ValuesOf(rows) <==> exists i :: 0 <= i < |rows| && KeyOf(rows[i]) == key
    ensures forall i | 0 <= i < |rows| :: KeyOf(rows[i]) in ValuesOf(rows) && ValuesOf(rows)[KeyOf(rows[i])] == rows[i].value
    decreases |rows|
  {
    if rows != [] {
      var k := |rows| - 1;
      ValuesAt(rows[..k], key);
      var init := rows[..k];
      forall i | 0 <= i < |rows| ensures KeyOf(rows[i]) in ValuesOf(rows) && ValuesOf(rows)[KeyOf(rows[i])] == rows[i].value {
        if i < k { assert init[i] == rows[i] && KeyOf(rows[i]) != KeyOf(rows[k]); }
      }
      if key in ValuesOf(rows) && key != KeyOf(rows[k]) {
        var i :| 0 <= i < |init| && KeyOf(init[i]) == key;
        assert KeyOf(rows[i]) == key;
      }
    }
  }

  /** The row with the candidate's key replaced, or the candidate added. */
  method ReplaceViewOverride(rows: seq<Row>, candidate: Row) returns (r: seq<Row>)
    requires UniqueKeys(rows)
    ensures UniqueKeys(r) && ValuesOf(r) == ValuesOf(rows)[KeyOf(candidate) := candidate.value]
  {
    hide ValuesOf;
    for i := 0 to |rows|
      invariant forall k | 0 <= k < i :: KeyOf(rows[k]) != KeyOf(candidate)
    {
      if KeyOf(rows[i]) == KeyOf(candidate) {
        r := rows[i := candidate];
        ReplacedValues(rows, i, candidate);
        return;
      }
    }
    AppendedValues(rows, candidate);
    return rows + [candidate];
  }

  lemma AppendedValues(rows: seq<Row>, c: Row)
    ensures ValuesOf(rows + [c]) == ValuesOf(rows)[KeyOf(c) := c.value]
  {
    assert (rows + [c])[..|rows|] == rows;
  }

  lemma {:induction false} ReplacedValues(rows: seq<Row>, i: nat, c: Row)
    requires UniqueKeys(rows) && i < |rows| && KeyOf(rows[i]) == KeyOf(c)
    ensures UniqueKeys(rows[i := c]) && ValuesOf(rows[i := c]) == ValuesOf(rows)[KeyOf(c) := c.value]
    decreases |rows|
  {
    var k := |rows| - 1;
    var r := rows[i := c];
    if i == k {
      assert r[..k] == rows[..k];
    } else {
      ReplacedValues(rows[..k], i, c);
      assert r[..k] == rows[..k][i := c] && r[k] == rows[k];
      assert KeyOf(rows[i]) != KeyOf(rows[k]);
    }
  }

  function PatchIn(patches: map<string, Props>, element: string): Props {
    if element in patches then patches[element] else map[]
  }

  /** The patches of a view, read off the rows one by one; a value its property refuses is skipped. */
  method OverridesForView(rows: seq<Row>, view: string) returns (patches: map<string, Props>)
    requires UniqueKeys(rows)
    ensures forall e :: PatchIn(patches, e) == PatchOf(ValuesOf(rows), view, e)
    ensures forall e | e in patches :: patches[e] != map[]
  {
    hide OverrideValue, ValuesOf, PatchOf;
    patches := map[];
    NoPatches(view);
    for i := 0 to |rows|
      invariant forall e :: PatchIn(patches, e) == PatchOf(ValuesOf(rows[..i]), view, e)
      invariant forall e | e in patches :: patches[e] != map[]
    {
      var row := rows[i];
      PatchGrows(rows, i, view);
      ghost var before := patches;
      if row.view == view {
        var value := OverrideValue(row.property, row.value);
        if value.Some? {
          var patch := PatchIn(patches, row.element);
          patches := patches[row.element := patch[row.property := value.value]];
          assert row.property in patches[row.element];
        }
      }
      forall e ensures PatchIn(patches, e) == PatchOf(ValuesOf(rows[..i + 1]), view, e) {
        assert PatchIn(before, e) == PatchOf(ValuesOf(rows[..i]), view, e);
      }
    }
    assert rows[..|rows|] == rows;
  }

  lemma NoPatches(view: string)
    ensures forall e :: PatchOf(ValuesOf([]), view, e) == map[]
  {
  }

  lemma AcceptedProperties(property: string, raw: Raw)
    ensures OverrideValue(property, raw).Some? ==> property in Properties()
  {
  }

  /** What one more row with a key of its own does to the patches. */
  lemma PatchGrows(rows: seq<Row>, i: nat, view: string)
    requires UniqueKeys(rows) && i < |rows|
    ensures var row := rows[i];
            var value := OverrideValue(row.property, row.value);
            forall e :: PatchOf(ValuesOf(rows[..i + 1]), view, e)
                        == (var before := PatchOf(ValuesOf(rows[..i]), view, e);
                            if row.view == view && row.element == e && value.Some? then before[row.property := value.value] else before)
  {
    hide OverrideValue, PatchOf;
    var row := rows[i];
    assert rows[..i + 1] == rows[..i] + [row];
    AppendedValues(rows[..i], row);
    ValuesAt(rows[..i], KeyOf(row));
    forall k | 0 <= k < i ensures KeyOf(rows[..i][k]) != KeyOf(row) { assert KeyOf(rows[k]) != KeyOf(rows[i]); }
    forall e ensures PatchOf(ValuesOf(rows[..i + 1]), view, e) == (var before := PatchOf(ValuesOf(rows[..i]), view, e);
      if row.view == view && row.element == e && OverrideValue(row.property, row.value).Some?
      then before[row.property := OverrideValue(row.property, row.value).value] else before)
    {
      PatchPut(ValuesOf(rows[..i]), row, view, e);
    }
  }

  lemma PatchPut(values: Values, row: Row, view: string, element: string)
    requires KeyOf(row) !in values
    ensures var value := OverrideValue(row.property, row.value);
            PatchOf(values[KeyOf(row) := row.value], view, element)
            == (var before := PatchOf(values, view, element);
                if row.view == view && row.element == element && value.Some? then before[row.property := value.value] else before)
  {
    hide OverrideValue, Properties;
    AcceptedProperties(row.property, row.value);
  }

  // ---------------------------------------------------------------- the check, as it runs

  /** Whether the target may be in the state the rows give it. */
  method ValidateViewOverrideState(schema: Schema, rows: seq<Row>, view: string, target: string) returns (ok: bool)
    requires UniqueKeys(rows)
    ensures ok <==> StateValid(schema, ValuesOf(rows), view, target)
  {
    hide Walk, ValuesOf, PatchOf, Conflicts;
    var patches := OverridesForView(rows, view);
    var patch := PatchIn(patches, target);
    for i := 0 to |schema.views|
      invariant forall q | 0 <= q < i :: schema.views[q].name == view ==> TargetClear(schema, schema.views[q], target, patch)
    {
      if schema.views[i].name == view {
        var visits := Walk(schema, schema.views[i].root, schema.views[i].resource);
        for k := 0 to |visits|
          invariant forall q | 0 <= q < k && NameOf(visits[q].props) == target :: !Conflicts(schema, visits[q], patch)
        {
          if NameOf(visits[k].props) == target && Conflicts(schema, visits[k], patch) {
            return false;
          }
        }
      }
    }
    return true;
  }

  predicate TargetClear(schema: Schema, view: View, target: string, patch: Props) {
    var visits := Walk(schema, view.root, view.resource);
    forall k | 0 <= k < |visits| && NameOf(visits[k].props) == target :: !Conflicts(schema, visits[k], patch)
  }

  // ---------------------------------------------------------------- the table

  datatype Stored = Stored(id: string, value: Raw)

  type Table = map<Key, Stored>

  function Contents(t: Table): Values { map k | k in t :: t[k].value }

  ghost predicate UniqueIds(t: Table) {
    && (forall a, b | a in t && b in t && a != b :: t[a].id != t[b].id)
    && forall k | k in t :: t[k].id != ""
  }

  datatype Problem = Invalid | Hidden | NotFound

  /** A create request; `required` is the optional companion value. */
  datatype Request = Request(view: string, element: string, property: string, value: Raw, required: Option<Raw>)

  predicate WellFormedRequest(q: Request) {
    && q.view != "" && q.element != "" && q.property != "" && OverrideValue(q.property, q.value).Some?
    && (q.required.Some? ==>
          OverrideValue("required", q.required.value) == Some(Flag(false)) && q.property == "hidden" && q.value == RawFlag(true))
  }

  /** What the table would say after the request. */
  function Requested(values: Values, q: Request): Values {
    var one := values[(q.view, q.element, q.property) := q.value];
    if q.required.Some? then one[(q.view, q.element, "required") := RawFlag(false)] else one
  }

  /** The contents after a create, if it is accepted. */
  function Created(schema: Schema, values: Values, q: Request): Result<Values, Problem> {
    if !WellFormedRequest(q) then Err(Invalid)
    else if !StateValid(schema, Requested(values, q), q.view, q.element) then Err(Hidden)
    else Ok(Requested(values, q))
  }

  function Deleted(schema: Schema, values: Values, key: Key): Result<Values, Problem> {
    if key !in values then Err(NotFound)
    else if !StateValid(schema, values - {key}, key.0, key.1) then Err(Hidden)
    else Ok(values - {key})
  }

  // ---------------------------------------------------------------- writes keep views safe

  /** Elements whose overrides do not change keep their state. */
  lemma UntouchedSafe(schema: Schema, before: Values, after: Values, view: string, element: string)
    requires Safe(schema, before) && StateValid(schema, after, view, element)
    requires forall v, e, p | !(v == view && e == element) :: ((v, e, p) in before <==> (v, e, p) in after)
               && ((v, e, p) in before ==> before[(v, e, p)] == after[(v, e, p)])
    ensures Safe(schema, after)
  {
    hide Walk, Conflicts, OverrideValue;
    forall i | 0 <= i < |schema.views| ensures SafeView(schema, schema.views[i], after) {
      var w := schema.views[i];
      assert SafeView(schema, w, before);
      var visits := Walk(schema, w.root, w.resource);
      forall k | 0 <= k < |visits| ensures !Conflicts(schema, visits[k], PatchOf(after, w.name, NameOf(visits[k].props))) {
        var name := NameOf(visits[k].props);
        if !(w.name == view && name == element) {
          SamePatch(before, after, w.name, name);
        }
      }
    }
  }

  lemma SamePatch(before: Values, after: Values, view: string, element: string)
    requires forall p :: ((view, element, p) in before <==> (view, element, p) in after)
               && ((view, element, p) in before ==> before[(view, element, p)] == after[(view, element, p)])
    ensures PatchOf(before, view, element) == PatchOf(after, view, element)
  {
    hide OverrideValue, Properties;
  }

  lemma CreateKeepsSafe(schema: Schema, values: Values, q: Request)
    requires Safe(schema, values) && Created(schema, values, q).Ok?
    ensures Safe(schema, Created(schema, values, q).value)
  {
    hide Safe, StateValid, OverrideValue;
    UntouchedSafe(schema, values, Requested(values, q), q.view, q.element);
  }

  lemma DeleteKeepsSafe(schema: Schema, values: Values, key: Key)
    requires Safe(schema, values) && Deleted(schema, values, key).Ok?
    ensures Safe(schema, Deleted(schema, values, key).value)
  {
    hide Safe, StateValid, OverrideValue;
    UntouchedSafe(schema, values, values - {key}, key.0, key.1);
  }

  datatype Op = Create(q: Request) | Delete(key: Key)

  function Apply(schema: Schema, values: Values, op: Op): Values {
    var r := match op case Create(q) => Created(schema, values, q) case Delete(key) => Deleted(schema, values, key);
    if r.Ok? then r.value else values
  }

  function Run(schema: Schema, values: Values, ops: seq<Op>): Values {
    if ops == [] then values else Apply(schema, Run(schema, values, ops[..|ops| - 1]), ops[|ops| - 1])
  }

  /** From a consistent schema and an empty table, no history of writes makes a view unsafe. */
  lemma {:induction false} HistorySafe(schema: Schema, ops: seq<Op>)
    requires Safe(schema, map[])
    ensures Safe(schema, Run(schema, map[], ops))
    decreases |ops|
  {
    hide Safe, Created, Deleted;
    if ops != [] {
      HistorySafe(schema, ops[..|ops| - 1]);
      var before, op := Run(schema, map[], ops[..|ops| - 1]), ops[|ops| - 1];
      match op
      case Create(q) => if Created(schema, before, q).Ok? { CreateKeepsSafe(schema, before, q); }
      case Delete(key) => if Deleted(schema, before, key).Ok? { DeleteKeepsSafe(schema, before, key); }
    }
  }
}
