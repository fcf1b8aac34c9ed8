/** The override table under its lock, and the views served from it. */
module ServedViews {
  import opened Basics
  import opened ViewTree
  import opened ViewOverrides

  // ---------------------------------------------------------------- the store

  class OverrideStore {
    const schema: Schema
    var table: Table

    constructor (schema: Schema)
      ensures this.schema == schema && table == map[]
    {
      this.schema, this.table := schema, map[];
    }

    /** All rows, as a write sees them under the tenant's lock. */
    method Load() returns (rows: seq<Row>)
      ensures UniqueKeys(rows) && ValuesOf(rows) == Contents(table)
      ensures forall i | 0 <= i < |rows| :: KeyOf(rows[i]) in table && table[KeyOf(rows[i])] == Stored(rows[i].id, rows[i].value)
      ensures forall k | k in table :: exists i :: 0 <= i < |rows| && KeyOf(rows[i]) == k
    {
      rows := [];
      var left := table.Keys;
      while left != {}
        invariant left <= table.Keys && UniqueKeys(rows)
        invariant forall i | 0 <= i < |rows| :: KeyOf(rows[i]) in table && KeyOf(rows[i]) !in left
                                                && table[KeyOf(rows[i])] == Stored(rows[i].id, rows[i].value)
        invariant forall k | k in table && k !in left :: exists i :: 0 <= i < |rows| && KeyOf(rows[i]) == k
        decreases left
      {
        var k :| k in left;
        ghost var before, was := rows, left;
        rows := rows + [Row(table[k].id, k.0, k.1, k.2, table[k].value)];
        left := left - {k};
        assert KeyOf(rows[|before|]) == k;
        forall q | q in table && q !in left ensures exists i :: 0 <= i < |rows| && KeyOf(rows[i]) == q {
          if q != k {
            var i :| 0 <= i < |before| && KeyOf(before[i]) == q;
            assert KeyOf(rows[i]) == q;
          }
        }
      }
      LoadedValues(rows, table);
    }

    method Upsert(key: Key, value: Raw, id: string)
      requires UniqueIds(table) && id != "" && forall k | k in table :: table[k].id != id
      modifies this
      ensures UniqueIds(table) && Contents(table) == old(Contents(table))[key := value]
      ensures forall k | k in table :: (k in old(table) && table[k].id == old(table)[k].id) || table[k].id == id
    {
      UpsertKeeps(table, key, value, id);
      hide UniqueIds, Contents;
      table := table[key := Stored(if key in table then table[key].id else id, value)];
    }

    /**
     One create under the lock: the rows as they would be are checked, then exactly that
     is committed, both properties or neither. `ids` are the identifiers new rows would get.
     */
    method Create(q: Request, ids: (string, string)) returns (problem: Option<Problem>)
      requires UniqueIds(table) && ids.0 != "" && ids.1 != "" && ids.0 != ids.1
      requires forall k | k in table :: table[k].id != ids.0 && table[k].id != ids.1
      modifies this
      ensures UniqueIds(table)
      ensures match Created(schema, old(Contents(table)), q)
              case Ok(values) => problem == None && Contents(table) == values
              case Err(e) => problem == Some(e) && table == old(table)
    {
      hide StateValid, OverrideValue, UniqueIds, ValuesOf, Contents;
      if !WellFormedRequest(q) {
        return Some(Invalid);
      }
      var rows := Load();
      rows := ReplaceViewOverride(rows, Row("", q.view, q.element, q.property, q.value));
      if q.required.Some? {
        rows := ReplaceViewOverride(rows, Row("", q.view, q.element, "required", RawFlag(false)));
      }
      var ok := ValidateViewOverrideState(schema, rows, q.view, q.element);
      if !ok {
        return Some(Hidden);
      }
      Upsert((q.view, q.element, q.property), q.value, ids.0);
      if q.required.Some? {
        Upsert((q.view, q.element, "required"), RawFlag(false), ids.1);
      }
      return None;
    }

    /** One delete under the lock: what remains is checked, then exactly that is committed. */
    method Delete(id: string) returns (problem: Option<Problem>)
      requires UniqueIds(table)
      modifies this
      ensures UniqueIds(table)
      ensures (forall k | k in old(table) :: old(table)[k].id != id) ==> problem == Some(NotFound) && table == old(table)
      ensures forall key | key in old(table) && old(table)[key].id == id ::
                match Deleted(schema, old(Contents(table)), key)
                case Ok(values) => problem == None && Contents(table) == values
                case Err(e) => problem == Some(e) && table == old(table)
    {
      hide StateValid, ValuesOf, Contents, UniqueIds, UniqueKeys, Walk;
      var rows := Load();
      var found, remaining, d := Without(rows, table, id);
      if found.None? {
        NoRow(rows, table, id);
        return Some(NotFound);
      }
      RemainingValues(rows, d);
      TheRow(table, KeyOf(found.value), id);
      var ok := ValidateViewOverrideState(schema, remaining, found.value.view, found.value.element);
      if !ok {
        return Some(Hidden);
      }
      table := map k | k in table && table[k].id != id :: table[k];
      return None;
    }
  }

  /** The row with the given identifier, and the rows that are left when it goes. */
  method Without(rows: seq<Row>, ghost table: Table, id: string) returns (found: Option<Row>, remaining: seq<Row>, ghost d: nat)
    requires UniqueKeys(rows) && UniqueIds(table)
    requires forall i | 0 <= i < |rows| :: KeyOf(rows[i]) in table && table[KeyOf(rows[i])] == Stored(rows[i].id, rows[i].value)
    ensures found.None? ==> remaining == rows && forall k | 0 <= k < |rows| :: rows[k].id != id
    ensures found.Some? ==> d < |rows| && rows[d] == found.value && found.value.id == id && remaining == rows[..d] + rows[d + 1..]
  {
    found, remaining, d := None, [], 0;
    for i := 0 to |rows|
      invariant found.None? ==> remaining == rows[..i] && forall k | 0 <= k < i :: rows[k].id != id
      invariant found.Some? ==> d < i && rows[d] == found.value && found.value.id == id && remaining == rows[..d] + rows[d + 1..i]
    {
      if rows[i].id == id {
        assert found.None? by { OneRow(rows, table, id, i); }
        found, d := Some(rows[i]), i;
      } else {
        remaining := remaining + [rows[i]];
      }
    }
  }

  lemma UpsertKeeps(table: Table, key: Key, value: Raw, id: string)
    requires UniqueIds(table) && id != "" && forall k | k in table :: table[k].id != id
    ensures var t := table[key := Stored(if key in table then table[key].id else id, value)];
            UniqueIds(t) && Contents(t) == Contents(table)[key := value]
  {
  }

  /** Dropping by identifier drops one key. */
  lemma TheRow(table: Table, key: Key, id: string)
    requires UniqueIds(table) && key in table && table[key].id == id
    ensures forall k | k in table && table[k].id == id :: k == key
    ensures var t := map k | k in table && table[k].id != id :: table[k];
            UniqueIds(t) && Contents(t) == Contents(table) - {key}
    ensures key in Contents(table)
  {
    var t := map k | k in table && table[k].id != id :: table[k];
    assert UniqueIds(t);
    assert t == table - {key};
    hide UniqueIds;
    assert Contents(table - {key}) == Contents(table) - {key};
  }

  lemma LoadedValues(rows: seq<Row>, table: Table)
    requires UniqueKeys(rows)
    requires forall i | 0 <= i < |rows| :: KeyOf(rows[i]) in table && table[KeyOf(rows[i])].value == rows[i].value
    requires forall k | k in table :: exists i :: 0 <= i < |rows| && KeyOf(rows[i]) == k
    ensures ValuesOf(rows) == Contents(table)
  {
    hide ValuesOf;
    var a, b := ValuesOf(rows), Contents(table);
    forall k ensures k in a <==> k in b { ValuesAt(rows, k); }
    forall k | k in a ensures a[k] == b[k] {
      ValuesAt(rows, k);
      var i :| 0 <= i < |rows| && KeyOf(rows[i]) == k;
      assert a[KeyOf(rows[i])] == rows[i].value;
    }
  }

  lemma OneRow(rows: seq<Row>, table: Table, id: string, i: nat)
    requires UniqueKeys(rows) && UniqueIds(table) && i < |rows| && rows[i].id == id
    requires forall k | 0 <= k < |rows| :: KeyOf(rows[k]) in table && table[KeyOf(rows[k])].id == rows[k].id
    ensures forall d | 0 <= d < i :: rows[d].id != id
  {
    forall d | 0 <= d < i ensures rows[d].id != id { assert KeyOf(rows[d]) != KeyOf(rows[i]); }
  }

  lemma NoRow(rows: seq<Row>, table: Table, id: string)
    requires forall k | 0 <= k < |rows| :: rows[k].id != id && KeyOf(rows[k]) in table && table[KeyOf(rows[k])].id == rows[k].id
    requires forall k | k in table :: exists i :: 0 <= i < |rows| && KeyOf(rows[i]) == k
    ensures forall k | k in table :: table[k].id != id
  {
  }

  function Shifted(i: nat, d: nat): nat { if i < d then i else i + 1 }

  lemma RemainingKeys(rows: seq<Row>, d: nat)
    requires UniqueKeys(rows) && d < |rows|
    ensures UniqueKeys(rows[..d] + rows[d + 1..])
  {
    var rest := rows[..d] + rows[d + 1..];
    forall i, j | 0 <= i < j < |rest| ensures KeyOf(rest[i]) != KeyOf(rest[j]) {
      assert rest[i] == rows[Shifted(i, d)] && rest[j] == rows[Shifted(j, d)];
    }
  }

  lemma RemainingAt(rows: seq<Row>, rest: seq<Row>, d: nat, k: Key)
    requires UniqueKeys(rows) && d < |rows| && rest == rows[..d] + rows[d + 1..]
    ensures (exists i :: 0 <= i < |rest| && KeyOf(rest[i]) == k) <==> (k != KeyOf(rows[d]) && exists i :: 0 <= i < |rows| && KeyOf(rows[i]) == k)
  {
    if i :| 0 <= i < |rest| && KeyOf(rest[i]) == k {
      assert rest[i] == rows[Shifted(i, d)];
    }
    if i :| 0 <= i < |rows| && KeyOf(rows[i]) == k && i != d {
      assert rest[if i < d then i else i - 1] == rows[i];
    }
  }

  lemma RemainingValues(rows: seq<Row>, d: nat)
    requires UniqueKeys(rows) && d < |rows|
    ensures UniqueKeys(rows[..d] + rows[d + 1..]) && ValuesOf(rows[..d] + rows[d + 1..]) == ValuesOf(rows) - {KeyOf(rows[d])}
  {
    hide ValuesOf;
    RemainingKeys(rows, d);
    var rest := rows[..d] + rows[d + 1..];
    hide UniqueKeys;
    var a, b := ValuesOf(rest), ValuesOf(rows) - {KeyOf(rows[d])};
    forall k ensures (k in a <==> k in b) && (k in a ==> a[k] == b[k]) {
      ValuesAt(rest, k);
      ValuesAt(rows, k);
      RemainingAt(rows, rest, d, k);
      if k in a {
        var i :| 0 <= i < |rest| && KeyOf(rest[i]) == k;
        assert rest[i] == rows[Shifted(i, d)];
      }
    }
  }

  // ---------------------------------------------------------------- patched views

  function PatchedProps(values: Values, view: string, props: Props): Props {
    props + PatchOf(values, view, NameOf(props))
  }

  /** Every element inside, with its patch over its own properties. */
  function PatchInside(values: Values, view: string, item: Item): (r: Item)
    ensures r.Element? == item.Element? && (item.Element? ==> r.props == item.props)
    decreases item, 1
  {
    match item
    case Opaque(_) => item
    case Element(props, columns, fields, sections, tabs) =>
      Element(props, PatchAll(values, view, columns), PatchAll(values, view, fields), PatchAll(values, view, sections), PatchAll(values, view, tabs))
  }

  function PatchOne(values: Values, view: string, item: Item): Item
    decreases item, 2
  {
    var inner := PatchInside(values, view, item);
    if inner.Opaque? then inner else inner.(props := PatchedProps(values, view, item.props))
  }

  function PatchAll(values: Values, view: string, items: seq<Item>): (r: seq<Item>)
    ensures |r| == |items|
    decreases items, 0
  {
    if items == [] then [] else [PatchOne(values, view, items[0])] + PatchAll(values, view, items[1..])
  }

  predicate Matched(values: Values, view: string, visits: seq<Visit>) {
    exists k | 0 <= k < |visits| :: PatchOf(values, view, NameOf(visits[k].props)) != map[]
  }

  /** A view as it is served: patched and reordered if any override names an element of it. */
  function Served(schema: Schema, values: Values, view: View): Item {
    if Matched(values, view.name, Walk(schema, view.root, view.resource))
    then Ordered(PatchInside(values, view.name, view.root)) else view.root
  }

  // ---------------------------------------------------------------- what is served

  /** The table gives property `p` of an element called `element` the value `v`. */
  predicate Gives(values: Values, view: string, element: string, p: string, v: Prop) {
    (view, element, p) in values && Accepts(p, values[(view, element, p)], v)
  }

  predicate Has(props: Props, p: string, v: Prop) { p in props && props[p] == v }

  /** An element's properties with the table's over them: those it gives, and its own where it gives none. */
  ghost predicate Overridden(values: Values, view: string, declared: Props, patched: Props) {
    forall p, v :: Has(patched, p, v)
                   <==> Gives(values, view, NameOf(declared), p, v) || (Has(declared, p, v) && !Given(values, view, NameOf(declared), p))
  }

  ghost predicate Given(values: Values, view: string, element: string, p: string) {
    exists v :: Gives(values, view, element, p, v)
  }

  /** The declared tree with its elements overridden in place: same collections, same items, same order. */
  ghost predicate Patched(values: Values, view: string, declared: Item, patched: Item)
    decreases declared
  {
    if declared.Opaque? then patched == declared
    else
      && patched.Element?
      && AllPatched(values, view, declared, declared.columns, patched.columns) && AllPatched(values, view, declared, declared.fields, patched.fields)
      && AllPatched(values, view, declared, declared.sections, patched.sections) && AllPatched(values, view, declared, declared.tabs, patched.tabs)
  }

  ghost predicate AllPatched(values: Values, view: string, parent: Item, declared: seq<Item>, patched: seq<Item>)
    requires forall i | 0 <= i < |declared| :: declared[i] < parent
    decreases parent, 0
  {
    |patched| == |declared| && forall i | 0 <= i < |declared| ::
      Patched(values, view, declared[i], patched[i]) && (declared[i].Element? ==> Overridden(values, view, declared[i].props, patched[i].props))
  }

  /** Some override with a proper value names an element of the tree. */
  ghost predicate Touched(values: Values, view: string, item: Item)
    decreases item
  {
    item.Element? && (AnyTouched(values, view, item, item.columns) || AnyTouched(values, view, item, item.fields)
                      || AnyTouched(values, view, item, item.sections) || AnyTouched(values, view, item, item.tabs))
  }

  ghost predicate AnyTouched(values: Values, view: string, parent: Item, items: seq<Item>)
    requires forall i | 0 <= i < |items| :: items[i] < parent
    decreases parent, 0
  {
    exists i :: 0 <= i < |items| && (Touched(values, view, items[i]) || (items[i].Element? && exists p :: Given(values, view, NameOf(items[i].props), p)))
  }

  /**
   What a client gets: the declared view when no override touches it, otherwise the view with
   its elements overridden in place and then every collection put in order, innermost first.
   */
  ghost predicate ServedAs(values: Values, view: View, served: Item) {
    if !Touched(values, view.name, view.root) then served == view.root
    else exists patched: Item :: && Patched(values, view.name, view.root, patched) && patched.Element? && patched.props == view.root.props
                                 && DeepOrdered(patched, served)
  }

  lemma PatchGives(values: Values, view: string, element: string, p: string, v: Prop)
    ensures Has(PatchOf(values, view, element), p, v) <==> Gives(values, view, element, p, v)
  {
    hide OverrideValue, Accepts, Properties;
    if (view, element, p) in values { AcceptsExactly(p, values[(view, element, p)], v); }
  }

  lemma PatchGiven(values: Values, view: string, element: string, p: string)
    ensures p in PatchOf(values, view, element) <==> Given(values, view, element, p)
  {
    hide PatchOf, Gives;
    if p in PatchOf(values, view, element) { PatchGives(values, view, element, p, PatchOf(values, view, element)[p]); }
    if v :| Gives(values, view, element, p, v) { PatchGives(values, view, element, p, v); }
  }

  lemma PropsOverridden(values: Values, view: string, props: Props)
    ensures Overridden(values, view, props, PatchedProps(values, view, props))
  {
    hide PatchOf, Gives, NameOf, Given;
    forall p, v ensures Has(PatchedProps(values, view, props), p, v)
                        <==> Gives(values, view, NameOf(props), p, v) || (Has(props, p, v) && !Given(values, view, NameOf(props), p)) {
      PatchGives(values, view, NameOf(props), p, v);
      PatchGiven(values, view, NameOf(props), p);
    }
  }

  lemma {:induction false} InsidePatched(values: Values, view: string, item: Item)
    ensures Patched(values, view, item, PatchInside(values, view, item))
    decreases item, 1
  {
    hide PatchedProps, AllPatched, PatchAll;
    if item.Element? {
      ItemsPatched(values, view, item, item.columns);
      ItemsPatched(values, view, item, item.fields);
      ItemsPatched(values, view, item, item.sections);
      ItemsPatched(values, view, item, item.tabs);
    }
  }

  lemma {:induction false} PatchAllAt(values: Values, view: string, items: seq<Item>, i: nat)
    requires i < |items|
    ensures PatchAll(values, view, items)[i] == PatchOne(values, view, items[i])
    decreases i
  {
    hide PatchOne;
    if i > 0 { PatchAllAt(values, view, items[1..], i - 1); }
  }

  lemma {:induction false} ItemsPatched(values: Values, view: string, parent: Item, items: seq<Item>)
    requires forall i | 0 <= i < |items| :: items[i] < parent
    ensures AllPatched(values, view, parent, items, PatchAll(values, view, items))
    decreases parent, 0
  {
    hide Patched, Overridden, PatchedProps, PatchInside, PatchAll;
    var rs := PatchAll(values, view, items);
    forall i | 0 <= i < |items|
      ensures Patched(values, view, items[i], rs[i])
      ensures items[i].Element? ==> rs[i].Element? && Overridden(values, view, items[i].props, rs[i].props)
    {
      PatchAllAt(values, view, items, i);
      InsidePatched(values, view, items[i]);
      if items[i].Element? {
        PropsOverridden(values, view, items[i].props);
        PatchedSame(values, view, items[i], PatchInside(values, view, items[i]), rs[i]);
      }
    }
  }

  lemma PatchedSame(values: Values, view: string, item: Item, a: Item, b: Item)
    requires Patched(values, view, item, a) && item.Element? && a.Element? && b.Element? && b == a.(props := b.props)
    ensures Patched(values, view, item, b)
  {
    hide AllPatched;
  }

  /** An element whose name some override gives a value, met on the way. */
  ghost predicate MatchedIn(values: Values, view: string, visits: seq<Visit>) {
    exists k | 0 <= k < |visits| :: exists p :: Given(values, view, NameOf(visits[k].props), p)
  }

  lemma MatchedExactly(values: Values, view: string, visits: seq<Visit>)
    ensures Matched(values, view, visits) <==> MatchedIn(values, view, visits)
  {
    hide PatchOf, Given, NameOf;
    forall k | 0 <= k < |visits|
      ensures PatchOf(values, view, NameOf(visits[k].props)) != map[] <==> exists p :: Given(values, view, NameOf(visits[k].props), p) {
      PatchEmpty(values, view, NameOf(visits[k].props));
    }
  }

  lemma PatchEmpty(values: Values, view: string, element: string)
    ensures PatchOf(values, view, element) != map[] <==> exists p :: Given(values, view, element, p)
  {
    hide PatchOf, Given;
    var patch := PatchOf(values, view, element);
    if patch != map[] {
      var p :| p in patch;
      PatchGiven(values, view, element, p);
    }
    if p :| Given(values, view, element, p) { PatchGiven(values, view, element, p); }
  }

  lemma MatchedAppend(values: Values, view: string, a: seq<Visit>, b: seq<Visit>)
    ensures MatchedIn(values, view, a + b) <==> MatchedIn(values, view, a) || MatchedIn(values, view, b)
  {
    hide Given, NameOf;
    var c := a + b;
    if MatchedIn(values, view, a) {
      var k :| 0 <= k < |a| && exists p :: Given(values, view, NameOf(a[k].props), p);
      assert c[k] == a[k];
    }
    if MatchedIn(values, view, b) {
      var k :| 0 <= k < |b| && exists p :: Given(values, view, NameOf(b[k].props), p);
      assert c[|a| + k] == b[k];
    }
  }

  lemma {:induction false} TouchedExactly(schema: Schema, values: Values, view: string, item: Item, resource: string)
    ensures MatchedIn(values, view, Walk(schema, item, resource)) <==> Touched(values, view, item)
    decreases item, 1
  {
    hide MatchedIn, AnyTouched, WalkAll;
    match item
    case Opaque(_) =>
      NoneMatched(values, view);
    case Element(_, columns, fields, sections, tabs) =>
      var a, b, c, d := WalkAll(schema, columns, resource), WalkAll(schema, fields, resource), WalkAll(schema, sections, resource), WalkAll(schema, tabs, resource);
      AnyTouchedExactly(schema, values, view, item, columns, |columns|, resource);
      AnyTouchedExactly(schema, values, view, item, fields, |fields|, resource);
      AnyTouchedExactly(schema, values, view, item, sections, |sections|, resource);
      AnyTouchedExactly(schema, values, view, item, tabs, |tabs|, resource);
      assert columns[0..] == columns && fields[0..] == fields && sections[0..] == sections && tabs[0..] == tabs;
      MatchedAppend(values, view, a + b + c, d);
      MatchedAppend(values, view, a + b, c);
      MatchedAppend(values, view, a, b);
  }

  lemma NoneMatched(values: Values, view: string)
    ensures !MatchedIn(values, view, [])
  {
  }

  ghost predicate TouchedAt(values: Values, view: string, item: Item) {
    Touched(values, view, item) || (item.Element? && exists p :: Given(values, view, NameOf(item.props), p))
  }

  /** The last `k` items of a collection. */
  lemma {:induction false} AnyTouchedExactly(schema: Schema, values: Values, view: string, parent: Item, items: seq<Item>, k: nat, resource: string)
    requires k <= |items| && forall i | 0 <= i < |items| :: items[i] < parent
    ensures MatchedIn(values, view, WalkAll(schema, items[|items| - k..], resource)) <==> AnyTouched(values, view, parent, items[|items| - k..])
    decreases parent, 0, k
  {
    hide MatchedIn, Given, Walk, Touched;
    NoneMatched(values, view);
    if k > 0 {
      var at := |items| - k;
      var x, rest := items[at], items[at + 1..];
      assert items[at..][0] == x && items[at..][1..] == rest;
      AnyTouchedExactly(schema, values, view, parent, items, k - 1, resource);
      MatchedAppend(values, view, VisitsOf(schema, x, resource), WalkAll(schema, rest, resource));
      ItemTouched(schema, values, view, x, resource);
      AnyHead(values, view, parent, items[at..]);
    }
  }

  lemma AnyHead(values: Values, view: string, parent: Item, items: seq<Item>)
    requires items != [] && forall i | 0 <= i < |items| :: items[i] < parent
    ensures AnyTouched(values, view, parent, items) <==> TouchedAt(values, view, items[0]) || AnyTouched(values, view, parent, items[1..])
  {
    hide Touched, Given, NameOf;
    forall i | 0 < i < |items| ensures items[i] == items[1..][i - 1] { }
    if AnyTouched(values, view, parent, items) {
      var i :| 0 <= i < |items| && TouchedAt(values, view, items[i]);
      if i > 0 { assert TouchedAt(values, view, items[1..][i - 1]); }
    }
    if AnyTouched(values, view, parent, items[1..]) {
      var i :| 0 <= i < |items[1..]| && TouchedAt(values, view, items[1..][i]);
      assert TouchedAt(values, view, items[i + 1]);
    }
  }

  lemma {:induction false} ItemTouched(schema: Schema, values: Values, view: string, x: Item, resource: string)
    ensures MatchedIn(values, view, VisitsOf(schema, x, resource)) <==> TouchedAt(values, view, x)
    decreases x, 2
  {
    hide Given, Walk, Touched, NameOf, ChildResource, MatchedIn;
    if x.Opaque? {
      NoneMatched(values, view);
      OpaqueUntouched(values, view, x);
    } else {
      var child := ChildResource(schema, resource, x.props);
      TouchedExactly(schema, values, view, x, child);
      MatchedAppend(values, view, [Visit(resource, x.props)], Walk(schema, x, child));
      MatchedOne(values, view, Visit(resource, x.props));
    }
  }

  lemma OpaqueUntouched(values: Values, view: string, x: Item)
    requires x.Opaque?
    ensures !TouchedAt(values, view, x)
  {
  }

  lemma MatchedOne(values: Values, view: string, v: Visit)
    ensures MatchedIn(values, view, [v]) <==> exists p :: Given(values, view, NameOf(v.props), p)
  {
    hide Given, NameOf;
    assert [v][0] == v;
  }

  lemma ServedExactly(schema: Schema, values: Values, view: View)
    ensures ServedAs(values, view, Served(schema, values, view))
  {
    hide Matched, Walk, PatchInside, Touched, Patched, DeepOrdered, Ordered;
    MatchedExactly(values, view.name, Walk(schema, view.root, view.resource));
    TouchedExactly(schema, values, view.name, view.root, view.resource);
    if Touched(values, view.name, view.root) {
      TouchedElement(values, view.name, view.root);
      var patched := PatchInside(values, view.name, view.root);
      InsidePatched(values, view.name, view.root);
      OrderedDeep(patched);
    }
  }

  lemma TouchedElement(values: Values, view: string, item: Item)
    requires Touched(values, view, item)
    ensures item.Element?
  {
  }

  function FieldItem(name: string, rest: Props): Item { Element(map["field" := Text(name)] + rest, [], [], [], []) }

  /** A form on phone, email and note, whose note is given the order `n`. */
  function FormView(): View {
    View("contacts_form", "contact", Element(map[], [], [FieldItem("phone", map[]), FieldItem("email", map[]), FieldItem("note", map[])], [], []))
  }

  function NoteOrder(n: int): Values { map[("contacts_form", "note", "order") := RawNumber(Some(n))] }

  lemma NotePatches(n: nat)
    ensures PatchOf(NoteOrder(n), "contacts_form", "note") == map["order" := Number(Some(n))]
    ensures forall e | e != "note" :: PatchOf(NoteOrder(n), "contacts_form", e) == map[]
  {
    var patch := PatchOf(NoteOrder(n), "contacts_form", "note");
    forall p | p in patch ensures p == "order" { }
  }

  /** The order override moves the note, and nothing else, to the place it names. */
  lemma NoteMoves(schema: Schema, n: nat)
    ensures var phone, email, note := FieldItem("phone", map[]), FieldItem("email", map[]), FieldItem("note", map["order" := Number(Some(n))]);
            Served(schema, NoteOrder(n), FormView())
            == Element(map[], [], if n == 0 then [note, phone, email] else if n == 1 then [phone, note, email] else [phone, email, note], [], [])
  {
    NoteMatched(schema, n);
    NotePatched(n);
    hide Walk, Matched, PatchInside, Ordered, Arranged, NoteOrder;
    var items := NoteFields(n);
    NoteOnly(n);
    OneOrder(items, 2, n);
    FormOrdered(items);
    assert items[..2] + items[3..] == [items[0], items[1]];
  }

  lemma NoteMatched(schema: Schema, n: nat)
    ensures Matched(NoteOrder(n), "contacts_form", Walk(schema, FormView().root, "contact"))
  {
    hide Walk, Matched, MatchedIn;
    var values, root := NoteOrder(n), FormView().root;
    assert Gives(values, "contacts_form", "note", "order", Number(Some(n)));
    assert Given(values, "contacts_form", NameOf(root.fields[2].props), "order");
    assert AnyTouched(values, "contacts_form", root, root.fields);
    TouchedExactly(schema, values, "contacts_form", root, "contact");
    MatchedExactly(values, "contacts_form", Walk(schema, root, "contact"));
  }

  lemma NoteOnly(n: nat)
    ensures OnlyOrder(NoteFields(n), 2, n)
  {
  }

  function NoteFields(n: nat): seq<Item> {
    [FieldItem("phone", map[]), FieldItem("email", map[]), FieldItem("note", map["order" := Number(Some(n))])]
  }

  lemma FieldPatched(n: nat, name: string)
    requires name != ""
    ensures PatchOne(NoteOrder(n), "contacts_form", FieldItem(name, map[]))
            == FieldItem(name, if name == "note" then map["order" := Number(Some(n))] else map[])
  {
    hide PatchOf, NoteOrder;
    NotePatches(n);
    assert NameOf(FieldItem(name, map[]).props) == name;
  }

  lemma NotePatched(n: nat)
    ensures PatchInside(NoteOrder(n), "contacts_form", FormView().root) == Element(map[], [], NoteFields(n), [], [])
  {
    hide NoteOrder, PatchOne, FieldItem;
    var fields := FormView().root.fields;
    FieldPatched(n, "phone");
    FieldPatched(n, "email");
    FieldPatched(n, "note");
    forall i | 0 <= i < 3 ensures PatchAll(NoteOrder(n), "contacts_form", fields)[i] == NoteFields(n)[i] {
      PatchAllAt(NoteOrder(n), "contacts_form", fields, i);
    }
  }

  lemma FormOrdered(items: seq<Item>)
    requires forall i | 0 <= i < |items| :: items[i].Element? && items[i] == Element(items[i].props, [], [], [], [])
    ensures Ordered(Element(map[], [], items, [], [])) == Element(map[], [], Arranged(items), [], [])
  {
    hide OrderOf;
    assert Arranged([]) == [];
    forall i | 0 <= i < |items| ensures Ordered(items[i]) == items[i] { }
    assert OrderedAll(items) == items;
  }

  /** The patched properties of everything a walk meets. */
  function PatchedBag(values: Values, view: string, visits: seq<Visit>): multiset<Props> {
    if visits == [] then multiset{} else multiset{PatchedProps(values, view, visits[0].props)} + PatchedBag(values, view, visits[1..])
  }

  lemma {:induction false} PatchedBagAppend(values: Values, view: string, a: seq<Visit>, b: seq<Visit>)
    ensures PatchedBag(values, view, a + b) == PatchedBag(values, view, a) + PatchedBag(values, view, b)
    decreases |a|
  {
    hide PatchedBag, PatchedProps;
    if a == [] {
      NoVisits(values, view);
      assert a + b == b;
    } else {
      PatchedBagAppend(values, view, a[1..], b);
      assert (a + b)[1..] == a[1..] + b && (a + b)[0] == a[0];
      PatchedBagHead(values, view, a + b);
      PatchedBagHead(values, view, a);
      SumsRegroup(multiset{PatchedProps(values, view, a[0].props)}, PatchedBag(values, view, a[1..]), PatchedBag(values, view, b));
    }
  }

  lemma PatchedBagHead(values: Values, view: string, a: seq<Visit>)
    requires a != []
    ensures PatchedBag(values, view, a) == multiset{PatchedProps(values, view, a[0].props)} + PatchedBag(values, view, a[1..])
  {
  }

  /** Patching meets each element of the walk once. */
  lemma {:induction false} PatchMeetsWalk(schema: Schema, values: Values, view: string, item: Item, resource: string)
    ensures Inside(PatchInside(values, view, item)) == PatchedBag(values, view, Walk(schema, item, resource))
    decreases item, 1
  {
    hide PatchedBag, BagAll, PatchAll, WalkAll;
    match item
    case Opaque(_) =>
      NoVisits(values, view);
    case Element(_, columns, fields, sections, tabs) =>
      var a, b, c, d := WalkAll(schema, columns, resource), WalkAll(schema, fields, resource), WalkAll(schema, sections, resource), WalkAll(schema, tabs, resource);
      PatchMeetsAll(schema, values, view, columns, resource);
      PatchMeetsAll(schema, values, view, fields, resource);
      PatchMeetsAll(schema, values, view, sections, resource);
      PatchMeetsAll(schema, values, view, tabs, resource);
      PatchedBagAppend(values, view, a + b + c, d);
      PatchedBagAppend(values, view, a + b, c);
      PatchedBagAppend(values, view, a, b);
  }

  lemma NoVisits(values: Values, view: string)
    ensures PatchedBag(values, view, []) == multiset{} && BagAll([]) == multiset{}
  {
  }

  lemma {:induction false} PatchMeetsAll(schema: Schema, values: Values, view: string, items: seq<Item>, resource: string)
    ensures BagAll(PatchAll(values, view, items)) == PatchedBag(values, view, WalkAll(schema, items, resource))
    decreases items, 0
  {
    hide PatchedBag, BagAll, PatchedProps, Inside, Walk, PatchInside;
    NoVisits(values, view);
    if items != [] {
      var x, rest := items[0], WalkAll(schema, items[1..], resource);
      PatchMeetsAll(schema, values, view, items[1..], resource);
      var out := PatchAll(values, view, items);
      BagAllHead(out);
      assert out[1..] == PatchAll(values, view, items[1..]);
      if x.Opaque? {
        assert [] + rest == rest;
        OpaqueBag(values, view, x);
      } else {
        var child := ChildResource(schema, resource, x.props);
        PatchMeetsWalk(schema, values, view, x, child);
        var first := [Visit(resource, x.props)] + Walk(schema, x, child);
        PatchedBagAppend(values, view, first, rest);
        PatchedBagHead(values, view, first);
        assert first[1..] == Walk(schema, x, child);
        ElementBag(values, view, x);
      }
    }
  }

  lemma OpaqueBag(values: Values, view: string, x: Item)
    requires x.Opaque?
    ensures PatchInside(values, view, x) == x && Bag(x) == multiset{}
  {
  }

  lemma ElementBag(values: Values, view: string, x: Item)
    requires x.Element?
    ensures var inner := PatchInside(values, view, x);
            Bag(inner.(props := PatchedProps(values, view, x.props))) == multiset{PatchedProps(values, view, x.props)} + Inside(inner)
  {
    hide PatchedProps;
  }

  /** Without a matching override, patching changes nothing. */
  lemma {:induction false} UnmatchedSame(schema: Schema, values: Values, view: string, item: Item, resource: string)
    requires !Matched(values, view, Walk(schema, item, resource))
    ensures PatchInside(values, view, item) == item
    decreases item, 1
  {
    hide PatchAll, WalkAll, PatchOf;
    if item.Element? {
      var visits := Walk(schema, item, resource);
      var a, b := WalkAll(schema, item.columns, resource), WalkAll(schema, item.fields, resource);
      var c, d := WalkAll(schema, item.sections, resource), WalkAll(schema, item.tabs, resource);
      MatchedPart(values, view, [], a, b + c + d);
      MatchedPart(values, view, a, b, c + d);
      MatchedPart(values, view, a + b, c, d);
      MatchedPart(values, view, a + b + c, d, []);
      assert [] + a + (b + c + d) == visits && a + b + (c + d) == visits && a + b + c + d + [] == visits;
      UnmatchedAll(schema, values, view, item.columns, resource);
      UnmatchedAll(schema, values, view, item.fields, resource);
      UnmatchedAll(schema, values, view, item.sections, resource);
      UnmatchedAll(schema, values, view, item.tabs, resource);
    }
  }

  lemma MatchedPart(values: Values, view: string, a: seq<Visit>, b: seq<Visit>, c: seq<Visit>)
    ensures Matched(values, view, b) ==> Matched(values, view, a + b + c)
  {
    hide PatchOf;
    if Matched(values, view, b) {
      var k :| 0 <= k < |b| && PatchOf(values, view, NameOf(b[k].props)) != map[];
      assert (a + b + c)[|a| + k] == b[k];
    }
  }

  lemma {:induction false} UnmatchedAll(schema: Schema, values: Values, view: string, items: seq<Item>, resource: string)
    requires !Matched(values, view, WalkAll(schema, items, resource))
    ensures PatchAll(values, view, items) == items
    decreases items, 0
  {
    hide PatchOf, Walk, PatchInside;
    if items != [] {
      var x, rest := items[0], WalkAll(schema, items[1..], resource);
      if x.Opaque? {
        assert [] + rest == rest;
        OpaqueBag(values, view, x);
      } else {
        var child := ChildResource(schema, resource, x.props);
        var inner := Walk(schema, x, child);
        assert WalkAll(schema, items, resource) == [Visit(resource, x.props)] + inner + rest;
        MatchedPart(values, view, [Visit(resource, x.props)], inner, rest);
        MatchedPart(values, view, [Visit(resource, x.props)] + inner, rest, []);
        assert [Visit(resource, x.props)] + inner + rest + [] == [Visit(resource, x.props)] + inner + rest;
        UnmatchedSame(schema, values, view, x, child);
        assert WalkAll(schema, items, resource)[0] == Visit(resource, x.props);
        assert PatchOf(values, view, NameOf(x.props)) == map[];
        assert x.props + map[] == x.props;
      }
      UnmatchedAll(schema, values, view, items[1..], resource);
      assert items == [x] + items[1..];
    }
  }

  /** The served view holds exactly the declared elements, each patched, however it is reordered. */
  lemma ServedConserves(schema: Schema, values: Values, view: View)
    ensures Inside(Served(schema, values, view)) == PatchedBag(values, view.name, Walk(schema, view.root, view.resource))
  {
    hide PatchedBag, Inside, Walk, PatchInside, Ordered, Matched;
    PatchMeetsWalk(schema, values, view.name, view.root, view.resource);
    if Matched(values, view.name, Walk(schema, view.root, view.resource)) {
      OrderedKeeps(PatchInside(values, view.name, view.root));
    } else {
      UnmatchedSame(schema, values, view.name, view.root, view.resource);
    }
  }

  lemma {:induction false} PatchedFrom(values: Values, view: string, visits: seq<Visit>, p: Props) returns (k: nat)
    requires p in PatchedBag(values, view, visits)
    ensures k < |visits| && p == PatchedProps(values, view, visits[k].props)
    decreases |visits|
  {
    hide PatchedProps;
    if p == PatchedProps(values, view, visits[0].props) {
      k := 0;
    } else {
      k := PatchedFrom(values, view, visits[1..], p);
      k := k + 1;
    }
  }

  /** What a served element says, read with the model field it names. */
  predicate HiddenAndRequired(field: Field, patch: Props, served: Props) {
    && FlagOf(served, "hidden")
    && (if "required" in patch then FlagOf(served, "required") else FlagOf(served, "required") || field.required)
  }

  lemma FlagsServed(field: Field, values: Values, view: string, props: Props)
    ensures var patch := PatchOf(values, view, NameOf(props));
            HiddenAndRequired(field, patch, PatchedProps(values, view, props))
            <==> HiddenNow(props, patch) && RequiredNow(field, props, patch)
  {
    var patch := PatchOf(values, view, NameOf(props));
    assert "hidden" in patch ==> patch["hidden"].Flag?;
    assert "required" in patch ==> patch["required"].Flag?;
  }

  /** An element declared for a model field is not served hidden and required. */
  predicate DeclaredSafe(schema: Schema, values: Values, view: string, v: Visit) {
    var field := SchemaField(schema, v.resource, NameOf(v.props));
    field.Some? ==> !HiddenAndRequired(field.value, PatchOf(values, view, NameOf(v.props)), PatchedProps(values, view, v.props))
  }

  /**
   Every element of a served view is a declared element with its overrides, and whichever
   declared element that may be, it is not both hidden and required for its model field.
   */
  lemma ServedSafe(schema: Schema, values: Values, view: View, p: Props)
    requires SafeView(schema, view, values) && p in Inside(Served(schema, values, view))
    ensures var visits := Walk(schema, view.root, view.resource);
            && (exists k :: 0 <= k < |visits| && p == PatchedProps(values, view.name, visits[k].props))
            && forall k | 0 <= k < |visits| && p == PatchedProps(values, view.name, visits[k].props) ::
                 DeclaredSafe(schema, values, view.name, visits[k])
  {
    hide Walk, Served, PatchedBag, Inside, PatchedProps, PatchOf, HiddenAndRequired, HiddenNow, RequiredNow, SchemaField;
    ServedConserves(schema, values, view);
    var visits := Walk(schema, view.root, view.resource);
    var _ := PatchedFrom(values, view.name, visits, p);
    forall k | 0 <= k < |visits| ensures DeclaredSafe(schema, values, view.name, visits[k]) {
      assert !Conflicts(schema, visits[k], PatchOf(values, view.name, NameOf(visits[k].props)));
      var field := SchemaField(schema, visits[k].resource, NameOf(visits[k].props));
      if field.Some? { FlagsServed(field.value, values, view.name, visits[k].props); }
    }
  }

  /** Whatever was written before, from a consistent schema and an empty table. */
  lemma HistoryServed(schema: Schema, ops: seq<Op>, view: View, p: Props)
    requires Safe(schema, map[]) && view in schema.views && p in Inside(Served(schema, Run(schema, map[], ops), view))
    ensures var values, visits := Run(schema, map[], ops), Walk(schema, view.root, view.resource);
            && (exists k :: 0 <= k < |visits| && p == PatchedProps(values, view.name, visits[k].props))
            && forall k | 0 <= k < |visits| && p == PatchedProps(values, view.name, visits[k].props) ::
                 DeclaredSafe(schema, values, view.name, visits[k])
  {
    hide SafeView, Served, Inside, Run, DeclaredSafe, Walk, PatchedProps;
    HistorySafe(schema, ops);
    ServedSafe(schema, Run(schema, map[], ops), view, p);
  }

  // ---------------------------------------------------------------- serving, as it runs

  /** The walk that patches every element it meets, and whether any element took a patch. */
  method PatchElements(ghost schema: Schema, ghost values: Values, ghost view: string, ghost resource: string,
                       patches: map<string, Props>, item: Item) returns (r: Item, matched: bool)
    requires forall e :: PatchIn(patches, e) == PatchOf(values, view, e)
    ensures r == PatchInside(values, view, item)
    ensures matched <==> Matched(values, view, Walk(schema, item, resource))
    decreases item, 1
  {
    hide PatchAll, WalkAll, PatchOf, PatchIn, Matched;
    if item.Opaque? {
      NoMatch(values, view);
      return item, false;
    }
    var columns, a := PatchCollection(schema, values, view, resource, patches, item.columns);
    var fields, b := PatchCollection(schema, values, view, resource, patches, item.fields);
    var sections, c := PatchCollection(schema, values, view, resource, patches, item.sections);
    var tabs, d := PatchCollection(schema, values, view, resource, patches, item.tabs);
    ghost var va, vb := WalkAll(schema, item.columns, resource), WalkAll(schema, item.fields, resource);
    ghost var vc, vd := WalkAll(schema, item.sections, resource), WalkAll(schema, item.tabs, resource);
    MatchedEither(values, view, va + vb + vc, vd);
    MatchedEither(values, view, va + vb, vc);
    MatchedEither(values, view, va, vb);
    return Element(item.props, columns, fields, sections, tabs), a || b || c || d;
  }

  lemma NoMatch(values: Values, view: string)
    ensures !Matched(values, view, [])
  {
  }

  lemma MatchedEither(values: Values, view: string, a: seq<Visit>, b: seq<Visit>)
    ensures Matched(values, view, a + b) <==> Matched(values, view, a) || Matched(values, view, b)
  {
    hide PatchOf;
    MatchedPart(values, view, [], a, b);
    MatchedPart(values, view, a, b, []);
    assert [] + a + b == a + b && a + b + [] == a + b;
    if k :| 0 <= k < |a + b| && PatchOf(values, view, NameOf((a + b)[k].props)) != map[] {
      if k < |a| {
        assert (a + b)[k] == a[k];
      } else {
        assert (a + b)[k] == b[k - |a|];
      }
    }
  }

  method PatchCollection(ghost schema: Schema, ghost values: Values, ghost view: string, ghost resource: string,
                         patches: map<string, Props>, items: seq<Item>) returns (r: seq<Item>, matched: bool)
    requires forall e :: PatchIn(patches, e) == PatchOf(values, view, e)
    ensures r == PatchAll(values, view, items)
    ensures matched <==> Matched(values, view, WalkAll(schema, items, resource))
    decreases items, 0
  {
    hide PatchInside, Walk, PatchOf, PatchIn, Matched, WalkAll, PatchAll;
    r, matched := [], false;
    NothingPatched(schema, values, view, resource);
    for i := 0 to |items|
      invariant r == PatchAll(values, view, items[..i])
      invariant matched <==> Matched(values, view, WalkAll(schema, items[..i], resource))
    {
      var x := items[i];
      PatchLast(schema, values, view, resource, items, i);
      if x.Opaque? {
        NoMatch(values, view);
        OpaqueBag(values, view, x);
        r := r + [x];
      } else {
        var patch := PatchIn(patches, NameOf(x.props));
        ghost var child := ChildResource(schema, resource, x.props);
        var inner, more := PatchElements(schema, values, view, child, patches, x);
        MatchedHead(values, view, Visit(resource, x.props), Walk(schema, x, child));
        r := r + [inner.(props := x.props + patch)];
        matched := matched || patch != map[] || more;
      }
    }
    assert items[..|items|] == items;
  }

  lemma NothingPatched(schema: Schema, values: Values, view: string, resource: string)
    ensures PatchAll(values, view, []) == [] && !Matched(values, view, WalkAll(schema, [], resource))
  {
  }

  lemma MatchedHead(values: Values, view: string, v: Visit, rest: seq<Visit>)
    ensures Matched(values, view, [v] + rest) <==> PatchOf(values, view, NameOf(v.props)) != map[] || Matched(values, view, rest)
  {
    hide PatchOf;
    MatchedEither(values, view, [v], rest);
    if PatchOf(values, view, NameOf(v.props)) != map[] {
      assert [v][0] == v;
      assert Matched(values, view, [v]);
    }
  }

  /** What one more item adds. */
  lemma PatchLast(schema: Schema, values: Values, view: string, resource: string, items: seq<Item>, i: nat)
    requires i < |items|
    ensures PatchAll(values, view, items[..i + 1]) == PatchAll(values, view, items[..i]) + [PatchOne(values, view, items[i])]
    ensures Matched(values, view, WalkAll(schema, items[..i + 1], resource))
            <==> Matched(values, view, WalkAll(schema, items[..i], resource)) || Matched(values, view, VisitsOf(schema, items[i], resource))
  {
    hide PatchOne, VisitsOf, Matched;
    assert items[..i + 1] == items[..i] + [items[i]];
    PatchAppend(values, view, items[..i], items[i]);
    WalkAppend(schema, resource, items[..i], items[i]);
    MatchedEither(values, view, WalkAll(schema, items[..i], resource), VisitsOf(schema, items[i], resource));
  }

  lemma PatchHead(values: Values, view: string, items: seq<Item>)
    requires items != []
    ensures PatchAll(values, view, items) == [PatchOne(values, view, items[0])] + PatchAll(values, view, items[1..])
  {
    hide PatchOne;
  }

  lemma {:induction false} PatchAppend(values: Values, view: string, items: seq<Item>, x: Item)
    ensures PatchAll(values, view, items + [x]) == PatchAll(values, view, items) + [PatchOne(values, view, x)]
    decreases |items|
  {
    hide PatchAll, PatchOne;
    PatchHead(values, view, items + [x]);
    if items == [] {
      assert (items + [x])[1..] == [];
      PatchNone(values, view);
    } else {
      PatchHead(values, view, items);
      PatchAppend(values, view, items[1..], x);
      assert (items + [x])[1..] == items[1..] + [x] && (items + [x])[0] == items[0];
    }
  }

  lemma PatchNone(values: Values, view: string)
    ensures PatchAll(values, view, []) == []
  {
  }

  lemma WalkHead(schema: Schema, resource: string, items: seq<Item>)
    requires items != []
    ensures WalkAll(schema, items, resource) == VisitsOf(schema, items[0], resource) + WalkAll(schema, items[1..], resource)
  {
    hide Walk;
  }

  lemma WalkNone(schema: Schema, resource: string)
    ensures WalkAll(schema, [], resource) == []
  {
  }

  lemma {:induction false} WalkAppend(schema: Schema, resource: string, items: seq<Item>, x: Item)
    ensures WalkAll(schema, items + [x], resource) == WalkAll(schema, items, resource) + VisitsOf(schema, x, resource)
    decreases |items|
  {
    hide WalkAll, VisitsOf;
    WalkHead(schema, resource, items + [x]);
    WalkNone(schema, resource);
    if items == [] {
      assert (items + [x])[1..] == [];
    } else {
      WalkHead(schema, resource, items);
      WalkAppend(schema, resource, items[1..], x);
      assert (items + [x])[1..] == items[1..] + [x] && (items + [x])[0] == items[0];
    }
  }

  /** The views of a tenant's schema: the declared ones, with the tenant's overrides. */
  method SchemaWithViewOverrides(schema: Schema, rows: seq<Row>) returns (views: seq<Item>)
    requires UniqueKeys(rows)
    ensures |views| == |schema.views|
    ensures forall i | 0 <= i < |views| :: views[i] == Served(schema, ValuesOf(rows), schema.views[i])
    ensures forall i | 0 <= i < |views| :: ServedAs(ValuesOf(rows), schema.views[i], views[i])
  {
    hide PatchInside, Walk, PatchOf, Matched, Ordered, ValuesOf, PatchIn, ServedAs;
    views := [];
    for i := 0 to |schema.views|
      invariant |views| == i
      invariant forall k | 0 <= k < i :: views[k] == Served(schema, ValuesOf(rows), schema.views[k])
    {
      var view := schema.views[i];
      var patches := OverridesForView(rows, view.name);
      if patches == map[] {
        NoPatchMatches(ValuesOf(rows), view.name, patches, Walk(schema, view.root, view.resource));
        views := views + [view.root];
      } else {
        var members, matched := PatchElements(schema, ValuesOf(rows), view.name, view.resource, patches, view.root);
        if matched {
          members := OrderViewElements(members);
          views := views + [members];
        } else {
          views := views + [view.root];
        }
      }
    }
    forall i | 0 <= i < |views| ensures ServedAs(ValuesOf(rows), schema.views[i], views[i]) { ServedExactly(schema, ValuesOf(rows), schema.views[i]); }
  }

  lemma NoPatchMatches(values: Values, view: string, patches: map<string, Props>, visits: seq<Visit>)
    requires patches == map[] && forall e :: PatchIn(patches, e) == PatchOf(values, view, e)
    ensures !Matched(values, view, visits)
  {
    hide PatchOf;
    forall k | 0 <= k < |visits| ensures PatchOf(values, view, NameOf(visits[k].props)) == map[] {
      assert PatchIn(patches, NameOf(visits[k].props)) == map[];
    }
  }
}
