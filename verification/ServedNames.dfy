/**
 Served views read by the names they show: an element known by its label alone can be given
 another label, and with it another name and, for a sub-list, another resource inside it.
 */
module ServedNames {
  import opened Basics
  import opened Ordering
  import opened ViewTree
  import opened ViewOverrides
  import opened ServedViews

  // ---------------------------------------------------------------- names

  /** The label given to an element that is known by its label alone. */
  function GivenLabel(values: Values, view: string, props: Props): Option<string> {
    var key := (view, NameOf(props), "label");
    if TextOf(props, "field") == "" && TextOf(props, "name") == "" && key in values && values[key].RawText? then Some(values[key].text) else None
  }

  function ServedName(values: Values, view: string, props: Props): string {
    var given := GivenLabel(values, view, props);
    if given.Some? then given.value else NameOf(props)
  }

  lemma PatchedText(values: Values, view: string, element: string)
    ensures var patch := PatchOf(values, view, element);
            "field" !in patch && "name" !in patch && "type" !in patch
            && ("label" in patch <==> (view, element, "label") in values && values[(view, element, "label")].RawText?)
            && ("label" in patch ==> patch["label"] == Text(values[(view, element, "label")].text))
  {
  }

  /** The name an element has in the served view. */
  lemma ServedNameIs(values: Values, view: string, props: Props)
    ensures NameOf(PatchedProps(values, view, props)) == ServedName(values, view, props)
  {
    var patch := PatchOf(values, view, NameOf(props));
    PatchedText(values, view, NameOf(props));
    hide PatchOf;
    var p := props + patch;
    assert TextOf(p, "field") == TextOf(props, "field") && TextOf(p, "name") == TextOf(props, "name");
  }

  // ---------------------------------------------------------------- the walk the given labels make

  /** The resource inside an element, by the name it is served under. */
  function LabelledChild(schema: Schema, values: Values, view: string, resource: string, props: Props): string {
    var field := SchemaField(schema, resource, ServedName(values, view, props));
    if "type" in props && props["type"] == Text("sub_list") && field.Some? then field.value.related else resource
  }

  lemma LabelledChildIs(schema: Schema, values: Values, view: string, resource: string, props: Props)
    ensures ChildResource(schema, resource, PatchedProps(values, view, props)) == LabelledChild(schema, values, view, resource, props)
  {
    ServedNameIs(values, view, props);
    PatchedText(values, view, NameOf(props));
    hide PatchOf, NameOf, ServedName, SchemaField;
  }

  /** The declared elements, each with the resource its served name refers to. */
  function LabelledWalk(schema: Schema, values: Values, view: string, parent: Item, resource: string): seq<Visit>
    decreases parent, 1
  {
    match parent
    case Opaque(_) => []
    case Element(_, columns, fields, sections, tabs) =>
      LabelledAll(schema, values, view, columns, resource) + LabelledAll(schema, values, view, fields, resource)
      + LabelledAll(schema, values, view, sections, resource) + LabelledAll(schema, values, view, tabs, resource)
  }

  function LabelledVisits(schema: Schema, values: Values, view: string, item: Item, resource: string): seq<Visit>
    decreases item, 2
  {
    if item.Opaque? then []
    else [Visit(resource, item.props)] + LabelledWalk(schema, values, view, item, LabelledChild(schema, values, view, resource, item.props))
  }

  function LabelledAll(schema: Schema, values: Values, view: string, items: seq<Item>, resource: string): seq<Visit>
    decreases items, 0
  {
    if items == [] then []
    else LabelledVisits(schema, values, view, items[0], resource) + LabelledAll(schema, values, view, items[1..], resource)
  }

  function PatchedVisit(values: Values, view: string, v: Visit): Visit { Visit(v.resource, PatchedProps(values, view, v.props)) }

  function PatchedVisits(values: Values, view: string, vs: seq<Visit>): (r: seq<Visit>)
    ensures |r| == |vs| && forall i | 0 <= i < |vs| :: r[i] == PatchedVisit(values, view, vs[i])
  {
    seq(|vs|, i requires 0 <= i < |vs| => PatchedVisit(values, view, vs[i]))
  }

  lemma PatchedVisitsAppend(values: Values, view: string, a: seq<Visit>, b: seq<Visit>)
    ensures PatchedVisits(values, view, a + b) == PatchedVisits(values, view, a) + PatchedVisits(values, view, b)
  {
    hide PatchedVisit;
  }

  /** Walking the patched view is walking the declared one by served names. */
  lemma {:induction false} PatchedWalk(schema: Schema, values: Values, view: string, item: Item, resource: string)
    ensures Walk(schema, PatchInside(values, view, item), resource)
            == PatchedVisits(values, view, LabelledWalk(schema, values, view, item, resource))
    decreases item, 1
  {
    hide WalkAll, PatchAll, LabelledAll, PatchedVisits;
    match item
    case Opaque(_) =>
      assert PatchedVisits(values, view, []) == [];
    case Element(_, columns, fields, sections, tabs) =>
      PatchedWalkAll(schema, values, view, columns, resource);
      PatchedWalkAll(schema, values, view, fields, resource);
      PatchedWalkAll(schema, values, view, sections, resource);
      PatchedWalkAll(schema, values, view, tabs, resource);
      var a, b := LabelledAll(schema, values, view, columns, resource), LabelledAll(schema, values, view, fields, resource);
      var c, d := LabelledAll(schema, values, view, sections, resource), LabelledAll(schema, values, view, tabs, resource);
      PatchedVisitsAppend(values, view, a + b + c, d);
      PatchedVisitsAppend(values, view, a + b, c);
      PatchedVisitsAppend(values, view, a, b);
  }

  lemma {:induction false} PatchedWalkAll(schema: Schema, values: Values, view: string, items: seq<Item>, resource: string)
    ensures WalkAll(schema, PatchAll(values, view, items), resource)
            == PatchedVisits(values, view, LabelledAll(schema, values, view, items, resource))
    decreases items, 0
  {
    hide Walk, PatchInside, LabelledWalk, PatchedVisits, PatchedProps;
    if items == [] {
      assert PatchedVisits(values, view, []) == [];
    } else {
      var x, rest := items[0], LabelledAll(schema, values, view, items[1..], resource);
      PatchedWalkAll(schema, values, view, items[1..], resource);
      var out := PatchAll(values, view, items);
      assert out[1..] == PatchAll(values, view, items[1..]) && out[0] == PatchOne(values, view, x);
      PatchedVisitsAppend(values, view, LabelledVisits(schema, values, view, x, resource), rest);
      if x.Opaque? {
        OpaqueBag(values, view, x);
        assert PatchedVisits(values, view, []) == [];
      } else {
        var child := LabelledChild(schema, values, view, resource, x.props);
        PatchedOne(schema, values, view, x, child);
        LabelledChildIs(schema, values, view, resource, x.props);
        PatchedWalk(schema, values, view, x, child);
        PatchedVisitsAppend(values, view, [Visit(resource, x.props)], LabelledWalk(schema, values, view, x, child));
        assert PatchedVisits(values, view, [Visit(resource, x.props)]) == [Visit(resource, PatchedProps(values, view, x.props))];
      }
    }
  }

  /** An element's own properties do not matter to the walk inside it. */
  lemma PatchedOne(schema: Schema, values: Values, view: string, x: Item, child: string)
    requires x.Element?
    ensures var y := PatchOne(values, view, x);
            y.Element? && y.props == PatchedProps(values, view, x.props) && Walk(schema, y, child) == Walk(schema, PatchInside(values, view, x), child)
  {
    hide PatchedProps, WalkAll, PatchAll;
  }

  // ---------------------------------------------------------------- reordering keeps the walk

  lemma {:induction false} WalkAllAppend(schema: Schema, a: seq<Item>, b: seq<Item>, resource: string)
    ensures WalkAll(schema, a + b, resource) == WalkAll(schema, a, resource) + WalkAll(schema, b, resource)
    decreases |a|
  {
    hide WalkAll, VisitsOf;
    WalkNone(schema, resource);
    if a == [] {
      assert a + b == b;
    } else {
      WalkAllAppend(schema, a[1..], b, resource);
      assert (a + b)[1..] == a[1..] + b && (a + b)[0] == a[0];
      WalkHead(schema, resource, a + b);
      WalkHead(schema, resource, a);
    }
  }

  lemma WalkAround(schema: Schema, b: seq<Item>, i: nat, resource: string)
    requires i < |b|
    ensures multiset(WalkAll(schema, b, resource))
            == multiset(VisitsOf(schema, b[i], resource)) + multiset(WalkAll(schema, b[..i] + b[i + 1..], resource))
  {
    hide WalkAll, VisitsOf;
    assert b == b[..i] + b[i..];
    WalkAllAppend(schema, b[..i], b[i..], resource);
    WalkHead(schema, resource, b[i..]);
    assert b[i..][1..] == b[i + 1..] && b[i..][0] == b[i];
    WalkAllAppend(schema, b[..i], b[i + 1..], resource);
  }

  lemma {:induction false} WalkPermuted(schema: Schema, a: seq<Item>, b: seq<Item>, resource: string)
    requires multiset(a) == multiset(b)
    ensures multiset(WalkAll(schema, a, resource)) == multiset(WalkAll(schema, b, resource))
    decreases |a|
  {
    hide WalkAll, VisitsOf;
    if a == [] {
      assert |multiset(b)| == 0;
    } else {
      assert a[0] in multiset(b);
      var i :| 0 <= i < |b| && b[i] == a[0];
      WithoutOne(b, i);
      TailMultiset(a);
      WalkPermuted(schema, a[1..], b[..i] + b[i + 1..], resource);
      WalkAround(schema, b, i, resource);
      WalkHead(schema, resource, a);
    }
  }

  /** Reordering moves what a walk meets, with the same resources. */
  lemma {:induction false} OrderedWalk(schema: Schema, item: Item, resource: string)
    ensures multiset(Walk(schema, Ordered(item), resource)) == multiset(Walk(schema, item, resource))
    decreases item, 1
  {
    hide WalkAll, Arranged, OrderedAll;
    match item
    case Opaque(_) =>
    case Element(_, columns, fields, sections, tabs) =>
      OrderedCollection(schema, columns, resource);
      OrderedCollection(schema, fields, resource);
      OrderedCollection(schema, sections, resource);
      OrderedCollection(schema, tabs, resource);
  }

  lemma {:induction false} OrderedCollection(schema: Schema, items: seq<Item>, resource: string)
    ensures multiset(WalkAll(schema, Arranged(OrderedAll(items)), resource)) == multiset(WalkAll(schema, items, resource))
    decreases items, 1
  {
    hide WalkAll, Arranged, OrderedAll;
    ArrangedKeeps(OrderedAll(items));
    WalkPermuted(schema, Arranged(OrderedAll(items)), OrderedAll(items), resource);
    OrderedWalkAll(schema, items, resource);
  }

  lemma {:induction false} OrderedWalkAll(schema: Schema, items: seq<Item>, resource: string)
    ensures multiset(WalkAll(schema, OrderedAll(items), resource)) == multiset(WalkAll(schema, items, resource))
    decreases items, 0
  {
    hide WalkAll, Walk, Ordered;
    WalkNone(schema, resource);
    if items != [] {
      var x := items[0];
      OrderedWalkAll(schema, items[1..], resource);
      assert OrderedAll(items)[1..] == OrderedAll(items[1..]) && OrderedAll(items)[0] == Ordered(x);
      WalkHead(schema, resource, OrderedAll(items));
      WalkHead(schema, resource, items);
      if x.Element? { OrderedWalk(schema, x, ChildResource(schema, resource, x.props)); }
    }
  }

  /** The walk of the served view, up to order: the declared elements patched, with the resources served names give. */
  lemma ServedWalk(schema: Schema, values: Values, view: View)
    ensures multiset(Walk(schema, Served(schema, values, view), view.resource))
            == multiset(PatchedVisits(values, view.name, LabelledWalk(schema, values, view.name, view.root, view.resource)))
  {
    hide Walk, PatchInside, Ordered, Matched, LabelledWalk, PatchedVisits;
    PatchedWalk(schema, values, view.name, view.root, view.resource);
    if Matched(values, view.name, Walk(schema, view.root, view.resource)) {
      OrderedWalk(schema, PatchInside(values, view.name, view.root), view.resource);
    } else {
      UnmatchedSame(schema, values, view.name, view.root, view.resource);
    }
  }

  // ---------------------------------------------------------------- safety by served names

  /** A served element shows the name of a model field that it hides although it is required. */
  predicate Exposed(schema: Schema, served: Visit, patch: Props) {
    var field := SchemaField(schema, served.resource, NameOf(served.props));
    field.Some? && HiddenAndRequired(field.value, patch, served.props)
  }

  /**
   No element met in the served view, under the name and resource it has there, is hidden
   and required, whichever declared element it may be.
   */
  ghost predicate ServedViewSafe(schema: Schema, values: Values, view: View) {
    var origins := LabelledWalk(schema, values, view.name, view.root, view.resource);
    forall w, k | w in Walk(schema, Served(schema, values, view), view.resource) && 0 <= k < |origins|
                  && PatchedVisit(values, view.name, origins[k]) == w ::
      !Exposed(schema, w, PatchOf(values, view.name, NameOf(origins[k].props)))
  }

  /** Hidden and required, read with the model field of the given name. */
  predicate ConflictsAs(schema: Schema, v: Visit, patch: Props, name: string) {
    var field := SchemaField(schema, v.resource, name);
    field.Some? && HiddenNow(v.props, patch) && RequiredNow(field.value, v.props, patch)
  }

  lemma {:induction false} LabelledLike(schema: Schema, values: Values, view: string, item: Item, a: string, b: string)
    ensures |LabelledWalk(schema, values, view, item, a)| == |Walk(schema, item, b)|
    ensures forall k | 0 <= k < |Walk(schema, item, b)| :: LabelledWalk(schema, values, view, item, a)[k].props == Walk(schema, item, b)[k].props
    decreases item, 1
  {
    hide WalkAll, LabelledAll;
    if item.Element? {
      LabelledAllLike(schema, values, view, item.columns, a, b);
      LabelledAllLike(schema, values, view, item.fields, a, b);
      LabelledAllLike(schema, values, view, item.sections, a, b);
      LabelledAllLike(schema, values, view, item.tabs, a, b);
    }
  }

  lemma {:induction false} LabelledAllLike(schema: Schema, values: Values, view: string, items: seq<Item>, a: string, b: string)
    ensures |LabelledAll(schema, values, view, items, a)| == |WalkAll(schema, items, b)|
    ensures forall k | 0 <= k < |WalkAll(schema, items, b)| :: LabelledAll(schema, values, view, items, a)[k].props == WalkAll(schema, items, b)[k].props
    decreases items, 0
  {
    hide Walk, LabelledWalk, LabelledChild, ChildResource;
    if items != [] {
      var x := items[0];
      if x.Element? {
        LabelledLike(schema, values, view, x, LabelledChild(schema, values, view, a, x.props), ChildResource(schema, b, x.props));
      }
      LabelledAllLike(schema, values, view, items[1..], a, b);
    }
  }

  /** An element whose name or resource is not the declared one in the served view. */
  predicate Renamed(schema: Schema, values: Values, view: View, k: nat)
    requires k < |Walk(schema, view.root, view.resource)| == |LabelledWalk(schema, values, view.name, view.root, view.resource)|
  {
    var v := Walk(schema, view.root, view.resource)[k];
    || GivenLabel(values, view.name, v.props).Some?
    || LabelledWalk(schema, values, view.name, view.root, view.resource)[k].resource != v.resource
  }

  /** The condition on the labels given: no element they rename, or put under another resource, conflicts there. */
  ghost predicate LabelsSafe(schema: Schema, values: Values, view: View) {
    LabelledLike(schema, values, view.name, view.root, view.resource, view.resource);
    var visits := LabelledWalk(schema, values, view.name, view.root, view.resource);
    forall k: nat | k < |visits| && Renamed(schema, values, view, k) ::
      !ConflictsAs(schema, visits[k], PatchOf(values, view.name, NameOf(visits[k].props)), ServedName(values, view.name, visits[k].props))
  }

  lemma ExposedIs(schema: Schema, values: Values, view: string, v: Visit)
    ensures var patch := PatchOf(values, view, NameOf(v.props));
            Exposed(schema, PatchedVisit(values, view, v), patch) <==> ConflictsAs(schema, v, patch, ServedName(values, view, v.props))
  {
    hide PatchedProps, PatchOf, NameOf, ServedName, SchemaField, HiddenAndRequired, HiddenNow, RequiredNow;
    ServedNameIs(values, view, v.props);
    var field := SchemaField(schema, v.resource, ServedName(values, view, v.props));
    if field.Some? { FlagsServed(field.value, values, view, v.props); }
  }

  lemma ServedViewSafeIs(schema: Schema, values: Values, view: View)
    ensures var visits := LabelledWalk(schema, values, view.name, view.root, view.resource);
            ServedViewSafe(schema, values, view)
            <==> forall k | 0 <= k < |visits| ::
                   !ConflictsAs(schema, visits[k], PatchOf(values, view.name, NameOf(visits[k].props)), ServedName(values, view.name, visits[k].props))
  {
    hide Walk, Served, LabelledWalk, PatchedVisit, Exposed, ConflictsAs, PatchOf, NameOf, ServedName;
    var visits := LabelledWalk(schema, values, view.name, view.root, view.resource);
    var served := Walk(schema, Served(schema, values, view), view.resource);
    ServedWalk(schema, values, view);
    var patched := PatchedVisits(values, view.name, visits);
    forall k | 0 <= k < |visits|
      ensures PatchedVisit(values, view.name, visits[k]) in served
      ensures var patch := PatchOf(values, view.name, NameOf(visits[k].props));
              Exposed(schema, PatchedVisit(values, view.name, visits[k]), patch)
              <==> ConflictsAs(schema, visits[k], patch, ServedName(values, view.name, visits[k].props))
    {
      assert patched[k] in multiset(patched);
      assert patched[k] in multiset(served);
      ExposedIs(schema, values, view.name, visits[k]);
    }
  }

  /**
   Read by the names and resources of the served view, a table that is safe by declared
   names is safe exactly when the labels given to label-only elements are.
   */
  lemma ServedNamesExactly(schema: Schema, values: Values, view: View)
    requires SafeView(schema, view, values)
    ensures ServedViewSafe(schema, values, view) <==> LabelsSafe(schema, values, view)
  {
    hide ServedViewSafe, Walk, LabelledWalk, PatchOf, NameOf, SchemaField, HiddenNow, RequiredNow, GivenLabel;
    ServedViewSafeIs(schema, values, view);
    LabelledLike(schema, values, view.name, view.root, view.resource, view.resource);
    var visits, declared := LabelledWalk(schema, values, view.name, view.root, view.resource), Walk(schema, view.root, view.resource);
    forall k: nat | k < |visits| && !Renamed(schema, values, view, k)
      ensures !ConflictsAs(schema, visits[k], PatchOf(values, view.name, NameOf(visits[k].props)), ServedName(values, view.name, visits[k].props))
    {
      assert visits[k] == declared[k];
      assert !Conflicts(schema, declared[k], PatchOf(values, view.name, NameOf(declared[k].props)));
    }
  }

  /** The same after any history of writes. */
  lemma HistoryServedExactly(schema: Schema, ops: seq<Op>, view: View)
    requires Safe(schema, map[]) && view in schema.views
    ensures ServedViewSafe(schema, Run(schema, map[], ops), view) <==> LabelsSafe(schema, Run(schema, map[], ops), view)
  {
    hide ServedViewSafe, LabelsSafe, SafeView, Run;
    HistorySafe(schema, ops);
    ServedNamesExactly(schema, Run(schema, map[], ops), view);
  }

  // ---------------------------------------------------------------- no labels given, nothing renamed

  lemma {:induction false} LabelledSame(schema: Schema, values: Values, view: string, item: Item, resource: string)
    requires forall k | 0 <= k < |Walk(schema, item, resource)| :: GivenLabel(values, view, Walk(schema, item, resource)[k].props).None?
    ensures LabelledWalk(schema, values, view, item, resource) == Walk(schema, item, resource)
    decreases item, 1
  {
    hide WalkAll, LabelledAll, GivenLabel;
    if item.Element? {
      var a, b := WalkAll(schema, item.columns, resource), WalkAll(schema, item.fields, resource);
      var c, d := WalkAll(schema, item.sections, resource), WalkAll(schema, item.tabs, resource);
      var all := a + b + c + d;
      assert all == Walk(schema, item, resource);
      forall k | 0 <= k < |a| ensures GivenLabel(values, view, a[k].props).None? { assert all[k] == a[k]; }
      forall k | 0 <= k < |b| ensures GivenLabel(values, view, b[k].props).None? { assert all[|a| + k] == b[k]; }
      forall k | 0 <= k < |c| ensures GivenLabel(values, view, c[k].props).None? { assert all[|a| + |b| + k] == c[k]; }
      forall k | 0 <= k < |d| ensures GivenLabel(values, view, d[k].props).None? { assert all[|a| + |b| + |c| + k] == d[k]; }
      LabelledAllSame(schema, values, view, item.columns, resource);
      LabelledAllSame(schema, values, view, item.fields, resource);
      LabelledAllSame(schema, values, view, item.sections, resource);
      LabelledAllSame(schema, values, view, item.tabs, resource);
    }
  }

  lemma {:induction false} LabelledAllSame(schema: Schema, values: Values, view: string, items: seq<Item>, resource: string)
    requires forall k | 0 <= k < |WalkAll(schema, items, resource)| :: GivenLabel(values, view, WalkAll(schema, items, resource)[k].props).None?
    ensures LabelledAll(schema, values, view, items, resource) == WalkAll(schema, items, resource)
    decreases items, 0
  {
    hide Walk, LabelledWalk, GivenLabel, SchemaField, NameOf;
    if items != [] {
      var x, rest := items[0], WalkAll(schema, items[1..], resource);
      var all := WalkAll(schema, items, resource);
      var first := VisitsOf(schema, x, resource);
      assert all == first + rest;
      forall k | 0 <= k < |rest| ensures GivenLabel(values, view, rest[k].props).None? { assert all[|first| + k] == rest[k]; }
      if x.Element? {
        var child := ChildResource(schema, resource, x.props);
        var inner := Walk(schema, x, child);
        assert all[0] == Visit(resource, x.props);
        forall k | 0 <= k < |inner| ensures GivenLabel(values, view, inner[k].props).None? { assert all[1 + k] == inner[k]; }
        assert LabelledChild(schema, values, view, resource, x.props) == child;
        LabelledSame(schema, values, view, x, child);
      }
      LabelledAllSame(schema, values, view, items[1..], resource);
    }
  }

  /** With no label given to a label-only element of it, a safe view is safe as served. */
  lemma UnlabelledServedSafe(schema: Schema, values: Values, view: View)
    requires SafeView(schema, view, values)
    requires var visits := Walk(schema, view.root, view.resource);
             forall k | 0 <= k < |visits| :: GivenLabel(values, view.name, visits[k].props).None?
    ensures ServedViewSafe(schema, values, view)
  {
    hide ServedViewSafe, Walk, LabelledWalk, GivenLabel, ConflictsAs, PatchOf;
    ServedNamesExactly(schema, values, view);
    LabelledSame(schema, values, view.name, view.root, view.resource);
  }

  // ---------------------------------------------------------------- two accepted histories that break it

  const LEAF := Element(map[], [], [], [], [])

  lemma LeafWalk(schema: Schema, values: Values, view: string, props: Props, resource: string)
    ensures Walk(schema, LEAF.(props := props), resource) == [] && LabelledWalk(schema, values, view, LEAF.(props := props), resource) == []
  {
  }

  lemma OneSection(schema: Schema, values: Values, view: string, item: Item, x: Item, resource: string)
    requires item == Element(map[], [], [], [x], [])
    ensures Walk(schema, item, resource) == VisitsOf(schema, x, resource)
    ensures LabelledWalk(schema, values, view, item, resource) == LabelledVisits(schema, values, view, x, resource)
  {
    hide VisitsOf, LabelledVisits;
    OneItem(schema, values, view, x, resource);
  }

  lemma OneField(schema: Schema, values: Values, view: string, props: Props, x: Item, resource: string)
    ensures var item := LEAF.(props := props, fields := [x]);
            && Walk(schema, item, resource) == VisitsOf(schema, x, resource)
            && LabelledWalk(schema, values, view, item, resource) == LabelledVisits(schema, values, view, x, resource)
  {
    hide VisitsOf, LabelledVisits;
    OneItem(schema, values, view, x, resource);
  }

  lemma OneItem(schema: Schema, values: Values, view: string, x: Item, resource: string)
    ensures WalkAll(schema, [x], resource) == VisitsOf(schema, x, resource) && WalkAll(schema, [], resource) == []
    ensures LabelledAll(schema, values, view, [x], resource) == LabelledVisits(schema, values, view, x, resource)
    ensures LabelledAll(schema, values, view, [], resource) == []
  {
    hide VisitsOf, LabelledVisits;
    WalkHead(schema, resource, [x]);
    assert [x][1..] == [];
  }

  lemma TwoWrites(schema: Schema, a: Op, b: Op)
    ensures Run(schema, map[], [a]) == Apply(schema, map[], a)
    ensures Run(schema, map[], [a, b]) == Apply(schema, Apply(schema, map[], a), b)
  {
    hide Apply;
    assert [a][..0] == [] && [a, b][..1] == [a];
  }

  // A section known by its label, hidden and given the label of a required field.

  const INFO: Props := map["label" := Text("Info")]
  const FORM := View("form", "contact", Element(map[], [], [], [LEAF.(props := INFO)], []))
  const CONTACTS := Schema(map["contact" := [Field("email", true, "")]], [FORM])
  const LABEL_EMAIL := Op.Create(Request("form", "Info", "label", RawText("email"), None))
  const HIDE_INFO := Op.Create(Request("form", "Info", "hidden", RawFlag(true), None))
  const LABELLED: Values := map[("form", "Info", "label") := RawText("email")]
  const RELABELLED: Values := LABELLED[("form", "Info", "hidden") := RawFlag(true)]

  lemma FormWalk(values: Values)
    ensures Walk(CONTACTS, FORM.root, "contact") == [Visit("contact", INFO)]
    ensures LabelledWalk(CONTACTS, values, "form", FORM.root, "contact") == [Visit("contact", INFO)]
    ensures NameOf(INFO) == "Info" && SchemaField(CONTACTS, "contact", "Info") == None
    ensures SchemaField(CONTACTS, "contact", "email") == Some(Field("email", true, ""))
  {
    OneSection(CONTACTS, values, "form", FORM.root, LEAF.(props := INFO), "contact");
    LeafWalk(CONTACTS, values, "form", INFO, ChildResource(CONTACTS, "contact", INFO));
    LeafWalk(CONTACTS, values, "form", INFO, LabelledChild(CONTACTS, values, "form", "contact", INFO));
    assert [Field("email", true, "")][1..] == [];
  }

  lemma FormSafe(values: Values)
    ensures Safe(CONTACTS, values) && StateValid(CONTACTS, values, "form", "Info")
  {
    FormWalk(values);
    hide Walk, PatchOf, NameOf, SchemaField;
  }

  lemma FormWrites()
    ensures Run(CONTACTS, map[], [LABEL_EMAIL, HIDE_INFO]) == RELABELLED
  {
    TwoWrites(CONTACTS, LABEL_EMAIL, HIDE_INFO);
    FormSafe(LABELLED);
    FormSafe(RELABELLED);
    hide StateValid;
    assert Requested(map[], LABEL_EMAIL.q) == LABELLED;
    assert Requested(LABELLED, HIDE_INFO.q) == RELABELLED;
  }

  /**
   Both writes are accepted, because no field has the section's declared name, and the
   view is served with a hidden element that shows a required field's name.
   */
  lemma RelabelledName()
    ensures Safe(CONTACTS, map[]) && Run(CONTACTS, map[], [LABEL_EMAIL, HIDE_INFO]) == RELABELLED
    ensures !ServedViewSafe(CONTACTS, RELABELLED, FORM)
  {
    FormWrites();
    FormSafe(map[]);
    FormWalk(RELABELLED);
    ServedViewSafeIs(CONTACTS, RELABELLED, FORM);
    assert ServedName(RELABELLED, "form", INFO) == "email";
    InfoHidden();
    hide Walk, LabelledWalk, Run, Safe, ServedViewSafe;
    var visits := LabelledWalk(CONTACTS, RELABELLED, FORM.name, FORM.root, FORM.resource);
    assert visits[0] == Visit("contact", INFO);
  }

  lemma InfoHidden()
    ensures var patch := PatchOf(RELABELLED, "form", "Info"); HiddenNow(INFO, patch) && RequiredNow(Field("email", true, ""), INFO, patch)
  {
    var patch := PatchOf(RELABELLED, "form", "Info");
    assert "hidden" in patch && patch["hidden"] == Flag(true) && "required" !in patch;
  }

  // A sub-list known by its label, given the label of a relation: the elements in it are
  // then read as the related model's.

  const LINES: Props := map["label" := Text("Info"), "type" := Text("sub_list")]
  const QTY: Props := map["field" := Text("qty"), "hidden" := Flag(true)]
  const LIST := LEAF.(props := LINES, fields := [LEAF.(props := QTY)])
  const ORDER := View("form", "contact", Element(map[], [], [], [LIST], []))
  const ORDERS := Schema(map["contact" := [Field("lines", false, "line")], "line" := [Field("qty", true, "")]], [ORDER])
  const LABEL_LINES := Op.Create(Request("form", "Info", "label", RawText("lines"), None))
  const LINED: Values := map[("form", "Info", "label") := RawText("lines")]

  lemma OrderFields()
    ensures NameOf(LINES) == "Info" && NameOf(QTY) == "qty"
    ensures SchemaField(ORDERS, "contact", "Info") == None && SchemaField(ORDERS, "contact", "qty") == None
    ensures SchemaField(ORDERS, "contact", "lines") == Some(Field("lines", false, "line"))
    ensures SchemaField(ORDERS, "line", "qty") == Some(Field("qty", true, ""))
  {
    assert [Field("lines", false, "line")][1..] == [] && [Field("qty", true, "")][1..] == [];
  }

  lemma OrderWalk(values: Values)
    ensures Walk(ORDERS, ORDER.root, "contact") == [Visit("contact", LINES), Visit("contact", QTY)]
    ensures var child := LabelledChild(ORDERS, values, "form", "contact", LINES);
            LabelledWalk(ORDERS, values, "form", ORDER.root, "contact") == [Visit("contact", LINES), Visit(child, QTY)]
  {
    OrderFields();
    hide SchemaField, NameOf, LabelledChild;
    var child := LabelledChild(ORDERS, values, "form", "contact", LINES);
    assert ChildResource(ORDERS, "contact", LINES) == "contact";
    OneSection(ORDERS, values, "form", ORDER.root, LIST, "contact");
    OneField(ORDERS, values, "form", LINES, LEAF.(props := QTY), "contact");
    OneField(ORDERS, values, "form", LINES, LEAF.(props := QTY), child);
    LeafWalk(ORDERS, values, "form", QTY, ChildResource(ORDERS, "contact", QTY));
    LeafWalk(ORDERS, values, "form", QTY, LabelledChild(ORDERS, values, "form", child, QTY));
    hide Walk, LabelledWalk;
  }

  lemma OrderSafe(values: Values)
    ensures Safe(ORDERS, values) && StateValid(ORDERS, values, "form", "Info")
  {
    OrderFields();
    OrderWalk(values);
    hide Walk, PatchOf, NameOf, SchemaField;
  }

  lemma OrderWrite()
    ensures Run(ORDERS, map[], [LABEL_LINES]) == LINED
  {
    TwoWrites(ORDERS, LABEL_LINES, LABEL_LINES);
    OrderSafe(LINED);
    hide StateValid;
    assert Requested(map[], LABEL_LINES.q) == LINED;
  }

  /** One accepted write, and a hidden field of the declared view is served as a required one of the related model. */
  lemma RelabelledList()
    ensures Safe(ORDERS, map[]) && Run(ORDERS, map[], [LABEL_LINES]) == LINED
    ensures !ServedViewSafe(ORDERS, LINED, ORDER)
  {
    OrderWrite();
    OrderSafe(map[]);
    OrderFields();
    OrderWalk(LINED);
    ServedViewSafeIs(ORDERS, LINED, ORDER);
    QtyConflicts();
    hide Walk, LabelledWalk, Run, Safe, ServedViewSafe;
    var visits := LabelledWalk(ORDERS, LINED, ORDER.name, ORDER.root, ORDER.resource);
    assert visits[1] == Visit("line", QTY);
  }

  lemma QtyConflicts()
    ensures LabelledChild(ORDERS, LINED, "form", "contact", LINES) == "line" && ServedName(LINED, "form", QTY) == "qty"
    ensures ConflictsAs(ORDERS, Visit("line", QTY), PatchOf(LINED, "form", "qty"), "qty")
  {
    OrderFields();
    hide SchemaField;
    assert ServedName(LINED, "form", LINES) == "lines";
    var patch := PatchOf(LINED, "form", "qty");
    assert "hidden" !in patch && "required" !in patch;
  }
}
