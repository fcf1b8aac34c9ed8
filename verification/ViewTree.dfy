/** View declarations as trees of elements, and the reordering of their collections by explicit order. */
module ViewTree {
  import opened Basics
  import opened Ordering

  /** A scalar property; a number that is no machine integer has no value. */
  datatype Prop = Text(text: string) | Flag(on: bool) | Number(value: Option<int>) | Other

  type Props = map<string, Prop>

  /** A collection's item: an element with its own collections, or anything else. */
  datatype Item =
    | Opaque(json: string)
    | Element(props: Props, columns: seq<Item>, fields: seq<Item>, sections: seq<Item>, tabs: seq<Item>)

  function TextOf(props: Props, key: string): string {
    if key in props && props[key].Text? then props[key].text else ""
  }

  predicate FlagOf(props: Props, key: string) {
    key in props && props[key].Flag? && props[key].on
  }

  /** Field, else name, else label. */
  function NameOf(props: Props): string {
    if TextOf(props, "field") != "" then TextOf(props, "field")
    else if TextOf(props, "name") != "" then TextOf(props, "name")
    else TextOf(props, "label")
  }

  // ---------------------------------------------------------------- order

  function OrderOf(item: Item): Option<int> {
    if item.Element? && "order" in item.props && item.props["order"].Number? then item.props["order"].value else None
  }

  /** An item's sort key: its explicit order or its place, and the place itself. */
  datatype Entry = Entry(item: Item, order: int, explicit: bool, index: nat)

  function EntryOf(item: Item, index: nat): Entry {
    match OrderOf(item)
    case None => Entry(item, index, false, index)
    case Some(order) => Entry(item, order, true, index)
  }

  /** The comparison the sort uses: by order, explicit before implicit. */
  predicate NotAfter(a: Entry, b: Entry) {
    a.order < b.order || (a.order == b.order && (a.explicit || !b.explicit))
  }

  /** The order the result has: as the comparison says, ties by original place. */
  predicate Precedes(a: Entry, b: Entry) {
    || a.order < b.order
    || (a.order == b.order && a.explicit && !b.explicit)
    || (a.order == b.order && a.explicit == b.explicit && a.index <= b.index)
  }

  function Entries(items: seq<Item>): (es: seq<Entry>)
    ensures |es| == |items| && forall i | 0 <= i < |es| :: es[i] == EntryOf(items[i], i)
  {
    seq(|items|, i requires 0 <= i < |items| => EntryOf(items[i], i))
  }

  function ItemsOf(es: seq<Entry>): (items: seq<Item>)
    ensures |items| == |es| && forall i | 0 <= i < |es| :: items[i] == es[i].item
  {
    seq(|es|, i requires 0 <= i < |es| => es[i].item)
  }

  predicate HasOrder(items: seq<Item>) {
    exists i | 0 <= i < |items| :: OrderOf(items[i]).Some?
  }

  /** One collection, its items' own collections done. */
  function Arranged(items: seq<Item>): (r: seq<Item>)
    ensures |r| == |items|
  {
    if HasOrder(items) then ItemsOf(Sort(Entries(items), NotAfter)) else items
  }

  /** A whole tree, innermost collections first. */
  function Ordered(item: Item): (r: Item)
    ensures r.Element? == item.Element? && (item.Element? ==> r.props == item.props)
    decreases item, 1
  {
    match item
    case Opaque(_) => item
    case Element(props, columns, fields, sections, tabs) =>
      Element(props, Arranged(OrderedAll(columns)), Arranged(OrderedAll(fields)), Arranged(OrderedAll(sections)), Arranged(OrderedAll(tabs)))
  }

  function OrderedAll(items: seq<Item>): (r: seq<Item>)
    ensures |r| == |items| && forall i | 0 <= i < |items| :: r[i] == Ordered(items[i])
    decreases items, 0
  {
    if items == [] then [] else [Ordered(items[0])] + OrderedAll(items[1..])
  }

  // ---------------------------------------------------------------- the sort is stable

  lemma PrecedesTotal()
    ensures Total(Precedes)
  {
  }

  predicate IndexedBelow(es: seq<Entry>, n: nat) {
    forall i | 0 <= i < |es| :: es[i].index < n
  }

  lemma {:induction false} InsertStable(x: Entry, es: seq<Entry>)
    requires IndexedBelow(es, x.index)
    ensures Insert(x, es, NotAfter) == Insert(x, es, Precedes)
    decreases |es|
  {
    if es != [] {
      var last := es[|es| - 1];
      assert NotAfter(last, x) <==> Precedes(last, x);
      InsertStable(x, es[..|es| - 1]);
    }
  }

  lemma MembersIndexed(es: seq<Entry>, sorted: seq<Entry>, n: nat)
    requires IndexedBelow(es, n) && multiset(sorted) == multiset(es)
    ensures IndexedBelow(sorted, n)
  {
    forall i | 0 <= i < |sorted| ensures sorted[i].index < n {
      assert sorted[i] in multiset(sorted);
      assert sorted[i] in es;
    }
  }

  /** Sorting by the comparison alone keeps ties in place. */
  lemma {:induction false} SortStable(es: seq<Entry>)
    requires forall i | 0 <= i < |es| :: es[i].index == i
    ensures Sort(es, NotAfter) == Sort(es, Precedes)
    decreases |es|
  {
    if es != [] {
      var init := es[..|es| - 1];
      SortStable(init);
      MembersIndexed(init, Sort(init, NotAfter), |es| - 1);
      InsertStable(es[|es| - 1], Sort(init, NotAfter));
    }
  }

  // ---------------------------------------------------------------- what a reordered tree looks like

  /** The places `perm` gives are all places, each once. */
  predicate Permutation(perm: seq<nat>, n: nat) {
    |perm| == n && Distinct(perm) && forall i | 0 <= i < n :: perm[i] < n
  }

  /**
   `after` is `before` with its items moved: ascending by explicit order or original
   place, explicit first on ties, then by place; untouched if no item has an order.
   */
  predicate MovedBy(before: seq<Item>, after: seq<Item>, perm: seq<nat>) {
    && |after| == |before| && Permutation(perm, |before|)
    && (forall k | 0 <= k < |after| :: after[k] == before[perm[k]])
    && (if HasOrder(before)
        then forall j, k | 0 <= j < k < |after| :: Precedes(EntryOf(before[perm[j]], perm[j]), EntryOf(before[perm[k]], perm[k]))
        else forall k | 0 <= k < |after| :: perm[k] == k)
  }

  function Places(es: seq<Entry>): (perm: seq<nat>)
    ensures |perm| == |es| && forall i | 0 <= i < |es| :: perm[i] == es[i].index
  {
    seq(|es|, i requires 0 <= i < |es| => es[i].index)
  }

  lemma EntriesDistinct(items: seq<Item>)
    ensures Distinct(Entries(items))
  {
    var es := Entries(items);
    forall i, j | 0 <= i < j < |es| ensures es[i] != es[j] { assert es[i].index == i && es[j].index == j; }
  }

  lemma SortedEntries(items: seq<Item>)
    ensures var r := Sort(Entries(items), NotAfter);
            && Sorted(r, Precedes) && Permutation(Places(r), |items|)
            && forall k | 0 <= k < |r| :: r[k].index < |items| && r[k] == EntryOf(items[r[k].index], r[k].index)
  {
    var es := Entries(items);
    var r := Sort(es, NotAfter);
    SortStable(es);
    PrecedesTotal();
    SortSorts(es, Precedes);
    EntriesDistinct(items);
    DistinctCounts(es);
    DistinctPermutation(r, multiset(es));
    forall k | 0 <= k < |r| ensures r[k].index < |items| && r[k] == EntryOf(items[r[k].index], r[k].index) {
      assert r[k] in r && r[k] in es;
    }
    forall i, j | 0 <= i < j < |r| ensures r[i].index != r[j].index { assert r[i] != r[j]; }
  }

  /** How one collection is moved. */
  lemma ArrangedMoves(items: seq<Item>) returns (perm: seq<nat>)
    ensures MovedBy(items, Arranged(items), perm)
  {
    if HasOrder(items) {
      SortedEntries(items);
      perm := Places(Sort(Entries(items), NotAfter));
      SortedMoves(items, Sort(Entries(items), NotAfter));
    } else {
      perm := seq(|items|, i => i);
    }
  }

  lemma SortedMoves(items: seq<Item>, r: seq<Entry>)
    requires HasOrder(items) && |r| == |items| && Sorted(r, Precedes) && Permutation(Places(r), |items|)
    requires forall k | 0 <= k < |r| :: r[k].index < |items| && r[k] == EntryOf(items[r[k].index], r[k].index)
    ensures MovedBy(items, ItemsOf(r), Places(r))
  {
    hide HasOrder, Precedes, Permutation;
    var perm := Places(r);
    forall k | 0 <= k < |items| ensures r[k] == EntryOf(items[perm[k]], perm[k]) && ItemsOf(r)[k] == items[perm[k]] {
      assert r[k] == EntryOf(items[r[k].index], r[k].index);
    }
    hide EntryOf;
  }

  /** Items without an order keep their relative order, whatever moves around them. */
  lemma UnorderedKeep(items: seq<Item>, perm: seq<nat>, j: nat, k: nat)
    requires MovedBy(items, Arranged(items), perm) && j < |items| && k < |items|
    requires OrderOf(items[perm[j]]).None? && OrderOf(items[perm[k]]).None? && perm[j] < perm[k]
    ensures j < k
  {
    var a, b := EntryOf(items[perm[j]], perm[j]), EntryOf(items[perm[k]], perm[k]);
    assert !Precedes(b, a);
  }

  // ---------------------------------------------------------------- conservation at every depth

  /** The properties of every element below, with multiplicity. */
  function Bag(item: Item): multiset<Props>
    decreases item, 1
  {
    match item
    case Opaque(_) => multiset{}
    case Element(props, _, _, _, _) => multiset{props} + Inside(item)
  }

  /** The elements strictly inside an item. */
  function Inside(item: Item): multiset<Props>
    decreases item, 0
  {
    match item
    case Opaque(_) => multiset{}
    case Element(_, columns, fields, sections, tabs) => BagAll(columns) + BagAll(fields) + BagAll(sections) + BagAll(tabs)
  }

  function BagAll(items: seq<Item>): multiset<Props>
    decreases items, 0
  {
    if items == [] then multiset{} else Bag(items[0]) + BagAll(items[1..])
  }

  lemma {:induction false} BagAllAppend(a: seq<Item>, b: seq<Item>)
    ensures BagAll(a + b) == BagAll(a) + BagAll(b)
    decreases |a|
  {
    hide Bag, BagAll;
    if a == [] {
      assert a + b == b;
      BagAllNone();
    } else {
      BagAllAppend(a[1..], b);
      assert (a + b)[1..] == a[1..] + b && (a + b)[0] == a[0];
      BagAllHead(a + b);
      BagAllHead(a);
      SumsRegroup(Bag(a[0]), BagAll(a[1..]), BagAll(b));
    }
  }

  lemma BagAllNone()
    ensures BagAll([]) == multiset{}
  {
  }

  lemma SumsRegroup(x: multiset<Props>, y: multiset<Props>, z: multiset<Props>)
    ensures x + (y + z) == (x + y) + z && y + (x + z) == x + (y + z)
  {
  }

  lemma BagAllHead(a: seq<Item>)
    requires a != []
    ensures BagAll(a) == Bag(a[0]) + BagAll(a[1..])
  {
  }

  lemma {:induction false} BagAllPermuted(a: seq<Item>, b: seq<Item>)
    requires multiset(a) == multiset(b)
    ensures BagAll(a) == BagAll(b)
    decreases |a|
  {
    hide Bag, BagAll;
    if a == [] {
      assert |multiset(b)| == 0;
    } else {
      assert a[0] in multiset(b);
      var i :| 0 <= i < |b| && b[i] == a[0];
      WithoutOne(b, i);
      TailMultiset(a);
      BagAllPermuted(a[1..], b[..i] + b[i + 1..]);
      BagAllHead(a);
      BagAllAround(b, i);
    }
  }

  lemma BagAllAround(b: seq<Item>, i: nat)
    requires i < |b|
    ensures BagAll(b) == Bag(b[i]) + BagAll(b[..i] + b[i + 1..])
  {
    hide Bag, BagAll;
    assert b == b[..i] + b[i..];
    BagAllAppend(b[..i], b[i..]);
    BagAllHead(b[i..]);
    assert b[i..][1..] == b[i + 1..] && b[i..][0] == b[i];
    BagAllAppend(b[..i], b[i + 1..]);
    SumsRegroup(Bag(b[i]), BagAll(b[..i]), BagAll(b[i + 1..]));
  }

  lemma {:induction false} InsertItems(x: Entry, es: seq<Entry>)
    ensures multiset(ItemsOf(Insert(x, es, NotAfter))) == multiset(ItemsOf(es)) + multiset{x.item}
    decreases |es|
  {
    hide ItemsOf;
    if es == [] || NotAfter(es[|es| - 1], x) {
      assert es + [x] == Insert(x, es, NotAfter);
      ItemsMore(es, x);
    } else {
      var init, last := es[..|es| - 1], es[|es| - 1];
      InsertItems(x, init);
      assert Insert(x, es, NotAfter) == Insert(x, init, NotAfter) + [last];
      hide Insert;
      ItemsMore(Insert(x, init, NotAfter), last);
      ItemsLast(es);
    }
  }

  lemma ItemsMore(es: seq<Entry>, x: Entry)
    ensures multiset(ItemsOf(es + [x])) == multiset(ItemsOf(es)) + multiset{x.item}
  {
    assert ItemsOf(es + [x]) == ItemsOf(es) + [x.item];
  }

  lemma {:induction false} SortItems(es: seq<Entry>)
    ensures multiset(ItemsOf(Sort(es, NotAfter))) == multiset(ItemsOf(es))
    decreases |es|
  {
    if es != [] {
      var init, last := es[..|es| - 1], es[|es| - 1];
      assert Sort(es, NotAfter) == Insert(last, Sort(init, NotAfter), NotAfter);
      hide Sort, ItemsOf, Insert;
      SortItems(init);
      InsertItems(last, Sort(init, NotAfter));
      ItemsLast(es);
    } else {
      assert Sort(es, NotAfter) == [];
    }
  }

  lemma ItemsLast(es: seq<Entry>)
    requires es != []
    ensures multiset(ItemsOf(es)) == multiset(ItemsOf(es[..|es| - 1])) + multiset{es[|es| - 1].item}
  {
    assert ItemsOf(es) == ItemsOf(es[..|es| - 1]) + [es[|es| - 1].item];
  }

  /** Moving a collection's items keeps them all. */
  lemma ArrangedKeeps(items: seq<Item>)
    ensures multiset(Arranged(items)) == multiset(items)
  {
    if HasOrder(items) {
      SortItems(Entries(items));
      assert ItemsOf(Entries(items)) == items by {
        forall i | 0 <= i < |items| ensures ItemsOf(Entries(items))[i] == items[i] { assert Entries(items)[i] == EntryOf(items[i], i); }
      }
    }
  }

  /** Reordering a tree loses, adds and changes no element at any depth. */
  lemma {:induction false} OrderedKeeps(item: Item)
    ensures Bag(Ordered(item)) == Bag(item) && Inside(Ordered(item)) == Inside(item)
    decreases item, 1
  {
    match item
    case Opaque(_) =>
    case Element(_, columns, fields, sections, tabs) =>
      CollectionKeeps(columns);
      CollectionKeeps(fields);
      CollectionKeeps(sections);
      CollectionKeeps(tabs);
  }

  lemma {:induction false} CollectionKeeps(items: seq<Item>)
    ensures BagAll(Arranged(OrderedAll(items))) == BagAll(items)
    decreases items, 0
  {
    ArrangedKeeps(OrderedAll(items));
    BagAllPermuted(Arranged(OrderedAll(items)), OrderedAll(items));
    AllKeep(items);
  }

  lemma {:induction false} AllKeep(items: seq<Item>)
    ensures BagAll(OrderedAll(items)) == BagAll(items)
    decreases items, 0, 0
  {
    if items != [] {
      OrderedKeeps(items[0]);
      AllKeep(items[1..]);
      assert OrderedAll(items)[1..] == OrderedAll(items[1..]);
    }
  }

  /**
   The reordering seen from the root: the same properties, and every collection moved as
   MovedBy says, with its items' own collections reordered in the same way.
   */
  ghost predicate DeepOrdered(before: Item, after: Item)
    decreases before
  {
    match before
    case Opaque(_) => after == before
    case Element(props, columns, fields, sections, tabs) =>
      && after.Element? && after.props == props
      && CollectionOrdered(before, columns, after.columns) && CollectionOrdered(before, fields, after.fields)
      && CollectionOrdered(before, sections, after.sections) && CollectionOrdered(before, tabs, after.tabs)
  }

  ghost predicate CollectionOrdered(parent: Item, before: seq<Item>, after: seq<Item>)
    requires forall i | 0 <= i < |before| :: before[i] < parent
    decreases parent, 0
  {
    exists inner: seq<Item>, perm: seq<nat> ::
      && |inner| == |before| && MovedBy(inner, after, perm)
      && forall i | 0 <= i < |before| :: DeepOrdered(before[i], inner[i])
  }

  lemma {:induction false} OrderedDeep(item: Item)
    ensures DeepOrdered(item, Ordered(item))
    decreases item, 1
  {
    match item
    case Opaque(_) =>
    case Element(_, columns, fields, sections, tabs) =>
      CollectionDeep(item, columns);
      CollectionDeep(item, fields);
      CollectionDeep(item, sections);
      CollectionDeep(item, tabs);
  }

  lemma {:induction false} CollectionDeep(parent: Item, items: seq<Item>)
    requires forall i | 0 <= i < |items| :: items[i] < parent
    ensures CollectionOrdered(parent, items, Arranged(OrderedAll(items)))
    decreases parent, 0
  {
    var inner := OrderedAll(items);
    var perm := ArrangedMoves(inner);
    forall i | 0 <= i < |items| ensures DeepOrdered(items[i], inner[i]) { OrderedDeep(items[i]); }
  }

  // ---------------------------------------------------------------- one explicit order

  /** `k` is the only item with an order. */
  predicate OnlyOrder(items: seq<Item>, k: nat, n: int) {
    k < |items| && OrderOf(items[k]) == Some(n) && forall i | 0 <= i < |items| && i != k :: OrderOf(items[i]).None?
  }

  /** `x` at place `at` among the others. */
  function PutAt<T>(others: seq<T>, at: nat, x: T): seq<T>
    requires at <= |others|
  {
    others[..at] + [x] + others[at..]
  }

  /** The place an order asks for: among the `m` first items, counted with its own item taken out. */
  function PlaceFor(k: nat, n: int, m: nat): (at: nat)
    requires k < m
    ensures at < m
  {
    if n <= 0 then 0 else if n <= k then n else if n <= m then n - 1 else m - 1
  }

  /** Sort keys of which only the one at `k` is explicit. */
  predicate OneExplicit(es: seq<Entry>, k: nat, n: int) {
    && k < |es| && es[k].explicit && es[k].order == n
    && forall i | 0 <= i < |es| && i != k :: !es[i].explicit && es[i].order == i
  }

  lemma InsertLast(x: Entry, xs: seq<Entry>, y: Entry)
    ensures Insert(x, xs + [y], NotAfter) == if NotAfter(y, x) then xs + [y] + [x] else Insert(x, xs, NotAfter) + [y]
  {
    hide NotAfter;
    assert (xs + [y])[..|xs|] == xs;
  }

  lemma SortLast(es: seq<Entry>, m: nat)
    requires 0 < m <= |es|
    ensures Sort(es[..m], NotAfter) == Insert(es[m - 1], Sort(es[..m - 1], NotAfter), NotAfter)
  {
    hide NotAfter, Insert;
    assert es[..m][..m - 1] == es[..m - 1];
  }

  lemma PutBehind(others: seq<Entry>, at: nat, x: Entry, y: Entry)
    requires at <= |others|
    ensures PutAt(others, at, x) + [y] == PutAt(others + [y], at, x)
  {
  }

  lemma TakeLast(es: seq<Entry>, m: nat)
    requires 0 < m <= |es|
    ensures es[..m] == es[..m - 1] + [es[m - 1]]
  {
  }

  lemma {:induction false} InsertDown(es: seq<Entry>, k: nat, n: int, q: nat)
    requires OneExplicit(es, k, n) && q <= k
    ensures Insert(es[k], es[..q], NotAfter) == PutAt(es[..q], if n <= 0 then 0 else if n <= q then n else q, es[k])
    decreases q
  {
    hide Insert, PutAt;
    if q > 0 {
      InsertDown(es, k, n, q - 1);
      InsertDownStep(es, k, n, q);
    } else {
      assert es[..0] == [];
      InsertFirst(es[k]);
    }
  }

  lemma InsertFirst(x: Entry)
    ensures Insert(x, [], NotAfter) == PutAt([], 0, x)
  {
  }

  lemma InsertDownStep(es: seq<Entry>, k: nat, n: int, q: nat)
    requires OneExplicit(es, k, n) && 0 < q <= k
    requires Insert(es[k], es[..q - 1], NotAfter) == PutAt(es[..q - 1], if n <= 0 then 0 else if n <= q - 1 then n else q - 1, es[k])
    ensures Insert(es[k], es[..q], NotAfter) == PutAt(es[..q], if n <= 0 then 0 else if n <= q then n else q, es[k])
  {
    hide Insert, PutAt;
    TakeLast(es, q);
    assert es[q - 1].order == q - 1 && !es[q - 1].explicit && es[k].order == n && es[k].explicit;
    hide OneExplicit;
    InsertLast(es[k], es[..q - 1], es[q - 1]);
    PutBehind(es[..q - 1], if n <= 0 then 0 else if n <= q - 1 then n else q - 1, es[k], es[q - 1]);
    PutLast(es[..q], es[k]);
  }

  lemma PutLast(others: seq<Entry>, x: Entry)
    ensures PutAt(others, |others|, x) == others + [x]
  {
    assert others[..|others|] == others;
  }

  lemma {:induction false} InOrder(es: seq<Entry>, k: nat, n: int, m: nat)
    requires OneExplicit(es, k, n) && m <= k
    ensures Sort(es[..m], NotAfter) == es[..m]
    decreases m
  {
    if m > 1 {
      hide Insert, Sort;
      InOrder(es, k, n, m - 1);
      SortLast(es, m);
      TakeLast(es, m - 1);
      TakeLast(es, m);
      InsertLast(es[m - 1], es[..m - 2], es[m - 2]);
    } else if m == 1 {
      assert es[..1] == [es[0]] && es[..1][..0] == [];
    }
  }

  /** A single order moves its own item to its place and leaves the others in theirs. */
  lemma {:induction false} OneOrderSorts(es: seq<Entry>, k: nat, n: int, m: nat)
    requires OneExplicit(es, k, n) && k < m <= |es|
    ensures Sort(es[..m], NotAfter) == PutAt(es[..k] + es[k + 1..m], PlaceFor(k, n, m), es[k])
    decreases m
  {
    hide Insert, Sort, PutAt;
    SortLast(es, m);
    if m == k + 1 {
      InOrder(es, k, n, k);
      InsertDown(es, k, n, k);
      assert es[..k] + es[k + 1..m] == es[..k];
    } else {
      OneOrderSorts(es, k, n, m - 1);
      OneOrderLast(es, k, n, m);
    }
  }

  lemma OneOrderLast(es: seq<Entry>, k: nat, n: int, m: nat)
    requires OneExplicit(es, k, n) && k + 1 < m <= |es|
    ensures Insert(es[m - 1], PutAt(es[..k] + es[k + 1..m - 1], PlaceFor(k, n, m - 1), es[k]), NotAfter)
            == PutAt(es[..k] + es[k + 1..m], PlaceFor(k, n, m), es[k])
  {
    hide Insert, PutAt;
    var others, x, y := es[..k] + es[k + 1..m - 1], es[k], es[m - 1];
    var at := PlaceFor(k, n, m - 1);
    assert es[..k] + es[k + 1..m] == others + [y];
    PutBehind(others, at, x, y);
    if at == |others| {
      PutLast(others, x);
      InsertLast(y, others, x);
      OthersLast(es, k, n, m);
      PutLast(others + [y], x);
    } else {
      var z := others[|others| - 1];
      var init := others[..|others| - 1];
      assert others == init + [z];
      assert NotAfter(z, y) by { if m - 2 > k { assert z == es[m - 2]; } else { assert z == es[k - 1]; } }
      PutBehind(init, at, x, z);
      InsertLast(y, PutAt(init, at, x), z);
    }
  }

  lemma OthersLast(es: seq<Entry>, k: nat, n: int, m: nat)
    requires OneExplicit(es, k, n) && k + 1 < m <= |es|
    ensures var others := es[..k] + es[k + 1..m - 1]; Insert(es[m - 1], others, NotAfter) == others + [es[m - 1]]
  {
    var others, y := es[..k] + es[k + 1..m - 1], es[m - 1];
    if others != [] {
      hide Insert;
      var z := others[|others| - 1];
      assert others == others[..|others| - 1] + [z];
      InsertLast(y, others[..|others| - 1], z);
    }
  }

  /** A collection with a single explicit order: that item takes the place it asks for, before whatever stood there. */
  lemma OneOrder(items: seq<Item>, k: nat, n: int)
    requires OnlyOrder(items, k, n)
    ensures Arranged(items) == PutAt(items[..k] + items[k + 1..], PlaceFor(k, n, |items|), items[k])
  {
    hide Sort;
    assert HasOrder(items);
    var es := Entries(items);
    hide OrderOf;
    OneOrderSorts(es, k, n, |items|);
    assert es[..|items|] == es;
    ItemsPut(items, k, PlaceFor(k, n, |items|));
  }

  lemma ItemsPut(items: seq<Item>, k: nat, at: nat)
    requires k < |items| && at < |items|
    ensures var es := Entries(items);
            ItemsOf(PutAt(es[..k] + es[k + 1..|items|], at, es[k])) == PutAt(items[..k] + items[k + 1..], at, items[k])
  {
    hide OrderOf;
    var es := Entries(items);
    var a, b := PutAt(es[..k] + es[k + 1..|items|], at, es[k]), PutAt(items[..k] + items[k + 1..], at, items[k]);
    assert |ItemsOf(a)| == |b|;
    forall i | 0 <= i < |b| ensures a[i].item == b[i] {
      if i < at { PutBefore(es, items, k, i); } else if i > at { PutBefore(es, items, k, i - 1); }
    }
  }

  lemma PutBefore(es: seq<Entry>, items: seq<Item>, k: nat, i: nat)
    requires es == Entries(items) && k < |items| && i < |items| - 1
    ensures (es[..k] + es[k + 1..|items|])[i].item == (items[..k] + items[k + 1..])[i]
  {
    hide OrderOf;
  }

  // ---------------------------------------------------------------- as it runs

  /** One collection: sort keys are collected, then the items are written back in order. */
  method OrderCollection(items: seq<Item>) returns (out: seq<Item>)
    ensures out == Arranged(OrderedAll(items))
    decreases items, 0
  {
    hide Ordered, OrderedAll, OrderOf, Entries, HasOrder, Sort, ItemsOf;
    var entries: seq<Entry>, hasOrder := [], false;
    out := [];
    ghost var all := OrderedAll(items);
    NothingOrdered();
    for index := 0 to |items|
      invariant out == all[..index] && entries == Entries(out) && (hasOrder <==> HasOrder(out))
    {
      var item := OrderViewElements(items[index]);
      var order := OrderOf(item);
      var entry := if order.None? then Entry(item, index, false, index) else Entry(item, order.value, true, index);
      EntriesMore(out, item);
      OrderSeen(out, item);
      assert all[..index + 1] == all[..index] + [item];
      out, entries := out + [item], entries + [entry];
      if order.Some? {
        hasOrder := true;
      }
    }
    assert out == all;
    if hasOrder {
      out := WriteBack(out, Sort(entries, NotAfter));
    }
  }

  /** The sorted items, over the old ones, place by place. */
  method WriteBack(items: seq<Item>, sorted: seq<Entry>) returns (out: seq<Item>)
    requires |items| == |sorted|
    ensures out == ItemsOf(sorted)
  {
    out := items;
    for i := 0 to |sorted|
      invariant |out| == |sorted| && forall k | 0 <= k < i :: out[k] == sorted[k].item
    {
      out := out[i := sorted[i].item];
    }
  }

  lemma NothingOrdered()
    ensures Entries([]) == [] && !HasOrder([])
  {
  }

  lemma EntriesMore(items: seq<Item>, item: Item)
    ensures Entries(items + [item]) == Entries(items) + [EntryOf(item, |items|)]
  {
  }

  lemma OrderSeen(items: seq<Item>, item: Item)
    ensures HasOrder(items + [item]) <==> HasOrder(items) || OrderOf(item).Some?
  {
    var all := items + [item];
    if HasOrder(items) {
      var i :| 0 <= i < |items| && OrderOf(items[i]).Some?;
      assert OrderOf(all[i]).Some?;
    }
    if OrderOf(item).Some? { assert all[|items|] == item; }
  }

  method OrderViewElements(item: Item) returns (r: Item)
    ensures r == Ordered(item)
    decreases item, 1
  {
    if item.Opaque? {
      return item;
    }
    var columns := OrderCollection(item.columns);
    var fields := OrderCollection(item.fields);
    var sections := OrderCollection(item.sections);
    var tabs := OrderCollection(item.tabs);
    return Element(item.props, columns, fields, sections, tabs);
  }
}
