/** The stored positions as a plain list, and the store whose methods keep both in step. */
module ActivityTypeStore {
  import opened Basics
  import opened Ordering
  import opened ActivityTypes

  // ---------------------------------------------------------------- the list the positions stand for

  function Rank(t: Table, k: string): int { if k in t then t[k].position else 0 }

  predicate Before(t: Table, a: string, b: string) {
    Rank(t, a) < Rank(t, b) || (Rank(t, a) == Rank(t, b) && Leq(a, b))
  }

  /** By position, then by key. */
  function Order(t: Table): (string, string) -> bool {
    (a: string, b: string) => Before(t, a, b)
  }

  lemma OrderTotal(t: Table)
    ensures Total(Order(t)) && forall a, b :: Order(t)(a, b) && Order(t)(b, a) ==> a == b
  {
    StringsOrdered();
  }

  ghost predicate IsListing(t: Table, ks: seq<string>) {
    Distinct(ks) && (forall k :: k in ks <==> k in t) && Sorted(ks, Order(t))
  }

  ghost function Elements(s: set<string>): (xs: seq<string>)
    ensures multiset(xs) == multiset(s)
  {
    if s == {} then []
    else
      var k :| k in s;
      assert multiset(s) == multiset(s - {k}) + multiset{k};
      Elements(s - {k}) + [k]
  }

  ghost function Listing(t: Table): (ks: seq<string>)
    ensures multiset(ks) == multiset(t.Keys)
  {
    Sort(Elements(t.Keys), Order(t))
  }

  lemma ListingIs(t: Table)
    ensures IsListing(t, Listing(t))
  {
    OrderTotal(t);
    SortSorts(Elements(t.Keys), Order(t));
    PermutationShape(t, Listing(t));
  }

  lemma {:induction false} DistinctMultiset(xs: seq<string>, s: set<string>)
    requires Distinct(xs) && forall k :: k in xs <==> k in s
    ensures multiset(xs) == multiset(s)
  {
    DistinctCounts(xs);
    forall k ensures multiset(xs)[k] == multiset(s)[k] {
      assert k in xs <==> k in multiset(xs);
    }
  }

  /** There is only one such list. */
  lemma ListingUnique(t: Table, ks: seq<string>)
    requires IsListing(t, ks)
    ensures ks == Listing(t)
  {
    ListingIs(t);
    OrderTotal(t);
    DistinctMultiset(ks, t.Keys);
    SortedUnique(ks, Listing(t), Order(t));
  }

  lemma SameRanks(t: Table, t': Table, ks: seq<string>)
    requires Sorted(ks, Order(t)) && forall k | k in ks :: Rank(t', k) == Rank(t, k)
    ensures Sorted(ks, Order(t'))
  {
    hide Rank;
    forall i, j | 0 <= i < j < |ks| ensures Order(t')(ks[i], ks[j]) {
      assert Order(t)(ks[i], ks[j]);
    }
  }

  /** A new type goes to the end. */
  lemma CreateAppends(t: Table, n: NewType, now: int)
    requires Created(t, n, now).Ok?
    ensures Listing(Created(t, n, now).value) == Listing(t) + [n.key]
  {
    hide ValidKey, ValidDays, Listing, MaxPosition;
    var t', ks := Created(t, n, now).value, Listing(t);
    ListingIs(t);
    SameRanks(t, t', ks);
    var all := ks + [n.key];
    forall i | 0 <= i < |ks| ensures Order(t')(ks[i], n.key) {
      assert ks[i] in t && t[ks[i]].position <= MaxPosition(t);
    }
    SortedLast(ks, n.key, Order(t'));
    assert Distinct(all);
    forall k ensures k in all <==> k in t' { assert k in all <==> k in ks || k == n.key; }
    ListingUnique(t', all);
  }

  lemma SortedLast(ks: seq<string>, k: string, le: (string, string) -> bool)
    requires Sorted(ks, le) && forall i | 0 <= i < |ks| :: le(ks[i], k)
    ensures Sorted(ks + [k], le)
  {
  }

  lemma UpdateKeepsOrder(t: Table, key: string, c: Change, now: int)
    requires Updated(t, key, c, now).Ok?
    ensures Listing(Updated(t, key, c, now).value) == Listing(t)
  {
    hide ValidDays, Listing;
    var t', ks := Updated(t, key, c, now).value, Listing(t);
    ListingIs(t);
    SameRanks(t, t', ks);
    ListingUnique(t', ks);
  }

  function Without(ks: seq<string>, i: nat): seq<string>
    requires i < |ks|
  {
    ks[..i] + ks[i + 1..]
  }

  lemma WithoutParts(ks: seq<string>, i: nat, le: (string, string) -> bool)
    requires i < |ks| && Distinct(ks) && Sorted(ks, le)
    ensures Distinct(Without(ks, i)) && Sorted(Without(ks, i), le)
    ensures forall k :: k in Without(ks, i) <==> k in ks && k != ks[i]
  {
    var r := Without(ks, i);
    forall a, b | 0 <= a < b < |r| ensures r[a] != r[b] && le(r[a], r[b]) {
      var a', b' := if a < i then a else a + 1, if b < i then b else b + 1;
      assert r[a] == ks[a'] && r[b] == ks[b'];
    }
    forall k ensures k in r <==> k in ks && k != ks[i] {
      if k in r {
        var a :| 0 <= a < |r| && r[a] == k;
        assert r[a] == ks[if a < i then a else a + 1];
      }
      if k in ks && k != ks[i] {
        var a :| 0 <= a < |ks| && ks[a] == k;
        assert r[if a < i then a else a - 1] == k;
      }
    }
  }

  /** A deleted type leaves the others in order. */
  lemma DeleteRemoves(t: Table, key: string, usage: nat, referenced: bool)
    requires Deleted(t, key, usage, referenced).Ok?
    ensures var i := IndexIn(Listing(t), key);
            i < |Listing(t)| && Listing(Deleted(t, key, usage, referenced).value) == Without(Listing(t), i)
  {
    hide Listing;
    var t', ks := Deleted(t, key, usage, referenced).value, Listing(t);
    ListingIs(t);
    var i := IndexIn(ks, key);
    assert key in ks;
    WithoutParts(ks, i, Order(t));
    SameRanks(t, t', Without(ks, i));
    ListingUnique(t', Without(ks, i));
  }

  /** After a reorder, listing gives exactly the keys asked for. */
  lemma ReorderLists(t: Table, keys: seq<string>, now: int)
    requires multiset(keys) == multiset(t.Keys)
    ensures Listing(Reordered(t, keys, now)) == keys
  {
    hide Reordered, Listing, IndexIn;
    var t' := Reordered(t, keys, now);
    ReorderedPositions(t, keys, now);
    PermutationShape(t, keys);
    forall i, j | 0 <= i < j < |keys| ensures Order(t')(keys[i], keys[j]) {
      assert Rank(t', keys[i]) == i + 1 && Rank(t', keys[j]) == j + 1;
    }
    ListingUnique(t', keys);
  }

  lemma SeedLists(labels: seq<Texts>, now: int)
    requires |labels| == 4
    ensures Listing(Seeded(map[], labels, now)) == BUILTIN
  {
    hide Listing;
    var t := Seeded(map[], labels, now);
    assert t.Keys == {"call", "meeting", "email", "todo"};
    forall k ensures k in BUILTIN <==> k in t {}
    assert Rank(t, "call") == 1 && Rank(t, "meeting") == 2 && Rank(t, "email") == 3 && Rank(t, "todo") == 4;
    forall i, j | 0 <= i < j < 4 ensures Order(t)(BUILTIN[i], BUILTIN[j]) {
      assert Rank(t, BUILTIN[i]) == i + 1 && Rank(t, BUILTIN[j]) == j + 1;
    }
    ListingUnique(t, BUILTIN);
  }

  // ---------------------------------------------------------------- every history on a plain list

  /** Whether a write is accepted. A reorder and a seed are judged by the keys alone. */
  ghost predicate Accepts(t: Table, op: Op, now: int) {
    match op
    case Seed(labels) => |labels| == 4
    case Create(n) => Created(t, n, now).Ok?
    case Update(key, c) => Updated(t, key, c, now).Ok?
    case Delete(key, usage, referenced) => Deleted(t, key, usage, referenced).Ok?
    case Reorder(_) => true
  }

  /** What an accepted write does to a plain list of keys. */
  function ListStep(ks: seq<string>, op: Op): seq<string> {
    match op
    case Seed(_) => if ks == [] then BUILTIN else ks
    case Create(n) => ks + [n.key]
    case Update(_, _) => ks
    case Delete(key, _, _) => var i := IndexIn(ks, key); if i < |ks| then Without(ks, i) else ks
    case Reorder(keys) => if multiset(keys) == multiset(ks) then keys else ks
  }

  /** The same history on the list, where refused writes do nothing. */
  ghost function ListRun(t: Table, ks: seq<string>, ops: seq<(Op, int)>): seq<string> {
    if ops == [] then ks
    else
      var k := |ops| - 1;
      var before := ListRun(t, ks, ops[..k]);
      if Accepts(Run(t, ops[..k]), ops[k].0, ops[k].1) then ListStep(before, ops[k].0) else before
  }

  lemma StepLists(t: Table, op: Op, now: int)
    ensures Listing(Apply(t, op, now)) == if Accepts(t, op, now) then ListStep(Listing(t), op) else Listing(t)
  {
    hide Listing, Created, Updated, Deleted, Reordered, Seeded, IndexIn;
    match op
    case Seed(labels) =>
      if |labels| == 4 {
        EmptyLists(t);
        if t == map[] { SeedLists(labels, now); } else { SeededOnce(t, labels, now); }
      }
    case Create(n) => if Created(t, n, now).Ok? { CreateAppends(t, n, now); }
    case Update(key, c) => if Updated(t, key, c, now).Ok? { UpdateKeepsOrder(t, key, c, now); }
    case Delete(key, usage, referenced) =>
      if Deleted(t, key, usage, referenced).Ok? { DeleteRemoves(t, key, usage, referenced); }
    case Reorder(keys) => if multiset(keys) == multiset(t.Keys) { ReorderLists(t, keys, now); }
  }

  lemma EmptyLists(t: Table)
    ensures Listing(t) == [] <==> t == map[]
  {
    hide Listing;
    ListingIs(t);
    if t != map[] {
      var k :| k in t;
      assert k in Listing(t);
    } else {
      assert |multiset(Listing(t))| == 0;
    }
  }

  lemma SeededOnce(t: Table, labels: seq<Texts>, now: int)
    requires t != map[] && |labels| == 4
    ensures Seeded(t, labels, now) == t
  {
  }

  /** The stored positions refine the plain list: over every history, listing the table gives the list's own history. */
  lemma {:induction false} RunLists(t: Table, ops: seq<(Op, int)>)
    ensures Listing(Run(t, ops)) == ListRun(t, Listing(t), ops)
    decreases |ops|
  {
    hide Listing, Apply, Accepts, ListStep;
    if ops != [] {
      var k := |ops| - 1;
      RunLists(t, ops[..k]);
      StepLists(Run(t, ops[..k]), ops[k].0, ops[k].1);
    }
  }

  // ---------------------------------------------------------------- the store

  class Store {
    var rows: Table

    constructor ()
      ensures rows == map[]
    {
      rows := map[];
    }

    method Keys() returns (keys: seq<string>)
      ensures multiset(keys) == multiset(rows.Keys)
    {
      keys := [];
      var left := rows.Keys;
      while left != {}
        invariant left <= rows.Keys && multiset(keys) + multiset(left) == multiset(rows.Keys)
        decreases left
      {
        var k :| k in left;
        keys, left := keys + [k], left - {k};
      }
    }

    /** Every key, active and archived, in position order. */
    method List() returns (keys: seq<string>)
      ensures keys == Listing(rows)
    {
      var current := Keys();
      keys := Sort(current, Order(rows));
      OrderTotal(rows);
      SortSorts(current, Order(rows));
      PermutationShape(rows, keys);
      ListingUnique(rows, keys);
    }

    method GreatestPosition() returns (m: int)
      ensures m == MaxPosition(rows)
    {
      m := 0;
      var left, started := rows.Keys, false;
      while left != {}
        invariant left <= rows.Keys && (started <==> left != rows.Keys)
        invariant if !started then m == 0
                  else (exists k :: k in rows && k !in left && rows[k].position == m) && forall k | k in rows && k !in left :: rows[k].position <= m
        decreases left
      {
        var k :| k in left;
        if !started || rows[k].position > m {
          m := rows[k].position;
        }
        left, started := left - {k}, true;
      }
      if rows != map[] {
        var k :| k in rows;
        assert k in rows.Keys;
      }
    }

    method Create(n: NewType, now: int) returns (e: Option<Error>)
      modifies this
      ensures match Created(old(rows), n, now)
              case Ok(t) => e == None && rows == t
              case Err(x) => e == Some(x) && rows == old(rows)
    {
      if n.key in rows {
        return Some(KeyTaken);
      }
      if |rows| >= MAX_TYPES {
        return Some(LimitReached);
      }
      var greatest := GreatestPosition();
      if !ValidKey(n.key) || !ValidDays(n.dueDays) || greatest + 1 > MAX_POSITION {
        return Some(Constraint);
      }
      rows := rows[n.key := Row(n.names, n.icon, n.summary, n.dueDays, greatest + 1, None, now)];
      return None;
    }

    method Update(key: string, c: Change, now: int) returns (e: Option<Error>)
      modifies this
      ensures match Updated(old(rows), key, c, now)
              case Ok(t) => e == None && rows == t
              case Err(x) => e == Some(x) && rows == old(rows)
    {
      if key !in rows {
        return Some(NotFound);
      }
      if c.archived == Some(true) && rows[key].archivedAt.None? && !AnotherActive(rows, key) {
        return Some(LastActive);
      }
      var r := ChangedRow(rows[key], c, now);
      if !ValidDays(r.dueDays) {
        return Some(Constraint);
      }
      rows := rows[key := r];
      return None;
    }

    method Delete(key: string, usage: nat, referenced: bool) returns (e: Option<Error>)
      modifies this
      ensures match Deleted(old(rows), key, usage, referenced)
              case Ok(t) => e == None && rows == t
              case Err(x) => e == Some(x) && rows == old(rows)
    {
      if key !in rows {
        return Some(NotFound);
      }
      if usage > 0 {
        return Some(InUse);
      }
      if rows[key].archivedAt.None? && !AnotherActive(rows, key) {
        return Some(LastActive);
      }
      if referenced {
        return Some(InUse);
      }
      rows := rows - {key};
      return None;
    }

    method Seed(labels: seq<Texts>, now: int)
      requires |labels| == 4
      modifies this
      ensures rows == Seeded(old(rows), labels, now)
    {
      if rows != map[] {
        return;
      }
      for i := 0 to 4
        invariant rows == BuiltinUpTo(labels, now, i)
      {
        rows := rows[BUILTIN[i] := BuiltinRow(i, labels[i], now)];
      }
      BuiltinAll(labels, now);
    }

    /** It succeeds exactly for a permutation of the current keys. */
    method Reorder(keys: seq<string>, now: int) returns (e: Option<Error>)
      modifies this
      ensures e == if multiset(keys) == multiset(old(rows).Keys) then None else Some(OrderMismatch)
      ensures e.None? ==> rows == Reordered(old(rows), keys, now)
      ensures e.Some? ==> rows == old(rows)
    {
      var current := Keys();
      SortStringsEqual(keys, current);
      if SortStrings(keys) != SortStrings(current) {
        return Some(OrderMismatch);
      }
      Place(keys, now);
      return None;
    }

    method Place(keys: seq<string>, now: int)
      requires multiset(keys) == multiset(rows.Keys)
      modifies this
      ensures rows == Reordered(old(rows), keys, now)
    {
      hide ReorderedUpTo, Reordered, IndexIn;
      PermutationShape(rows, keys);
      ReorderedEnds(rows, keys, now);
      for i := 0 to |keys|
        invariant rows == ReorderedUpTo(old(rows), keys, i, now)
      {
        ReorderedStep(old(rows), keys, i, now);
        if rows[keys[i]].position != i + 1 {
          rows := rows[keys[i] := rows[keys[i]].(position := i + 1, updatedAt := now)];
        } else {
          SameRow(rows, keys[i]);
        }
      }
    }
  }

  lemma SameRow(t: Table, k: string)
    requires k in t
    ensures t[k := t[k]] == t
  {
  }

  ghost function BuiltinUpTo(labels: seq<Texts>, now: int, i: nat): Table
    requires |labels| == 4 && i <= 4
  {
    if i == 0 then map[] else BuiltinUpTo(labels, now, i - 1)[BUILTIN[i - 1] := BuiltinRow(i - 1, labels[i - 1], now)]
  }

  lemma BuiltinAll(labels: seq<Texts>, now: int)
    requires |labels| == 4
    ensures BuiltinUpTo(labels, now, 4) == Seeded(map[], labels, now)
  {
    assert BuiltinUpTo(labels, now, 0) == map[];
    assert BuiltinUpTo(labels, now, 1) == map["call" := BuiltinRow(0, labels[0], now)];
    assert BuiltinUpTo(labels, now, 2) == BuiltinUpTo(labels, now, 1)["meeting" := BuiltinRow(1, labels[1], now)];
    assert BuiltinUpTo(labels, now, 3) == BuiltinUpTo(labels, now, 2)["email" := BuiltinRow(2, labels[2], now)];
  }

  lemma ReorderedEnds(t: Table, keys: seq<string>, now: int)
    requires multiset(keys) == multiset(t.Keys)
    ensures ReorderedUpTo(t, keys, 0, now) == t && ReorderedUpTo(t, keys, |keys|, now) == Reordered(t, keys, now)
  {
    hide IndexIn, MovedRow, Reordered, ReorderedUpTo;
    ReorderedNone(t, keys, now);
    PermutationShape(t, keys);
    forall k | k in t ensures IndexIn(keys, k) < |keys| { assert k in keys; }
    ReorderedAll(t, keys, now);
  }

  lemma ReorderedNone(t: Table, keys: seq<string>, now: int)
    ensures ReorderedUpTo(t, keys, 0, now) == t
  {
    hide IndexIn, MovedRow;
  }

  lemma ReorderedAll(t: Table, keys: seq<string>, now: int)
    requires forall k | k in t :: IndexIn(keys, k) < |keys|
    ensures ReorderedUpTo(t, keys, |keys|, now) == Reordered(t, keys, now)
  {
    hide IndexIn, MovedRow;
  }

  /** The table when the first `i` keys have been placed. */
  ghost function ReorderedUpTo(t: Table, keys: seq<string>, i: nat, now: int): Table {
    map k | k in t :: if IndexIn(keys, k) < i then MovedRow(t[k], IndexIn(keys, k) + 1, now) else t[k]
  }

  lemma ReorderedStep(t: Table, keys: seq<string>, i: nat, now: int)
    requires i < |keys| && Distinct(keys) && keys[i] in t
    ensures keys[i] in ReorderedUpTo(t, keys, i, now) && ReorderedUpTo(t, keys, i, now)[keys[i]] == t[keys[i]]
    ensures ReorderedUpTo(t, keys, i + 1, now) == ReorderedUpTo(t, keys, i, now)[keys[i] := MovedRow(t[keys[i]], i + 1, now)]
  {
    hide IndexIn;
    IndexInAt(keys, i);
    forall k | k in t && k != keys[i] ensures IndexIn(keys, k) != i {
      assert IndexIn(keys, k) < |keys| ==> keys[IndexIn(keys, k)] == k;
    }
  }
}
