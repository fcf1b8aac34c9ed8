/**
 The activity type table: its writes, each one locked transaction, and what every one of
 them keeps.
 */
module ActivityTypes {
  import opened Basics
  import opened Ordering

  type Texts = map<string, string>

  datatype Row = Row(names: Texts, icon: string, summary: Texts, dueDays: Option<int>,
                     position: int, archivedAt: Option<int>, updatedAt: int)

  type Table = map<string, Row>

  datatype Error = NotFound | KeyTaken | LimitReached | LastActive | InUse | OrderMismatch | Constraint

  datatype NewType = NewType(key: string, names: Texts, icon: string, summary: Texts, dueDays: Option<int>)

  datatype Change = Change(names: Option<Texts>, icon: Option<string>, summary: Option<Texts>, dueDays: Option<int>,
                           clearDueDays: bool, archived: Option<bool>)

  const MAX_TYPES := 50
  const MAX_POSITION := 0x7FFF_FFFF

  // ---------------------------------------------------------------- the table's own constraints

  predicate KeyChar(c: char) { 'a' <= c <= 'z' || '0' <= c <= '9' || c == '_' }

  predicate ValidKey(key: string) {
    1 <= |key| <= 40 && 'a' <= key[0] <= 'z' && forall i | 0 <= i < |key| :: KeyChar(key[i])
  }

  predicate ValidDays(days: Option<int>) { days.Some? ==> 0 <= days.value <= 365 }

  // ---------------------------------------------------------------- queries

  predicate Active(t: Table, key: string) { key in t && t[key].archivedAt.None? }

  predicate AnotherActive(t: Table, key: string) { exists k | k in t :: k != key && t[k].archivedAt.None? }

  lemma {:induction false} MaxExists(t: Table, keys: set<string>)
    requires keys != {} && keys <= t.Keys
    ensures exists k :: k in keys && forall j | j in keys :: t[j].position <= t[k].position
    decreases |keys|
  {
    var a :| a in keys;
    var rest := keys - {a};
    if rest != {} {
      MaxExists(t, rest);
      var k :| k in rest && forall j | j in rest :: t[j].position <= t[k].position;
      var m := if t[k].position >= t[a].position then k else a;
      forall j | j in keys ensures t[j].position <= t[m].position { assert j == a || j in rest; }
    } else {
      forall j | j in keys ensures j == a { assert j !in rest; }
    }
  }

  /** The greatest position, or 0 for no rows. */
  ghost function MaxPosition(t: Table): (m: int)
    ensures t != map[] ==> exists k :: k in t && t[k].position == m
    ensures forall j | j in t :: t[j].position <= m
    ensures t == map[] ==> m == 0
  {
    if t == map[] then 0
    else
      MaxExists(t, t.Keys);
      var k :| k in t && forall j | j in t :: t[j].position <= t[k].position;
      t[k].position
  }

  // ---------------------------------------------------------------- writes, as functions of the table

  ghost function Created(t: Table, n: NewType, now: int): Result<Table, Error> {
    if n.key in t then Err(KeyTaken)
    else if |t| >= MAX_TYPES then Err(LimitReached)
    else if !ValidKey(n.key) || !ValidDays(n.dueDays) || MaxPosition(t) + 1 > MAX_POSITION then Err(Constraint)
    else Ok(t[n.key := Row(n.names, n.icon, n.summary, n.dueDays, MaxPosition(t) + 1, None, now)])
  }

  function Coalesce<T>(o: Option<T>, otherwise: T): T { if o.Some? then o.value else otherwise }

  function ChangedRow(r: Row, c: Change, now: int): Row {
    Row(Coalesce(c.names, r.names), Coalesce(c.icon, r.icon), Coalesce(c.summary, r.summary),
        if c.clearDueDays then None else if c.dueDays.Some? then c.dueDays else r.dueDays, r.position,
        if c.archived.None? then r.archivedAt
        else if !c.archived.value then None
        else if r.archivedAt.Some? then r.archivedAt else Some(now),
        now)
  }

  function Updated(t: Table, key: string, c: Change, now: int): Result<Table, Error> {
    if key !in t then Err(NotFound)
    else if c.archived == Some(true) && t[key].archivedAt.None? && !AnotherActive(t, key) then Err(LastActive)
    else if !ValidDays(ChangedRow(t[key], c, now).dueDays) then Err(Constraint)
    else Ok(t[key := ChangedRow(t[key], c, now)])
  }

  /** `referenced`: some activity refers to the row by the time it is deleted. */
  function Deleted(t: Table, key: string, usage: nat, referenced: bool): Result<Table, Error> {
    if key !in t then Err(NotFound)
    else if usage > 0 then Err(InUse)
    else if t[key].archivedAt.None? && !AnotherActive(t, key) then Err(LastActive)
    else if referenced then Err(InUse)
    else Ok(t - {key})
  }

  function IndexIn(keys: seq<string>, key: string): (i: nat)
    ensures i <= |keys| && (i < |keys| ==> keys[i] == key) && (i == |keys| ==> key !in keys)
  {
    if keys == [] || keys[0] == key then 0 else 1 + IndexIn(keys[1..], key)
  }

  /** Only a row whose position changes is written. */
  function MovedRow(r: Row, position: int, now: int): Row {
    if r.position == position then r else r.(position := position, updatedAt := now)
  }

  function Reordered(t: Table, keys: seq<string>, now: int): Table {
    map k | k in t :: MovedRow(t[k], IndexIn(keys, k) + 1, now)
  }

  const BUILTIN := ["call", "meeting", "email", "todo"]
  const ICONS := ["phone", "users", "mail", "square-check"]

  function BuiltinRow(i: nat, names: Texts, now: int): Row
    requires i < 4
  {
    Row(names, ICONS[i], map[], None, i + 1, None, now)
  }

  /** The built-in types, with a label map for each, when there are no types yet. */
  function Seeded(t: Table, labels: seq<Texts>, now: int): Table
    requires |labels| == 4
  {
    if t != map[] then t
    else map["call" := BuiltinRow(0, labels[0], now), "meeting" := BuiltinRow(1, labels[1], now),
             "email" := BuiltinRow(2, labels[2], now), "todo" := BuiltinRow(3, labels[3], now)]
  }

  // ---------------------------------------------------------------- the columns a write sets

  /** Every other row is as it was. */
  ghost predicate OnlyAt(t: Table, t': Table, key: string) {
    forall k | k != key :: (k in t' <==> k in t) && (k in t ==> t'[k] == t[k])
  }

  /** A column with a new value takes it; one without keeps its own. */
  predicate Takes<T(==)>(was: T, now: T, wish: Option<T>) {
    wish == Some(now) || (wish == None && now == was)
  }

  /** A new row holds what was asked for, stands behind every other and is active; refusals in the order they are checked. */
  lemma CreatedColumns(t: Table, n: NewType, now: int)
    ensures var r := Created(t, n, now);
            && (r == Err(KeyTaken) <==> n.key in t)
            && (r == Err(LimitReached) <==> n.key !in t && |t| >= 50)
            && (r.Ok? ==>
                  && OnlyAt(t, r.value, n.key) && n.key in r.value
                  && var row := r.value[n.key];
                     && row.names == n.names && row.icon == n.icon && row.summary == n.summary && row.dueDays == n.dueDays
                     && row.archivedAt == None && row.updatedAt == now && row.position <= 2147483647
                     && (forall k | k in t :: t[k].position < row.position)
                     && (if t == map[] then row.position == 1 else exists k :: k in t && t[k].position + 1 == row.position))
  {
    hide ValidKey, ValidDays;
    if t != map[] { var k :| k in t && t[k].position == MaxPosition(t); }
  }

  /** Seeding an empty table: call, meeting, email and to-do, in that order, active, each with its label and icon. */
  lemma SeededColumns(labels: seq<Texts>, now: int, i: nat)
    requires |labels| == 4 && i < 4
    ensures var t, key := Seeded(map[], labels, now), ["call", "meeting", "email", "todo"][i];
            && t.Keys == {"call", "meeting", "email", "todo"}
            && t[key] == Row(labels[i], ["phone", "users", "mail", "square-check"][i], map[], None, i + 1, None, now)
  {
  }

  /** An update sets the columns it names and the time; archiving keeps the first time it was done. */
  lemma UpdatedColumns(t: Table, key: string, c: Change, now: int)
    requires Updated(t, key, c, now).Ok?
    ensures var t' := Updated(t, key, c, now).value;
            && key in t && key in t' && OnlyAt(t, t', key)
            && var was, row := t[key], t'[key];
               && Takes(was.names, row.names, c.names) && Takes(was.icon, row.icon, c.icon) && Takes(was.summary, row.summary, c.summary)
               && row.position == was.position && row.updatedAt == now
               && (c.clearDueDays ==> row.dueDays == None)
               && (!c.clearDueDays ==> row.dueDays == if c.dueDays == None then was.dueDays else c.dueDays)
               && (c.archived == None ==> row.archivedAt == was.archivedAt)
               && (c.archived == Some(false) ==> row.archivedAt == None)
               && (c.archived == Some(true) ==> row.archivedAt.Some? && row.archivedAt.value in {now, Coalesce(was.archivedAt, now)})
               && (c.archived == Some(true) && was.archivedAt.Some? ==> row.archivedAt == was.archivedAt)
  {
    hide ValidDays;
  }

  /** Reordering puts each row at its place in the list and stamps those that moved. */
  lemma ReorderedColumns(t: Table, keys: seq<string>, now: int, i: nat)
    requires Distinct(keys) && i < |keys| && keys[i] in t
    ensures var row := Reordered(t, keys, now)[keys[i]];
            && row.position == i + 1 && row == t[keys[i]].(position := row.position, updatedAt := row.updatedAt)
            && row.updatedAt == if t[keys[i]].position == i + 1 then t[keys[i]].updatedAt else now
  {
    assert IndexIn(keys, keys[i]) == i by {
      var j := IndexIn(keys, keys[i]);
      assert keys[i] in keys && keys[j] == keys[i];
    }
  }

  // ---------------------------------------------------------------- what every write keeps

  ghost predicate DistinctPositions(t: Table) {
    forall a, b | a in t && b in t && a != b :: t[a].position != t[b].position
  }

  predicate ValidRow(key: string, r: Row) {
    ValidKey(key) && ValidDays(r.dueDays) && 1 <= r.position <= MAX_POSITION
  }

  ghost predicate ValidRows(t: Table) {
    forall k | k in t :: ValidRow(k, t[k])
  }

  ghost predicate HasActive(t: Table) { exists k :: Active(t, k) }

  /** Keys are unique by the map's own nature; everything else the writes must see to. */
  ghost predicate Invariant(t: Table) {
    && |t.Keys| <= MAX_TYPES && DistinctPositions(t)
    && ValidRows(t)
    && (t == map[] || HasActive(t))
  }

  /** Writing one row with a position of its own. */
  lemma PutKeeps(t: Table, key: string, r: Row)
    requires ValidRows(t) && DistinctPositions(t) && ValidRow(key, r)
    requires forall k | k in t && k != key :: t[k].position != r.position
    ensures ValidRows(t[key := r]) && DistinctPositions(t[key := r]) && t[key := r] != map[]
  {
    hide ValidRow;
    assert key in t[key := r];
  }

  lemma PositiveMax(t: Table)
    requires ValidRows(t)
    ensures MaxPosition(t) >= 0
  {
    if t != map[] {
      var k :| k in t && t[k].position == MaxPosition(t);
      assert ValidRow(k, t[k]);
    }
  }

  lemma CreatedKeeps(t: Table, n: NewType, now: int)
    requires Invariant(t) && Created(t, n, now).Ok?
    ensures Invariant(Created(t, n, now).value) && Created(t, n, now).value != map[]
  {
    hide ValidKey, ValidDays, DistinctPositions, ValidRows;
    var t' := Created(t, n, now).value;
    PositiveMax(t);
    var r := Row(n.names, n.icon, n.summary, n.dueDays, MaxPosition(t) + 1, None, now);
    assert ValidRow(n.key, r);
    PutKeeps(t, n.key, r);
    hide ValidRow, MaxPosition, Created;
    assert t' == t[n.key := r];
    assert t'.Keys == t.Keys + {n.key} && |t| == |t.Keys|;
    assert Active(t', n.key);
  }

  lemma UpdatedKeeps(t: Table, key: string, c: Change, now: int)
    requires Invariant(t) && Updated(t, key, c, now).Ok?
    ensures Invariant(Updated(t, key, c, now).value) && Updated(t, key, c, now).value != map[]
  {
    hide ValidKey, ValidDays;
    var t' := Updated(t, key, c, now).value;
    var r := ChangedRow(t[key], c, now);
    assert ValidRow(key, t[key]);
    assert ValidRow(key, r) && r.position == t[key].position;
    assert ValidRows(t);
    PutKeeps(t, key, r);
    UpdatedActive(t, key, c, now);
    hide ValidRow, DistinctPositions;
    assert t'.Keys == t.Keys;
  }

  lemma UpdatedActive(t: Table, key: string, c: Change, now: int)
    requires HasActive(t) && Updated(t, key, c, now).Ok?
    ensures HasActive(Updated(t, key, c, now).value)
  {
    hide ValidDays;
    var t' := Updated(t, key, c, now).value;
    if !Active(t', key) {
      if t[key].archivedAt.None? {
        var k :| k in t && k != key && t[k].archivedAt.None?;
        assert Active(t', k);
      } else {
        var k :| Active(t, k);
        assert Active(t', k);
      }
    }
  }

  lemma DeletedKeeps(t: Table, key: string, usage: nat, referenced: bool)
    requires Invariant(t) && Deleted(t, key, usage, referenced).Ok?
    ensures Invariant(Deleted(t, key, usage, referenced).value) && Deleted(t, key, usage, referenced).value != map[]
  {
    hide ValidRow;
    var t' := Deleted(t, key, usage, referenced).value;
    assert t'.Keys == t.Keys - {key};
    var k;
    if t[key].archivedAt.None? {
      k :| k in t && k != key && t[k].archivedAt.None?;
    } else {
      k :| Active(t, k);
    }
    assert Active(t', k) && k in t';
  }

  lemma BuiltinKeys()
    ensures ValidKey("call") && ValidKey("meeting") && ValidKey("email") && ValidKey("todo")
  {
  }

  lemma SeededKeeps(t: Table, labels: seq<Texts>, now: int)
    requires Invariant(t) && |labels| == 4
    ensures Invariant(Seeded(t, labels, now)) && Seeded(t, labels, now) != map[]
  {
    hide ValidKey, ValidRow, DistinctPositions;
    if t == map[] {
      var r0, r1, r2, r3 := BuiltinRow(0, labels[0], now), BuiltinRow(1, labels[1], now), BuiltinRow(2, labels[2], now), BuiltinRow(3, labels[3], now);
      BuiltinRows(labels, now);
      var t0: Table := map[];
      assert ValidRows(t0) && DistinctPositions(t0) by { EmptyInvariant(); }
      PutKeeps(t0, "call", r0);
      PutKeeps(t0["call" := r0], "meeting", r1);
      PutKeeps(t0["call" := r0]["meeting" := r1], "email", r2);
      PutKeeps(t0["call" := r0]["meeting" := r1]["email" := r2], "todo", r3);
      var t' := t0["call" := r0]["meeting" := r1]["email" := r2]["todo" := r3];
      assert Seeded(t, labels, now) == t';
      assert t'.Keys == {"call", "meeting", "email", "todo"};
      assert Active(t', "call");
    }
  }

  lemma BuiltinRows(labels: seq<Texts>, now: int)
    requires |labels| == 4
    ensures ValidRow("call", BuiltinRow(0, labels[0], now)) && ValidRow("meeting", BuiltinRow(1, labels[1], now))
    ensures ValidRow("email", BuiltinRow(2, labels[2], now)) && ValidRow("todo", BuiltinRow(3, labels[3], now))
  {
    hide ValidKey;
    BuiltinKeys();
  }

  lemma PermutationShape(t: Table, keys: seq<string>)
    requires multiset(keys) == multiset(t.Keys)
    ensures forall k :: k in keys <==> k in t
    ensures |keys| == |t.Keys| && Distinct(keys)
  {
    assert |multiset(keys)| == |keys| && |multiset(t.Keys)| == |t.Keys|;
    DistinctPermutation(keys, multiset(t.Keys));
  }

  lemma IndexInAt(keys: seq<string>, i: nat)
    requires i < |keys| && Distinct(keys)
    ensures IndexIn(keys, keys[i]) == i
  {
    var j := IndexIn(keys, keys[i]);
    assert keys[i] in keys;
  }

  lemma ReorderedPositions(t: Table, keys: seq<string>, now: int)
    requires multiset(keys) == multiset(t.Keys)
    ensures Reordered(t, keys, now).Keys == t.Keys && |keys| == |t.Keys| && Distinct(keys)
    ensures forall i | 0 <= i < |keys| :: keys[i] in t && Reordered(t, keys, now)[keys[i]].position == i + 1
    ensures forall k | k in t :: k in keys && Reordered(t, keys, now)[k].position == IndexIn(keys, k) + 1 <= |keys|
  {
    hide IndexIn;
    PermutationShape(t, keys);
    forall i | 0 <= i < |keys| ensures keys[i] in t && Reordered(t, keys, now)[keys[i]].position == i + 1 {
      IndexInAt(keys, i);
    }
  }

  lemma ReorderedRows(t: Table, keys: seq<string>, now: int)
    ensures Reordered(t, keys, now).Keys == t.Keys
    ensures forall k | k in t :: Reordered(t, keys, now)[k].dueDays == t[k].dueDays && Reordered(t, keys, now)[k].archivedAt == t[k].archivedAt
  {
    hide IndexIn;
  }

  lemma ReorderedKeeps(t: Table, keys: seq<string>, now: int)
    requires Invariant(t) && multiset(keys) == multiset(t.Keys)
    ensures Invariant(Reordered(t, keys, now)) && (t != map[] ==> Reordered(t, keys, now) != map[])
  {
    hide IndexIn, Reordered, ValidRow, DistinctPositions, ValidRows;
    var t' := Reordered(t, keys, now);
    ReorderedRows(t, keys, now);
    ReorderedApart(t, keys, now);
    ReorderedValid(t, keys, now);
    assert |t'.Keys| == |t.Keys|;
    if t != map[] {
      var k :| Active(t, k);
      assert Active(t', k) && k in t';
    } else {
      assert t'.Keys == {};
    }
  }

  lemma ReorderedValid(t: Table, keys: seq<string>, now: int)
    requires ValidRows(t) && |t.Keys| <= MAX_TYPES && multiset(keys) == multiset(t.Keys)
    ensures ValidRows(Reordered(t, keys, now))
  {
    hide ValidKey, ValidDays, IndexIn, Reordered;
    var t' := Reordered(t, keys, now);
    ReorderedPositions(t, keys, now);
    ReorderedRows(t, keys, now);
    forall k | k in t' ensures ValidRow(k, t'[k]) { assert ValidRow(k, t[k]); }
  }

  lemma ReorderedApart(t: Table, keys: seq<string>, now: int)
    requires multiset(keys) == multiset(t.Keys)
    ensures DistinctPositions(Reordered(t, keys, now))
  {
    hide Reordered, IndexIn;
    var t' := Reordered(t, keys, now);
    ReorderedPositions(t, keys, now);
    forall a, b | a in t' && b in t' && a != b ensures t'[a].position != t'[b].position {
      assert keys[IndexIn(keys, a)] == a && keys[IndexIn(keys, b)] == b;
    }
  }

  // ---------------------------------------------------------------- whole histories

  datatype Op =
    | Seed(labels: seq<Texts>)
    | Create(n: NewType)
    | Update(key: string, change: Change)
    | Delete(key: string, usage: nat, referenced: bool)
    | Reorder(keys: seq<string>)

  ghost function Apply(t: Table, op: Op, now: int): Table {
    match op
    case Seed(labels) => if |labels| == 4 then Seeded(t, labels, now) else t
    case Create(n) => var r := Created(t, n, now); if r.Ok? then r.value else t
    case Update(key, c) => var r := Updated(t, key, c, now); if r.Ok? then r.value else t
    case Delete(key, usage, referenced) => var r := Deleted(t, key, usage, referenced); if r.Ok? then r.value else t
    case Reorder(keys) => if multiset(keys) == multiset(t.Keys) then Reordered(t, keys, now) else t
  }

  ghost function Run(t: Table, ops: seq<(Op, int)>): Table {
    if ops == [] then t else Apply(Run(t, ops[..|ops| - 1]), ops[|ops| - 1].0, ops[|ops| - 1].1)
  }

  lemma ApplyKeeps(t: Table, op: Op, now: int)
    requires Invariant(t)
    ensures Invariant(Apply(t, op, now)) && (t != map[] ==> Apply(t, op, now) != map[])
  {
    hide Invariant, Created, Updated, Deleted, Reordered, Seeded;
    match op
    case Seed(labels) => if |labels| == 4 { SeededKeeps(t, labels, now); }
    case Create(n) => if Created(t, n, now).Ok? { CreatedKeeps(t, n, now); }
    case Update(key, c) => if Updated(t, key, c, now).Ok? { UpdatedKeeps(t, key, c, now); }
    case Delete(key, usage, referenced) => if Deleted(t, key, usage, referenced).Ok? { DeletedKeeps(t, key, usage, referenced); }
    case Reorder(keys) => if multiset(keys) == multiset(t.Keys) { ReorderedKeeps(t, keys, now); }
  }

  /** From an empty table, every history keeps the invariant. */
  lemma {:induction false} HistoryKeeps(ops: seq<(Op, int)>)
    ensures Invariant(Run(map[], ops))
  {
    hide Invariant, Apply;
    if ops == [] {
      EmptyInvariant();
    } else {
      HistoryKeeps(ops[..|ops| - 1]);
      ApplyKeeps(Run(map[], ops[..|ops| - 1]), ops[|ops| - 1].0, ops[|ops| - 1].1);
    }
  }

  lemma EmptyInvariant()
    ensures Invariant(map[])
  {
  }

  /** Once there is a type there always is one, so seeding again does nothing. */
  lemma {:induction false} SeedOnce(t: Table, ops: seq<(Op, int)>, labels: seq<Texts>, now: int)
    requires Invariant(t) && t != map[] && |labels| == 4
    ensures Invariant(Run(t, ops)) && Run(t, ops) != map[] && Seeded(Run(t, ops), labels, now) == Run(t, ops)
    decreases |ops|
  {
    hide Invariant, Apply;
    if ops != [] {
      SeedOnce(t, ops[..|ops| - 1], labels, now);
      ApplyKeeps(Run(t, ops[..|ops| - 1]), ops[|ops| - 1].0, ops[|ops| - 1].1);
    }
  }
}
