/**
 The edit of one object by a list of blocks: replacements, removals and additions are
 planned first, then the members are laid out again around the ones that stay.
 */
module ManifestEdit {
  import opened Basics
  import opened JsonLex
  import opened JsonTree
  import opened JsonFormat
  import opened ManifestTree

  datatype Plan = Plan(replaced: map<string, Node>, removed: set<string>, appended: seq<Block>, changed: seq<string>)

  const NO_PLAN := Plan(map[], {}, [], [])

  function PlanBlock(n: Node, p: Plan, b: Block): Result<Plan, Problem>
    requires IsObject(n)
  {
    var i := IndexOf(n.members, b.key);
    if i == |n.members| then
      if b.value.None? then Ok(p) else Ok(p.(appended := p.appended + [b], changed := p.changed + [b.key]))
    else if b.value.None? then
      Ok(p.(removed := p.removed + {b.key}, changed := p.changed + [b.key]))
    else if SameJson(Print(n.members[i].value), b.value.value) then Ok(p)
    else
      match Formatted(StyleOf(n), b.value.value)
      case None => Err(BadValue)
      case Some(f) => Ok(p.(replaced := p.replaced[b.key := f], changed := p.changed + [b.key]))
  }

  function PlanBlocks(n: Node, blocks: seq<Block>): Result<Plan, Problem>
    requires IsObject(n)
  {
    if blocks == [] then Ok(NO_PLAN)
    else
      match PlanBlocks(n, blocks[..|blocks| - 1])
      case Err(e) => Err(e)
      case Ok(p) => PlanBlock(n, p, blocks[|blocks| - 1])
  }

  predicate Stays(m: Member, removed: set<string>) {
    !(KeyOf(m.name).Some? && KeyOf(m.name).value in removed)
  }

  /** The places among the first `k` of the members that stay. */
  function Kept(ms: seq<Member>, removed: set<string>, k: nat): (ks: seq<nat>)
    requires k <= |ms|
    ensures forall j | 0 <= j < |ks| :: ks[j] < k
    ensures forall i, j | 0 <= i < j < |ks| :: ks[i] < ks[j]
  {
    if k == 0 then [] else Kept(ms, removed, k - 1) + (if Stays(ms[k - 1], removed) then [k - 1] else [])
  }

  function NewValue(m: Member, replaced: map<string, Node>): Node {
    if KeyOf(m.name).Some? && KeyOf(m.name).value in replaced then replaced[KeyOf(m.name).value] else m.value
  }

  /** The white space before the `j`-th member that stays: what stood behind its predecessor's comma. */
  function LeadOf(n: Node, ks: seq<nat>, j: nat): string
    requires IsObject(n) && j < |ks| && n.members != []
  {
    if j == 0 then n.members[0].lead
    else if ks[j - 1] + 1 < |n.members| then n.members[ks[j - 1] + 1].lead
    else StyleOf(n).gap
  }

  /** The white space before the closing brace. */
  function Tail(n: Node): string
    requires IsObject(n)
  {
    if n.members == [] then n.pad else n.members[|n.members| - 1].trail
  }

  function KeptMember(n: Node, p: Plan, ks: seq<nat>, j: nat): Member
    requires IsObject(n) && j < |ks| && forall q | 0 <= q < |ks| :: ks[q] < |n.members|
  {
    var m := n.members[ks[j]];
    Member(LeadOf(n, ks, j), m.name, m.pre, m.post, NewValue(m, p.replaced),
           if j < |ks| - 1 then m.trail else if p.appended == [] then Tail(n) else "")
  }

  /** The white space before the first new member when no member stays. */
  function FirstLead(n: Node): string
    requires IsObject(n)
  {
    (if n.members == [] then "" else n.members[0].lead) + StyleOf(n).gap
  }

  function NewMember(n: Node, p: Plan, ks: seq<nat>, fs: seq<Node>, i: nat): Member
    requires IsObject(n) && i < |fs| == |p.appended|
  {
    Member(if ks == [] && i == 0 then FirstLead(n) else StyleOf(n).gap,
           Quoted(p.appended[i].key), "", StyleOf(n).after, fs[i], if i == |fs| - 1 then Tail(n) else "")
  }

  function NewMembers(n: Node, p: Plan, ks: seq<nat>, fs: seq<Node>): seq<Member>
    requires IsObject(n) && |fs| == |p.appended| && forall q | 0 <= q < |ks| :: ks[q] < |n.members|
  {
    seq(|ks| + |fs|, j requires 0 <= j < |ks| + |fs| =>
      if j < |ks| then KeptMember(n, p, ks, j) else NewMember(n, p, ks, fs, j - |ks|))
  }

  function FormatAll(style: Style, blocks: seq<Block>): (r: Option<seq<Node>>)
    ensures r.Some? ==> |r.value| == |blocks|
  {
    if blocks == [] then Some([])
    else
      var last := blocks[|blocks| - 1];
      var rest := FormatAll(style, blocks[..|blocks| - 1]);
      if rest.None? || last.value.None? || Formatted(style, last.value.value).None? then None
      else Some(rest.value + [Formatted(style, last.value.value).value])
  }

  /** The edited object and the keys written, in block order. */
  function EditKeys(n: Node, blocks: seq<Block>): (r: Result<(Node, seq<string>), Problem>)
    requires IsObject(n)
    ensures r.Ok? ==> IsObject(r.value.0)
  {
    match PlanBlocks(n, blocks)
    case Err(e) => Err(e)
    case Ok(p) =>
      var ks := Kept(n.members, p.removed, |n.members|);
      if p.changed == [] then Ok((n, []))
      else if ks == [] && p.appended == [] then Err(NoOtherKeys)
      else
        match FormatAll(StyleOf(n), p.appended)
        case None => Err(BadValue)
        case Some(fs) => Ok((Group(true, "", NewMembers(n, p, ks, fs)), p.changed))
  }

  // ---------------------------------------------------------------- the edited object is JSON again

  lemma {:induction false} PlanWellFormed(n: Node, blocks: seq<Block>)
    requires IsObject(n) && WellFormed(n) && PlanBlocks(n, blocks).Ok?
    ensures var p := PlanBlocks(n, blocks).value;
            && (forall k | k in p.replaced :: WellFormed(p.replaced[k]))
            && (p.changed == [] ==> p == NO_PLAN)
    decreases |blocks|
  {
    hide WellFormed, Formatted, SameJson, IndexOf;
    if blocks != [] {
      var b := blocks[|blocks| - 1];
      PlanWellFormed(n, blocks[..|blocks| - 1]);
      if b.value.Some? && Formatted(StyleOf(n), b.value.value).Some? { FormattedMeans(n, b.value.value); }
    }
  }

  lemma NewMembersWellFormed(n: Node, p: Plan, ks: seq<nat>, fs: seq<Node>)
    requires IsObject(n) && WellFormed(n) && |fs| == |p.appended| && forall q | 0 <= q < |ks| :: ks[q] < |n.members|
    requires forall k | k in p.replaced :: WellFormed(p.replaced[k])
    requires forall i | 0 <= i < |fs| :: WellFormed(fs[i])
    ensures forall j | 0 <= j < |ks| + |fs| :: WellFormedMember(true, NewMembers(n, p, ks, fs)[j])
  {
    hide WellFormedMember, KeptMember, NewMember, WellFormed;
    forall j | 0 <= j < |ks| + |fs| ensures WellFormedMember(true, NewMembers(n, p, ks, fs)[j]) {
      if j < |ks| {
        KeptMemberWellFormed(n, p, ks, j);
      } else {
        NewMemberWellFormed(n, p, ks, fs, j - |ks|);
      }
    }
  }

  lemma TailBlank(n: Node)
    requires IsObject(n) && WellFormed(n)
    ensures Blank(Tail(n)) && Blank(FirstLead(n))
  {
    StyleBlank(n);
    if n.members != [] {
      assert WellFormedMember(true, n.members[0]);
      assert WellFormedMember(true, n.members[|n.members| - 1]);
    }
  }

  lemma KeptMemberWellFormed(n: Node, p: Plan, ks: seq<nat>, j: nat)
    requires IsObject(n) && WellFormed(n) && j < |ks| && forall q | 0 <= q < |ks| :: ks[q] < |n.members|
    requires forall k | k in p.replaced :: WellFormed(p.replaced[k])
    ensures WellFormedMember(true, KeptMember(n, p, ks, j))
  {
    hide Blank, IsStringToken, KeyOf, StyleOf;
    StyleBlank(n);
    TailBlank(n);
    EmptyMembers(true);
    assert WellFormedMember(true, n.members[ks[j]]);
    assert WellFormedMember(true, n.members[0]);
    if j > 0 && ks[j - 1] + 1 < |n.members| { assert WellFormedMember(true, n.members[ks[j - 1] + 1]); }
  }

  lemma NewMemberWellFormed(n: Node, p: Plan, ks: seq<nat>, fs: seq<Node>, i: nat)
    requires IsObject(n) && WellFormed(n) && i < |fs| == |p.appended| && WellFormed(fs[i])
    ensures WellFormedMember(true, NewMember(n, p, ks, fs, i))
  {
    hide Blank, IsStringToken, Quoted, StyleOf, FirstLead, Tail;
    StyleBlank(n);
    TailBlank(n);
    EmptyMembers(true);
    QuotedStands(p.appended[i].key);
  }

  lemma {:induction false} FormatAllAt(style: Style, blocks: seq<Block>, i: nat)
    requires i < |blocks| && FormatAll(style, blocks).Some?
    ensures blocks[i].value.Some? && Formatted(style, blocks[i].value.value) == Some(FormatAll(style, blocks).value[i])
    decreases |blocks|
  {
    hide Formatted;
    if i < |blocks| - 1 { FormatAllAt(style, blocks[..|blocks| - 1], i); }
  }

  lemma FormatAllWellFormed(n: Node, blocks: seq<Block>)
    requires IsObject(n) && WellFormed(n) && FormatAll(StyleOf(n), blocks).Some?
    ensures forall i | 0 <= i < |blocks| :: WellFormed(FormatAll(StyleOf(n), blocks).value[i])
  {
    var fs := FormatAll(StyleOf(n), blocks).value;
    forall i | 0 <= i < |blocks| ensures WellFormed(fs[i]) {
      FormatAllAt(StyleOf(n), blocks, i);
      FormattedMeans(n, blocks[i].value.value);
    }
  }

  lemma EditWellFormed(n: Node, blocks: seq<Block>)
    requires IsObject(n) && WellFormed(n) && EditKeys(n, blocks).Ok?
    ensures WellFormed(EditKeys(n, blocks).value.0)
  {
    hide WellFormedMember, FormatAll, Kept, PlanBlocks, NewMembers;
    var p := PlanBlocks(n, blocks).value;
    PlanWellFormed(n, blocks);
    if p.changed != [] {
      var ks := Kept(n.members, p.removed, |n.members|);
      var fs := FormatAll(StyleOf(n), p.appended).value;
      FormatAllWellFormed(n, p.appended);
      NewMembersWellFormed(n, p, ks, fs);
      NewMembersLength(n, p, ks, fs);
    }
  }

  lemma NewMembersLength(n: Node, p: Plan, ks: seq<nat>, fs: seq<Node>)
    requires IsObject(n) && |fs| == |p.appended| && forall q | 0 <= q < |ks| :: ks[q] < |n.members|
    ensures |NewMembers(n, p, ks, fs)| == |ks| + |fs|
  {
  }

  // ---------------------------------------------------------------- one block

  /** A member without the white space around it. */
  datatype Entry = Entry(name: string, pre: string, post: string, value: Node)

  function EntryOf(m: Member): Entry { Entry(m.name, m.pre, m.post, m.value) }

  function Entries(ms: seq<Member>): (es: seq<Entry>)
    ensures |es| == |ms| && forall i | 0 <= i < |ms| :: es[i] == EntryOf(ms[i])
  {
    seq(|ms|, i requires 0 <= i < |ms| => EntryOf(ms[i]))
  }

  lemma {:induction false} KeptAll(ms: seq<Member>, k: nat)
    requires k <= |ms|
    ensures Kept(ms, {}, k) == seq(k, i => i)
  {
    if k > 0 { KeptAll(ms, k - 1); }
  }

  /** Without the one member named `key`, the others stay in order. */
  lemma {:induction false} KeptOthers(ms: seq<Member>, key: string, i: nat, k: nat)
    requires i < |ms| && k <= |ms| && forall q | 0 <= q < |ms| :: HasKey(ms[q], key) <==> q == i
    ensures Kept(ms, {key}, k) == seq(if k <= i then k else k - 1, q => if q < i then q else q + 1)
    decreases k
  {
    if k > 0 {
      KeptOthers(ms, key, i, k - 1);
      assert Stays(ms[k - 1], {key}) <==> !HasKey(ms[k - 1], key);
    }
  }

  /** In strict JSON a key names at most one member. */
  lemma OnlyIndex(n: Node, key: string)
    requires IsObject(n) && Strict(n)
    ensures var i := IndexOf(n.members, key);
            i < |n.members| ==> forall q | 0 <= q < |n.members| :: HasKey(n.members[q], key) <==> q == i
  {
    var i := IndexOf(n.members, key);
    if i < |n.members| {
      forall q | 0 <= q < |n.members| ensures HasKey(n.members[q], key) <==> q == i {
        if i < q { assert KeyOf(n.members[i].name) != KeyOf(n.members[q].name); }
      }
    }
  }

  /** The plan for one block. */
  lemma PlanOne(n: Node, b: Block)
    requires IsObject(n)
    ensures PlanBlocks(n, [b]) == PlanBlock(n, NO_PLAN, b)
  {
    assert [b][..0] == [];
  }

  /** The members the object should have, in the simplest layout. */
  function Removed(ms: seq<Member>, i: nat): seq<Member>
    requires i < |ms|
  {
    ms[..i] + ms[i + 1..]
  }

  function Replaced(ms: seq<Member>, i: nat, f: Node): seq<Member>
    requires i < |ms|
  {
    ms[i := ms[i].(value := f)]
  }

  function Appended(n: Node, key: string, f: Node): seq<Member>
    requires IsObject(n)
  {
    n.members + [Member("", Quoted(key), "", StyleOf(n).after, f, "")]
  }

  lemma EditRemoves(n: Node, key: string)
    requires Readable(n) && IndexOf(n.members, key) < |n.members|
    ensures var r := EditKeys(n, [Block(key, None)]);
            if |n.members| == 1 then r == Err(NoOtherKeys)
            else r.Ok? && r.value.1 == [key] && r.value.0.pad == ""
                 && Entries(r.value.0.members) == Entries(Removed(n.members, IndexOf(n.members, key)))
  {
    hide WellFormed, Strict, IndexOf, Kept, StyleOf;
    var ms, i := n.members, IndexOf(n.members, key);
    PlanOne(n, Block(key, None));
    var p := Plan(map[], {key}, [], [key]);
    assert PlanBlocks(n, [Block(key, None)]) == Ok(p) by {
      assert {} + {key} == {key};
      assert [] + [key] == [key];
    }
    OnlyIndex(n, key);
    KeptOthers(ms, key, i, |ms|);
    var ks := Kept(ms, {key}, |ms|);
    if |ms| > 1 {
      var out := NewMembers(n, p, ks, []);
      forall j | 0 <= j < |ks| ensures Entries(out)[j] == Entries(Removed(ms, i))[j] {
        assert out[j] == KeptMember(n, p, ks, j);
      }
    }
  }

  lemma EditReplaces(n: Node, key: string, text: string)
    requires Readable(n) && IndexOf(n.members, key) < |n.members|
    ensures var r := EditKeys(n, [Block(key, Some(text))]);
            var i := IndexOf(n.members, key);
            if SameJson(Print(n.members[i].value), text) then r == Ok((n, []))
            else if Formatted(StyleOf(n), text).None? then r == Err(BadValue)
            else r.Ok? && r.value.1 == [key] && r.value.0.pad == ""
                 && Entries(r.value.0.members) == Entries(Replaced(n.members, i, Formatted(StyleOf(n), text).value))
  {
    hide WellFormed, Strict, IndexOf, Kept, StyleOf, SameJson, Formatted;
    var ms, i := n.members, IndexOf(n.members, key);
    PlanOne(n, Block(key, Some(text)));
    KeptAll(ms, |ms|);
    if !SameJson(Print(ms[i].value), text) && Formatted(StyleOf(n), text).Some? {
      var f := Formatted(StyleOf(n), text).value;
      var p := Plan(map[key := f], {}, [], [key]);
      var ks := Kept(ms, {}, |ms|);
      var out := NewMembers(n, p, ks, []);
      OnlyIndex(n, key);
      forall j | 0 <= j < |ms| ensures Entries(out)[j] == Entries(Replaced(ms, i, f))[j] {
        assert out[j] == KeptMember(n, p, ks, j);
      }
    }
  }

  lemma EditAppends(n: Node, key: string, text: string)
    requires Readable(n) && IndexOf(n.members, key) == |n.members|
    ensures var r := EditKeys(n, [Block(key, Some(text))]);
            if Formatted(StyleOf(n), text).None? then r == Err(BadValue)
            else r.Ok? && r.value.1 == [key] && r.value.0.pad == ""
                 && Entries(r.value.0.members) == Entries(Appended(n, key, Formatted(StyleOf(n), text).value))
  {
    hide WellFormed, Strict, IndexOf, Kept, StyleOf, SameJson, Formatted, Quoted;
    var ms, b := n.members, Block(key, Some(text));
    PlanOne(n, b);
    KeptAll(ms, |ms|);
    assert [b][..0] == [];
    if Formatted(StyleOf(n), text).Some? {
      var f := Formatted(StyleOf(n), text).value;
      assert FormatAll(StyleOf(n), [b]) == Some([f]) by { assert [] + [f] == [f]; }
      var p := Plan(map[], {}, [b], [key]);
      var ks := Kept(ms, {}, |ms|);
      var out := NewMembers(n, p, ks, [f]);
      forall j | 0 <= j < |ms| + 1 ensures Entries(out)[j] == Entries(Appended(n, key, f))[j] {
        assert out[j] == if j < |ms| then KeptMember(n, p, ks, j) else NewMember(n, p, ks, [f], 0);
      }
    }
  }

  lemma EditSkips(n: Node, key: string)
    requires IsObject(n) && IndexOf(n.members, key) == |n.members|
    ensures EditKeys(n, [Block(key, None)]) == Ok((n, []))
  {
    PlanOne(n, Block(key, None));
  }
}
