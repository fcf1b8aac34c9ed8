/**
 What a block does to the bytes of a manifest: one piece of the text is written anew, put
 in or taken out, and every byte before and behind it stays.
 */
module ManifestBytes {
  import opened Basics
  import opened JsonLex
  import opened JsonTree
  import opened JsonFormat
  import opened ManifestTree
  import opened ManifestEdit
  import opened ManifestRewrite
  import opened Manifest
  import opened ManifestSplice
  import opened ManifestDotted
  import opened ManifestLaws

  // ---------------------------------------------------------------- the edited members, white space and all

  /** A value is replaced in its place: nothing else of any member changes. */
  lemma ReplacesInPlace(n: Node, key: string, text: string)
    requires Readable(n) && IndexOf(n.members, key) < |n.members|
    requires !SameJson(Print(n.members[IndexOf(n.members, key)].value), text) && Formatted(StyleOf(n), text).Some?
    ensures EditKeys(n, [Block(key, Some(text))])
            == Ok((Group(true, "", Replaced(n.members, IndexOf(n.members, key), Formatted(StyleOf(n), text).value)), [key]))
  {
    hide WellFormed, Strict, IndexOf, Kept, StyleOf, SameJson, Formatted;
    var ms, i := n.members, IndexOf(n.members, key);
    PlanOne(n, Block(key, Some(text)));
    KeptAll(ms, |ms|);
    var f := Formatted(StyleOf(n), text).value;
    var p := Plan(map[key := f], {}, [], [key]);
    assert PlanBlocks(n, [Block(key, Some(text))]) == Ok(p) by { assert [] + [key] == [key]; }
    var ks := Kept(ms, {}, |ms|);
    OnlyIndex(n, key);
    var out := NewMembers(n, p, ks, []);
    forall j | 0 <= j < |ms| ensures out[j] == Replaced(ms, i, f)[j] {
      assert out[j] == KeptMember(n, p, ks, j);
    }
    assert out == Replaced(ms, i, f);
  }

  /** The member a new key gets, behind the others. */
  function NewLast(n: Node, key: string, f: Node): Member
    requires IsObject(n)
  {
    Member(if n.members == [] then FirstLead(n) else StyleOf(n).gap, Quoted(key), "", StyleOf(n).after, f, Tail(n))
  }

  function Closed(ms: seq<Member>): seq<Member> {
    if ms == [] then [] else ms[|ms| - 1 := ms[|ms| - 1].(trail := "")]
  }

  /** A new member goes behind the others, right behind the last value. */
  lemma AppendsBehind(n: Node, key: string, text: string)
    requires Readable(n) && IndexOf(n.members, key) == |n.members| && Formatted(StyleOf(n), text).Some?
    ensures EditKeys(n, [Block(key, Some(text))])
            == Ok((Group(true, "", Closed(n.members) + [NewLast(n, key, Formatted(StyleOf(n), text).value)]), [key]))
  {
    hide WellFormed, Strict, IndexOf, Kept, StyleOf, SameJson, Formatted, Quoted, FirstLead;
    var ms, b := n.members, Block(key, Some(text));
    PlanOne(n, b);
    KeptAll(ms, |ms|);
    assert [b][..0] == [];
    var f := Formatted(StyleOf(n), text).value;
    assert FormatAll(StyleOf(n), [b]) == Some([f]) by { assert [] + [f] == [f]; }
    var p := Plan(map[], {}, [b], [key]);
    assert PlanBlocks(n, [b]) == Ok(p) by { assert [] + [key] == [key] && [] + [b] == [b]; }
    var ks := Kept(ms, {}, |ms|);
    var out, want := NewMembers(n, p, ks, [f]), Closed(ms) + [NewLast(n, key, f)];
    forall j | 0 <= j < |ms| + 1 ensures out[j] == want[j] {
      assert out[j] == if j < |ms| then KeptMember(n, p, ks, j) else NewMember(n, p, ks, [f], 0);
    }
    assert out == want;
  }

  /** The members when the one at `i` goes: its successor takes its place, or its predecessor gets the space behind it. */
  function TakenOut(ms: seq<Member>, i: nat): seq<Member>
    requires i < |ms| && |ms| >= 2
  {
    if i + 1 < |ms| then ms[..i] + [ms[i + 1].(lead := ms[i].lead)] + ms[i + 2..]
    else ms[..i - 1] + [ms[i - 1].(trail := ms[i].trail)]
  }

  lemma RemovesOne(n: Node, key: string)
    requires Readable(n) && IndexOf(n.members, key) < |n.members| && |n.members| >= 2
    ensures EditKeys(n, [Block(key, None)]) == Ok((Group(true, "", TakenOut(n.members, IndexOf(n.members, key))), [key]))
  {
    hide WellFormed, Strict, IndexOf, Kept, StyleOf;
    var ms, i := n.members, IndexOf(n.members, key);
    PlanOne(n, Block(key, None));
    var p := Plan(map[], {key}, [], [key]);
    assert PlanBlocks(n, [Block(key, None)]) == Ok(p) by {
      assert {} + {key} == {key};
      assert [] + [key] == [key];
    }
    OnlyIndex(n, key);
    KeptOthers(ms, key, i, |ms|);
    var ks := Kept(ms, {key}, |ms|);
    hide HasKey;
    KeptTakenOut(n, i, p, ks);
  }

  lemma KeptTakenOut(n: Node, i: nat, p: Plan, ks: seq<nat>)
    requires IsObject(n) && i < |n.members| && |n.members| >= 2 && p.replaced == map[] && p.appended == []
    requires ks == seq(|n.members| - 1, q => if q < i then q else q + 1)
    ensures NewMembers(n, p, ks, []) == TakenOut(n.members, i)
  {
    hide TakenOut, StyleOf;
    var ms := n.members;
    var out := NewMembers(n, p, ks, []);
    TakenOutAt(ms, i, 0);
    forall j | 0 <= j < |ks| ensures out[j] == TakenOut(ms, i)[j] {
      assert out[j] == KeptMember(n, p, ks, j);
      TakenOutAt(ms, i, j);
    }
  }

  lemma TakenOutAt(ms: seq<Member>, i: nat, j: nat)
    requires i < |ms| && |ms| >= 2 && j < |ms| - 1
    ensures |TakenOut(ms, i)| == |ms| - 1
    ensures var m := ms[if j < i then j else j + 1];
            TakenOut(ms, i)[j] == m.(lead := if j == i then ms[i].lead else m.lead,
                                     trail := if i == |ms| - 1 && j == i - 1 then ms[i].trail else m.trail)
  {
  }

  // ---------------------------------------------------------------- what that is in the text

  /** Two texts that differ in one piece. */
  predicate Differ(was: string, now: string, a: string, del: string, ins: string, b: string) {
    was == a + del + b && now == a + ins + b
  }

  lemma PrintObject(pad: string, ms: seq<Member>)
    ensures Print(Group(true, pad, ms)) == "{" + pad + PrintMembers(true, ms) + "}"
  {
  }

  /** Where the value of member `i` stands. */
  lemma ValueBytes(pad: string, ms: seq<Member>, i: nat, f: Node)
    requires i < |ms|
    ensures Print(Group(true, pad, ms)) == ("{" + pad + Prefix(ms, i)) + Print(ms[i].value) + (Suffix(ms, i) + "}")
    ensures Print(Group(true, pad, Replaced(ms, i, f))) == ("{" + pad + Prefix(ms, i)) + Print(f) + (Suffix(ms, i) + "}")
  {
    hide Print, PrintMembers, Prefix, Suffix;
    PrintAround(ms, i);
    PrintAround(Replaced(ms, i, f), i);
    AroundReplaced(ms, i, f);
    PrintObject(pad, ms);
    PrintObject(pad, Replaced(ms, i, f));
    Grouped4(pad, Prefix(ms, i), Print(ms[i].value), Suffix(ms, i));
    Grouped4(pad, Prefix(ms, i), Print(f), Suffix(ms, i));
  }

  lemma Grouped4(pad: string, a: string, v: string, b: string)
    ensures "{" + pad + (a + (v + b)) + "}" == ("{" + pad + a) + v + (b + "}")
  {
  }

  lemma BodyClosed(ms: seq<Member>)
    ensures Body(Closed(ms)) == Body(ms)
  {
    hide Core;
    if |ms| > 1 {
      var k := |ms| - 1;
      assert Closed(ms)[..k] == ms[..k];
      assert Core(Closed(ms)[k]) == Core(ms[k]) by { SameCore(ms[k], ""); }
    } else if |ms| == 1 {
      SameCore(ms[0], "");
    }
  }

  lemma SameCore(m: Member, trail: string)
    ensures Core(m.(trail := trail)) == Core(m)
  {
  }

  /** Appending puts a comma and the new member right behind the last value. */
  lemma AppendedBytes(n: Node, x: Member)
    requires IsObject(n) && n.members != [] && x.trail == Tail(n)
    ensures Differ(Print(n), Print(Group(true, n.pad, Closed(n.members) + [x])),
                   "{" + n.pad + Body(n.members), "", "," + x.lead + Core(x), x.trail + "}")
  {
    hide Print, PrintMembers, Core;
    var ms := n.members;
    var after := Closed(ms) + [x];
    PrintObject(n.pad, ms);
    PrintObject(n.pad, after);
    BodyPrints(ms);
    BodyPrints(after);
    BodyClosed(ms);
    assert after[..|ms|] == Closed(ms) && after[|ms| - 1].trail == "";
    assert Body(after) == Body(ms) + "" + "," + x.lead + Core(x);
    hide Body;
    AppendGroups(n.pad, Body(ms), x.lead, Core(x), x.trail);
  }

  lemma AppendGroups(pad: string, body: string, lead: string, core: string, trail: string)
    ensures "{" + pad + (body + trail) + "}" == ("{" + pad + body) + "" + (trail + "}")
    ensures "{" + pad + (body + "" + "," + lead + core + trail) + "}" == ("{" + pad + body) + ("," + lead + core) + (trail + "}")
  {
  }

  lemma FirstBytes(n: Node, x: Member)
    requires IsObject(n) && n.members == [] && x.trail == n.pad
    ensures Differ(Print(n), Print(Group(true, "", [x])), "{", "", x.lead + Core(x), n.pad + "}")
  {
    hide Print, Core;
    PrintObject(n.pad, []);
    PrintObject("", [x]);
    MemberText(x);
    assert "{" + n.pad + "" + "}" == "{" + "" + (n.pad + "}");
    assert "{" + "" + (x.lead + Core(x) + x.trail) + "}" == "{" + (x.lead + Core(x)) + (n.pad + "}");
  }

  // ---------------------------------------------------------------- taking a member out

  function Bare(ms: seq<Member>): seq<Member>
    requires ms != []
  {
    [ms[0].(lead := "")] + ms[1..]
  }

  /** The white space before the first member comes first. */
  lemma LeadFirst(ms: seq<Member>)
    requires ms != []
    ensures PrintMembers(true, ms) == ms[0].lead + PrintMembers(true, Bare(ms))
  {
    hide Core, PrintMembers, PrintMember;
    var m := ms[0];
    MemberText(m);
    MemberText(m.(lead := ""));
    LeadCore(m, "");
    assert m.lead + Core(m) + m.trail == m.lead + ("" + Core(m) + m.trail);
    if |ms| == 1 {
      MembersOne(ms);
      MembersOne(Bare(ms));
    } else {
      MembersHead(ms);
      MembersHead(Bare(ms));
      assert Bare(ms)[1..] == ms[1..];
      var head, rest := PrintMember(true, m.(lead := "")), "," + PrintMembers(true, ms[1..]);
      assert (m.lead + head) + rest == m.lead + (head + rest);
    }
  }

  lemma MembersOne(ms: seq<Member>)
    requires |ms| == 1
    ensures PrintMembers(true, ms) == PrintMember(true, ms[0])
  {
  }

  lemma LeadCore(m: Member, lead: string)
    ensures Core(m.(lead := lead)) == Core(m)
  {
  }

  /** What goes when a member with a successor is taken out: its name and value, and all up to the successor's name. */
  function Front(ms: seq<Member>, i: nat): string
    requires i + 1 < |ms|
  {
    Core(ms[i]) + ms[i].trail + "," + ms[i + 1].lead
  }

  lemma {:induction false} TakenFront(ms: seq<Member>, i: nat) returns (a: string, b: string)
    requires i + 1 < |ms|
    ensures Differ(PrintMembers(true, ms), PrintMembers(true, TakenOut(ms, i)), a, Front(ms, i), "", b)
    decreases i
  {
    hide Core, PrintMembers;
    var after := TakenOut(ms, i);
    MembersHead(ms);
    if i == 0 {
      a, b := ms[0].lead, PrintMembers(true, Bare(ms[1..]));
      LeadFirst(ms[1..]);
      LeadFirst(after);
      assert Bare(after) == Bare(ms[1..]) && after[0].lead == ms[0].lead;
      MemberText(ms[0]);
      FrontGroups(ms[0].lead, Core(ms[0]), ms[0].trail, ms[1].lead, b);
    } else {
      var a', b' := TakenFront(ms[1..], i - 1);
      assert ms[1..][i - 1] == ms[i] && ms[1..][i] == ms[i + 1];
      assert after[0] == ms[0] && after[1..] == TakenOut(ms[1..], i - 1);
      MembersHead(after);
      a, b := PrintMember(true, ms[0]) + "," + a', b';
      hide PrintMember;
      HeadGroups(PrintMember(true, ms[0]), a', Front(ms, i), b');
      HeadGroups(PrintMember(true, ms[0]), a', "", b');
    }
  }

  lemma MembersHead(ms: seq<Member>)
    requires |ms| >= 2
    ensures PrintMembers(true, ms) == PrintMember(true, ms[0]) + ("," + PrintMembers(true, ms[1..]))
  {
  }

  lemma FrontGroups(lead: string, core: string, trail: string, next: string, rest: string)
    ensures (lead + core + trail) + ("," + (next + rest)) == lead + (core + trail + "," + next) + rest
    ensures lead + rest == lead + "" + rest
  {
  }

  lemma HeadGroups(head: string, a: string, del: string, b: string)
    ensures head + ("," + (a + del + b)) == (head + "," + a) + del + b
  {
  }

  /** What goes when the last member is taken out: the comma before it, and all from there to its value. */
  function Back(ms: seq<Member>): string
    requires |ms| >= 2
  {
    ms[|ms| - 2].trail + "," + ms[|ms| - 1].lead + Core(ms[|ms| - 1])
  }

  lemma TakenBack(ms: seq<Member>)
    requires |ms| >= 2
    ensures var k := |ms| - 1;
            Differ(PrintMembers(true, ms), PrintMembers(true, TakenOut(ms, k)), Body(ms[..k]), Back(ms), "", ms[k].trail)
  {
    hide Core, PrintMembers;
    var k := |ms| - 1;
    var after := TakenOut(ms, k);
    BodyPrints(ms);
    BodyPrints(after);
    assert Closed(after) == Closed(ms[..k]);
    BodyClosed(after);
    BodyClosed(ms[..k]);
    assert Body(ms) == Body(ms[..k]) + ms[k - 1].trail + "," + ms[k].lead + Core(ms[k]);
    hide Body;
    assert Body(ms[..k]) + ms[k - 1].trail + "," + ms[k].lead + Core(ms[k]) + ms[k].trail == Body(ms[..k]) + Back(ms) + ms[k].trail;
    assert Body(ms[..k]) + ms[k].trail == Body(ms[..k]) + "" + ms[k].trail;
  }

  /** The bytes of one member, with one comma and white space before or behind it. */
  ghost predicate MemberPiece(del: string, m: Member) {
    exists x, y :: Blank(x) && Blank(y) && (del == x + "," + y + Core(m) || del == Core(m) + x + "," + y)
  }

  lemma PieceBehind(m: Member, x: string, y: string)
    requires Blank(x) && Blank(y)
    ensures MemberPiece(Core(m) + x + "," + y, m) && MemberPiece(x + "," + y + Core(m), m)
  {
    hide Core;
  }

  lemma NeighboursBlank(n: Node, i: nat)
    requires IsObject(n) && WellFormed(n) && i < |n.members|
    ensures Blank(n.members[i].lead) && Blank(n.members[i].trail)
  {
    assert WellFormedMember(true, n.members[i]);
  }

  /** The piece is the same in the members and in the whole object. */
  lemma MembersToObject(pad: string, ms: seq<Member>, after: seq<Member>, a: string, del: string, b: string)
    requires Differ(PrintMembers(true, ms), PrintMembers(true, after), a, del, "", b)
    ensures Differ(Print(Group(true, pad, ms)), Print(Group(true, pad, after)), "{" + pad + a, del, "", b + "}")
  {
    hide Print, PrintMembers;
    PrintObject(pad, ms);
    PrintObject(pad, after);
    assert "{" + pad + (a + del + b) + "}" == ("{" + pad + a) + del + (b + "}");
    assert "{" + pad + (a + "" + b) + "}" == ("{" + pad + a) + "" + (b + "}");
  }

  lemma RemovedBytes(n: Node, i: nat) returns (a: string, del: string, b: string)
    requires IsObject(n) && WellFormed(n) && i < |n.members| && |n.members| >= 2
    ensures Differ(Print(n), Print(Group(true, n.pad, TakenOut(n.members, i))), a, del, "", b) && MemberPiece(del, n.members[i])
  {
    hide Core, Print, PrintMembers, MemberPiece, Differ, TakenOut, WellFormed, Body, Blank;
    var ms := n.members;
    assert n == Group(true, n.pad, ms);
    NeighboursBlank(n, i);
    var a', b': string;
    if i + 1 < |ms| {
      NeighboursBlank(n, i + 1);
      a', b' := TakenFront(ms, i);
      del := Front(ms, i);
      PieceBehind(ms[i], ms[i].trail, ms[i + 1].lead);
    } else {
      NeighboursBlank(n, i - 1);
      TakenBack(ms);
      a', b' := Body(ms[..i]), ms[i].trail;
      del := Back(ms);
      PieceBehind(ms[i], ms[i - 1].trail, ms[i].lead);
    }
    MembersToObject(n.pad, ms, TakenOut(ms, i), a', del, b');
    a, b := "{" + n.pad + a', b' + "}";
  }

  // ---------------------------------------------------------------- one block, at any depth

  /** The last name of a dotted key. */
  function Leaf(key: string): string
    decreases |key|
  {
    if Nested(key) then Leaf(Child(key)) else key
  }

  /**
   What a block takes out of the text and what it puts in: the value for the value, where
   there was one; nothing out, where there was none; and for a removal one member with its
   comma out and nothing in.
   */
  ghost predicate Piece(n: Node, key: string, value: Option<string>, n': Node, del: string, ins: string)
    requires IsObject(n) && IsObject(n')
  {
    match value
    case Some(_) =>
      if NodeAt(n, key).Some? then NodeAt(n', key).Some? && del == Print(NodeAt(n, key).value) && ins == Print(NodeAt(n', key).value)
      else del == ""
    case None =>
      ins == "" && exists m: Member :: HasKey(m, Leaf(key)) && NodeAt(n, key) == Some(m.value) && MemberPiece(del, m)
  }

  lemma NoPad(n: Node)
    requires IsObject(n) && WellFormed(n) && n.members != []
    ensures n.pad == "" && n == Group(true, "", n.members)
  {
  }

  lemma PlainAt(n: Node, key: string)
    requires IsObject(n) && !Nested(key)
    ensures var i := IndexOf(n.members, key); NodeAt(n, key) == if i < |n.members| then Some(n.members[i].value) else None
    ensures Leaf(key) == key
  {
    PlainParent(key);
  }

  lemma PlainParent(key: string)
    requires !Nested(key)
    ensures Parent(key) == key
  {
  }

  lemma RemoveBytes(n: Node, key: string) returns (a: string, del: string, b: string)
    requires Readable(n) && !Nested(key) && RewriteKey(n, key, None).Ok? && RewriteKey(n, key, None).value.1
    ensures var n' := RewriteKey(n, key, None).value.0;
            Differ(Print(n), Print(n'), a, del, "", b) && Piece(n, key, None, n', del, "")
  {
    hide EditKeys, WellFormed, Strict, Print, KeyOf, TakenOut, MemberPiece, NodeAt, Differ;
    var i := IndexOf(n.members, key);
    PlainAt(n, key);
    if i == |n.members| {
      EditSkips(n, key);
    } else {
      EditRemoves(n, key);
      RemovesOne(n, key);
      NoPad(n);
      a, del, b := RemovedBytes(n, i);
      assert HasKey(n.members[i], key);
    }
  }

  lemma ReplaceBytes(n: Node, key: string, text: string) returns (a: string, del: string, ins: string, b: string)
    requires Readable(n) && !Nested(key) && RewriteKey(n, key, Some(text)).Ok? && RewriteKey(n, key, Some(text)).value.1
    requires IndexOf(n.members, key) < |n.members|
    ensures var n' := RewriteKey(n, key, Some(text)).value.0;
            Differ(Print(n), Print(n'), a, del, ins, b) && Piece(n, key, Some(text), n', del, ins)
  {
    hide EditKeys, WellFormed, Strict, Print, KeyOf, MemberPiece, NodeAt, Formatted, SameJson, StyleOf, Prefix, Suffix;
    var ms, i := n.members, IndexOf(n.members, key);
    EditReplaces(n, key, text);
    ReplacesInPlace(n, key, text);
    var f := Formatted(StyleOf(n), text).value;
    NoPad(n);
    ValueBytes("", ms, i, f);
    IndexOfNames(ms, Replaced(ms, i, f), key);
    PlainAt(n, key);
    PlainAt(Group(true, "", Replaced(ms, i, f)), key);
    a, del, ins, b := "{" + "" + Prefix(ms, i), Print(ms[i].value), Print(f), Suffix(ms, i) + "}";
  }

  /** Adding a member to an object only puts text in. */
  lemma AddBytes(n: Node, key: string, text: string) returns (a: string, ins: string, b: string)
    requires Readable(n) && IndexOf(n.members, key) == |n.members| && EditKeys(n, [Block(key, Some(text))]).Ok?
    ensures Differ(Print(n), Print(EditKeys(n, [Block(key, Some(text))]).value.0), a, "", ins, b)
  {
    hide EditKeys, WellFormed, Strict, Print, KeyOf, Formatted, StyleOf, Quoted, Differ, Body, FirstLead;
    EditAppends(n, key, text);
    AppendsBehind(n, key, text);
    var x := NewLast(n, key, Formatted(StyleOf(n), text).value);
    if n.members == [] {
      FirstBytes(n, x);
      assert Closed([]) + [x] == [x];
      a, ins, b := "{", x.lead + Core(x), n.pad + "}";
    } else {
      NoPad(n);
      AppendedBytes(n, x);
      a, ins, b := "{" + n.pad + Body(n.members), "," + x.lead + Core(x), x.trail + "}";
    }
  }

  /** A change inside a member's value is the same change in the object. */
  lemma InnerBytes(n: Node, i: nat, inner: Node, a: string, del: string, ins: string, b: string)
    requires IsObject(n) && i < |n.members| && Differ(Print(n.members[i].value), Print(inner), a, del, ins, b)
    ensures Differ(Print(n), Print(Group(true, n.pad, Replaced(n.members, i, inner))),
                   "{" + n.pad + Prefix(n.members, i) + a, del, ins, b + (Suffix(n.members, i) + "}"))
  {
    hide Print, Prefix, Suffix;
    var p, q := "{" + n.pad + Prefix(n.members, i), Suffix(n.members, i) + "}";
    ValueBytes(n.pad, n.members, i, inner);
    assert n == Group(true, n.pad, n.members);
    InnerGroups(p, a, del, b, q);
    InnerGroups(p, a, ins, b, q);
  }

  lemma InnerGroups(p: string, a: string, x: string, b: string, q: string)
    ensures p + (a + x + b) + q == (p + a) + x + (b + q)
  {
  }

  lemma InnerPiece(n: Node, key: string, value: Option<string>, i: nat, inner: Node, del: string, ins: string)
    requires IsObject(n) && Nested(key) && i == IndexOf(n.members, Parent(key)) < |n.members|
    requires IsObject(n.members[i].value) && IsObject(inner) && Piece(n.members[i].value, Child(key), value, inner, del, ins)
    ensures Piece(n, key, value, Group(true, n.pad, Replaced(n.members, i, inner)), del, ins)
  {
    hide Print, KeyOf, MemberPiece;
    IndexOfNames(n.members, Replaced(n.members, i, inner), Parent(key));
  }

  /** One block changes one piece of the object's text, at whatever depth its key lies. */
  lemma {:induction false} RewriteBytes(n: Node, key: string, value: Option<string>) returns (a: string, del: string, ins: string, b: string)
    requires Readable(n) && RewriteKey(n, key, value).Ok? && RewriteKey(n, key, value).value.1
    ensures var n' := RewriteKey(n, key, value).value.0;
            Differ(Print(n), Print(n'), a, del, ins, b) && Piece(n, key, value, n', del, ins)
    decreases |key|
  {
    hide EditKeys, WellFormed, Strict, Print, KeyOf, Differ, MemberPiece, Piece, Prefix, Suffix, IndexOf;
    var i := IndexOf(n.members, Parent(key));
    if Nested(key) && i < |n.members| {
      MemberReadable(n, i);
      var w := n.members[i].value;
      var inner := RewriteKey(w, Child(key), value).value.0;
      var a', b': string;
      a', del, ins, b' := RewriteBytes(w, Child(key), value);
      InnerBytes(n, i, inner, a', del, ins, b');
      InnerPiece(n, key, value, i, inner, del, ins);
      a, b := "{" + n.pad + Prefix(n.members, i) + a', b' + (Suffix(n.members, i) + "}");
    } else if Nested(key) {
      del := "";
      NewParentAdds(n, key, value);
      a, ins, b := AddBytes(n, Parent(key), Print(RewriteKey(EMPTY_OBJECT, Child(key), value).value.0));
    } else if value.None? {
      ins := "";
      a, del, b := RemoveBytes(n, key);
    } else {
      PlainParent(key);
      if i < |n.members| {
        a, del, ins, b := ReplaceBytes(n, key, value.value);
      } else {
        del := "";
        PlainAt(n, key);
        a, ins, b := AddBytes(n, key, value.value);
        NothingOut(n, key, value, RewriteKey(n, key, value).value.0, ins);
      }
    }
  }

  lemma NothingOut(n: Node, key: string, value: Option<string>, n': Node, ins: string)
    requires IsObject(n) && IsObject(n') && value.Some? && NodeAt(n, key).None?
    ensures Piece(n, key, value, n', "", ins)
  {
  }

  lemma NewParentAdds(n: Node, key: string, value: Option<string>)
    requires Readable(n) && Nested(key) && IndexOf(n.members, Parent(key)) == |n.members|
    requires RewriteKey(n, key, value).Ok? && RewriteKey(n, key, value).value.1
    ensures var r := RewriteKey(EMPTY_OBJECT, Child(key), value);
            && r.Ok? && EditKeys(n, [Block(Parent(key), Some(Print(r.value.0)))]).Ok?
            && RewriteKey(n, key, value).value.0 == EditKeys(n, [Block(Parent(key), Some(Print(r.value.0)))]).value.0
    ensures forall ins :: Piece(n, key, value, RewriteKey(n, key, value).value.0, "", ins)
  {
    hide EditKeys, WellFormed, Strict, Print, KeyOf, Piece, IndexOf;
    NewParentUnfolds(n, key, value);
    EmptyReadable();
    RewriteKeyMeans(EMPTY_OBJECT, Child(key), value);
    EmptyMissing(Child(key));
    forall ins ensures Piece(n, key, value, RewriteKey(n, key, value).value.0, "", ins) {
      NothingOut(n, key, value, RewriteKey(n, key, value).value.0, ins);
    }
  }

  lemma EmptyMissing(key: string)
    ensures Find(EMPTY_OBJECT, key) == Missing
  {
  }

  // ---------------------------------------------------------------- on the text

  /**
   One block, on the text: the bytes before and behind one piece are kept, and the piece
   is a value for a value, a text put in, or a member taken out with its comma.
   */
  lemma BlockBytes(raw: string, b: Block) returns (before: string, del: string, ins: string, behind: string)
    requires BlockText(raw, b).Ok? && BlockText(raw, b).value.1
    ensures Differ(raw, BlockText(raw, b).value.0, before, del, ins, behind)
    ensures Scan(raw).Some? && IsObject(Scan(raw).value.node) && RewriteKey(Scan(raw).value.node, b.key, b.value).Ok?
    ensures Piece(Scan(raw).value.node, b.key, b.value, RewriteKey(Scan(raw).value.node, b.key, b.value).value.0, del, ins)
  {
    hide Scan, RewriteKey, Readable, Print, Piece;
    ScanReadable(raw);
    var sc := Scan(raw).value;
    ReadableObject(sc.node);
    var n' := RewriteKey(sc.node, b.key, b.value).value.0;
    var a, c: string;
    a, del, ins, c := RewriteBytes(sc.node, b.key, b.value);
    before, behind := raw[..sc.start] + a, c + raw[sc.end..];
    assert raw == raw[..sc.start] + Print(sc.node) + raw[sc.end..];
    InnerGroups(raw[..sc.start], a, del, c, raw[sc.end..]);
    InnerGroups(raw[..sc.start], a, ins, c, raw[sc.end..]);
  }

  lemma ReadableObject(n: Node)
    requires Readable(n)
    ensures IsObject(n)
  {
  }
}
