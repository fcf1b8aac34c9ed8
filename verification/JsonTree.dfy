/**
 JSON values as concrete syntax trees: a tree keeps every character of its text, white
 space included, so that printing a parsed text gives the text back.
 */
module JsonTree {
  import opened JsonLex

  /** An object (`isObject`) or array lists its members; `pad` is the inside of an empty one. */
  datatype Node =
    | Scalar(text: string)
    | Group(isObject: bool, pad: string, members: seq<Member>)

  /** `lead name pre : post value trail`; an array's element has only `lead value trail`. */
  datatype Member = Member(lead: string, name: string, pre: string, post: string, value: Node, trail: string)

  const EMPTY_OBJECT: Node := Group(true, "", [])

  function Open(isObject: bool): char { if isObject then '{' else '[' }

  function Close(isObject: bool): char { if isObject then '}' else ']' }

  function Colon(isObject: bool, m: Member): string {
    if isObject then m.pre + (":" + m.post) else ""
  }

  lemma ColonText(isObject: bool, m: Member)
    ensures isObject ==> Colon(isObject, m) == m.pre + (":" + m.post)
    ensures !isObject ==> Colon(isObject, m) == ""
  {
  }

  function Print(n: Node): string
    decreases n, 1
  {
    match n
    case Scalar(text) => text
    case Group(isObject, pad, members) => [Open(isObject)] + (pad + (PrintMembers(isObject, members) + [Close(isObject)]))
  }

  function PrintMember(isObject: bool, m: Member): string
    decreases m, 2
  {
    m.lead + ((m.name + Colon(isObject, m)) + (Print(m.value) + m.trail))
  }

  function PrintMembers(isObject: bool, ms: seq<Member>): string
    decreases ms, 0
  {
    if ms == [] then ""
    else if |ms| == 1 then PrintMember(isObject, ms[0])
    else PrintMember(isObject, ms[0]) + ("," + PrintMembers(isObject, ms[1..]))
  }

  /** The tree spells a JSON text: tokens where tokens belong, white space elsewhere. */
  predicate WellFormed(n: Node)
    decreases n, 1
  {
    match n
    case Scalar(text) => IsScalarToken(text)
    case Group(isObject, pad, members) =>
      && Blank(pad) && (members != [] ==> pad == "")
      && forall i | 0 <= i < |members| :: WellFormedMember(isObject, members[i])
  }

  predicate WellFormedMember(isObject: bool, m: Member)
    decreases m, 2
  {
    && Blank(m.lead) && Blank(m.trail) && Blank(m.pre) && Blank(m.post)
    && (if isObject then IsStringToken(m.name) else m.name == m.pre == m.post == "")
    && WellFormed(m.value)
  }

  // ---------------------------------------------------------------- reading

  datatype Parsed<+T> = Fail | Got(value: T, end: nat)

  /** The value that starts at `i`, read as far as it goes. */
  function ParseValue(s: string, i: nat): (r: Parsed<Node>)
    requires i <= |s|
    ensures r.Got? ==> i < r.end <= |s|
    decreases |s| - i, 0
  {
    if i == |s| then Fail
    else if s[i] == '{' || s[i] == '[' then
      var isObject := s[i] == '{';
      var a := SkipSpace(s, i + 1);
      if a < |s| && s[a] == Close(isObject) then Got(Group(isObject, s[i + 1..a], []), a + 1)
      else
        var ms := ParseMembers(s, i + 1, isObject);
        if ms.Fail? then Fail else Got(Group(isObject, "", ms.value), ms.end)
    else
      var e := ScalarEnd(s, i);
      if e.None? then Fail else Got(Scalar(s[i..e.value]), e.value)
  }

  /** One member from `i` on, up to and with the white space behind its value. */
  function ParseMember(s: string, i: nat, isObject: bool): (r: Parsed<Member>)
    requires i <= |s|
    ensures r.Got? ==> i < r.end <= |s|
    decreases |s| - i, 1
  {
    var a := SkipSpace(s, i);
    var h := if isObject then ParseName(s, a) else Got(("", "", ""), a);
    if h.Fail? then Fail
    else
      var v := ParseValue(s, h.end);
      if v.Fail? then Fail
      else
        var t := SkipSpace(s, v.end);
        Got(Member(s[i..a], h.value.0, h.value.1, h.value.2, v.value, s[v.end..t]), t)
  }

  /** A member name with the colon and the white space around it. */
  function ParseName(s: string, a: nat): (r: Parsed<(string, string, string)>)
    requires a <= |s|
    ensures r.Got? ==> a < r.end <= |s|
  {
    if a == |s| || s[a] != '"' then Fail
    else
      var e := StringTail(s, a + 1);
      if e.None? then Fail
      else
        var c := SkipSpace(s, e.value);
        if c == |s| || s[c] != ':' then Fail
        else
          var v := SkipSpace(s, c + 1);
          Got((s[a..e.value], s[e.value..c], s[c + 1..v]), v)
  }

  /** The members from `i` on, up to and with the closing bracket. */
  function ParseMembers(s: string, i: nat, isObject: bool): (r: Parsed<seq<Member>>)
    requires i <= |s|
    ensures r.Got? ==> i < r.end <= |s| && r.value != []
    decreases |s| - i, 2
  {
    var m := ParseMember(s, i, isObject);
    if m.Fail? || m.end == |s| then Fail
    else if s[m.end] == Close(isObject) then Got([m.value], m.end + 1)
    else if s[m.end] != ',' then Fail
    else
      var rest := ParseMembers(s, m.end + 1, isObject);
      if rest.Fail? then Fail else Got([m.value] + rest.value, rest.end)
  }

  // ---------------------------------------------------------------- a parsed text prints back

  lemma {:induction false} ParsedValuePrints(s: string, i: nat)
    requires i <= |s|
    ensures var r := ParseValue(s, i); r.Got? ==> WellFormed(r.value) && Print(r.value) == s[i..r.end]
    decreases |s| - i, 0
  {
    hide Blank, IsScalarToken, SkipSpace, ScalarEnd, PrintMembers, WellFormedMember, ParseMembers;
    var r := ParseValue(s, i);
    if r.Got? {
      if r.value.Scalar? {
        ScalarSlice(s, i);
      } else {
        assert s[i..r.end] == [s[i]] + (s[i + 1..r.end - 1] + [s[r.end - 1]]);
        assert "" + (s[i + 1..r.end - 1] + [s[r.end - 1]]) == s[i + 1..r.end - 1] + [s[r.end - 1]];
        assert "" + [s[r.end - 1]] == [s[r.end - 1]];
        EmptyMembers(s[i] == '{');
        if r.value.members != [] { ParsedMembersPrint(s, i + 1, s[i] == '{'); }
      }
    }
  }

  lemma EmptyMembers(isObject: bool)
    ensures PrintMembers(isObject, []) == "" && Blank("")
  {
  }

  lemma {:induction false} ParsedMemberPrints(s: string, i: nat, isObject: bool)
    requires i <= |s|
    ensures var r := ParseMember(s, i, isObject);
            r.Got? ==> WellFormedMember(isObject, r.value) && PrintMember(isObject, r.value) == s[i..r.end]
    decreases |s| - i, 1
  {
    hide Print, ParseValue, WellFormed, Colon, ParseName, IsStringToken, SkipSpace;
    var r := ParseMember(s, i, isObject);
    if r.Got? {
      var a := SkipSpace(s, i);
      var h := if isObject then ParseName(s, a) else Got(("", "", ""), a);
      var m := r.value;
      assert m.name + Colon(isObject, m) == s[a..h.end] && Blank(m.pre) && Blank(m.post)
        && (if isObject then IsStringToken(m.name) else m.name == m.pre == m.post == "") by {
        if isObject { ParsedNamePrints(s, a); }
        ColonText(isObject, m);
      }
      ParsedValuePrints(s, h.end);
      var v := ParseValue(s, h.end);
      SliceInFour(s, i, a, h.end, v.end, r.end);
    }
  }

  lemma SliceInThree(s: string, i: nat, a: nat, b: nat, c: nat)
    requires i <= a <= b <= c <= |s|
    ensures s[i..a] + (s[a..b] + s[b..c]) == s[i..c]
  {
  }

  lemma SliceInFour(s: string, i: nat, a: nat, b: nat, c: nat, d: nat)
    requires i <= a <= b <= c <= d <= |s|
    ensures s[i..a] + (s[a..b] + (s[b..c] + s[c..d])) == s[i..d]
  {
  }

  lemma ParsedNamePrints(s: string, a: nat)
    requires a <= |s|
    ensures var r := ParseName(s, a);
            r.Got? ==> && IsStringToken(r.value.0) && Blank(r.value.1) && Blank(r.value.2)
                       && r.value.0 + (r.value.1 + (":" + r.value.2)) == s[a..r.end]
  {
    hide StringTail, IsStringToken, SkipSpace;
    var r := ParseName(s, a);
    if r.Got? {
      var e := StringTail(s, a + 1).value;
      StringSlice(s, a);
      var c := SkipSpace(s, e);
      assert s[c..c + 1] == ":";
      SliceInFour(s, a, e, c, c + 1, r.end);
    }
  }

  lemma {:induction false} ParsedMembersPrint(s: string, i: nat, isObject: bool)
    requires i <= |s|
    ensures var r := ParseMembers(s, i, isObject);
            r.Got? ==> && (forall k | 0 <= k < |r.value| :: WellFormedMember(isObject, r.value[k]))
                       && PrintMembers(isObject, r.value) == s[i..r.end - 1] && s[r.end - 1] == Close(isObject)
    decreases |s| - i, 2
  {
    hide PrintMember, ParseMember, WellFormedMember;
    var r := ParseMembers(s, i, isObject);
    if r.Got? {
      ParsedMemberPrints(s, i, isObject);
      var m := ParseMember(s, i, isObject);
      if s[m.end] != Close(isObject) {
        ParsedMembersPrint(s, m.end + 1, isObject);
        var rest := ParseMembers(s, m.end + 1, isObject);
        assert r.value[1..] == rest.value;
        SliceInThree(s, i, m.end, m.end + 1, r.end - 1);
        assert s[m.end..m.end + 1] == ",";
      }
    }
  }

  // ---------------------------------------------------------------- a printed tree parses back

  lemma PrintStart(n: Node)
    requires WellFormed(n)
    ensures |Print(n)| > 0 && !IsSpace(Print(n)[0]) && Print(n)[0] != ']' && Print(n)[0] != '}'
    ensures n.Scalar? <==> Print(n)[0] != '{' && Print(n)[0] != '['
  {
    if n.Scalar? {
      var c := n.text[0];
      if c != '"' && c != '-' && !IsDigit(c) {
        assert At(n.text, 0, "true") || At(n.text, 0, "false") || At(n.text, 0, "null");
        if At(n.text, 0, "true") { AtIndex(n.text, 0, "true", 0); }
        else if At(n.text, 0, "false") { AtIndex(n.text, 0, "false", 0); }
        else { AtIndex(n.text, 0, "null", 0); }
      }
    }
  }

  /** Reading is deterministic: a well-formed tree is the only reading of its text. */
  lemma {:induction false} PrintedValueParses(t: string, i: nat, n: Node)
    requires WellFormed(n) && At(t, i, Print(n)) && (n.Scalar? ==> Stops(t, i + |Print(n)|))
    ensures ParseValue(t, i) == Got(n, i + |Print(n)|)
    decreases n, 1
  {
    hide At, IsScalarToken, PrintMembers, WellFormedMember, SkipSpace, ScalarEnd, Stops, Blank;
    PrintStart(n);
    AtIndex(t, i, Print(n), 0);
    match n
    case Scalar(text) =>
      ScalarTokenAt(t, i, text);
      AtSlice(t, i, text);
    case Group(isObject, pad, members) =>
      var e := PrintedGroupPlaces(t, i, n);
      if members == [] {
        AtSlice(t, i + 1, pad);
      } else {
        PrintedMembersParse(t, i + 1, isObject, members);
        PrintedMembersStart(t, i + 1, isObject, members);
      }
  }

  /** Where a printed group's inside stands and where its closing bracket is. */
  lemma PrintedGroupPlaces(t: string, i: nat, n: Node) returns (e: nat)
    requires n.Group? && WellFormed(n) && At(t, i, Print(n))
    ensures At(t, i + 1, n.pad) && i < |t| && t[i] == Open(n.isObject)
    ensures e < |t| && t[e] == Close(n.isObject) && e + 1 == i + |Print(n)|
    ensures n.members == [] ==> e == i + 1 + |n.pad| == SkipSpace(t, i + 1)
    ensures n.members != [] ==> At(t, i + 1, PrintMembers(n.isObject, n.members)) && e == i + 1 + |PrintMembers(n.isObject, n.members)|
  {
    hide At, PrintMembers, WellFormedMember, SkipSpace, Blank;
    var isObject, pad := n.isObject, n.pad;
    var body := PrintMembers(isObject, n.members);
    AtAppend(t, i, [Open(isObject)], pad + (body + [Close(isObject)]));
    AtAppend(t, i + 1, pad, body + [Close(isObject)]);
    AtAppend(t, i + 1 + |pad|, body, [Close(isObject)]);
    AtIndex(t, i, [Open(isObject)], 0);
    e := i + 1 + |pad| + |body|;
    AtIndex(t, e, [Close(isObject)], 0);
    if n.members == [] {
      EmptyMembers(isObject);
      SkipSpaceAt(t, i + 1, pad);
    }
  }

  /** Behind the white space at `i` a member starts, not a closing bracket. */
  lemma PrintedMembersStart(t: string, i: nat, isObject: bool, ms: seq<Member>)
    requires ms != [] && WellFormedMember(isObject, ms[0]) && At(t, i, PrintMembers(isObject, ms))
    ensures SkipSpace(t, i) == i + |ms[0].lead| < |t| && t[SkipSpace(t, i)] != Close(isObject)
  {
    hide At, Print, WellFormed, SkipSpace, StringTail, Blank;
    var m := ms[0];
    var head := m.name + Colon(isObject, m);
    assert At(t, i, PrintMember(isObject, m)) by {
      if |ms| > 1 { AtAppend(t, i, PrintMember(isObject, m), "," + PrintMembers(isObject, ms[1..])); }
    }
    AtAppend(t, i, m.lead, head + (Print(m.value) + m.trail));
    AtAppend(t, i + |m.lead|, head, Print(m.value) + m.trail);
    AtAppend(t, i + |m.lead| + |head|, Print(m.value), m.trail);
    PrintStart(m.value);
    AtIndex(t, i + |m.lead| + |head|, Print(m.value), 0);
    if head != "" { AtIndex(t, i + |m.lead|, head, 0); }
    SkipSpaceAt(t, i, m.lead);
  }

  lemma PrintedNameParses(t: string, a: nat, m: Member)
    requires IsStringToken(m.name) && Blank(m.pre) && Blank(m.post)
    requires At(t, a, m.name + Colon(true, m))
    requires var v := a + |m.name + Colon(true, m)|; v < |t| ==> !IsSpace(t[v])
    ensures ParseName(t, a) == Got((m.name, m.pre, m.post), a + |m.name + Colon(true, m)|)
  {
    hide At, StringTail, Blank;
    var e := a + |m.name|;
    var c := e + |m.pre|;
    AtAppend(t, a, m.name, Colon(true, m));
    AtAppend(t, e, m.pre, ":" + m.post);
    AtAppend(t, c, ":", m.post);
    StringTokenAt(t, a, m.name);
    AtIndex(t, c, ":", 0);
    SkipSpaceAt(t, e, m.pre);
    SkipSpaceAt(t, c + 1, m.post);
    AtSlice(t, a, m.name);
    AtSlice(t, e, m.pre);
    AtSlice(t, c + 1, m.post);
  }

  lemma {:induction false} PrintedMemberParses(t: string, i: nat, isObject: bool, m: Member)
    requires WellFormedMember(isObject, m) && At(t, i, PrintMember(isObject, m))
    requires var e := i + |PrintMember(isObject, m)|; e < |t| && (t[e] == ',' || t[e] == Close(isObject))
    ensures ParseMember(t, i, isObject) == Got(m, i + |PrintMember(isObject, m)|)
    decreases m, 2
  {
    hide At, Print, WellFormed, SkipSpace, ParseName, ParseValue, StringTail, Colon, Blank, PrintMember;
    var a, v, e := PrintedMemberPlaces(t, i, isObject, m);
    ColonText(isObject, m);
    if isObject { PrintedNameParses(t, a, m); }
    PrintedValueParses(t, v, m.value);
    AtSlice(t, i, m.lead);
    AtSlice(t, e, m.trail);
  }

  /** Where a printed member's name (or value), value and trailing space start. */
  lemma PrintedMemberPlaces(t: string, i: nat, isObject: bool, m: Member) returns (a: nat, v: nat, e: nat)
    requires WellFormedMember(isObject, m) && At(t, i, PrintMember(isObject, m))
    requires var q := i + |PrintMember(isObject, m)|; q < |t| && (t[q] == ',' || t[q] == Close(isObject))
    ensures a == i + |m.lead| == SkipSpace(t, i) && v == a + |m.name + Colon(isObject, m)| && e == v + |Print(m.value)|
    ensures At(t, i, m.lead) && At(t, a, m.name + Colon(isObject, m)) && At(t, v, Print(m.value)) && At(t, e, m.trail)
    ensures v < |t| && !IsSpace(t[v]) && Stops(t, e)
    ensures e <= |t| && SkipSpace(t, e) == e + |m.trail| == i + |PrintMember(isObject, m)|
  {
    hide At, Print, WellFormed, SkipSpace, StringTail, Blank, Colon;
    var head := m.name + Colon(isObject, m);
    a := i + |m.lead|;
    v := a + |head|;
    e := v + |Print(m.value)|;
    AtAppend(t, i, m.lead, head + (Print(m.value) + m.trail));
    AtAppend(t, a, head, Print(m.value) + m.trail);
    AtAppend(t, v, Print(m.value), m.trail);
    PrintStart(m.value);
    AtIndex(t, v, Print(m.value), 0);
    ColonText(isObject, m);
    if isObject { AtIndex(t, a, head, 0); }
    SkipSpaceAt(t, i, m.lead);
    if m.trail != "" { AtIndex(t, e, m.trail, 0); BlankHead(m.trail); }
    SkipSpaceAt(t, e, m.trail);
  }

  lemma {:induction false} PrintedMembersParse(t: string, i: nat, isObject: bool, ms: seq<Member>)
    requires ms != [] && forall k | 0 <= k < |ms| :: WellFormedMember(isObject, ms[k])
    requires At(t, i, PrintMembers(isObject, ms))
    requires var e := i + |PrintMembers(isObject, ms)|; e < |t| && t[e] == Close(isObject)
    ensures ParseMembers(t, i, isObject) == Got(ms, i + |PrintMembers(isObject, ms)| + 1)
    decreases ms, 0
  {
    hide At, PrintMember, WellFormedMember, ParseMember;
    var first := PrintMember(isObject, ms[0]);
    if |ms| == 1 {
      assert PrintMembers(isObject, ms) == first;
      PrintedMemberParses(t, i, isObject, ms[0]);
      assert ms == [ms[0]];
    } else {
      var rest := PrintMembers(isObject, ms[1..]);
      AtAppend(t, i, first, "," + rest);
      AtAppend(t, i + |first|, ",", rest);
      AtIndex(t, i + |first|, ",", 0);
      PrintedMemberParses(t, i, isObject, ms[0]);
      PrintedMembersParse(t, i + |first| + 1, isObject, ms[1..]);
      assert ms == [ms[0]] + ms[1..];
    }
  }
}
