/** What a JSON value says, whatever its layout: its brackets, names and scalar texts in order. */
module JsonWords {
  import opened Basics
  import opened JsonLex
  import opened JsonTree
  import opened JsonFormat

  function Words(n: Node): seq<string>
    decreases n, 1
  {
    match n
    case Scalar(text) => [text]
    case Group(isObject, _, ms) => [[Open(isObject)]] + (MemberWords(isObject, ms) + [[Close(isObject)]])
  }

  function MemberWords(isObject: bool, ms: seq<Member>): seq<string>
    decreases ms, 0
  {
    if ms == [] then []
    else (if isObject then [ms[0].name] else []) + (Words(ms[0].value) + MemberWords(isObject, ms[1..]))
  }

  // ---------------------------------------------------------------- removing white space says the same

  lemma {:induction false} StripWords(n: Node)
    ensures Words(Strip(n)) == Words(n)
    decreases n, 1
  {
    if n.Group? {
      forall i | 0 <= i < |n.members| ensures Strip(n).members[i] == StripMember(n.members[i]) { StripAt(n, i); }
      StripMemberWords(n.isObject, n.members, Strip(n).members);
    }
  }

  lemma {:induction false} StripMemberWords(isObject: bool, ms: seq<Member>, rs: seq<Member>)
    requires |rs| == |ms| && forall i | 0 <= i < |ms| :: rs[i] == StripMember(ms[i])
    ensures MemberWords(isObject, rs) == MemberWords(isObject, ms)
    decreases ms, 0
  {
    hide Words, Strip;
    if ms != [] {
      StripWords(ms[0].value);
      StripMemberWords(isObject, ms[1..], rs[1..]);
    }
  }

  // ---------------------------------------------------------------- and nothing else says the same

  predicate IsMark(w: string) { w == "{" || w == "[" || w == "}" || w == "]" }

  lemma TokenNoMark(text: string)
    requires IsScalarToken(text) || IsStringToken(text)
    ensures !IsMark(text)
  {
    assert text[0] == '{' || text[0] == '[' || text[0] == '}' || text[0] == ']' ==> !At(text, 0, "true") && !At(text, 0, "false") && !At(text, 0, "null") by {
      if At(text, 0, "true") { AtIndex(text, 0, "true", 0); }
      if At(text, 0, "false") { AtIndex(text, 0, "false", 0); }
      if At(text, 0, "null") { AtIndex(text, 0, "null", 0); }
    }
  }

  lemma FirstWord(n: Node)
    requires WellFormed(n)
    ensures Words(n) != [] && Words(n)[0] != "}" && Words(n)[0] != "]"
    ensures n.Scalar? <==> !IsMark(Words(n)[0])
    ensures n.Scalar? ==> Words(n) == [n.text]
    ensures n.Group? ==> Words(n)[0] == [Open(n.isObject)]
  {
    hide IsScalarToken;
    if n.Scalar? { TokenNoMark(n.text); }
  }

  lemma WordsCut(p: seq<string>, x: seq<string>, q: seq<string>, y: seq<string>)
    requires |p| == |q| && p + x == q + y
    ensures p == q && x == y
  {
    assert (p + x)[..|p|] == p && (q + y)[..|q|] == q && (p + x)[|p|..] == x && (q + y)[|q|..] == y;
  }

  /** Words say where a value ends and which value it is. */
  lemma {:induction false} WordsUnique(a: Node, x: seq<string>, b: Node, y: seq<string>)
    requires WellFormed(a) && WellFormed(b) && Words(a) + x == Words(b) + y
    ensures Strip(a) == Strip(b) && x == y
    decreases a, 1
  {
    hide WellFormedMember, MemberWords, IsScalarToken;
    FirstWord(a);
    FirstWord(b);
    assert (Words(a) + x)[0] == Words(a)[0] && (Words(b) + y)[0] == Words(b)[0];
    if a.Scalar? {
      WordsCut([a.text], x, [b.text], y);
    } else {
      var o := a.isObject;
      assert b.isObject == o;
      var close := [[Close(o)]];
      var ma, mb := MemberWords(o, a.members), MemberWords(o, b.members);
      assert Words(a) + x == [[Open(o)]] + (ma + (close + x)) && Words(b) + y == [[Open(o)]] + (mb + (close + y));
      WordsCut([[Open(o)]], ma + (close + x), [[Open(o)]], mb + (close + y));
      MembersUnique(o, a.members, x, b.members, y);
      StripSame(a, b);
    }
  }

  lemma StripSame(a: Node, b: Node)
    requires a.Group? && b.Group? && a.isObject == b.isObject && |a.members| == |b.members|
    requires forall i | 0 <= i < |a.members| :: StripMember(a.members[i]) == StripMember(b.members[i])
    ensures Strip(a) == Strip(b)
  {
    forall i | 0 <= i < |a.members| ensures Strip(a).members[i] == Strip(b).members[i] {
      StripAt(a, i);
      StripAt(b, i);
    }
  }

  lemma {:induction false} MembersUnique(isObject: bool, ms: seq<Member>, x: seq<string>, ns: seq<Member>, y: seq<string>)
    requires forall i | 0 <= i < |ms| :: WellFormedMember(isObject, ms[i])
    requires forall i | 0 <= i < |ns| :: WellFormedMember(isObject, ns[i])
    requires var close := [[Close(isObject)]]; MemberWords(isObject, ms) + (close + x) == MemberWords(isObject, ns) + (close + y)
    ensures |ms| == |ns| && (forall i | 0 <= i < |ms| :: StripMember(ms[i]) == StripMember(ns[i])) && x == y
    decreases ms, 0
  {
    hide Words, WellFormed, Strip, IsStringToken, MemberWords;
    var close := [[Close(isObject)]];
    NoWords(isObject, close + x);
    NoWords(isObject, close + y);
    if ms == [] || ns == [] {
      if ms != [] { MembersOpen(isObject, ms, close + x); }
      if ns != [] { MembersOpen(isObject, ns, close + y); }
      assert (close + x)[0] == (close + y)[0] == [Close(isObject)];
      assert ms == [] && ns == [];
      WordsCut(close, x, close, y);
    } else {
      assert WellFormedMember(isObject, ms[0]) && WellFormedMember(isObject, ns[0]);
      var rx, ry := MemberWords(isObject, ms[1..]) + (close + x), MemberWords(isObject, ns[1..]) + (close + y);
      HeadWords(isObject, ms, close + x);
      HeadWords(isObject, ns, close + y);
      WordsCut(NameWord(isObject, ms[0]), Words(ms[0].value) + rx, NameWord(isObject, ns[0]), Words(ns[0].value) + ry);
      WordsUnique(ms[0].value, rx, ns[0].value, ry);
      MembersUnique(isObject, ms[1..], x, ns[1..], y);
      SameHead(isObject, ms[0], ns[0]);
      forall i | 0 <= i < |ms| ensures StripMember(ms[i]) == StripMember(ns[i]) {
        if i > 0 { assert ms[i] == ms[1..][i - 1] && ns[i] == ns[1..][i - 1]; }
      }
    }
  }

  function NameWord(isObject: bool, m: Member): (r: seq<string>)
    ensures |r| == if isObject then 1 else 0
  {
    if isObject then [m.name] else []
  }

  lemma SameHead(isObject: bool, m: Member, n: Member)
    requires WellFormedMember(isObject, m) && WellFormedMember(isObject, n)
    requires NameWord(isObject, m) == NameWord(isObject, n) && Strip(m.value) == Strip(n.value)
    ensures StripMember(m) == StripMember(n)
  {
    hide WellFormed, Strip, IsStringToken;
    assert isObject ==> [m.name][0] == [n.name][0];
  }

  lemma NoWords(isObject: bool, rest: seq<string>)
    ensures MemberWords(isObject, []) + rest == rest
  {
  }

  lemma HeadWords(isObject: bool, ms: seq<Member>, rest: seq<string>)
    requires ms != []
    ensures MemberWords(isObject, ms) + rest == NameWord(isObject, ms[0]) + (Words(ms[0].value) + (MemberWords(isObject, ms[1..]) + rest))
  {
    hide Words;
  }

  /** Members do not begin with a closing bracket. */
  lemma MembersOpen(isObject: bool, ms: seq<Member>, rest: seq<string>)
    requires ms != [] && WellFormedMember(isObject, ms[0])
    ensures var w := MemberWords(isObject, ms) + rest; w != [] && w[0] != [Close(isObject)]
  {
    hide Words, WellFormed, IsStringToken;
    FirstWord(ms[0].value);
    if isObject { TokenNoMark(ms[0].name); }
  }

  /** Two values differ in white space alone exactly when they say the same. */
  lemma WordsExactly(a: Node, b: Node)
    requires WellFormed(a) && WellFormed(b)
    ensures Strip(a) == Strip(b) <==> Words(a) == Words(b)
  {
    hide Words, Strip, WellFormed;
    StripWords(a);
    StripWords(b);
    if Words(a) == Words(b) {
      assert Words(a) + [] == Words(b) + [];
      WordsUnique(a, [], b, []);
    }
  }

  /** The comparison of texts: both are JSON and say the same. */
  lemma SameJsonSays(a: string, b: string)
    ensures SameJson(a, b) <==> ParseText(a).Some? && ParseText(b).Some? && Words(ParseText(a).value) == Words(ParseText(b).value)
  {
    hide Words, Strip, WellFormed, ParseText, Print;
    if ParseText(a).Some? && ParseText(b).Some? {
      var m, n := ParseText(a).value, ParseText(b).value;
      ParsedTextWellFormed(a);
      ParsedTextWellFormed(b);
      StripWellFormed(m);
      StripWellFormed(n);
      PrintedTextParses(Strip(m));
      PrintedTextParses(Strip(n));
      WordsExactly(m, n);
    }
  }

  /** Compacting a text changes nothing it says. */
  lemma CompactSays(n: Node)
    requires WellFormed(n)
    ensures ParseText(Print(Strip(n))).Some? && Words(ParseText(Print(Strip(n))).value) == Words(n)
  {
    hide Words, Strip, WellFormed, ParseText, Print;
    StripWellFormed(n);
    PrintedTextParses(Strip(n));
    StripWords(n);
  }

  // ---------------------------------------------------------------- no text that says the same is shorter

  lemma {:induction false} StripShorter(n: Node)
    ensures |Print(Strip(n))| <= |Print(n)|
    decreases n, 1
  {
    if n.Group? {
      forall i | 0 <= i < |n.members| ensures Strip(n).members[i] == StripMember(n.members[i]) { StripAt(n, i); }
      MembersShorter(n.isObject, n.members, Strip(n).members);
    }
  }

  lemma ParsedTextLength(s: string)
    requires ParseText(s).Some?
    ensures |Print(ParseText(s).value)| <= |s|
  {
    hide Print;
    ParsedValuePrints(s, SkipSpace(s, 0));
  }

  lemma {:induction false} MembersShorter(isObject: bool, ms: seq<Member>, rs: seq<Member>)
    requires |rs| == |ms| && forall i | 0 <= i < |ms| :: rs[i] == StripMember(ms[i])
    ensures |PrintMembers(isObject, rs)| <= |PrintMembers(isObject, ms)|
    decreases ms, 0
  {
    hide Print, Strip;
    if ms != [] {
      StripShorter(ms[0].value);
      MembersShorter(isObject, ms[1..], rs[1..]);
    }
  }
}
