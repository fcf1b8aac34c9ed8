/**
 JSON strings as the text they stand for, strict documents, and the two formatters: both
 change white space between tokens and nothing else.
 */
module JsonFormat {
  import opened Basics
  import opened JsonLex
  import opened JsonTree

  // ---------------------------------------------------------------- strings

  function Hex4(s: string, i: nat): (v: int)
    requires IsHex4(s, i)
    ensures 0 <= v < 0x1_0000
  {
    0x1000 * HexValue(s[i]) + 0x100 * HexValue(s[i + 1]) + 0x10 * HexValue(s[i + 2]) + HexValue(s[i + 3])
  }

  function Unescaped(c: char): char {
    match c
    case 'b' => '\U{8}'
    case 'f' => '\U{C}'
    case 'n' => '\n'
    case 'r' => '\r'
    case 't' => '\t'
    case _ => c
  }

  /** The text a string's body stands for; None for a surrogate without its partner. */
  function Decode(body: string): (r: Option<string>)
    decreases |body|
  {
    if body == "" then Some("")
    else if body[0] != '\\' then Prepend(body[0], Decode(body[1..]))
    else if |body| < 2 then None
    else if IsEscape(body[1]) then Prepend(Unescaped(body[1]), Decode(body[2..]))
    else if body[1] != 'u' || !IsHex4(body, 2) then None
    else
      var v := Hex4(body, 2);
      if v < 0xD800 || 0xE000 <= v then Prepend(v as char, Decode(body[6..]))
      else if 0xDC00 <= v || |body| < 12 || body[6] != '\\' || body[7] != 'u' || !IsHex4(body, 8) then None
      else
        var w := Hex4(body, 8);
        if w < 0xDC00 || 0xE000 <= w then None
        else Prepend((0x1_0000 + (v - 0xD800) * 0x400 + (w - 0xDC00)) as char, Decode(body[12..]))
  }

  function Prepend(c: char, rest: Option<string>): Option<string> {
    if rest.None? then None else Some([c] + rest.value)
  }

  function HexDigit(v: nat): (c: char)
    requires v < 16
    ensures HexValue(c) == v
  {
    if v < 10 then ('0' as int + v) as char else ('a' as int + v - 10) as char
  }

  /** How one character of a name is written. */
  function Escaped(c: char): string {
    if c == '"' || c == '\\' then ['\\', c]
    else if c == '\U{8}' then "\\b"
    else if c == '\U{C}' then "\\f"
    else if c == '\n' then "\\n"
    else if c == '\r' then "\\r"
    else if c == '\t' then "\\t"
    else if c < ' ' then "\\u00" + [HexDigit(c as int / 16), HexDigit(c as int % 16)]
    else [c]
  }

  function Encode(key: string): string {
    if key == "" then "" else Escaped(key[0]) + Encode(key[1..])
  }

  /** A member name as it is written for a new member. */
  function Quoted(key: string): string {
    ['"'] + Encode(key) + ['"']
  }

  /** The key a name token stands for. */
  function KeyOf(name: string): Option<string> {
    if |name| < 2 then None else Decode(name[1..|name| - 1])
  }

  lemma EscapedDecodes(c: char, rest: string)
    ensures Decode(Escaped(c) + rest) == Prepend(c, Decode(rest))
  {
    hide Decode;
    if c == '"' || c == '\\' {
      ShortDecodes(c, rest);
    } else if c == '\U{8}' {
      ShortDecodes('b', rest);
    } else if c == '\U{C}' {
      ShortDecodes('f', rest);
    } else if c == '\n' {
      ShortDecodes('n', rest);
    } else if c == '\r' {
      ShortDecodes('r', rest);
    } else if c == '\t' {
      ShortDecodes('t', rest);
    } else if c < ' ' {
      ControlDecodes(c, rest);
    } else {
      PlainDecodes(c, rest);
    }
  }

  lemma PlainDecodes(c: char, rest: string)
    requires c != '\\'
    ensures Decode([c] + rest) == Prepend(c, Decode(rest))
  {
    assert ([c] + rest)[1..] == rest;
  }

  lemma ShortDecodes(x: char, rest: string)
    requires IsEscape(x)
    ensures Decode(['\\', x] + rest) == Prepend(Unescaped(x), Decode(rest))
  {
    assert (['\\', x] + rest)[2..] == rest;
  }

  lemma ControlDecodes(c: char, rest: string)
    requires c < ' '
    ensures Decode("\\u00" + [HexDigit(c as int / 16), HexDigit(c as int % 16)] + rest) == Prepend(c, Decode(rest))
  {
    var h, l := HexDigit(c as int / 16), HexDigit(c as int % 16);
    var t := "\\u00" + [h, l] + rest;
    assert t[0] == '\\' && t[1] == 'u' && t[2] == '0' && t[3] == '0' && t[4] == h && t[5] == l;
    hide HexDigit;
    assert IsHex4(t, 2);
    assert Hex4(t, 2) == c as int;
    assert t[6..] == rest;
  }

  lemma {:induction false} EncodeDecodes(key: string)
    ensures Decode(Encode(key)) == Some(key)
  {
    if key != "" {
      EncodeDecodes(key[1..]);
      EscapedDecodes(key[0], Encode(key[1..]));
      assert key == [key[0]] + key[1..];
    }
  }

  lemma {:induction false} EncodeIsBody(t: string, i: nat, key: string)
    requires At(t, i, Encode(key)) && i + |Encode(key)| < |t| && t[i + |Encode(key)|] == '"'
    ensures StringTail(t, i) == Some(i + |Encode(key)| + 1)
    decreases |key|
  {
    hide Escaped, At, StringTail;
    if key == "" {
      EmptyIsBody(t, i);
    } else {
      var e := Escaped(key[0]);
      AtAppend(t, i, e, Encode(key[1..]));
      EncodeIsBody(t, i + |e|, key[1..]);
      EscapedIsBody(t, i, key[0]);
    }
  }

  lemma EmptyIsBody(t: string, i: nat)
    requires i < |t| && t[i] == '"'
    ensures StringTail(t, i) == Some(i + 1)
  {
  }

  lemma EscapedIsBody(t: string, i: nat, c: char)
    requires At(t, i, Escaped(c))
    ensures StringTail(t, i) == StringTail(t, i + |Escaped(c)|)
  {
    var e := Escaped(c);
    forall k | 0 <= k < |e| ensures t[i + k] == e[k] { AtIndex(t, i, e, k); }
    if |e| == 6 {
      assert t[i + 2] == e[2] && t[i + 3] == e[3] && t[i + 4] == e[4] && t[i + 5] == e[5];
      assert IsHex4(t, i + 2);
    } else if |e| == 2 {
      assert t[i + 1] == e[1];
    }
  }

  /** A new name is a string token that stands for its key. */
  lemma QuotedStands(key: string)
    ensures IsStringToken(Quoted(key)) && KeyOf(Quoted(key)) == Some(key)
  {
    var q := Quoted(key);
    assert q[1..|q| - 1] == Encode(key);
    assert At(q, 1, Encode(key));
    EncodeDecodes(key);
    EncodeIsBody(q, 1, key);
  }

  // ---------------------------------------------------------------- strict documents

  predicate StrictString(text: string) {
    |text| >= 2 && text[0] == '"' ==> KeyOf(text).Some?
  }

  /** Every string decodes and no object repeats a name. */
  predicate Strict(n: Node)
    decreases n, 1
  {
    match n
    case Scalar(text) => StrictString(text)
    case Group(isObject, _, ms) =>
      && (forall i | 0 <= i < |ms| :: StrictMember(isObject, ms[i]))
      && (isObject ==> forall i, j | 0 <= i < j < |ms| :: KeyOf(ms[i].name) != KeyOf(ms[j].name))
  }

  predicate StrictMember(isObject: bool, m: Member)
    decreases m, 2
  {
    (isObject ==> KeyOf(m.name).Some?) && Strict(m.value)
  }

  // ---------------------------------------------------------------- formatters

  /** The tree with all white space removed. */
  function Strip(n: Node): (r: Node)
    ensures r.Scalar? == n.Scalar? && (n.Group? ==> r.isObject == n.isObject && |r.members| == |n.members|)
    decreases n, 1
  {
    match n
    case Scalar(_) => n
    case Group(isObject, _, ms) => Group(isObject, "", seq(|ms|, i requires 0 <= i < |ms| => StripMember(ms[i])))
  }

  function StripMember(m: Member): Member
    decreases m, 2
  {
    Member("", m.name, "", "", Strip(m.value), "")
  }

  function Times(indent: string, n: nat): string {
    if n == 0 then "" else indent + Times(indent, n - 1)
  }

  function NewLine(prefix: string, indent: string, depth: nat): string {
    "\n" + prefix + Times(indent, depth)
  }

  /** The tree laid out with one member a line, `prefix` before every line but the first. */
  function Indent(n: Node, prefix: string, indent: string, depth: nat): (r: Node)
    ensures r.Scalar? == n.Scalar? && (n.Group? ==> r.isObject == n.isObject && |r.members| == |n.members|)
    decreases n, 1
  {
    match n
    case Scalar(_) => n
    case Group(isObject, _, ms) =>
      Group(isObject, "", seq(|ms|, i requires 0 <= i < |ms| =>
        IndentMember(isObject, ms[i], prefix, indent, depth, if i == |ms| - 1 then NewLine(prefix, indent, depth) else "")))
  }

  function IndentMember(isObject: bool, m: Member, prefix: string, indent: string, depth: nat, trail: string): Member
    decreases m, 2
  {
    Member(NewLine(prefix, indent, depth + 1), m.name, "", if isObject then " " else "",
           Indent(m.value, prefix, indent, depth + 1), trail)
  }

  lemma StripAt(n: Node, i: nat)
    requires n.Group? && i < |n.members|
    ensures Strip(n).members[i] == StripMember(n.members[i])
  {
  }

  lemma IndentAt(n: Node, prefix: string, indent: string, depth: nat, i: nat)
    requires n.Group? && i < |n.members|
    ensures Indent(n, prefix, indent, depth).members[i] == IndentMember(n.isObject, n.members[i], prefix, indent, depth,
              if i == |n.members| - 1 then NewLine(prefix, indent, depth) else "")
  {
  }

  lemma {:induction false} StripFixes(n: Node)
    ensures Strip(Strip(n)) == Strip(n)
    decreases n
  {
    if n.Group? {
      forall i | 0 <= i < |n.members| ensures StripMember(Strip(n).members[i]) == StripMember(n.members[i]) {
        StripAt(n, i);
        StripFixes(n.members[i].value);
      }
    }
  }

  lemma {:induction false} StripIndent(n: Node, prefix: string, indent: string, depth: nat)
    ensures Strip(Indent(n, prefix, indent, depth)) == Strip(n)
    decreases n
  {
    if n.Group? {
      var r := Indent(n, prefix, indent, depth);
      forall i | 0 <= i < |n.members| ensures StripMember(r.members[i]) == StripMember(n.members[i]) {
        IndentAt(n, prefix, indent, depth, i);
        StripIndent(n.members[i].value, prefix, indent, depth + 1);
      }
    }
  }

  lemma {:induction false} StripWellFormed(n: Node)
    requires WellFormed(n)
    ensures WellFormed(Strip(n))
    decreases n
  {
    if n.Group? {
      forall i | 0 <= i < |n.members| ensures WellFormedMember(n.isObject, Strip(n).members[i]) {
        assert WellFormedMember(n.isObject, n.members[i]);
        StripAt(n, i);
        StripWellFormed(n.members[i].value);
      }
    }
  }

  lemma {:induction false} TimesBlank(indent: string, n: nat)
    requires Blank(indent)
    ensures Blank(Times(indent, n))
  {
    if n > 0 { TimesBlank(indent, n - 1); }
  }

  lemma {:induction false} IndentWellFormed(n: Node, prefix: string, indent: string, depth: nat)
    requires WellFormed(n) && Blank(prefix) && Blank(indent)
    ensures WellFormed(Indent(n, prefix, indent, depth))
    decreases n
  {
    if n.Group? {
      var r := Indent(n, prefix, indent, depth);
      TimesBlank(indent, depth);
      TimesBlank(indent, depth + 1);
      forall i | 0 <= i < |n.members| ensures WellFormedMember(n.isObject, r.members[i]) {
        assert WellFormedMember(n.isObject, n.members[i]);
        IndentAt(n, prefix, indent, depth, i);
        IndentWellFormed(n.members[i].value, prefix, indent, depth + 1);
      }
    }
  }

  /** Strictness is a matter of tokens, not of white space. */
  lemma {:induction false} StripStrict(n: Node)
    ensures Strict(Strip(n)) <==> Strict(n)
    decreases n
  {
    if n.Group? {
      var r := Strip(n);
      forall i | 0 <= i < |n.members|
        ensures r.members[i].name == n.members[i].name
        ensures StrictMember(n.isObject, r.members[i]) <==> StrictMember(n.isObject, n.members[i])
      {
        StripAt(n, i);
        StripStrict(n.members[i].value);
      }
      assert forall i | 0 <= i < |r.members| :: r.members[i].name == n.members[i].name;
    }
  }

  lemma SameTokensStrict(a: Node, b: Node)
    requires Strip(a) == Strip(b)
    ensures Strict(a) <==> Strict(b)
  {
    StripStrict(a);
    StripStrict(b);
  }

  // ---------------------------------------------------------------- whole texts

  /** The one value a text holds, white space around it allowed. */
  function ParseText(s: string): Option<Node> {
    var r := ParseValue(s, SkipSpace(s, 0));
    if r.Got? && SkipSpace(s, r.end) == |s| then Some(r.value) else None
  }

  /** The text without white space, if it is JSON. */
  function Compact(s: string): Option<string> {
    match ParseText(s)
    case None => None
    case Some(n) => Some(Print(Strip(n)))
  }

  predicate SameJson(a: string, b: string) {
    Compact(a).Some? && Compact(a) == Compact(b)
  }

  lemma PrintedTextParses(n: Node)
    requires WellFormed(n)
    ensures ParseText(Print(n)) == Some(n)
  {
    hide WellFormed, Print;
    var t := Print(n);
    PrintStart(n);
    assert SkipSpace(t, 0) == 0;
    assert t[0..0 + |t|] == t;
    PrintedValueParses(t, 0, n);
  }

  lemma ParsedTextWellFormed(s: string)
    ensures ParseText(s).Some? ==> WellFormed(ParseText(s).value)
  {
    ParsedValuePrints(s, SkipSpace(s, 0));
  }

  /** Comparing compacted texts compares token trees. */
  lemma SameJsonMeans(n: Node, s: string)
    requires WellFormed(n)
    ensures SameJson(Print(n), s) <==> ParseText(s).Some? && Strip(ParseText(s).value) == Strip(n)
  {
    PrintedTextParses(n);
    if ParseText(s).Some? {
      var m := ParseText(s).value;
      ParsedTextWellFormed(s);
      StripWellFormed(n);
      StripWellFormed(m);
      PrintedTextParses(Strip(n));
      PrintedTextParses(Strip(m));
    }
  }
}
