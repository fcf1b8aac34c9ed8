/** String literals: printing one, and reading one back with every escape a script may use. */
module Literals {
  import opened Basics
  import T = Tokens

  // ---------------------------------------------------------------- printing

  function ReplaceAll(s: string, c: char, r: string): string {
    if s == "" then "" else (if s[0] == c then r else [s[0]]) + ReplaceAll(s[1..], c, r)
  }

  /** A single-quoted literal: three replacements, one after the other. */
  function Quote(s: string): string {
    ['\''] + ReplaceAll(ReplaceAll(ReplaceAll(s, '\\', "\\\\"), '\'', "\\'"), '\n', "\\n") + ['\'']
  }

  function EscapeOne(c: char): string {
    if c == '\\' then "\\\\" else if c == '\'' then "\\'" else if c == '\n' then "\\n" else [c]
  }

  function Escape(s: string): string {
    if s == "" then "" else EscapeOne(s[0]) + Escape(s[1..])
  }

  lemma {:induction false} ReplaceAppend(a: string, b: string, c: char, r: string)
    ensures ReplaceAll(a + b, c, r) == ReplaceAll(a, c, r) + ReplaceAll(b, c, r)
    decreases |a|
  {
    if a == "" {
      assert a + b == b;
    } else {
      ReplaceAppend(a[1..], b, c, r);
      assert (a + b)[1..] == a[1..] + b;
      ReplaceSplit(a, c, r);
      ReplaceSplit(a + b, c, r);
      hide ReplaceAll;
      var x := if a[0] == c then r else [a[0]];
      assert x + ReplaceAll(a[1..], c, r) + ReplaceAll(b, c, r) == x + (ReplaceAll(a[1..], c, r) + ReplaceAll(b, c, r));
    }
  }

  lemma ReplaceOne(x: char, c: char, r: string)
    ensures ReplaceAll([x], c, r) == if x == c then r else [x]
  {
    assert [x][1..] == "";
    assert ReplaceAll("", c, r) == "";
    assert r + "" == r;
  }

  lemma ReplaceTwo(x: char, y: char, c: char, r: string)
    requires x != c && y != c
    ensures ReplaceAll([x, y], c, r) == [x, y]
  {
    assert [x, y] == [x] + [y];
    ReplaceAppend([x], [y], c, r);
    ReplaceOne(x, c, r);
    ReplaceOne(y, c, r);
  }

  /** The replacements do not touch one another's output: together they escape character by character. */
  lemma {:induction false} QuoteEscapes(s: string)
    ensures ReplaceAll(ReplaceAll(ReplaceAll(s, '\\', "\\\\"), '\'', "\\'"), '\n', "\\n") == Escape(s)
  {
    if s != "" {
      var c, rest := s[0], s[1..];
      QuoteEscapes(rest);
      hide ReplaceAll;
      var a1, b1 := (if c == '\\' then "\\\\" else [c]), ReplaceAll(rest, '\\', "\\\\");
      assert ReplaceAll(s, '\\', "\\\\") == a1 + b1 by { ReplaceSplit(s, '\\', "\\\\"); }
      ReplaceAppend(a1, b1, '\'', "\\'");
      var a2, b2 := ReplaceAll(a1, '\'', "\\'"), ReplaceAll(b1, '\'', "\\'");
      ReplaceAppend(a2, b2, '\n', "\\n");
      EscapeSteps(c);
    }
  }

  lemma ReplaceSplit(s: string, c: char, r: string)
    requires s != ""
    ensures ReplaceAll(s, c, r) == (if s[0] == c then r else [s[0]]) + ReplaceAll(s[1..], c, r)
  {
  }

  lemma EscapeSteps(c: char)
    ensures ReplaceAll(ReplaceAll(if c == '\\' then "\\\\" else [c], '\'', "\\'"), '\n', "\\n") == EscapeOne(c)
  {
    hide ReplaceAll;
    if c == '\\' {
      ReplaceTwo('\\', '\\', '\'', "\\'");
      ReplaceTwo('\\', '\\', '\n', "\\n");
    } else {
      ReplaceOne(c, '\'', "\\'");
      if c == '\'' { ReplaceTwo('\\', '\'', '\n', "\\n"); } else { ReplaceOne(c, '\n', "\\n"); }
    }
  }

  // ---------------------------------------------------------------- reading

  /** An unsigned hexadecimal number; none for the empty text or any other character. */
  function ParseHex(s: string): (r: Option<nat>) {
    if s == "" || HexValue(s[|s| - 1]) < 0 then None
    else if |s| == 1 then Some(HexValue(s[0]))
    else
      var high := ParseHex(s[..|s| - 1]);
      if high.None? then None else Some(high.value * 16 + HexValue(s[|s| - 1]))
  }

  function IndexOfChar(s: string, c: char): (i: nat)
    ensures i <= |s| && (i < |s| ==> s[i] == c)
  {
    if s == "" || s[0] == c then 0 else 1 + IndexOfChar(s[1..], c)
  }

  /** The character a code point number writes; a lone surrogate writes the replacement character. */
  function Written(v: nat): char
    requires v <= 0x10_FFFF
  {
    if 0xD800 <= v < 0xE000 then '\U{FFFD}' else v as char
  }

  /** The character of an `x` or `u` escape at the start of `body`, and how much of it was used. */
  function HexEscape(body: string): (r: Option<(char, nat)>)
    requires body != "" && (body[0] == 'x' || body[0] == 'u')
    ensures r.Some? ==> 0 < r.value.1 <= |body|
  {
    var digits := if body[0] == 'u' then 4 else 2;
    var hex := body[1..];
    if body[0] == 'u' && hex != "" && hex[0] == '{' then
      var close := IndexOfChar(hex, '}');
      if close == |hex| then None
      else
        var v := ParseHex(hex[1..close]);
        if v.None? || v.value > 0x10_FFFF then None else Some((Written(v.value), close + 2))
    else if |hex| < digits then None
    else
      var v := ParseHex(hex[..digits]);
      if v.None? || v.value > 0x10_FFFF then None else Some((Written(v.value), 1 + digits))
  }

  function Simple(c: char): char {
    match c
    case 'b' => '\U{8}'
    case 'f' => '\U{C}'
    case 'n' => '\n'
    case 'r' => '\r'
    case 't' => '\t'
    case 'v' => '\U{B}'
    case '0' => '\0'
    case _ => c
  }

  function Cons(c: char, rest: Option<string>): Option<string> {
    if rest.None? then None else Some([c] + rest.value)
  }

  function DropNewline(s: string): (r: string)
    ensures |r| <= |s|
  {
    if s != "" && s[0] == '\n' then s[1..] else s
  }

  /** The text a literal's body stands for. */
  function Unescape(body: string): Option<string>
    decreases |body|
  {
    if body == "" then Some("")
    else if body[0] != '\\' then Cons(body[0], Unescape(body[1..]))
    else if |body| == 1 then None
    else
      var c := body[1];
      if c == '\r' then Unescape(DropNewline(body[2..]))
      else if c == '\n' then Unescape(body[2..])
      else if c == 'x' || c == 'u' then
        var h := HexEscape(body[1..]);
        if h.None? then None else Cons(h.value.0, Unescape(body[1..][h.value.1..]))
      else Cons(Simple(c), Unescape(body[2..]))
  }

  function Literal(token: string): Option<string> {
    if |token| < 2 || (token[0] != '\'' && token[0] != '"' && token[0] != '`') then None
    else Unescape(token[1..|token| - 1])
  }

  /** The decoder: it consumes the body and builds the name, or refuses the token. */
  method RefLiteral(token: string) returns (name: string, ok: bool)
    ensures ok <==> Literal(token).Some?
    ensures ok ==> name == Literal(token).value
    ensures !ok ==> name == ""
  {
    if |token| < 2 || (token[0] != '\'' && token[0] != '"' && token[0] != '`') {
      return "", false;
    }
    var body := token[1..|token| - 1];
    var built := "";
    assert Unescape(body).Some? ==> "" + Unescape(body).value == Unescape(body).value;
    while body != ""
      invariant Literal(token) == Joined(built, Unescape(body))
      decreases |body|
    {
      var c, used := body[0], 1;
      if c == '\\' {
        body := body[1..];
        if body == "" {
          return "", false;
        }
        c := body[0];
        if c == '\r' {
          body := DropNewline(body[1..]);
          continue;
        } else if c == '\n' {
          body := body[1..];
          continue;
        } else if c == 'x' || c == 'u' {
          var h := HexEscape(body);
          if h.None? {
            return "", false;
          }
          c, used := h.value.0, h.value.1;
        } else {
          c := Simple(c);
        }
      }
      JoinedStep(built, c, Unescape(body[used..]));
      built := built + [c];
      body := body[used..];
    }
    return built, true;
  }

  function Joined(a: string, b: Option<string>): Option<string> {
    if b.None? then None else Some(a + b.value)
  }

  lemma JoinedStep(a: string, c: char, rest: Option<string>)
    ensures Joined(a, Cons(c, rest)) == Joined(a + [c], rest)
  {
    if rest.Some? { assert a + ([c] + rest.value) == a + [c] + rest.value; }
  }

  // ---------------------------------------------------------------- round trip

  lemma EscapeOneReads(c: char, rest: string)
    ensures Unescape(EscapeOne(c) + rest) == Cons(c, Unescape(rest))
  {
    var e := EscapeOne(c);
    assert (e + rest)[|e|..] == rest;
  }

  lemma {:induction false} EscapeReads(s: string)
    ensures Unescape(Escape(s)) == Some(s)
  {
    if s != "" {
      EscapeReads(s[1..]);
      EscapeOneReads(s[0], Escape(s[1..]));
      assert s == [s[0]] + s[1..];
    }
  }

  /** Reading a printed literal gives the text back, for every text. */
  lemma QuoteReads(s: string)
    ensures Literal(Quote(s)) == Some(s)
  {
    QuoteEscapes(s);
    EscapeReads(s);
    assert Quote(s)[1..|Quote(s)| - 1] == Escape(s);
  }

  lemma {:induction false} EscapeEnds(t: string, i: nat, s: string)
    requires i + |Escape(s)| < |t| && t[i..i + |Escape(s)|] == Escape(s) && t[i + |Escape(s)|] == '\''
    ensures T.QuotedEnd(t, i, '\'') == Some(i + |Escape(s)| + 1)
    decreases |s|
  {
    if s != "" {
      var e, rest := EscapeOne(s[0]), Escape(s[1..]);
      var j := i + |e|;
      assert Escape(s) == e + rest;
      assert t[j..j + |rest|] == t[i..i + |Escape(s)|][|e|..] == rest;
      assert t[i..j] == t[i..i + |Escape(s)|][..|e|] == e;
      hide Escape;
      EscapeEnds(t, j, s[1..]);
      EscapeOneInside(t, i, s[0]);
    }
  }

  lemma EscapeOneInside(t: string, i: nat, c: char)
    requires i + |EscapeOne(c)| <= |t| && t[i..i + |EscapeOne(c)|] == EscapeOne(c)
    ensures T.QuotedEnd(t, i, '\'') == T.QuotedEnd(t, i + |EscapeOne(c)|, '\'')
  {
    var e := EscapeOne(c);
    assert t[i] == t[i..i + |e|][0] == e[0];
    if |e| == 2 { assert t[i + 1] == t[i..i + |e|][1] == e[1]; }
  }

  /** The tokenizer reads a printed literal as one whole token, whatever follows. */
  lemma QuoteIsToken(s: string, rest: string)
    ensures var t := Quote(s) + rest; T.TokenEnd(t, 0) == |Quote(s)| && t[..|Quote(s)|] == Quote(s)
  {
    QuoteEscapes(s);
    var t := Quote(s) + rest;
    assert t[0] == '\'';
    assert t[1..1 + |Escape(s)|] == Escape(s);
    assert t[1 + |Escape(s)|] == '\'';
    EscapeEnds(t, 1, s);
  }

  lemma QuoteFirst(s: string, rest: string, interpolation: bool, depth: nat)
    ensures var t := Quote(s) + rest;
            T.Code(t, 0, interpolation, depth) == T.Prepend([T.Spot(Quote(s), 0)], T.Code(t, |Quote(s)|, interpolation, depth))
  {
    hide Quote, T.TokenEnd;
    var t := Quote(s) + rest;
    QuoteIsToken(s, rest);
    QuoteShape(s);
    assert t[0] == Quote(s)[0];
    assert T.SkipSpace(t, 0) == 0;
    assert t[0..|Quote(s)|] == Quote(s);
  }

  lemma QuoteShape(s: string)
    ensures |Quote(s)| >= 2 && Quote(s)[0] == '\''
  {
  }

  // ---------------------------------------------------------------- every escape

  /** The characters that escape letters stand for. */
  const MEANINGS: map<char, int> := map['0' := 0x0, 'b' := 0x8, 't' := 0x9, 'n' := 0xA, 'v' := 0xB, 'f' := 0xC, 'r' := 0xD]

  lemma SimpleMeans(c: char)
    ensures Simple(c) == if c in MEANINGS then MEANINGS[c] as char else c
  {
  }

  /** A letter with a meaning stands for it; any other character but `x` and `u` stands for itself. */
  lemma LetterReads(c: char, rest: string)
    requires c !in {'x', 'u', '\r', '\n'}
    ensures Unescape(['\\', c] + rest) == Cons(if c in MEANINGS then MEANINGS[c] as char else c, Unescape(rest))
  {
    SimpleMeans(c);
    hide Simple;
    assert (['\\', c] + rest)[2..] == rest;
  }

  /** An escaped line break stands for nothing. */
  lemma BreakReads(rest: string)
    ensures Unescape(['\\', '\n'] + rest) == Unescape(rest)
    ensures Unescape(['\\', '\r', '\n'] + rest) == Unescape(rest)
    ensures rest == "" || rest[0] != '\n' ==> Unescape(['\\', '\r'] + rest) == Unescape(rest)
  {
    hide Simple, HexEscape;
    assert (['\\', '\n'] + rest)[2..] == rest && (['\\', '\r'] + rest)[2..] == rest;
    var t := ['\\', '\r', '\n'] + rest;
    assert t[2..] == ['\n'] + rest && t[2..][1..] == rest;
  }

  lemma {:induction false} TwoDigits(a: char, b: char)
    requires HexValue(a) >= 0 && HexValue(b) >= 0
    ensures ParseHex([a, b]) == Some(HexValue(a) * 16 + HexValue(b))
  {
    assert [a, b][..1] == [a];
    assert ParseHex([a]) == Some(HexValue(a));
  }

  lemma FourDigits(a: char, b: char, c: char, d: char)
    requires HexValue(a) >= 0 && HexValue(b) >= 0 && HexValue(c) >= 0 && HexValue(d) >= 0
    ensures ParseHex([a, b, c, d]) == Some(((HexValue(a) * 16 + HexValue(b)) * 16 + HexValue(c)) * 16 + HexValue(d))
  {
    TwoDigits(a, b);
    hide HexValue;
    assert [a, b, c, d][..3] == [a, b, c] && [a, b, c][..2] == [a, b];
    assert ParseHex([a, b, c]) == Some((HexValue(a) * 16 + HexValue(b)) * 16 + HexValue(c));
  }

  /** Two digits behind `x`, or four behind `u`, are the number of the character. */
  lemma DigitsRead(a: char, b: char, c: char, d: char, rest: string)
    requires HexValue(a) >= 0 && HexValue(b) >= 0 && HexValue(c) >= 0 && HexValue(d) >= 0
    ensures Unescape(['\\', 'x', a, b] + rest) == Cons((HexValue(a) * 16 + HexValue(b)) as char, Unescape(rest))
    ensures var v := ((HexValue(a) * 16 + HexValue(b)) * 16 + HexValue(c)) * 16 + HexValue(d);
            Unescape(['\\', 'u', a, b, c, d] + rest) == Cons(if 0xD800 <= v < 0xE000 then '\U{FFFD}' else v as char, Unescape(rest))
  {
    TwoDigits(a, b);
    FourDigits(a, b, c, d);
    DigitBounds(a);
    DigitBounds(b);
    DigitBounds(c);
    DigitBounds(d);
    hide ParseHex;
    var x := ['\\', 'x', a, b] + rest;
    assert x[1..] == ['x', a, b] + rest && x[1..][1..][..2] == [a, b] && x[1..][3..] == rest;
    var u := ['\\', 'u', a, b, c, d] + rest;
    assert u[1..] == ['u', a, b, c, d] + rest && u[1..][1..][..4] == [a, b, c, d] && u[1..][5..] == rest;
    assert u[1..][1..][0] == a && a != '{';
  }

  lemma DigitBounds(c: char)
    ensures HexValue(c) < 16 && (HexValue(c) >= 0 ==> c != '{')
  {
  }

  lemma BraceEscape(hex: string, digits: string, close: nat)
    requires hex != "" && hex[0] == '{' && IndexOfChar(hex, '}') == close && 1 <= close < |hex| && hex[1..close] == digits
    ensures HexEscape(['u'] + hex)
            == match ParseHex(digits)
               case None => None
               case Some(v) => if v > 0x10_FFFF then None else Some((Written(v), close + 2))
  {
    hide ParseHex, Written, IndexOfChar;
    assert (['u'] + hex)[1..] == hex;
  }

  lemma BraceIndex(digits: string, rest: string)
    requires '}' !in digits
    ensures IndexOfChar(['{'] + (digits + (['}'] + rest)), '}') == 1 + |digits|
  {
    FirstBrace(digits, rest, 0);
    assert digits[0..] == digits;
    assert (['{'] + (digits + (['}'] + rest)))[1..] == digits + (['}'] + rest);
  }

  /** The number in braces behind `u`, of any length. */
  lemma BracesRead(digits: string, rest: string)
    requires '}' !in digits
    ensures Unescape(['\\', 'u', '{'] + digits + ['}'] + rest)
            == match ParseHex(digits)
               case None => None
               case Some(v) => if v > 0x10_FFFF then None else Cons(Written(v), Unescape(rest))
  {
    hide ParseHex, Written, HexEscape, Simple;
    var u := ['\\', 'u', '{'] + digits + ['}'] + rest;
    var hex := ['{'] + (digits + (['}'] + rest));
    BraceIndex(digits, rest);
    assert hex[1..1 + |digits|] == digits;
    BraceEscape(hex, digits, 1 + |digits|);
    assert u[1..] == ['u'] + hex;
    assert u[1..][|digits| + 3..] == rest;
  }

  lemma {:induction false} FirstBrace(digits: string, rest: string, i: nat)
    requires '}' !in digits && i <= |digits|
    ensures IndexOfChar(digits[i..] + (['}'] + rest), '}') == |digits| - i
    decreases |digits| - i
  {
    var t := digits[i..] + (['}'] + rest);
    if i < |digits| {
      assert t[1..] == digits[i + 1..] + (['}'] + rest) && t[0] == digits[i];
      FirstBrace(digits, rest, i + 1);
    } else {
      assert t == ['}'] + rest;
    }
  }
}
