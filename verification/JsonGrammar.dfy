/** The tokens of JSON as RFC 8259 writes them down, and that exactly these are read. */
module JsonGrammar {
  import opened Basics
  import opened JsonLex
  import opened JsonFormat

  // ---------------------------------------------------------------- numbers, section 6

  predicate Digits(s: string) { s != "" && forall i | 0 <= i < |s| :: '0' <= s[i] <= '9' }

  /** A lone zero, or digits that do not start with one. */
  predicate IntPart(s: string) { Digits(s) && (s[0] == '0' ==> |s| == 1) }

  predicate FracPart(s: string) { s == "" || (s[0] == '.' && Digits(s[1..])) }

  predicate ExpPart(s: string) {
    s == "" || ((s[0] == 'e' || s[0] == 'E') && (Digits(s[1..]) || (|s| > 1 && (s[1] == '+' || s[1] == '-') && Digits(s[2..]))))
  }

  predicate NumberIn(s: string, m: nat, a: nat, b: nat) {
    m <= a <= b <= |s| && m == (if s != "" && s[0] == '-' then 1 else 0) && IntPart(s[m..a]) && FracPart(s[a..b]) && ExpPart(s[b..])
  }

  ghost predicate IsNumber(s: string) { exists m: nat, a: nat, b: nat :: NumberIn(s, m, a, b) }

  lemma {:induction false} DigitsRun(s: string, i: nat)
    requires i <= |s|
    ensures var j := DigitsEnd(s, i); (forall k | i <= k < j :: IsDigit(s[k])) && (j < |s| ==> !IsDigit(s[j]))
    decreases |s| - i
  {
    if i < |s| && IsDigit(s[i]) { DigitsRun(s, i + 1); }
  }

  /** Digits up to a place where none follows are read up to that place. */
  lemma DigitsTo(s: string, i: nat, j: nat)
    requires i <= j <= |s| && (forall k | i <= k < j :: IsDigit(s[k])) && (j < |s| ==> !IsDigit(s[j]))
    ensures DigitsEnd(s, i) == j
  {
    DigitsRun(s, i);
    var e := DigitsEnd(s, i);
    assert !(e < j) && !(j < e);
  }

  lemma DigitsSlice(s: string, i: nat, j: nat)
    requires i <= j <= |s|
    ensures Digits(s[i..j]) <==> i < j && forall k | i <= k < j :: IsDigit(s[k])
  {
    if Digits(s[i..j]) {
      forall k | i <= k < j ensures IsDigit(s[k]) { assert s[i..j][k - i] == s[k]; }
    }
  }

  lemma FracRead(s: string, a: nat)
    requires a <= |s| && FractionEnd(s, a).Some?
    ensures FracPart(s[a..FractionEnd(s, a).value])
    ensures var b := FractionEnd(s, a).value; b < |s| && b > a ==> !IsDigit(s[b])
  {
    if a < |s| && s[a] == '.' {
      var b := DigitsEnd(s, a + 1);
      DigitsRun(s, a + 1);
      DigitsSlice(s, a + 1, b);
      assert s[a..b][1..] == s[a + 1..b];
    }
  }

  lemma FracReads(s: string, a: nat, b: nat)
    requires a <= b <= |s| && FracPart(s[a..b]) && ExpPart(s[b..])
    ensures FractionEnd(s, a) == Some(b)
  {
    if a < b {
      assert s[a..b][0] == s[a] && s[a..b][1..] == s[a + 1..b];
      DigitsSlice(s, a + 1, b);
      if b < |s| { assert s[b..][0] == s[b]; }
      DigitsTo(s, a + 1, b);
    } else if b < |s| {
      assert s[b..][0] == s[b];
    }
  }

  lemma ExpRead(s: string, b: nat)
    requires b <= |s|
    ensures ExponentEnd(s, b) == Some(|s|) <==> ExpPart(s[b..])
  {
    if b < |s| && (s[b] == 'e' || s[b] == 'E') {
      var t := s[b..];
      assert t[0] == s[b] && t[1..] == s[b + 1..|s|];
      var d := if b + 1 < |s| && (s[b + 1] == '+' || s[b + 1] == '-') then b + 2 else b + 1;
      if d == b + 2 { assert t[1] == s[b + 1] && t[2..] == s[b + 2..|s|]; }
      DigitsSlice(s, d, |s|);
      DigitsSlice(s, b + 1, |s|);
      if d < |s| {
        DigitsRun(s, d);
        if forall k | d <= k < |s| :: IsDigit(s[k]) { DigitsTo(s, d, |s|); }
      }
    } else if b < |s| {
      assert s[b..][0] == s[b];
    }
  }

  function IntEnd(s: string, m: nat): nat
    requires m < |s|
  {
    if s[m] == '0' then m + 1 else DigitsEnd(s, m)
  }

  lemma IntRead(s: string, m: nat)
    requires m < |s| && IsDigit(s[m])
    ensures m < IntEnd(s, m) <= |s| && IntPart(s[m..IntEnd(s, m)])
  {
    var a := IntEnd(s, m);
    DigitsRun(s, m);
    DigitsSlice(s, m, a);
    assert s[m..a][0] == s[m];
  }

  lemma IntReads(s: string, m: nat, a: nat, b: nat)
    requires m <= a <= b <= |s| && IntPart(s[m..a]) && FracPart(s[a..b]) && ExpPart(s[b..])
    ensures m < |s| && IsDigit(s[m]) && IntEnd(s, m) == a
  {
    DigitsSlice(s, m, a);
    assert s[m..a][0] == s[m];
    if s[m] != '0' {
      if a < b { assert s[a..b][0] == s[a]; } else if b < |s| { assert s[b..][0] == s[b]; }
      DigitsTo(s, m, a);
    }
  }

  lemma NumberExactly(s: string)
    requires s != ""
    ensures NumberEnd(s, 0) == Some(|s|) <==> IsNumber(s)
  {
    hide IntPart, FracPart, ExpPart, FractionEnd, ExponentEnd, DigitsEnd;
    var m := if s[0] == '-' then 1 else 0;
    if NumberEnd(s, 0) == Some(|s|) {
      IntRead(s, m);
      var a := IntEnd(s, m);
      FracRead(s, a);
      var b := FractionEnd(s, a).value;
      ExpRead(s, b);
      assert NumberIn(s, m, a, b);
    }
    if m', a: nat, b: nat :| NumberIn(s, m', a, b) {
      IntReads(s, m, a, b);
      FracReads(s, a, b);
      ExpRead(s, b);
    }
  }

  // ---------------------------------------------------------------- strings, section 7

  /** One unit of a string's body: a plain character, a short escape or a code unit in hexadecimal. */
  predicate IsUnit(u: string) {
    || (|u| == 1 && u[0] >= ' ' && u[0] != '"' && u[0] != '\\')
    || (|u| == 2 && u[0] == '\\' && u[1] in "\"\\/bfnrt")
    || (|u| == 6 && u[0] == '\\' && u[1] == 'u' && forall k | 2 <= k < 6 :: IsHexDigit(u[k]))
  }

  predicate IsHexDigit(c: char) { '0' <= c <= '9' || 'a' <= c <= 'f' || 'A' <= c <= 'F' }

  function Flat(us: seq<string>): string { if us == [] then "" else us[0] + Flat(us[1..]) }

  ghost predicate IsBody(b: string) { exists us: seq<string> :: (forall i | 0 <= i < |us| :: IsUnit(us[i])) && Flat(us) == b }

  lemma BodyNone()
    ensures IsBody("")
  {
    var us: seq<string> := [];
    assert Flat(us) == "";
  }

  lemma BodyMore(u: string, b: string)
    requires IsUnit(u) && IsBody(b)
    ensures IsBody(u + b)
  {
    hide IsUnit;
    var us: seq<string> :| (forall i | 0 <= i < |us| :: IsUnit(us[i])) && Flat(us) == b;
    var all := [u] + us;
    assert all[1..] == us;
    assert forall i | 0 <= i < |all| :: IsUnit(all[i]);
  }

  /** How long the unit at `i` is. */
  function UnitLength(s: string, i: nat): nat
    requires i < |s|
  {
    if s[i] != '\\' then 1 else if i + 1 < |s| && IsEscape(s[i + 1]) then 2 else 6
  }

  lemma {:induction false} TailBody(s: string, i: nat)
    requires i <= |s| && StringTail(s, i).Some?
    ensures var e := StringTail(s, i).value; IsBody(s[i..e - 1]) && s[e - 1] == '"'
    decreases |s| - i
  {
    hide IsBody;
    var e := StringTail(s, i).value;
    if s[i] == '"' {
      BodyNone();
      assert s[i..i] == "";
    } else {
      var j := i + UnitLength(s, i);
      TailBody(s, j);
      assert StringTail(s, i) == StringTail(s, j);
      UnitHere(s, i);
      assert s[i..e - 1] == s[i..j] + s[j..e - 1];
      BodyMore(s[i..j], s[j..e - 1]);
    }
  }

  lemma UnitHere(s: string, i: nat)
    requires i < |s| && s[i] >= ' ' && s[i] != '"'
    requires s[i] == '\\' ==> i + 1 < |s| && (IsEscape(s[i + 1]) || (s[i + 1] == 'u' && IsHex4(s, i + 2)))
    ensures i + UnitLength(s, i) <= |s| && IsUnit(s[i..i + UnitLength(s, i)])
  {
    var u := s[i..i + UnitLength(s, i)];
    assert u[0] == s[i];
    if |u| == 2 { assert u[1] == s[i + 1]; }
    if |u| == 6 {
      forall k | 2 <= k < 6 ensures IsHexDigit(u[k]) { assert u[k] == s[i + k] && HexValue(s[i + k]) >= 0; }
    }
  }

  lemma {:induction false} BodyTail(s: string, i: nat, us: seq<string>)
    requires (forall k | 0 <= k < |us| :: IsUnit(us[k])) && At(s, i, Flat(us)) && i + |Flat(us)| < |s| && s[i + |Flat(us)|] == '"'
    ensures StringTail(s, i) == Some(i + |Flat(us)| + 1)
    decreases |us|
  {
    hide IsUnit;
    if us != [] {
      AtAppend(s, i, us[0], Flat(us[1..]));
      UnitRead(s, i, us[0]);
      BodyTail(s, i + |us[0]|, us[1..]);
    }
  }

  lemma UnitRead(s: string, i: nat, u: string)
    requires IsUnit(u) && At(s, i, u)
    ensures StringTail(s, i) == StringTail(s, i + |u|)
  {
    forall k | 0 <= k < |u| ensures s[i + k] == u[k] { AtIndex(s, i, u, k); }
    assert s[i] == u[0];
    if |u| == 2 {
      assert s[i + 1] == u[1];
    } else if |u| == 6 {
      assert s[i + 1] == u[1];
      forall k | i + 2 <= k < i + 6 ensures HexValue(s[k]) >= 0 { assert s[k] == u[k - i] && IsHexDigit(u[k - i]); }
    }
  }

  ghost predicate IsString(s: string) {
    |s| >= 2 && s[0] == '"' && s[|s| - 1] == '"' && IsBody(s[1..|s| - 1])
  }

  lemma StringExactly(s: string)
    ensures IsStringToken(s) <==> IsString(s)
  {
    hide IsUnit, StringTail;
    if IsStringToken(s) { TailBody(s, 1); }
    if IsString(s) {
      var us: seq<string> :| (forall i | 0 <= i < |us| :: IsUnit(us[i])) && Flat(us) == s[1..|s| - 1];
      BodyTail(s, 1, us);
    }
  }

  // ---------------------------------------------------------------- scalars

  /** The scalar tokens that are read are exactly the strings, the numbers and the three names. */
  lemma ScalarExactly(s: string)
    ensures IsScalarToken(s) <==> IsString(s) || IsNumber(s) || s == "true" || s == "false" || s == "null"
  {
    hide StringTail, NumberEnd, IsString, IsNumber;
    if s != "" {
      StringExactly(s);
      NumberExactly(s);
      StringStart(s);
      NumberStart(s);
      Literals(s);
    } else {
      StringExactly(s);
      NumberStart(s);
    }
  }

  lemma StringStart(s: string)
    ensures IsString(s) ==> s != "" && s[0] == '"'
  {
  }

  lemma NumberStart(s: string)
    ensures IsNumber(s) ==> s != "" && (s[0] == '-' || IsDigit(s[0]))
  {
    if m: nat, a: nat, b: nat :| NumberIn(s, m, a, b) {
      DigitsSlice(s, m, a);
      assert s[m..a][0] == s[m];
    }
  }

  lemma Literals(s: string)
    ensures At(s, 0, "true") && |s| == 4 <==> s == "true"
    ensures At(s, 0, "false") && |s| == 5 <==> s == "false"
    ensures At(s, 0, "null") && |s| == 4 <==> s == "null"
    ensures At(s, 0, "true") ==> s[0] == 't'
    ensures At(s, 0, "false") ==> s[0] == 'f'
    ensures At(s, 0, "null") ==> s[0] == 'n'
  {
    assert |s| == 4 ==> s[0..4] == s;
    assert |s| == 5 ==> s[0..5] == s;
    if At(s, 0, "true") { AtIndex(s, 0, "true", 0); }
    if At(s, 0, "false") { AtIndex(s, 0, "false", 0); }
    if At(s, 0, "null") { AtIndex(s, 0, "null", 0); }
  }

  // ---------------------------------------------------------------- what strings stand for

  /** The short escapes. */
  lemma ShortEscapes(rest: string)
    ensures Decode("\\\"" + rest) == Prepend('"', Decode(rest)) && Decode("\\\\" + rest) == Prepend('\\', Decode(rest))
    ensures Decode("\\/" + rest) == Prepend('/', Decode(rest)) && Decode("\\b" + rest) == Prepend('\U{8}', Decode(rest))
    ensures Decode("\\f" + rest) == Prepend('\U{C}', Decode(rest)) && Decode("\\n" + rest) == Prepend('\n', Decode(rest))
    ensures Decode("\\r" + rest) == Prepend('\r', Decode(rest)) && Decode("\\t" + rest) == Prepend('\t', Decode(rest))
  {
    hide Decode;
    forall x | IsEscape(x) ensures Decode(['\\', x] + rest) == Prepend(Unescaped(x), Decode(rest)) { ShortDecodes(x, rest); }
    assert "\\\"" == ['\\', '"'] && "\\\\" == ['\\', '\\'] && "\\/" == ['\\', '/'] && "\\b" == ['\\', 'b'];
    assert "\\f" == ['\\', 'f'] && "\\n" == ['\\', 'n'] && "\\r" == ['\\', 'r'] && "\\t" == ['\\', 't'];
  }

  /** A code unit in hexadecimal. */
  function HexUnit(v: nat): (r: string)
    requires v < 0x1_0000
    ensures |r| == 6
  {
    var a := v / 16;
    var b := a / 16;
    ['\\', 'u', HexDigit(b / 16), HexDigit(b % 16), HexDigit(a % 16), HexDigit(v % 16)]
  }

  lemma HexUnitReads(v: nat, t: string, i: nat)
    requires v < 0x1_0000 && At(t, i, HexUnit(v))
    ensures t[i] == '\\' && t[i + 1] == 'u' && IsHex4(t, i + 2) && Hex4(t, i + 2) == v
  {
    var u := HexUnit(v);
    forall k | 0 <= k < 6 ensures t[i + k] == u[k] { AtIndex(t, i, u, k); }
    assert t[i] == u[0] && t[i + 1] == u[1] && t[i + 2] == u[2] && t[i + 3] == u[3] && t[i + 4] == u[4] && t[i + 5] == u[5];
    HexSum(v);
    hide HexDigit;
  }

  lemma HexSum(v: nat)
    ensures var a := v / 16;
            var b := a / 16;
            0x1000 * (b / 16) + 0x100 * (b % 16) + 0x10 * (a % 16) + v % 16 == v
  {
  }

  /** A character by its number: one code unit, or a pair of surrogates. */
  function UnicodeEscape(c: char): string {
    var v := c as int;
    if v < 0x1_0000 then HexUnit(v)
    else HexUnit(0xD800 + (v - 0x1_0000) / 0x400) + HexUnit(0xDC00 + (v - 0x1_0000) % 0x400)
  }

  /** Every character can be written by its number. */
  lemma UnicodeDecodes(c: char, rest: string)
    ensures Decode(UnicodeEscape(c) + rest) == Prepend(c, Decode(rest))
  {
    var v, t := c as int, UnicodeEscape(c) + rest;
    if v < 0x1_0000 {
      HexUnitReads(v, t, 0);
      assert t[6..] == rest;
    } else {
      var h, l := 0xD800 + (v - 0x1_0000) / 0x400, 0xDC00 + (v - 0x1_0000) % 0x400;
      assert t == HexUnit(h) + (HexUnit(l) + rest);
      assert t[6..12] == HexUnit(l);
      HexUnitReads(h, t, 0);
      HexUnitReads(l, t, 6);
      assert t[12..] == rest;
      hide HexUnit, Hex4, IsHex4;
      assert 0x1_0000 + (h - 0xD800) * 0x400 + (l - 0xDC00) == v;
    }
  }

  /** A second half of a pair stands for nothing on its own. */
  lemma LoneSurrogate(v: nat, rest: string)
    requires 0xDC00 <= v < 0xE000
    ensures Decode(HexUnit(v) + rest) == None
  {
    HexUnitReads(v, HexUnit(v) + rest, 0);
  }
}
