/**
 JSON text by the grammar of RFC 8259: white space (section 2), numbers (section 6)
 and strings (section 7), as lexical functions over positions in a text, and the
 decoding and encoding of strings.
 */
module JsonLex {
  import opened Basics

  predicate IsSpace(c: char) {
    c == ' ' || c == '\t' || c == '\n' || c == '\r'
  }

  predicate Blank(s: string) {
    forall i | 0 <= i < |s| :: IsSpace(s[i])
  }

  /** The first position from `i` on that holds no white space. */
  function SkipSpace(s: string, i: nat): (j: nat)
    requires i <= |s|
    ensures i <= j <= |s| && Blank(s[i..j])
    ensures j < |s| ==> !IsSpace(s[j])
    decreases |s| - i
  {
    if i < |s| && IsSpace(s[i]) then SkipSpace(s, i + 1) else i
  }

  predicate IsDigit(c: char) {
    '0' <= c <= '9'
  }

  predicate IsHex4(s: string, i: nat) {
    i + 4 <= |s| && forall k | i <= k < i + 4 :: HexValue(s[k]) >= 0
  }

  /** The characters that may follow a backslash on their own. */
  predicate IsEscape(c: char) {
    c == '"' || c == '\\' || c == '/' || c == 'b' || c == 'f' || c == 'n' || c == 'r' || c == 't'
  }

  function DigitsEnd(s: string, i: nat): (j: nat)
    requires i <= |s|
    ensures i <= j <= |s|
    decreases |s| - i
  {
    if i < |s| && IsDigit(s[i]) then DigitsEnd(s, i + 1) else i
  }

  /** The position past the closing quote of the string whose body continues at `i`. */
  function StringTail(s: string, i: nat): (r: Option<nat>)
    requires i <= |s|
    ensures r.Some? ==> i < r.value <= |s|
    decreases |s| - i
  {
    if i == |s| || s[i] < ' ' then None
    else if s[i] == '"' then Some(i + 1)
    else if s[i] != '\\' then StringTail(s, i + 1)
    else if i + 1 < |s| && IsEscape(s[i + 1]) then StringTail(s, i + 2)
    else if i + 1 < |s| && s[i + 1] == 'u' && IsHex4(s, i + 2) then StringTail(s, i + 6)
    else None
  }

  function FractionEnd(s: string, i: nat): (r: Option<nat>)
    requires i <= |s|
    ensures r.Some? ==> i <= r.value <= |s|
  {
    if i == |s| || s[i] != '.' then Some(i)
    else if i + 1 < |s| && IsDigit(s[i + 1]) then Some(DigitsEnd(s, i + 1))
    else None
  }

  function ExponentEnd(s: string, i: nat): (r: Option<nat>)
    requires i <= |s|
    ensures r.Some? ==> i <= r.value <= |s|
  {
    if i == |s| || (s[i] != 'e' && s[i] != 'E') then Some(i)
    else
      var d := if i + 1 < |s| && (s[i + 1] == '+' || s[i + 1] == '-') then i + 2 else i + 1;
      if d < |s| && IsDigit(s[d]) then Some(DigitsEnd(s, d)) else None
  }

  function NumberEnd(s: string, i: nat): (r: Option<nat>)
    requires i < |s|
    ensures r.Some? ==> i < r.value <= |s|
  {
    var d := if s[i] == '-' then i + 1 else i;
    if d == |s| || !IsDigit(s[d]) then None
    else
      var f := FractionEnd(s, if s[d] == '0' then d + 1 else DigitsEnd(s, d));
      if f.None? then None else ExponentEnd(s, f.value)
  }

  /** `p` stands in `s` at position `i`. */
  predicate At(s: string, i: nat, p: string) {
    i + |p| <= |s| && s[i..i + |p|] == p
  }

  /** The end of the string, number or literal that starts at `i`. */
  function ScalarEnd(s: string, i: nat): (r: Option<nat>)
    requires i <= |s|
    ensures r.Some? ==> i < r.value <= |s|
  {
    if i == |s| then None
    else if s[i] == '"' then StringTail(s, i + 1)
    else if s[i] == '-' || IsDigit(s[i]) then NumberEnd(s, i)
    else if At(s, i, "true") then Some(i + 4)
    else if At(s, i, "false") then Some(i + 5)
    else if At(s, i, "null") then Some(i + 4)
    else None
  }

  predicate IsStringToken(text: string) {
    |text| > 0 && text[0] == '"' && StringTail(text, 1) == Some(|text|)
  }

  predicate IsScalarToken(text: string) {
    ScalarEnd(text, 0) == Some(|text|)
  }

  /** No number can go on at position `i`. */
  predicate Stops(s: string, i: nat) {
    i < |s| ==> !IsDigit(s[i]) && s[i] != '.' && s[i] != 'e' && s[i] != 'E'
  }

  // ---------------------------------------------------------------- locality

  lemma BlankHead(w: string)
    requires Blank(w) && w != ""
    ensures IsSpace(w[0])
  {
  }

  lemma AtIndex(s: string, i: nat, p: string, k: nat)
    requires At(s, i, p) && k < |p|
    ensures i + k < |s| && s[i + k] == p[k]
  {
    assert s[i..i + |p|][k] == p[k];
  }

  lemma AtSlice(s: string, i: nat, p: string)
    requires At(s, i, p)
    ensures i + |p| <= |s| && s[i..i + |p|] == p
  {
  }

  lemma AtAppend(s: string, i: nat, p: string, q: string)
    ensures At(s, i, p + q) <==> At(s, i, p) && At(s, i + |p|, q)
  {
    if At(s, i, p + q) {
      assert s[i..i + |p|] == s[i..i + |p + q|][..|p|] == (p + q)[..|p|] == p;
      assert s[i + |p|..i + |p| + |q|] == s[i..i + |p + q|][|p|..] == (p + q)[|p|..] == q;
    }
    if At(s, i, p) && At(s, i + |p|, q) {
      assert s[i..i + |p + q|] == s[i..i + |p|] + s[i + |p|..i + |p| + |q|];
    }
  }

  lemma {:induction false} SkipSpaceAt(s: string, i: nat, w: string)
    requires At(s, i, w) && Blank(w)
    requires i + |w| < |s| ==> !IsSpace(s[i + |w|])
    ensures SkipSpace(s, i) == i + |w|
    decreases |w|
  {
    if w != "" {
      AtIndex(s, i, w, 0);
      assert At(s, i + 1, w[1..]) by {
        assert w == [w[0]] + w[1..];
        AtAppend(s, i, [w[0]], w[1..]);
      }
      SkipSpaceAt(s, i + 1, w[1..]);
    }
  }

  /** `t` repeats `s[i..j]` at distance `d`. */
  predicate Copied(s: string, i: nat, j: nat, t: string, d: int) {
    && i <= j <= |s| && 0 <= i + d && j + d <= |t|
    && forall k | i <= k < j :: t[k + d] == s[k]
  }

  lemma {:induction false} StringCopied(s: string, i: nat, j: nat, t: string, d: int)
    requires Copied(s, i, j, t, d) && StringTail(s, i) == Some(j)
    ensures StringTail(t, i + d) == Some(j + d)
    decreases j - i
  {
    assert t[i + d] == s[i];
    if s[i] == '"' {
    } else if s[i] != '\\' {
      StringCopied(s, i + 1, j, t, d);
    } else if i + 1 < |s| && IsEscape(s[i + 1]) {
      assert t[i + 1 + d] == s[i + 1];
      StringCopied(s, i + 2, j, t, d);
    } else {
      assert t[i + 1 + d] == s[i + 1];
      forall k | i + 2 <= k < i + 6 ensures t[k + d] == s[k] {}
      assert IsHex4(t, i + d + 2) by {
        forall k | i + d + 2 <= k < i + d + 6 ensures HexValue(t[k]) >= 0 { assert t[k - d + d] == s[k - d]; }
      }
      StringCopied(s, i + 6, j, t, d);
    }
  }

  lemma {:induction false} DigitsCopied(s: string, i: nat, j: nat, t: string, d: int)
    requires Copied(s, i, j, t, d) && j == DigitsEnd(s, i)
    requires j + d < |t| ==> !IsDigit(t[j + d])
    ensures DigitsEnd(t, i + d) == j + d
    decreases j - i
  {
    if i < j {
      assert t[i + d] == s[i];
      DigitsCopied(s, i + 1, j, t, d);
    }
  }

  lemma FractionCopied(s: string, i: nat, j: nat, t: string, d: int)
    requires i <= j && Copied(s, i, j, t, d) && FractionEnd(s, i) == Some(j)
    requires j + d < |t| ==> !IsDigit(t[j + d]) && t[j + d] != '.'
    ensures FractionEnd(t, i + d) == Some(j + d)
  {
    if i < j {
      assert t[i + d] == s[i] && t[i + 1 + d] == s[i + 1];
      DigitsCopied(s, i + 1, j, t, d);
    }
  }

  lemma ExponentCopied(s: string, i: nat, j: nat, t: string, d: int)
    requires i <= j && Copied(s, i, j, t, d) && ExponentEnd(s, i) == Some(j) && Stops(t, j + d)
    ensures ExponentEnd(t, i + d) == Some(j + d)
  {
    if i < j {
      assert t[i + d] == s[i] && t[i + 1 + d] == s[i + 1];
      var q := if s[i + 1] == '+' || s[i + 1] == '-' then i + 2 else i + 1;
      assert t[q + d] == s[q];
      DigitsCopied(s, q, j, t, d);
    }
  }

  lemma CopiedPart(s: string, i: nat, j: nat, t: string, d: int, a: nat, b: nat)
    requires Copied(s, i, j, t, d) && i <= a <= b <= j
    ensures Copied(s, a, b, t, d) && (a < b ==> t[a + d] == s[a])
  {
  }

  lemma NumberParts(s: string, i: nat, j: nat) returns (q: nat, e: nat, f: nat)
    requires i < |s| && NumberEnd(s, i) == Some(j)
    ensures q == (if s[i] == '-' then i + 1 else i) && i <= q < e <= f <= j <= |s|
    ensures IsDigit(s[q]) && e == (if s[q] == '0' then q + 1 else DigitsEnd(s, q))
    ensures FractionEnd(s, e) == Some(f) && ExponentEnd(s, f) == Some(j)
    ensures e < f ==> s[e] == '.'
    ensures f < j ==> s[f] == 'e' || s[f] == 'E'
  {
    q := if s[i] == '-' then i + 1 else i;
    e := if s[q] == '0' then q + 1 else DigitsEnd(s, q);
    f := FractionEnd(s, e).value;
  }

  lemma NumberCopied(s: string, i: nat, j: nat, t: string, d: int)
    requires i < j && Copied(s, i, j, t, d) && NumberEnd(s, i) == Some(j) && Stops(t, j + d)
    ensures NumberEnd(t, i + d) == Some(j + d)
  {
    hide Copied, DigitsEnd, FractionEnd, ExponentEnd;
    var q, e, f := NumberParts(s, i, j);
    CopiedPart(s, i, j, t, d, i, j);
    CopiedPart(s, i, j, t, d, q, j);
    CopiedPart(s, i, j, t, d, e, j);
    CopiedPart(s, i, j, t, d, f, j);
    CopiedPart(s, i, j, t, d, q, e);
    CopiedPart(s, i, j, t, d, e, f);
    if s[q] != '0' { DigitsCopied(s, q, e, t, d); }
    FractionCopied(s, e, f, t, d);
    ExponentCopied(s, f, j, t, d);
  }

  /** Reading a scalar looks at its own text and one character of lookahead. */
  lemma ScalarCopied(s: string, i: nat, j: nat, t: string, d: int)
    requires i <= j && Copied(s, i, j, t, d) && ScalarEnd(s, i) == Some(j) && Stops(t, j + d)
    ensures ScalarEnd(t, i + d) == Some(j + d)
  {
    assert t[i + d] == s[i];
    if s[i] == '"' {
      StringCopied(s, i + 1, j, t, d);
    } else if s[i] == '-' || IsDigit(s[i]) {
      NumberCopied(s, i, j, t, d);
    } else {
      var word := s[i..j];
      assert t[i + d..j + d] == word;
      assert At(t, i + d, word);
      if word == "false" { assert t[i + d] == 'f'; AtIndex(t, i + d, word, 0); }
    }
  }

  lemma ScalarSlice(s: string, i: nat)
    requires i <= |s| && ScalarEnd(s, i).Some?
    ensures IsScalarToken(s[i..ScalarEnd(s, i).value])
  {
    var e := ScalarEnd(s, i).value;
    ScalarCopied(s, i, e, s[i..e], 0 - i);
  }

  lemma StringSlice(s: string, a: nat)
    requires a < |s| && s[a] == '"' && StringTail(s, a + 1).Some?
    ensures IsStringToken(s[a..StringTail(s, a + 1).value])
  {
    var e := StringTail(s, a + 1).value;
    StringCopied(s, a + 1, e, s[a..e], 0 - a);
  }

  lemma StringTokenAt(t: string, i: nat, name: string)
    requires IsStringToken(name) && At(t, i, name)
    ensures t[i] == '"' && StringTail(t, i + 1) == Some(i + |name|)
  {
    forall k | 0 <= k < |name| ensures t[k + i] == name[k] { AtIndex(t, i, name, k); }
    StringCopied(name, 1, |name|, t, i);
  }

  lemma ScalarTokenAt(t: string, i: nat, text: string)
    requires IsScalarToken(text) && At(t, i, text) && Stops(t, i + |text|)
    ensures ScalarEnd(t, i) == Some(i + |text|)
  {
    forall k | 0 <= k < |text| ensures t[k + i] == text[k] { AtIndex(t, i, text, k); }
    ScalarCopied(text, 0, |text|, t, i);
  }
}
