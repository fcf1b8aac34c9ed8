/**
 What a token of frontend source is, by its text alone: comments, quoted text, names, arrows
 and single characters, each as a condition on the characters it spans.
 */
module TokenGrammar {
  import opened Basics
  import opened Tokens

  /** Letters, digits, `_` and `$`, and the five white space characters, by their code points. */
  lemma Characters(c: char)
    ensures var u := c as int;
            && (IsIdentStart(c) <==> 0x41 <= u <= 0x5A || 0x61 <= u <= 0x7A || u in {0x24, 0x5F})
            && (IsIdentPart(c) <==> IsIdentStart(c) || 0x30 <= u <= 0x39)
            && (IsSpace(c) <==> u in {0x9, 0xA, 0xC, 0xD, 0x20})
  {
    assert 'a' as int == 0x61 && 'z' as int == 0x7A && 'A' as int == 0x41 && 'Z' as int == 0x5A;
  }

  // ---------------------------------------------------------------- the alternatives

  /** Inside a literal whose body starts at `from`: a backslash that is not escaped itself stands before. */
  predicate Escaped(s: string, from: nat, k: nat)
    requires k <= |s|
    decreases k
  {
    k > from && s[k - 1] == '\\' && !Escaped(s, from, k - 1)
  }

  predicate Breaks(c: char) { c == '\r' || c == '\n' }

  predicate LineComment(s: string, i: nat, e: nat)
    requires i < e <= |s|
  {
    Starts(s, i, '/', '/') && i + 2 <= e && (forall k | i <= k < e :: !Breaks(s[k])) && (e == |s| || Breaks(s[e]))
  }

  predicate BlockComment(s: string, i: nat, e: nat)
    requires i < e <= |s|
  {
    Starts(s, i, '/', '*') && i + 4 <= e && Starts(s, e - 2, '*', '/') && forall k | i + 2 <= k < e - 2 :: !Starts(s, k, '*', '/')
  }

  /** Text in single or double quotes: the closing quote is the first of its kind that is not escaped. */
  predicate Quoted(s: string, i: nat, e: nat)
    requires i < e <= |s|
  {
    && (s[i] == '\'' || s[i] == '"') && i + 2 <= e && s[e - 1] == s[i] && !Escaped(s, i + 1, e - 1)
    && forall k | i + 1 <= k < e - 1 && s[k] == s[i] :: Escaped(s, i + 1, k)
  }

  predicate Name(s: string, i: nat, e: nat)
    requires i < e <= |s|
  {
    IsIdentStart(s[i]) && (forall k | i <= k < e :: IsIdentPart(s[k])) && (e == |s| || !IsIdentPart(s[e]))
  }

  predicate Arrow(s: string, i: nat, e: nat)
    requires i < e <= |s|
  {
    s[i..e] == "=>"
  }

  /** Nothing longer starts here. */
  ghost predicate Single(s: string, i: nat, e: nat)
    requires i < e <= |s|
  {
    && e == i + 1 && !IsIdentStart(s[i]) && !Starts(s, i, '/', '/') && !Starts(s, i, '=', '>')
    && forall f | i < f <= |s| :: !BlockComment(s, i, f) && !Quoted(s, i, f)
  }

  predicate Comment(s: string, i: nat, e: nat)
    requires i < e <= |s|
  {
    LineComment(s, i, e) || BlockComment(s, i, e)
  }

  ghost predicate TokenAt(s: string, i: nat, e: nat) {
    i < e <= |s| && (Comment(s, i, e) || Quoted(s, i, e) || Name(s, i, e) || Arrow(s, i, e) || Single(s, i, e))
  }

  // ---------------------------------------------------------------- each end is the pattern's

  lemma {:induction false} LineEndIs(s: string, i: nat)
    requires i <= |s|
    ensures var e := LineEnd(s, i); (forall k | i <= k < e :: !Breaks(s[k])) && (e == |s| || Breaks(s[e]))
    decreases |s| - i
  {
    if i < |s| && s[i] != '\r' && s[i] != '\n' { LineEndIs(s, i + 1); }
  }

  lemma {:induction false} CommentEndIs(s: string, i: nat)
    requires i <= |s|
    ensures match CommentEnd(s, i)
            case Some(e) => i + 2 <= e && Starts(s, e - 2, '*', '/') && forall k | i <= k < e - 2 :: !Starts(s, k, '*', '/')
            case None => forall k | i <= k < |s| :: !Starts(s, k, '*', '/')
    decreases |s| - i
  {
    if i + 1 < |s| && !Starts(s, i, '*', '/') { CommentEndIs(s, i + 1); }
  }

  lemma {:induction false} IdentEndIs(s: string, i: nat)
    requires i <= |s|
    ensures var e := IdentEnd(s, i); (forall k | i <= k < e :: IsIdentPart(s[k])) && (e == |s| || !IsIdentPart(s[e]))
    decreases |s| - i
  {
    if i < |s| && IsIdentPart(s[i]) { IdentEndIs(s, i + 1); }
  }

  /** Reading on from a place that is not escaped finds the first quote that is not. */
  lemma {:induction false} QuotedEndIs(s: string, from: nat, i: nat, quote: char)
    requires from <= i <= |s| && !Escaped(s, from, i) && quote != '\\'
    ensures match QuotedEnd(s, i, quote)
            case Some(e) => i < e <= |s| && s[e - 1] == quote && !Escaped(s, from, e - 1) && forall k | i <= k < e - 1 && s[k] == quote :: Escaped(s, from, k)
            case None => forall k | i <= k < |s| && s[k] == quote :: Escaped(s, from, k)
    decreases |s| - i
  {
    if i < |s| && s[i] != quote {
      if s[i] != '\\' {
        QuotedEndIs(s, from, i + 1, quote);
      } else if i + 1 < |s| {
        assert Escaped(s, from, i + 1);
        QuotedEndIs(s, from, i + 2, quote);
      }
    }
  }

  lemma QuotedAt(s: string, i: nat)
    requires i < |s| && (s[i] == '\'' || s[i] == '"')
    ensures match QuotedEnd(s, i + 1, s[i])
            case Some(e) => Quoted(s, i, e)
            case None => forall f | i < f <= |s| :: !Quoted(s, i, f)
  {
    QuotedEndIs(s, i + 1, i + 1, s[i]);
  }

  lemma BlockAt(s: string, i: nat)
    requires i < |s| && Starts(s, i, '/', '*')
    ensures match CommentEnd(s, i + 2)
            case Some(e) => BlockComment(s, i, e)
            case None => forall f | i < f <= |s| :: !BlockComment(s, i, f)
  {
    CommentEndIs(s, i + 2);
  }

  /** The pattern's match is a token. */
  lemma TokenIs(s: string, i: nat)
    requires i < |s|
    ensures TokenAt(s, i, TokenEnd(s, i))
  {
    hide LineEnd, CommentEnd, QuotedEnd, IdentEnd;
    var e := TokenEnd(s, i);
    if Starts(s, i, '/', '/') {
      LineEndIs(s, i + 2);
      assert LineComment(s, i, e);
    } else {
      if Starts(s, i, '/', '*') { BlockAt(s, i); }
      if s[i] == '\'' || s[i] == '"' { QuotedAt(s, i); }
      if IsIdentStart(s[i]) { IdentEndIs(s, i + 1); }
      if Starts(s, i, '=', '>') { assert s[i..i + 2] == "=>"; }
    }
  }

  lemma ArrowStarts(s: string, i: nat, e: nat)
    requires i < e <= |s| && Arrow(s, i, e)
    ensures e == i + 2 && Starts(s, i, '=', '>')
  {
    assert s[i..e][0] == s[i] && s[i..e][1] == s[i + 1];
  }

  lemma QuotedOne(s: string, i: nat, e: nat, f: nat)
    requires i < e <= |s| && i < f <= |s| && Quoted(s, i, e) && Quoted(s, i, f)
    ensures e == f
  {
    hide Escaped;
  }

  lemma BlockOne(s: string, i: nat, e: nat, f: nat)
    requires i < e <= |s| && i < f <= |s| && BlockComment(s, i, e) && BlockComment(s, i, f)
    ensures e == f
  {
    var x, y := e - 2, f - 2;
    assert Starts(s, x, '*', '/') && Starts(s, y, '*', '/');
  }

  /** At most one token starts at a place. */
  lemma TokenOne(s: string, i: nat, e: nat, f: nat)
    requires TokenAt(s, i, e) && TokenAt(s, i, f)
    ensures e == f
  {
    hide Quoted, BlockComment, Arrow;
    if Arrow(s, i, e) { ArrowStarts(s, i, e); }
    if Arrow(s, i, f) { ArrowStarts(s, i, f); }
    if Quoted(s, i, e) { QuotedStarts(s, i, e); }
    if Quoted(s, i, f) { QuotedStarts(s, i, f); }
    if BlockComment(s, i, e) { BlockStarts(s, i, e); }
    if BlockComment(s, i, f) { BlockStarts(s, i, f); }
    if Quoted(s, i, e) && Quoted(s, i, f) { QuotedOne(s, i, e, f); }
    if BlockComment(s, i, e) && BlockComment(s, i, f) { BlockOne(s, i, e, f); }
  }

  lemma QuotedStarts(s: string, i: nat, e: nat)
    requires i < e <= |s| && Quoted(s, i, e)
    ensures s[i] == '\'' || s[i] == '"'
  {
  }

  lemma BlockStarts(s: string, i: nat, e: nat)
    requires i < e <= |s| && BlockComment(s, i, e)
    ensures Starts(s, i, '/', '*')
  {
  }

  /** The token at a place is what the pattern matches there, and nothing else is. */
  lemma TokenExactly(s: string, i: nat, e: nat)
    requires i < |s|
    ensures TokenEnd(s, i) == e <==> TokenAt(s, i, e)
  {
    hide TokenEnd, TokenAt;
    TokenIs(s, i);
    if TokenAt(s, i, e) { TokenOne(s, i, e, TokenEnd(s, i)); }
  }

  /** A token that opens like a comment is one. */
  lemma CommentExactly(s: string, i: nat, e: nat)
    requires TokenAt(s, i, e)
    ensures IsComment(s[i..e]) <==> Comment(s, i, e)
  {
    hide Quoted, Arrow;
    var t := s[i..e];
    assert forall k | 0 <= k < |t| :: t[k] == s[i + k];
    if Arrow(s, i, e) { ArrowStarts(s, i, e); }
    if Quoted(s, i, e) { QuotedStarts(s, i, e); }
  }
}
