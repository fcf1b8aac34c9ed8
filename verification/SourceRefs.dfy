/** The name references of a source text, in terms of the text: which calls count and what does not. */
module SourceRefs {
  import opened Basics
  import opened Tokens
  import opened TokenGrammar
  import opened TokenPlaces
  import opened Literals
  import opened NameRefs

  // ---------------------------------------------------------------- a call among tokens

  /** How many of the tokens between two places have the text. */
  function Times(tokens: seq<Token>, from: nat, end: nat, text: string): nat
    requires from <= end <= |tokens|
  {
    |set k | from <= k < end && tokens[k].text == text|
  }

  lemma TimesNext(tokens: seq<Token>, from: nat, end: nat, text: string)
    requires from <= end < |tokens|
    ensures Times(tokens, from, end + 1, text) == Times(tokens, from, end, text) + if tokens[end].text == text then 1 else 0
  {
    var a := set k | from <= k < end && tokens[k].text == text;
    var b := set k | from <= k < end + 1 && tokens[k].text == text;
    assert b == if tokens[end].text == text then a + {end} else a;
  }

  lemma {:induction false} AnglesCount(tokens: seq<Token>, from: nat, end: nat)
    requires from <= end <= |tokens|
    ensures Angles(tokens, from, end) == Times(tokens, from, end, "<") - Times(tokens, from, end, ">")
    decreases end
  {
    if end > from {
      AnglesCount(tokens, from, end - 1);
      TimesNext(tokens, from, end - 1, "<");
      TimesNext(tokens, from, end - 1, ">");
    }
  }

  /** `arg` is the place behind a helper's type arguments, if it has any: angle brackets are even there and nowhere before. */
  ghost predicate BehindTypes(tokens: seq<Token>, from: nat, arg: nat)
    requires from < |tokens| && arg <= |tokens|
  {
    if tokens[from].text != "<" then arg == from
    else from < arg && Times(tokens, from, arg, "<") == Times(tokens, from, arg, ">")
         && forall k | from < k < arg :: Times(tokens, from, k, "<") != Times(tokens, from, k, ">")
  }

  /** A helper called with a literal as its first argument: what stands at `i` and behind it. */
  ghost predicate CallsWith(tokens: seq<Token>, i: nat, name: string)
    requires i < |tokens|
  {
    && tokens[i].text in {"permissionRef", "resourceRef", "actionRef"}
    && exists arg: nat :: i + 1 <= arg && arg + 2 < |tokens| && BehindTypes(tokens, i + 1, arg) && tokens[arg].text == "("
                          && Literal(tokens[arg + 1].text) == Some(name) && tokens[arg + 2].text in {")", ","}
  }

  lemma {:induction false} SkipTypesIs(tokens: seq<Token>, from: nat, arg: nat)
    requires from <= arg <= |tokens| && forall k | from < k <= arg :: Angles(tokens, from, k) != 0
    ensures var r := SkipTypes(tokens, arg, Angles(tokens, from, arg));
            && arg <= r <= |tokens| && (forall k | from < k < r :: Angles(tokens, from, k) != 0)
            && (r == |tokens| || (arg < r && Angles(tokens, from, r) == 0))
    decreases |tokens| - arg
  {
    if arg < |tokens| && Angles(tokens, from, arg + 1) != 0 { SkipTypesIs(tokens, from, arg + 1); }
  }

  lemma BehindTypesExactly(tokens: seq<Token>, from: nat, arg: nat)
    requires from < |tokens| && arg < |tokens|
    ensures BehindTypes(tokens, from, arg) <==> arg == if tokens[from].text == "<" then SkipTypes(tokens, from, 0) else from
  {
    hide Times, SkipTypes, Angles;
    forall k | from <= k <= |tokens| ensures Angles(tokens, from, k) == Times(tokens, from, k, "<") - Times(tokens, from, k, ">") {
      AnglesCount(tokens, from, k);
    }
    AnglesNone(tokens, from);
    SkipTypesIs(tokens, from, from);
    FirstAngle(tokens, from);
    var r := SkipTypes(tokens, from, 0);
    if tokens[from].text == "<" && BehindTypes(tokens, from, arg) {
      assert Angles(tokens, from, arg) == 0;
      assert r <= arg;
    }
  }

  lemma AnglesNone(tokens: seq<Token>, from: nat)
    requires from <= |tokens|
    ensures Angles(tokens, from, from) == 0
  {
  }

  lemma FirstAngle(tokens: seq<Token>, from: nat)
    requires from < |tokens|
    ensures from < SkipTypes(tokens, from, 0)
  {
  }

  /** The scan finds a reference at a token exactly when that token is a helper called with a literal. */
  lemma RefExactly(tokens: seq<Token>, i: nat, r: Ref)
    requires i < |tokens|
    ensures RefAt(tokens, i) == Some(r) <==> r.helper == tokens[i].text && r.line == tokens[i].line && CallsWith(tokens, i, r.name)
  {
    hide SkipTypes, Literal, BehindTypes;
    if i + 1 < |tokens| {
      var from := i + 1;
      var r := if tokens[from].text == "<" then SkipTypes(tokens, from, 0) else from;
      forall arg: nat | arg < |tokens| ensures BehindTypes(tokens, from, arg) <==> arg == r { BehindTypesExactly(tokens, from, arg); }
    }
  }

  lemma {:induction false} RefsFrom(tokens: seq<Token>, k: nat, r: Ref)
    requires k <= |tokens|
    ensures r in RefsUpTo(tokens, k) <==> exists i: nat :: i < k && RefAt(tokens, i) == Some(r)
    decreases k
  {
    hide RefAt;
    if k > 0 { RefsFrom(tokens, k - 1, r); }
  }

  // ---------------------------------------------------------------- a call in source text

  /** The tokens of a source file, with their lines. */
  function SourceTokens(s: string): seq<Token> { Located(Code(s, 0, false, 0).spots, s, 1) }

  function SourceRefs(s: string): seq<Ref> { RefsUpTo(SourceTokens(s), |SourceTokens(s)|) }

  /** The references of a source are the calls with a literal among its tokens, each on its helper's line. */
  lemma SourceRefsExactly(s: string, r: Ref)
    ensures var tokens := SourceTokens(s);
            r in SourceRefs(s) <==> exists i: nat :: i < |tokens| && tokens[i] == Token(r.helper, r.line) && CallsWith(tokens, i, r.name)
  {
    hide RefAt, RefsUpTo, SourceTokens, CallsWith;
    var tokens := SourceTokens(s);
    RefsFrom(tokens, |tokens|, r);
    forall i: nat | i < |tokens|
      ensures RefAt(tokens, i) == Some(r) <==> tokens[i] == Token(r.helper, r.line) && CallsWith(tokens, i, r.name) {
      RefExactly(tokens, i, r);
    }
  }

  predicate Stands(s: string, p: nat, text: string) { p + |text| <= |s| && s[p..p + |text|] == text }

  /** A token's text at a place that reading comes to is read, and reading comes behind it. */
  lemma StepOver(s: string, p: nat, text: string)
    requires text != "" && Stands(s, p, text) && TokenAt(s, p, p + |text|) && !IsComment(text) && !IsSpace(text[0]) && text[0] != '`'
    ensures Code(s, p, false, 0).spots == [Spot(text, p)] + Code(s, p + |text|, false, 0).spots
  {
    hide Code, TokenAt, IsComment, Comment;
    assert s[p] == s[p..p + |text|][0];
    CommentExactly(s, p, p + |text|);
    TokenCode(s, p, false, 0, p + |text|);
  }

  lemma PartStands(s: string, p: nat, a: string, b: string)
    requires Stands(s, p, a + b)
    ensures Stands(s, p, a) && Stands(s, p + |a|, b)
  {
    var t := s[p..p + |a + b|];
    assert t[..|a|] == a && t[|a|..] == b;
    assert s[p..p + |a|] == t[..|a|] && s[p + |a|..p + |a| + |b|] == t[|a|..];
  }

  lemma NameToken(s: string, p: nat, h: string)
    requires IsHelper(h) && Stands(s, p, h) && p + |h| < |s| && s[p + |h|] == '('
    ensures TokenAt(s, p, p + |h|) && !IsComment(h) && h != "" && !IsSpace(h[0]) && h[0] != '`'
  {
    assert forall k | 0 <= k < |h| :: IsIdentPart(h[k]);
    assert forall k | 0 <= k < |h| :: s[p + k] == s[p..p + |h|][k] == h[k];
    assert Name(s, p, p + |h|);
  }

  lemma CharToken(s: string, p: nat, c: char)
    requires p < |s| && s[p] == c && (c == '(' || c == ')' || c == ',')
    ensures Stands(s, p, [c]) && TokenAt(s, p, p + 1)
  {
    hide Escaped;
    assert Single(s, p, p + 1);
  }

  /** Quoted text is one token wherever it stands. */
  lemma QuotedStands(s: string, p: nat, lit: string)
    requires |lit| >= 2 && Quoted(lit, 0, |lit|) && Stands(s, p, lit)
    ensures Quoted(s, p, p + |lit|) && TokenAt(s, p, p + |lit|)
  {
    var e := p + |lit|;
    assert forall k | 0 <= k < |lit| :: s[p + k] == s[p..e][k] == lit[k];
    forall k: nat | 1 <= k < |lit| ensures Escaped(s, p + 1, p + k) <==> Escaped(lit, 1, k) { EscapedShift(s, p, lit, k); }
    forall k: nat | p + 1 <= k < e - 1 && s[k] == s[p] ensures Escaped(s, p + 1, k) { assert lit[k - p] == s[k]; }
  }

  lemma {:induction false} EscapedShift(s: string, p: nat, lit: string, k: nat)
    requires p + |lit| <= |s| && 1 <= k <= |lit| && forall j | 0 <= j < |lit| :: s[p + j] == lit[j]
    ensures Escaped(s, p + 1, p + k) <==> Escaped(lit, 1, k)
    decreases k
  {
    if k > 1 { EscapedShift(s, p, lit, k - 1); }
  }

  function CallText(h: string, lit: string, close: char): string { h + ("(" + (lit + [close])) }

  lemma CallStands(s: string, p: nat, h: string, lit: string, close: char)
    requires Stands(s, p, CallText(h, lit, close))
    ensures var a, b := p + |h|, p + |h| + 1 + |lit|;
            && Stands(s, p, h) && Stands(s, a, "(") && Stands(s, a + 1, lit) && Stands(s, b, [close])
            && b < |s| && s[a] == '(' && s[b] == close
  {
    var a, b := p + |h|, p + |h| + 1 + |lit|;
    PartStands(s, p, h, "(" + (lit + [close]));
    PartStands(s, a, "(", lit + [close]);
    PartStands(s, a + 1, lit, [close]);
    assert s[a] == s[a..a + 1][0] && s[b] == s[b..b + 1][0];
  }

  lemma CallSpots(s: string, p: nat, h: string, lit: string, close: char)
    requires IsHelper(h) && |lit| >= 2 && Quoted(lit, 0, |lit|) && (close == ')' || close == ',')
    requires Stands(s, p, CallText(h, lit, close))
    ensures var a, b := p + |h|, p + |h| + 1 + |lit|;
            && b < |s|
            && Code(s, p, false, 0).spots == [Spot(h, p)] + ([Spot("(", a)] + ([Spot(lit, a + 1)] + ([Spot([close], b)] + Code(s, b + 1, false, 0).spots)))
  {
    hide Code, TokenAt, Quoted, IsComment, Stands, IsHelper, CallText;
    var a, b := p + |h|, p + |h| + 1 + |lit|;
    CallStands(s, p, h, lit, close);
    NameToken(s, p, h);
    StepOver(s, p, h);
    CharToken(s, a, '(');
    NoComments();
    StepOver(s, a, "(");
    QuotedStands(s, a + 1, lit);
    QuotedNoComment(lit);
    StepOver(s, a + 1, lit);
    CharToken(s, b, close);
    StepOver(s, b, [close]);
  }

  lemma NoComments()
    ensures !IsComment("(") && !IsComment(")") && !IsComment(",")
  {
  }

  lemma QuotedNoComment(lit: string)
    requires |lit| >= 2 && Quoted(lit, 0, |lit|)
    ensures !IsComment(lit) && (lit[0] == '\'' || lit[0] == '"')
  {
  }

  lemma FourTokens(before: seq<Spot>, a: Spot, b: Spot, c: Spot, d: Spot, rest: seq<Spot>)
    ensures var spots, i := before + ([a] + ([b] + ([c] + ([d] + rest)))), |before|;
            |spots| > i + 3 && spots[i] == a && spots[i + 1] == b && spots[i + 2] == c && spots[i + 3] == d
  {
  }

  /** The call's four tokens, among those of the source. */
  lemma CallTokens(s: string, p: nat, h: string, lit: string, close: char) returns (i: nat)
    requires IsHelper(h) && |lit| >= 2 && Quoted(lit, 0, |lit|) && (close == ')' || close == ',')
    requires Stands(s, p, CallText(h, lit, close)) && Reach(s, 0, false, 0, p, 0)
    ensures var tokens := SourceTokens(s);
            && p <= |s| && i + 3 < |tokens| && tokens[i] == Token(h, 1 + Newlines(s[..p])) && tokens[i + 1].text == "("
            && tokens[i + 2].text == lit && tokens[i + 3].text == [close]
  {
    hide Code, Quoted, Newlines, Reach, Stands, IsHelper, CallText;
    var before := ReachSplits(s, 0, false, 0, p, 0);
    CallSpots(s, p, h, lit, close);
    var a, b := p + |h|, p + |h| + 1 + |lit|;
    i := |before|;
    FourTokens(before, Spot(h, p), Spot("(", a), Spot(lit, a + 1), Spot([close], b), Code(s, b + 1, false, 0).spots);
  }

  lemma CallAmong(tokens: seq<Token>, i: nat, lit: string, close: char, name: string)
    requires i + 3 < |tokens| && IsHelper(tokens[i].text) && tokens[i + 1].text == "("
    requires tokens[i + 2].text == lit && tokens[i + 3].text == [close] && (close == ')' || close == ',') && Literal(lit) == Some(name)
    ensures CallsWith(tokens, i, name)
  {
    hide Literal, Times;
    assert "("[0] != "<"[0];
    var arg := i + 1;
    assert BehindTypes(tokens, i + 1, arg);
  }

  /**
   In source text: wherever reading comes to a helper called with a literal in either kind
   of quotes, the reference is found under the literal's text, on the line of the call.
   */
  lemma SourceCallFound(s: string, p: nat, h: string, lit: string, close: char, name: string)
    requires IsHelper(h) && |lit| >= 2 && Quoted(lit, 0, |lit|) && (close == ')' || close == ',')
    requires Stands(s, p, CallText(h, lit, close)) && Literal(lit) == Some(name) && Reach(s, 0, false, 0, p, 0)
    ensures Ref(h, name, 1 + Newlines(s[..p])) in SourceRefs(s)
  {
    hide Quoted, Newlines, Reach, RefsUpTo, Literal, Stands, SourceTokens, CallText, CallsWith, SourceRefs, IsHelper;
    var i := CallTokens(s, p, h, lit, close);
    CallAmong(SourceTokens(s), i, lit, close, name);
    var r := Ref(h, name, 1 + Newlines(s[..p]));
    assert SourceTokens(s)[i] == Token(r.helper, r.line);
    SourceRefsExactly(s, r);
  }

  /** A name without quotes of its kind and without backslashes, in quotes, is quoted text that reads as the name. */
  lemma PlainQuoted(name: string, quote: char)
    requires (quote == '\'' || quote == '"') && quote !in name && '\\' !in name
    ensures var lit := [quote] + name + [quote]; Quoted(lit, 0, |lit|) && Literal(lit) == Some(name)
  {
    var lit := [quote] + name + [quote];
    assert forall k | 1 <= k < |lit| - 1 :: lit[k] == name[k - 1];
    assert lit[1..|lit| - 1] == name;
    PlainReads(name);
    hide Unescape;
    assert !Escaped(lit, 1, |lit| - 1);
  }

  lemma {:induction false} PlainReads(name: string)
    requires '\\' !in name
    ensures Unescape(name) == Some(name)
    decreases |name|
  {
    if name != "" {
      assert name == [name[0]] + name[1..];
      PlainReads(name[1..]);
    }
  }

  /** In particular a helper called with a printed literal is found under exactly the printed name. */
  lemma PrintedQuoted(name: string)
    ensures var lit := Quote(name); |lit| >= 2 && Quoted(lit, 0, |lit|) && Literal(lit) == Some(name)
  {
    hide Quote, TokenEnd, Literal, TokenAt, Quoted;
    var lit := Quote(name);
    QuoteReads(name);
    QuoteShape(name);
    QuoteIsToken(name, "");
    assert lit + "" == lit;
    TokenExactly(lit, 0, |lit|);
    QuoteNoOther(lit);
  }

  lemma QuoteNoOther(lit: string)
    requires TokenAt(lit, 0, |lit|) && lit[0] == '\'' && |lit| >= 2
    ensures Quoted(lit, 0, |lit|)
  {
    hide Quoted;
    if Arrow(lit, 0, |lit|) { ArrowStarts(lit, 0, |lit|); }
  }

  // ---------------------------------------------------------------- what is no call

  /** No token starts inside quoted text or a comment that reading comes to. */
  lemma NothingInside(s: string, p: nat, e: nat, i: nat)
    requires Reach(s, 0, false, 0, p, 0) && p < e <= |s| && (Quoted(s, p, e) || Comment(s, p, e)) && i < |Code(s, 0, false, 0).spots|
    ensures var x := Code(s, 0, false, 0).spots[i];
            x.at + |x.text| <= p || IsMark(s, x) || e <= x.at || (x == Spot(s[p..e], p) && Quoted(s, p, e))
    ensures var x := Code(s, 0, false, 0).spots[i]; x.at < p || e <= x.at || (x == Spot(s[p..e], p) && Quoted(s, p, e))
  {
    hide Code, Reach, Quoted, Comment, TokenAt, IsMark;
    var before := ReachSplits(s, 0, false, 0, p, 0);
    var spots := Code(s, 0, false, 0).spots;
    QuotedOpens(s, p, e);
    TokenCode(s, p, false, 0, e);
    CodeOrdered(s, e, false, 0);
    var one, rest := if Comment(s, p, e) then [] else [Spot(s[p..e], p)], Code(s, e, false, 0).spots;
    assert spots == before + (one + rest);
    if i < |before| { assert spots[i] == before[i]; }
    else if i < |before| + |one| { assert spots[i] == one[0]; }
    else { assert spots[i] == rest[i - |before| - |one|]; }
  }

  lemma QuotedOpens(s: string, p: nat, e: nat)
    requires p < e <= |s| && (Quoted(s, p, e) || Comment(s, p, e))
    ensures TokenAt(s, p, e) && !IsSpace(s[p]) && s[p] != '`' && GoesOn(s[p..e], false, 0) && DepthAfter(s[p..e], false, 0) == 0
  {
    hide Escaped;
  }

  /** Helper text inside a string or a comment is no call: no reference comes from a token in there. */
  lemma InsideSilent(s: string, p: nat, e: nat, i: nat)
    requires Reach(s, 0, false, 0, p, 0) && p < e <= |s| && (Quoted(s, p, e) || Comment(s, p, e))
    requires i < |Code(s, 0, false, 0).spots| && p <= Code(s, 0, false, 0).spots[i].at < e
    ensures i < |SourceTokens(s)| && RefAt(SourceTokens(s), i).None?
  {
    hide Code, Reach, Comment, RefAt;
    var tokens, x := SourceTokens(s), Code(s, 0, false, 0).spots[i];
    NothingInside(s, p, e, i);
    assert x == Spot(s[p..e], p);
    assert x.text[0] == s[p] && (s[p] == '\'' || s[p] == '"');
    assert tokens[i].text == x.text;
    NoHelper(tokens, i);
  }

  lemma NoHelper(tokens: seq<Token>, i: nat)
    requires i < |tokens| && tokens[i].text != "" && (tokens[i].text[0] == '\'' || tokens[i].text[0] == '"')
    ensures RefAt(tokens, i).None?
  {
    hide SkipTypes, Literal;
  }

  lemma {:induction false} NoRefs(tokens: seq<Token>, k: nat)
    requires k <= |tokens| && forall i: nat | i < k :: RefAt(tokens, i).None?
    ensures RefsUpTo(tokens, k) == []
    decreases k
  {
    hide RefAt;
    if k > 0 { NoRefs(tokens, k - 1); }
  }

  /** A source that is one string or one comment makes no reference, whatever it says. */
  lemma AloneSilent(s: string)
    requires s != "" && (Quoted(s, 0, |s|) || Comment(s, 0, |s|))
    ensures SourceRefs(s) == []
  {
    hide Code, Quoted, Comment, RefAt, RefsUpTo, TokenAt;
    assert Reach(s, 0, false, 0, 0, 0);
    hide Reach;
    var tokens := SourceTokens(s);
    CodeOrdered(s, 0, false, 0);
    forall i: nat | i < |tokens| ensures RefAt(tokens, i).None? {
      assert Placed(s, Code(s, 0, false, 0).spots[i]);
      InsideSilent(s, 0, |s|, i);
    }
    NoRefs(tokens, |tokens|);
  }
}
