/**
 Which tokens a source text has: the places that reading comes to, one token or blank after
 the other, and the token that stands at each of them.
 */
module TokenPlaces {
  import opened Tokens
  import opened TokenGrammar
  import opened NameRefs

  // ---------------------------------------------------------------- where reading comes

  /** Inside an interpolation, the closing brace at depth zero ends the reading. */
  predicate GoesOn(text: string, inner: bool, depth: nat) { !(inner && depth == 0 && text == "}") }

  function DepthAfter(text: string, inner: bool, depth: nat): nat {
    if inner && text == "{" then depth + 1 else if inner && text == "}" && depth > 0 then depth - 1 else depth
  }

  /** Reading code from `from` comes to `p` with `d` braces open: over blanks, whole templates and whole tokens. */
  ghost predicate Reach(s: string, from: nat, inner: bool, depth: nat, p: nat, d: nat)
    requires from <= |s|
    decreases |s| - from
  {
    || (p == from && d == depth)
    || (from < |s| && IsSpace(s[from]) && Reach(s, from + 1, inner, depth, p, d))
    || (from < |s| && s[from] == '`' && Reach(s, from + TemplateAt(s[from..]).end, inner, depth, p, d))
    || (from < |s| && !IsSpace(s[from]) && s[from] != '`'
        && exists e: nat :: TokenAt(s, from, e) && GoesOn(s[from..e], inner, depth) && Reach(s, e, inner, DepthAfter(s[from..e], inner, depth), p, d))
  }

  /** What stands at a place that reading comes to. */
  ghost predicate Yields(s: string, inner: bool, p: nat, d: nat, x: Spot) {
    p < |s| && !IsSpace(s[p])
    && if s[p] == '`' then x in Shift(TemplateAt(s[p..]).spots, p)
       else exists e: nat :: TokenAt(s, p, e) && !Comment(s, p, e) && GoesOn(s[p..e], inner, d) && x == Spot(s[p..e], p)
  }

  ghost predicate Comes(s: string, from: nat, inner: bool, depth: nat, x: Spot)
    requires from <= |s|
  {
    exists p: nat, d: nat :: Reach(s, from, inner, depth, p, d) && Yields(s, inner, p, d, x)
  }

  // ---------------------------------------------------------------- one step

  lemma BlankStep(s: string, from: nat, inner: bool, depth: nat)
    requires from < |s| && IsSpace(s[from])
    ensures forall p: nat, d: nat :: Reach(s, from, inner, depth, p, d) <==> (p == from && d == depth) || Reach(s, from + 1, inner, depth, p, d)
    ensures Code(s, from, inner, depth).spots == Code(s, from + 1, inner, depth).spots
    ensures Code(s, from, inner, depth).closed == Code(s, from + 1, inner, depth).closed
    ensures forall x :: !Yields(s, inner, from, depth, x)
  {
    hide TokenEnd, TokenAt, TemplateAt, IsComment, Shift, Comment;
    assert SkipSpace(s, from) == SkipSpace(s, from + 1);
  }

  lemma TemplateReach(s: string, from: nat, inner: bool, depth: nat)
    requires from < |s| && s[from] == '`'
    ensures var t := TemplateAt(s[from..]);
            && (forall p: nat, d: nat :: Reach(s, from, inner, depth, p, d) <==> (p == from && d == depth) || Reach(s, from + t.end, inner, depth, p, d))
            && Code(s, from, inner, depth) == Prepend(Shift(t.spots, from), Code(s, from + t.end, inner, depth))
            && forall x :: Yields(s, inner, from, depth, x) <==> x in Shift(t.spots, from)
  {
    hide TokenEnd, TokenAt, TemplateAt, IsComment, Shift, Comment, Code;
    assert SkipSpace(s, from) == from;
    CodeTemplate(s, from, inner, depth);
  }

  lemma TokenReach(s: string, from: nat, inner: bool, depth: nat, e: nat)
    requires from < |s| && !IsSpace(s[from]) && s[from] != '`' && TokenAt(s, from, e)
    ensures forall p: nat, d: nat :: Reach(s, from, inner, depth, p, d)
                           <==> (p == from && d == depth)
                                || (GoesOn(s[from..e], inner, depth) && Reach(s, e, inner, DepthAfter(s[from..e], inner, depth), p, d))
    ensures forall x :: Yields(s, inner, from, depth, x) <==> !Comment(s, from, e) && GoesOn(s[from..e], inner, depth) && x == Spot(s[from..e], from)
  {
    hide TokenAt, TemplateAt, Shift, Comment, GoesOn, DepthAfter;
    forall f: nat | TokenAt(s, from, f) ensures f == e { TokenOne(s, from, e, f); }
  }

  lemma TokenCode(s: string, from: nat, inner: bool, depth: nat, e: nat)
    requires from < |s| && !IsSpace(s[from]) && s[from] != '`' && TokenAt(s, from, e)
    ensures var token := s[from..e];
            Code(s, from, inner, depth)
            == if !GoesOn(token, inner, depth) then Lexed([], e, true)
               else Prepend(if Comment(s, from, e) then [] else [Spot(token, from)], Code(s, e, inner, DepthAfter(token, inner, depth)))
  {
    hide TokenAt, TokenEnd, Comment, Code, IsComment;
    assert SkipSpace(s, from) == from;
    TokenExactly(s, from, e);
    CommentExactly(s, from, e);
    CommentIsNoBrace(s[from..e]);
    CodeToken(s, from, inner, depth);
  }

  lemma CommentIsNoBrace(text: string)
    ensures IsComment(text) ==> text != "{" && text != "}"
  {
  }

  // ---------------------------------------------------------------- the tokens

  /** After one step, what comes is what stands here or what comes later. */
  lemma ComesStep(s: string, from: nat, inner: bool, depth: nat, next: nat, after: nat, x: Spot)
    requires from <= |s| && next <= |s|
    requires forall p: nat, d: nat :: Reach(s, from, inner, depth, p, d) <==> (p == from && d == depth) || Reach(s, next, inner, after, p, d)
    ensures Comes(s, from, inner, depth, x) <==> Yields(s, inner, from, depth, x) || Comes(s, next, inner, after, x)
  {
    hide Reach, Yields;
    if Comes(s, next, inner, after, x) {
      var p: nat, d: nat :| Reach(s, next, inner, after, p, d) && Yields(s, inner, p, d, x);
      assert Reach(s, from, inner, depth, p, d);
    }
  }

  /** The tokens of code are exactly those that stand where reading comes. */
  lemma {:induction false} SpotsExactly(s: string, from: nat, inner: bool, depth: nat, x: Spot)
    requires from <= |s|
    ensures x in Code(s, from, inner, depth).spots <==> Comes(s, from, inner, depth, x)
    decreases |s| - from
  {
    hide Code, Reach, Yields, TemplateAt, Shift, TokenAt, Comment, GoesOn, DepthAfter, Comes;
    if from == |s| {
      NothingComes(s, inner, depth, x);
    } else if IsSpace(s[from]) {
      BlankStep(s, from, inner, depth);
      SpotsExactly(s, from + 1, inner, depth, x);
      ComesStep(s, from, inner, depth, from + 1, depth, x);
    } else if s[from] == '`' {
      var t := TemplateAt(s[from..]);
      TemplateReach(s, from, inner, depth);
      SpotsExactly(s, from + t.end, inner, depth, x);
      ComesStep(s, from, inner, depth, from + t.end, depth, x);
    } else {
      TokenIs(s, from);
      var e := TokenEnd(s, from);
      TokenReach(s, from, inner, depth, e);
      TokenCode(s, from, inner, depth, e);
      if GoesOn(s[from..e], inner, depth) {
        var after := DepthAfter(s[from..e], inner, depth);
        SpotsExactly(s, e, inner, after, x);
        ComesStep(s, from, inner, depth, e, after, x);
      } else {
        NoneComes(s, from, inner, depth, x);
      }
    }
  }

  lemma NothingComes(s: string, inner: bool, depth: nat, x: Spot)
    ensures !Comes(s, |s|, inner, depth, x) && Code(s, |s|, inner, depth).spots == []
  {
  }

  lemma NoneComes(s: string, from: nat, inner: bool, depth: nat, x: Spot)
    requires from <= |s| && !Yields(s, inner, from, depth, x)
    requires forall p: nat, d: nat :: Reach(s, from, inner, depth, p, d) <==> p == from && d == depth
    ensures !Comes(s, from, inner, depth, x)
  {
    hide Reach, Yields;
  }

  /** Reading up to a place gives the tokens before it and then those behind it. */
  lemma {:induction false} ReachSplits(s: string, from: nat, inner: bool, depth: nat, p: nat, d: nat) returns (before: seq<Spot>)
    requires from <= |s| && Reach(s, from, inner, depth, p, d)
    ensures from <= p <= |s| && Ordered(s, before, from, p)
    ensures Code(s, from, inner, depth).spots == before + Code(s, p, inner, d).spots
    decreases |s| - from
  {
    hide Code, TemplateAt, Shift, TokenAt, Comment, GoesOn, DepthAfter, Ordered, Reach;
    if p == from && d == depth {
      before := [];
      OrderedNone(s, from, from);
      assert [] + Code(s, from, inner, depth).spots == Code(s, from, inner, depth).spots;
    } else {
      ReachStarts(s, from, inner, depth, p, d);
      if IsSpace(s[from]) {
        BlankStep(s, from, inner, depth);
        before := ReachSplits(s, from + 1, inner, depth, p, d);
        OrderedFrom(s, before, from, from + 1, p);
      } else if s[from] == '`' {
        var t := TemplateAt(s[from..]);
        TemplateReach(s, from, inner, depth);
        var more := ReachSplits(s, from + t.end, inner, depth, p, d);
        TemplateOrdered(s[from..]);
        OrderedShift(s, t.spots, from, t.end);
        OrderedAppend(s, Shift(t.spots, from), more, from, from + t.end, p);
        before := Shift(t.spots, from) + more;
        assert Shift(t.spots, from) + (more + Code(s, p, inner, d).spots) == before + Code(s, p, inner, d).spots;
      } else {
        TokenIs(s, from);
        var e := TokenEnd(s, from);
        TokenReach(s, from, inner, depth, e);
        TokenCode(s, from, inner, depth, e);
        var more := ReachSplits(s, e, inner, DepthAfter(s[from..e], inner, depth), p, d);
        var one := if Comment(s, from, e) then [] else [Spot(s[from..e], from)];
        OrderedOne(s, from, e);
        OrderedNone(s, from, e);
        OrderedAppend(s, one, more, from, e, p);
        before := one + more;
        assert one + (more + Code(s, p, inner, d).spots) == before + Code(s, p, inner, d).spots;
      }
    }
  }

  lemma ReachStarts(s: string, from: nat, inner: bool, depth: nat, p: nat, d: nat)
    requires from <= |s| && Reach(s, from, inner, depth, p, d) && !(p == from && d == depth)
    ensures from < |s|
  {
  }

  // ---------------------------------------------------------------- where an interpolation ends

  /** Reading ends at the closing brace it comes to with no brace open, and only there. */
  lemma {:induction false} ClosesExactly(s: string, from: nat, inner: bool, depth: nat, p: nat)
    requires from <= |s|
    ensures var r := Code(s, from, inner, depth);
            r.closed && r.end == p + 1 <==> inner && Reach(s, from, inner, depth, p, 0) && p < |s| && s[p] == '}'
    decreases |s| - from
  {
    hide Code, Reach, TemplateAt, Shift, TokenAt, Comment, GoesOn, DepthAfter;
    if from == |s| {
      NothingCloses(s, inner, depth, p);
    } else if IsSpace(s[from]) {
      BlankStep(s, from, inner, depth);
      BlankEnd(s, from, inner, depth);
      ClosesExactly(s, from + 1, inner, depth, p);
    } else if s[from] == '`' {
      TemplateReach(s, from, inner, depth);
      ClosesExactly(s, from + TemplateAt(s[from..]).end, inner, depth, p);
    } else {
      TokenIs(s, from);
      var e := TokenEnd(s, from);
      TokenReach(s, from, inner, depth, e);
      TokenCode(s, from, inner, depth, e);
      BraceToken(s, from, e);
      StopsHere(s[from..e], inner, depth);
      if GoesOn(s[from..e], inner, depth) {
        ClosesExactly(s, e, inner, DepthAfter(s[from..e], inner, depth), p);
        ReachBehind(s, e, inner, DepthAfter(s[from..e], inner, depth));
      }
    }
  }

  lemma NothingCloses(s: string, inner: bool, depth: nat, p: nat)
    ensures !Code(s, |s|, inner, depth).closed && !(Reach(s, |s|, inner, depth, p, 0) && p < |s|)
  {
  }

  lemma BlankEnd(s: string, from: nat, inner: bool, depth: nat)
    requires from < |s| && IsSpace(s[from])
    ensures Code(s, from, inner, depth).closed ==> Code(s, from, inner, depth) == Code(s, from + 1, inner, depth)
    ensures Code(s, from + 1, inner, depth).closed ==> Code(s, from, inner, depth).closed
  {
    hide TokenEnd, TemplateAt, IsComment, Shift;
    assert SkipSpace(s, from) == SkipSpace(s, from + 1);
  }

  lemma StopsHere(text: string, inner: bool, depth: nat)
    ensures !GoesOn(text, inner, depth) <==> inner && depth == 0 && text == "}"
  {
  }

  lemma BraceToken(s: string, i: nat, e: nat)
    requires TokenAt(s, i, e)
    ensures s[i..e] == "}" <==> s[i] == '}'
  {
    hide Escaped;
    if Arrow(s, i, e) { ArrowStarts(s, i, e); }
    assert s[i..e][0] == s[i];
    if s[i] == '}' { assert e == i + 1; }
  }

  /** Reading never goes back. */
  lemma {:induction false} ReachBehind(s: string, from: nat, inner: bool, depth: nat)
    requires from <= |s|
    ensures forall p: nat, d: nat | Reach(s, from, inner, depth, p, d) :: from <= p
  {
    hide Reach;
    forall p: nat, d: nat | Reach(s, from, inner, depth, p, d) ensures from <= p {
      var _ := ReachSplits(s, from, inner, depth, p, d);
    }
  }

  // ---------------------------------------------------------------- the text of a template

  /** An unescaped backtick or interpolation in template text that starts at `from`. */
  predicate Stops(s: string, from: nat, k: nat)
    requires k < |s|
  {
    !Escaped(s, from, k) && (s[k] == '`' || Starts(s, k, '$', '{'))
  }

  /** The rest of a template from the first place where its text stops. */
  function FromStop(s: string, k: nat): Template
    requires k <= |s|
  {
    if k == |s| then Template([], |s|, false, false)
    else if s[k] == '`' then Template([], k + 1, false, true)
    else if k + 2 <= |s| then
      var code := Code(s[k + 2..], 0, true, 0);
      var rest := TemplateRest(s, k + 2 + code.end);
      Template(Shift(code.spots, k + 2) + rest.spots, rest.end, true, rest.closed)
    else Template([], |s|, false, false)
  }

  lemma {:induction false} TemplateText(s: string, from: nat, i: nat, k: nat)
    requires from <= i <= k <= |s| && !Escaped(s, from, i)
    requires (forall j | i <= j < k :: !Stops(s, from, j)) && (k < |s| ==> Stops(s, from, k))
    ensures TemplateRest(s, i) == FromStop(s, k)
    decreases k - i
  {
    hide Code, Shift, TemplateRest;
    if i == |s| {
      TemplateStop(s);
    } else {
      TemplateStep(s, i);
      if i < k {
        assert !Stops(s, from, i);
        if s[i] == '\\' {
          assert Escaped(s, from, i + 1);
          if i + 1 < |s| { TemplateText(s, from, i + 2, k); } else { TemplateStop(s); }
        } else {
          TemplateText(s, from, i + 1, k);
        }
      }
    }
  }

  /** A template without interpolations is one token: up to the first backtick that is not escaped. */
  lemma StaticTemplate(s: string, e: nat)
    requires 2 <= e <= |s| && s[0] == '`' && s[e - 1] == '`' && !Escaped(s, 1, e - 1)
    requires forall j | 1 <= j < e - 1 :: !Stops(s, 1, j)
    ensures TemplateAt(s) == Lexed([Spot(s[..e], 0)], e, true)
  {
    hide TemplateRest;
    TemplateText(s, 1, 1, e - 1);
  }
}
