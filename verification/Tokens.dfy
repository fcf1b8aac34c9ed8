/**
 The tokens of frontend source text, by position: the token pattern as an ordered choice,
 and the two mutually recursive readings, of code and of template literals.
 */
module Tokens {
  import opened Basics

  // ---------------------------------------------------------------- the token pattern

  predicate IsSpace(c: char) {
    c == ' ' || c == '\t' || c == '\n' || c == '\r' || c == '\U{C}'
  }

  predicate IsIdentStart(c: char) {
    'a' <= c <= 'z' || 'A' <= c <= 'Z' || c == '_' || c == '$'
  }

  predicate IsIdentPart(c: char) {
    IsIdentStart(c) || '0' <= c <= '9'
  }

  function SkipSpace(s: string, i: nat): (j: nat)
    requires i <= |s|
    ensures i <= j <= |s|
    ensures forall k | i <= k < j :: IsSpace(s[k])
    ensures j < |s| ==> !IsSpace(s[j])
    decreases |s| - i
  {
    if i < |s| && IsSpace(s[i]) then SkipSpace(s, i + 1) else i
  }

  function LineEnd(s: string, i: nat): (j: nat)
    requires i <= |s|
    ensures i <= j <= |s|
    decreases |s| - i
  {
    if i < |s| && s[i] != '\r' && s[i] != '\n' then LineEnd(s, i + 1) else i
  }

  function CommentEnd(s: string, i: nat): (r: Option<nat>)
    requires i <= |s|
    ensures r.Some? ==> i < r.value <= |s|
    decreases |s| - i
  {
    if i + 1 >= |s| then None
    else if s[i] == '*' && s[i + 1] == '/' then Some(i + 2)
    else CommentEnd(s, i + 1)
  }

  function QuotedEnd(s: string, i: nat, quote: char): (r: Option<nat>)
    requires i <= |s|
    ensures r.Some? ==> i < r.value <= |s|
    decreases |s| - i
  {
    if i == |s| then None
    else if s[i] == quote then Some(i + 1)
    else if s[i] != '\\' then QuotedEnd(s, i + 1, quote)
    else if i + 1 < |s| then QuotedEnd(s, i + 2, quote)
    else None
  }

  function IdentEnd(s: string, i: nat): (j: nat)
    requires i <= |s|
    ensures i <= j <= |s|
    decreases |s| - i
  {
    if i < |s| && IsIdentPart(s[i]) then IdentEnd(s, i + 1) else i
  }

  predicate Starts(s: string, i: nat, first: char, second: char) {
    i + 1 < |s| && s[i] == first && s[i + 1] == second
  }

  /** Where the token that starts at `i` ends: the first alternative of the pattern that matches. */
  function TokenEnd(s: string, i: nat): (j: nat)
    requires i < |s|
    ensures i < j <= |s|
  {
    if Starts(s, i, '/', '/') then LineEnd(s, i + 2)
    else if Starts(s, i, '/', '*') && CommentEnd(s, i + 2).Some? then CommentEnd(s, i + 2).value
    else if (s[i] == '\'' || s[i] == '"') && QuotedEnd(s, i + 1, s[i]).Some? then QuotedEnd(s, i + 1, s[i]).value
    else if IsIdentStart(s[i]) then IdentEnd(s, i + 1)
    else if Starts(s, i, '=', '>') then i + 2
    else i + 1
  }

  predicate IsComment(text: string) {
    Starts(text, 0, '/', '/') || Starts(text, 0, '/', '*')
  }

  // ---------------------------------------------------------------- code and templates

  /** A token's text and where it starts. */
  datatype Spot = Spot(text: string, at: nat)

  /** The tokens read, how far, and whether reading stopped at an unmatched closing brace. */
  datatype Lexed = Lexed(spots: seq<Spot>, end: nat, closed: bool)

  /** The tokens of a template's interpolations, and whether its closing backtick was found. */
  datatype Template = Template(spots: seq<Spot>, end: nat, dynamic: bool, closed: bool)

  function Shift(spots: seq<Spot>, off: nat): (r: seq<Spot>)
    ensures |r| == |spots| && forall i | 0 <= i < |r| :: r[i] == Spot(spots[i].text, spots[i].at + off)
  {
    seq(|spots|, i requires 0 <= i < |spots| => Spot(spots[i].text, spots[i].at + off))
  }

  function Prepend(spots: seq<Spot>, rest: Lexed): Lexed {
    rest.(spots := spots + rest.spots)
  }

  /** Code from `from` on; inside an interpolation `depth` braces are open. */
  function Code(s: string, from: nat, interpolation: bool, depth: nat): (r: Lexed)
    requires from <= |s|
    ensures from <= r.end <= |s|
    decreases |s| - from, 2
  {
    var start := SkipSpace(s, from);
    if start == |s| then Lexed([], from, false)
    else if s[start] == '`' then
      var t := TemplateAt(s[start..]);
      Prepend(Shift(t.spots, start), Code(s, start + t.end, interpolation, depth))
    else
      var stop := TokenEnd(s, start);
      var token := s[start..stop];
      if IsComment(token) then Code(s, stop, interpolation, depth)
      else if interpolation && token == "{" then Prepend([Spot(token, start)], Code(s, stop, true, depth + 1))
      else if interpolation && token == "}" then
        if depth == 0 then Lexed([], stop, true) else Prepend([Spot(token, start)], Code(s, stop, true, depth - 1))
      else Prepend([Spot(token, start)], Code(s, stop, interpolation, depth))
  }

  /** The rest of a template literal from `from` on. */
  function TemplateRest(s: string, from: nat): (r: Template)
    requires from <= |s|
    ensures from <= r.end <= |s|
    decreases |s| - from, 0
  {
    if from == |s| then Template([], from, false, false)
    else if s[from] == '\\' then TemplateRest(s, if from + 2 <= |s| then from + 2 else |s|)
    else if s[from] == '`' then Template([], from + 1, false, true)
    else if Starts(s, from, '$', '{') then
      var code := Code(s[from + 2..], 0, true, 0);
      var rest := TemplateRest(s, from + 2 + code.end);
      Template(Shift(code.spots, from + 2) + rest.spots, rest.end, true, rest.closed)
    else TemplateRest(s, from + 1)
  }

  /** A template literal: one token when static, its interpolations' tokens when dynamic. */
  function TemplateAt(s: string): (r: Lexed)
    requires s != ""
    ensures 1 <= r.end <= |s|
    decreases |s|, 1
  {
    var t := TemplateRest(s, 1);
    if !t.closed then Lexed([Spot("template", 0)], t.end, false)
    else if !t.dynamic then Lexed([Spot(s[..t.end], 0)], t.end, true)
    else Lexed([Spot("template", 0)] + t.spots, t.end, true)
  }

  // ---------------------------------------------------------------- where tokens stand

  /** A mark stands for a template whose own text is no token; it takes the opening quote. */
  predicate IsMark(s: string, spot: Spot) {
    spot.text == "template" && spot.at < |s| && s[spot.at] == '`'
  }

  function SpotEnd(s: string, spot: Spot): nat {
    if IsMark(s, spot) then spot.at + 1 else spot.at + |spot.text|
  }

  /** The token is the text at its place, or a mark. */
  predicate Placed(s: string, spot: Spot) {
    && spot.at < SpotEnd(s, spot) <= |s|
    && (IsMark(s, spot) || s[spot.at..SpotEnd(s, spot)] == spot.text)
  }

  /** Every token has a place of its own between `from` and `to`, each behind the end of the one before. */
  predicate Ordered(s: string, spots: seq<Spot>, from: nat, to: nat) {
    && (forall i | 0 <= i < |spots| :: Placed(s, spots[i]) && from <= spots[i].at && SpotEnd(s, spots[i]) <= to)
    && forall i, j | 0 <= i < j < |spots| :: SpotEnd(s, spots[i]) <= spots[j].at
  }

  lemma OrderedAppend(s: string, a: seq<Spot>, b: seq<Spot>, from: nat, mid: nat, to: nat)
    requires Ordered(s, a, from, mid) && Ordered(s, b, mid, to) && from <= mid <= to
    ensures Ordered(s, a + b, from, to)
  {
    hide Placed, SpotEnd;
  }

  lemma OrderedShift(s: string, spots: seq<Spot>, off: nat, to: nat)
    requires off <= |s| && Ordered(s[off..], spots, 0, to)
    ensures Ordered(s, Shift(spots, off), off, off + to)
  {
    var r := Shift(spots, off);
    forall i | 0 <= i < |r| ensures Placed(s, r[i]) && SpotEnd(s, r[i]) == SpotEnd(s[off..], spots[i]) + off {
      var x := spots[i];
      assert Placed(s[off..], x);
      assert s[off..][x.at] == s[off + x.at];
      var e := SpotEnd(s[off..], x);
      assert s[off..][x.at..e] == s[off + x.at..off + e];
    }
    hide Placed, SpotEnd;
  }

  lemma OrderedOne(s: string, start: nat, stop: nat)
    requires start < stop <= |s|
    ensures Ordered(s, [Spot(s[start..stop], start)], start, stop)
  {
    assert s[start..stop][0] == s[start] && "template"[0] == 't';
  }

  lemma OrderedFrom(s: string, spots: seq<Spot>, from: nat, mid: nat, to: nat)
    requires from <= mid && Ordered(s, spots, mid, to)
    ensures Ordered(s, spots, from, to)
  {
    hide Placed, SpotEnd;
  }

  /** Reading code never goes past the input and gives every token its own place, in order. */
  lemma {:induction false} CodeOrdered(s: string, from: nat, interpolation: bool, depth: nat)
    requires from <= |s|
    ensures var r := Code(s, from, interpolation, depth); Ordered(s, r.spots, from, r.end)
    decreases |s| - from, 0
  {
    hide Ordered, TokenEnd, SkipSpace, TemplateAt;
    var start := SkipSpace(s, from);
    var r := Code(s, from, interpolation, depth);
    OrderedNone(s, from, r.end);
    if start < |s| {
      if s[start] == '`' {
        var t := TemplateAt(s[start..]);
        TemplateOrdered(s[start..]);
        OrderedShift(s, t.spots, start, t.end);
        CodeOrdered(s, start + t.end, interpolation, depth);
        OrderedAppend(s, Shift(t.spots, start), Code(s, start + t.end, interpolation, depth).spots, start, start + t.end, r.end);
        OrderedFrom(s, r.spots, from, start, r.end);
      } else {
        var stop := TokenEnd(s, start);
        var token := s[start..stop];
        OrderedOne(s, start, stop);
        if !IsComment(token) && interpolation && token == "}" && depth == 0 {
        } else {
          var next := if IsComment(token) || !interpolation then depth
                      else if token == "{" then depth + 1 else if token == "}" then depth - 1 else depth;
          CodeOrdered(s, stop, interpolation, next);
          var rest := Code(s, stop, interpolation, next);
          if IsComment(token) {
            OrderedFrom(s, rest.spots, from, stop, r.end);
          } else {
            OrderedAppend(s, [Spot(token, start)], rest.spots, start, stop, r.end);
            OrderedFrom(s, r.spots, from, start, r.end);
          }
        }
      }
    }
  }

  lemma OrderedNone(s: string, from: nat, to: nat)
    ensures Ordered(s, [], from, to)
  {
  }

  lemma {:induction false} TemplateRestOrdered(s: string, from: nat)
    requires from <= |s|
    ensures var r := TemplateRest(s, from); Ordered(s, r.spots, from, r.end)
    decreases |s| - from, 1
  {
    hide Ordered, Code;
    var r := TemplateRest(s, from);
    OrderedNone(s, from, r.end);
    if from < |s| {
      if s[from] == '\\' {
        var next := if from + 2 <= |s| then from + 2 else |s|;
        TemplateRestOrdered(s, next);
        OrderedFrom(s, r.spots, from, next, r.end);
      } else if s[from] != '`' && Starts(s, from, '$', '{') {
        var code := Code(s[from + 2..], 0, true, 0);
        CodeOrdered(s[from + 2..], 0, true, 0);
        OrderedShift(s, code.spots, from + 2, code.end);
        var rest := TemplateRest(s, from + 2 + code.end);
        TemplateRestOrdered(s, from + 2 + code.end);
        OrderedAppend(s, Shift(code.spots, from + 2), rest.spots, from + 2, from + 2 + code.end, r.end);
        OrderedFrom(s, r.spots, from, from + 2, r.end);
      } else if s[from] != '`' {
        TemplateRestOrdered(s, from + 1);
        OrderedFrom(s, r.spots, from, from + 1, r.end);
      }
    }
  }

  lemma {:induction false} TemplateOrdered(s: string)
    requires s != "" && s[0] == '`'
    ensures var r := TemplateAt(s); Ordered(s, r.spots, 0, r.end)
    decreases |s| - 1, 2
  {
    hide Ordered, TemplateRest;
    TemplateRestOrdered(s, 1);
    var t := TemplateRest(s, 1);
    TemplateMark(s);
    if t.closed && !t.dynamic {
      OrderedOne(s, 0, t.end);
      assert s[0..t.end] == s[..t.end];
    } else if t.closed {
      OrderedAppend(s, [Spot("template", 0)], t.spots, 0, 1, t.end);
    } else {
      OrderedNone(s, 1, t.end);
      OrderedAppend(s, [Spot("template", 0)], [], 0, 1, t.end);
      assert [Spot("template", 0)] + [] == [Spot("template", 0)];
    }
  }

  lemma TemplateMark(s: string)
    requires s != "" && s[0] == '`'
    ensures Ordered(s, [Spot("template", 0)], 0, 1)
  {
  }

  // ---------------------------------------------------------------- braces

  function BraceStep(text: string): int {
    if text == "{" then 1 else if text == "}" then -1 else 0
  }

  function Net(spots: seq<Spot>): int {
    if spots == [] then 0 else BraceStep(spots[0].text) + Net(spots[1..])
  }

  /** Reading on with `depth` braces open, none is ever closed that was not opened. */
  predicate NeverBelow(spots: seq<Spot>, depth: int) {
    depth >= 0 && (spots != [] ==> NeverBelow(spots[1..], depth + BraceStep(spots[0].text)))
  }

  predicate Balanced(spots: seq<Spot>) {
    NeverBelow(spots, 0) && Net(spots) == 0
  }

  lemma {:induction false} NetAppend(a: seq<Spot>, b: seq<Spot>)
    ensures Net(a + b) == Net(a) + Net(b)
  {
    if a == [] {
      assert a + b == b;
    } else {
      NetAppend(a[1..], b);
      assert (a + b)[1..] == a[1..] + b;
    }
  }

  lemma {:induction false} NeverBelowAppend(a: seq<Spot>, b: seq<Spot>, depth: int)
    requires NeverBelow(a, depth) && NeverBelow(b, depth + Net(a))
    ensures NeverBelow(a + b, depth)
    decreases |a|
  {
    if a == [] {
      assert a + b == b;
    } else {
      NeverBelowAppend(a[1..], b, depth + BraceStep(a[0].text));
      assert (a + b)[1..] == a[1..] + b;
    }
  }

  lemma {:induction false} NeverBelowMore(a: seq<Spot>, depth: int, more: int)
    requires NeverBelow(a, depth) && depth <= more
    ensures NeverBelow(a, more)
    decreases |a|
  {
    if a != [] { NeverBelowMore(a[1..], depth + BraceStep(a[0].text), more + BraceStep(a[0].text)); }
  }

  lemma {:induction false} ShiftBraces(a: seq<Spot>, off: nat, depth: int)
    ensures Net(Shift(a, off)) == Net(a) && (NeverBelow(Shift(a, off), depth) <==> NeverBelow(a, depth))
    decreases |a|
  {
    if a != [] {
      ShiftBraces(a[1..], off, depth + BraceStep(a[0].text));
      assert Shift(a, off)[1..] == Shift(a[1..], off);
    }
  }

  lemma BalancedAppend(a: seq<Spot>, b: seq<Spot>)
    requires Balanced(a) && Balanced(b)
    ensures Balanced(a + b)
  {
    NetAppend(a, b);
    NeverBelowAppend(a, b, 0);
  }

  predicate SpaceFrom(s: string, i: nat) {
    forall k | i <= k < |s| :: IsSpace(s[k])
  }

  /** Reading that does not stop at a closing brace leaves at most white space. */
  lemma {:induction false} OpenLeavesSpace(s: string, from: nat, interpolation: bool, depth: nat)
    requires from <= |s|
    ensures var r := Code(s, from, interpolation, depth); !r.closed ==> SpaceFrom(s, r.end)
    decreases |s| - from
  {
    hide TokenEnd, TemplateAt, Shift;
    var start := SkipSpace(s, from);
    if start < |s| {
      if s[start] == '`' {
        OpenLeavesSpace(s, start + TemplateAt(s[start..]).end, interpolation, depth);
      } else {
        var stop := TokenEnd(s, start);
        var token := s[start..stop];
        if !IsComment(token) && interpolation && token == "}" && depth == 0 {
        } else {
          var next := if IsComment(token) || !interpolation then depth
                      else if token == "{" then depth + 1 else if token == "}" then depth - 1 else depth;
          OpenLeavesSpace(s, stop, interpolation, next);
        }
      }
    }
  }

  lemma {:induction false} SpaceNeverCloses(s: string, from: nat)
    requires from <= |s| && SpaceFrom(s, from)
    ensures TemplateRest(s, from) == Template([], |s|, false, false)
    decreases |s| - from
  {
    if from < |s| {
      assert IsSpace(s[from]);
      SpaceNeverCloses(s, from + 1);
    }
  }

  /**
   An interpolation that reads up to its closing brace holds balanced tokens, whatever
   templates are nested in it and however deep.
   */
  lemma {:induction false} CodeBalanced(s: string, from: nat, depth: nat)
    requires from <= |s| && Code(s, from, true, depth).closed
    ensures var r := Code(s, from, true, depth); NeverBelow(r.spots, depth) && depth + Net(r.spots) == 0
    decreases |s| - from, 0
  {
    hide TokenEnd, TemplateAt, SkipSpace, Shift, IsComment, NeverBelow, Net, Balanced;
    var start := SkipSpace(s, from);
    NoneNeverBelow(depth);
    if s[start] == '`' {
      var t := TemplateAt(s[start..]);
      TemplateBalanced(s[start..]);
      ShiftBalanced(t.spots, start);
      CodeBalanced(s, start + t.end, depth);
      BalancedBefore(Shift(t.spots, start), Code(s, start + t.end, true, depth).spots, depth);
    } else {
      var stop := TokenEnd(s, start);
      var token := s[start..stop];
      if IsComment(token) {
        CodeBalanced(s, stop, depth);
      } else if token == "}" && depth == 0 {
      } else {
        var next := depth + BraceStep(token);
        CodeBalanced(s, stop, next);
        OneMore(Spot(token, start), Code(s, stop, true, next).spots, depth);
      }
    }
  }

  lemma NoneNeverBelow(depth: nat)
    ensures NeverBelow([], depth) && Net([]) == 0
  {
  }

  lemma BalancedBefore(a: seq<Spot>, b: seq<Spot>, depth: nat)
    requires Balanced(a) && NeverBelow(b, depth)
    ensures NeverBelow(a + b, depth) && Net(a + b) == Net(b)
  {
    NetAppend(a, b);
    NeverBelowMore(a, 0, depth);
    NeverBelowAppend(a, b, depth);
  }

  lemma OneMore(spot: Spot, rest: seq<Spot>, depth: nat)
    requires NeverBelow(rest, depth + BraceStep(spot.text))
    ensures NeverBelow([spot] + rest, depth) && Net([spot] + rest) == BraceStep(spot.text) + Net(rest)
  {
    assert ([spot] + rest)[1..] == rest;
  }

  lemma {:induction false} TemplateRestBalanced(s: string, from: nat)
    requires from <= |s| && TemplateRest(s, from).closed
    ensures Balanced(TemplateRest(s, from).spots)
    decreases |s| - from, 1
  {
    hide Code, Shift, Balanced;
    if s[from] == '\\' {
      TemplateRestBalanced(s, if from + 2 <= |s| then from + 2 else |s|);
    } else if s[from] == '`' {
      NoneBalanced();
    } else if Starts(s, from, '$', '{') {
      var inner := s[from + 2..];
      var code := Code(inner, 0, true, 0);
      if !code.closed {
        OpenLeavesSpace(inner, 0, true, 0);
        assert SpaceFrom(s, from + 2 + code.end) by {
          forall k | from + 2 + code.end <= k < |s| ensures IsSpace(s[k]) { assert inner[k - from - 2] == s[k]; }
        }
        SpaceNeverCloses(s, from + 2 + code.end);
      }
      ClosedBalanced(inner);
      ShiftBalanced(code.spots, from + 2);
      TemplateRestBalanced(s, from + 2 + code.end);
      BalancedAppend(Shift(code.spots, from + 2), TemplateRest(s, from + 2 + code.end).spots);
    } else {
      TemplateRestBalanced(s, from + 1);
    }
  }

  lemma NoneBalanced()
    ensures Balanced([]) && Balanced([Spot("template", 0)])
  {
  }

  lemma ShiftBalanced(a: seq<Spot>, off: nat)
    requires Balanced(a)
    ensures Balanced(Shift(a, off))
  {
    ShiftBraces(a, off, 0);
  }

  lemma {:induction false} ClosedBalanced(s: string)
    requires Code(s, 0, true, 0).closed
    ensures Balanced(Code(s, 0, true, 0).spots)
    decreases |s|, 2
  {
    CodeBalanced(s, 0, 0);
  }

  /** A template's tokens are balanced in every case; cut short, it shows none of its inner tokens. */
  lemma {:induction false} TemplateBalanced(s: string)
    requires s != "" && s[0] == '`'
    ensures Balanced(TemplateAt(s).spots)
    ensures !TemplateAt(s).closed ==> TemplateAt(s) == Lexed([Spot("template", 0)], |s|, false)
    decreases |s| - 1, 3
  {
    hide Balanced;
    NoneBalanced();
    var t := TemplateRest(s, 1);
    if !t.closed {
      OpenReachesEnd(s, 1);
    } else if t.dynamic {
      TemplateRestBalanced(s, 1);
      BalancedAppend([Spot("template", 0)], t.spots);
    } else {
      StaticBalanced(s[..t.end]);
    }
  }

  lemma StaticBalanced(text: string)
    requires text != "" && text[0] == '`'
    ensures Balanced([Spot(text, 0)])
  {
  }

  lemma {:induction false} OpenReachesEnd(s: string, from: nat)
    requires from <= |s| && !TemplateRest(s, from).closed
    ensures TemplateRest(s, from).end == |s|
    decreases |s| - from
  {
    hide Code, Shift;
    if from < |s| {
      if s[from] == '\\' {
        OpenReachesEnd(s, if from + 2 <= |s| then from + 2 else |s|);
      } else if Starts(s, from, '$', '{') {
        OpenReachesEnd(s, from + 2 + Code(s[from + 2..], 0, true, 0).end);
      } else {
        OpenReachesEnd(s, from + 1);
      }
    }
  }
}
