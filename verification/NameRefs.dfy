/** The tokenizers as they run, keeping a line count, and the name references found in their tokens. */
module NameRefs {
  import opened Basics
  import opened Tokens
  import opened Literals

  datatype Token = Token(text: string, line: int)

  // ---------------------------------------------------------------- lines

  function Newlines(s: string): nat {
    if s == "" then 0 else (if s[0] == '\n' then 1 else 0) + Newlines(s[1..])
  }

  lemma {:induction false} NewlinesAppend(a: string, b: string)
    ensures Newlines(a + b) == Newlines(a) + Newlines(b)
  {
    if a == "" {
      assert a + b == b;
    } else {
      NewlinesAppend(a[1..], b);
      assert (a + b)[1..] == a[1..] + b;
    }
  }

  /** The line breaks of a text, counted. */
  lemma {:induction false} NewlinesCount(s: string)
    ensures Newlines(s) == |set i | 0 <= i < |s| && s[i] == '\n'|
    decreases |s|
  {
    if s != "" {
      var n := |s| - 1;
      NewlinesCount(s[..n]);
      assert s == s[..n] + [s[n]];
      NewlinesAppend(s[..n], [s[n]]);
      assert [s[n]][1..] == "";
      var before, all := set i | 0 <= i < n && s[..n][i] == '\n', set i | 0 <= i < |s| && s[i] == '\n';
      assert all == if s[n] == '\n' then before + {n} else before;
    }
  }

  lemma NewlinesUpTo(s: string, i: nat, j: nat)
    requires i <= j <= |s|
    ensures Newlines(s[..j]) == Newlines(s[..i]) + Newlines(s[i..j])
  {
    assert s[..j] == s[..i] + s[i..j];
    NewlinesAppend(s[..i], s[i..j]);
  }

  lemma NewlinesInside(s: string, from: nat, i: nat)
    requires from + i <= |s|
    ensures Newlines(s[..from + i]) == Newlines(s[..from]) + Newlines(s[from..][..i])
  {
    NewlinesUpTo(s, from, from + i);
    assert s[from..from + i] == s[from..][..i];
  }

  /** The line of a position, counted from the start of the text. */
  function LineAt(s: string, at: nat, line: int): int {
    line + Newlines(if at <= |s| then s[..at] else s)
  }

  /** The tokens with the lines their places have. */
  function Located(spots: seq<Spot>, s: string, line: int): (r: seq<Token>)
    ensures |r| == |spots| && forall i | 0 <= i < |r| :: r[i] == Token(spots[i].text, LineAt(s, spots[i].at, line))
  {
    seq(|spots|, i requires 0 <= i < |spots| => Token(spots[i].text, LineAt(s, spots[i].at, line)))
  }

  lemma LocatedAppend(a: seq<Spot>, b: seq<Spot>, s: string, line: int)
    ensures Located(a + b, s, line) == Located(a, s, line) + Located(b, s, line)
  {
    hide LineAt;
  }

  /** Tokens of a part of the text, counted from the line the part starts on. */
  lemma LocatedInside(spots: seq<Spot>, s: string, from: nat, to: nat, line: int)
    requires from <= |s| && Ordered(s[from..], spots, 0, to) && to <= |s| - from
    ensures Located(Shift(spots, from), s, line) == Located(spots, s[from..], line + Newlines(s[..from]))
  {
    var a, b := Located(Shift(spots, from), s, line), Located(spots, s[from..], line + Newlines(s[..from]));
    forall i | 0 <= i < |spots| ensures a[i] == b[i] {
      assert Placed(s[from..], spots[i]);
      NewlinesInside(s, from, spots[i].at);
    }
  }

  lemma LocatedOne(text: string, at: nat, s: string, startLine: int, line: int)
    requires at <= |s| && line == startLine + Newlines(s[..at])
    ensures Located([Spot(text, at)], s, startLine) == [Token(text, line)]
  {
  }

  // ---------------------------------------------------------------- the tokenizers

  lemma PrependMore(a: seq<Spot>, b: seq<Spot>, rest: Lexed)
    ensures Prepend(a, Prepend(b, rest)) == Prepend(a + b, rest)
  {
    assert a + (b + rest.spots) == a + b + rest.spots;
  }

  /**
   Code, up to the end of the text or, inside an interpolation, to its closing brace. Each
   token carries the start line plus the line breaks before its place in the text.
   */
  method FrontendTokens(source: string, startLine: int, interpolation: bool) returns (tokens: seq<Token>, end: nat)
    ensures end == Code(source, 0, interpolation, 0).end <= |source|
    ensures tokens == Located(Code(source, 0, interpolation, 0).spots, source, startLine)
    decreases |source|, 1
  {
    hide Located, Shift, Newlines, TokenEnd, TemplateAt, SkipSpace, IsComment, Ordered, Code, Prepend;
    tokens, end := [], 0;
    var depth: nat, line := 0, startLine;
    ghost var spots: seq<Spot> := [];
    ghost var all := Code(source, 0, interpolation, 0);
    PrependNone(all);
    LinesStart(source, startLine);
    while end < |source|
      invariant end <= |source| && line == startLine + Newlines(source[..end])
      invariant all == Prepend(spots, Code(source, end, interpolation, depth))
      invariant tokens == Located(spots, source, startLine)
      decreases |source| - end
    {
      var start := SkipSpace(source, end);
      if start == |source| {
        break;
      }
      NewlinesUpTo(source, end, start);
      line := line + Newlines(source[end..start]);
      ghost var added: seq<Spot>;
      if source[start] == '`' {
        CodeTemplate(source, end, interpolation, depth);
        ghost var t := TemplateAt(source[start..]);
        var template, length := TemplateTokens(source[start..], line);
        TemplateOrdered(source[start..]);
        LocatedInside(t.spots, source, start, t.end, startLine);
        tokens := tokens + template;
        end := start + length;
        added := Shift(t.spots, start);
      } else {
        CodeToken(source, end, interpolation, depth);
        end := TokenEnd(source, start);
        var token := source[start..end];
        LocatedOne(token, start, source, startLine, line);
        if IsComment(token) {
          added := [];
          LocatedNone(source, startLine);
        } else {
          if interpolation && token == "{" {
            depth := depth + 1;
          } else if interpolation && token == "}" {
            if depth == 0 {
              PrependEmpty(spots, end, true);
              return;
            }
            depth := depth - 1;
          }
          tokens := tokens + [Token(token, line)];
          added := [Spot(token, start)];
        }
      }
      PrependMore(spots, added, Code(source, end, interpolation, depth));
      LocatedAppend(spots, added, source, startLine);
      spots := spots + added;
      NewlinesUpTo(source, start, end);
      line := line + Newlines(source[start..end]);
    }
    if end == |source| { SkipSpaceEnd(source); }
    CodeStops(source, end, interpolation, depth);
    PrependEmpty(spots, end, false);
  }

  lemma SkipSpaceEnd(s: string)
    ensures SkipSpace(s, |s|) == |s|
  {
  }

  lemma PrependNone(rest: Lexed)
    ensures Prepend([], rest) == rest
  {
    assert [] + rest.spots == rest.spots;
  }

  lemma PrependEmpty(spots: seq<Spot>, end: nat, closed: bool)
    ensures Prepend(spots, Lexed([], end, closed)) == Lexed(spots, end, closed)
  {
    assert spots + [] == spots;
  }

  lemma CodeTemplate(s: string, from: nat, interpolation: bool, depth: nat)
    requires from <= |s|
    ensures var start := SkipSpace(s, from);
            start < |s| && s[start] == '`' ==>
              var t := TemplateAt(s[start..]);
              Code(s, from, interpolation, depth) == Prepend(Shift(t.spots, start), Code(s, start + t.end, interpolation, depth))
  {
  }

  /** One token of code, and how the brace depth goes on. */
  lemma CodeToken(s: string, from: nat, interpolation: bool, depth: nat)
    requires from <= |s|
    ensures var start := SkipSpace(s, from);
            start < |s| && s[start] != '`' ==>
              var stop := TokenEnd(s, start);
              var token := s[start..stop];
              var next := if IsComment(token) || !interpolation then depth
                          else if token == "{" then depth + 1 else if token == "}" && depth > 0 then depth - 1 else depth;
              var spots := if IsComment(token) then [] else [Spot(token, start)];
              Code(s, from, interpolation, depth)
              == if !IsComment(token) && interpolation && token == "}" && depth == 0 then Lexed([], stop, true)
                 else Prepend(spots, Code(s, stop, interpolation, next))
  {
    hide TokenEnd, SkipSpace, IsComment, TemplateAt;
    var start := SkipSpace(s, from);
    if start < |s| && s[start] != '`' { PrependNone(Code(s, TokenEnd(s, start), interpolation, depth)); }
  }

  lemma LinesStart(s: string, line: int)
    ensures Newlines(s[..0]) == 0 && Located([], s, line) == []
  {
    assert s[..0] == "";
  }

  lemma LocatedNone(s: string, line: int)
    ensures Located([], s, line) == []
  {
  }

  lemma CodeStops(s: string, end: nat, interpolation: bool, depth: nat)
    requires end <= |s| && SkipSpace(s, end) == |s|
    ensures Code(s, end, interpolation, depth) == Lexed([], end, false)
  {
  }

  /** What is known of a template when its text has been read up to `from`. */
  function Resumed(spots: seq<Spot>, dynamic: bool, rest: Template): Template {
    Template(spots + rest.spots, rest.end, dynamic || rest.dynamic, rest.closed)
  }

  lemma ResumedMore(a: seq<Spot>, b: seq<Spot>, dynamic: bool, rest: Template)
    ensures Resumed(a, dynamic, Template(b + rest.spots, rest.end, true, rest.closed)) == Resumed(a + b, true, rest)
  {
    assert a + (b + rest.spots) == a + b + rest.spots;
  }

  method TemplateTokens(source: string, startLine: int) returns (tokens: seq<Token>, end: nat)
    requires source != "" && source[0] == '`'
    ensures end == TemplateAt(source).end <= |source|
    ensures tokens == Located(TemplateAt(source).spots, source, startLine)
    decreases |source|, 0
  {
    hide Located, Shift, Newlines, Code, Ordered, TemplateRest, Resumed, TemplateAt;
    var expressions: seq<Token>, dynamic := [], false;
    var line := startLine;
    end := 1;
    ghost var spots: seq<Spot> := [];
    ghost var all := TemplateRest(source, 1);
    ResumedNone(all);
    TemplateStart(source);
    LocatedNone(source, startLine);
    while end < |source|
      invariant 1 <= end <= |source| && line == startLine + Newlines(source[..end])
      invariant all == Resumed(spots, dynamic, TemplateRest(source, end))
      invariant expressions == Located(spots, source, startLine)
      decreases |source| - end
    {
      TemplateStep(source, end);
      if source[end] == '\\' {
        var length := if 2 <= |source| - end then 2 else |source| - end;
        NewlinesUpTo(source, end, end + length);
        line := line + Newlines(source[end..end + length]);
        end := end + length;
      } else if source[end] == '`' {
        end := end + 1;
        ResumedEnd(spots, dynamic, end, true);
        TemplateShape(source);
        if !dynamic {
          StaticToken(source, end, startLine);
          return [Token(source[..end], startLine)], end;
        }
        TemplateToken(source, startLine);
        LocatedAppend([Spot("template", 0)], spots, source, startLine);
        return [Token("template", startLine)] + expressions, end;
      } else if Starts(source, end, '$', '{') {
        ghost var was := dynamic;
        dynamic := true;
        NewlinesUpTo(source, end, end + 2);
        PlainText(source[end..end + 2]);
        end := end + 2;
        ghost var code := Code(source[end..], 0, true, 0);
        var tokens', length := FrontendTokens(source[end..], line, true);
        CodeOrdered(source[end..], 0, true, 0);
        LocatedInside(code.spots, source, end, code.end, startLine);
        LocatedAppend(spots, Shift(code.spots, end), source, startLine);
        expressions := expressions + tokens';
        ResumedMore(spots, Shift(code.spots, end), was, TemplateRest(source, end + length));
        spots := spots + Shift(code.spots, end);
        NewlinesUpTo(source, end, end + length);
        line := line + Newlines(source[end..end + length]);
        end := end + length;
      } else {
        NewlinesUpTo(source, end, end + 1);
        OneChar(source, end);
        if source[end] == '\n' {
          line := line + 1;
        }
        end := end + 1;
      }
    }
    TemplateStop(source);
    ResumedEnd(spots, dynamic, end, false);
    TemplateShape(source);
    TemplateToken(source, startLine);
    return [Token("template", startLine)], end;
  }

  lemma ResumedNone(rest: Template)
    ensures Resumed([], false, rest) == rest
  {
    assert [] + rest.spots == rest.spots;
  }

  lemma ResumedEnd(spots: seq<Spot>, dynamic: bool, end: nat, closed: bool)
    ensures Resumed(spots, dynamic, Template([], end, false, closed)) == Template(spots, end, dynamic, closed)
  {
    assert spots + [] == spots;
  }

  lemma TemplateShape(s: string)
    requires s != ""
    ensures var t := TemplateRest(s, 1);
            TemplateAt(s) == if !t.closed then Lexed([Spot("template", 0)], t.end, false)
                             else if !t.dynamic then Lexed([Spot(s[..t.end], 0)], t.end, true)
                             else Lexed([Spot("template", 0)] + t.spots, t.end, true)
  {
  }

  lemma TemplateStop(s: string)
    ensures TemplateRest(s, |s|) == Template([], |s|, false, false)
  {
  }

  /** One step through a template's text. */
  lemma TemplateStep(s: string, from: nat)
    requires from < |s|
    ensures TemplateRest(s, from)
            == if s[from] == '\\' then TemplateRest(s, if from + 2 <= |s| then from + 2 else |s|)
               else if s[from] == '`' then Template([], from + 1, false, true)
               else if Starts(s, from, '$', '{') then
                 var code := Code(s[from + 2..], 0, true, 0);
                 var rest := TemplateRest(s, from + 2 + code.end);
                 Template(Shift(code.spots, from + 2) + rest.spots, rest.end, true, rest.closed)
               else TemplateRest(s, from + 1)
  {
  }

  lemma TemplateStart(s: string)
    requires s != "" && s[0] == '`'
    ensures Newlines(s[..1]) == 0
  {
    assert s[..1][1..] == "";
  }

  lemma PlainText(s: string)
    requires |s| == 2 && s[0] != '\n' && s[1] != '\n'
    ensures Newlines(s) == 0
  {
    assert s[1..][1..] == "";
    assert Newlines(s[1..]) == 0;
  }

  lemma OneChar(s: string, i: nat)
    requires i < |s|
    ensures Newlines(s[i..i + 1]) == if s[i] == '\n' then 1 else 0
  {
    assert s[i..i + 1][1..] == "";
  }

  lemma StaticToken(s: string, end: nat, line: int)
    requires end <= |s|
    ensures Located([Spot(s[..end], 0)], s, line) == [Token(s[..end], line)]
  {
    assert s[..0] == "";
  }

  lemma TemplateToken(s: string, line: int)
    ensures Located([Spot("template", 0)], s, line) == [Token("template", line)]
  {
    assert s[..0] == "";
  }

  // ---------------------------------------------------------------- references

  datatype Ref = Ref(helper: string, name: string, line: int)

  predicate IsHelper(text: string) {
    text == "permissionRef" || text == "resourceRef" || text == "actionRef"
  }

  function AngleStep(text: string): int {
    if text == "<" then 1 else if text == ">" then -1 else 0
  }

  /** The place behind the type arguments that are open `depth` deep at `arg`. */
  function SkipTypes(tokens: seq<Token>, arg: nat, depth: int): (r: nat)
    requires arg <= |tokens|
    ensures arg <= r <= |tokens|
    decreases |tokens| - arg
  {
    if arg == |tokens| then arg
    else if depth + AngleStep(tokens[arg].text) == 0 then arg + 1
    else SkipTypes(tokens, arg + 1, depth + AngleStep(tokens[arg].text))
  }

  /** The reference that the helper token at `i` makes, if its only argument so far is a literal. */
  function RefAt(tokens: seq<Token>, i: nat): Option<Ref>
    requires i < |tokens|
  {
    var arg := if i + 1 < |tokens| && tokens[i + 1].text == "<" then SkipTypes(tokens, i + 1, 0) else i + 1;
    if !IsHelper(tokens[i].text) || arg + 2 >= |tokens| || tokens[arg].text != "(" then None
    else if tokens[arg + 2].text != ")" && tokens[arg + 2].text != "," then None
    else
      match Literal(tokens[arg + 1].text)
      case None => None
      case Some(name) => Some(Ref(tokens[i].text, name, tokens[i].line))
  }

  function RefsUpTo(tokens: seq<Token>, k: nat): seq<Ref>
    requires k <= |tokens|
  {
    if k == 0 then []
    else RefsUpTo(tokens, k - 1) + (match RefAt(tokens, k - 1) case None => [] case Some(r) => [r])
  }

  method ScanNameRefs(source: string) returns (refs: seq<Ref>)
    ensures var tokens := Located(Code(source, 0, false, 0).spots, source, 1); refs == RefsUpTo(tokens, |tokens|)
  {
    hide Located, Code, RefAt;
    var tokens, _ := FrontendTokens(source, 1, false);
    refs := [];
    for i := 0 to |tokens|
      invariant refs == RefsUpTo(tokens, i)
    {
      var ref := FindRef(tokens, i);
      if ref.Some? {
        refs := refs + [ref.value];
      }
    }
  }

  /** One turn of the scan: the helper at `i`, past its type arguments, to its literal argument. */
  method FindRef(tokens: seq<Token>, i: nat) returns (r: Option<Ref>)
    requires i < |tokens|
    ensures r == RefAt(tokens, i)
  {
    hide Literal;
    if !IsHelper(tokens[i].text) {
      return None;
    }
    var arg := i + 1;
    if arg < |tokens| && tokens[arg].text == "<" {
      arg := TypesEnd(tokens, arg);
    }
    if arg + 2 >= |tokens| || tokens[arg].text != "(" {
      return None;
    }
    if tokens[arg + 2].text != ")" && tokens[arg + 2].text != "," {
      return None;
    }
    var name, literal := RefLiteral(tokens[arg + 1].text);
    if !literal {
      return None;
    }
    return Some(Ref(tokens[i].text, name, tokens[i].line));
  }

  /** Opening less closing angle brackets between two places. */
  function Angles(tokens: seq<Token>, from: nat, to: nat): int
    requires from <= to <= |tokens|
  {
    if from == to then 0 else Angles(tokens, from, to - 1) + AngleStep(tokens[to - 1].text)
  }

  /** The first place behind `from` where the angle brackets are even, or the end of the tokens. */
  method TypesEnd(tokens: seq<Token>, from: nat) returns (arg: nat)
    requires from <= |tokens|
    ensures arg == SkipTypes(tokens, from, 0)
    ensures from <= arg <= |tokens| && (from < |tokens| ==> from < arg)
    ensures forall k | from < k < arg :: Angles(tokens, from, k) != 0
    ensures arg == |tokens| || Angles(tokens, from, arg) == 0
  {
    var depth := 0;
    arg := from;
    while arg < |tokens|
      invariant from <= arg <= |tokens| && SkipTypes(tokens, from, 0) == SkipTypes(tokens, arg, depth)
      invariant depth == Angles(tokens, from, arg) && forall k | from < k <= arg :: Angles(tokens, from, k) != 0
    {
      depth := depth + AngleStep(tokens[arg].text);
      if depth == 0 {
        return arg + 1;
      }
      arg := arg + 1;
    }
  }

  /** A helper called with a printed literal is found under exactly the printed name, on its own line. */
  lemma CallFound(tokens: seq<Token>, i: nat, name: string)
    requires i + 3 < |tokens| && IsHelper(tokens[i].text) && tokens[i + 1].text == "("
    requires tokens[i + 2].text == Quote(name) && (tokens[i + 3].text == ")" || tokens[i + 3].text == ",")
    ensures RefAt(tokens, i) == Some(Ref(tokens[i].text, name, tokens[i].line))
    ensures Ref(tokens[i].text, name, tokens[i].line) in RefsUpTo(tokens, |tokens|)
  {
    hide Quote, Literal, SkipTypes, RefsUpTo, IsHelper;
    QuoteReads(name);
    assert tokens[i + 1].text[0] == '(' && "<"[0] == '<';
    assert RefAt(tokens, i) == Some(Ref(tokens[i].text, name, tokens[i].line));
    hide RefAt;
    RefKept(tokens, i, |tokens|);
  }

  lemma {:induction false} RefKept(tokens: seq<Token>, i: nat, k: nat)
    requires i < k <= |tokens| && RefAt(tokens, i).Some?
    ensures RefAt(tokens, i).value in RefsUpTo(tokens, k)
  {
    hide RefAt;
    if i < k - 1 { RefKept(tokens, i, k - 1); }
  }
}
