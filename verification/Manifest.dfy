/**
 A manifest as text: what it scans as, what a rewrite of it should be, and the scanner
 that finds the byte spans of an object's members.
 */
module Manifest {
  import opened Basics
  import opened Ordering
  import opened JsonLex
  import opened JsonTree
  import opened JsonFormat
  import opened ManifestTree
  import opened ManifestEdit
  import opened ManifestRewrite

  // ---------------------------------------------------------------- specification on text

  /** The object a text starts with: where it starts, its tree, where it ends. */
  datatype Scanned = Scanned(start: nat, node: Node, end: nat)

  function Scan(raw: string): (r: Option<Scanned>)
    ensures r.Some? ==> r.value.start < r.value.end <= |raw| && IsObject(r.value.node)
  {
    var h := SkipSpace(raw, 0);
    var v := ParseValue(raw, h);
    if h < |raw| && raw[h] == '{' && v.Got? && Strict(v.value) then Some(Scanned(h, v.value, v.end)) else None
  }

  function Splice(raw: string, sc: Scanned, n: Node): string
    requires sc.start <= sc.end <= |raw|
  {
    raw[..sc.start] + Print(n) + raw[sc.end..]
  }

  /** Several blocks without dots, written in one pass. */
  function KeysText(raw: string, blocks: seq<Block>): Result<(string, seq<string>), Problem> {
    match Scan(raw)
    case None => Err(Unreadable)
    case Some(sc) =>
      match EditKeys(sc.node, blocks)
      case Err(e) => Err(e)
      case Ok((n, changed)) => Ok((if changed == [] then raw else Splice(raw, sc, n), SortStrings(changed)))
  }

  function BlockText(raw: string, b: Block): Result<(string, bool), Problem> {
    match Scan(raw)
    case None => Err(Unreadable)
    case Some(sc) =>
      match RewriteKey(sc.node, b.key, b.value)
      case Err(e) => Err(e)
      case Ok((n, changed)) => Ok((if changed then Splice(raw, sc, n) else raw, changed))
  }

  /** Blocks written one after the other; the keys in block order. */
  function BlocksText(raw: string, blocks: seq<Block>): Result<(string, seq<string>), Problem> {
    if blocks == [] then Ok((raw, []))
    else
      match BlocksText(raw, blocks[..|blocks| - 1])
      case Err(e) => Err(e)
      case Ok((text, changed)) =>
        var b := blocks[|blocks| - 1];
        match BlockText(text, b)
        case Err(e) => Err(e)
        case Ok((text', c)) => Ok((text', if c then changed + [b.key] else changed))
  }

  lemma ScanReadable(raw: string)
    requires Scan(raw).Some?
    ensures var sc := Scan(raw).value;
            Readable(sc.node) && raw[sc.start..sc.end] == Print(sc.node) && Blank(raw[..sc.start])
  {
    ParsedValuePrints(raw, SkipSpace(raw, 0));
    assert raw[0..SkipSpace(raw, 0)] == raw[..SkipSpace(raw, 0)];
  }

  /** A spliced text scans as the spliced tree, if that is strict, and otherwise not at all. */
  lemma ScanSplice(raw: string, n: Node)
    requires Scan(raw).Some? && IsObject(n) && WellFormed(n)
    ensures var sc := Scan(raw).value;
            Scan(Splice(raw, sc, n)) == if Strict(n) then Some(Scanned(sc.start, n, sc.start + |Print(n)|)) else None
  {
    hide WellFormed, Strict, Print, ParseValue, SkipSpace;
    var sc := Scan(raw).value;
    var t := Splice(raw, sc, n);
    ScanReadable(raw);
    PrintStart(n);
    assert t[..sc.start] == raw[..sc.start];
    assert t[sc.start..sc.start + |Print(n)|] == Print(n);
    assert t[sc.start] == Print(n)[0];
    assert Print(n)[0] == '{' by { GroupOpens(n); }
    SkipSpaceAt(t, 0, raw[..sc.start]);
    PrintedValueParses(t, sc.start, n);
  }

  lemma GroupOpens(n: Node)
    requires n.Group?
    ensures Print(n) != "" && Print(n)[0] == Open(n.isObject)
  {
  }

  // ---------------------------------------------------------------- scanning

  /** Byte offsets of one member, and the key its name stands for. */
  datatype Span = Span(key: string, nameStart: nat, valueStart: nat, valueEnd: nat)

  predicate SpansMember(raw: string, s: Span, m: Member) {
    && s.nameStart <= s.valueStart <= s.valueEnd <= |raw| && KeyOf(m.name) == Some(s.key)
    && raw[s.nameStart..s.valueStart] == m.name + Colon(true, m)
    && raw[s.valueStart..s.valueEnd] == Print(m.value)
  }

  predicate SpansGap(raw: string, s: Span, t: Span, m: Member, l: Member) {
    s.valueEnd <= t.nameStart <= |raw| && raw[s.valueEnd..t.nameStart] == m.trail + ("," + l.lead)
  }

  /** The spans cut `raw` up as the members of `n` do. */
  predicate Spans(raw: string, brace: nat, spans: seq<Span>, ms: seq<Member>) {
    && |spans| == |ms| && brace <= |raw|
    && (forall i | 0 <= i < |ms| :: SpansMember(raw, spans[i], ms[i]))
    && (forall i | 0 <= i < |ms| - 1 :: SpansGap(raw, spans[i], spans[i + 1], ms[i], ms[i + 1]))
    && (ms != [] ==> brace <= spans[0].nameStart && raw[brace..spans[0].nameStart] == ms[0].lead)
  }

  /** What parsing gives when the members `ms` have been read up to the delimiter at `at`. */
  function Continue(raw: string, at: nat, ms: seq<Member>): Parsed<seq<Member>>
    requires at <= |raw|
  {
    if at == |raw| then Fail
    else if raw[at] == '}' then Got(ms, at + 1)
    else if raw[at] != ',' then Fail
    else
      var rest := ParseMembers(raw, at + 1, true);
      if rest.Fail? then Fail else Got(ms + rest.value, rest.end)
  }

  lemma ContinueStep(raw: string, at: nat, ms: seq<Member>)
    requires at < |raw| && raw[at] == ','
    ensures var m := ParseMember(raw, at + 1, true);
            Continue(raw, at, ms) == if m.Fail? then Fail else Continue(raw, m.end, ms + [m.value])
  {
    hide ParseMember;
    var m := ParseMember(raw, at + 1, true);
    if m.Got? && m.end < |raw| && raw[m.end] == ',' {
      var rest := ParseMembers(raw, m.end + 1, true);
      if rest.Got? { assert ms + ([m.value] + rest.value) == ms + [m.value] + rest.value; }
    }
  }

  lemma ContinueStart(raw: string, brace: nat)
    requires brace <= |raw|
    ensures var m := ParseMember(raw, brace, true);
            ParseMembers(raw, brace, true) == if m.Fail? then Fail else Continue(raw, m.end, [m.value])
  {
    hide ParseMember;
  }

  /** What the scanner reads of one member whose leading space starts at `from`. */
  lemma MemberSpan(raw: string, from: nat, s: Span)
    requires from <= |raw|
    requires var m := ParseMember(raw, from, true); m.Got? && KeyOf(m.value.name) == Some(s.key)
    requires s.nameStart == SkipSpace(raw, from) && ParseName(raw, s.nameStart).Got?
    requires s.valueStart == ParseName(raw, s.nameStart).end && ParseValue(raw, s.valueStart).Got?
    requires s.valueEnd == ParseValue(raw, s.valueStart).end
    ensures var m := ParseMember(raw, from, true);
            && SpansMember(raw, s, m.value) && m.value.lead == raw[from..s.nameStart]
            && m.end == SkipSpace(raw, s.valueEnd) && m.value.trail == raw[s.valueEnd..m.end]
  {
    hide SkipSpace, StringTail, IsStringToken, Print, WellFormed, ParseValue, KeyOf;
    ParsedNamePrints(raw, s.nameStart);
    ParsedValuePrints(raw, s.valueStart);
    ColonText(true, ParseMember(raw, from, true).value);
  }

  /** Reading `m` behind the members `ms` ends strictness. */
  predicate Breaks(ms: seq<Member>, m: Member) {
    KeyOf(m.name).None? || !Strict(m.value) || exists i :: 0 <= i < |ms| && KeyOf(ms[i].name) == KeyOf(m.name)
  }

  lemma NotStrict(n: Node, ms: seq<Member>, m: Member)
    requires IsObject(n) && |ms| < |n.members| && n.members[..|ms| + 1] == ms + [m] && Breaks(ms, m)
    ensures !Strict(n)
  {
    hide KeyOf;
    var k := |ms|;
    assert n.members[k] == n.members[..k + 1][k] == m;
    if KeyOf(m.name).Some? && Strict(m.value) {
      var i :| 0 <= i < |ms| && KeyOf(ms[i].name) == KeyOf(m.name);
      assert n.members[i] == n.members[..k + 1][i] == ms[i];
    } else {
      assert !StrictMember(true, n.members[k]);
    }
  }

  /** A text that opens a brace and goes on with something other than the closing one. */
  lemma ScanMembers(raw: string)
    requires var h := SkipSpace(raw, 0); h < |raw| && raw[h] == '{'
    requires var a := SkipSpace(raw, SkipSpace(raw, 0) + 1); a < |raw| ==> raw[a] != '}'
    ensures var h := SkipSpace(raw, 0);
            var r := ParseMembers(raw, h + 1, true);
            Scan(raw) == if r.Got? && Strict(Group(true, "", r.value)) then Some(Scanned(h, Group(true, "", r.value), r.end)) else None
  {
  }

  lemma ScanRejects(raw: string, at: nat, ms: seq<Member>, m: Member)
    requires var h := SkipSpace(raw, 0);
             && h < |raw| && raw[h] == '{' && at <= |raw|
             && (SkipSpace(raw, h + 1) < |raw| ==> raw[SkipSpace(raw, h + 1)] != '}')
             && ParseMembers(raw, h + 1, true) == Continue(raw, at, ms + [m])
    requires Breaks(ms, m)
    ensures Scan(raw).None?
  {
    hide SkipSpace, ParseMembers, KeyOf, Strict, Breaks;
    ScanMembers(raw);
    var r := Continue(raw, at, ms + [m]);
    if r.Got? {
      assert r.value[..|ms| + 1] == ms + [m];
      NotStrict(Group(true, "", r.value), ms, m);
    }
  }

  function SpanIndex(spans: seq<Span>, key: string): (i: nat)
    ensures i <= |spans| && (i < |spans| ==> spans[i].key == key) && forall k | 0 <= k < i :: spans[k].key != key
  {
    if spans == [] || spans[0].key == key then 0 else 1 + SpanIndex(spans[1..], key)
  }

  /** The members read so far are strict. */
  predicate StrictMembers(ms: seq<Member>) {
    && (forall i | 0 <= i < |ms| :: StrictMember(true, ms[i]))
    && forall i, j | 0 <= i < j < |ms| :: KeyOf(ms[i].name) != KeyOf(ms[j].name)
  }

  lemma StrictMembersGrow(ms: seq<Member>, m: Member)
    requires StrictMembers(ms) && StrictMember(true, m) && forall i | 0 <= i < |ms| :: KeyOf(ms[i].name) != KeyOf(m.name)
    ensures StrictMembers(ms + [m])
  {
    hide StrictMember, KeyOf;
  }

  lemma SpansGrow(raw: string, brace: nat, spans: seq<Span>, ms: seq<Member>, s: Span, m: Member)
    requires Spans(raw, brace, spans, ms) && SpansMember(raw, s, m)
    requires if ms == [] then brace <= s.nameStart && raw[brace..s.nameStart] == m.lead
             else SpansGap(raw, spans[|ms| - 1], s, ms[|ms| - 1], m)
    ensures Spans(raw, brace, spans + [s], ms + [m])
  {
    hide SpansMember, SpansGap;
  }

  /** What stands behind the last member, or behind the brace of an empty object. */
  predicate Closes(raw: string, brace: nat, spans: seq<Span>, sc: Scanned) {
    var last := if spans == [] then brace else spans[|spans| - 1].valueEnd;
    last <= |raw| && sc.end <= |raw| && IsObject(sc.node) && raw[last..] == Tail(sc.node) + ("}" + raw[sc.end..])
  }

  lemma ClosesAt(raw: string, last: nat, at: nat)
    requires last <= at < |raw| && raw[at] == '}'
    ensures raw[last..] == raw[last..at] + ("}" + raw[at + 1..])
  {
  }

  /** One turn of the scanner: the member whose leading space starts at `from`. */
  method ReadMember(raw: string, from: nat, spans: seq<Span>, ghost brace: nat, ghost ms: seq<Member>) returns (r: Option<Span>)
    requires from <= |raw| && Spans(raw, brace, spans, ms)
    ensures var m := ParseMember(raw, from, true);
            if r.None? then m.Fail? || Breaks(ms, m.value)
            else && m.Got? && StrictMember(true, m.value)
                 && (forall i | 0 <= i < |ms| :: KeyOf(ms[i].name) != KeyOf(m.value.name))
                 && SpansMember(raw, r.value, m.value)
                 && from <= r.value.nameStart == SkipSpace(raw, from) < |raw| && raw[r.value.nameStart] != '}'
                 && m.value.lead == raw[from..r.value.nameStart]
                 && r.value.nameStart < r.value.valueEnd <= m.end == SkipSpace(raw, r.value.valueEnd)
                 && m.value.trail == raw[r.value.valueEnd..m.end]
  {
    hide SpansMember, Strict, KeyOf, ParseMember, ParseName, SkipSpace, SpanIndex, Spans;
    var a := SkipSpace(raw, from);
    var name := ParseName(raw, a);
    MemberParts(raw, from);
    if name.Fail? {
      return None;
    }
    var value := ParseValue(raw, name.end);
    if value.Fail? {
      return None;
    }
    var key := KeyOf(name.value.0);
    if key.None? || !Strict(value.value) {
      return None;
    }
    if SpanIndex(spans, key.value) < |spans| {
      SpanTaken(raw, brace, spans, ms, key.value);
      return None;
    }
    var span := Span(key.value, a, name.end, value.end);
    MemberSpan(raw, from, span);
    SpanFree(raw, brace, spans, ms, key.value);
    return Some(span);
  }

  /**
   The scanner: a span for every member of the object the text starts with, or an error
   for anything that is not a strict JSON object.
   */
  method ScanManifestMembers(raw: string) returns (r: Result<(seq<Span>, nat), Problem>)
    ensures r.Ok? <==> Scan(raw).Some?
    ensures r.Err? ==> r.error == Unreadable
    ensures r.Ok? ==> && r.value.1 == Scan(raw).value.start + 1
                      && Spans(raw, r.value.1, r.value.0, Scan(raw).value.node.members)
                      && Closes(raw, r.value.1, r.value.0, Scan(raw).value)
  {
    hide SpansMember, StrictMember, Strict, KeyOf, ParseMembers, ParseMember, ParseName, SkipSpace, SpanIndex, Continue, SpansGap, Spans, StrictMembers, Scan, Breaks;
    var h := SkipSpace(raw, 0);
    if h == |raw| || raw[h] != '{' {
      ScanNeedsBrace(raw);
      return Err(Unreadable);
    }
    var brace := h + 1;
    var spans: seq<Span> := [];
    ghost var ms: seq<Member> := [];
    var at := SkipSpace(raw, brace);
    var first := at;
    SpansStart(raw, brace);
    while at < |raw| && raw[at] != '}'
      invariant brace <= first <= at <= |raw| && first == SkipSpace(raw, brace)
      invariant |spans| == |ms| && Spans(raw, brace, spans, ms) && StrictMembers(ms)
      invariant if spans == [] then at == first
                else && first < |raw| && raw[first] != '}' && ParseMembers(raw, brace, true) == Continue(raw, at, ms)
                     && spans[|ms| - 1].valueEnd <= at && ms[|ms| - 1].trail == raw[spans[|ms| - 1].valueEnd..at]
      decreases |raw| - at
    {
      var from := brace;
      if spans != [] {
        if raw[at] != ',' {
          ContinueEnds(raw, at, ms);
          ScanMembers(raw);
          return Err(Unreadable);
        }
        from := at + 1;
      }
      ghost var m := ParseMember(raw, from, true);
      assert ParseMembers(raw, brace, true) == if m.Fail? then Fail else Continue(raw, m.end, ms + [m.value]) by {
        if spans == [] {
          assert m.Got? ==> ms + [m.value] == [m.value];
          ContinueStart(raw, brace);
        } else {
          ContinueStep(raw, at, ms);
        }
      }
      ScanMembers(raw);
      var read := ReadMember(raw, from, spans, brace, ms);
      if read.None? {
        if m.Got? { ScanRejects(raw, m.end, ms, m.value); }
        return Err(Unreadable);
      }
      var span := read.value;
      StrictMembersGrow(ms, m.value);
      if ms != [] { GapText(raw, spans[|ms| - 1], span, ms[|ms| - 1], m.value, at); }
      SpansGrow(raw, brace, spans, ms, span, m.value);
      spans, ms, at := spans + [span], ms + [m.value], SkipSpace(raw, span.valueEnd);
    }
    if at == |raw| {
      if spans == [] { EmptyStops(raw, brace); } else { ContinueEnds(raw, at, ms); }
      ScanMembers(raw);
      return Err(Unreadable);
    }
    if spans == [] {
      ScanEmpty(raw);
    } else {
      ContinueEnds(raw, at, ms);
      ScanMembers(raw);
      StrictGroup("", ms);
    }
    ClosesAt(raw, if spans == [] then brace else spans[|ms| - 1].valueEnd, at);
    return Ok((spans, brace));
  }

  lemma SpansStart(raw: string, brace: nat)
    requires brace <= |raw|
    ensures Spans(raw, brace, [], []) && StrictMembers([])
  {
  }

  lemma ScanNeedsBrace(raw: string)
    requires var h := SkipSpace(raw, 0); h == |raw| || raw[h] != '{'
    ensures Scan(raw).None?
  {
  }

  lemma ContinueEnds(raw: string, at: nat, ms: seq<Member>)
    requires at <= |raw| && (at < |raw| ==> raw[at] != ',')
    ensures Continue(raw, at, ms) == if at < |raw| && raw[at] == '}' then Got(ms, at + 1) else Fail
  {
  }

  lemma EmptyStops(raw: string, brace: nat)
    requires brace <= |raw| && SkipSpace(raw, brace) == |raw|
    ensures ParseMembers(raw, brace, true).Fail?
  {
  }

  lemma ScanEmpty(raw: string)
    requires var h := SkipSpace(raw, 0); h < |raw| && raw[h] == '{'
    requires var a := SkipSpace(raw, SkipSpace(raw, 0) + 1); a < |raw| && raw[a] == '}'
    ensures var h := SkipSpace(raw, 0);
            var a := SkipSpace(raw, h + 1);
            Scan(raw) == Some(Scanned(h, Group(true, raw[h + 1..a], []), a + 1))
  {
    hide Strict, SkipSpace, ParseMembers, Blank, ScalarEnd;
    var h := SkipSpace(raw, 0);
    var a := SkipSpace(raw, h + 1);
    SpansStart(raw, 0);
    StrictGroup(raw[h + 1..a], []);
    assert ParseValue(raw, h) == Got(Group(true, raw[h + 1..a], []), a + 1);
    hide ParseValue;
  }

  lemma StrictGroup(pad: string, ms: seq<Member>)
    requires StrictMembers(ms)
    ensures Strict(Group(true, pad, ms))
  {
    hide KeyOf, StrictMember;
  }

  /** A member is read in three steps: space, name, value. */
  lemma MemberParts(raw: string, from: nat)
    requires from <= |raw|
    ensures var m, a := ParseMember(raw, from, true), SkipSpace(raw, from);
            var name := ParseName(raw, a);
            if name.Fail? || ParseValue(raw, name.end).Fail? then m.Fail?
            else && m.Got? && m.value.name == name.value.0 && m.value.value == ParseValue(raw, name.end).value
                 && a < |raw| && raw[a] != '}'
  {
    hide ParseValue, SkipSpace, StringTail;
  }

  lemma SpanTaken(raw: string, brace: nat, spans: seq<Span>, ms: seq<Member>, key: string)
    requires Spans(raw, brace, spans, ms) && SpanIndex(spans, key) < |spans|
    ensures exists i :: 0 <= i < |ms| && KeyOf(ms[i].name) == Some(key)
  {
    var i := SpanIndex(spans, key);
    assert SpansMember(raw, spans[i], ms[i]);
  }

  lemma SpanFree(raw: string, brace: nat, spans: seq<Span>, ms: seq<Member>, key: string)
    requires Spans(raw, brace, spans, ms) && SpanIndex(spans, key) == |spans|
    ensures forall i | 0 <= i < |ms| :: KeyOf(ms[i].name) != Some(key)
  {
    forall i | 0 <= i < |ms| ensures KeyOf(ms[i].name) != Some(key) {
      assert SpansMember(raw, spans[i], ms[i]);
    }
  }

  lemma GapText(raw: string, s: Span, t: Span, m: Member, l: Member, at: nat)
    requires s.valueEnd <= at < t.nameStart <= |raw| && raw[at] == ','
    requires m.trail == raw[s.valueEnd..at] && l.lead == raw[at + 1..t.nameStart]
    ensures SpansGap(raw, s, t, m, l)
  {
    assert raw[at..at + 1] == ",";
    SliceInThree(raw, s.valueEnd, at, at + 1, t.nameStart);
  }
}
