/** Dotted keys on text: the rewriter descends into a member's value and puts the rewritten value back in its place. */
module ManifestDotted {
  import opened Basics
  import opened Ordering
  import opened JsonLex
  import opened JsonTree
  import opened JsonFormat
  import opened ManifestTree
  import opened ManifestEdit
  import opened ManifestRewrite
  import opened Manifest
  import opened ManifestSplice

  // ---------------------------------------------------------------- the text around one value

  /** What PrintMembers prints before the value of member `i`, and behind it. */
  function Prefix(ms: seq<Member>, i: nat): string
    requires i < |ms|
  {
    if i == 0 then ms[0].lead + (ms[0].name + Colon(true, ms[0]))
    else PrintMember(true, ms[0]) + ("," + Prefix(ms[1..], i - 1))
  }

  function Suffix(ms: seq<Member>, i: nat): string
    requires i < |ms|
  {
    if i > 0 then Suffix(ms[1..], i - 1)
    else if |ms| == 1 then ms[0].trail
    else ms[0].trail + ("," + PrintMembers(true, ms[1..]))
  }

  lemma {:induction false} PrintAround(ms: seq<Member>, i: nat)
    requires i < |ms|
    ensures PrintMembers(true, ms) == Prefix(ms, i) + (Print(ms[i].value) + Suffix(ms, i))
    decreases i
  {
    hide Print, Colon;
    var m := ms[0];
    if i == 0 {
      var head := m.name + Colon(true, m);
      Around0(m.lead, head, Print(m.value), m.trail, if |ms| == 1 then "" else "," + PrintMembers(true, ms[1..]));
      if |ms| == 1 { assert m.trail + "" == m.trail; assert PrintMember(true, m) + "" == PrintMember(true, m); }
    } else {
      PrintAround(ms[1..], i - 1);
      assert ms[1..][i - 1] == ms[i];
      AroundMore(PrintMember(true, m), Prefix(ms[1..], i - 1), Print(ms[i].value) + Suffix(ms, i));
    }
  }

  lemma Around0(lead: string, head: string, value: string, trail: string, rest: string)
    ensures (lead + (head + (value + trail))) + rest == (lead + head) + (value + (trail + rest))
  {
  }

  lemma AroundMore(first: string, prefix: string, rest: string)
    ensures first + ("," + (prefix + rest)) == (first + ("," + prefix)) + rest
  {
  }

  lemma {:induction false} AroundReplaced(ms: seq<Member>, i: nat, f: Node)
    requires i < |ms|
    ensures Prefix(Replaced(ms, i, f), i) == Prefix(ms, i) && Suffix(Replaced(ms, i, f), i) == Suffix(ms, i)
    decreases i
  {
    var rs := Replaced(ms, i, f);
    if i > 0 {
      AroundReplaced(ms[1..], i - 1, f);
      assert rs[1..] == Replaced(ms[1..], i - 1, f);
    } else {
      assert rs[1..] == ms[1..];
    }
  }

  lemma {:induction false} PrefixNext(ms: seq<Member>, i: nat)
    requires i + 1 < |ms|
    ensures |Prefix(ms, i + 1)| == |Prefix(ms, i)| + |Print(ms[i].value)| + |ms[i].trail + ("," + ms[i + 1].lead)|
                                   + |ms[i + 1].name + Colon(true, ms[i + 1])|
    decreases i
  {
    hide Print, Colon;
    if i > 0 {
      hide PrintMember;
      PrefixNext(ms[1..], i - 1);
      assert ms[1..][i] == ms[i + 1] && ms[1..][i - 1] == ms[i];
    } else {
      var m, l := ms[0], ms[1];
      assert Prefix(ms[1..], 0) == l.lead + (l.name + Colon(true, l));
      assert Prefix(ms, 1) == PrintMember(true, m) + ("," + Prefix(ms[1..], 0));
      hide Prefix;
    }
  }

  /** The spans give each value its place in the printed members. */
  lemma {:induction false} ValuePlace(raw: string, brace: nat, spans: seq<Span>, ms: seq<Member>, i: nat)
    requires Spans(raw, brace, spans, ms) && i < |ms|
    ensures |spans| == |ms| && spans[i].valueStart == brace + |Prefix(ms, i)| && spans[i].valueEnd == spans[i].valueStart + |Print(ms[i].value)|
    decreases i
  {
    hide Print, Colon;
    SpansAt(raw, brace, spans, ms, i);
    if i > 0 {
      hide Spans;
      ValuePlace(raw, brace, spans, ms, i - 1);
      SpansAt(raw, brace, spans, ms, i - 1);
      PrefixNext(ms, i - 1);
    }
  }

  /** Replacing the bytes of one value is replacing the value in the tree. */
  lemma SpliceValue(raw: string, brace: nat, spans: seq<Span>, i: nat, f: Node)
    requires Scan(raw).Some? && brace == Scan(raw).value.start + 1
    requires i < |spans| && Spans(raw, brace, spans, Scan(raw).value.node.members)
    ensures var sc := Scan(raw).value;
            var ms := sc.node.members;
            && |spans| == |ms| && spans[i].valueStart <= spans[i].valueEnd <= |raw|
            && raw[..spans[i].valueStart] + Print(f) + raw[spans[i].valueEnd..]
               == Splice(raw, sc, Group(true, sc.node.pad, Replaced(ms, i, f)))
  {
    hide Scan, PrintMembers, Prefix, Suffix, Spans, Replaced;
    var sc := Scan(raw).value;
    var ms := sc.node.members;
    SpansLength(raw, brace, spans, ms);
    SpansAt(raw, brace, spans, ms, i);
    ScanReadable(raw);
    ScanStart(raw);
    assert sc.node.pad == "" by { assert ms != []; }
    var a, v, b := Prefix(ms, i), Print(ms[i].value), Suffix(ms, i);
    ReplacedShape(ms, i, f);
    PrintAround(ms, i);
    PrintAround(Replaced(ms, i, f), i);
    AroundReplaced(ms, i, f);
    ValuePlace(raw, brace, spans, ms, i);
    PrintInside(true, "", ms);
    PrintInside(true, "", Replaced(ms, i, f));
    Cut(raw, sc.start, sc.end, a, v, b);
    PutBack(raw[..sc.start], a, Print(f), b, raw[sc.end..]);
  }

  lemma ReplacedShape(ms: seq<Member>, i: nat, f: Node)
    requires i < |ms|
    ensures |Replaced(ms, i, f)| == |ms| && Replaced(ms, i, f)[i].value == f
  {
  }

  lemma PrintInside(isObject: bool, pad: string, ms: seq<Member>)
    requires pad == ""
    ensures Print(Group(isObject, pad, ms)) == [Open(isObject)] + (PrintMembers(isObject, ms) + [Close(isObject)])
  {
    assert "" + (PrintMembers(isObject, ms) + [Close(isObject)]) == PrintMembers(isObject, ms) + [Close(isObject)];
  }

  lemma Cut(raw: string, start: nat, end: nat, a: string, v: string, b: string)
    requires start <= end <= |raw| && raw[start..end] == ['{'] + ((a + (v + b)) + ['}'])
    ensures var p := start + 1 + |a|;
            p + |v| <= |raw| && raw[..p] == raw[..start] + (['{'] + a) && raw[p + |v|..] == b + (['}'] + raw[end..])
  {
    var p := start + 1 + |a|;
    var inner := raw[start..end];
    assert |inner| == 2 + |a| + |v| + |b|;
    assert raw[..p] == raw[..start] + inner[..1 + |a|];
    assert inner[..1 + |a|] == ['{'] + a;
    assert raw[p + |v|..] == inner[1 + |a| + |v|..] + raw[end..];
    assert inner[1 + |a| + |v|..] == b + ['}'];
  }

  lemma PutBack(head: string, a: string, f: string, b: string, rest: string)
    ensures head + (['{'] + a) + f + (b + (['}'] + rest)) == head + (['{'] + ((a + (f + b)) + ['}'])) + rest
  {
  }

  // ---------------------------------------------------------------- the rewriter

  /** A value's own text scans as that value, if it is an object. */
  lemma ScanPrinted(n: Node)
    requires WellFormed(n) && Strict(n)
    ensures Scan(Print(n)) == if IsObject(n) then Some(Scanned(0, n, |Print(n)|)) else None
  {
    hide WellFormed, Strict, Print, ParseValue;
    var t := Print(n);
    PrintStart(n);
    assert SkipSpace(t, 0) == 0;
    assert t[0..0 + |t|] == t;
    PrintedValueParses(t, 0, n);
    if n.Group? { GroupOpens(n); }
  }

  lemma BlocksOne(raw: string, b: Block)
    ensures BlocksText(raw, [b]) == match BlockText(raw, b)
                                    case Err(e) => Err(e)
                                    case Ok((t, c)) => Ok((t, if c then [b.key] else []))
  {
    hide BlockText;
    assert [b][..0] == [];
    assert [] + [b.key] == [b.key];
  }

  lemma SortOne(x: string)
    ensures SortStrings([x]) == [x] && SortStrings([]) == []
  {
    assert [x][..0] == [];
  }

  lemma EditReports(n: Node, b: Block)
    requires IsObject(n) && EditKeys(n, [b]).Ok?
    ensures EditKeys(n, [b]).value.1 == [] || EditKeys(n, [b]).value.1 == [b.key]
  {
    hide IndexOf, SameJson, Formatted, StyleOf, Kept, NewMembers, FormatAll;
    PlanOne(n, b);
    assert [] + [b.key] == [b.key];
  }

  lemma PlainBlock(raw: string, b: Block)
    requires !Nested(b.key)
    ensures match KeysText(raw, [b])
            case Err(e) => BlockText(raw, b) == Err(e)
            case Ok((t, keys)) => BlockText(raw, b) == Ok((t, keys != [])) && (keys == [] || keys == [b.key])
  {
    hide Scan, EditKeys, Splice, SortStrings;
    SortOne(b.key);
    if Scan(raw).Some? && EditKeys(Scan(raw).value.node, [b]).Ok? { EditReports(Scan(raw).value.node, b); }
  }

  function LongestKey(blocks: seq<Block>): (l: nat)
    ensures forall i | 0 <= i < |blocks| :: |blocks[i].key| <= l
  {
    if blocks == [] then 0
    else
      var rest := LongestKey(blocks[..|blocks| - 1]);
      var last := |blocks[|blocks| - 1].key|;
      if last > rest then last else rest
  }

  lemma {:induction false} BlocksFail(raw: string, blocks: seq<Block>, i: nat)
    requires i <= |blocks| && BlocksText(raw, blocks[..i]).Err?
    ensures BlocksText(raw, blocks) == BlocksText(raw, blocks[..i])
    decreases |blocks| - i
  {
    hide BlockText;
    if i == |blocks| {
      assert blocks[..i] == blocks;
    } else {
      assert blocks[..i + 1][..i] == blocks[..i];
      BlocksFail(raw, blocks, i + 1);
    }
  }

  /** All blocks, one after the other, each seeing the text the one before it left. */
  method RewriteManifest(input: string, blocks: seq<Block>) returns (r: Result<(string, seq<string>), Problem>)
    ensures match BlocksText(input, blocks)
            case Err(e) => r == Err(e)
            case Ok((t, changed)) => r == Ok((t, SortStrings(changed)))
    decreases LongestKey(blocks), 1
  {
    hide BlockText, SortStrings;
    var raw, changed: seq<string> := input, [];
    assert blocks[..0] == [];
    for i := 0 to |blocks|
      invariant BlocksText(input, blocks[..i]) == Ok((raw, changed))
    {
      var b := blocks[i];
      assert blocks[..i + 1][..i] == blocks[..i];
      var step := RewriteBlock(raw, b);
      if step.Err? {
        BlocksFail(input, blocks, i + 1);
        return Err(step.error);
      }
      if step.value.1 {
        changed := changed + [b.key];
      }
      raw := step.value.0;
    }
    assert blocks[..|blocks|] == blocks;
    return Ok((raw, SortStrings(changed)));
  }

  /** One turn of the loop: a plain key goes to the splicer, a dotted one into its parent's value. */
  method RewriteBlock(raw: string, b: Block) returns (r: Result<(string, bool), Problem>)
    ensures r == BlockText(raw, b)
    decreases |b.key|, 0
  {
    hide SortStrings, Spans, Scan, EditKeys, IndexOf, SpanIndex, Splice, Replaced, WellFormed, Strict, Print;
    if !Nested(b.key) {
      PlainBlock(raw, b);
      var plain := RewriteManifestKeys(raw, [b]);
      if plain.Err? {
        return Err(plain.error);
      }
      return Ok((plain.value.0, plain.value.1 != []));
    }
    var scan := ScanManifestMembers(raw);
    if scan.Err? {
      return Err(Unreadable);
    }
    var (spans, brace) := scan.value;
    ghost var sc := Scan(raw).value;
    ScanReadable(raw);
    SpanIndexOf(raw, brace, spans, sc.node.members, Parent(b.key));
    SpansLength(raw, brace, spans, sc.node.members);
    var i := SpanIndex(spans, Parent(b.key));
    var current := "{}";
    ghost var w := EMPTY_OBJECT;
    if i < |spans| {
      SpansAt(raw, brace, spans, sc.node.members, i);
      current := raw[spans[i].valueStart..spans[i].valueEnd];
      w := sc.node.members[i].value;
      MemberReadable(sc.node, i);
    } else {
      EmptyReadable();
    }
    LongestOne(Block(Child(b.key), b.value));
    var inner := RewriteManifest(current, [Block(Child(b.key), b.value)]);
    InnerBlock(w, Block(Child(b.key), b.value));
    if inner.Err? {
      return Err(inner.error);
    }
    if inner.value.1 == [] {
      return Ok((raw, false));
    }
    ghost var f := RewriteKey(w, Child(b.key), b.value).value.0;
    if i == |spans| {
      var added := RewriteManifestKeys(raw, [Block(Parent(b.key), Some(inner.value.0))]);
      if added.Err? {
        return Err(added.error);
      }
      AddedChanges(sc.node, Parent(b.key), inner.value.0);
      return Ok((added.value.0, true));
    }
    SpliceValue(raw, brace, spans, i, f);
    return Ok((raw[..spans[i].valueStart] + inner.value.0 + raw[spans[i].valueEnd..], true));
  }

  lemma LongestOne(b: Block)
    ensures LongestKey([b]) == |b.key|
  {
    assert [b][..0] == [];
  }

  /** Rewriting a value's own text is rewriting the value. */
  lemma InnerBlock(w: Node, b: Block)
    requires WellFormed(w) && Strict(w)
    ensures match BlocksText(Print(w), [b])
            case Err(e) => if IsObject(w) then RewriteKey(w, b.key, b.value) == Err(e) else e == Unreadable
            case Ok((t, keys)) => && IsObject(w) && RewriteKey(w, b.key, b.value).Ok?
                                  && t == Print(RewriteKey(w, b.key, b.value).value.0)
                                  && (SortStrings(keys) != [] <==> RewriteKey(w, b.key, b.value).value.1)
    ensures IsObject(w) && RewriteKey(w, b.key, b.value).Ok? && !RewriteKey(w, b.key, b.value).value.1 ==> RewriteKey(w, b.key, b.value).value.0 == w
  {
    hide Scan, Print, WellFormed, Strict, RewriteKey, SortStrings;
    BlocksOne(Print(w), b);
    ScanPrinted(w);
    SortOne(b.key);
    if IsObject(w) && RewriteKey(w, b.key, b.value).Ok? {
      RewriteKeyMeans(w, b.key, b.value);
      var t := Print(w);
      var n := RewriteKey(w, b.key, b.value).value.0;
      assert t[..0] + Print(n) + t[|t|..] == Print(n);
    }
  }

  lemma AddedChanges(n: Node, key: string, text: string)
    requires Readable(n) && IndexOf(n.members, key) == |n.members| && EditKeys(n, [Block(key, Some(text))]).Ok?
    ensures EditKeys(n, [Block(key, Some(text))]).value.1 != []
  {
    hide EditKeys;
    EditAppends(n, key, text);
  }
}
