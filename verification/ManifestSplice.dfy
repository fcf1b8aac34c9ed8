/** Writing the spliced text: the output buffer grows member by member between the spans of the input. */
module ManifestSplice {
  import opened Basics
  import opened Ordering
  import opened JsonTree
  import opened JsonFormat
  import opened ManifestTree
  import opened ManifestEdit
  import opened Manifest

  // ---------------------------------------------------------------- an object's inside, grown at the end

  /** Name, colon and value. */
  function Core(m: Member): string {
    m.name + Colon(true, m) + Print(m.value)
  }

  /** The printed members without the space behind the last one. */
  function Body(ms: seq<Member>): string {
    if ms == [] then ""
    else if |ms| == 1 then ms[0].lead + Core(ms[0])
    else
      var k := |ms| - 1;
      Body(ms[..k]) + ms[k - 1].trail + "," + ms[k].lead + Core(ms[k])
  }

  lemma {:induction false} PrintMembersLast(ms: seq<Member>)
    requires |ms| >= 2
    ensures PrintMembers(true, ms) == PrintMembers(true, ms[..|ms| - 1]) + ("," + PrintMember(true, ms[|ms| - 1]))
    decreases |ms|
  {
    hide PrintMember;
    var init, last := ms[..|ms| - 1], ms[|ms| - 1];
    if |ms| == 2 {
      assert ms[1..] == [last] && init == [ms[0]];
    } else {
      PrintMembersLast(ms[1..]);
      assert ms[1..][..|ms| - 2] == init[1..];
      var head, mid, tail := PrintMember(true, ms[0]), PrintMembers(true, init[1..]), PrintMember(true, last);
      Regroup(head, mid, tail);
    }
  }

  lemma Regroup(head: string, mid: string, tail: string)
    ensures head + ("," + (mid + ("," + tail))) == head + ("," + mid) + ("," + tail)
  {
  }

  lemma {:induction false} BodyPrints(ms: seq<Member>)
    requires ms != []
    ensures PrintMembers(true, ms) == Body(ms) + ms[|ms| - 1].trail
    decreases |ms|
  {
    hide Print, Colon;
    var m := ms[|ms| - 1];
    MemberText(m);
    if |ms| > 1 {
      var init := ms[..|ms| - 1];
      BodyPrints(init);
      PrintMembersLast(ms);
      Regroup5(Body(init), init[|init| - 1].trail, m.lead, Core(m), m.trail);
    }
  }

  lemma MemberText(m: Member)
    ensures PrintMember(true, m) == m.lead + Core(m) + m.trail
  {
    hide Print, Colon;
    assert m.lead + ((m.name + Colon(true, m)) + (Print(m.value) + m.trail)) == m.lead + (m.name + Colon(true, m) + Print(m.value)) + m.trail;
  }

  lemma Regroup5(a: string, b: string, c: string, d: string, e: string)
    ensures a + b + ("," + (c + d + e)) == (a + b + ",") + c + d + e
  {
  }

  lemma BodyOne(m: Member)
    ensures Body([m]) == m.lead + Core(m)
  {
  }

  lemma BodyMore(ms: seq<Member>, m: Member)
    requires ms != []
    ensures Body(ms + [m]) == Body(ms) + ms[|ms| - 1].trail + "," + m.lead + Core(m)
  {
    hide Core;
    assert (ms + [m])[..|ms|] == ms;
  }

  // ---------------------------------------------------------------- planning

  lemma SpanIndexOf(raw: string, brace: nat, spans: seq<Span>, ms: seq<Member>, key: string)
    requires Spans(raw, brace, spans, ms)
    ensures SpanIndex(spans, key) == IndexOf(ms, key)
  {
    hide KeyOf;
    forall i | 0 <= i < |ms| ensures HasKey(ms[i], key) <==> spans[i].key == key {
      assert SpansMember(raw, spans[i], ms[i]);
    }
    var i, j := SpanIndex(spans, key), IndexOf(ms, key);
  }

  lemma {:induction false} PlanFails(n: Node, blocks: seq<Block>, i: nat)
    requires IsObject(n) && i <= |blocks| && PlanBlocks(n, blocks[..i]).Err?
    ensures PlanBlocks(n, blocks) == PlanBlocks(n, blocks[..i])
    decreases |blocks| - i
  {
    if i == |blocks| {
      assert blocks[..i] == blocks;
    } else {
      assert blocks[..i + 1][..i] == blocks[..i];
      PlanFails(n, blocks, i + 1);
    }
  }

  /** The replacement texts are the printed replacement trees. */
  predicate Prints(texts: map<string, string>, nodes: map<string, Node>) {
    texts.Keys == nodes.Keys && forall k | k in texts :: texts[k] == Print(nodes[k])
  }

  method PlanSplice(raw: string, spans: seq<Span>, style: Style, blocks: seq<Block>, ghost brace: nat, ghost n: Node)
    returns (r: Result<(map<string, string>, set<string>, seq<Block>, seq<string>), Problem>)
    requires IsObject(n) && WellFormed(n) && Spans(raw, brace, spans, n.members) && style == StyleOf(n)
    ensures match PlanBlocks(n, blocks)
            case Err(e) => r == Err(e)
            case Ok(p) => r.Ok? && Prints(r.value.0, p.replaced) && r.value.1 == p.removed
                          && r.value.2 == p.appended && r.value.3 == p.changed
  {
    hide Spans, WellFormed, StyleOf, Formatted, SameJson, SpanIndex, IndexOf;
    var replacements: map<string, string>, removed: set<string> := map[], {};
    var appended: seq<Block>, changed: seq<string> := [], [];
    ghost var p := NO_PLAN;
    assert blocks[..0] == [];
    for i := 0 to |blocks|
      invariant PlanBlocks(n, blocks[..i]) == Ok(p) && Prints(replacements, p.replaced)
      invariant removed == p.removed && appended == p.appended && changed == p.changed
    {
      var b := blocks[i];
      assert blocks[..i + 1][..i] == blocks[..i];
      SpanIndexOf(raw, brace, spans, n.members, b.key);
      var j := SpanIndex(spans, b.key);
      if j == |spans| {
        SpansLength(raw, brace, spans, n.members);
        if b.value.Some? {
          appended, changed := appended + [b], changed + [b.key];
        }
      } else if b.value.None? {
        SpansLength(raw, brace, spans, n.members);
        removed, changed := removed + {b.key}, changed + [b.key];
      } else {
        SpansAt(raw, brace, spans, n.members, j);
        if !SameJson(raw[spans[j].valueStart..spans[j].valueEnd], b.value.value) {
          var formatted := Formatted(style, b.value.value);
          if formatted.None? {
            PlanFails(n, blocks, i + 1);
            return Err(BadValue);
          }
          replacements, changed := replacements[b.key := Print(formatted.value)], changed + [b.key];
        }
      }
      p := PlanBlock(n, p, b).value;
    }
    assert blocks[..|blocks|] == blocks;
    return Ok((replacements, removed, appended, changed));
  }

  lemma SpansLength(raw: string, brace: nat, spans: seq<Span>, ms: seq<Member>)
    requires Spans(raw, brace, spans, ms)
    ensures |spans| == |ms| && brace <= |raw|
  {
  }

  lemma SpansAt(raw: string, brace: nat, spans: seq<Span>, ms: seq<Member>, i: nat)
    requires Spans(raw, brace, spans, ms) && i < |spans|
    ensures |spans| == |ms| && SpansMember(raw, spans[i], ms[i])
    ensures i + 1 < |spans| ==> SpansGap(raw, spans[i], spans[i + 1], ms[i], ms[i + 1])
  {
  }

  method KeptSpans(raw: string, spans: seq<Span>, removed: set<string>, ghost brace: nat, ghost ms: seq<Member>) returns (kept: seq<nat>)
    requires Spans(raw, brace, spans, ms)
    ensures |spans| == |ms| && kept == Kept(ms, removed, |ms|)
  {
    kept := [];
    for i := 0 to |spans|
      invariant kept == Kept(ms, removed, i)
    {
      SpansAt(raw, brace, spans, ms, i);
      if spans[i].key !in removed {
        kept := kept + [i];
      }
    }
  }

  // ---------------------------------------------------------------- writing

  /** The separator that followed member `prev`, or the default behind the last one. */
  function Gap(raw: string, spans: seq<Span>, style: Style, prev: nat): string
    requires prev < |spans| && (prev + 1 < |spans| ==> spans[prev].valueEnd <= spans[prev + 1].nameStart <= |raw|)
  {
    if prev + 1 >= |spans| then "," + style.gap else raw[spans[prev].valueEnd..spans[prev + 1].nameStart]
  }

  ghost function KeptMembers(n: Node, p: Plan, ks: seq<nat>, k: nat): (out: seq<Member>)
    requires IsObject(n) && k <= |ks| && forall q | 0 <= q < |ks| :: ks[q] < |n.members|
    ensures |out| == k && forall j | 0 <= j < k :: out[j] == KeptMember(n, p, ks, j)
  {
    seq(k, j requires 0 <= j < k => KeptMember(n, p, ks, j))
  }

  /** What the buffer holds after `k` kept members, without the text before the brace. */
  ghost function KeptText(n: Node, p: Plan, ks: seq<nat>, k: nat): string
    requires IsObject(n) && k <= |ks| && forall q | 0 <= q < |ks| :: ks[q] < |n.members|
  {
    if k == 0 then (if n.members == [] then "" else n.members[0].lead) else Body(KeptMembers(n, p, ks, k))
  }

  lemma KeptTextStep(n: Node, p: Plan, ks: seq<nat>, k: nat)
    requires IsObject(n) && k < |ks| && n.members != [] && forall q | 0 <= q < |ks| :: ks[q] < |n.members|
    requires forall i, j | 0 <= i < j < |ks| :: ks[i] < ks[j]
    ensures var m := n.members[ks[k]];
            var head := if k == 0 then KeptText(n, p, ks, 0)
                        else KeptText(n, p, ks, k) + (n.members[ks[k - 1]].trail + ("," + n.members[ks[k - 1] + 1].lead));
            KeptText(n, p, ks, k + 1) == head + (m.name + Colon(true, m)) + Print(NewValue(m, p.replaced))
  {
    hide Print, Colon, NewValue, StyleOf, Body;
    var all := KeptMembers(n, p, ks, k + 1);
    var m := all[k];
    assert m == KeptMember(n, p, ks, k);
    assert all[..k] == KeptMembers(n, p, ks, k);
    assert all == all[..k] + [m];
    ColonSame(n.members[ks[k]], m);
    if k == 0 {
      assert all == [m];
      BodyOne(m);
      Regroup3(m.lead, m.name + Colon(true, m), Print(m.value));
    } else {
      var prev := all[k - 1];
      assert prev == KeptMember(n, p, ks, k - 1);
      assert ks[k - 1] < ks[k];
      assert prev.trail == n.members[ks[k - 1]].trail;
      BodyMore(all[..k], m);
      Regroup4(Body(all[..k]), prev.trail, m.lead, m.name + Colon(true, m), Print(m.value));
    }
  }

  lemma ColonSame(a: Member, b: Member)
    requires a.pre == b.pre && a.post == b.post
    ensures Colon(true, a) == Colon(true, b)
  {
  }

  lemma Regroup3(a: string, b: string, c: string)
    ensures a + (b + c) == a + b + c
  {
  }

  lemma Regroup4(a: string, b: string, c: string, d: string, e: string)
    ensures (a + b + ",") + c + (d + e) == a + (b + ("," + c)) + d + e
  {
  }

  /** The kept members, written behind the head of the input. */
  method WriteKept(raw: string, spans: seq<Span>, brace: nat, style: Style, kept: seq<nat>, replacements: map<string, string>,
                   ghost n: Node, ghost p: Plan) returns (out: string)
    requires IsObject(n) && Spans(raw, brace, spans, n.members) && style == StyleOf(n) && Prints(replacements, p.replaced)
    requires (forall q | 0 <= q < |kept| :: kept[q] < |n.members|) && forall i, j | 0 <= i < j < |kept| :: kept[i] < kept[j]
    ensures brace <= |raw| && out == raw[..brace] + KeptText(n, p, kept, |kept|)
  {
    hide KeptText, StyleOf, Spans, Prints;
    WriteHead(raw, spans, brace, n, p, kept);
    SpansLength(raw, brace, spans, n.members);
    out := if |spans| == 0 then raw[..brace] else raw[..spans[0].nameStart];
    for k := 0 to |kept|
      invariant out == raw[..brace] + KeptText(n, p, kept, k)
    {
      ghost var before := KeptText(n, p, kept, k);
      PieceBounds(raw, spans, brace, n, kept, k);
      var gap := if k == 0 then "" else Gap(raw, spans, style, kept[k - 1]);
      var s := spans[kept[k]];
      var name := raw[s.nameStart..s.valueStart];
      var value := if s.key in replacements then replacements[s.key] else raw[s.valueStart..s.valueEnd];
      PieceText(raw, spans, brace, style, kept, replacements, n, p, k);
      out := out + gap + name + value;
      KeptWritten(raw[..brace], before, gap, name, value);
    }
  }

  lemma PieceBounds(raw: string, spans: seq<Span>, brace: nat, n: Node, kept: seq<nat>, k: nat)
    requires IsObject(n) && Spans(raw, brace, spans, n.members) && k < |kept|
    requires (forall q | 0 <= q < |kept| :: kept[q] < |n.members|) && forall i, j | 0 <= i < j < |kept| :: kept[i] < kept[j]
    ensures |spans| == |n.members| && spans[kept[k]].nameStart <= spans[kept[k]].valueStart <= spans[kept[k]].valueEnd <= |raw|
    ensures k > 0 ==> kept[k - 1] + 1 < |spans| && spans[kept[k - 1]].valueEnd <= spans[kept[k - 1] + 1].nameStart <= |raw|
  {
    hide Spans;
    SpansLength(raw, brace, spans, n.members);
    SpansAt(raw, brace, spans, n.members, kept[k]);
    if k > 0 { SpansAt(raw, brace, spans, n.members, kept[k - 1]); }
  }

  /** Gap, name and value as the loop copies them are what the next kept member prints. */
  lemma PieceText(raw: string, spans: seq<Span>, brace: nat, style: Style, kept: seq<nat>, replacements: map<string, string>,
                  n: Node, p: Plan, k: nat)
    requires IsObject(n) && Spans(raw, brace, spans, n.members) && k < |kept| && Prints(replacements, p.replaced)
    requires (forall q | 0 <= q < |kept| :: kept[q] < |n.members|) && forall i, j | 0 <= i < j < |kept| :: kept[i] < kept[j]
    ensures |spans| == |n.members| && spans[kept[k]].nameStart <= spans[kept[k]].valueStart <= spans[kept[k]].valueEnd <= |raw|
    ensures k > 0 ==> kept[k - 1] + 1 < |spans| && spans[kept[k - 1]].valueEnd <= spans[kept[k - 1] + 1].nameStart <= |raw|
    ensures var s := spans[kept[k]];
            var gap := if k == 0 then "" else Gap(raw, spans, style, kept[k - 1]);
            var value := if s.key in replacements then replacements[s.key] else raw[s.valueStart..s.valueEnd];
            KeptText(n, p, kept, k + 1) == KeptText(n, p, kept, k) + gap + raw[s.nameStart..s.valueStart] + value
  {
    hide KeptText, Spans, Print, Colon;
    PieceBounds(raw, spans, brace, n, kept, k);
    SpansAt(raw, brace, spans, n.members, kept[k]);
    if k > 0 { SpansAt(raw, brace, spans, n.members, kept[k - 1]); }
    else { assert KeptText(n, p, kept, 0) + "" == KeptText(n, p, kept, 0); }
    KeptTextStep(n, p, kept, k);
  }

  lemma KeptWritten(head: string, before: string, gap: string, name: string, value: string)
    ensures head + before + gap + name + value == head + (before + gap + name + value)
  {
  }

  lemma WriteHead(raw: string, spans: seq<Span>, brace: nat, n: Node, p: Plan, ks: seq<nat>)
    requires IsObject(n) && Spans(raw, brace, spans, n.members) && forall q | 0 <= q < |ks| :: ks[q] < |n.members|
    ensures brace <= |raw| && (spans != [] ==> spans[0].nameStart <= |raw|)
    ensures (if spans == [] then raw[..brace] else raw[..spans[0].nameStart]) == raw[..brace] + KeptText(n, p, ks, 0)
  {
    if spans != [] {
      SpansAt(raw, brace, spans, n.members, 0);
      assert raw[..spans[0].nameStart] == raw[..brace] + raw[brace..spans[0].nameStart];
    }
  }

  // ---------------------------------------------------------------- the new members

  lemma NewMembersAt(n: Node, p: Plan, ks: seq<nat>, fs: seq<Node>)
    requires IsObject(n) && |fs| == |p.appended| && forall q | 0 <= q < |ks| :: ks[q] < |n.members|
    ensures var all := NewMembers(n, p, ks, fs);
            && |all| == |ks| + |fs| && all[..|ks|] == KeptMembers(n, p, ks, |ks|)
            && forall i | 0 <= i < |fs| :: all[|ks| + i] == NewMember(n, p, ks, fs, i)
  {
  }

  /** What the buffer holds behind the brace when `i` new members have been written. */
  ghost function NewText(n: Node, p: Plan, ks: seq<nat>, fs: seq<Node>, i: nat): string
    requires IsObject(n) && i <= |fs| == |p.appended| && forall q | 0 <= q < |ks| :: ks[q] < |n.members|
  {
    if i == 0 then KeptText(n, p, ks, |ks|) else Body(NewMembers(n, p, ks, fs)[..|ks| + i])
  }

  lemma NewTextStep(n: Node, p: Plan, ks: seq<nat>, fs: seq<Node>, i: nat)
    requires IsObject(n) && i < |fs| == |p.appended| && forall q | 0 <= q < |ks| :: ks[q] < |n.members|
    ensures var gap := if ks == [] && i == 0 then StyleOf(n).gap else "," + StyleOf(n).gap;
            NewText(n, p, ks, fs, i + 1)
            == NewText(n, p, ks, fs, i) + gap + Quoted(p.appended[i].key) + (":" + StyleOf(n).after) + Print(fs[i])
  {
    hide Print, Quoted, StyleOf, NewMembers, KeptMember, Body, Core;
    NewMembersAt(n, p, ks, fs);
    var all := NewMembers(n, p, ks, fs);
    var k := |ks| + i;
    var m := all[k];
    assert m == NewMember(n, p, ks, fs, i);
    assert all[..k + 1] == all[..k] + [m];
    NewCore(m, StyleOf(n).after);
    if k == 0 {
      assert all[..1] == [m];
      BodyOne(m);
      FirstNew(KeptText(n, p, ks, 0), StyleOf(n).gap, m.name, ":" + StyleOf(n).after, Print(m.value));
    } else {
      if i == 0 {
        assert all[..k] == KeptMembers(n, p, ks, |ks|);
        LastKeptTrail(n, p, ks);
      } else {
        assert all[k - 1] == NewMember(n, p, ks, fs, i - 1);
      }
      assert all[..k][k - 1].trail == "";
      BodyMore(all[..k], m);
      NextNew(Body(all[..k]), m.lead, m.name, ":" + StyleOf(n).after, Print(m.value));
    }
  }

  lemma LastKeptTrail(n: Node, p: Plan, ks: seq<nat>)
    requires IsObject(n) && ks != [] && p.appended != [] && forall q | 0 <= q < |ks| :: ks[q] < |n.members|
    ensures KeptMember(n, p, ks, |ks| - 1).trail == ""
  {
  }

  lemma NewCore(m: Member, after: string)
    requires m.pre == "" && m.post == after
    ensures Core(m) == m.name + (":" + after) + Print(m.value)
  {
    hide Print;
    assert "" + (":" + after) == ":" + after;
  }

  lemma FirstNew(head: string, gap: string, name: string, colon: string, value: string)
    ensures (head + gap) + (name + colon + value) == head + gap + name + colon + value
  {
  }

  lemma NextNew(body: string, lead: string, name: string, colon: string, value: string)
    ensures (body + "" + ",") + lead + (name + colon + value) == body + ("," + lead) + name + colon + value
  {
  }

  lemma {:induction false} FormatFails(style: Style, blocks: seq<Block>, i: nat)
    requires i <= |blocks| && FormatAll(style, blocks[..i]).None?
    ensures FormatAll(style, blocks).None?
    decreases |blocks| - i
  {
    if i == |blocks| {
      assert blocks[..i] == blocks;
    } else {
      assert blocks[..i + 1][..i] == blocks[..i];
      FormatFails(style, blocks, i + 1);
    }
  }

  /** The appended members, written behind the kept ones. */
  method WriteNew(head: string, style: Style, kept: seq<nat>, appended: seq<Block>, ghost n: Node, ghost p: Plan, ghost before: string)
    returns (r: Result<string, Problem>)
    requires IsObject(n) && style == StyleOf(n) && appended == p.appended && forall q | 0 <= q < |kept| :: kept[q] < |n.members|
    requires head == before + KeptText(n, p, kept, |kept|)
    requires forall i | 0 <= i < |appended| :: appended[i].value.Some?
    ensures match FormatAll(style, appended)
            case None => r == Err(BadValue)
            case Some(fs) => r == Ok(before + NewText(n, p, kept, fs, |fs|))
  {
    hide StyleOf, NewText, KeptText, Formatted, Quoted;
    var out := head;
    ghost var all := FormatAll(style, appended);
    if all.Some? { NewTextStart(n, p, kept, all.value); }
    assert appended[..0] == [];
    for i := 0 to |appended|
      invariant FormatAll(style, appended[..i]).Some?
      invariant all.Some? ==> out == before + NewText(n, p, kept, all.value, i)
    {
      var b := appended[i];
      assert appended[..i + 1][i] == b && appended[..i + 1][..i] == appended[..i];
      var formatted := Formatted(style, b.value.value);
      if formatted.None? {
        FormatFails(style, appended, i + 1);
        return Err(BadValue);
      }
      var gap := if |kept| == 0 && i == 0 then style.gap else "," + style.gap;
      if all.Some? {
        FormatAllAt(style, appended, i);
        NewTextStep(n, p, kept, all.value, i);
        NewWritten(before, NewText(n, p, kept, all.value, i), gap, Quoted(b.key), ":" + style.after, Print(formatted.value));
      }
      out := out + gap + Quoted(b.key) + (":" + style.after) + Print(formatted.value);
    }
    assert appended[..|appended|] == appended;
    return Ok(out);
  }

  lemma NewTextStart(n: Node, p: Plan, ks: seq<nat>, fs: seq<Node>)
    requires IsObject(n) && |fs| == |p.appended| && forall q | 0 <= q < |ks| :: ks[q] < |n.members|
    ensures NewText(n, p, ks, fs, 0) == KeptText(n, p, ks, |ks|)
  {
  }

  lemma NewWritten(head: string, before: string, gap: string, name: string, colon: string, value: string)
    ensures head + before + gap + name + colon + value == head + (before + gap + name + colon + value)
  {
  }

  lemma {:induction false} PlanAppended(n: Node, blocks: seq<Block>)
    requires IsObject(n) && PlanBlocks(n, blocks).Ok?
    ensures forall i | 0 <= i < |PlanBlocks(n, blocks).value.appended| :: PlanBlocks(n, blocks).value.appended[i].value.Some?
    decreases |blocks|
  {
    hide IndexOf, SameJson, Formatted, StyleOf;
    if blocks != [] { PlanAppended(n, blocks[..|blocks| - 1]); }
  }

  /** Behind the last member written stand the space and brace behind the last one read. */
  lemma SpliceText(raw: string, brace: nat, spans: seq<Span>, sc: Scanned, p: Plan, ks: seq<nat>, fs: seq<Node>)
    requires IsObject(sc.node) && sc.start + 1 == brace <= |raw| && sc.start <= sc.end <= |raw| && raw[sc.start] == '{' && Closes(raw, brace, spans, sc)
    requires |fs| == |p.appended| && (ks != [] || fs != []) && forall q | 0 <= q < |ks| :: ks[q] < |sc.node.members|
    ensures var last := if spans == [] then brace else spans[|spans| - 1].valueEnd;
            raw[..brace] + NewText(sc.node, p, ks, fs, |fs|) + raw[last..]
            == Splice(raw, sc, Group(true, "", NewMembers(sc.node, p, ks, fs)))
  {
    hide KeptMember, NewMember, Body, PrintMembers, NewMembers;
    var n := sc.node;
    NewMembersAt(n, p, ks, fs);
    var all := NewMembers(n, p, ks, fs);
    assert all[..|ks| + |fs|] == all;
    BodyPrints(all);
    assert NewText(n, p, ks, fs, |fs|) == Body(all);
    LastTrail(n, p, ks, fs);
    assert raw[..brace] == raw[..sc.start] + "{";
    SpliceRegroup(raw[..sc.start], Body(all), Tail(n), raw[sc.end..]);
  }

  lemma LastTrail(n: Node, p: Plan, ks: seq<nat>, fs: seq<Node>)
    requires IsObject(n) && |fs| == |p.appended| && (ks != [] || fs != []) && forall q | 0 <= q < |ks| :: ks[q] < |n.members|
    ensures var all := NewMembers(n, p, ks, fs); all != [] && all[|all| - 1].trail == Tail(n)
  {
    var all := NewMembers(n, p, ks, fs);
    if fs != [] {
      assert all[|all| - 1] == NewMember(n, p, ks, fs, |fs| - 1);
    } else {
      assert all[|all| - 1] == KeptMember(n, p, ks, |ks| - 1);
    }
  }

  lemma SpliceRegroup(head: string, body: string, tail: string, rest: string)
    ensures head + "{" + body + (tail + ("}" + rest)) == head + (['{'] + ("" + (body + tail + ['}']))) + rest
  {
  }

  /** The splicer on one object: the edited tree, printed in place. */
  method RewriteManifestKeys(raw: string, blocks: seq<Block>) returns (r: Result<(string, seq<string>), Problem>)
    ensures r == KeysText(raw, blocks)
  {
    hide Scan, Spans, Closes, PlanBlocks, FormatAll, Kept, StyleOf, NewMembers, NewText, KeptText, WellFormed, Splice, SortStrings;
    var scan := ScanManifestMembers(raw);
    if scan.Err? {
      return Err(Unreadable);
    }
    var (spans, brace) := scan.value;
    ghost var sc := Scan(raw).value;
    ScanReadable(raw);
    ScanStart(raw);
    SpansLength(raw, brace, spans, sc.node.members);
    LeadText(raw, brace, spans, sc.node);
    var style := StyleFrom(if |spans| > 0 then raw[brace..spans[0].nameStart] else "");
    var plan := PlanSplice(raw, spans, style, blocks, brace, sc.node);
    if plan.Err? {
      return Err(plan.error);
    }
    var (replacements, removed, appended, changed) := plan.value;
    ghost var p := PlanBlocks(sc.node, blocks).value;
    if changed == [] {
      SortEmpty();
      return Ok((raw, []));
    }
    var kept := KeptSpans(raw, spans, removed, brace, sc.node.members);
    if kept == [] && appended == [] {
      return Err(NoOtherKeys);
    }
    var head := WriteKept(raw, spans, brace, style, kept, replacements, sc.node, p);
    PlanAppended(sc.node, blocks);
    var body := WriteNew(head, style, kept, appended, sc.node, p, raw[..brace]);
    if body.Err? {
      return Err(BadValue);
    }
    ghost var fs := FormatAll(style, appended).value;
    SpliceText(raw, brace, spans, sc, p, kept, fs);
    LastBound(raw, brace, spans, sc);
    var last := if |spans| == 0 then brace else spans[|spans| - 1].valueEnd;
    return Ok((body.value + raw[last..], SortStrings(changed)));
  }

  lemma ScanStart(raw: string)
    requires Scan(raw).Some?
    ensures var sc := Scan(raw).value; sc.start < |raw| && raw[sc.start] == '{'
  {
  }

  lemma SortEmpty()
    ensures SortStrings([]) == []
  {
  }

  lemma LastBound(raw: string, brace: nat, spans: seq<Span>, sc: Scanned)
    requires Closes(raw, brace, spans, sc)
    ensures (if spans == [] then brace else spans[|spans| - 1].valueEnd) <= |raw|
  {
  }

  lemma LeadText(raw: string, brace: nat, spans: seq<Span>, n: Node)
    requires IsObject(n) && Spans(raw, brace, spans, n.members)
    ensures spans != [] ==> brace <= spans[0].nameStart <= |raw|
    ensures StyleFrom(if |spans| > 0 then raw[brace..spans[0].nameStart] else "") == StyleOf(n)
  {
    hide StyleFrom, SpansGap;
    if spans != [] { assert SpansMember(raw, spans[0], n.members[0]); }
  }
}
