/** The layout of what is written into a manifest: that of the members around it. */
module ManifestLayout {
  import opened Basics
  import opened JsonTree
  import opened JsonFormat
  import opened ManifestTree

  // ---------------------------------------------------------------- on one line

  /** No white space between any tokens. */
  predicate Compacted(n: Node) {
    n.Scalar? || (n.pad == "" && forall i | 0 <= i < |n.members| :: CompactedMember(n.members[i]))
  }

  predicate CompactedMember(m: Member) {
    m.lead == "" && m.pre == "" && m.post == "" && m.trail == "" && Compacted(m.value)
  }

  lemma {:induction false} StripCompacts(n: Node)
    ensures Compacted(Strip(n))
    decreases n
  {
    if n.Group? {
      forall i | 0 <= i < |n.members| ensures CompactedMember(Strip(n).members[i]) {
        StripAt(n, i);
        StripCompacts(n.members[i].value);
      }
    }
  }

  // ---------------------------------------------------------------- one member a line

  /** A line break, the prefix, and the indent once for each level. */
  ghost predicate Line(s: string, prefix: string, indent: string, depth: nat) {
    exists steps: seq<string> :: |steps| == depth && (forall i | 0 <= i < depth :: steps[i] == indent) && s == "\n" + prefix + Joined(steps)
  }

  function Joined(parts: seq<string>): string {
    if parts == [] then "" else parts[0] + Joined(parts[1..])
  }

  /**
   Every member starts its own line at the indent of its depth, a closing bracket behind
   members stands on a line of its own, names are followed by a colon and one blank, and
   there is no other white space.
   */
  ghost predicate LaidOut(n: Node, prefix: string, indent: string, depth: nat)
    decreases n
  {
    n.Scalar? || (n.pad == "" && forall i | 0 <= i < |n.members| :: LaidOutMember(n.isObject, n.members[i], i == |n.members| - 1, prefix, indent, depth))
  }

  ghost predicate LaidOutMember(isObject: bool, m: Member, last: bool, prefix: string, indent: string, depth: nat)
    decreases m
  {
    && Line(m.lead, prefix, indent, depth + 1) && m.pre == "" && m.post == (if isObject then " " else "")
    && (if last then Line(m.trail, prefix, indent, depth) else m.trail == "") && LaidOut(m.value, prefix, indent, depth + 1)
  }

  lemma {:induction false} TimesJoined(indent: string, depth: nat)
    ensures Times(indent, depth) == Joined(seq(depth, _ => indent))
    decreases depth
  {
    if depth > 0 {
      TimesJoined(indent, depth - 1);
      assert seq(depth, _ => indent)[1..] == seq(depth - 1, _ => indent);
    }
  }

  lemma NewLineIs(prefix: string, indent: string, depth: nat)
    ensures Line(NewLine(prefix, indent, depth), prefix, indent, depth)
  {
    TimesJoined(indent, depth);
    assert |seq(depth, _ => indent)| == depth;
  }

  lemma {:induction false} IndentLaysOut(n: Node, prefix: string, indent: string, depth: nat)
    ensures LaidOut(Indent(n, prefix, indent, depth), prefix, indent, depth)
    decreases n
  {
    hide NewLine, Line;
    if n.Group? {
      var r := Indent(n, prefix, indent, depth);
      forall i | 0 <= i < |n.members| ensures LaidOutMember(r.isObject, r.members[i], i == |r.members| - 1, prefix, indent, depth) {
        IndentAt(n, prefix, indent, depth, i);
        NewLineIs(prefix, indent, depth + 1);
        NewLineIs(prefix, indent, depth);
        IndentLaysOut(n.members[i].value, prefix, indent, depth + 1);
      }
    }
  }

  // ---------------------------------------------------------------- a block's value

  /** The object's members stand on lines of their own, indented so. */
  ghost predicate Multiline(n: Node, indent: string)
    requires IsObject(n)
  {
    n.members != [] && exists head :: n.members[0].lead == head + "\n" + indent && '\n' !in indent
  }

  lemma {:induction false} LastLineBreaks(lead: string)
    requires LastLine(lead).Some?
    ensures var line := LastLine(lead).value; '\n' !in line && |line| < |lead| && lead[|lead| - |line| - 1] == '\n'
    decreases |lead|
  {
    var k := |lead| - 1;
    if lead[k] != '\n' { LastLineBreaks(lead[..k]); }
  }

  lemma LastLineCuts(lead: string)
    requires LastLine(lead).Some?
    ensures var line := LastLine(lead).value;
            '\n' !in line && |line| < |lead| && lead == lead[..|lead| - |line| - 1] + "\n" + line
  {
    LastLineBreaks(lead);
    hide LastLine;
    var line := LastLine(lead).value;
    var k := |lead| - |line| - 1;
    assert lead == lead[..k] + [lead[k]] + lead[k + 1..];
  }

  lemma LastBreak(a: string, x: string)
    requires '\n' !in x
    ensures var s := a + "\n" + x; s[|a|] == '\n' && forall k | |a| < k < |s| :: s[k] != '\n'
  {
    var s := a + "\n" + x;
    forall k | |a| < k < |s| ensures s[k] != '\n' { assert s[k] == x[k - |a| - 1]; }
  }

  lemma CutOne(a: string, x: string, b: string, y: string)
    requires a + "\n" + x == b + "\n" + y && '\n' !in x && '\n' !in y
    ensures x == y
  {
    var s := a + "\n" + x;
    LastBreak(a, x);
    LastBreak(b, y);
    assert s[|a|] == '\n' && s[|b|] == '\n';
    assert s[|a| + 1..] == x && (b + "\n" + y)[|b| + 1..] == y;
  }

  /** The last line of a text is what stands behind its last line break. */
  lemma LastLineExactly(lead: string, line: string)
    ensures LastLine(lead) == Some(line) <==> exists head :: lead == head + "\n" + line && '\n' !in line
  {
    hide LastLine;
    if LastLine(lead).Some? { LastLineCuts(lead); }
    if head :| lead == head + "\n" + line && '\n' !in line {
      LastBreak(head, line);
      assert lead[|head|] == '\n';
      LastLineSome(lead);
      var last := LastLine(lead).value;
      CutOne(head, line, lead[..|lead| - |last| - 1], last);
    }
  }

  lemma LastLineSome(lead: string)
    requires '\n' in lead
    ensures LastLine(lead).Some?
  {
  }

  /** The style read off an object: its first member's white space, if that has a line break. */
  lemma StyleExactly(n: Node, indent: string)
    requires IsObject(n)
    ensures StyleOf(n).indent == Some(indent) <==> Multiline(n, indent)
    ensures StyleOf(n).indent == None <==> n.members == [] || '\n' !in n.members[0].lead
    ensures StyleOf(n).indent.Some? ==> n.members != [] && StyleOf(n).gap == n.members[0].lead && StyleOf(n).after == " "
    ensures StyleOf(n).indent.None? ==> StyleOf(n).gap == "" && StyleOf(n).after == ""
  {
    EmptyLead();
    hide LastLine;
    if n.members != [] { LastLineExactly(n.members[0].lead, indent); }
  }

  lemma EmptyLead()
    ensures LastLine("") == None
  {
  }

  /** A block's value is written on one line into an object that is, and otherwise one member a line at the object's indent. */
  lemma FormattedLayout(n: Node, text: string, f: Node, indent: string)
    requires IsObject(n) && Formatted(StyleOf(n), text) == Some(f)
    ensures n.members == [] || '\n' !in n.members[0].lead ==> Compacted(f)
    ensures Multiline(n, indent) ==> LaidOut(f, indent, indent, 0)
  {
    hide Compacted, LaidOut, Strip, Indent, ParseText;
    StyleExactly(n, indent);
    hide Multiline, StyleOf;
    var v := ParseText(text).value;
    StripCompacts(v);
    IndentLaysOut(v, indent, indent, 0);
  }
}
