/**
 What a manifest rewrite means, on syntax trees: which member a dotted key names, how a
 block of generated text is written into an object, and what the rewritten object holds.
 */
module ManifestTree {
  import opened Basics
  import opened JsonLex
  import opened JsonTree
  import opened JsonFormat

  /** A generated value for a (possibly dotted) key; None asks for the key's removal. */
  datatype Block = Block(key: string, value: Option<string>)

  datatype Problem = Unreadable | BadValue | NoOtherKeys

  // ---------------------------------------------------------------- keys

  function DotIndex(key: string): (i: nat)
    ensures i <= |key| && (i < |key| ==> key[i] == '.') && forall k | 0 <= k < i :: key[k] != '.'
  {
    if key == "" || key[0] == '.' then 0 else 1 + DotIndex(key[1..])
  }

  predicate Nested(key: string) { DotIndex(key) < |key| }

  function Parent(key: string): string { key[..DotIndex(key)] }

  function Child(key: string): (c: string)
    requires Nested(key)
    ensures |c| < |key|
  {
    key[DotIndex(key) + 1..]
  }

  predicate DottedPrefix(a: string, b: string) {
    |a| < |b| && b[..|a|] == a && b[|a|] == '.'
  }

  /** Neither key names the other's member or a member inside it. */
  predicate Independent(a: string, b: string)
    decreases |a|
  {
    || Parent(a) != Parent(b)
    || (Nested(a) && Nested(b) && Independent(Child(a), Child(b)))
  }

  lemma {:induction false} IndependentMeans(a: string, b: string)
    ensures Independent(a, b) <==> a != b && !DottedPrefix(a, b) && !DottedPrefix(b, a)
    decreases |a|
  {
    var i, j := DotIndex(a), DotIndex(b);
    if Parent(a) == Parent(b) {
      assert i == j;
      if Nested(a) && Nested(b) {
        IndependentMeans(Child(a), Child(b));
        assert a == Parent(a) + "." + Child(a) && b == Parent(b) + "." + Child(b);
        PrefixOfChildren(a, b);
        PrefixOfChildren(b, a);
      } else if !Nested(a) && Nested(b) {
        assert DottedPrefix(a, b);
      } else if Nested(a) {
        assert DottedPrefix(b, a);
      }
    } else {
      if DottedPrefix(a, b) { DotOfPrefix(a, b); }
      if DottedPrefix(b, a) { DotOfPrefix(b, a); }
    }
  }

  lemma PrefixOfChildren(a: string, b: string)
    requires Nested(a) && Nested(b) && Parent(a) == Parent(b)
    ensures DottedPrefix(a, b) <==> DottedPrefix(Child(a), Child(b))
  {
    var i := DotIndex(a);
    assert |Parent(a)| == i == DotIndex(b);
    assert a == Parent(a) + "." + Child(a) && b == Parent(b) + "." + Child(b);
    if DottedPrefix(a, b) {
      assert Child(b)[..|Child(a)|] == b[..|a|][i + 1..];
    }
    if DottedPrefix(Child(a), Child(b)) {
      assert b[..|a|] == Parent(b) + "." + Child(b)[..|Child(a)|];
    }
  }

  lemma DotOfPrefix(a: string, b: string)
    requires DottedPrefix(a, b)
    ensures Parent(a) == Parent(b)
  {
    var i := DotIndex(a);
    forall k | 0 <= k < |a| ensures b[k] == a[k] { assert b[..|a|][k] == a[k]; }
    assert DotIndex(b) == i;
    assert Parent(b) == b[..|a|][..i];
  }

  // ---------------------------------------------------------------- objects

  predicate IsObject(n: Node) { n.Group? && n.isObject }

  /** What the scanner accepts: an object in strict JSON. */
  predicate Readable(n: Node) { IsObject(n) && WellFormed(n) && Strict(n) }

  predicate HasKey(m: Member, key: string) { KeyOf(m.name) == Some(key) }

  /** The place of the first member named `key`, or the number of members. */
  function IndexOf(ms: seq<Member>, key: string): (i: nat)
    ensures i <= |ms| && (i < |ms| ==> HasKey(ms[i], key))
    ensures forall k | 0 <= k < i :: !HasKey(ms[k], key)
  {
    if ms == [] || HasKey(ms[0], key) then 0 else 1 + IndexOf(ms[1..], key)
  }

  lemma IndexOfAt(ms: seq<Member>, key: string, i: nat)
    requires i < |ms| && HasKey(ms[i], key) && forall k | 0 <= k < i :: !HasKey(ms[k], key)
    ensures IndexOf(ms, key) == i
  {
  }

  lemma IndexOfNone(ms: seq<Member>, key: string)
    requires forall k | 0 <= k < |ms| :: !HasKey(ms[k], key)
    ensures IndexOf(ms, key) == |ms|
  {
  }

  /** A value's tokens, at the end of a dotted key. */
  datatype Lookup = Missing | Blocked | Holds(value: Node)

  /** What `key` names: Blocked when a member on the way is not an object. */
  function Find(n: Node, key: string): Lookup
    requires IsObject(n)
    decreases |key|
  {
    var i := IndexOf(n.members, Parent(key));
    if i == |n.members| then Missing
    else if !Nested(key) then Holds(Strip(n.members[i].value))
    else if !IsObject(n.members[i].value) then Blocked
    else Find(n.members[i].value, Child(key))
  }

  /** What a block wants its key to name. */
  function Wanted(value: Option<string>): Lookup {
    match value
    case None => Missing
    case Some(text) => match ParseText(text) case None => Blocked case Some(n) => Holds(Strip(n))
  }

  // ---------------------------------------------------------------- style

  /** The text behind the last line break, if there is one. */
  function LastLine(lead: string): (r: Option<string>)
    ensures r.None? <==> '\n' !in lead
    ensures r.Some? ==> |r.value| <= |lead| && lead[|lead| - |r.value|..] == r.value
  {
    if lead == "" then None
    else if lead[|lead| - 1] == '\n' then Some("")
    else
      var r := LastLine(lead[..|lead| - 1]);
      if r.None? then None else Some(r.value + [lead[|lead| - 1]])
  }

  /** The layout of an object's members, read off the white space before the first. */
  datatype Style = Style(indent: Option<string>, gap: string, after: string)

  function StyleFrom(lead: string): Style {
    var line := LastLine(lead);
    if line.None? then Style(None, "", "") else Style(line, lead, " ")
  }

  function StyleOf(n: Node): Style
    requires IsObject(n)
  {
    StyleFrom(if n.members == [] then "" else n.members[0].lead)
  }

  /** A block's value in the object's layout; an indent that is not spaces and tabs is refused. */
  function Formatted(style: Style, text: string): Option<Node> {
    match ParseText(text)
    case None => None
    case Some(n) =>
      match style.indent
      case None => Some(Strip(n))
      case Some(indent) => if '\r' in indent then None else Some(Indent(n, indent, indent, 0))
  }

  lemma LastLineBlank(lead: string)
    requires Blank(lead)
    ensures LastLine(lead).Some? ==> Blank(LastLine(lead).value)
  {
    var r := LastLine(lead);
    if r.Some? {
      forall i | 0 <= i < |r.value| ensures IsSpace(r.value[i]) {
        assert r.value[i] == lead[|lead| - |r.value|..][i] == lead[|lead| - |r.value| + i];
      }
    }
  }

  lemma StyleBlank(n: Node)
    requires IsObject(n) && WellFormed(n)
    ensures Blank(StyleOf(n).gap) && Blank(StyleOf(n).after)
    ensures StyleOf(n).indent.Some? ==> Blank(StyleOf(n).indent.value)
  {
    if n.members != [] {
      assert WellFormedMember(true, n.members[0]);
      LastLineBlank(n.members[0].lead);
    }
  }

  /** Formatting keeps a value's tokens. */
  lemma FormattedMeans(n: Node, text: string)
    requires IsObject(n) && WellFormed(n) && Formatted(StyleOf(n), text).Some?
    ensures ParseText(text).Some?
    ensures var f := Formatted(StyleOf(n), text).value;
            WellFormed(f) && Strip(f) == Strip(ParseText(text).value) && (Strict(f) <==> Strict(ParseText(text).value))
  {
    var v := ParseText(text).value;
    var f := Formatted(StyleOf(n), text).value;
    ParsedTextWellFormed(text);
    StyleBlank(n);
    var style := StyleOf(n);
    if style.indent.None? {
      StripWellFormed(v);
      StripFixes(v);
    } else {
      IndentWellFormed(v, style.indent.value, style.indent.value, 0);
      StripIndent(v, style.indent.value, style.indent.value, 0);
    }
    SameTokensStrict(f, v);
  }
}
