/**
 A block's dotted key, followed through nested objects: what the rewrite leaves behind at
 that key, at every other key, and in the text of the members it does not name.
 */
module ManifestRewrite {
  import opened Basics
  import opened JsonTree
  import opened JsonFormat
  import opened ManifestTree
  import opened ManifestEdit

  /** One block written into an object; the flag says whether anything changed. */
  function RewriteKey(n: Node, key: string, value: Option<string>): (r: Result<(Node, bool), Problem>)
    requires IsObject(n)
    ensures r.Ok? ==> IsObject(r.value.0)
    decreases |key|
  {
    if !Nested(key) then
      match EditKeys(n, [Block(key, value)])
      case Err(e) => Err(e)
      case Ok((edited, changed)) => Ok((edited, changed != []))
    else
      var i := IndexOf(n.members, Parent(key));
      if i < |n.members| then
        var w := n.members[i].value;
        if !IsObject(w) then Err(Unreadable)
        else
          match RewriteKey(w, Child(key), value)
          case Err(e) => Err(e)
          case Ok((inner, changed)) => Ok((if changed then Group(true, n.pad, Replaced(n.members, i, inner)) else n, changed))
      else
        match RewriteKey(EMPTY_OBJECT, Child(key), value)
        case Err(e) => Err(e)
        case Ok((inner, changed)) =>
          if !changed then Ok((n, false))
          else
            match EditKeys(n, [Block(Parent(key), Some(Print(inner)))])
            case Err(e) => Err(e)
            case Ok((edited, _)) => Ok((edited, true))
  }

  /** A block whose value, if any, is strict JSON. */
  predicate StrictValue(value: Option<string>) {
    value.Some? ==> ParseText(value.value).Some? && Strict(ParseText(value.value).value)
  }

  lemma EmptyReadable()
    ensures Readable(EMPTY_OBJECT) && Print(EMPTY_OBJECT) == "{}"
  {
  }

  lemma MemberReadable(n: Node, i: nat)
    requires Readable(n) && i < |n.members|
    ensures WellFormed(n.members[i].value) && Strict(n.members[i].value) && KeyOf(n.members[i].name).Some?
  {
    assert WellFormedMember(true, n.members[i]) && StrictMember(true, n.members[i]);
  }

  // ---------------------------------------------------------------- what a key names

  lemma FindByMember(a: Node, b: Node, key: string)
    requires IsObject(a) && IsObject(b)
    requires var i, j := IndexOf(a.members, Parent(key)), IndexOf(b.members, Parent(key));
             || (i == |a.members| && j == |b.members|)
             || (i < |a.members| && j < |b.members| && a.members[i].value == b.members[j].value)
    ensures Find(a, key) == Find(b, key)
  {
  }

  lemma {:induction false} IndexOfNames(a: seq<Member>, b: seq<Member>, key: string)
    requires |a| == |b| && forall i | 0 <= i < |a| :: a[i].name == b[i].name
    ensures IndexOf(a, key) == IndexOf(b, key)
    decreases |a|
  {
    if a != [] { IndexOfNames(a[1..], b[1..], key); }
  }

  lemma EntriesFind(a: Node, b: Node, key: string)
    requires IsObject(a) && IsObject(b) && Entries(a.members) == Entries(b.members)
    ensures IndexOf(a.members, key) == IndexOf(b.members, key) && Find(a, key) == Find(b, key)
  {
    forall i | 0 <= i < |a.members| ensures EntryOf(a.members[i]) == EntryOf(b.members[i]) {
      assert Entries(a.members)[i] == Entries(b.members)[i];
    }
    assert |Entries(a.members)| == |Entries(b.members)|;
    IndexOfNames(a.members, b.members, key);
    IndexOfNames(a.members, b.members, Parent(key));
  }

  lemma EntriesStrict(a: Node, b: Node)
    requires IsObject(a) && IsObject(b) && Entries(a.members) == Entries(b.members)
    ensures Strict(a) <==> Strict(b)
  {
    hide KeyOf;
    assert |Entries(a.members)| == |Entries(b.members)|;
    forall i | 0 <= i < |a.members|
      ensures a.members[i].name == b.members[i].name && (StrictMember(true, a.members[i]) <==> StrictMember(true, b.members[i]))
    {
      assert Entries(a.members)[i] == Entries(b.members)[i];
    }
  }

  /** White space does not matter to a lookup. */
  lemma {:induction false} FindStrip(a: Node, b: Node, key: string)
    requires IsObject(a) && IsObject(b) && Strip(a) == Strip(b)
    ensures Find(a, key) == Find(b, key)
    decreases |key|
  {
    assert |a.members| == |b.members|;
    forall i | 0 <= i < |a.members|
      ensures a.members[i].name == b.members[i].name && Strip(a.members[i].value) == Strip(b.members[i].value)
    {
      StripAt(a, i);
      StripAt(b, i);
      assert Strip(a).members[i] == Strip(b).members[i];
    }
    IndexOfNames(a.members, b.members, Parent(key));
    var i := IndexOf(a.members, Parent(key));
    if i < |a.members| && Nested(key) && IsObject(a.members[i].value) {
      FindStrip(a.members[i].value, b.members[i].value, Child(key));
    }
  }

  // ---------------------------------------------------------------- the three edits

  lemma ReplacedFinds(n: Node, i: nat, f: Node, key: string)
    requires IsObject(n) && i < |n.members|
    ensures IndexOf(Replaced(n.members, i, f), key) == IndexOf(n.members, key)
  {
    IndexOfNames(n.members, Replaced(n.members, i, f), key);
  }

  lemma ReplacedStrict(n: Node, pad: string, i: nat, f: Node)
    requires Readable(n) && i < |n.members|
    ensures Strict(Group(true, pad, Replaced(n.members, i, f))) <==> Strict(f)
  {
    hide KeyOf;
    var ms := Replaced(n.members, i, f);
    forall j | 0 <= j < |ms| ensures StrictMember(true, ms[j]) <==> (j == i ==> Strict(f)) {
      assert StrictMember(true, n.members[j]);
    }
    assert forall j | 0 <= j < |ms| :: ms[j].name == n.members[j].name;
    assert StrictMember(true, ms[i]) <==> Strict(f);
  }

  lemma RemovedFinds(n: Node, i: nat, key: string, other: string)
    requires Readable(n) && i == IndexOf(n.members, key) < |n.members|
    ensures var ms, q := Removed(n.members, i), IndexOf(n.members, other);
            IndexOf(ms, other) == if other == key then |ms| else if q < i then q else q - 1
  {
    hide KeyOf;
    var ms, q := Removed(n.members, i), IndexOf(n.members, other);
    OnlyIndex(n, key);
    if other == key {
      IndexOfNone(ms, key);
    } else if q == |n.members| {
      IndexOfNone(ms, other);
    } else {
      IndexOfAt(ms, other, if q < i then q else q - 1);
    }
  }

  lemma RemovedStrict(n: Node, i: nat)
    requires Readable(n) && i < |n.members|
    ensures Strict(Group(true, "", Removed(n.members, i)))
  {
    hide KeyOf;
    var ms := Removed(n.members, i);
    forall j | 0 <= j < |ms| ensures ms[j] == n.members[if j < i then j else j + 1] && StrictMember(true, ms[j]) {
      assert StrictMember(true, n.members[if j < i then j else j + 1]);
    }
    forall j, k | 0 <= j < k < |ms| ensures KeyOf(ms[j].name) != KeyOf(ms[k].name) {
      var j', k' := if j < i then j else j + 1, if k < i then k else k + 1;
      assert KeyOf(n.members[j'].name) != KeyOf(n.members[k'].name);
    }
  }

  lemma AppendedFinds(n: Node, key: string, f: Node, other: string)
    requires IsObject(n) && IndexOf(n.members, key) == |n.members|
    ensures var q := IndexOf(n.members, other);
            IndexOf(Appended(n, key, f), other) == if other == key || q < |n.members| then q else |n.members| + 1
  {
    hide KeyOf, Quoted;
    var ms, q := Appended(n, key, f), IndexOf(n.members, other);
    QuotedStands(key);
    if other == key || q < |n.members| {
      IndexOfAt(ms, other, q);
    } else {
      IndexOfNone(ms, other);
    }
  }

  lemma AppendedStrict(n: Node, key: string, f: Node)
    requires Readable(n) && IndexOf(n.members, key) == |n.members|
    ensures Strict(Group(true, "", Appended(n, key, f))) <==> Strict(f)
  {
    hide KeyOf, Quoted;
    var ms := Appended(n, key, f);
    QuotedStands(key);
    assert StrictMember(true, ms[|n.members|]) <==> Strict(f);
    forall j | 0 <= j < |n.members| ensures StrictMember(true, ms[j]) && KeyOf(ms[j].name) != Some(key) {
      assert StrictMember(true, n.members[j]) && !HasKey(n.members[j], key);
    }
  }

  // ---------------------------------------------------------------- a block without dots

  /** The edited object holds the wanted value at `key` and what it held before elsewhere. */
  lemma EditMeans(n: Node, key: string, value: Option<string>)
    requires Readable(n) && !Nested(key) && EditKeys(n, [Block(key, value)]).Ok?
    ensures var (n', changed) := EditKeys(n, [Block(key, value)]).value;
            && Find(n', key) == Wanted(value)
            && (changed != [] <==> Find(n, key) != Wanted(value))
            && (changed == [] ==> n' == n)
            && (changed != [] ==> (Strict(n') <==> StrictValue(value)))
            && WellFormed(n') && (value.Some? ==> ParseText(value.value).Some?)
  {
    hide EditKeys, KeyOf, Strip, Quoted, Strict, WellFormed, StyleOf, Formatted, ParseText, SameJson;
    var b := Block(key, value);
    var i := IndexOf(n.members, key);
    var (n', changed) := EditKeys(n, [b]).value;
    EditWellFormed(n, [b]);
    assert Parent(key) == key;
    if value.None? {
      if i == |n.members| {
        EditSkips(n, key);
      } else {
        EditRemoves(n, key);
        var m := Group(true, "", Removed(n.members, i));
        RemovedFinds(n, i, key, key);
        RemovedStrict(n, i);
        EntriesFind(n', m, key);
        EntriesStrict(n', m);
      }
    } else if i == |n.members| {
      EditAppends(n, key, value.value);
      FormattedMeans(n, value.value);
      var f := Formatted(StyleOf(n), value.value).value;
      var m := Group(true, "", Appended(n, key, f));
      AppendedFinds(n, key, f, key);
      AppendedStrict(n, key, f);
      EntriesFind(n', m, key);
      EntriesStrict(n', m);
    } else {
      EditReplaces(n, key, value.value);
      MemberReadable(n, i);
      SameJsonMeans(n.members[i].value, value.value);
      if changed != [] {
        FormattedMeans(n, value.value);
        var f := Formatted(StyleOf(n), value.value).value;
        var m := Group(true, "", Replaced(n.members, i, f));
        ReplacedFinds(n, i, f, key);
        ReplacedStrict(n, "", i, f);
        EntriesFind(n', m, key);
        EntriesStrict(n', m);
      }
    }
  }

  lemma EditFrame(n: Node, key: string, value: Option<string>, other: string)
    requires Readable(n) && EditKeys(n, [Block(key, value)]).Ok? && Parent(other) != key
    ensures Find(EditKeys(n, [Block(key, value)]).value.0, other) == Find(n, other)
  {
    hide EditKeys, KeyOf, Strip, Quoted, Strict, WellFormed, StyleOf, Formatted, ParseText, SameJson, Find;
    var i := IndexOf(n.members, key);
    var (n', changed) := EditKeys(n, [Block(key, value)]).value;
    if value.None? {
      if i == |n.members| {
        EditSkips(n, key);
      } else {
        EditRemoves(n, key);
        var m := Group(true, "", Removed(n.members, i));
        RemovedFinds(n, i, key, Parent(other));
        OnlyIndex(n, key);
        EntriesFind(n', m, other);
        FindByMember(n, m, other);
      }
    } else if i == |n.members| {
      EditAppends(n, key, value.value);
      var f := Formatted(StyleOf(n), value.value).value;
      var m := Group(true, "", Appended(n, key, f));
      AppendedFinds(n, key, f, Parent(other));
      EntriesFind(n', m, other);
      FindByMember(n, m, other);
    } else {
      EditReplaces(n, key, value.value);
      if changed != [] {
        var f := Formatted(StyleOf(n), value.value).value;
        var m := Group(true, "", Replaced(n.members, i, f));
        ReplacedFinds(n, i, f, Parent(other));
        OnlyIndex(n, key);
        EntriesFind(n', m, other);
        FindByMember(n, m, other);
      }
    }
  }

  // ---------------------------------------------------------------- a dotted key

  lemma ParentPlain(key: string)
    ensures !Nested(Parent(key)) && Parent(Parent(key)) == Parent(key)
  {
    var p := Parent(key);
    assert forall k | 0 <= k < |p| :: p[k] == key[k];
    assert DotIndex(p) == |p|;
  }

  lemma ReplacedWellFormed(n: Node, i: nat, f: Node)
    requires IsObject(n) && WellFormed(n) && i < |n.members| && WellFormed(f)
    ensures WellFormed(Group(true, n.pad, Replaced(n.members, i, f)))
  {
    var ms := Replaced(n.members, i, f);
    forall j | 0 <= j < |ms| ensures WellFormedMember(true, ms[j]) {
      assert WellFormedMember(true, n.members[j]);
    }
  }

  /** The member `key` names in `n` is an object with the tokens of `inner`. */
  lemma FindInside(n: Node, key: string, inner: Node)
    requires IsObject(n) && IsObject(inner) && Nested(key) && Find(n, Parent(key)) == Holds(Strip(inner))
    ensures Find(n, key) == Find(inner, Child(key))
  {
    ParentPlain(key);
    FindStrip(n.members[IndexOf(n.members, Parent(key))].value, inner, Child(key));
  }

  /**
   The main law of one block: its key holds the wanted value afterwards, the rewrite
   reports a change exactly when it did not before, and the result is JSON; strict JSON
   exactly when the value written is.
   */
  lemma {:induction false} RewriteKeyMeans(n: Node, key: string, value: Option<string>)
    requires Readable(n) && RewriteKey(n, key, value).Ok?
    ensures var (n', changed) := RewriteKey(n, key, value).value;
            && Find(n', key) == Wanted(value)
            && (changed <==> Find(n, key) != Wanted(value))
            && (!changed ==> n' == n)
            && (changed ==> (Strict(n') <==> StrictValue(value)))
            && WellFormed(n') && (value.Some? ==> ParseText(value.value).Some?)
    decreases |key|
  {
    hide EditKeys, KeyOf, Strip, Quoted, Strict, WellFormed, StyleOf, ParseText, StrictValue;
    var i := IndexOf(n.members, Parent(key));
    var (n', changed) := RewriteKey(n, key, value).value;
    if !Nested(key) {
      EditMeans(n, key, value);
    } else if i < |n.members| {
      MemberReadable(n, i);
      var w := n.members[i].value;
      RewriteKeyMeans(w, Child(key), value);
      var inner := RewriteKey(w, Child(key), value).value.0;
      ReplacedWellFormed(n, i, inner);
      ReplacedStrict(n, n.pad, i, inner);
      ReplacedFinds(n, i, inner, Parent(key));
    } else {
      EmptyReadable();
      EmptyFind(Child(key));
      RewriteKeyMeans(EMPTY_OBJECT, Child(key), value);
      if changed {
        var inner := RewriteKey(EMPTY_OBJECT, Child(key), value).value.0;
        NewParentMeans(n, key, inner);
        FindInside(n', key, inner);
      }
    }
  }

  lemma EmptyFind(key: string)
    ensures Find(EMPTY_OBJECT, key) == Missing
  {
  }

  /** A parent that did not exist is appended with the tokens of `inner`. */
  lemma NewParentMeans(n: Node, key: string, inner: Node)
    requires Readable(n) && IndexOf(n.members, Parent(key)) == |n.members| && WellFormed(inner)
    requires EditKeys(n, [Block(Parent(key), Some(Print(inner)))]).Ok?
    ensures var n' := EditKeys(n, [Block(Parent(key), Some(Print(inner)))]).value.0;
            && Find(n', Parent(key)) == Holds(Strip(inner)) && WellFormed(n') && (Strict(n') <==> Strict(inner))
  {
    hide EditKeys, Strip, Strict, WellFormed, ParseText;
    ParentPlain(key);
    EditMeans(n, Parent(key), Some(Print(inner)));
    PrintedTextParses(inner);
  }

  /** A key that is neither the block's, nor above it, nor below it, keeps what it names. */
  lemma {:induction false} RewriteKeyFrame(n: Node, key: string, value: Option<string>, other: string)
    requires Readable(n) && RewriteKey(n, key, value).Ok? && Independent(key, other)
    ensures Find(RewriteKey(n, key, value).value.0, other) == Find(n, other)
    decreases |key|
  {
    hide EditKeys, KeyOf, Strip, Quoted, Strict, WellFormed, StyleOf, ParseText;
    var i := IndexOf(n.members, Parent(key));
    var (n', changed) := RewriteKey(n, key, value).value;
    if !Nested(key) {
      EditFrame(n, key, value, other);
    } else if i < |n.members| {
      MemberReadable(n, i);
      var inner := RewriteKey(n.members[i].value, Child(key), value).value.0;
      if changed {
        ReplacedFinds(n, i, inner, Parent(other));
        if Parent(other) == Parent(key) {
          RewriteKeyFrame(n.members[i].value, Child(key), value, Child(other));
        } else {
          OnlyIndex(n, Parent(key));
          FindByMember(n, n', other);
        }
      }
    } else if changed {
      EmptyReadable();
      RewriteKeyMeans(EMPTY_OBJECT, Child(key), value);
      var inner := RewriteKey(EMPTY_OBJECT, Child(key), value).value.0;
      if Parent(other) == Parent(key) {
        NewParentMeans(n, key, inner);
        FindInside(n', other, inner);
        RewriteKeyFrame(EMPTY_OBJECT, Child(key), value, Child(other));
        EmptyFind(Child(other));
      } else {
        EditFrame(n, Parent(key), Some(Print(inner)), other);
      }
    }
  }

  /** A key that already holds what the block wants is left alone. */
  lemma {:induction false} RewriteKeyStable(n: Node, key: string, value: Option<string>)
    requires Readable(n) && Find(n, key) == Wanted(value) && (value.Some? ==> ParseText(value.value).Some?)
    ensures RewriteKey(n, key, value) == Ok((n, false))
    decreases |key|
  {
    hide EditKeys, KeyOf, Strip, Quoted, Strict, WellFormed, StyleOf, ParseText;
    var i := IndexOf(n.members, Parent(key));
    if !Nested(key) {
      assert Parent(key) == key;
      if value.None? {
        EditSkips(n, key);
      } else {
        MemberReadable(n, i);
        SameJsonMeans(n.members[i].value, value.value);
        EditReplaces(n, key, value.value);
      }
    } else if i < |n.members| {
      MemberReadable(n, i);
      RewriteKeyStable(n.members[i].value, Child(key), value);
    } else {
      EmptyReadable();
      EmptyFind(Child(key));
      RewriteKeyStable(EMPTY_OBJECT, Child(key), value);
    }
  }

  // ---------------------------------------------------------------- everything else stays verbatim

  /** The members not named `key`: name, colon and value, in order. */
  function Others(ms: seq<Member>, key: string): seq<Entry> {
    if ms == [] then [] else (if HasKey(ms[0], key) then [] else [EntryOf(ms[0])]) + Others(ms[1..], key)
  }

  /**
   `n'` differs from `n` only at `key`: the other members keep their order, names and
   values; the named one keeps its place and name, or is added last; and so on inside it,
   where an object that was not there holds nothing else.
   */
  predicate Verbatim(n: Node, key: string, n': Node)
    requires IsObject(n) && IsObject(n')
    decreases |key|
  {
    var p := Parent(key);
    var i, j := IndexOf(n.members, p), IndexOf(n'.members, p);
    && Others(n'.members, p) == Others(n.members, p)
    && (i < |n.members| && j < |n'.members| ==>
          i == j && EntryOf(n'.members[i]).(value := n.members[i].value) == EntryOf(n.members[i]))
    && (i == |n.members| && j < |n'.members| ==> j == |n'.members| - 1)
    && (Nested(key) && i < |n.members| ==>
          && j < |n'.members|
          && if IsObject(n.members[i].value)
             then IsObject(n'.members[j].value) && Verbatim(n.members[i].value, Child(key), n'.members[j].value)
             else n'.members[j].value == n.members[i].value)
    && (Nested(key) && i == |n.members| && j < |n'.members| ==> Fresh(Child(key), n'.members[j].value))
  }

  /** An object that holds the path of a key and nothing beside it. */
  predicate Fresh(key: string, n: Node)
    decreases |key|
  {
    && IsObject(n) && |n.members| == 1 && HasKey(n.members[0], Parent(key))
    && (Nested(key) ==> Fresh(Child(key), n.members[0].value))
  }

  lemma {:induction false} FreshStrip(key: string, a: Node, b: Node)
    requires Strip(a) == Strip(b) && Fresh(key, a)
    ensures Fresh(key, b)
    decreases |key|
  {
    hide KeyOf;
    StripAt(a, 0);
    StripAt(b, 0);
    if Nested(key) { FreshStrip(Child(key), a.members[0].value, b.members[0].value); }
  }

  /** A value written under a dotted key of an empty object. */
  lemma {:induction false} RewriteKeyFresh(key: string, value: Option<string>)
    requires RewriteKey(EMPTY_OBJECT, key, value).Ok? && RewriteKey(EMPTY_OBJECT, key, value).value.1
    ensures Fresh(key, RewriteKey(EMPTY_OBJECT, key, value).value.0)
    decreases |key|
  {
    hide EditKeys, KeyOf, Strip, Quoted, Strict, WellFormed, StyleOf, ParseText, Formatted;
    EmptyReadable();
    if !Nested(key) {
      assert Parent(key) == key;
      if value.None? { EditSkips(EMPTY_OBJECT, key); } else { AppendedFresh(key, value.value); }
    } else {
      RewriteKeyFresh(Child(key), value);
      var inner := RewriteKey(EMPTY_OBJECT, Child(key), value).value.0;
      AppendedFresh(Parent(key), Print(inner));
      NewParentFresh(EMPTY_OBJECT, key, value);
    }
  }

  lemma AppendedFresh(key: string, text: string)
    requires EditKeys(EMPTY_OBJECT, [Block(key, Some(text))]).Ok?
    ensures var n := EditKeys(EMPTY_OBJECT, [Block(key, Some(text))]).value.0;
            |n.members| == 1 && HasKey(n.members[0], key)
  {
    hide EditKeys, Formatted, StyleOf, KeyOf;
    EmptyReadable();
    EditAppends(EMPTY_OBJECT, key, text);
    var n := EditKeys(EMPTY_OBJECT, [Block(key, Some(text))]).value.0;
    var ms := Appended(EMPTY_OBJECT, key, Formatted(StyleOf(EMPTY_OBJECT), text).value);
    assert |ms| == 1 && |Entries(n.members)| == |Entries(ms)| && Entries(n.members)[0] == Entries(ms)[0];
    QuotedStands(key);
  }

  /** The value of a new parent holds the tokens of the rewritten empty object. */
  lemma NewParentFresh(n: Node, key: string, value: Option<string>)
    requires Readable(n) && Nested(key) && IndexOf(n.members, Parent(key)) == |n.members|
    requires var r := RewriteKey(EMPTY_OBJECT, Child(key), value); r.Ok? && r.value.1 && Fresh(Child(key), r.value.0)
    requires RewriteKey(n, key, value).Ok?
    ensures var n' := RewriteKey(n, key, value).value.0;
            var j := IndexOf(n'.members, Parent(key));
            j < |n'.members| && Fresh(Child(key), n'.members[j].value)
  {
    hide EditKeys, KeyOf, Strip, Quoted, Strict, WellFormed, StyleOf, ParseText, Fresh;
    EmptyReadable();
    RewriteKeyMeans(EMPTY_OBJECT, Child(key), value);
    var inner := RewriteKey(EMPTY_OBJECT, Child(key), value).value.0;
    NewParentMeans(n, key, inner);
    ParentPlain(key);
    var n' := RewriteKey(n, key, value).value.0;
    FreshStrip(Child(key), inner, n'.members[IndexOf(n'.members, Parent(key))].value);
  }

  lemma {:induction false} VerbatimRefl(n: Node, key: string)
    requires IsObject(n)
    ensures Verbatim(n, key, n)
    decreases |key|
  {
    var i := IndexOf(n.members, Parent(key));
    if Nested(key) && i < |n.members| && IsObject(n.members[i].value) { VerbatimRefl(n.members[i].value, Child(key)); }
  }

  lemma {:induction false} OthersAppend(a: seq<Member>, b: seq<Member>, key: string)
    ensures Others(a + b, key) == Others(a, key) + Others(b, key)
    decreases |a|
  {
    hide HasKey;
    if a == [] {
      assert a + b == b;
    } else {
      OthersAppend(a[1..], b, key);
      assert (a + b)[1..] == a[1..] + b;
    }
  }

  lemma {:induction false} OthersEntries(a: seq<Member>, b: seq<Member>, key: string)
    requires Entries(a) == Entries(b)
    ensures Others(a, key) == Others(b, key)
    decreases |a|
  {
    assert |Entries(a)| == |Entries(b)|;
    if a != [] {
      assert Entries(a)[0] == Entries(b)[0];
      assert Entries(a[1..]) == Entries(b[1..]) by {
        forall i | 0 <= i < |a| - 1 ensures Entries(a[1..])[i] == Entries(b[1..])[i] {
          assert Entries(a)[i + 1] == Entries(b)[i + 1];
        }
      }
      OthersEntries(a[1..], b[1..], key);
    }
  }

  lemma OthersAround(ms: seq<Member>, i: nat, m: seq<Member>, key: string)
    requires i < |ms| && HasKey(ms[i], key) && |m| <= 1 && (m != [] ==> HasKey(m[0], key))
    ensures Others(ms[..i] + m + ms[i + 1..], key) == Others(ms, key)
  {
    hide HasKey;
    assert ms == ms[..i] + [ms[i]] + ms[i + 1..];
    OthersAppend(ms[..i] + [ms[i]], ms[i + 1..], key);
    OthersAppend(ms[..i], [ms[i]], key);
    OthersAppend(ms[..i] + m, ms[i + 1..], key);
    OthersAppend(ms[..i], m, key);
    assert Others([ms[i]], key) == [] && Others(m, key) == [];
  }

  lemma EditVerbatim(n: Node, key: string, value: Option<string>)
    requires Readable(n) && EditKeys(n, [Block(key, value)]).Ok? && !Nested(key)
    ensures Verbatim(n, key, EditKeys(n, [Block(key, value)]).value.0)
  {
    hide EditKeys, KeyOf, Strip, Quoted, Strict, WellFormed, StyleOf, Formatted, ParseText, SameJson, Others;
    var ms, i := n.members, IndexOf(n.members, key);
    var (n', changed) := EditKeys(n, [Block(key, value)]).value;
    assert Parent(key) == key;
    VerbatimRefl(n, key);
    if value.None? {
      if i == |ms| {
        EditSkips(n, key);
      } else {
        EditRemoves(n, key);
        var m := Group(true, "", Removed(ms, i));
        RemovedFinds(n, i, key, key);
        EntriesFind(n', m, key);
        OthersEntries(n'.members, m.members, key);
        OthersAround(ms, i, [], key);
        assert ms[..i] + [] + ms[i + 1..] == m.members;
        assert |Entries(n'.members)| == |Entries(m.members)|;
      }
    } else if i == |ms| {
      EditAppends(n, key, value.value);
      var m := Group(true, "", Appended(n, key, Formatted(StyleOf(n), value.value).value));
      AppendedFinds(n, key, Formatted(StyleOf(n), value.value).value, key);
      EntriesFind(n', m, key);
      OthersEntries(n'.members, m.members, key);
      OthersLast(ms, m.members[|ms|], key);
      assert |Entries(n'.members)| == |Entries(m.members)|;
    } else {
      EditReplaces(n, key, value.value);
      if changed != [] {
        var f := Formatted(StyleOf(n), value.value).value;
        var m := Group(true, "", Replaced(ms, i, f));
        ReplacedFinds(n, i, f, key);
        EntriesFind(n', m, key);
        OthersEntries(n'.members, m.members, key);
        OthersAround(ms, i, [ms[i].(value := f)], key);
        assert ms[..i] + [ms[i].(value := f)] + ms[i + 1..] == m.members;
        assert |Entries(n'.members)| == |Entries(m.members)|;
        assert Entries(n'.members)[i] == Entries(m.members)[i];
      }
    }
  }

  lemma OthersLast(ms: seq<Member>, m: Member, key: string)
    requires m.name == Quoted(key)
    ensures Others(ms + [m], key) == Others(ms, key)
  {
    QuotedStands(key);
    OthersAppend(ms, [m], key);
    assert Others([m], key) == [];
  }

  /** The splice law: nothing but the block's own member changes, at any depth. */
  lemma {:induction false} RewriteKeyVerbatim(n: Node, key: string, value: Option<string>)
    requires Readable(n) && RewriteKey(n, key, value).Ok?
    ensures Verbatim(n, key, RewriteKey(n, key, value).value.0)
    decreases |key|
  {
    hide EditKeys, KeyOf, Strip, Quoted, Strict, WellFormed, StyleOf, ParseText, Others;
    var ms, i := n.members, IndexOf(n.members, Parent(key));
    var (n', changed) := RewriteKey(n, key, value).value;
    VerbatimRefl(n, key);
    if !Nested(key) {
      EditVerbatim(n, key, value);
    } else if i < |ms| {
      MemberReadable(n, i);
      RewriteKeyVerbatim(ms[i].value, Child(key), value);
      if changed {
        var inner := RewriteKey(ms[i].value, Child(key), value).value.0;
        ReplacedFinds(n, i, inner, Parent(key));
        OthersAround(ms, i, [ms[i].(value := inner)], Parent(key));
        assert ms[..i] + [ms[i].(value := inner)] + ms[i + 1..] == n'.members;
      }
    } else if changed {
      var inner := RewriteKey(EMPTY_OBJECT, Child(key), value).value.0;
      ParentPlain(key);
      EditVerbatim(n, Parent(key), Some(Print(inner)));
      RewriteKeyFresh(Child(key), value);
      NewParentFresh(n, key, value);
    }
  }

  // ---------------------------------------------------------------- when a block is refused

  /** How many members the object that holds `key` has. */
  function Siblings(n: Node, key: string): nat
    requires IsObject(n)
    decreases |key|
  {
    var i := IndexOf(n.members, Parent(key));
    if !Nested(key) then |n.members|
    else if i < |n.members| && IsObject(n.members[i].value) then Siblings(n.members[i].value, Child(key))
    else 0
  }

  /** The object a value for `key` is laid out in indents its members with a carriage return. */
  predicate Unformattable(n: Node, key: string)
    requires IsObject(n)
    decreases |key|
  {
    var i := IndexOf(n.members, Parent(key));
    if Nested(key) && i < |n.members| && IsObject(n.members[i].value) then Unformattable(n.members[i].value, Child(key))
    else StyleOf(n).indent.Some? && '\r' in StyleOf(n).indent.value
  }

  lemma FormattedExactly(n: Node, text: string)
    requires IsObject(n)
    ensures Formatted(StyleOf(n), text).None? <==> ParseText(text).None? || (StyleOf(n).indent.Some? && '\r' in StyleOf(n).indent.value)
  {
    hide ParseText;
  }

  lemma EmptyFormattable(key: string)
    ensures !Unformattable(EMPTY_OBJECT, key)
  {
  }

  /** Exactly when a rewrite fails, and how. */
  lemma {:induction false} RewriteKeyFails(n: Node, key: string, value: Option<string>)
    requires Readable(n)
    ensures var r := RewriteKey(n, key, value);
            && (r == Err(Unreadable) <==> Find(n, key) == Blocked)
            && (r == Err(NoOtherKeys) <==> value.None? && Find(n, key).Holds? && Siblings(n, key) == 1)
            && (r == Err(BadValue) <==> value.Some? && Find(n, key) != Blocked && Find(n, key) != Wanted(value)
                                        && (ParseText(value.value).None? || Unformattable(n, key)))
    decreases |key|
  {
    hide EditKeys, KeyOf, Strip, Quoted, Strict, WellFormed, StyleOf, ParseText, Formatted, SameJson;
    var i := IndexOf(n.members, Parent(key));
    if !Nested(key) {
      PlainFails(n, key, value);
    } else if i < |n.members| {
      MemberReadable(n, i);
      if IsObject(n.members[i].value) { RewriteKeyFails(n.members[i].value, Child(key), value); }
    } else {
      EmptyReadable();
      EmptyFind(Child(key));
      EmptyFormattable(Child(key));
      RewriteKeyFails(EMPTY_OBJECT, Child(key), value);
      NewParentFails(n, key, value);
    }
  }

  lemma NewParentFails(n: Node, key: string, value: Option<string>)
    requires Readable(n) && IsObject(n) && Nested(key) && IndexOf(n.members, Parent(key)) == |n.members|
    requires var r := RewriteKey(EMPTY_OBJECT, Child(key), value);
             && r != Err(Unreadable) && r != Err(NoOtherKeys)
             && (r == Err(BadValue) <==> value.Some? && ParseText(value.value).None?)
    ensures var r := RewriteKey(n, key, value);
            && r != Err(Unreadable) && r != Err(NoOtherKeys) && Find(n, key) == Missing
            && (r == Err(BadValue) <==> value.Some? && (ParseText(value.value).None? || Unformattable(n, key)))
  {
    hide *;
    NewParentUnfolds(n, key, value);
    EmptyReadable();
    EmptyFind(Child(key));
    var r := RewriteKey(EMPTY_OBJECT, Child(key), value);
    WantedSomething(value);
    if r.Ok? {
      RewriteKeyMeans(EMPTY_OBJECT, Child(key), value);
      if r.value.1 {
        PrintedTextParses(r.value.0);
        AppendFails(n, Parent(key), Print(r.value.0));
      }
    } else {
      assert r == Err(r.error) && r.error.BadValue?;
    }
  }

  lemma WantedSomething(value: Option<string>)
    ensures Wanted(value) == Missing <==> value.None?
  {
  }

  lemma AppendFails(n: Node, key: string, text: string)
    requires Readable(n) && IndexOf(n.members, key) == |n.members|
    ensures var r := EditKeys(n, [Block(key, Some(text))]);
            if ParseText(text).None? || (StyleOf(n).indent.Some? && '\r' in StyleOf(n).indent.value) then r == Err(BadValue) else r.Ok?
  {
    FormattedExactly(n, text);
    hide EditKeys, StyleOf, ParseText, Formatted, Entries, Appended, Quoted, IndexOf;
    EditAppends(n, key, text);
  }

  lemma NewParentUnfolds(n: Node, key: string, value: Option<string>)
    requires IsObject(n) && Nested(key) && IndexOf(n.members, Parent(key)) == |n.members|
    ensures Find(n, key) == Missing
    ensures Unformattable(n, key) <==> StyleOf(n).indent.Some? && '\r' in StyleOf(n).indent.value
    ensures var r := RewriteKey(EMPTY_OBJECT, Child(key), value);
            && (r.Err? ==> RewriteKey(n, key, value) == Err(r.error))
            && (r.Ok? && !r.value.1 ==> RewriteKey(n, key, value) == Ok((n, false)))
            && (r.Ok? && r.value.1 ==>
                  var e := EditKeys(n, [Block(Parent(key), Some(Print(r.value.0)))]);
                  RewriteKey(n, key, value) == if e.Err? then Err(e.error) else Ok((e.value.0, true)))
  {
    hide EditKeys, KeyOf, Strip, StyleOf, Print;
  }

  lemma PlainFails(n: Node, key: string, value: Option<string>)
    requires Readable(n) && !Nested(key)
    ensures var r := EditKeys(n, [Block(key, value)]);
            && r != Err(Unreadable) && Find(n, key) != Blocked
            && (r == Err(NoOtherKeys) <==> value.None? && Find(n, key).Holds? && |n.members| == 1)
            && (r == Err(BadValue) <==> value.Some? && Find(n, key) != Wanted(value) && (ParseText(value.value).None? || Unformattable(n, key)))
  {
    hide EditKeys, KeyOf, Strip, Quoted, Strict, WellFormed, StyleOf, ParseText, Formatted, SameJson;
    var i := IndexOf(n.members, Parent(key));
    assert Parent(key) == key;
    if value.None? {
      if i == |n.members| { EditSkips(n, key); } else { EditRemoves(n, key); }
    } else {
      FormattedExactly(n, value.value);
      if i == |n.members| {
        AppendFails(n, key, value.value);
      } else {
        EditReplaces(n, key, value.value);
        MemberReadable(n, i);
        SameJsonMeans(n.members[i].value, value.value);
      }
    }
  }
}
