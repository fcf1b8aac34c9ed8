/** What a whole rewrite guarantees, for every manifest text and every list of blocks. */
module ManifestLaws {
  import opened Basics
  import opened Ordering
  import opened JsonLex
  import opened JsonTree
  import opened JsonFormat
  import opened JsonWords
  import opened ManifestTree
  import opened ManifestEdit
  import opened ManifestRewrite
  import opened Manifest
  import opened ManifestDotted

  /** No block's key is another's, above it, or below it. */
  predicate Apart(blocks: seq<Block>) {
    forall i, j | 0 <= i < j < |blocks| :: Independent(blocks[j].key, blocks[i].key)
  }

  /** No later block's key is block i's, above it, or below it. */
  predicate Final(blocks: seq<Block>, i: nat)
    requires i < |blocks|
  {
    forall j | i < j < |blocks| :: Independent(blocks[j].key, blocks[i].key)
  }

  predicate StrictValues(blocks: seq<Block>) {
    forall i | 0 <= i < |blocks| :: StrictValue(blocks[i].value)
  }

  /** The key is apart from every block's. */
  predicate Untouched(blocks: seq<Block>, key: string) {
    forall i | 0 <= i < |blocks| :: Independent(blocks[i].key, key)
  }

  /** One block on text: the tree rewrite, scanned back. */
  lemma BlockScans(raw: string, b: Block)
    requires BlockText(raw, b).Ok? && StrictValue(b.value)
    ensures var out := BlockText(raw, b).value.0;
            && Scan(raw).Some? && Scan(out).Some?
            && RewriteKey(Scan(raw).value.node, b.key, b.value).Ok?
            && Scan(out).value.node == RewriteKey(Scan(raw).value.node, b.key, b.value).value.0
            && Scan(out).value.start == Scan(raw).value.start
            && out[..Scan(out).value.start] == raw[..Scan(raw).value.start]
            && out[Scan(out).value.end..] == raw[Scan(raw).value.end..]
  {
    hide Scan, RewriteKey, Strict, WellFormed, Print, StrictValue;
    var sc := Scan(raw).value;
    ScanReadable(raw);
    RewriteKeyMeans(sc.node, b.key, b.value);
    var (n, changed) := RewriteKey(sc.node, b.key, b.value).value;
    if changed {
      ScanSplice(raw, n);
      var out := Splice(raw, sc, n);
      assert out[..sc.start] == raw[..sc.start];
      assert out[sc.start + |Print(n)|..] == raw[sc.end..];
    }
  }

  /** What a key names in strict JSON is strict. */
  lemma {:induction false} FoundStrict(n: Node, key: string)
    requires Readable(n) && Find(n, key).Holds?
    ensures Strict(Find(n, key).value)
    decreases |key|
  {
    hide Strip, Strict, WellFormed, KeyOf;
    var i := IndexOf(n.members, Parent(key));
    MemberReadable(n, i);
    if Nested(key) { FoundStrict(n.members[i].value, Child(key)); } else { StripStrict(n.members[i].value); }
  }

  /** One block, changing or not, leaves text that scans exactly when its value repeats no name. */
  lemma BlockScannable(raw: string, b: Block)
    requires BlockText(raw, b).Ok?
    ensures Scan(BlockText(raw, b).value.0).Some? <==> StrictValue(b.value)
  {
    hide Scan, RewriteKey, Strict, WellFormed, Print, Find, Strip, ParseText;
    BlockChanged(raw, b);
    ScanReadable(raw);
    var n := Scan(raw).value.node;
    RewriteKeyMeans(n, b.key, b.value);
    if RewriteKey(n, b.key, b.value).value.1 {
      ScanSplice(raw, RewriteKey(n, b.key, b.value).value.0);
    } else if b.value.Some? {
      FoundStrict(n, b.key);
      StripStrict(ParseText(b.value.value).value);
    }
  }

  /**
   A value that repeats a name is accepted by the formatter, which allows it, and spliced
   in; the text then no longer scans, and no later block can be written. So a rewrite that
   succeeds leaves a manifest that scans exactly when no block's value repeats a name.
   */
  lemma {:induction false} ScannableExactly(raw: string, blocks: seq<Block>)
    requires BlocksText(raw, blocks).Ok? && Scan(raw).Some?
    ensures Scan(BlocksText(raw, blocks).value.0).Some? <==> StrictValues(blocks)
    decreases |blocks|
  {
    hide Scan, BlockText, BlocksText, StrictValue;
    if blocks == [] {
      NoBlocks(raw);
    } else {
      var k := |blocks| - 1;
      BlocksLast(raw, blocks);
      var mid := BlocksText(raw, blocks[..k]).value.0;
      BlockChanged(mid, blocks[k]);
      ScannableExactly(raw, blocks[..k]);
      BlockScannable(mid, blocks[k]);
      assert blocks == blocks[..k] + [blocks[k]];
    }
  }

  lemma BlocksLast(raw: string, blocks: seq<Block>)
    requires blocks != [] && BlocksText(raw, blocks).Ok?
    ensures var init, b := blocks[..|blocks| - 1], blocks[|blocks| - 1];
            && BlocksText(raw, init).Ok? && BlockText(BlocksText(raw, init).value.0, b).Ok?
            && var (mid, before) := BlocksText(raw, init).value;
               var (out, changed) := BlockText(mid, b).value;
               BlocksText(raw, blocks).value == (out, if changed then before + [b.key] else before)
  {
    hide BlockText;
  }

  /** What one block does to text that scans. */
  lemma BlockMeans(raw: string, b: Block)
    requires BlockText(raw, b).Ok? && StrictValue(b.value)
    ensures var (out, changed) := BlockText(raw, b).value;
            && Scan(raw).Some? && Scan(out).Some? && Scan(out).value.start == Scan(raw).value.start
            && out[..Scan(out).value.start] == raw[..Scan(raw).value.start]
            && out[Scan(out).value.end..] == raw[Scan(raw).value.end..]
            && Find(Scan(out).value.node, b.key) == Wanted(b.value)
            && (forall key | Independent(b.key, key) :: Find(Scan(out).value.node, key) == Find(Scan(raw).value.node, key))
            && (changed <==> Find(Scan(raw).value.node, b.key) != Wanted(b.value))
            && (!changed ==> out == raw)
  {
    BlockScans(raw, b);
    BlockChanged(raw, b);
    hide Scan, BlockText, StrictValue, Find, Independent, Wanted, RewriteKey;
    ScanReadable(raw);
    var n := Scan(raw).value.node;
    RewriteKeyMeans(n, b.key, b.value);
    forall key | Independent(b.key, key)
      ensures Find(Scan(BlockText(raw, b).value.0).value.node, key) == Find(Scan(raw).value.node, key)
    {
      RewriteKeyFrame(n, b.key, b.value, key);
    }
  }

  /** The laws of a successful rewrite, with whatever blocks; only an empty list takes text that does not scan. */
  lemma {:induction false} BlocksMean(raw: string, blocks: seq<Block>)
    requires BlocksText(raw, blocks).Ok? && Scan(raw).Some? && StrictValues(blocks)
    ensures var (out, changed) := BlocksText(raw, blocks).value;
            && Scan(out).Some? && Scan(out).value.start == Scan(raw).value.start
            && out[..Scan(out).value.start] == raw[..Scan(raw).value.start]
            && out[Scan(out).value.end..] == raw[Scan(raw).value.end..]
            && (forall i | 0 <= i < |blocks| && Final(blocks, i) :: Find(Scan(out).value.node, blocks[i].key) == Wanted(blocks[i].value))
            && (forall key | Untouched(blocks, key) :: Find(Scan(out).value.node, key) == Find(Scan(raw).value.node, key))
            && (changed == [] ==> out == raw)
    decreases |blocks|
  {
    hide Scan, BlockText, StrictValue, Find, Independent, Wanted, BlocksText, Final, Untouched;
    if blocks == [] {
      NoBlocks(raw);
    } else {
      var k := |blocks| - 1;
      var init, b := blocks[..k], blocks[k];
      BlocksLast(raw, blocks);
      BlocksMean(raw, init);
      BlockMeans(BlocksText(raw, init).value.0, b);
      var out := BlocksText(raw, blocks).value.0;
      forall i | 0 <= i < |blocks| && Final(blocks, i) ensures Find(Scan(out).value.node, blocks[i].key) == Wanted(blocks[i].value) {
        if i < k { FinalSooner(blocks, i); }
      }
      forall key | Untouched(blocks, key) ensures Find(Scan(out).value.node, key) == Find(Scan(raw).value.node, key) {
        UntouchedSooner(blocks, key);
      }
    }
  }

  lemma FinalSooner(blocks: seq<Block>, i: nat)
    requires i < |blocks| - 1 && Final(blocks, i)
    ensures var init := blocks[..|blocks| - 1];
            init[i] == blocks[i] && Final(init, i) && Independent(blocks[|blocks| - 1].key, blocks[i].key)
  {
    hide Independent;
  }

  lemma UntouchedSooner(blocks: seq<Block>, key: string)
    requires blocks != [] && Untouched(blocks, key)
    ensures Untouched(blocks[..|blocks| - 1], key) && Independent(blocks[|blocks| - 1].key, key)
  {
    hide Independent;
  }

  lemma NoBlocks(raw: string)
    ensures BlocksText(raw, []) == Ok((raw, []))
  {
  }

  lemma BlockChanged(raw: string, b: Block)
    requires BlockText(raw, b).Ok?
    ensures Scan(raw).Some? && RewriteKey(Scan(raw).value.node, b.key, b.value).Ok?
    ensures BlockText(raw, b).value.1 == RewriteKey(Scan(raw).value.node, b.key, b.value).value.1
    ensures !BlockText(raw, b).value.1 ==> BlockText(raw, b).value.0 == raw
  {
  }

  /** The keys reported are those whose value differed, each once. */
  lemma {:induction false} ChangedMeans(raw: string, blocks: seq<Block>)
    requires BlocksText(raw, blocks).Ok? && Scan(raw).Some? && Apart(blocks) && StrictValues(blocks)
    ensures var changed := BlocksText(raw, blocks).value.1;
            && (forall k | k in changed :: exists i | 0 <= i < |blocks| :: blocks[i].key == k)
            && (forall i | 0 <= i < |blocks| ::
                  blocks[i].key in changed <==> Find(Scan(raw).value.node, blocks[i].key) != Wanted(blocks[i].value))
            && Distinct(changed)
    decreases |blocks|
  {
    hide Scan, BlockText, StrictValue, Find, Independent, Wanted, BlocksText;
    if blocks == [] {
      NoBlocks(raw);
    } else {
      var k := |blocks| - 1;
      var init, b := blocks[..k], blocks[k];
      BlocksLast(raw, blocks);
      ChangedMeans(raw, init);
      BlocksMean(raw, init);
      var (mid, before) := BlocksText(raw, init).value;
      BlockMeans(mid, b);
      KeysDiffer(blocks);
      LastUntouched(blocks);
      assert forall i | 0 <= i < k :: init[i].key == blocks[i].key != b.key;
      ChangedGrows(Scan(raw).value.node, init, b, before, BlocksText(raw, blocks).value.1);
      assert init + [b] == blocks;
    }
  }

  lemma ChangedGrows(n: Node, init: seq<Block>, b: Block, before: seq<string>, changed: seq<string>)
    requires IsObject(n) && b.key !in before && Distinct(before)
    requires forall i | 0 <= i < |init| :: init[i].key != b.key
    requires forall k | k in before :: exists i | 0 <= i < |init| :: init[i].key == k
    requires forall i | 0 <= i < |init| :: init[i].key in before <==> Find(n, init[i].key) != Wanted(init[i].value)
    requires changed == if Find(n, b.key) != Wanted(b.value) then before + [b.key] else before
    ensures forall k | k in changed :: exists i | 0 <= i < |init + [b]| :: (init + [b])[i].key == k
    ensures forall i | 0 <= i < |init + [b]| ::
              (init + [b])[i].key in changed <==> Find(n, (init + [b])[i].key) != Wanted((init + [b])[i].value)
    ensures Distinct(changed)
  {
    hide Find, Wanted;
    var all := init + [b];
    forall x | x in changed ensures exists i | 0 <= i < |all| :: all[i].key == x {
      if x in before {
        var i :| 0 <= i < |init| && init[i].key == x;
        assert all[i].key == x;
      } else {
        assert all[|init|].key == x;
      }
    }
  }

  lemma KeysDiffer(blocks: seq<Block>)
    requires Apart(blocks)
    ensures forall i, j | 0 <= i < j < |blocks| :: blocks[i].key != blocks[j].key
  {
    forall i, j | 0 <= i < j < |blocks| ensures blocks[i].key != blocks[j].key {
      assert Independent(blocks[j].key, blocks[i].key);
      IndependentMeans(blocks[j].key, blocks[i].key);
    }
  }

  lemma {:induction false} IndependentSym(a: string, b: string)
    ensures Independent(a, b) == Independent(b, a)
  {
    IndependentMeans(a, b);
    IndependentMeans(b, a);
  }

  lemma LastUntouched(blocks: seq<Block>)
    requires blocks != [] && Apart(blocks)
    ensures Untouched(blocks[..|blocks| - 1], blocks[|blocks| - 1].key)
  {
    var k := |blocks| - 1;
    forall i | 0 <= i < k ensures Independent(blocks[..k][i].key, blocks[k].key) {
      assert Independent(blocks[k].key, blocks[i].key);
      IndependentSym(blocks[k].key, blocks[i].key);
    }
  }

  // ---------------------------------------------------------------- the rewriter's result

  /** The value a dotted key names, as it stands in the text. */
  function NodeAt(n: Node, key: string): Option<Node>
    requires IsObject(n)
    decreases |key|
  {
    var i := IndexOf(n.members, Parent(key));
    if i == |n.members| then None
    else if !Nested(key) then Some(n.members[i].value)
    else if IsObject(n.members[i].value) then NodeAt(n.members[i].value, Child(key))
    else None
  }

  /** The key goes through objects as far as it goes, and then there is no such member. */
  predicate Absent(n: Node, key: string)
    requires IsObject(n)
    decreases |key|
  {
    var i := IndexOf(n.members, Parent(key));
    i == |n.members| || (Nested(key) && IsObject(n.members[i].value) && Absent(n.members[i].value, Child(key)))
  }

  lemma {:induction false} FindNode(n: Node, key: string)
    requires Readable(n)
    ensures Find(n, key) == Missing <==> Absent(n, key)
    ensures Find(n, key).Holds? <==> NodeAt(n, key).Some?
    ensures NodeAt(n, key).Some? ==> Find(n, key) == Holds(Strip(NodeAt(n, key).value)) && WellFormed(NodeAt(n, key).value)
    decreases |key|
  {
    hide Strip, KeyOf, WellFormed, Strict;
    var i := IndexOf(n.members, Parent(key));
    if i < |n.members| {
      MemberReadable(n, i);
      if Nested(key) && IsObject(n.members[i].value) { FindNode(n.members[i].value, Child(key)); }
    }
  }

  /** The object has, under the key, a value that says what the block's does, or nothing if the block wants nothing. */
  predicate Says(n: Node, key: string, value: Option<string>)
    requires IsObject(n)
  {
    match value
    case None => Absent(n, key)
    case Some(text) =>
      NodeAt(n, key).Some? && ParseText(text).Some? && Words(NodeAt(n, key).value) == Words(ParseText(text).value)
  }

  lemma SaysExactly(n: Node, key: string, value: Option<string>)
    requires Readable(n) && (value.Some? ==> ParseText(value.value).Some?)
    ensures Says(n, key, value) <==> Find(n, key) == Wanted(value)
  {
    hide Strip, Words, WellFormed, Strict, Find, NodeAt, Absent, ParseText;
    FindNode(n, key);
    if value.Some? && NodeAt(n, key).Some? {
      ParsedTextWellFormed(value.value);
      WordsExactly(NodeAt(n, key).value, ParseText(value.value).value);
    }
  }

  /** The key names the same in both, white space aside. */
  predicate SaysSame(n: Node, n': Node, key: string)
    requires IsObject(n) && IsObject(n')
  {
    && Absent(n, key) == Absent(n', key) && NodeAt(n, key).Some? == NodeAt(n', key).Some?
    && (NodeAt(n, key).Some? ==> Words(NodeAt(n, key).value) == Words(NodeAt(n', key).value))
  }

  lemma SaysSameExactly(n: Node, n': Node, key: string)
    requires Readable(n) && Readable(n') && Find(n', key) == Find(n, key)
    ensures SaysSame(n, n', key)
  {
    hide Strip, Words, WellFormed, Strict, Find, NodeAt, Absent;
    FindNode(n, key);
    FindNode(n', key);
    if NodeAt(n, key).Some? { WordsExactly(NodeAt(n, key).value, NodeAt(n', key).value); }
  }

  /** The sorted set of keys whose value says something else, or is there and should not be, or the other way round. */
  ghost predicate ChangedSet(raw: string, blocks: seq<Block>, changed: seq<string>)
    requires Scan(raw).Some?
  {
    && Sorted(changed, Leq) && Distinct(changed)
    && forall k :: k in changed <==>
         exists i | 0 <= i < |blocks| :: blocks[i].key == k && !Says(Scan(raw).value.node, k, blocks[i].value)
  }

  lemma SortKeepsDistinct(xs: seq<string>)
    requires Distinct(xs)
    ensures Distinct(SortStrings(xs)) && forall k :: k in SortStrings(xs) <==> k in xs
  {
    hide SortStrings;
    DistinctCounts(xs);
    DistinctPermutation(SortStrings(xs), multiset(xs));
  }

  /**
   The main theorem for blocks that are apart (for any others, see BlocksMean): the
   rewritten text scans; every block's key holds its value; every key apart from the
   blocks holds what it held; members the blocks do not go through keep their order, names
   and values in every object; the text outside the object is untouched; the report is the
   sorted set of keys that differed, and it is empty exactly when no byte changed.
   */
  lemma RewriteManifestMeans(raw: string, blocks: seq<Block>)
    requires BlocksText(raw, blocks).Ok? && Scan(raw).Some? && Apart(blocks) && StrictValues(blocks)
    ensures var (out, changed) := (BlocksText(raw, blocks).value.0, SortStrings(BlocksText(raw, blocks).value.1));
            && Scan(out).Some?
            && (forall i | 0 <= i < |blocks| :: Says(Scan(out).value.node, blocks[i].key, blocks[i].value))
            && (forall key | Untouched(blocks, key) :: SaysSame(Scan(raw).value.node, Scan(out).value.node, key))
            && out[..Scan(out).value.start] == raw[..Scan(raw).value.start]
            && out[Scan(out).value.end..] == raw[Scan(raw).value.end..]
            && (forall path | Spared(blocks, path) :: KeepsAt(Scan(raw).value.node, Scan(out).value.node, path, Onwards(blocks, path)))
            && ChangedSet(raw, blocks, changed)
            && (changed == [] <==> out == raw)
  {
    hide Spared, KeepsAt, Onwards, Says, SaysSame;
    hide Scan, BlocksText, StrictValue, Find, Independent, Wanted, SortStrings, Leq, Untouched;
    BlocksMean(raw, blocks);
    assert forall i | 0 <= i < |blocks| :: Final(blocks, i);
    var out := BlocksText(raw, blocks).value.0;
    ScanReadable(raw);
    ScanReadable(out);
    forall path | Spared(blocks, path) ensures KeepsAt(Scan(raw).value.node, Scan(out).value.node, path, Onwards(blocks, path)) {
      BlocksVerbatim(raw, blocks, path, Onwards(blocks, path));
    }
    forall i | 0 <= i < |blocks|
      ensures Says(Scan(out).value.node, blocks[i].key, blocks[i].value)
      ensures Says(Scan(raw).value.node, blocks[i].key, blocks[i].value)
              <==> Find(Scan(raw).value.node, blocks[i].key) == Wanted(blocks[i].value)
    {
      StrictParses(blocks[i].value);
      SaysExactly(Scan(out).value.node, blocks[i].key, blocks[i].value);
      SaysExactly(Scan(raw).value.node, blocks[i].key, blocks[i].value);
    }
    forall key | Untouched(blocks, key) ensures SaysSame(Scan(raw).value.node, Scan(out).value.node, key) {
      SaysSameExactly(Scan(raw).value.node, Scan(out).value.node, key);
    }
    ReportMeans(raw, blocks);
  }

  lemma StrictParses(value: Option<string>)
    requires StrictValue(value)
    ensures value.Some? ==> ParseText(value.value).Some?
  {
  }

  /** The report, sorted. */
  lemma ReportMeans(raw: string, blocks: seq<Block>)
    requires BlocksText(raw, blocks).Ok? && Scan(raw).Some? && Apart(blocks) && StrictValues(blocks)
    requires forall i | 0 <= i < |blocks| ::
               Says(Scan(raw).value.node, blocks[i].key, blocks[i].value) <==> Find(Scan(raw).value.node, blocks[i].key) == Wanted(blocks[i].value)
    ensures var changed := SortStrings(BlocksText(raw, blocks).value.1);
            ChangedSet(raw, blocks, changed) && (changed == [] <==> BlocksText(raw, blocks).value.0 == raw)
  {
    hide Says, Scan, BlocksText, StrictValue, Find, Independent, Wanted, SortStrings, Leq;
    BlocksMean(raw, blocks);
    assert forall i | 0 <= i < |blocks| :: Final(blocks, i);
    ChangedMeans(raw, blocks);
    var (out, keys) := BlocksText(raw, blocks).value;
    var changed := SortStrings(keys);
    SortKeepsDistinct(keys);
    SortStringsSorts(keys);
    KeysDiffer(blocks);
    forall k ensures k in changed <==>
      exists i | 0 <= i < |blocks| :: blocks[i].key == k && !Says(Scan(raw).value.node, k, blocks[i].value)
    {
      if k in changed {
        var i :| 0 <= i < |blocks| && blocks[i].key == k;
        assert blocks[i].key in keys;
      }
    }
    if changed != [] {
      var k := changed[0];
      assert k in changed;
      var i :| 0 <= i < |blocks| && blocks[i].key == k && !Says(Scan(raw).value.node, k, blocks[i].value);
      assert Find(Scan(out).value.node, blocks[i].key) == Wanted(blocks[i].value);
    } else {
      assert |keys| == 0;
    }
  }

  /** On text: the object scanned from the output differs from the input's at the block's key only. */
  lemma SpliceVerbatim(raw: string, b: Block)
    requires BlockText(raw, b).Ok? && StrictValue(b.value)
    ensures Scan(raw).Some? && Scan(BlockText(raw, b).value.0).Some?
    ensures Verbatim(Scan(raw).value.node, b.key, Scan(BlockText(raw, b).value.0).value.node)
  {
    hide Scan, RewriteKey, StrictValue, Verbatim;
    BlockScans(raw, b);
    ScanReadable(raw);
    RewriteKeyVerbatim(Scan(raw).value.node, b.key, b.value);
  }

  // ---------------------------------------------------------------- members no block goes through

  /** The names a dotted key goes through. */
  function Segments(key: string): (p: seq<string>)
    ensures p != [] && p[0] == Parent(key) && (Nested(key) ==> p[1..] == Segments(Child(key))) && (!Nested(key) ==> p == [key])
    decreases |key|
  {
    if Nested(key) then [Parent(key)] + Segments(Child(key)) else assert Parent(key) == key; [key]
  }

  function Lookup(ms: seq<Member>, name: string): Option<Node> {
    var i := IndexOf(ms, name);
    if i < |ms| then Some(ms[i].value) else None
  }

  /** The object under a path of names, which may contain dots themselves. */
  function ObjectAt(n: Node, path: seq<string>): (r: Option<Node>)
    requires IsObject(n)
    ensures r.Some? ==> IsObject(r.value)
    decreases |path|
  {
    if path == [] then Some(n)
    else
      var w := Lookup(n.members, path[0]);
      if w.Some? && IsObject(w.value) then ObjectAt(w.value, path[1..]) else None
  }

  /** The name by which a key goes on from a path. */
  function Onward(key: string, path: seq<string>): set<string> {
    if path < Segments(key) then {Segments(key)[|path|]} else {}
  }

  /** The names by which blocks go on from a path. */
  function Onwards(blocks: seq<Block>, path: seq<string>): set<string> {
    set i, x | 0 <= i < |blocks| && x in Onward(blocks[i].key, path) :: x
  }

  /** No block writes the path itself or anything above it. */
  predicate Spared(blocks: seq<Block>, path: seq<string>) {
    forall i | 0 <= i < |blocks| :: !(Segments(blocks[i].key) <= path)
  }

  /** The members under none of the given keys: their names and values, in order. */
  function Beside(ms: seq<Member>, keys: set<string>): seq<Entry> {
    if ms == [] then [] else (if Named(EntryOf(ms[0]), keys) then [] else [EntryOf(ms[0])]) + Beside(ms[1..], keys)
  }

  predicate Named(e: Entry, keys: set<string>) { KeyOf(e.name).Some? && KeyOf(e.name).value in keys }

  function Dropped(es: seq<Entry>, keys: set<string>): seq<Entry> {
    if es == [] then [] else (if Named(es[0], keys) then [] else [es[0]]) + Dropped(es[1..], keys)
  }

  lemma {:induction false} BesideOthers(ms: seq<Member>, p: string)
    ensures Beside(ms, {p}) == Others(ms, p)
    decreases |ms|
  {
    hide KeyOf;
    if ms != [] { BesideOthers(ms[1..], p); }
  }

  lemma {:induction false} BesideMore(ms: seq<Member>, few: set<string>, keys: set<string>)
    requires few <= keys
    ensures Beside(ms, keys) == Dropped(Beside(ms, few), keys)
    decreases |ms|
  {
    hide KeyOf;
    if ms != [] {
      BesideMore(ms[1..], few, keys);
      var rest := Beside(ms[1..], few);
      if !Named(EntryOf(ms[0]), few) { assert ([EntryOf(ms[0])] + rest)[1..] == rest; } else { assert [] + rest == rest; }
    }
  }

  /** The value of the first entry of a name. */
  function EntryValue(es: seq<Entry>, name: string): Option<Node> {
    if es == [] then None else if KeyOf(es[0].name) == Some(name) then Some(es[0].value) else EntryValue(es[1..], name)
  }

  lemma {:induction false} LookupOthers(ms: seq<Member>, p: string, name: string)
    requires name != p
    ensures Lookup(ms, name) == EntryValue(Others(ms, p), name)
    decreases |ms|
  {
    hide KeyOf;
    if ms != [] {
      LookupOthers(ms[1..], p, name);
      LookupNext(ms, name);
      var rest := Others(ms[1..], p);
      if !HasKey(ms[0], p) { assert ([EntryOf(ms[0])] + rest)[1..] == rest; } else { assert [] + rest == rest; }
    }
  }

  lemma LookupNext(ms: seq<Member>, name: string)
    requires ms != []
    ensures Lookup(ms, name) == if HasKey(ms[0], name) then Some(ms[0].value) else Lookup(ms[1..], name)
  {
    hide KeyOf;
  }

  function BesideAt(n: Node, path: seq<string>, keys: set<string>): seq<Entry>
    requires IsObject(n)
  {
    var at := ObjectAt(n, path);
    if at.Some? then Beside(at.value.members, keys) else []
  }

  /** The object under a path, if there was one, is there with the same members beside the keys; a new one has none. */
  predicate KeepsAt(n: Node, n': Node, path: seq<string>, keys: set<string>)
    requires IsObject(n) && IsObject(n')
  {
    (ObjectAt(n, path).Some? ==> ObjectAt(n', path).Some?) && BesideAt(n', path, keys) == BesideAt(n, path, keys)
  }

  lemma OnlyNamed(ms: seq<Member>, p: string)
    requires |ms| == 1 && HasKey(ms[0], p)
    ensures Beside(ms, {p}) == []
  {
    hide KeyOf;
    assert ms[1..] == [] && Named(EntryOf(ms[0]), {p});
    assert Beside(ms, {p}) == [] + Beside(ms[1..], {p});
  }

  lemma ObjectInside(n: Node, path: seq<string>)
    requires IsObject(n) && path != []
    ensures var w := Lookup(n.members, path[0]);
            ObjectAt(n, path) == if w.Some? && IsObject(w.value) then ObjectAt(w.value, path[1..]) else None
  {
  }

  lemma OnwardTop(key: string)
    ensures Onward(key, []) == {Parent(key)}
  {
  }

  lemma FreshParts(key: string, n: Node, name: string)
    requires Fresh(key, n)
    ensures IsObject(n) && Beside(n.members, {Parent(key)}) == []
    ensures name != Parent(key) ==> Lookup(n.members, name) == None
    ensures name == Parent(key) && Nested(key) ==> Lookup(n.members, name).Some? && Fresh(Child(key), Lookup(n.members, name).value)
  {
    hide KeyOf, Beside;
    OnlyNamed(n.members, Parent(key));
    if name == Parent(key) { IndexOfAt(n.members, name, 0); } else { IndexOfNone(n.members, name); }
  }

  lemma {:induction false} FreshAt(key: string, n: Node, path: seq<string>)
    requires Fresh(key, n) && IsObject(n) && !(Segments(key) <= path)
    ensures BesideAt(n, path, Onward(key, path)) == []
    decreases |path|
  {
    hide Beside, Fresh, Lookup, ObjectAt, Segments, Onward, Parent, Child, Nested;
    if path == [] {
      OnwardTop(key);
      FreshParts(key, n, "");
      assert ObjectAt(n, []) == Some(n) by { ObjectHere(n); }
    } else {
      FreshParts(key, n, path[0]);
      ObjectInside(n, path);
      if path[0] == Parent(key) {
        SegmentsInside(key, path);
        FreshIsObject(Child(key), Lookup(n.members, path[0]).value);
        FreshAt(Child(key), Lookup(n.members, path[0]).value, path[1..]);
      }
    }
  }

  lemma ObjectHere(n: Node)
    requires IsObject(n)
    ensures ObjectAt(n, []) == Some(n)
  {
  }

  lemma FreshIsObject(key: string, n: Node)
    requires Fresh(key, n)
    ensures IsObject(n)
  {
  }

  lemma {:induction false} VerbatimAt(n: Node, key: string, n': Node, path: seq<string>)
    requires IsObject(n) && IsObject(n') && Verbatim(n, key, n') && !(Segments(key) <= path)
    ensures KeepsAt(n, n', path, Onward(key, path))
    decreases |path|
  {
    hide Beside, Fresh, Lookup, ObjectAt, Segments, Onward, Parent, Child, Nested, Verbatim, Others;
    var p := Parent(key);
    VerbatimParts(n, key, n');
    if path == [] {
      OnwardTop(key);
      BesideOthers(n.members, p);
      BesideOthers(n'.members, p);
      ObjectHere(n);
      ObjectHere(n');
    } else {
      ObjectInside(n, path);
      ObjectInside(n', path);
      var v, v' := Lookup(n.members, path[0]), Lookup(n'.members, path[0]);
      if path[0] != p {
        LookupOthers(n.members, p, path[0]);
        LookupOthers(n'.members, p, path[0]);
      } else {
        SegmentsInside(key, path);
        if v.Some? && IsObject(v.value) {
          VerbatimAt(v.value, Child(key), v'.value, path[1..]);
        } else if v.None? && v'.Some? {
          FreshIsObject(Child(key), v'.value);
          FreshAt(Child(key), v'.value, path[1..]);
        }
      }
    }
  }

  /** The splice law by lookups. */
  lemma VerbatimParts(n: Node, key: string, n': Node)
    requires IsObject(n) && IsObject(n') && Verbatim(n, key, n')
    ensures Others(n'.members, Parent(key)) == Others(n.members, Parent(key))
    ensures Nested(key) ==>
              var v, v' := Lookup(n.members, Parent(key)), Lookup(n'.members, Parent(key));
              && (v.Some? ==> v'.Some? && if IsObject(v.value) then IsObject(v'.value) && Verbatim(v.value, Child(key), v'.value) else v' == v)
              && (v.None? && v'.Some? ==> Fresh(Child(key), v'.value))
  {
    hide KeyOf, Others, Fresh;
  }

  lemma SegmentsInside(key: string, path: seq<string>)
    requires path != [] && path[0] == Parent(key) && !(Segments(key) <= path)
    ensures Nested(key) && !(Segments(Child(key)) <= path[1..]) && Onward(key, path) == Onward(Child(key), path[1..])
  {
    var s := Segments(key);
    assert path == [path[0]] + path[1..] && s == [s[0]] + s[1..];
    assert !Nested(key) ==> s <= path;
    var t := Segments(Child(key));
    assert s <= path <==> t <= path[1..];
    assert path < s <==> path[1..] < t;
  }

  /**
   Whatever the blocks, in every object they do not write as a whole, at every depth, the
   members they do not go through keep their order, names and values; an object that is new
   there holds only members they go through.
   */
  lemma {:induction false} BlocksVerbatim(raw: string, blocks: seq<Block>, path: seq<string>, keys: set<string>)
    requires BlocksText(raw, blocks).Ok? && Scan(raw).Some? && StrictValues(blocks)
    requires Spared(blocks, path) && Onwards(blocks, path) <= keys
    ensures Scan(BlocksText(raw, blocks).value.0).Some?
    ensures KeepsAt(Scan(raw).value.node, Scan(BlocksText(raw, blocks).value.0).value.node, path, keys)
    decreases |blocks|
  {
    hide Scan, BlockText, StrictValue, BlocksText, BesideAt, Others, Segments, ObjectAt, Onward;
    BlocksMean(raw, blocks);
    if blocks == [] {
      NoBlocks(raw);
    } else {
      var k := |blocks| - 1;
      var init, b := blocks[..k], blocks[k];
      BlocksLast(raw, blocks);
      BlocksMean(raw, init);
      OnwardsSooner(blocks, path);
      BlocksVerbatim(raw, init, path, keys);
      var mid, out := BlocksText(raw, init).value.0, BlocksText(raw, blocks).value.0;
      SpliceVerbatim(mid, b);
      var n, n' := Scan(mid).value.node, Scan(out).value.node;
      hide Verbatim;
      VerbatimAt(n, b.key, n', path);
      BesideMoreAt(n, path, Onward(b.key, path), keys);
      BesideMoreAt(n', path, Onward(b.key, path), keys);
    }
  }

  lemma BesideMoreAt(n: Node, path: seq<string>, few: set<string>, keys: set<string>)
    requires IsObject(n) && few <= keys
    ensures BesideAt(n, path, keys) == Dropped(BesideAt(n, path, few), keys)
  {
    hide Beside, ObjectAt;
    if ObjectAt(n, path).Some? { BesideMore(ObjectAt(n, path).value.members, few, keys); }
  }

  lemma OnwardsSooner(blocks: seq<Block>, path: seq<string>)
    requires blocks != [] && Spared(blocks, path)
    ensures var init, b := blocks[..|blocks| - 1], blocks[|blocks| - 1];
            Spared(init, path) && !(Segments(b.key) <= path) && Onwards(init, path) <= Onwards(blocks, path) && Onward(b.key, path) <= Onwards(blocks, path)
  {
    hide Segments, Onward;
    var k := |blocks| - 1;
    assert blocks[k].key == blocks[k].key;
    forall x | x in Onwards(blocks[..k], path) ensures x in Onwards(blocks, path) {
      var i :| 0 <= i < k && x in Onward(blocks[..k][i].key, path);
      assert blocks[i] == blocks[..k][i];
    }
  }

  // ---------------------------------------------------------------- the value that breaks scanning

  const ONE_MEMBER: Node := Group(true, "", [Member("", "\"a\"", "", "", Scalar("0"), "")])
  const REPEATED: Node := Group(true, "", [Member("", "\"x\"", "", "", Scalar("1"), ""), Member("", "\"x\"", "", "", Scalar("2"), "")])

  lemma SmallTokens()
    ensures IsScalarToken("0") && IsScalarToken("1") && IsScalarToken("2")
    ensures IsStringToken("\"a\"") && KeyOf("\"a\"") == Some("a")
    ensures IsStringToken("\"x\"") && KeyOf("\"x\"") == Some("x")
  {
    LetterToken('a');
    LetterToken('x');
  }

  lemma LetterToken(c: char)
    requires 'a' <= c <= 'z'
    ensures IsStringToken(['"', c, '"']) && KeyOf(['"', c, '"']) == Some([c])
  {
    QuotedStands([c]);
    assert Encode([c]) == [c] + Encode("") == [c];
    assert ['"'] + [c] + ['"'] == ['"', c, '"'];
  }

  /** Two members named `x` go in, the rewrite succeeds, and the manifest no longer scans. */
  lemma RepeatedNamesBreak()
    ensures var b := Block("a", Some(Print(REPEATED)));
            && BlockText(Print(ONE_MEMBER), b).Ok? && BlockText(Print(ONE_MEMBER), b).value.1
            && Scan(BlockText(Print(ONE_MEMBER), b).value.0).None?
  {
    SmallTokens();
    hide IsScalarToken, IsStringToken, KeyOf, Scan, EditKeys;
    var n, v, b := ONE_MEMBER, REPEATED, Block("a", Some(Print(REPEATED)));
    assert WellFormed(n) && Strict(n) by {
      assert WellFormedMember(true, n.members[0]);
      assert StrictMember(true, n.members[0]);
    }
    assert WellFormed(v) && !Strict(v) by {
      assert WellFormedMember(true, v.members[0]) && WellFormedMember(true, v.members[1]);
      assert KeyOf(v.members[0].name) == KeyOf(v.members[1].name);
    }
    ScanPrinted(n);
    PrintedTextParses(v);
    SameJsonMeans(n.members[0].value, Print(v));
    IndexOfAt(n.members, "a", 0);
    EditReplaces(n, "a", Print(v));
    assert LastLine("") == None;
    assert !Nested("a");
    BlockScannable(Print(n), b);
  }
}
