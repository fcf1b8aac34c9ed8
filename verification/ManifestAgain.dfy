/** Rewriting a manifest again with the same blocks: exactly when that is a no-op. */
module ManifestAgain {
  import opened Basics
  import opened JsonLex
  import opened JsonTree
  import opened JsonFormat
  import opened ManifestTree
  import opened ManifestRewrite
  import opened Manifest
  import opened ManifestDotted
  import opened ManifestLaws

  /** Blocks change nothing and report nothing exactly where each already has its value. */
  lemma SettledExactly(text: string, blocks: seq<Block>)
    requires Scan(text).Some? && StrictValues(blocks)
    ensures BlocksText(text, blocks) == Ok((text, []))
            <==> forall i | 0 <= i < |blocks| :: Find(Scan(text).value.node, blocks[i].key) == Wanted(blocks[i].value)
  {
    hide BlocksText, Scan, StrictValue, Find, Wanted;
    if forall i | 0 <= i < |blocks| :: Find(Scan(text).value.node, blocks[i].key) == Wanted(blocks[i].value) {
      StableBlocks(text, blocks, |blocks|);
      assert blocks[..|blocks|] == blocks;
    }
    if BlocksText(text, blocks) == Ok((text, [])) { UnchangedBlocks(text, blocks); }
  }

  lemma {:induction false} UnchangedBlocks(text: string, blocks: seq<Block>)
    requires Scan(text).Some? && BlocksText(text, blocks).Ok? && BlocksText(text, blocks).value.1 == []
    ensures BlocksText(text, blocks).value.0 == text
    ensures forall i | 0 <= i < |blocks| :: Find(Scan(text).value.node, blocks[i].key) == Wanted(blocks[i].value)
    decreases |blocks|
  {
    hide Scan, BlockText, Find, Wanted, BlocksText;
    if blocks == [] {
      NoBlocks(text);
    } else {
      var k := |blocks| - 1;
      var init, b := blocks[..k], blocks[k];
      BlocksLast(text, blocks);
      UnchangedBlocks(text, init);
      BlockChanged(text, b);
      ScanReadable(text);
      RewriteKeyMeans(Scan(text).value.node, b.key, b.value);
      assert forall i | 0 <= i < k :: init[i] == blocks[i];
    }
  }

  lemma {:induction false} StableBlocks(text: string, blocks: seq<Block>, k: nat)
    requires Scan(text).Some? && k <= |blocks| && StrictValues(blocks)
    requires forall i | 0 <= i < |blocks| :: Find(Scan(text).value.node, blocks[i].key) == Wanted(blocks[i].value)
    ensures BlocksText(text, blocks[..k]) == Ok((text, []))
  {
    hide Scan, Find, Wanted;
    if k > 0 {
      StableBlocks(text, blocks, k - 1);
      var b := blocks[k - 1];
      assert blocks[..k][..k - 1] == blocks[..k - 1] && StrictValue(b.value);
      ScanReadable(text);
      RewriteKeyStable(Scan(text).value.node, b.key, b.value);
    }
  }

  // ---------------------------------------------------------------- blocks that agree

  /** What the rest of a key names inside what its first part names. */
  function Below(upper: Lookup, rest: string): Lookup {
    match upper
    case Missing => Missing
    case Blocked => Blocked
    case Holds(v) => if IsObject(v) then Find(v, rest) else Blocked
  }

  function Rest(upper: string, lower: string): string
    requires DottedPrefix(upper, lower)
  {
    lower[|upper| + 1..]
  }

  /** A key names what the rest of it names inside what a key above it names. */
  lemma {:induction false} FindBelow(n: Node, upper: string, lower: string)
    requires IsObject(n) && DottedPrefix(upper, lower)
    ensures Find(n, lower) == Below(Find(n, upper), Rest(upper, lower))
    decreases |upper|
  {
    hide KeyOf, Strip;
    DotOfPrefix(upper, lower);
    var i := IndexOf(n.members, Parent(upper));
    LowerNested(upper, lower);
    if i < |n.members| {
      var w := n.members[i].value;
      if Nested(upper) {
        if IsObject(w) { FindBelow(w, Child(upper), Child(lower)); }
      } else if IsObject(w) {
        StripFixes(w);
        FindStrip(w, Strip(w), Child(lower));
      }
    }
  }

  lemma LowerNested(upper: string, lower: string)
    requires DottedPrefix(upper, lower) && Parent(upper) == Parent(lower)
    ensures Nested(lower)
    ensures !Nested(upper) ==> Rest(upper, lower) == Child(lower)
    ensures Nested(upper) ==> DottedPrefix(Child(upper), Child(lower)) && Rest(Child(upper), Child(lower)) == Rest(upper, lower)
  {
    var i := DotIndex(upper);
    assert |Parent(upper)| == i && |Parent(lower)| == DotIndex(lower);
    if Nested(upper) { PrefixOfChildren(upper, lower); }
  }

  /** Two blocks want no two different things of any key. */
  predicate Agree(a: Block, b: Block) {
    && (a.key == b.key ==> Wanted(a.value) == Wanted(b.value))
    && (DottedPrefix(a.key, b.key) ==> Below(Wanted(a.value), Rest(a.key, b.key)) == Wanted(b.value))
    && (DottedPrefix(b.key, a.key) ==> Below(Wanted(b.value), Rest(b.key, a.key)) == Wanted(a.value))
  }

  predicate AllAgree(blocks: seq<Block>) {
    forall i, j | 0 <= i < j < |blocks| :: Agree(blocks[i], blocks[j])
  }

  /** A block that agrees with one already settled leaves it settled. */
  lemma AgreeKeeps(raw: string, a: Block, b: Block)
    requires Scan(raw).Some? && BlockText(raw, b).Ok? && StrictValue(b.value) && Agree(a, b)
    requires Find(Scan(raw).value.node, a.key) == Wanted(a.value)
    ensures Scan(BlockText(raw, b).value.0).Some? && Find(Scan(BlockText(raw, b).value.0).value.node, a.key) == Wanted(a.value)
  {
    hide Scan, BlockText, StrictValue, Find, Wanted, Below, Rest, Independent, DottedPrefix;
    BlockMeans(raw, b);
    IndependentMeans(b.key, a.key);
    if DottedPrefix(a.key, b.key) {
      FindBelow(Scan(raw).value.node, a.key, b.key);
    } else if DottedPrefix(b.key, a.key) {
      FindBelow(Scan(BlockText(raw, b).value.0).value.node, b.key, a.key);
    }
  }

  lemma {:induction false} AgreeSettles(raw: string, blocks: seq<Block>)
    requires BlocksText(raw, blocks).Ok? && Scan(raw).Some? && StrictValues(blocks) && AllAgree(blocks)
    ensures Scan(BlocksText(raw, blocks).value.0).Some?
    ensures forall i | 0 <= i < |blocks| :: Find(Scan(BlocksText(raw, blocks).value.0).value.node, blocks[i].key) == Wanted(blocks[i].value)
    decreases |blocks|
  {
    hide Scan, BlockText, BlocksText, StrictValue, Find, Wanted, Agree;
    if blocks == [] {
      NoBlocks(raw);
    } else {
      var k := |blocks| - 1;
      var init, b := blocks[..k], blocks[k];
      BlocksLast(raw, blocks);
      AgreeSettles(raw, init);
      var mid := BlocksText(raw, init).value.0;
      BlockMeans(mid, b);
      forall i | 0 <= i < k
        ensures Find(Scan(BlocksText(raw, blocks).value.0).value.node, blocks[i].key) == Wanted(blocks[i].value)
      {
        assert init[i] == blocks[i];
        AgreeKeeps(mid, blocks[i], b);
      }
    }
  }

  lemma SettledAgree(n: Node, a: Block, b: Block)
    requires IsObject(n) && Find(n, a.key) == Wanted(a.value) && Find(n, b.key) == Wanted(b.value)
    ensures Agree(a, b)
  {
    hide Find, Wanted, Below, Rest, DottedPrefix;
    if DottedPrefix(a.key, b.key) { FindBelow(n, a.key, b.key); }
    if DottedPrefix(b.key, a.key) { FindBelow(n, b.key, a.key); }
  }

  lemma {:induction false} BlocksScan(text: string, blocks: seq<Block>)
    requires blocks != [] && BlocksText(text, blocks).Ok?
    ensures Scan(text).Some?
    decreases |blocks|
  {
    hide Scan, BlockText, BlocksText;
    BlocksLast(text, blocks);
    var k := |blocks| - 1;
    if k == 0 {
      assert blocks[..k] == [];
      NoBlocks(text);
      BlockChanged(text, blocks[k]);
    } else {
      BlocksScan(text, blocks[..k]);
    }
  }

  /**
   A rewrite that succeeded is a no-op the second time, with nothing to report, exactly
   when no block's value repeats a name and the blocks agree with each other.
   */
  lemma IdempotentExactly(raw: string, blocks: seq<Block>)
    requires BlocksText(raw, blocks).Ok? && Scan(raw).Some?
    ensures var out := BlocksText(raw, blocks).value.0;
            BlocksText(out, blocks) == Ok((out, [])) <==> StrictValues(blocks) && AllAgree(blocks)
  {
    hide Scan, BlocksText, StrictValue, Find, Wanted, Agree;
    var out := BlocksText(raw, blocks).value.0;
    ScannableExactly(raw, blocks);
    if BlocksText(out, blocks) == Ok((out, [])) {
      if blocks != [] { BlocksScan(out, blocks); }
      SettledExactly(out, blocks);
      forall i, j | 0 <= i < j < |blocks| ensures Agree(blocks[i], blocks[j]) {
        SettledAgree(Scan(out).value.node, blocks[i], blocks[j]);
      }
    }
    if StrictValues(blocks) && AllAgree(blocks) {
      AgreeSettles(raw, blocks);
      SettledExactly(out, blocks);
    }
  }

  /** In particular for blocks that are apart: rewriting the result changes nothing and reports nothing. */
  lemma RewriteManifestIdempotent(raw: string, blocks: seq<Block>)
    requires BlocksText(raw, blocks).Ok? && Scan(raw).Some? && Apart(blocks) && StrictValues(blocks)
    ensures var out := BlocksText(raw, blocks).value.0; BlocksText(out, blocks) == Ok((out, []))
  {
    hide BlocksText, Scan, StrictValue, Independent, Wanted, Below, Rest, DottedPrefix;
    IdempotentExactly(raw, blocks);
    forall i, j | 0 <= i < j < |blocks| ensures Agree(blocks[i], blocks[j]) {
      assert Independent(blocks[j].key, blocks[i].key);
      IndependentMeans(blocks[j].key, blocks[i].key);
    }
  }

  // ---------------------------------------------------------------- blocks that do not

  const ONE: Node := Group(true, "", [Member("", "\"a\"", "", "", Scalar("1"), "")])
  const TWICE := [Block("a", Some("1")), Block("a", Some("2"))]

  lemma OneReadable()
    ensures Readable(ONE) && Scan(Print(ONE)) == Some(Scanned(0, ONE, |Print(ONE)|))
    ensures Find(ONE, "a") == Wanted(Some("1")) && Wanted(Some("1")) == Holds(Scalar("1")) && Wanted(Some("2")) == Holds(Scalar("2"))
    ensures ParseText("1").Some? && ParseText("2").Some? && !Unformattable(ONE, "a")
  {
    SmallTokens();
    hide IsScalarToken, IsStringToken, KeyOf, Scan;
    assert Readable(ONE) by {
      assert WellFormedMember(true, ONE.members[0]);
      assert StrictMember(true, ONE.members[0]);
    }
    ScanPrinted(ONE);
    PrintedTextParses(Scalar("1"));
    PrintedTextParses(Scalar("2"));
    OneFinds();
  }

  lemma OneFinds()
    ensures Find(ONE, "a") == Holds(Scalar("1")) && !Unformattable(ONE, "a")
  {
    SmallTokens();
    hide KeyOf;
    assert "a"[1..] == "" && DotIndex("a") == 1 + DotIndex("");
    assert Parent("a") == "a" && !Nested("a");
    IndexOfAt(ONE.members, "a", 0);
    assert LastLine("") == None;
  }

  lemma OneWrites()
    ensures BlocksText(Print(ONE), TWICE).Ok? && StrictValues(TWICE) && Scan(Print(ONE)).Some?
  {
    OneReadable();
    hide Find, Wanted, ParseText, Unformattable, Print, Scan, RewriteKey;
    OneStrict();
    RewriteKeyStable(ONE, "a", Some("1"));
    RewriteKeyFails(ONE, "a", Some("2"));
    var r := RewriteKey(ONE, "a", Some("2"));
    Outcomes(r);
    var one := TWICE[..1];
    assert one == [Block("a", Some("1"))] && one[..0] == [];
    assert BlockText(Print(ONE), one[0]) == Ok((Print(ONE), false));
    assert BlocksText(Print(ONE), one) == Ok((Print(ONE), []));
    assert BlockText(Print(ONE), TWICE[1]).Ok?;
  }

  lemma Outcomes(r: Result<(Node, bool), Problem>)
    ensures r.Ok? || r == Err(Unreadable) || r == Err(NoOtherKeys) || r == Err(BadValue)
  {
    match r
    case Ok(_) =>
    case Err(Unreadable) =>
    case Err(BadValue) =>
    case Err(NoOtherKeys) =>
  }

  lemma OneStrict()
    ensures StrictValues(TWICE)
  {
    SmallTokens();
    PrintedTextParses(Scalar("1"));
    PrintedTextParses(Scalar("2"));
  }

  /** A rewrite of `{"a":1}` that succeeds, and whose result the same blocks write to again. */
  lemma WrittenTwice()
    ensures BlocksText(Print(ONE), TWICE).Ok?
    ensures var out := BlocksText(Print(ONE), TWICE).value.0; BlocksText(out, TWICE) != Ok((out, []))
  {
    OneWrites();
    OneReadable();
    hide BlocksText, Scan, Find, Wanted, Print;
    IdempotentExactly(Print(ONE), TWICE);
    assert !Agree(TWICE[0], TWICE[1]);
  }
}
