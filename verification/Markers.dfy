/** Marker types for references to other modules' models: sorted, then deduplicated in place. */
module Markers {
  import opened Basics
  import opened Ordering

  datatype Marker = Marker(goName: string, resourceName: string)

  predicate ByName(a: Marker, b: Marker) { Leq(a.goName, b.goName) }

  /** Two different resources would get the same Go type name. */
  predicate Collide(a: Marker, b: Marker) {
    a.goName == b.goName && a.resourceName != b.resourceName
  }

  lemma ByNameTotal()
    ensures Total(ByName)
  {
    StringsOrdered();
    forall x: Marker, y: Marker ensures ByName(x, y) || ByName(y, x) {}
    forall x: Marker, y: Marker, z: Marker | ByName(x, y) && ByName(y, z) ensures ByName(x, z) {}
  }

  /** Some order by name; markers with one name come in any order. */
  method SortMarkers(markers: seq<Marker>) returns (sorted: array<Marker>)
    ensures fresh(sorted) && multiset(sorted[..]) == multiset(markers) && Sorted(sorted[..], ByName)
  {
    var s := Sort(markers, ByName);
    ByNameTotal();
    SortSorts(markers, ByName);
    sorted := new Marker[|s|](i requires 0 <= i < |s| => s[i]);
    assert sorted[..] == s;
  }

  /** The markers that do not repeat their predecessor's name. */
  function Firsts(s: seq<Marker>): seq<Marker> {
    if s == [] then []
    else
      var k := |s| - 1;
      Firsts(s[..k]) + (if k > 0 && s[k].goName == s[k - 1].goName then [] else [s[k]])
  }

  ghost predicate NoCollision(s: seq<Marker>) {
    forall a, b | a in s && b in s :: !Collide(a, b)
  }

  predicate AgreesWithLast(s: seq<Marker>, k: nat) {
    0 < k < |s| ==> !Collide(s[k - 1], s[k])
  }

  /** No neighbours collide among the first `i`. */
  predicate NeighboursAgree(s: seq<Marker>, i: nat) {
    forall k | 1 <= k < i :: AgreesWithLast(s, k)
  }

  /** In a sorted list, comparing neighbours finds any collision. */
  lemma {:induction false} NeighboursSuffice(s: seq<Marker>, i: nat, j: nat)
    requires Sorted(s, ByName) && NeighboursAgree(s, |s|) && i <= j < |s| && s[i].goName == s[j].goName
    ensures s[i] == s[j]
    decreases j - i
  {
    if i < j {
      NameBetween(s, i, j);
      assert AgreesWithLast(s, j);
      NeighboursSuffice(s, i, j - 1);
    }
  }

  lemma NameBetween(s: seq<Marker>, i: nat, j: nat)
    requires Sorted(s, ByName) && i < j < |s| && s[i].goName == s[j].goName
    ensures s[j - 1].goName == s[j].goName
  {
    if i < j - 1 {
      assert ByName(s[i], s[j - 1]) && ByName(s[j - 1], s[j]);
      LeqTotal(s[j - 1].goName, s[j].goName);
    }
  }

  lemma AgreeMeansNone(s: seq<Marker>)
    requires Sorted(s, ByName) && NeighboursAgree(s, |s|)
    ensures NoCollision(s)
  {
    forall a, b | a in s && b in s ensures !Collide(a, b) {
      var i :| 0 <= i < |s| && s[i] == a;
      var j :| 0 <= j < |s| && s[j] == b;
      if a.goName == b.goName {
        if i <= j { NeighboursSuffice(s, i, j); } else { NeighboursSuffice(s, j, i); }
      }
    }
  }

  /** Strictly ascending names. */
  predicate Ascending(s: seq<Marker>) {
    Sorted(s, ByName) && forall i, j | 0 <= i < j < |s| :: s[i].goName != s[j].goName
  }

  lemma {:induction false} FirstsSame(s: seq<Marker>, i: nat)
    requires i <= |s| && Sorted(s, ByName) && NeighboursAgree(s, i)
    ensures Ascending(Firsts(s[..i])) && (forall m :: m in Firsts(s[..i]) <==> m in s[..i])
    ensures i > 0 ==> Firsts(s[..i]) != [] && Firsts(s[..i])[|Firsts(s[..i])| - 1] == s[i - 1]
    decreases i
  {
    hide Ascending, Sorted, ByName, Firsts;
    FirstsStart(s);
    if i > 0 {
      FirstsSame(s, i - 1);
      FirstsStep(s, i - 1);
      var r, x := Firsts(s[..i - 1]), s[i - 1];
      assert s[..i] == s[..i - 1] + [x];
      if i > 1 && x.goName == s[i - 2].goName {
        assert AgreesWithLast(s, i - 1);
        assert x == s[i - 2] && s[..i - 1][i - 2] == x;
        assert r + [] == r;
      } else {
        FirstsAscend(s, i, r);
      }
    }
  }

  lemma FirstsAscend(s: seq<Marker>, i: nat, r: seq<Marker>)
    requires 0 < i <= |s| && Sorted(s, ByName) && Ascending(r) && (forall m :: m in r <==> m in s[..i - 1])
    requires i > 1 ==> r != [] && r[|r| - 1] == s[i - 2] && s[i - 1].goName != s[i - 2].goName
    ensures Ascending(r + [s[i - 1]])
  {
    var x := s[i - 1];
    forall k | 0 <= k < |r| ensures ByName(r[k], x) && r[k].goName != x.goName {
      assert r[k] in r && r[k] in s[..i - 1];
      var j :| 0 <= j < i - 1 && s[..i - 1][j] == r[k];
      assert ByName(s[j], x) && ByName(s[i - 2], x);
      if j < i - 2 { assert ByName(s[j], s[i - 2]); }
      LeqTotal(s[j].goName, s[i - 2].goName);
      LeqTotal(s[i - 2].goName, x.goName);
      LeqTotal(s[j].goName, x.goName);
    }
  }

  /**
   Deduplication writes into the prefix of the list it reads. It fails exactly when two
   markers share a Go name but not a resource, and names such a pair; otherwise it
   returns the same markers, each name once, in ascending order.
   */
  method DedupeCrossModuleMarkers(markers: seq<Marker>) returns (r: Result<seq<Marker>, (Marker, Marker)>)
    ensures r.Ok? <==> NoCollision(markers)
    ensures r.Ok? ==> Ascending(r.value) && forall m :: m in r.value <==> m in markers
    ensures r.Err? ==> r.error.0 in markers && r.error.1 in markers && Collide(r.error.0, r.error.1)
  {
    hide Ascending, ByName, Sorted, NoCollision, NeighboursAgree, AgreesWithLast, Firsts;
    var sorted := SortMarkers(markers);
    ghost var s := sorted[..];
    SameMembers(s, markers);
    FirstsStart(s);
    var kept := 0;
    for i := 0 to sorted.Length
      invariant kept <= i && NeighboursAgree(s, i)
      invariant sorted[..kept] == Firsts(s[..i])
      invariant sorted[i..] == s[i..] && (i > 0 ==> sorted[i - 1] == s[i - 1])
    {
      var mk := sorted[i];
      assert mk == sorted[i..][0] == s[i];
      FirstsStep(s, i);
      if i > 0 && mk.goName == sorted[i - 1].goName {
        if mk.resourceName != sorted[i - 1].resourceName {
          CollisionFound(s, i);
          return Err((sorted[i - 1], mk));
        }
      } else {
        sorted[kept] := mk;
        kept := kept + 1;
      }
    }
    assert s[..|s|] == s;
    AgreeMeansNone(s);
    FirstsSame(s, |s|);
    return Ok(sorted[..kept]);
  }

  lemma FirstsStart(s: seq<Marker>)
    ensures Firsts(s[..0]) == [] && NeighboursAgree(s, 0) && Ascending([])
  {
  }

  lemma FirstsStep(s: seq<Marker>, i: nat)
    requires i < |s|
    ensures Firsts(s[..i + 1]) == Firsts(s[..i]) + (if i > 0 && s[i].goName == s[i - 1].goName then [] else [s[i]])
    ensures NeighboursAgree(s, i) && !(i > 0 && Collide(s[i - 1], s[i])) ==> NeighboursAgree(s, i + 1)
  {
    assert s[..i + 1][..i] == s[..i];
  }

  lemma CollisionFound(s: seq<Marker>, i: nat)
    requires 0 < i < |s| && Collide(s[i - 1], s[i])
    ensures s[i - 1] in s && s[i] in s && !NoCollision(s)
  {
    assert s[i - 1] in s && s[i] in s;
  }

  lemma SameMembers(a: seq<Marker>, b: seq<Marker>)
    requires multiset(a) == multiset(b)
    ensures forall m :: m in a <==> m in b
    ensures NoCollision(a) <==> NoCollision(b)
  {
    forall m ensures m in a <==> m in b { assert m in multiset(a) <==> m in multiset(b); }
  }
}
