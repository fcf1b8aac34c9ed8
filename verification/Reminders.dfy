/**
 One run of the reminder job: pages of candidates by due date and identifier, while the
 table changes between one page and the next.
 */
module Reminders {
  import opened Basics
  import opened ReminderClock

  const PAGE := 500

  /** Identifiers are 128-bit numbers. */
  const IDS: nat := 0x1_0000_0000_0000_0000_0000_0000_0000_0000

  datatype Candidate = Candidate(id: nat, due: int, assignee: string, timezone: Option<string>)

  /** The open, unreminded activities at the time of a query. */
  type Table = map<nat, Candidate>

  predicate TableOk(t: Table) { forall id | id in t :: id < IDS && t[id].id == id }

  predicate Before(a: Candidate, b: Candidate) { a.due < b.due || (a.due == b.due && a.id < b.id) }

  predicate Past(cursor: Option<Candidate>, c: Candidate) { cursor.None? || Before(cursor.value, c) }

  predicate Eligible(t: Table, dueBy: int, cursor: Option<Candidate>, c: Candidate) {
    c.id in t && t[c.id] == c && c.due <= dueBy && Past(cursor, c)
  }

  predicate Increasing(cs: seq<Candidate>) {
    forall i, j | 0 <= i < j < |cs| :: Before(cs[i], cs[j])
  }

  /** The first candidates after the cursor, in order. */
  ghost predicate IsPage(t: Table, dueBy: int, cursor: Option<Candidate>, limit: nat, page: seq<Candidate>) {
    && |page| <= limit && Increasing(page)
    && (forall i | 0 <= i < |page| :: Eligible(t, dueBy, cursor, page[i]))
    && forall c | Eligible(t, dueBy, cursor, c) :: c in page || (0 < |page| == limit && Before(page[limit - 1], c))
  }

  // ---------------------------------------------------------------- a page

  method Least(t: Table, ids: set<nat>) returns (least: nat)
    requires TableOk(t) && ids != {} && ids <= t.Keys
    ensures least in ids && forall id | id in ids && id != least :: Before(t[least], t[id])
  {
    least :| least in ids;
    var left := ids - {least};
    while left != {}
      invariant left <= ids && least in ids && least !in left
      invariant forall id | id in ids && id !in left && id != least :: Before(t[least], t[id])
      decreases left
    {
      var id :| id in left;
      left := left - {id};
      if Before(t[id], t[least]) {
        least := id;
      }
    }
  }

  method ListReminderCandidates(t: Table, dueBy: int, cursor: Option<Candidate>, limit: nat) returns (page: seq<Candidate>)
    requires TableOk(t) && limit > 0
    ensures IsPage(t, dueBy, cursor, limit, page)
  {
    page := [];
    var left := set id | id in t && Eligible(t, dueBy, cursor, t[id]);
    while |page| < limit && left != {}
      invariant |page| <= limit && Increasing(page) && left <= t.Keys
      invariant forall i | 0 <= i < |page| :: Eligible(t, dueBy, cursor, page[i]) && page[i].id !in left
      invariant forall i, id | 0 <= i < |page| && id in left :: Before(page[i], t[id])
      invariant forall id | id in left :: Eligible(t, dueBy, cursor, t[id])
      invariant forall c | Eligible(t, dueBy, cursor, c) :: c in page || c.id in left
      decreases left
    {
      ghost var before := page;
      var least := Least(t, left);
      page := page + [t[least]];
      left := left - {least};
      forall c | Eligible(t, dueBy, cursor, c) ensures c in page || c.id in left {
        if c in before {
          var i :| 0 <= i < |before| && before[i] == c;
          assert page[i] == c;
        } else if c.id == least {
          assert page[|before|] == c;
        }
      }
    }
  }

  // ---------------------------------------------------------------- the run

  function ZoneOf(zones: map<string, Zone>, tenantZone: Zone, c: Candidate): Zone {
    if c.timezone.Some? then LoadZone(zones, c.timezone.value, tenantZone) else tenantZone
  }

  predicate DueNow(zones: map<string, Zone>, tenantZone: Zone, now: int, c: Candidate) {
    ReminderDue(Some(c.due), now, ZoneOf(zones, tenantZone, c))
  }

  /** The candidates a reminder is attempted for. */
  function Due(zones: map<string, Zone>, tenantZone: Zone, now: int, cs: seq<Candidate>): seq<Candidate> {
    if cs == [] then []
    else Due(zones, tenantZone, now, cs[..|cs| - 1]) + (if DueNow(zones, tenantZone, now, cs[|cs| - 1]) then [cs[|cs| - 1]] else [])
  }

  /** `c` is in the table, as it is, at each of the queries, each after 500 more visits, until the run has come to it. */
  ghost predicate Lasts(world: nat -> Option<Table>, visited: seq<Candidate>, pages: nat, c: Candidate)
    requires PAGE * (pages - 1) <= |visited|
  {
    forall p: nat | p < pages :: c in visited[..PAGE * p] || Holds(world(p), c)
  }

  predicate Holds(t: Option<Table>, c: Candidate) { t.Some? && c.id in t.value && t.value[c.id] == c }

  ghost predicate Reached(world: nat -> Option<Table>, dueBy: int, cursor: Option<Candidate>, visited: seq<Candidate>, pages: nat)
    requires PAGE * (pages - 1) <= |visited|
  {
    forall c: Candidate | c.due <= dueBy && Lasts(world, visited, pages, c) :: c in visited || Past(cursor, c)
  }

  /** What a run has visited when it ends without a failed query. */
  ghost predicate Complete(world: nat -> Option<Table>, dueBy: int, visited: seq<Candidate>, pages: nat)
    requires PAGE * (pages - 1) <= |visited|
  {
    forall c: Candidate | c.due <= dueBy && Lasts(world, visited, pages, c) :: c in visited
  }

  lemma NoneDue(zones: map<string, Zone>, tenantZone: Zone, now: int)
    ensures Due(zones, tenantZone, now, []) == []
  {
  }

  lemma DueNext(zones: map<string, Zone>, tenantZone: Zone, now: int, cs: seq<Candidate>, c: Candidate)
    ensures Due(zones, tenantZone, now, cs + [c])
            == Due(zones, tenantZone, now, cs) + (if DueNow(zones, tenantZone, now, c) then [c] else [])
  {
    hide DueNow;
    assert (cs + [c])[..|cs|] == cs;
  }

  /** How many keys there can be behind a cursor. */
  function Ahead(dueBy: int, c: Candidate): nat
    requires c.due <= dueBy && c.id < IDS
  {
    (dueBy - c.due) * IDS + (IDS - 1 - c.id)
  }

  lemma LastAhead(dueBy: int, cursor: Candidate, last: Candidate)
    requires cursor.due <= dueBy && cursor.id < IDS && last.due <= dueBy && last.id < IDS && Before(cursor, last)
    ensures Ahead(dueBy, last) < Ahead(dueBy, cursor)
  {
  }

  lemma PageExtends(t: Table, dueBy: int, cursor: Option<Candidate>, page: seq<Candidate>, before: seq<Candidate>)
    requires TableOk(t) && IsPage(t, dueBy, cursor, PAGE, page) && Increasing(before)
    requires cursor == if before == [] then None else Some(before[|before| - 1])
    ensures Increasing(before + page)
    ensures forall i | 0 <= i < |page| :: page[i].due <= dueBy && page[i].id < IDS && Past(cursor, page[i])
  {
    forall i, j | 0 <= i < |before| && 0 <= j < |page| ensures Before(before[i], page[j]) {
      assert Eligible(t, dueBy, cursor, page[j]);
      assert i < |before| - 1 ==> Before(before[i], before[|before| - 1]);
    }
  }

  lemma PageReaches(world: nat -> Option<Table>, dueBy: int, cursor: Option<Candidate>, before: seq<Candidate>, pages: nat,
                    page: seq<Candidate>)
    requires PAGE * pages == |before| && Reached(world, dueBy, cursor, before, pages)
    requires world(pages).Some? && IsPage(world(pages).value, dueBy, cursor, PAGE, page)
    ensures |page| < PAGE ==> Complete(world, dueBy, before + page, pages + 1)
    ensures |page| == PAGE ==> Reached(world, dueBy, Some(page[PAGE - 1]), before + page, pages + 1)
  {
    var visited := before + page;
    forall c: Candidate | c.due <= dueBy && Lasts(world, visited, pages + 1, c)
      ensures c in visited || (|page| == PAGE && Before(page[PAGE - 1], c))
    {
      LastsSooner(world, before, pages, page, c);
      hide Lasts;
      if c !in before {
        assert Eligible(world(pages).value, dueBy, cursor, c);
      }
    }
  }

  lemma LastsSooner(world: nat -> Option<Table>, before: seq<Candidate>, pages: nat, page: seq<Candidate>, c: Candidate)
    requires PAGE * pages == |before| && Lasts(world, before + page, pages + 1, c)
    ensures Lasts(world, before, pages, c) && (c in before || Holds(world(pages), c))
  {
    var visited := before + page;
    forall p: nat | p < pages ensures c in before[..PAGE * p] || Holds(world(p), c) {
      assert visited[..PAGE * p] == before[..PAGE * p];
    }
    assert visited[..PAGE * pages] == before;
  }

  lemma NothingYet(world: nat -> Option<Table>, dueBy: int)
    ensures Reached(world, dueBy, None, [], 0)
  {
  }

  /** The candidates of a page that are due their reminder, in order. */
  method VisitPage(page: seq<Candidate>, now: int, zones: map<string, Zone>, tenantZone: Zone, ghost before: seq<Candidate>)
    returns (due: seq<Candidate>)
    ensures Due(zones, tenantZone, now, before + page) == Due(zones, tenantZone, now, before) + due
  {
    hide Due, DueNow;
    due := [];
    assert before + page[..0] == before;
    for i := 0 to |page|
      invariant Due(zones, tenantZone, now, before + page[..i]) == Due(zones, tenantZone, now, before) + due
    {
      DueNext(zones, tenantZone, now, before + page[..i], page[i]);
      assert before + page[..i + 1] == (before + page[..i]) + [page[i]];
      if DueNow(zones, tenantZone, now, page[i]) {
        due := due + [page[i]];
      }
    }
    assert page[..|page|] == page;
  }

  /** The number of queries of a run: one for each full page, and a last one. */
  function Queries(visited: seq<Candidate>): nat { |visited| / PAGE + 1 }

  /** `world(p)` is the table the run's query for page p sees, or none when that query fails. */
  method RemindDueActivities(world: nat -> Option<Table>, now: int, zones: map<string, Zone>, tenantZone: Zone)
    returns (ok: bool, visited: seq<Candidate>, attempts: seq<Candidate>)
    requires forall p: nat :: world(p).Some? ==> TableOk(world(p).value)
    ensures Increasing(visited) && forall i | 0 <= i < |visited| :: visited[i].due <= DueBy(now)
    ensures attempts == Due(zones, tenantZone, now, visited)
    ensures ok <==> forall p: nat | p < Queries(visited) :: world(p).Some?
    ensures ok ==> Complete(world, DueBy(now), visited, Queries(visited))
  {
    hide Due, DueNow, Lasts, IsPage, TableOk, Reached, Complete;
    var dueBy, page := DueBy(now), 0;
    var cursor: Option<Candidate> := None;
    visited, attempts := [], [];
    NoneDue(zones, tenantZone, now);
    NothingYet(world, dueBy);
    while true
      invariant |visited| == PAGE * page && forall p: nat | p < page :: world(p).Some?
      invariant Increasing(visited) && forall i | 0 <= i < |visited| :: visited[i].due <= dueBy && visited[i].id < IDS
      invariant cursor == if visited == [] then None else Some(visited[|visited| - 1])
      invariant attempts == Due(zones, tenantZone, now, visited)
      invariant Reached(world, dueBy, cursor, visited, page)
      decreases if cursor.None? then 1 else 0, if cursor.None? then 0 else Ahead(dueBy, cursor.value)
    {
      if world(page).None? {
        assert page < Queries(visited);
        return false, visited, attempts;
      }
      var candidates := ListReminderCandidates(world(page).value, dueBy, cursor, PAGE);
      IsPageShort(world(page).value, dueBy, cursor, candidates);
      PageExtends(world(page).value, dueBy, cursor, candidates, visited);
      PageReaches(world, dueBy, cursor, visited, page, candidates);
      var due := VisitPage(candidates, now, zones, tenantZone, visited);
      visited, attempts := visited + candidates, attempts + due;
      if |candidates| < PAGE {
        assert Queries(visited) == page + 1;
        return true, visited, attempts;
      }
      var last := candidates[|candidates| - 1];
      if cursor.Some? { LastAhead(dueBy, cursor.value, last); }
      cursor, page := Some(last), page + 1;
    }
  }

  lemma IsPageShort(t: Table, dueBy: int, cursor: Option<Candidate>, page: seq<Candidate>)
    requires IsPage(t, dueBy, cursor, PAGE, page)
    ensures |page| <= PAGE
  {
  }

  // ---------------------------------------------------------------- no reminder missed, none twice

  lemma {:induction false} DueAt(zones: map<string, Zone>, tenantZone: Zone, now: int, cs: seq<Candidate>)
    ensures forall c :: c in Due(zones, tenantZone, now, cs) <==> c in cs && DueNow(zones, tenantZone, now, c)
    decreases |cs|
  {
    hide DueNow, Due;
    if cs == [] {
      NoneDue(zones, tenantZone, now);
    } else {
      var k := |cs| - 1;
      assert cs == cs[..k] + [cs[k]];
      DueAt(zones, tenantZone, now, cs[..k]);
      DueNext(zones, tenantZone, now, cs[..k], cs[k]);
    }
  }

  lemma {:induction false} DueIncreasing(zones: map<string, Zone>, tenantZone: Zone, now: int, cs: seq<Candidate>)
    requires Increasing(cs)
    ensures Increasing(Due(zones, tenantZone, now, cs))
    decreases |cs|
  {
    hide DueNow, Due;
    if cs == [] {
      NoneDue(zones, tenantZone, now);
    } else {
      var k := |cs| - 1;
      var init := Due(zones, tenantZone, now, cs[..k]);
      assert cs == cs[..k] + [cs[k]];
      DueIncreasing(zones, tenantZone, now, cs[..k]);
      DueNext(zones, tenantZone, now, cs[..k], cs[k]);
      DueAt(zones, tenantZone, now, cs[..k]);
      forall i | 0 <= i < |init| ensures Before(init[i], cs[k]) {
        assert init[i] in cs[..k];
        var j :| 0 <= j < k && cs[j] == init[i];
        assert Before(cs[j], cs[k]);
      }
    }
  }

  /**
   An activity that is due its reminder and stays as it is until the run comes to it is
   attempted exactly once, wherever its assignee lives.
   */
  lemma DueAttemptedOnce(world: nat -> Option<Table>, now: int, zones: map<string, Zone>, tenantZone: Zone,
                         visited: seq<Candidate>, c: Candidate)
    requires Increasing(visited) && Complete(world, DueBy(now), visited, Queries(visited))
    requires Lasts(world, visited, Queries(visited), c)
    requires DueNow(zones, tenantZone, now, c) && ZoneOf(zones, tenantZone, c)(c.due) < DAY
    ensures var attempts := Due(zones, tenantZone, now, visited);
            exists i :: 0 <= i < |attempts| && attempts[i] == c && forall j | 0 <= j < |attempts| && j != i :: attempts[j].id != c.id || attempts[j].due != c.due
  {
    hide Lasts, Due;
    CutoffSafe(c.due, now, ZoneOf(zones, tenantZone, c));
    DueAt(zones, tenantZone, now, visited);
    DueIncreasing(zones, tenantZone, now, visited);
    hide DueNow, Complete;
    var attempts := Due(zones, tenantZone, now, visited);
    assert c in attempts;
    var i :| 0 <= i < |attempts| && attempts[i] == c;
    forall j | 0 <= j < |attempts| && j != i ensures attempts[j].id != c.id || attempts[j].due != c.due {
      if j < i { assert Before(attempts[j], attempts[i]); } else { assert Before(attempts[i], attempts[j]); }
    }
  }
}
