/**
 Due reminders sent by overlapping runs while activities are created, changed, completed
 and cancelled: every interleaving of the committed steps.
 */
module ReminderProtocol {
  import opened Basics
  import opened ReminderClock

  /** `period` counts how often a sent or skipped reminder was taken back by a reassignment. */
  datatype Activity = Activity(assignee: string, due: Option<int>, open: bool, reminded: bool, period: nat)

  /** A reminding transaction: the candidate as it was listed, holding the activity's row. */
  datatype Attempt = Attempt(assignee: string, now: int, zone: Zone)

  datatype Notice = Notice(id: string, period: nat, to: string)

  /** What the callback finds out about the assignee and the record. */
  datatype Finding = Readable | Unreadable | UnknownUser | Failed

  datatype State = State(rows: map<string, Activity>, used: set<string>, locks: map<string, Attempt>, sent: seq<Notice>)

  datatype Op =
    | Create(id: string, assignee: string, due: Option<int>)
    | Update(id: string, to: Option<string>, on: Option<Option<int>>)
    | MarkDone(id: string)
    | Cancel(id: string)
    | Lock(id: string, attempt: Attempt)
    | Finish(id: string, finding: Finding)
    | Abort(id: string)

  const EMPTY := State(map[], {}, map[], [])

  /** A write to an open activity waits while a reminder holds the row. */
  predicate Writable(s: State, id: string) { id in s.rows && s.rows[id].open && id !in s.locks }

  function Reassigned(a: Activity, to: string): Activity {
    if to == a.assignee then a
    else a.(assignee := to, reminded := false, period := if a.reminded then a.period + 1 else a.period)
  }

  /** The callback's answer: whether to mark the activity reminded, and whether a notice goes with it. */
  function Decided(a: Activity, attempt: Attempt, finding: Finding): (r: (bool, bool))
    ensures r.1 ==> r.0
  {
    if a.assignee != attempt.assignee || !ReminderDue(a.due, attempt.now, attempt.zone) then (false, false)
    else match finding
      case Readable => (true, true)
      case Unreadable => (true, false)
      case UnknownUser => (true, false)
      case Failed => (false, false)
  }

  function Finished(s: State, id: string, finding: Finding): State
    requires id in s.locks && id in s.rows
  {
    var a := s.rows[id];
    var (mark, send) := Decided(a, s.locks[id], finding);
    s.(rows := if mark then s.rows[id := a.(reminded := true)] else s.rows,
       locks := s.locks - {id},
       sent := if send then s.sent + [Notice(id, a.period, a.assignee)] else s.sent)
  }

  /**
   What finishing an attempt does: for an activity that has the listed assignee still and is
   due, a readable record is announced and marked, one the assignee cannot read or a user
   who is gone is marked only; anything else lets go of the row and changes nothing.
   */
  lemma FinishExactly(s: State, id: string, finding: Finding)
    requires id in s.locks && id in s.rows
    ensures var t, a, attempt := Finished(s, id, finding), s.rows[id], s.locks[id];
            var justified := a.assignee == attempt.assignee && a.due.Some? && attempt.now >= ReminderTime(a.due.value, attempt.zone);
            && id !in t.locks && (forall k | k != id :: (k in t.locks <==> k in s.locks) && (k in s.locks ==> t.locks[k] == s.locks[k]))
            && t.rows.Keys == s.rows.Keys && t.used == s.used && (forall k | k in s.rows && k != id :: t.rows[k] == s.rows[k])
            && t.rows[id] == a.(reminded := a.reminded || (justified && finding != Failed))
            && t.sent == s.sent + if justified && finding == Readable then [Notice(id, a.period, a.assignee)] else []
  {
  }

  /** One committed step; a step that finds nothing to act on changes nothing. */
  function Apply(s: State, op: Op): State {
    match op
    case Create(id, assignee, due) =>
      if id in s.used then s
      else s.(rows := s.rows[id := Activity(assignee, due, true, false, 0)], used := s.used + {id})
    case Update(id, assignee, due) =>
      if !Writable(s, id) then s
      else
        var a := if assignee.Some? then Reassigned(s.rows[id], assignee.value) else s.rows[id];
        s.(rows := s.rows[id := if due.Some? then a.(due := due.value) else a])
    case MarkDone(id) =>
      if !Writable(s, id) then s else s.(rows := s.rows[id := s.rows[id].(open := false)])
    case Cancel(id) =>
      if !Writable(s, id) then s else s.(rows := s.rows - {id})
    case Lock(id, attempt) =>
      if !Writable(s, id) || s.rows[id].reminded then s else s.(locks := s.locks[id := attempt])
    case Finish(id, finding) =>
      if id in s.locks && id in s.rows then Finished(s, id, finding) else s
    case Abort(id) => s.(locks := s.locks - {id})
  }

  function Run(ops: seq<Op>): State {
    if ops == [] then EMPTY else Apply(Run(ops[..|ops| - 1]), ops[|ops| - 1])
  }

  // ---------------------------------------------------------------- what every step keeps

  ghost predicate Invariant(s: State) {
    && s.rows.Keys <= s.used
    && Locked(s)
    && Once(s.sent)
    && Accounted(s)
  }

  /** A reminder holds only open, unreminded rows. */
  ghost predicate Locked(s: State) {
    forall id | id in s.locks :: id in s.rows && s.rows[id].open && !s.rows[id].reminded
  }

  /** At most one notice for an activity in each of its unreminded periods. */
  ghost predicate Once(sent: seq<Notice>) {
    forall i, j | 0 <= i < j < |sent| :: (sent[i].id, sent[i].period) != (sent[j].id, sent[j].period)
  }

  /** A notice's period is over, or the activity is marked. */
  ghost predicate Accounted(s: State) {
    forall k | 0 <= k < |s.sent| ::
      && s.sent[k].id in s.used
      && (s.sent[k].id in s.rows ==>
            var a := s.rows[s.sent[k].id];
            s.sent[k].period < a.period || (s.sent[k].period == a.period && a.reminded))
  }

  /** The row of `id` becomes `a`, which is no earlier in its periods. */
  lemma RowKeeps(s: State, id: string, a: Activity)
    requires Invariant(s) && id in s.rows && id !in s.locks
    requires a.period > s.rows[id].period || (a.period == s.rows[id].period && (s.rows[id].reminded ==> a.reminded))
    ensures Invariant(s.(rows := s.rows[id := a]))
  {
  }

  lemma FinishKeeps(s: State, id: string, finding: Finding)
    requires Invariant(s) && id in s.locks
    ensures Invariant(Finished(s, id, finding))
  {
    hide ReminderDue;
    var a, t := s.rows[id], Finished(s, id, finding);
    var (mark, send) := Decided(a, s.locks[id], finding);
    var free := s.(locks := s.locks - {id});
    assert Invariant(free);
    if mark {
      RowKeeps(free, id, a.(reminded := true));
      if send {
        forall i | 0 <= i < |s.sent| ensures (s.sent[i].id, s.sent[i].period) != (id, a.period) {
          assert s.sent[i].id == id ==> s.sent[i].period < a.period;
        }
      }
    }
  }

  lemma StepKeeps(s: State, op: Op)
    requires Invariant(s)
    ensures Invariant(Apply(s, op))
  {
    hide Finished;
    match op
    case Finish(id, finding) =>
      if id in s.locks && id in s.rows { FinishKeeps(s, id, finding); }
    case Update(id, assignee, due) =>
      if Writable(s, id) {
        var a := if assignee.Some? then Reassigned(s.rows[id], assignee.value) else s.rows[id];
        RowKeeps(s, id, if due.Some? then a.(due := due.value) else a);
      }
    case MarkDone(id) =>
      if Writable(s, id) { RowKeeps(s, id, s.rows[id].(open := false)); }
    case Create(_, _, _) =>
    case Cancel(_) =>
    case Lock(_, _) =>
    case Abort(_) =>
  }

  /** Whatever the interleaving, at most one notice per activity and unreminded period. */
  lemma {:induction false} AtMostOnce(ops: seq<Op>)
    ensures Invariant(Run(ops)) && Once(Run(ops).sent)
    decreases |ops|
  {
    hide Apply, Invariant;
    if ops == [] {
      EmptyKeeps();
    } else {
      AtMostOnce(ops[..|ops| - 1]);
      StepKeeps(Run(ops[..|ops| - 1]), ops[|ops| - 1]);
    }
    InvariantOnce(Run(ops));
  }

  lemma EmptyKeeps()
    ensures Invariant(EMPTY)
  {
  }

  lemma InvariantOnce(s: State)
    requires Invariant(s)
    ensures Once(s.sent)
  {
  }

  // ---------------------------------------------------------------- what every notice had behind it

  /** The state a notice was committed in: its activity open, unreminded, due and the addressee's. */
  ghost predicate Justified(s: State, n: Notice) {
    && n.id in s.rows && n.id in s.locks
    && var a, attempt := s.rows[n.id], s.locks[n.id];
       a.open && !a.reminded && a.assignee == n.to && a.period == n.period && ReminderDue(a.due, attempt.now, attempt.zone)
  }

  lemma StepSends(s: State, op: Op)
    requires Invariant(s)
    ensures s.sent <= Apply(s, op).sent && |Apply(s, op).sent| <= |s.sent| + 1
    ensures |Apply(s, op).sent| > |s.sent| ==> Commits(s, op, Apply(s, op).sent[|s.sent|])
  {
    hide ReminderDue;
  }

  /** The step ends the notice's own reminding transaction, in a state that justifies it. */
  ghost predicate Commits(s: State, op: Op, n: Notice) {
    op.Finish? && op.id == n.id && Justified(s, n)
  }

  /**
   Every notice is committed by one step, and when that step is taken its activity is open,
   unreminded, due and assigned to whom it goes.
   */
  lemma {:induction false} EveryNoticeJustified(ops: seq<Op>, k: nat)
    requires k < |Run(ops).sent|
    ensures exists t :: 0 <= t < |ops| && CommittedAt(ops, k, t)
    decreases |ops|
  {
    hide Apply, Invariant, Commits;
    var init := ops[..|ops| - 1];
    AtMostOnce(init);
    StepSends(Run(init), ops[|ops| - 1]);
    assert ops[..|ops|] == ops;
    if k < |Run(init).sent| {
      EveryNoticeJustified(init, k);
      var t :| 0 <= t < |init| && CommittedAt(init, k, t);
      assert init[..t] == ops[..t] && init[..t + 1] == ops[..t + 1] && init[t] == ops[t];
      assert CommittedAt(ops, k, t);
    } else {
      assert CommittedAt(ops, k, |init|);
    }
  }

  /** Notice k appears with step t, and not before it, and the state before that step justifies it. */
  ghost predicate CommittedAt(ops: seq<Op>, k: nat, t: nat)
    requires t < |ops| && k < |Run(ops).sent|
  {
    var before, after := Run(ops[..t]), Run(ops[..t + 1]);
    && |before.sent| == k && after.sent == before.sent + [Run(ops).sent[k]]
    && Commits(before, ops[t], Run(ops).sent[k])
  }

  /** A reassignment after a reminder starts a period in which the new assignee can be reminded. */
  lemma ReassignedAgain(s: State, id: string, to: string, attempt: Attempt)
    requires Invariant(s) && Writable(s, id) && s.rows[id].reminded && to != s.rows[id].assignee
    requires attempt.assignee == to && ReminderDue(s.rows[id].due, attempt.now, attempt.zone)
    ensures var t := Apply(Apply(Apply(s, Update(id, Some(to), None)), Lock(id, attempt)), Finish(id, Readable));
            t.sent == s.sent + [Notice(id, s.rows[id].period + 1, to)] && t.rows[id].reminded
  {
    hide ReminderDue;
  }
}
