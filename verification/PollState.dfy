/** A stream's life: polls, failures, keep-alives, and what a client has read of it all. */
module PollState {
  import opened EventStream

  datatype Response = Response(status: int, body: Body)

  /** What one poll does to the stream. */
  datatype Outcome = Refused | GaveUp | Waiting | Sent(frames: string, done: bool)

  datatype Poll = Poll(cursor: string, failures: nat)

  const MAX_FAILURES := 3

  predicate IsRefusal(r: Response) { 400 <= r.status < 500 }

  predicate IsFailure(r: Response) {
    !IsRefusal(r) && !(200 <= r.status < 300 && Acceptable(r.body))
  }

  function Accepted(p: Poll, r: Response): (Poll, Outcome) {
    if IsRefusal(r) then (p, Refused)
    else if IsFailure(r) then
      (p.(failures := p.failures + 1), if p.failures + 1 >= MAX_FAILURES then GaveUp else Waiting)
    else (Poll(CursorAfter(r.body.events.value, p.cursor), 0), Sent(Frames(r.body.events.value), r.body.done.value))
  }

  /** The poll state: the resume cursor and the failures since the last good batch. */
  class SsePollState {
    var cursor: string
    var failures: nat

    constructor (cursor: string)
      ensures State() == Poll(cursor, 0)
    {
      this.cursor, this.failures := cursor, 0;
    }

    ghost function State(): Poll
      reads this
    {
      Poll(cursor, failures)
    }

    method Accept(response: Response) returns (outcome: Outcome)
      modifies this
      ensures (State(), outcome) == Accepted(old(State()), response)
    {
      if 400 <= response.status < 500 {
        return Refused;
      }
      var frames, done, next, ok := "", false, cursor, false;
      if 200 <= response.status < 300 {
        frames, done, next, ok := EventFrames(response.body, cursor);
      }
      if !ok {
        failures := failures + 1;
        if failures >= MAX_FAILURES {
          return GaveUp;
        }
        return Waiting;
      }
      failures := 0;
      cursor := next;
      return Sent(frames, done);
    }
  }

  // ---------------------------------------------------------------- whole streams

  /** What happens on an open stream: a keep-alive, or a poll that came back. */
  datatype Input = Ping | Polled(response: Response)

  datatype Session = Session(poll: Poll, sent: string, ended: bool)

  const PING := ": ping\n\n"
  const DONE := "event: done\ndata: {}\n\n"

  /** An open stream after its first batch. */
  function Opened(cursor: string, es: seq<Event>, done: bool): Session
    requires forall i | 0 <= i < |es| :: Sendable(es[i])
  {
    Session(Poll(CursorAfter(es, cursor), 0), OPENING + Frames(es) + (if done then DONE else ""), done)
  }

  function Step(s: Session, input: Input): Session {
    if s.ended then s
    else
      match input
      case Ping => s.(sent := s.sent + PING)
      case Polled(response) =>
        var (poll, outcome) := Accepted(s.poll, response);
        match outcome
        case Refused => s.(poll := poll, ended := true)
        case GaveUp => s.(poll := poll, ended := true)
        case Waiting => s.(poll := poll)
        case Sent(frames, done) => Session(poll, s.sent + frames + (if done then DONE else ""), done)
  }

  function Run(s: Session, inputs: seq<Input>): Session {
    if inputs == [] then s else Step(Run(s, inputs[..|inputs| - 1]), inputs[|inputs| - 1])
  }

  // ---------------------------------------------------------------- the client keeps up

  lemma ReadPing(r: Reader)
    requires Idle(r) && r.lastId == r.idBuffer
    ensures Read(r, PING) == r
  {
    hide Read;
    assert PING == ": ping" + "\n" + "\n";
    ReadAppend(r, ": ping" + "\n", "\n");
    ReadLine(r, ": ping");
    assert Line(r, ": ping") == r by { assert ColonAt(": ping") == 0; }
    assert "" + "\n" == "\n";
    ReadLine(r, "");
    BlankLine(r);
  }

  lemma ReadDone(r: Reader)
    requires Idle(r)
    ensures Read(r, DONE) == r.(lastId := r.idBuffer, out := r.out + [Message("done", "{}", r.idBuffer)])
  {
    hide Read, Line;
    assert DONE == "event: done" + "\n" + (DATA + "\n" + "\n");
    ReadAppend(r, "event: done" + "\n", DATA + "\n" + "\n");
    ReadLine(r, "event: done");
    EventLine(r);
    ReadDoneData(r.(kind := "done"));
  }

  const DATA := "data: {}"

  lemma ReadDoneData(q: Reader)
    requires q.line == "" && !q.cr && q.data == "" && q.kind == "done"
    ensures Read(q, DATA + "\n" + "\n") == q.(kind := "", lastId := q.idBuffer, out := q.out + [Message("done", "{}", q.idBuffer)])
  {
    hide Read, Line;
    ReadAppend(q, DATA + "\n", "\n");
    assert DATA == "data: " + "{}";
    ReadLine(q, DATA);
    DataLine(q, "{}");
    var p := q.(data := "" + "{}" + "\n");
    assert "" + "\n" == "\n";
    ReadLine(p, "");
    BlankLine(p);
    assert ("" + "{}" + "\n")[..2] == "{}";
  }

  lemma EventLine(r: Reader)
    ensures Line(r, "event: done") == r.(kind := "done")
  {
    hide Line;
    FieldLine(r, "event", "done");
    assert "event: done" == "event" + (":" + (" " + "done"));
  }

  /** The client is between events and its last event ID is the server's cursor. */
  predicate InStep(s: Session, r: Reader) {
    Idle(r) && r.lastId == r.idBuffer == s.poll.cursor
  }

  lemma ReadSent(r: Reader, es: seq<Event>, done: bool)
    requires Idle(r) && r.lastId == r.idBuffer && forall i | 0 <= i < |es| :: Sendable(es[i])
    ensures var q := Read(r, Frames(es) + (if done then DONE else ""));
            && Idle(q) && q.lastId == q.idBuffer == CursorAfter(es, r.idBuffer)
            && q.out == r.out + Messages(es, r.idBuffer) + (if done then [Message("done", "{}", CursorAfter(es, r.idBuffer))] else [])
  {
    hide Read, Sendable, Frames, Messages, CursorAfter;
    ReadFrames(r, es);
    var q := Read(r, Frames(es));
    if done {
      ReadAppend(r, Frames(es), DONE);
      ReadDone(q);
    } else {
      assert Frames(es) + "" == Frames(es);
      assert q.out + [] == q.out;
    }
  }

  /**
   Over any run, a client that resumes from the request's cursor and reads everything
   sent so far has the server's cursor as its last event ID, failures and all.
   */
  lemma {:induction false} ClientInStep(cursor: string, es: seq<Event>, done: bool, inputs: seq<Input>)
    requires forall i | 0 <= i < |es| :: Sendable(es[i])
    ensures var s := Run(Opened(cursor, es, done), inputs); InStep(s, Read(Resuming(cursor), s.sent))
    decreases |inputs|
  {
    hide Read, Sendable, Frames, CursorAfter, Accepted;
    if inputs == [] {
      ReadAppend(Resuming(cursor), OPENING, Frames(es) + (if done then DONE else ""));
      assert OPENING + Frames(es) + (if done then DONE else "") == OPENING + (Frames(es) + (if done then DONE else ""));
      ReadOpening(Resuming(cursor));
      ReadSent(Resuming(cursor), es, done);
    } else {
      var init := inputs[..|inputs| - 1];
      ClientInStep(cursor, es, done, init);
      StepInStep(Run(Opened(cursor, es, done), init), inputs[|inputs| - 1], Resuming(cursor));
    }
  }

  lemma StepInStep(s: Session, input: Input, start: Reader)
    requires InStep(s, Read(start, s.sent))
    ensures InStep(Step(s, input), Read(start, Step(s, input).sent))
  {
    hide Read, Sendable, Frames, CursorAfter;
    var r := Read(start, s.sent);
    if !s.ended {
      match input
      case Ping =>
        ReadAppend(start, s.sent, PING);
        ReadPing(r);
      case Polled(response) =>
        var (poll, outcome) := Accepted(s.poll, response);
        if outcome.Sent? {
          var es := response.body.events.value;
          var tail := if outcome.done then DONE else "";
          ReadAppend(start, s.sent, Frames(es) + tail);
          assert s.sent + Frames(es) + tail == s.sent + (Frames(es) + tail);
          ReadSent(r, es, outcome.done);
        }
    }
  }

  // ---------------------------------------------------------------- a client that reconnects

  predicate Good(input: Input) { input.Polled? && !IsRefusal(input.response) && !IsFailure(input.response) }

  predicate Named(es: seq<Event>) { exists i :: 0 <= i < |es| && es[i].id != "" }

  /** Some event accepted so far, in the first batch or a later one, carries an id. */
  ghost predicate NamedSoFar(cursor: string, es: seq<Event>, done: bool, inputs: seq<Input>)
    requires forall i | 0 <= i < |es| :: Sendable(es[i])
  {
    Named(es) || exists t :: 0 <= t < |inputs| && NamedAt(cursor, es, done, inputs, t)
  }

  ghost predicate NamedAt(cursor: string, es: seq<Event>, done: bool, inputs: seq<Input>, t: nat)
    requires t < |inputs| && forall i | 0 <= i < |es| :: Sendable(es[i])
  {
    !Run(Opened(cursor, es, done), inputs[..t]).ended && Good(inputs[t]) && Named(inputs[t].response.body.events.value)
  }

  /** The same stream, asked for from two cursors: only the cursor can differ. */
  predicate Twin(a: Session, b: Session) { a.sent == b.sent && a.ended == b.ended && a.poll.failures == b.poll.failures }

  lemma {:induction false} CursorTwins(es: seq<Event>, a: string, b: string)
    ensures Named(es) ==> CursorAfter(es, a) == CursorAfter(es, b)
    ensures !Named(es) ==> CursorAfter(es, a) == a
    decreases |es|
  {
    if es != [] {
      var k := |es| - 1;
      if es[k].id == "" {
        CursorTwins(es[..k], a, b);
        NamedSooner(es);
      }
    }
  }

  lemma NamedSooner(es: seq<Event>)
    requires es != [] && es[|es| - 1].id == ""
    ensures Named(es[..|es| - 1]) <==> Named(es)
  {
    var init := es[..|es| - 1];
    if i :| 0 <= i < |es| && es[i].id != "" { assert init[i].id != ""; }
    if i :| 0 <= i < |init| && init[i].id != "" { assert es[i].id != ""; }
  }

  lemma {:induction false} TwinsRun(cursor: string, es: seq<Event>, done: bool, inputs: seq<Input>)
    requires forall i | 0 <= i < |es| :: Sendable(es[i])
    ensures var a, b := Run(Opened(cursor, es, done), inputs), Run(Opened("", es, done), inputs);
            && Twin(a, b)
            && (NamedSoFar(cursor, es, done, inputs) ==> a.poll.cursor == b.poll.cursor)
            && (!NamedSoFar(cursor, es, done, inputs) ==> a.poll.cursor == cursor && b.poll.cursor == "")
    decreases |inputs|
  {
    hide Frames, CursorAfter, Sendable, Named;
    if inputs == [] {
      CursorTwins(es, cursor, "");
      CursorTwins(es, "", cursor);
    } else {
      var k := |inputs| - 1;
      var init, input := inputs[..k], inputs[k];
      TwinsRun(cursor, es, done, init);
      NamedNext(cursor, es, done, inputs);
      var a, b := Run(Opened(cursor, es, done), init), Run(Opened("", es, done), init);
      if !a.ended && Good(input) {
        CursorTwins(input.response.body.events.value, a.poll.cursor, b.poll.cursor);
        CursorTwins(input.response.body.events.value, b.poll.cursor, a.poll.cursor);
      }
    }
  }

  lemma NamedNext(cursor: string, es: seq<Event>, done: bool, inputs: seq<Input>)
    requires inputs != [] && forall i | 0 <= i < |es| :: Sendable(es[i])
    ensures NamedSoFar(cursor, es, done, inputs)
            <==> NamedSoFar(cursor, es, done, inputs[..|inputs| - 1]) || NamedAt(cursor, es, done, inputs, |inputs| - 1)
  {
    hide Run, Opened, Good, Named;
    var k := |inputs| - 1;
    var init := inputs[..k];
    forall t | 0 <= t < k ensures NamedAt(cursor, es, done, inputs, t) <==> NamedAt(cursor, es, done, init, t) {
      assert init[..t] == inputs[..t] && init[t] == inputs[t];
    }
  }

  /**
   A stream's last event ID buffer starts empty, so a client that reconnects with a cursor
   loses it when the stream opens. Over any run its id agrees with the server's cursor
   exactly when it had none to lose or some event accepted so far carries one.
   */
  lemma ReconnectKeepsCursor(cursor: string, es: seq<Event>, done: bool, inputs: seq<Input>)
    requires forall i | 0 <= i < |es| :: Sendable(es[i])
    ensures var s := Run(Opened(cursor, es, done), inputs);
            Read(Reconnecting(cursor), s.sent).lastId == s.poll.cursor <==> cursor == "" || NamedSoFar(cursor, es, done, inputs)
  {
    hide Sendable, NamedSoFar, Read, Run;
    TwinsRun(cursor, es, done, inputs);
    ClientInStep("", es, done, inputs);
    var s := Run(Opened(cursor, es, done), inputs);
    SentOpens(cursor, es, done, inputs);
    ReadAppend(Reconnecting(cursor), OPENING, s.sent[|OPENING|..]);
    ReadAppend(Resuming(""), OPENING, s.sent[|OPENING|..]);
    ReadOpening(Reconnecting(cursor));
    ReadOpening(Resuming(""));
  }

  lemma {:induction false} SentOpens(cursor: string, es: seq<Event>, done: bool, inputs: seq<Input>)
    requires forall i | 0 <= i < |es| :: Sendable(es[i])
    ensures var sent := Run(Opened(cursor, es, done), inputs).sent; |OPENING| <= |sent| && sent == OPENING + sent[|OPENING|..]
    decreases |inputs|
  {
    hide Frames, Accepted, Sendable;
    if inputs != [] { SentOpens(cursor, es, done, inputs[..|inputs| - 1]); }
  }

  /** What each step adds to what the client has seen: exactly the accepted events, in order. */
  lemma StepDelivers(s: Session, input: Input, start: Reader)
    requires InStep(s, Read(start, s.sent)) && !s.ended
    ensures var before, after := Read(start, s.sent).out, Read(start, Step(s, input).sent).out;
            if !Good(input) then after == before
            else var es := input.response.body.events.value;
                 after == before + Messages(es, s.poll.cursor)
                          + (if input.response.body.done.value then [Message("done", "{}", CursorAfter(es, s.poll.cursor))] else [])
  {
    hide Read, Sendable, Frames, CursorAfter, Messages;
    var r := Read(start, s.sent);
    match input
    case Ping =>
      ReadAppend(start, s.sent, PING);
      ReadPing(r);
    case Polled(response) =>
      var (poll, outcome) := Accepted(s.poll, response);
      if outcome.Sent? {
        var es := response.body.events.value;
        var tail := if outcome.done then DONE else "";
        ReadAppend(start, s.sent, Frames(es) + tail);
        assert s.sent + Frames(es) + tail == s.sent + (Frames(es) + tail);
        ReadSent(r, es, outcome.done);
      }
  }

  /** The events accepted so far, in order, and whether the last batch said it was the end. */
  function Accumulated(cursor: string, es: seq<Event>, done: bool, inputs: seq<Input>): (seq<Event>, bool)
    requires forall i | 0 <= i < |es| :: Sendable(es[i])
  {
    if inputs == [] then (es, done)
    else
      var k := |inputs| - 1;
      var (all, end) := Accumulated(cursor, es, done, inputs[..k]);
      if Run(Opened(cursor, es, done), inputs[..k]).ended || !Good(inputs[k]) then (all, end)
      else (all + inputs[k].response.body.events.value, inputs[k].response.body.done.value)
  }

  lemma {:induction false} CursorAppend(a: seq<Event>, b: seq<Event>, cursor: string)
    ensures CursorAfter(a + b, cursor) == CursorAfter(b, CursorAfter(a, cursor))
    decreases |b|
  {
    if b == [] {
      assert a + b == a;
    } else {
      CursorAppend(a, b[..|b| - 1], cursor);
      assert (a + b)[..|a + b| - 1] == a + b[..|b| - 1] && (a + b)[|a + b| - 1] == b[|b| - 1];
    }
  }

  lemma {:induction false} MessagesAppend(a: seq<Event>, b: seq<Event>, cursor: string)
    requires (forall i | 0 <= i < |a| :: Sendable(a[i])) && forall i | 0 <= i < |b| :: Sendable(b[i])
    ensures forall i | 0 <= i < |a + b| :: Sendable((a + b)[i])
    ensures Messages(a + b, cursor) == Messages(a, cursor) + Messages(b, CursorAfter(a, cursor))
    decreases |b|
  {
    hide Sendable, CursorAfter;
    if b == [] {
      assert a + b == a;
      assert Messages(a, cursor) + [] == Messages(a, cursor);
    } else {
      var init := b[..|b| - 1];
      MessagesAppend(a, init, cursor);
      assert (a + b)[..|a + b| - 1] == a + init && (a + b)[|a + b| - 1] == b[|b| - 1];
      CursorAppend(a, b, cursor);
    }
  }

  function DoneMessage(done: bool, id: string): seq<Message> { if done then [Message("done", "{}", id)] else [] }

  /**
   Over any run, a client that reads everything sent has seen exactly the events accepted
   so far, once each and in order, and then the end if a batch announced it.
   */
  lemma {:induction false} RunDelivers(cursor: string, es: seq<Event>, done: bool, inputs: seq<Input>)
    requires forall i | 0 <= i < |es| :: Sendable(es[i])
    ensures var s := Run(Opened(cursor, es, done), inputs);
            var (all, end) := Accumulated(cursor, es, done, inputs);
            && (forall i | 0 <= i < |all| :: Sendable(all[i])) && s.poll.cursor == CursorAfter(all, cursor) && (end ==> s.ended)
            && Read(Resuming(cursor), s.sent).out == Messages(all, cursor) + DoneMessage(end, CursorAfter(all, cursor))
            && TellsAll(Messages(all, cursor), all, cursor) && InForce(all, cursor, s.poll.cursor)
    decreases |inputs|
  {
    hide Read, Sendable, Frames, CursorAfter, Messages, TellsAll, InForce;
    if inputs == [] {
      ReadAppend(Resuming(cursor), OPENING, Frames(es) + (if done then DONE else ""));
      assert OPENING + Frames(es) + (if done then DONE else "") == OPENING + (Frames(es) + (if done then DONE else ""));
      ReadOpening(Resuming(cursor));
      ReadSent(Resuming(cursor), es, done);
      assert [] + Messages(es, cursor) == Messages(es, cursor);
    } else {
      var k := |inputs| - 1;
      RunDelivers(cursor, es, done, inputs[..k]);
      ClientInStep(cursor, es, done, inputs[..k]);
      var s := Run(Opened(cursor, es, done), inputs[..k]);
      if !s.ended { DeliversNext(s, inputs[k], Resuming(cursor), cursor, Accumulated(cursor, es, done, inputs[..k]).0); }
    }
    var (all, _) := Accumulated(cursor, es, done, inputs);
    MessagesTell(all, cursor);
    CursorInForce(all, cursor);
  }

  lemma DeliversNext(s: Session, input: Input, start: Reader, cursor: string, all: seq<Event>)
    requires InStep(s, Read(start, s.sent)) && !s.ended && s.poll.cursor == CursorAfter(all, cursor)
    requires (forall i | 0 <= i < |all| :: Sendable(all[i])) && Read(start, s.sent).out == Messages(all, cursor)
    ensures var t := Step(s, input);
            if !Good(input) then t.poll.cursor == s.poll.cursor && Read(start, t.sent).out == Read(start, s.sent).out
            else var more, done := all + input.response.body.events.value, input.response.body.done.value;
                 && (forall i | 0 <= i < |more| :: Sendable(more[i])) && t.poll.cursor == CursorAfter(more, cursor) && (done ==> t.ended)
                 && Read(start, t.sent).out == Messages(more, cursor) + DoneMessage(done, CursorAfter(more, cursor))
  {
    hide Read, Sendable, Frames, CursorAfter, Messages;
    StepDelivers(s, input, start);
    if Good(input) {
      var es := input.response.body.events.value;
      MessagesAppend(all, es, cursor);
      CursorAppend(all, es, cursor);
    }
  }

  // ---------------------------------------------------------------- failures in a row

  /** How many polls at the end of the history failed, keep-alives aside. */
  function FailuresInARow(inputs: seq<Input>): nat {
    if inputs == [] then 0
    else
      var k := |inputs| - 1;
      if inputs[k].Ping? then FailuresInARow(inputs[..k])
      else if IsFailure(inputs[k].response) then 1 + FailuresInARow(inputs[..k])
      else 0
  }

  lemma {:induction false} OpenCountsFailures(s0: Session, inputs: seq<Input>)
    requires s0.poll.failures == 0 && !Run(s0, inputs).ended
    ensures Run(s0, inputs).poll.failures == FailuresInARow(inputs) < MAX_FAILURES
    decreases |inputs|
  {
    if inputs != [] { OpenCountsFailures(s0, inputs[..|inputs| - 1]); }
  }

  /** A poll that neither was refused nor brought an acceptable batch. */
  predicate Failed(input: Input) {
    input.Polled? && !(400 <= input.response.status <= 499) && !(200 <= input.response.status <= 299 && Acceptable(input.response.body))
  }

  /** The last poll is at `j` and failed: only keep-alives stand behind it. */
  predicate LastFailed(inputs: seq<Input>, j: int) {
    0 <= j < |inputs| && Failed(inputs[j]) && forall k | j < k < |inputs| :: inputs[k].Ping?
  }

  /** The last two polls failed. */
  ghost predicate FailedTwice(inputs: seq<Input>) {
    exists i, j :: LastFailed(inputs, j) && LastFailed(inputs[..j], i)
  }

  /** The count of failures in a row, poll by poll from the last. */
  lemma {:induction false} CountLast(inputs: seq<Input>) returns (j: int)
    ensures FailuresInARow(inputs) == if LastFailed(inputs, j) then 1 + FailuresInARow(inputs[..j]) else 0
    ensures forall i :: LastFailed(inputs, i) ==> i == j
    decreases |inputs|
  {
    hide Acceptable;
    j := -1;
    if inputs != [] {
      var n := |inputs| - 1;
      if inputs[n].Ping? {
        j := CountLast(inputs[..n]);
        forall i ensures LastFailed(inputs, i) <==> LastFailed(inputs[..n], i) { LastFailedPing(inputs, i); }
        if LastFailed(inputs, j) { assert inputs[..n][..j] == inputs[..j]; }
      } else {
        j := n;
        forall i | LastFailed(inputs, i) ensures i == j { LastFailedPoll(inputs, i); }
      }
    }
  }

  lemma LastFailedPing(inputs: seq<Input>, i: int)
    requires inputs != [] && inputs[|inputs| - 1].Ping?
    ensures LastFailed(inputs, i) <==> LastFailed(inputs[..|inputs| - 1], i)
  {
    hide Acceptable;
    var init := inputs[..|inputs| - 1];
    assert forall k | 0 <= k < |init| :: init[k] == inputs[k];
  }

  lemma LastFailedPoll(inputs: seq<Input>, i: int)
    requires inputs != [] && !inputs[|inputs| - 1].Ping? && LastFailed(inputs, i)
    ensures i == |inputs| - 1
  {
    hide Failed;
  }

  lemma FailedTwiceCounts(inputs: seq<Input>)
    ensures FailuresInARow(inputs) >= 2 <==> FailedTwice(inputs)
  {
    hide FailuresInARow, LastFailed;
    var j := CountLast(inputs);
    if LastFailed(inputs, j) {
      LastFailedIn(inputs, j);
      var i := CountLast(inputs[..j]);
    }
  }

  lemma LastFailedIn(inputs: seq<Input>, j: int)
    requires LastFailed(inputs, j)
    ensures 0 <= j < |inputs|
  {
  }

  /**
   On an open stream a failed poll ends it exactly when it is the third in a row; a
   refusal ends it at once and leaves cursor, failures and the text sent as they were.
   */
  lemma EndsAtThird(s0: Session, inputs: seq<Input>, r: Response)
    requires s0.poll.failures == 0 && !Run(s0, inputs).ended
    ensures var s, s' := Run(s0, inputs), Run(s0, inputs + [Polled(r)]);
            if 400 <= r.status <= 499 then s' == s.(ended := true)
            else if 200 <= r.status <= 299 && Acceptable(r.body) then (s'.ended <==> r.body.done.value) && s'.poll.failures == 0
            else s'.sent == s.sent && s'.poll.cursor == s.poll.cursor && (s'.ended <==> FailedTwice(inputs))
  {
    var all := inputs + [Polled(r)];
    assert all[..|inputs|] == inputs && all[|inputs|] == Polled(r);
    OpenCountsFailures(s0, inputs);
    FailedTwiceCounts(inputs);
  }
}
