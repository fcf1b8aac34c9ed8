/**
 Server-sent events: the frames an accepted batch of events is written as, and a reader of
 event streams by section 9.2.6 of WHATWG HTML.
 */
module EventStream {
  import opened Basics
  import opened JsonLex
  import opened JsonTree
  import opened JsonFormat
  import opened JsonWords

  /** A decoded JSON value. */
  type Json = n: Node | WellFormed(n) witness Scalar("0")

  /** One event of a batch: an optional cursor, and data unless the member is missing. */
  datatype Event = Event(id: string, data: Option<Json>)

  /** A poll's body: not JSON of the right shape, or a batch whose members may be missing. */
  datatype Body = Undecodable | Batch(events: Option<seq<Event>>, done: Option<bool>)

  const MAX_EVENTS := 100
  const MAX_DATA := 0x1_0000

  // ---------------------------------------------------------------- frames

  /** Event data as it is sent: the value without white space. */
  function Encoded(data: Json): string {
    Print(Strip(data))
  }

  function Utf8Size(s: string): nat {
    if s == "" then 0
    else (var c := s[0] as int; if c < 0x80 then 1 else if c < 0x800 then 2 else if c < 0x1_0000 then 3 else 4) + Utf8Size(s[1..])
  }

  /** The bytes of a character by section 3 of RFC 3629, and of a text. */
  function CharBytes(c: char): seq<int> {
    var u := c as int;
    if u < 0x80 then [u]
    else if u < 0x800 then [0xC0 + u / 0x40, 0x80 + u % 0x40]
    else if u < 0x1_0000 then [0xE0 + u / 0x1000, 0x80 + u / 0x40 % 0x40, 0x80 + u % 0x40]
    else [0xF0 + u / 0x4_0000, 0x80 + u / 0x1000 % 0x40, 0x80 + u / 0x40 % 0x40, 0x80 + u % 0x40]
  }

  function Bytes(s: string): seq<int> {
    if s == "" then [] else CharBytes(s[0]) + Bytes(s[1..])
  }

  lemma {:induction false} SizeOfBytes(s: string)
    ensures Utf8Size(s) == |Bytes(s)|
    decreases |s|
  {
    if s != "" { SizeOfBytes(s[1..]); }
  }

  predicate PlainId(id: string) {
    forall i | 0 <= i < |id| :: id[i] != '\r' && id[i] != '\n' && id[i] != '\0'
  }

  predicate Sendable(e: Event) {
    e.data.Some? && PlainId(e.id) && Utf8Size(Encoded(e.data.value)) <= MAX_DATA
  }

  predicate Acceptable(body: Body) {
    && body.Batch? && body.events.Some? && body.done.Some? && |body.events.value| <= MAX_EVENTS
    && forall i | 0 <= i < |body.events.value| :: Sendable(body.events.value[i])
  }

  function Frame(e: Event): string
    requires e.data.Some?
  {
    (if e.id == "" then "" else "id: " + e.id + "\n") + ("data: " + Encoded(e.data.value) + "\n" + "\n")
  }

  function Frames(es: seq<Event>): string
    requires forall i | 0 <= i < |es| :: Sendable(es[i])
  {
    if es == [] then ""
    else
      assert Sendable(es[|es| - 1]);
      Frames(es[..|es| - 1]) + Frame(es[|es| - 1])
  }

  /** The cursor behind the events: the last id that is not empty, or the one before them. */
  function CursorAfter(es: seq<Event>, cursor: string): string {
    if es == [] then cursor
    else if es[|es| - 1].id != "" then es[|es| - 1].id
    else CursorAfter(es[..|es| - 1], cursor)
  }

  /** A batch whose events are looked at one by one. */
  predicate Openable(body: Body) {
    body.Batch? && body.events.Some? && body.done.Some? && |body.events.value| <= MAX_EVENTS
  }

  /** The first event that cannot be sent, or their number. */
  function FirstBad(es: seq<Event>): (k: nat)
    ensures k <= |es| && (forall i | 0 <= i < k :: Sendable(es[i])) && (k < |es| ==> !Sendable(es[k]))
  {
    if es == [] || !Sendable(es[0]) then 0
    else
      var k := FirstBad(es[1..]);
      assert forall i | 0 < i <= k :: es[i] == es[1..][i - 1];
      k + 1
  }

  /**
   The encoder: frames and the moved cursor for an acceptable body, otherwise an error. A
   batch refused for an event has moved the cursor by the events before the first such one.
   */
  method EventFrames(body: Body, cursor: string) returns (frames: string, done: bool, next: string, ok: bool)
    ensures ok <==> Acceptable(body)
    ensures ok ==> && frames == Frames(body.events.value) && done == body.done.value
                   && next == CursorAfter(body.events.value, cursor)
    ensures !ok ==> frames == "" && !done
    ensures !ok ==> next == if Openable(body) then CursorAfter(body.events.value[..FirstBad(body.events.value)], cursor) else cursor
  {
    if body.Undecodable? || body.events.None? || body.done.None? || |body.events.value| > MAX_EVENTS {
      return "", false, cursor, false;
    }
    var events := body.events.value;
    frames, next := "", cursor;
    for i := 0 to |events|
      invariant forall k | 0 <= k < i :: Sendable(events[k])
      invariant frames == Frames(events[..i]) && next == CursorAfter(events[..i], cursor)
    {
      var e := events[i];
      assert events[..i + 1][..i] == events[..i];
      if e.data.None? || !PlainId(e.id) {
        FirstBadIs(events, i);
        return "", false, next, false;
      }
      var data := Encoded(e.data.value);
      if Utf8Size(data) > MAX_DATA {
        FirstBadIs(events, i);
        return "", false, next, false;
      }
      var frame := "";
      if e.id != "" {
        frame := "id: " + e.id + "\n";
        next := e.id;
      }
      frames := frames + (frame + ("data: " + data + "\n" + "\n"));
    }
    assert events[..|events|] == events;
    return frames, body.done.value, next, true;
  }

  lemma FirstBadIs(es: seq<Event>, i: nat)
    requires i < |es| && !Sendable(es[i]) && forall k | 0 <= k < i :: Sendable(es[k])
    ensures FirstBad(es) == i
  {
    hide Sendable;
  }

  // ---------------------------------------------------------------- the reader

  /** A dispatched event: its type, its data, and the last event ID at that moment. */
  datatype Message = Message(kind: string, data: string, lastId: string)

  /**
   The reader: the line read so far, whether it just ended with a carriage return, the
   data, type and last event ID buffers, the last event ID, and what was dispatched.
   */
  datatype Reader = Reader(line: string, cr: bool, data: string, kind: string, idBuffer: string, lastId: string, out: seq<Message>)

  function ColonAt(line: string): (i: nat)
    ensures i <= |line| && (i < |line| ==> line[i] == ':')
  {
    if line == "" || line[0] == ':' then 0 else 1 + ColonAt(line[1..])
  }

  function DropSpace(value: string): string {
    if value != "" && value[0] == ' ' then value[1..] else value
  }

  function Field(r: Reader, name: string, value: string): Reader {
    if name == "event" then r.(kind := value)
    else if name == "data" then r.(data := r.data + value + "\n")
    else if name == "id" && '\0' !in value then r.(idBuffer := value)
    else r
  }

  function Dispatch(r: Reader): Reader {
    var named := r.(lastId := r.idBuffer, data := "", kind := "");
    if r.data == "" then named
    else named.(out := r.out + [Message(if r.kind == "" then "message" else r.kind, r.data[..|r.data| - 1], r.idBuffer)])
  }

  function Line(r: Reader, line: string): Reader {
    if line == "" then Dispatch(r)
    else
      var c := ColonAt(line);
      if c == 0 then r
      else if c < |line| then Field(r, line[..c], DropSpace(line[c + 1..]))
      else Field(r, line, "")
  }

  /** One character: lines end with CR LF, LF or CR. */
  function Char(r: Reader, c: char): Reader {
    if c == '\n' && r.cr then r.(cr := false)
    else if c == '\n' || c == '\r' then Line(r.(line := "", cr := c == '\r'), r.line)
    else r.(line := r.line + [c], cr := false)
  }

  function Read(r: Reader, text: string): Reader
    decreases |text|
  {
    if text == "" then r else Read(Char(r, text[0]), text[1..])
  }

  /** Between events: nothing is pending. */
  predicate Idle(r: Reader) {
    r.line == "" && !r.cr && r.data == "" && r.kind == ""
  }

  /** A reader that carries on from `cursor`. */
  function Resuming(cursor: string): Reader {
    Reader("", false, "", "", cursor, cursor, [])
  }

  lemma {:induction false} ReadAppend(r: Reader, a: string, b: string)
    ensures Read(r, a + b) == Read(Read(r, a), b)
    decreases |a|
  {
    hide Char;
    if a == "" {
      assert a + b == b;
    } else {
      ReadAppend(Char(r, a[0]), a[1..], b);
      assert (a + b)[1..] == a[1..] + b;
    }
  }

  predicate OneLine(s: string) {
    forall i | 0 <= i < |s| :: s[i] != '\r' && s[i] != '\n'
  }

  lemma {:induction false} ReadPlain(r: Reader, line: string)
    requires OneLine(line) && !r.cr
    ensures Read(r, line) == r.(line := r.line + line)
    decreases |line|
  {
    if line == "" {
      assert r.line + "" == r.line;
    } else {
      assert OneLine(line[1..]) && line[0] != '\n' && line[0] != '\r';
      ReadPlain(Char(r, line[0]), line[1..]);
      assert r.line + line == r.line + [line[0]] + line[1..];
    }
  }

  /** A whole line, read from its start. */
  lemma ReadLine(r: Reader, line: string)
    requires OneLine(line) && !r.cr && r.line == ""
    ensures Read(r, line + "\n") == Line(r, line)
  {
    hide Line;
    ReadAppend(r, line, "\n");
    ReadPlain(r, line);
    assert "" + line == line;
    var q := r.(line := line);
    assert "\n"[1..] == "";
    assert Read(q, "\n") == Read(Char(q, '\n'), "");
    assert q.(line := "", cr := false) == r;
  }

  lemma {:induction false} ColonBehind(name: string, rest: string)
    requires forall i | 0 <= i < |name| :: name[i] != ':'
    ensures ColonAt(name + (":" + rest)) == |name|
    decreases |name|
  {
    var line := name + (":" + rest);
    if name != "" {
      ColonBehind(name[1..], rest);
      assert line[1..] == name[1..] + (":" + rest);
    }
  }

  /** A line `name: value` is that field. */
  lemma FieldLine(r: Reader, name: string, value: string)
    requires name != "" && forall i | 0 <= i < |name| :: name[i] != ':'
    ensures Line(r, name + (":" + (" " + value))) == Field(r, name, value)
  {
    hide Field;
    var line := name + (":" + (" " + value));
    ColonBehind(name, " " + value);
    assert line[..|name|] == name && line[|name| + 1..] == " " + value && DropSpace(" " + value) == value;
  }

  lemma IdLine(r: Reader, id: string)
    requires PlainId(id)
    ensures Line(r, "id: " + id) == r.(idBuffer := id)
  {
    hide Line;
    FieldLine(r, "id", id);
    assert "id: " + id == "id" + (":" + (" " + id));
    assert '\0' !in id;
  }

  lemma DataLine(r: Reader, data: string)
    ensures Line(r, "data: " + data) == r.(data := r.data + data + "\n")
  {
    hide Line;
    FieldLine(r, "data", data);
    assert "data: " + data == "data" + (":" + (" " + data));
  }

  // ---------------------------------------------------------------- data stays on its line

  predicate Printable(s: string) {
    forall i | 0 <= i < |s| :: s[i] >= ' '
  }

  lemma {:induction false} StringPrintable(s: string, i: nat, k: nat)
    requires i <= |s| && StringTail(s, i).Some? && i <= k < StringTail(s, i).value
    ensures s[k] >= ' '
    decreases |s| - i
  {
    if k > i && s[i] != '"' {
      if s[i] != '\\' {
        StringPrintable(s, i + 1, k);
      } else if IsEscape(s[i + 1]) {
        if k >= i + 2 { StringPrintable(s, i + 2, k); }
      } else if k >= i + 6 {
        StringPrintable(s, i + 6, k);
      } else if k >= i + 2 {
        assert HexValue(s[k]) >= 0;
      }
    }
  }

  lemma {:induction false} DigitsPrintable(s: string, i: nat, k: nat)
    requires i <= |s| && i <= k < DigitsEnd(s, i)
    ensures s[k] >= ' '
    decreases |s| - i
  {
    if k > i { DigitsPrintable(s, i + 1, k); }
  }

  lemma NumberPrintable(s: string, i: nat, k: nat)
    requires i < |s| && NumberEnd(s, i).Some? && i <= k < NumberEnd(s, i).value
    ensures s[k] >= ' '
  {
    hide DigitsEnd;
    var j := NumberEnd(s, i).value;
    var q, e, f := NumberParts(s, i, j);
    if q < k < e {
      DigitsPrintable(s, q, k);
    } else if e < k < f {
      DigitsPrintable(s, e + 1, k);
    } else if f < k {
      var d := if s[f + 1] == '+' || s[f + 1] == '-' then f + 2 else f + 1;
      if d <= k { DigitsPrintable(s, d, k); }
    }
  }

  lemma ScalarPrintable(text: string)
    requires IsScalarToken(text)
    ensures Printable(text)
  {
    forall k | 0 <= k < |text| ensures text[k] >= ' ' {
      if text[0] == '"' {
        if k > 0 { StringPrintable(text, 1, k); }
      } else if text[0] == '-' || IsDigit(text[0]) {
        NumberPrintable(text, 0, k);
      } else {
        WordPrintable(text, k);
      }
    }
  }

  lemma WordPrintable(text: string, k: nat)
    requires k < |text| && text[0] != '"' && text[0] != '-' && !IsDigit(text[0]) && IsScalarToken(text)
    ensures text[k] >= ' '
  {
    if At(text, 0, "true") { AtIndex(text, 0, "true", k); }
    else if At(text, 0, "false") { AtIndex(text, 0, "false", k); }
    else { AtIndex(text, 0, "null", k); }
  }

  lemma NamePrintable(name: string)
    requires IsStringToken(name)
    ensures Printable(name)
  {
    forall k | 0 <= k < |name| ensures name[k] >= ' ' {
      if k > 0 { StringPrintable(name, 1, k); }
    }
  }

  lemma PrintableAppend(a: string, b: string)
    requires Printable(a) && Printable(b)
    ensures Printable(a + b)
  {
  }

  /** Without white space a JSON value has no control characters, so no line breaks. */
  lemma {:induction false} CompactPrintable(n: Node)
    requires WellFormed(n)
    ensures Printable(Print(Strip(n)))
    decreases n, 1
  {
    match n
    case Scalar(text) =>
      ScalarPrintable(text);
    case Group(isObject, pad, ms) =>
      CompactMembers(isObject, ms, |ms|, n);
      var s := Strip(n);
      var body := PrintMembers(isObject, s.members);
      assert s.members[..|ms|] == s.members && s.members[|ms| - |ms|..] == s.members;
      PrintableAppend(body, [Close(isObject)]);
      PrintableAppend("", body + [Close(isObject)]);
      PrintableAppend([Open(isObject)], "" + (body + [Close(isObject)]));
  }

  lemma {:induction false} CompactMembers(isObject: bool, ms: seq<Member>, k: nat, n: Node)
    requires n.Group? && n.members == ms && n.isObject == isObject && WellFormed(n) && k <= |ms|
    ensures Printable(PrintMembers(isObject, Strip(n).members[|ms| - k..]))
    decreases n, 0, k
  {
    hide Printable;
    var s := Strip(n).members;
    PrintableBits();
    if k > 0 {
      var i := |ms| - k;
      CompactMember(isObject, ms[i], n, i);
      CompactMembers(isObject, ms, k - 1, n);
      assert s[i..][0] == s[i] && s[i..][1..] == s[i + 1..];
      if k > 1 {
        PrintableAppend(",", PrintMembers(isObject, s[i + 1..]));
        PrintableAppend(PrintMember(isObject, s[i]), "," + PrintMembers(isObject, s[i + 1..]));
      }
    }
  }

  lemma PrintableBits()
    ensures Printable("") && Printable(",") && Printable(":")
  {
  }

  lemma {:induction false} CompactMember(isObject: bool, m: Member, n: Node, i: nat)
    requires n.Group? && n.isObject == isObject && WellFormed(n) && i < |n.members| && n.members[i] == m
    ensures Printable(PrintMember(isObject, Strip(n).members[i]))
    decreases m
  {
    hide Printable, IsStringToken;
    assert WellFormedMember(isObject, m);
    StripAt(n, i);
    var t := StripMember(m);
    PrintableBits();
    if isObject { NamePrintable(t.name); }
    CompactPrintable(m.value);
    assert Printable(Colon(isObject, t)) by {
      PrintableAppend(":", "");
      PrintableAppend("", ":" + "");
    }
    PrintableAppend(Print(t.value), "");
    PrintableAppend(t.name, Colon(isObject, t));
    PrintableAppend(t.name + Colon(isObject, t), Print(t.value) + "");
    PrintableAppend("", (t.name + Colon(isObject, t)) + (Print(t.value) + ""));
  }

  lemma EncodedOneLine(data: Json)
    ensures OneLine(Encoded(data))
  {
    CompactPrintable(data);
  }

  // ---------------------------------------------------------------- a batch, read back

  lemma ReadFrame(r: Reader, e: Event)
    requires Idle(r) && Sendable(e)
    ensures var id := if e.id == "" then r.idBuffer else e.id;
            Read(r, Frame(e)) == r.(idBuffer := id, lastId := id, out := r.out + [Message("message", Encoded(e.data.value), id)])
  {
    hide Encoded, Read, Line, Utf8Size;
    var data := Encoded(e.data.value);
    var head := if e.id == "" then "" else "id: " + e.id + "\n";
    var q := r.(idBuffer := if e.id == "" then r.idBuffer else e.id);
    var body := "data: " + data + "\n" + "\n";
    assert Read(r, head) == q by {
      if e.id == "" {
        ReadNothing(r);
      } else {
        ReadLine(r, "id: " + e.id);
        IdLine(r, e.id);
      }
    }
    ReadAppend(r, head, body);
    EncodedOneLine(e.data.value);
    ReadAppend(q, "data: " + data + "\n", "\n");
    ReadLine(q, "data: " + data);
    DataLine(q, data);
    var p := q.(data := "" + data + "\n");
    assert "" + "\n" == "\n";
    ReadLine(p, "");
    BlankLine(p);
    assert ("" + data + "\n")[..|data|] == data;
  }

  lemma SendableHasData(e: Event)
    requires Sendable(e)
    ensures e.data.Some?
  {
  }

  lemma ReadNothing(r: Reader)
    ensures Read(r, "") == r
  {
  }

  lemma BlankLine(r: Reader)
    ensures Line(r, "") == Dispatch(r)
  {
  }

  /** The messages a batch should arrive as, each with the id in force. */
  function Messages(es: seq<Event>, cursor: string): seq<Message>
    requires forall i | 0 <= i < |es| :: Sendable(es[i])
  {
    if es == [] then []
    else
      var e := es[|es| - 1];
      assert Sendable(e);
      Messages(es[..|es| - 1], cursor) + [Message("message", Encoded(e.data.value), CursorAfter(es, cursor))]
  }

  /** A message that tells an event: its data is JSON and says what the event's data says. */
  ghost predicate Tells(m: Message, e: Event, id: string) {
    && m.kind == "message" && m.lastId == id && e.data.Some?
    && ParseText(m.data).Some? && Words(ParseText(m.data).value) == Words(e.data.value)
  }

  /** The id in force behind the events: that of the last event that has one. */
  ghost predicate InForce(es: seq<Event>, cursor: string, id: string) {
    || (id == cursor && forall i | 0 <= i < |es| :: es[i].id == "")
    || exists k :: 0 <= k < |es| && es[k].id == id != "" && forall i | k < i < |es| :: es[i].id == ""
  }

  lemma {:induction false} CursorInForce(es: seq<Event>, cursor: string)
    ensures InForce(es, cursor, CursorAfter(es, cursor))
    decreases |es|
  {
    if es != [] && es[|es| - 1].id == "" {
      var init := es[..|es| - 1];
      CursorInForce(init, cursor);
      var id := CursorAfter(init, cursor);
      if k :| 0 <= k < |init| && init[k].id == id != "" && forall i | k < i < |init| :: init[i].id == "" {
        assert es[k].id == id;
      }
    }
  }

  ghost predicate TellsAll(ms: seq<Message>, es: seq<Event>, cursor: string) {
    |ms| == |es| && forall k | 0 <= k < |es| :: Tells(ms[k], es[k], ms[k].lastId) && InForce(es[..k + 1], cursor, ms[k].lastId)
  }

  lemma {:induction false} MessagesTell(es: seq<Event>, cursor: string)
    requires forall i | 0 <= i < |es| :: Sendable(es[i])
    ensures TellsAll(Messages(es, cursor), es, cursor)
    decreases |es|
  {
    hide Sendable, Encoded, CursorAfter, Tells, InForce;
    if es != [] {
      var n := |es| - 1;
      var init, e := es[..n], es[n];
      SendableHasData(e);
      MessagesTell(init, cursor);
      var ms, m := Messages(es, cursor), Message("message", Encoded(e.data.value), CursorAfter(es, cursor));
      MessageTells(e, m.lastId);
      CursorInForce(es, cursor);
      assert ms[n] == m && es[..n + 1] == es;
      forall k | 0 <= k < n ensures ms[k] == Messages(init, cursor)[k] && es[..k + 1] == init[..k + 1] && es[k] == init[k] {
      }
    }
  }

  lemma MessageTells(e: Event, id: string)
    requires e.data.Some?
    ensures Tells(Message("message", Encoded(e.data.value), id), e, id)
  {
    hide ParseText, Words, Print, Strip, WellFormed;
    CompactSays(e.data.value);
  }

  /** No text that says the same is shorter than what is sent. */
  lemma EncodedShortest(data: Json, text: string)
    requires ParseText(text).Some? && Words(ParseText(text).value) == Words(data)
    ensures |Encoded(data)| <= |text|
  {
    hide Words, Strip, WellFormed, ParseText, Print;
    ParsedTextWellFormed(text);
    var n := ParseText(text).value;
    WordsExactly(n, data);
    StripShorter(n);
    ParsedTextLength(text);
  }

  /** Whatever an event's data, the largest batch is a hundred events of 65536 bytes each. */
  lemma AcceptedExactly(body: Body)
    ensures Acceptable(body)
            <==> && body.Batch? && body.events.Some? && body.done.Some? && |body.events.value| <= 100
                 && forall i | 0 <= i < |body.events.value| :: Small(body.events.value[i])
  {
    hide Encoded;
    if Openable(body) {
      forall i | 0 <= i < |body.events.value| ensures Sendable(body.events.value[i]) <==> Small(body.events.value[i]) {
        if body.events.value[i].data.Some? { SizeOfBytes(Encoded(body.events.value[i].data.value)); }
      }
    }
  }

  predicate Small(e: Event) {
    e.data.Some? && |Bytes(Encoded(e.data.value))| <= 65536 && '\n' !in e.id && '\r' !in e.id && '\0' !in e.id
  }

  /**
   Reading an accepted batch's frames gives exactly its events, in order, and leaves the
   reader's last event ID at the returned cursor, also when events carry no id.
   */
  lemma {:induction false} ReadFrames(r: Reader, es: seq<Event>)
    requires Idle(r) && r.lastId == r.idBuffer && forall i | 0 <= i < |es| :: Sendable(es[i])
    ensures var cursor := CursorAfter(es, r.idBuffer);
            Read(r, Frames(es)) == r.(idBuffer := cursor, lastId := cursor, out := r.out + Messages(es, r.idBuffer))
    ensures TellsAll(Messages(es, r.idBuffer), es, r.idBuffer) && InForce(es, r.idBuffer, CursorAfter(es, r.idBuffer))
    decreases |es|
  {
    hide Read, Frame, Encoded, Sendable, TellsAll, InForce;
    MessagesTell(es, r.idBuffer);
    CursorInForce(es, r.idBuffer);
    if es == [] {
      ReadNothing(r);
      assert r.out + [] == r.out;
    } else {
      var init, e := es[..|es| - 1], es[|es| - 1];
      SendableHasData(e);
      ReadFrames(r, init);
      ReadAppend(r, Frames(init), Frame(e));
      var q := Read(r, Frames(init));
      ReadFrame(q, e);
      assert r.out + Messages(init, r.idBuffer) + [Message("message", Encoded(e.data.value), CursorAfter(es, r.idBuffer))]
          == r.out + Messages(es, r.idBuffer);
    }
  }

  /** A stream opens with a retry hint, which is a blank line's dispatch of nothing. */
  const OPENING := "retry: 3000\n\n"

  lemma ReadOpening(r: Reader)
    requires Idle(r)
    ensures Read(r, OPENING) == r.(lastId := r.idBuffer)
  {
    hide Read;
    assert OPENING == "retry: 3000" + "\n" + "\n";
    ReadAppend(r, "retry: 3000" + "\n", "\n");
    ReadLine(r, "retry: 3000");
    RetryLine(r);
    assert "" + "\n" == "\n";
    ReadLine(r, "");
  }

  lemma RetryLine(r: Reader)
    ensures Line(r, "retry: 3000") == r
  {
    hide Line;
    FieldLine(r, "retry", "3000");
    assert "retry: 3000" == "retry" + (":" + (" " + "3000"));
  }

  /** A reader at the start of a stream, its buffers empty, that last knew `cursor`. */
  function Reconnecting(cursor: string): Reader {
    Reader("", false, "", "", "", cursor, [])
  }
}
