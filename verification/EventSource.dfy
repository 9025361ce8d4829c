/**
  A reader of event streams written from sections 9.2.5 and 9.2.6 of the WHATWG
  HTML Living Standard alone, and its agreement with what the server prints and
  the client yields.
 */
module EventSource {
  import opened Wrappers
  import opened Text
  import opened Sse
  import opened SseClient

  /** A dispatched event: its data, its type and the last event ID at that moment. */
  datatype Message = Message(data: string, kind: string, lastEventId: string)

  /** The data buffer, the event type buffer and the last event ID buffer. */
  datatype Buffers = Buffers(data: string, kind: string, lastEventId: string)

  function ProcessField(field: string, value: string, b: Buffers): Buffers {
    if field == "event" then b.(kind := value)
    else if field == "data" then b.(data := b.data + value + "\n")
    else if field == "id" then if '\0' in value then b else b.(lastEventId := value)
    else b
  }

  function ProcessLine(line: string, b: Buffers): Buffers {
    var i := Find(line, ':');
    if i == |line| then ProcessField(line, "", b)
    else if i == 0 then b
    else
      var value := line[i + 1..];
      ProcessField(line[..i], if StartsWith(value, " ") then value[1..] else value, b)
  }

  /** Lines are given without their terminators; what follows the last blank line is discarded. */
  function Interpret(lines: seq<string>, b: Buffers): seq<Message> {
    if lines == [] then []
    else if lines[0] != "" then Interpret(lines[1..], ProcessLine(lines[0], b))
    else
      var next := Interpret(lines[1..], Buffers("", "", b.lastEventId));
      if b.data == "" then next
      else [Message(b.data[..|b.data| - 1], if b.kind == "" then "message" else b.kind, b.lastEventId)] + next
  }

  /** The terminated lines of a stream. */
  function SourceLines(lines: seq<string>): seq<string> {
    if lines == [] then []
    else if EndsWith(lines[0], "\n") then [lines[0][..|lines[0]| - 1]] + SourceLines(lines[1..])
    else SourceLines(lines[1..])
  }

  function Read(body: string, b: Buffers): seq<Message> {
    Interpret(SourceLines(IterLines(body)), b)
  }

  predicate OneLine(s: string) { '\n' !in s && '\r' !in s }

  /** What the standard can carry: no line terminators, no NULL in the ID; edge spaces are kept. */
  predicate Carried(e: Event) {
    && OneLine(e.data)
    && (e.event.Some? ==> OneLine(e.event.value))
    && (e.id.Some? ==> OneLine(e.id.value) && '\0' !in e.id.value)
  }

  /** The messages a conforming reader should dispatch for `es`. */
  function Meaning(es: seq<Event>, lastEventId: string): seq<Message> {
    if es == [] then []
    else
      var e := es[0];
      var id := if e.id.Some? then e.id.value else lastEventId;
      var kind := if e.event.Some? && e.event.value != "" then e.event.value else "message";
      [Message(e.data, kind, id)] + Meaning(es[1..], id)
  }

  lemma ReadLine(a: string, rest: string, b: Buffers)
    requires a != "" && OneLine(a)
    ensures Read((a + "\n") + rest, b) == Read(rest, ProcessLine(a, b))
  {
    IterLine(a, rest);
    var lines := [a + "\n"] + IterLines(rest);
    assert lines[1..] == IterLines(rest);
    assert (a + "\n")[..|a|] == a && EndsWith(a + "\n", "\n");
    assert ([a] + SourceLines(IterLines(rest)))[1..] == SourceLines(IterLines(rest));
  }

  lemma ReadBlank(rest: string, b: Buffers)
    requires b.data != ""
    ensures Read("\n" + rest, b) ==
            [Message(b.data[..|b.data| - 1], if b.kind == "" then "message" else b.kind, b.lastEventId)]
            + Read(rest, Buffers("", "", b.lastEventId))
  {
    IterLine("", rest);
    assert "" + "\n" + rest == "\n" + rest && "" + "\n" == "\n";
    var lines := ["\n"] + IterLines(rest);
    assert lines[1..] == IterLines(rest);
    assert "\n"[..0] == "" && EndsWith("\n", "\n");
    assert ([""] + SourceLines(IterLines(rest)))[1..] == SourceLines(IterLines(rest));
  }

  /** Exactly one space after the colon is removed. */
  lemma FieldOfLine(field: string, value: string, b: Buffers)
    requires field != "" && ':' !in field
    ensures ProcessLine(field + ": " + value, b) == ProcessField(field, value, b)
  {
    var line := field + ": " + value;
    assert line == field + [':'] + (" " + value);
    FindFirst(field, ':', " " + value);
    assert line[..|field|] == field && line[|field| + 1..] == " " + value;
    assert (" " + value)[1..] == value;
    assert StartsWith(" " + value, " ");
  }

  lemma ReadField(field: string, value: string, rest: string, b: Buffers)
    requires field != "" && ':' !in field && OneLine(field) && OneLine(value)
    ensures Read((field + ": " + value + "\n") + rest, b) == Read(rest, ProcessField(field, value, b))
  {
    ReadLine(field + ": " + value, rest, b);
    FieldOfLine(field, value, b);
  }

  lemma ReadId(id: Option<string>, rest: string, b: Buffers)
    requires id.Some? ==> OneLine(id.value) && '\0' !in id.value
    ensures Read(IdBlock(id) + rest, b) == Read(rest, if id.Some? then b.(lastEventId := id.value) else b)
  {
    hide Read;
    if id.Some? {
      ReadField("id", id.value, rest, b);
      assert "id" + ": " == "id: ";
    } else {
      assert "" + rest == rest;
    }
  }

  lemma ReadEvent(event: Option<string>, rest: string, b: Buffers)
    requires event.Some? ==> OneLine(event.value)
    ensures Read(EventBlock(event) + rest, b) == Read(rest, if event.Some? then b.(kind := event.value) else b)
  {
    hide Read;
    if event.Some? {
      ReadField("event", event.value, rest, b);
      assert "event" + ": " == "event: ";
    } else {
      assert "" + rest == rest;
    }
  }

  lemma FillData(data: string, rest: string, b: Buffers)
    requires OneLine(data) && b.data == ""
    ensures Read(("data" + ": " + data + "\n") + rest, b) == Read(rest, b.(data := data + "\n"))
  {
    hide Read;
    ReadField("data", data, rest, b);
    assert "" + data + "\n" == data + "\n";
  }

  lemma ReadData(data: string, rest: string, b: Buffers)
    requires OneLine(data) && b.data == ""
    ensures Read(DataBlock(data) + rest, b) ==
            [Message(data, if b.kind == "" then "message" else b.kind, b.lastEventId)]
            + Read(rest, Buffers("", "", b.lastEventId))
  {
    var full := data + "\n";
    calc {
      Read(DataBlock(data) + rest, b);
      { assert "data" + ": " == "data: "; Associative("data: " + data + "\n", "\n", rest); }
      Read(("data" + ": " + data + "\n") + ("\n" + rest), b);
      { FillData(data, "\n" + rest, b); }
      Read("\n" + rest, b.(data := full));
    }
    ReadBlank(rest, b.(data := full));
    assert full[..|full| - 1] == data;
  }

  /** Reading one printed message with the standard's buffers. */
  lemma ReadMessage(e: Event, rest: string, lastEventId: string)
    requires Carried(e)
    ensures var m := Meaning([e], lastEventId)[0];
            Read(FormatSse(e) + rest, Buffers("", "", lastEventId)) == [m] + Read(rest, Buffers("", "", m.lastEventId))
  {
    var i, v, d := IdBlock(e.id), EventBlock(e.event), DataBlock(e.data);
    Associative(i, v + d, rest);
    Associative(v, d, rest);
    ReadId(e.id, v + (d + rest), Buffers("", "", lastEventId));
    var id := if e.id.Some? then e.id.value else lastEventId;
    ReadEvent(e.event, d + rest, Buffers("", "", id));
    var kind := if e.event.Some? then e.event.value else "";
    ReadData(e.data, rest, Buffers("", kind, id));
  }

  /** A conforming reader dispatches one message for each event printed, with its data, type and ID. */
  lemma {:induction false} StandardReading(es: seq<Event>, lastEventId: string)
    requires forall e <- es :: Carried(e)
    ensures Read(Wire(es), Buffers("", "", lastEventId)) == Meaning(es, lastEventId)
  {
    if es != [] {
      ReadMessage(es[0], Wire(es[1..]), lastEventId);
      StandardReading(es[1..], Meaning([es[0]], lastEventId)[0].lastEventId);
    }
  }

  /** On clean events the client and a conforming reader understand the same thing. */
  lemma ClientAgreesWithStandard(es: seq<Event>)
    requires AllWireClean(es) && !HasExit(es)
    requires forall e <- es :: e.id.Some? ==> '\0' !in e.id.value
    ensures Read(Wire(es), Buffers("", "", "")) == Meaning(Client(IterLines(Wire(es)), "").events, "")
  {
    assert forall e <- es :: WireClean(e) ==> Carried(e);
    StandardReading(es, "");
    StreamRoundTripExact(es);
  }
}
