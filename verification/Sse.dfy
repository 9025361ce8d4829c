/** One server-sent event as text: the printer and the parser of `EventManager`. */
module Sse {
  import opened Wrappers
  import opened Text

  datatype Event = Event(data: string, event: Option<string>, id: Option<string>)

  // ---------- one message ----------

  function DataBlock(data: string): string { "data: " + data + "\n" + "\n" }

  function EventBlock(event: Option<string>): string {
    match event case None => "" case Some(v) => "event: " + v + "\n"
  }

  function IdBlock(id: Option<string>): string {
    match id case None => "" case Some(v) => "id: " + v + "\n"
  }

  /** `format_sse` */
  function FormatSse(e: Event): string {
    IdBlock(e.id) + (EventBlock(e.event) + DataBlock(e.data))
  }

  /** `line.split(":", maxsplit=1)[1].strip()` */
  function FieldValue(line: string): (v: string)
    requires ':' in line
    ensures TrimmedOf(v, IsSpace)
    ensures forall c <- v :: c in line
  {
    var rest := line[Find(line, ':') + 1..];
    StripWithin(rest, IsSpace);
    Strip(rest, IsSpace)
  }

  /** The value on the last line that carries `key`, if any line does. */
  function LastField(lines: seq<string>, key: string): (r: Option<string>)
    requires ':' in key
    ensures r.Some? ==> TrimmedOf(r.value, IsSpace)
    ensures r.Some? && (forall l <- lines :: '\n' !in l) ==> '\n' !in r.value
    ensures r.Some? && (forall l <- lines :: '\r' !in l) ==> '\r' !in r.value
  {
    if lines == [] then None
    else
      var line := lines[|lines| - 1];
      if StartsWith(line, key) then
        assert ':' in line by { assert line[..|key|] == key; }
        Some(FieldValue(line))
      else LastField(lines[..|lines| - 1], key)
  }

  /** What `from_sse2event` builds; `None` when there is no data line, which the event type rejects. */
  function ParseSse(msg: string): Option<Event> {
    var lines := Split(msg, '\n');
    match LastField(lines, "data:")
    case None => None
    case Some(data) => Some(Event(data, LastField(lines, "event:"), LastField(lines, "id:")))
  }

  lemma DistinctKeys(line: string)
    ensures StartsWith(line, "data:") ==> !StartsWith(line, "event:") && !StartsWith(line, "id:")
    ensures StartsWith(line, "event:") ==> !StartsWith(line, "id:")
  {
    if |line| > 0 {
      assert StartsWith(line, "data:") ==> line[0] == 'd';
      assert StartsWith(line, "event:") ==> line[0] == 'e';
      assert StartsWith(line, "id:") ==> line[0] == 'i';
    }
  }

  lemma LastFieldStep(lines: seq<string>, i: nat, key: string)
    requires i < |lines| && ':' in key
    ensures StartsWith(lines[i], key) ==> ':' in lines[i]
    ensures LastField(lines[..i + 1], key) ==
            if StartsWith(lines[i], key) then Some(FieldValue(lines[i])) else LastField(lines[..i], key)
  {
    assert lines[..i + 1][..i] == lines[..i];
    if StartsWith(lines[i], key) {
      assert lines[i][..|key|] == key;
    }
  }

  method FromSse2Event(msg: string) returns (r: Option<Event>)
    ensures r == ParseSse(msg)
  {
    var event: Option<string>, id: Option<string>, data: Option<string> := None, None, None;
    var lines := Split(msg, '\n');
    for i := 0 to |lines|
      invariant data == LastField(lines[..i], "data:")
      invariant event == LastField(lines[..i], "event:")
      invariant id == LastField(lines[..i], "id:")
    {
      var line := lines[i];
      LastFieldStep(lines, i, "data:");
      LastFieldStep(lines, i, "event:");
      LastFieldStep(lines, i, "id:");
      DistinctKeys(line);
      if StartsWith(line, "data:") {
        data := Some(FieldValue(line));
      } else if StartsWith(line, "event:") {
        event := Some(FieldValue(line));
      } else if StartsWith(line, "id:") {
        id := Some(FieldValue(line));
      }
    }
    assert lines[..|lines|] == lines;
    r := if data.None? then None else Some(Event(data.value, event, id));
  }

  /** A field the message format can carry: one line, trimmed. */
  predicate CleanText(s: string) {
    '\n' !in s && TrimmedOf(s, IsSpace)
  }

  predicate CleanOption(o: Option<string>) {
    o.Some? ==> CleanText(o.value)
  }

  predicate Clean(e: Event) {
    CleanText(e.data) && CleanOption(e.event) && CleanOption(e.id)
  }

  predicate IsKey(key: string) { key == "data:" || key == "event:" || key == "id:" }

  lemma FieldLine(key: string, v: string)
    requires IsKey(key)
    requires TrimmedOf(v, IsSpace)
    ensures ':' in key + " " + v && FieldValue(key + " " + v) == v
  {
    var name := key[..|key| - 1];
    assert key == name + [':'] && ':' !in name;
    assert key + " " + v == name + [':'] + (" " + v);
    NamedValue(name, v);
  }

  lemma NamedValue(name: string, v: string)
    requires ':' !in name && TrimmedOf(v, IsSpace)
    ensures ':' in name + [':'] + (" " + v) && FieldValue(name + [':'] + (" " + v)) == v
  {
    StripLeadingSpace(v);
    hide Strip, TrimmedOf, IsSpace;
    NamedRest(name, " " + v);
  }

  lemma NamedRest(name: string, rest: string)
    requires ':' !in name
    ensures ':' in name + [':'] + rest && FieldValue(name + [':'] + rest) == Strip(rest, IsSpace)
  {
    FindFirst(name, ':', rest);
    SplitAt(name, ':', rest);
    hide Strip, Find;
  }

  lemma StripLeadingSpace(v: string)
    requires TrimmedOf(v, IsSpace)
    ensures Strip(" " + v, IsSpace) == v
  {
    assert (" " + v)[1..] == v;
    assert LStrip(" " + v, IsSpace) == LStrip(v, IsSpace);
  }

  /** The lines of a printed message. */
  function MessageLines(e: Event): (ls: seq<string>)
    ensures 3 <= |ls| <= 5
  {
    (if e.id.Some? then ["id: " + e.id.value] else []) +
    ((if e.event.Some? then ["event: " + e.event.value] else []) +
     ["data: " + e.data, "", ""])
  }

  lemma SplitBlock(line: string, rest: string)
    requires '\n' !in line
    ensures Split(line + "\n" + rest, '\n') == [line] + Split(rest, '\n')
  {
    SplitStep(line, '\n', rest);
  }

  lemma SplitData(data: string)
    requires '\n' !in data
    ensures Split(DataBlock(data), '\n') == ["data: " + data, "", ""]
  {
    SplitBlock("data: " + data, "\n");
    SplitBlock("", "");
    assert "" + "\n" + "" == "\n";
  }

  lemma SplitMessage(e: Event)
    requires '\n' !in e.data
    requires e.event.Some? ==> '\n' !in e.event.value
    requires e.id.Some? ==> '\n' !in e.id.value
    ensures Split(FormatSse(e), '\n') == MessageLines(e)
  {
    hide Split;
    var d := DataBlock(e.data);
    var ed := EventBlock(e.event) + d;
    SplitData(e.data);
    if e.event.Some? {
      SplitBlock("event: " + e.event.value, d);
    } else {
      assert ed == d;
    }
    if e.id.Some? {
      SplitBlock("id: " + e.id.value, ed);
    } else {
      assert FormatSse(e) == ed;
    }
  }

  lemma LastFieldSnoc(ls: seq<string>, line: string, key: string)
    requires ':' in key
    ensures StartsWith(line, key) ==> ':' in line
    ensures LastField(ls + [line], key) == if StartsWith(line, key) then Some(FieldValue(line)) else LastField(ls, key)
  {
    LastFieldStep(ls + [line], |ls|, key);
    assert (ls + [line])[..|ls| + 1] == ls + [line] && (ls + [line])[..|ls|] == ls;
  }

  lemma BlankLinesCarryNothing(ls: seq<string>, key: string)
    requires ':' in key
    ensures LastField(ls + ["", ""], key) == LastField(ls, key)
  {
    assert ls + ["", ""] == (ls + [""]) + [""];
    LastFieldSnoc(ls + [""], "", key);
    LastFieldSnoc(ls, "", key);
  }

  lemma OwnKey(key: string, v: string, other: string)
    requires IsKey(key) && IsKey(other)
    ensures ':' in other
    ensures StartsWith(key + " " + v, other) <==> other == key
  {
    var line := key + " " + v;
    assert line[0] == key[0];
    assert StartsWith(line, other) ==> line[0] == other[0];
    assert line[..|key|] == key;
    assert other[|other| - 1] == ':';
  }

  /** A field line carries its field, and hides no other one. */
  lemma FieldLineFields(ls: seq<string>, key: string, v: string, other: string)
    requires IsKey(key) && IsKey(other) && TrimmedOf(v, IsSpace) && ':' in other
    ensures LastField(ls + [key + " " + v], other) == if other == key then Some(v) else LastField(ls, other)
  {
    hide LastField, FieldValue, StartsWith;
    FieldLine(key, v);
    OwnKey(key, v, other);
    LastFieldSnoc(ls, key + " " + v, other);
  }

  /** The lines of a message before the blank ones. */
  function FieldLines(e: Event): seq<string> {
    (if e.id.Some? then ["id:" + " " + e.id.value] else []) +
    (if e.event.Some? then ["event:" + " " + e.event.value] else []) +
    ["data:" + " " + e.data]
  }

  lemma MessageLinesAre(e: Event)
    ensures MessageLines(e) == FieldLines(e) + ["", ""]
  {
    assert "id:" + " " == "id: " && "event:" + " " == "event: " && "data:" + " " == "data: ";
  }

  lemma FieldsOfMessage(e: Event)
    requires Clean(e)
    ensures LastField(FieldLines(e), "data:") == Some(e.data)
    ensures LastField(FieldLines(e), "event:") == e.event
    ensures LastField(FieldLines(e), "id:") == e.id
  {
    hide LastField, FieldLines, Clean;
    FieldOfMessage(e, "data:");
    FieldOfMessage(e, "event:");
    FieldOfMessage(e, "id:");
    DistinctNames();
  }

  lemma DistinctNames()
    ensures "data:" != "event:" && "data:" != "id:" && "event:" != "id:"
  {
    assert "data:"[0] == 'd' && "event:"[0] == 'e' && "id:"[0] == 'i';
  }

  lemma FieldOfMessage(e: Event, key: string)
    requires Clean(e) && IsKey(key)
    ensures ':' in key
    ensures LastField(FieldLines(e), key) ==
            if key == "data:" then Some(e.data) else if key == "event:" then e.event else e.id
  {
    assert LastField([], key) == None;
    hide LastField, TrimmedOf;
    var il := if e.id.Some? then ["id:" + " " + e.id.value] else [];
    var el := if e.event.Some? then ["event:" + " " + e.event.value] else [];
    FieldLineFields(il + el, "data:", e.data, key);
    if e.event.Some? { FieldLineFields(il, "event:", e.event.value, key); } else { assert il + el == il; }
    if e.id.Some? { FieldLineFields([], "id:", e.id.value, key); assert [] + il == il; }
  }

  /** The parser undoes the printer exactly on the events whose fields are trimmed single lines. */
  lemma MessageRoundTrip(e: Event)
    ensures ParseSse(FormatSse(e)) == Some(e) <==> Clean(e)
  {
    if Clean(e) {
      hide LastField, FormatSse, Split, FieldLines, MessageLines;
      SplitMessage(e);
      MessageLinesAre(e);
      FieldsOfMessage(e);
      BlankLinesCarryNothing(FieldLines(e), "data:");
      BlankLinesCarryNothing(FieldLines(e), "event:");
      BlankLinesCarryNothing(FieldLines(e), "id:");
    }
  }
}
