/**
  The Redis streams behind the event channels: ids, cursors, publishing and the
  blocking read of `EventManager`.
 */
module EventStream {
  import opened Wrappers
  import opened Text
  import opened Sse

  // ---------- ids and cursors ----------

  /** A stream id: milliseconds and a sequence number. */
  datatype StreamId = StreamId(ms: nat, num: nat)

  const ZERO_ID := StreamId(0, 0)

  predicate Before(a: StreamId, b: StreamId) {
    a.ms < b.ms || (a.ms == b.ms && a.num < b.num)
  }

  function IdText(id: StreamId): string {
    Dec(id.ms) + "-" + Dec(id.num)
  }

  /** Where a read starts: after the newest entry of the moment, or after an id. */
  datatype Cursor = Latest | After(id: StreamId)

  function ParseNat(s: string): Option<nat> {
    if s != "" && AllDigits(s) then Some(ParseDec(s)) else None
  }

  /** The cursors a read accepts: "$", a whole id, or milliseconds alone. */
  function ParseCursor(text: string): Option<Cursor> {
    if text == "$" then Some(Latest)
    else
      var i := Find(text, '-');
      var ms := ParseNat(text[..i]);
      var num := if i == |text| then Some(0) else ParseNat(text[i + 1..]);
      if ms.Some? && num.Some? then Some(After(StreamId(ms.value, num.value))) else None
  }

  /** Milliseconds alone stand for the first id of that moment. */
  lemma MillisecondsAlone(ms: nat)
    ensures ParseCursor(Dec(ms)) == Some(After(StreamId(ms, 0)))
  {
    var text := Dec(ms);
    assert '-' !in text && IsDigit(text[0]);
    assert text[..|text|] == text;
    DecRoundTrip(ms);
  }

  /** A whole or a partial id, in digits. */
  predicate IsIdText(text: string, ms: string, num: string) {
    && ms != "" && AllDigits(ms) && AllDigits(num)
    && text == if num == "" then ms else ms + "-" + num
  }

  /** What a read accepts: "$", digits, or digits, a hyphen and digits. */
  lemma AcceptedCursors(text: string)
    ensures ParseCursor(text).Some? <==> text == "$" || exists ms, num :: IsIdText(text, ms, num)
  {
    hide ParseCursor, IsIdText;
    if ms, num :| IsIdText(text, ms, num) {
      IdTextParses(text, ms, num);
    }
    DollarParses();
    if text != "$" && ParseCursor(text).Some? {
      var ms, num := ParsedIsIdText(text);
    }
  }

  lemma DollarParses()
    ensures ParseCursor("$") == Some(Latest)
  {
  }

  lemma IdTextParses(text: string, ms: string, num: string)
    requires IsIdText(text, ms, num)
    ensures ParseCursor(text).Some?
  {
    assert '-' !in ms;
    if num == "" {
      assert text[..|text|] == text;
    } else {
      FindFirst(ms, '-', num);
      SplitAt(ms, '-', num);
    }
  }

  lemma ParsedIsIdText(text: string) returns (ms: string, num: string)
    requires text != "$" && ParseCursor(text).Some?
    ensures IsIdText(text, ms, num)
  {
    var i := Find(text, '-');
    ms, num := text[..i], if i == |text| then "" else text[i + 1..];
    hide Find, ParseDec;
    assert text == if num == "" then ms else ms + "-" + num;
  }

  lemma CursorRoundTrip(id: StreamId)
    ensures ParseCursor(IdText(id)) == Some(After(id))
  {
    var a, b := Dec(id.ms), Dec(id.num);
    FindFirst(a, '-', b);
    SplitAt(a, '-', b);
    DecRoundTrip(id.ms);
    DecRoundTrip(id.num);
    assert IsDigit(a[0]);
    assert IdText(id)[0] == a[0];
  }

  lemma IdTextIsClean(id: StreamId)
    ensures CleanText(IdText(id)) && '\r' !in IdText(id) && '\0' !in IdText(id)
  {
    var a, b := Dec(id.ms), Dec(id.num);
    assert IsDigit(a[0]) && IsDigit(b[|b| - 1]);
  }

  // ---------- logs ----------

  datatype Entry = Entry(id: StreamId, msg: string, event: string)

  function LastId(log: seq<Entry>): StreamId {
    if log == [] then ZERO_ID else log[|log| - 1].id
  }

  /** The id `XADD` assigns at clock time `now`. */
  function NextId(last: StreamId, now: nat): (id: StreamId)
    ensures Before(last, id)
  {
    if now > last.ms then StreamId(now, 0) else StreamId(last.ms, last.num + 1)
  }

  /** It is the least id above the last one that is not before the clock. */
  lemma NextIdIsLeast(last: StreamId, now: nat, x: StreamId)
    ensures now <= NextId(last, now).ms && Before(last, NextId(last, now))
    ensures Before(last, x) && now <= x.ms ==> x == NextId(last, now) || Before(NextId(last, now), x)
  {
  }

  /** Ids grow strictly from the first entry on. */
  predicate Ordered(log: seq<Entry>) {
    && (forall i | 0 <= i < |log| :: Before(ZERO_ID, log[i].id))
    && (forall i, j | 0 <= i < j < |log| :: Before(log[i].id, log[j].id))
  }

  /** The event a reader builds from an entry. */
  function ToEvent(en: Entry): Event {
    Event(en.msg, Some(en.event), Some(IdText(en.id)))
  }

  function Events(log: seq<Entry>): (es: seq<Event>)
    ensures |es| == |log|
    ensures forall i | 0 <= i < |log| :: es[i] == ToEvent(log[i])
  {
    seq(|log|, i requires 0 <= i < |log| => ToEvent(log[i]))
  }

  /** How many entries of an ordered log a cursor has passed. */
  function Passed(log: seq<Entry>, id: StreamId): (n: nat)
    ensures n <= |log|
  {
    if log == [] || Before(id, log[0].id) then 0 else 1 + Passed(log[1..], id)
  }

  /** The entries above `id`, oldest first. */
  function EntriesAfter(log: seq<Entry>, id: StreamId): seq<Entry> {
    log[Passed(log, id)..]
  }

  /** Exactly the entries with a greater id lie after a cursor. */
  lemma {:induction false} AfterMeansGreater(log: seq<Entry>, id: StreamId, i: nat)
    requires Ordered(log) && i < |log|
    ensures Passed(log, id) <= i <==> Before(id, log[i].id)
  {
    if Before(id, log[0].id) {
      assert i > 0 ==> Before(log[0].id, log[i].id);
    } else if i > 0 {
      AfterMeansGreater(log[1..], id, i - 1);
    }
  }

  lemma {:induction false} PassedGrows(log: seq<Entry>, log': seq<Entry>, id: StreamId)
    requires Ordered(log') && log <= log'
    ensures Passed(log, id) <= Passed(log', id)
    ensures Passed(log, id) < |log| ==> Passed(log', id) == Passed(log, id)
  {
    if log != [] && !Before(id, log[0].id) {
      assert log'[0] == log[0] && log[1..] <= log'[1..];
      PassedGrows(log[1..], log'[1..], id);
    }
  }

  lemma {:induction false} PassedOwnId(log: seq<Entry>, i: nat)
    requires Ordered(log) && i < |log|
    ensures Passed(log, log[i].id) == i + 1
  {
    if i == 0 {
      if log[1..] != [] {
        assert Before(log[0].id, log[1].id);
      }
    } else {
      assert Before(log[0].id, log[i].id);
      PassedOwnId(log[1..], i - 1);
    }
  }

  /** Above the newest entry of a log lies exactly what was added since. */
  lemma AfterNewest(log: seq<Entry>, log': seq<Entry>)
    requires Ordered(log') && log <= log'
    ensures EntriesAfter(log', LastId(log)) == log'[|log|..]
  {
    if log != [] {
      PassedOwnId(log', |log| - 1);
    }
  }

  // ---------- channels ----------

  type Channels = map<string, seq<Entry>>

  function LogOf(streams: Channels, channel: string): seq<Entry> {
    if channel in streams then streams[channel] else []
  }

  /** Somebody publishes `evt` on `channel` at clock time `now`. */
  datatype Publication = Publication(channel: string, evt: Event, now: nat)

  function EntryFor(log: seq<Entry>, evt: Event, now: nat): Entry {
    Entry(NextId(LastId(log), now), evt.data, if evt.event.Some? then evt.event.value else "")
  }

  function Published(streams: Channels, p: Publication): Channels {
    var log := LogOf(streams, p.channel);
    streams[p.channel := log + [EntryFor(log, p.evt, p.now)]]
  }

  function PublishedAll(streams: Channels, ps: seq<Publication>): Channels {
    if ps == [] then streams
    else Published(PublishedAll(streams, ps[..|ps| - 1]), ps[|ps| - 1])
  }

  ghost predicate AllOrdered(streams: Channels) {
    forall c <- streams :: Ordered(streams[c])
  }

  lemma PublishKeepsOrder(streams: Channels, p: Publication)
    requires AllOrdered(streams)
    ensures AllOrdered(Published(streams, p))
  {
    var log := LogOf(streams, p.channel);
    var en := EntryFor(log, p.evt, p.now);
    forall i | 0 <= i < |log| ensures Before(log[i].id, en.id) {
      assert i < |log| - 1 ==> Before(log[i].id, log[|log| - 1].id);
    }
    assert Before(ZERO_ID, en.id);
  }

  /** Over any run of publications every channel stays ordered, only grows, and is touched only by its own. */
  lemma {:induction false} PublicationsExtend(streams: Channels, ps: seq<Publication>, channel: string)
    requires AllOrdered(streams)
    ensures AllOrdered(PublishedAll(streams, ps))
    ensures LogOf(streams, channel) <= LogOf(PublishedAll(streams, ps), channel)
    ensures |LogOf(PublishedAll(streams, ps), channel)| == |LogOf(streams, channel)| + |OnChannel(ps, channel)|
  {
    if ps != [] {
      PublicationsExtend(streams, ps[..|ps| - 1], channel);
      PublishKeepsOrder(PublishedAll(streams, ps[..|ps| - 1]), ps[|ps| - 1]);
    }
  }

  /**
    The k-th entry that a run of publications adds to a channel carries the data of the k-th
    publication on that channel and its type, where an absent type is empty.
   */
  lemma {:induction false} EntriesArePublications(streams: Channels, ps: seq<Publication>, channel: string, k: nat)
    requires k < |OnChannel(ps, channel)|
    ensures var log, log' := LogOf(streams, channel), LogOf(PublishedAll(streams, ps), channel);
            var evt := OnChannel(ps, channel)[k].evt;
            && |log'| == |log| + |OnChannel(ps, channel)|
            && log <= log'
            && log'[|log| + k].msg == evt.data
            && log'[|log| + k].event == (match evt.event case None => "" case Some(v) => v)
  {
    var n := |ps| - 1;
    var before := OnChannel(ps[..n], channel);
    Grown(streams, ps, channel);
    Grown(streams, ps[..n], channel);
    LastPublication(streams, ps, channel);
    if k < |before| {
      EntriesArePublications(streams, ps[..n], channel, k);
    }
    hide PublishedAll, LogOf;
  }

  /** What the last publication of a run does to a channel. */
  lemma LastPublication(streams: Channels, ps: seq<Publication>, channel: string)
    requires ps != []
    ensures var p, n := ps[|ps| - 1], |ps| - 1;
            var before := LogOf(PublishedAll(streams, ps[..n]), channel);
            && LogOf(PublishedAll(streams, ps), channel) ==
               (if p.channel == channel then before + [EntryFor(before, p.evt, p.now)] else before)
            && OnChannel(ps, channel) == OnChannel(ps[..n], channel) + (if p.channel == channel then [p] else [])
  {
  }

  lemma {:induction false} Grown(streams: Channels, ps: seq<Publication>, channel: string)
    ensures LogOf(streams, channel) <= LogOf(PublishedAll(streams, ps), channel)
    ensures |LogOf(PublishedAll(streams, ps), channel)| == |LogOf(streams, channel)| + |OnChannel(ps, channel)|
  {
    if ps != [] {
      Grown(streams, ps[..|ps| - 1], channel);
    }
  }

  function OnChannel(ps: seq<Publication>, channel: string): seq<Publication> {
    if ps == [] then []
    else OnChannel(ps[..|ps| - 1], channel) + (if ps[|ps| - 1].channel == channel then [ps[|ps| - 1]] else [])
  }

  lemma {:induction false} PublishedAllAppend(streams: Channels, a: seq<Publication>, b: seq<Publication>)
    ensures PublishedAll(streams, a + b) == PublishedAll(PublishedAll(streams, a), b)
  {
    if b == [] {
      assert a + b == a;
    } else {
      assert (a + b)[..|a + b| - 1] == a + b[..|b| - 1];
      PublishedAllAppend(streams, a, b[..|b| - 1]);
    }
  }

  // ---------- the event manager ----------

  /** What a blocking read comes back with. */
  datatype Reply = BadCursor | TimedOut | Batch(events: seq<Event>)

  function Resolve(cursor: Cursor, log: seq<Entry>): StreamId {
    match cursor case Latest => LastId(log) case After(id) => id
  }

  /** A blocking read: the cursor is resolved, others publish `meanwhile`, then what lies above it is served. */
  function Serve(streams: Channels, channel: string, msgId: string, meanwhile: seq<Publication>): (Channels, Reply) {
    match ParseCursor(msgId)
    case None => (streams, BadCursor)
    case Some(cursor) =>
      var after := PublishedAll(streams, meanwhile);
      var es := Events(EntriesAfter(LogOf(after, channel), Resolve(cursor, LogOf(streams, channel))));
      (after, if es == [] then TimedOut else Batch(es))
  }

  method BuildEvents(rsp: seq<Entry>) returns (events: seq<Event>)
    ensures events == Events(rsp)
  {
    events := [];
    for i := 0 to |rsp|
      invariant |events| == i
      invariant forall j | 0 <= j < i :: events[j] == ToEvent(rsp[j])
    {
      var msg := rsp[i];
      events := events + [Event(msg.msg, Some(msg.event), Some(IdText(msg.id)))];
    }
  }

  class EventManager {
    var streams: Channels

    constructor ()
      ensures streams == map[]
    {
      streams := map[];
    }

    ghost predicate Valid() reads this {
      AllOrdered(streams)
    }

    function Log(channel: string): seq<Entry> reads this {
      LogOf(streams, channel)
    }

    method Publish(channel: string, evt: Event, now: nat)
      requires Valid()
      modifies this
      ensures Valid()
      ensures streams == Published(old(streams), Publication(channel, evt, now))
    {
      PublishKeepsOrder(streams, Publication(channel, evt, now));
      var eventType := if evt.event.Some? then evt.event.value else "";
      var log := Log(channel);
      streams := streams[channel := log + [Entry(NextId(LastId(log), now), evt.data, eventType)]];
    }

    method Read(channel: string, msgId: string, meanwhile: seq<Publication>) returns (reply: Reply)
      requires Valid()
      modifies this
      ensures Valid()
      ensures (streams, reply) == Serve(old(streams), channel, msgId, meanwhile)
    {
      var cursor := ParseCursor(msgId);
      if cursor.None? {
        return BadCursor;
      }
      var from := Resolve(cursor.value, Log(channel));
      for i := 0 to |meanwhile|
        invariant Valid() && streams == PublishedAll(old(streams), meanwhile[..i])
      {
        assert meanwhile[..i + 1][..i] == meanwhile[..i];
        var p := meanwhile[i];
        Publish(p.channel, p.evt, p.now);
      }
      assert meanwhile[..|meanwhile|] == meanwhile;
      var rsp := EntriesAfter(Log(channel), from);
      if rsp == [] {
        return TimedOut;
      }
      var events := BuildEvents(rsp);
      return Batch(events);
    }
  }
}
