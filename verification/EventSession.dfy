/**
  The listening endpoint, and the path of an event from publisher to client:
  `event_listen` on the server, `events_listen` on the client, in between any
  interleaving of publications with the server's reads.
 */
module EventSession {
  import opened Wrappers
  import opened Text
  import opened Sse
  import opened SseClient
  import opened EventStream
  import opened SecureName

  predicate IsControlExit(e: Event) {
    e.event == Some("control") && e.data == "exit"
  }

  predicate HasControlExit(es: seq<Event>) {
    exists i | 0 <= i < |es| :: IsControlExit(es[i])
  }

  /** Why the server ended a response. */
  datatype Stop = Refused | ExitSent | NothingArrived

  /** Everything published while the first `rounds` reads were waiting. */
  function During(schedule: seq<seq<Publication>>, rounds: nat): seq<Publication> {
    if rounds == 0 then [] else During(schedule, rounds - 1) + Meanwhile(schedule, rounds - 1)
  }

  function Meanwhile(schedule: seq<seq<Publication>>, i: nat): seq<Publication> {
    if i < |schedule| then schedule[i] else []
  }

  /** The inner loop of the endpoint: print a batch, and notice the control message. */
  method SendBatch(events: seq<Event>) returns (text: string, exit: bool)
    ensures text == Wire(events)
    ensures exit <==> HasControlExit(events)
  {
    hide FormatSse;
    text, exit := "", false;
    for i := 0 to |events|
      invariant text == Wire(events[..i])
      invariant exit <==> HasControlExit(events[..i])
    {
      var r := events[i];
      if r.event == Some("control") && r.data == "exit" {
        exit := true;
      }
      text := text + FormatSse(r);
      assert events[..i + 1] == events[..i] + [r];
      MessageSnoc(events[..i], r);
    }
    assert events[..|events|] == events;
  }

  lemma MessageSnoc(es: seq<Event>, e: Event)
    ensures Wire(es + [e]) == Wire(es) + FormatSse(e)
    ensures HasControlExit(es + [e]) <==> HasControlExit(es) || IsControlExit(e)
  {
    ConcatMapAppend(es, [e], FormatSse);
    assert ConcatMap([e], FormatSse) == FormatSse(e) + "";
    ControlExitAnywhere(es, [e]);
    assert [e][0] == e;
  }

  /** The control message is looked for in every batch, so it is never missed. */
  lemma ControlExitAnywhere(a: seq<Event>, b: seq<Event>)
    ensures HasControlExit(a + b) <==> HasControlExit(a) || HasControlExit(b)
  {
    assert forall i | 0 <= i < |a| :: (a + b)[i] == a[i];
    assert forall i | 0 <= i < |b| :: (a + b)[|a| + i] == b[i];
    assert forall i | |a| <= i < |a + b| :: (a + b)[i] == b[i - |a|];
  }

  /** What a read serves: above the start at first, above the newest entry afterwards. */
  function Served(log: seq<Entry>, log': seq<Entry>, from: StreamId, first: bool): seq<Event> {
    Events(EntriesAfter(log', if first then from else LastId(log)))
  }

  lemma EventsSlice(log: seq<Entry>, log': seq<Entry>, p: nat)
    requires log <= log' && p <= |log|
    ensures Events(log'[p..]) == Events(log[p..]) + Events(log'[|log|..])
  {
    assert log'[p..] == log[p..] + log'[|log|..];
  }

  lemma NewestSent(log: seq<Entry>, id: StreamId)
    ensures EntriesAfter(log, id) != [] ==> IdOf(Events(EntriesAfter(log, id))) == IdText(LastId(log))
  {
    hide IdText;
    var p := Passed(log, id);
    assert p < |log| ==> log[p..][|log| - p - 1] == log[|log| - 1];
  }

  /** One more read adds what it serves to what was sent, and nothing is skipped or repeated. */
  lemma ReadExtends(log: seq<Entry>, log': seq<Entry>, from: StreamId)
    requires Ordered(log') && log <= log'
    requires Passed(log, from) < |log|
    ensures Events(EntriesAfter(log', from)) == Events(EntriesAfter(log, from)) + Served(log, log', from, false)
    ensures |Served(log, log', from, false)| == |log'| - |log|
  {
    PassedGrows(log, log', from);
    PassedOwnId(log', |log| - 1);
    hide Ordered, Passed, ToEvent;
    assert EntriesAfter(log', LastId(log)) == log'[|log|..];
    EventsSlice(log, log', Passed(log, from));
  }

  // ---------- the endpoint as a step machine ----------

  /** The endpoint's loop variables, and the events sent so far. */
  datatype Listen = Listen(keep: bool, last: string, sent: seq<Event>, stop: Stop)

  function Started(start: string): Listen { Listen(true, start, [], NothingArrived) }

  /** The loop variables after a read: the inner loop notices the control message, and the cursor moves on. */
  function Turned(l: Listen, reply: Reply): Listen {
    match reply
    case BadCursor => l.(keep := false, stop := Refused)
    case TimedOut => l.(keep := false)
    case Batch(es) =>
      var exit := HasControlExit(es);
      Listen(!exit, IdOf(es), l.sent + es, if exit then ExitSent else l.stop)
  }

  /** The id of the last event of a batch. */
  function IdOf(es: seq<Event>): string {
    if es != [] && es[|es| - 1].id.Some? then es[|es| - 1].id.value else ""
  }

  function Step(streams: Channels, channel: string, l: Listen, meanwhile: seq<Publication>): (Channels, Listen) {
    var (after, reply) := Serve(streams, channel, l.last, meanwhile);
    (after, Turned(l, reply))
  }

  /** The state after at most `n` turns. */
  function Run(streams: Channels, channel: string, start: string, schedule: seq<seq<Publication>>, n: nat)
    : (Channels, Listen)
  {
    if n == 0 then (streams, Started(start))
    else
      var (now, l) := Run(streams, channel, start, schedule, n - 1);
      if l.keep then Step(now, channel, l, Meanwhile(schedule, n - 1)) else (now, l)
  }

  /** What every turn keeps. */
  ghost predicate Listening(l: Listen, start: string, above: seq<Event>, newest: string, n: nat) {
    if n == 0 then l == Started(start)
    else
      && l.sent == above
      && l.stop == (if HasControlExit(l.sent) then ExitSent else NothingArrived)
      && (l.keep ==> l.stop == NothingArrived && l.sent != [] && l.last == newest)
  }

  lemma TurnedKeepsListening(l: Listen, start: string, above: seq<Event>, newest: string, n: nat,
                             es: seq<Event>, newest': string)
    requires l.keep && Listening(l, start, above, newest, n)
    requires HasControlExit(l.sent + es) <==> HasControlExit(es)
    requires es != [] ==> IdOf(es) == newest'
    ensures var l' := Turned(l, if es == [] then TimedOut else Batch(es));
            && Listening(l', start, l.sent + es, newest', n + 1)
            && (!l'.keep && l'.stop == NothingArrived ==> es == [] && (l'.sent == [] ==> n == 0))
            && (es == [] ==> !l'.keep)
  {
    if es == [] { assert l.sent + es == l.sent; }
  }

  /** The invariant in terms of the channel's log. */
  ghost predicate ListeningTo(l: Listen, start: string, from: StreamId, log: seq<Entry>, n: nat) {
    Listening(l, start, Events(EntriesAfter(log, from)), IdText(LastId(log)), n)
  }

  /** The start cursor is resolved by the first read. */
  ghost predicate Resolved(start: string, from: StreamId, log: seq<Entry>, n: nat) {
    ParseCursor(start).Some? && (n == 0 ==> from == Resolve(ParseCursor(start).value, log))
  }

  /** The read of a turn, in terms of the log. */
  lemma TurnReads(streams: Channels, channel: string, l: Listen, start: string, from: StreamId,
                  meanwhile: seq<Publication>, n: nat)
    requires AllOrdered(streams) && l.keep
    requires Resolved(start, from, LogOf(streams, channel), n)
    requires ListeningTo(l, start, from, LogOf(streams, channel), n)
    ensures var more := Served(LogOf(streams, channel), LogOf(PublishedAll(streams, meanwhile), channel), from, n == 0);
            Serve(streams, channel, l.last, meanwhile) ==
            (PublishedAll(streams, meanwhile), if more == [] then TimedOut else Batch(more))
  {
    if n > 0 { CursorRoundTrip(LastId(LogOf(streams, channel))); }
  }

  /** The entries of a turn, in terms of what was sent before. */
  lemma TurnServes(l: Listen, start: string, from: StreamId, log: seq<Entry>, log': seq<Entry>, n: nat)
    requires Ordered(log') && log <= log' && l.keep
    requires ListeningTo(l, start, from, log, n)
    ensures Events(EntriesAfter(log', from)) == l.sent + Served(log, log', from, n == 0)
    ensures n > 0 ==> |Served(log, log', from, n == 0)| == |log'| - |log|
    ensures Served(log, log', from, n == 0) != [] ==> IdOf(Served(log, log', from, n == 0)) == IdText(LastId(log'))
    ensures !HasControlExit(l.sent)
  {
    if n > 0 {
      ReadExtends(log, log', from);
      NewestSent(log', LastId(log));
    } else {
      NewestSent(log', from);
    }
  }

  lemma TurnKeepsListening(streams: Channels, channel: string, l: Listen, start: string, from: StreamId,
                           meanwhile: seq<Publication>, n: nat)
    requires AllOrdered(streams) && l.keep
    requires Resolved(start, from, LogOf(streams, channel), n)
    requires ListeningTo(l, start, from, LogOf(streams, channel), n)
    ensures var (after, l') := Step(streams, channel, l, meanwhile);
            && after == PublishedAll(streams, meanwhile)
            && ListeningTo(l', start, from, LogOf(after, channel), n + 1)
            && (!l'.keep && l'.stop == NothingArrived ==>
                  if l'.sent == [] then n == 0 else n == 0 || OnChannel(meanwhile, channel) == [])
            && (n > 0 && meanwhile == [] ==> !l'.keep)
  {
    hide IdText, HasControlExit, Events, EntriesAfter, PublishedAll, Serve, Served, Listening, Turned, Resolve;
    hide ParseCursor, IdOf, Ordered;
    PublicationsExtend(streams, meanwhile, channel);
    var log, log' := LogOf(streams, channel), LogOf(PublishedAll(streams, meanwhile), channel);
    TurnReads(streams, channel, l, start, from, meanwhile, n);
    TurnServes(l, start, from, log, log', n);
    var es := Served(log, log', from, n == 0);
    ControlExitAnywhere(l.sent, es);
    TurnedKeepsListening(l, start, Events(EntriesAfter(log, from)), IdText(LastId(log)), n, es, IdText(LastId(log')));
  }

  /** The run up to any turn: everything above the start cursor has been sent, once each and in order. */
  lemma {:induction false} RunKeepsListening(streams: Channels, channel: string, start: string,
                                             schedule: seq<seq<Publication>>, n: nat)
    requires AllOrdered(streams) && ParseCursor(start).Some?
    requires n > 0 ==> Run(streams, channel, start, schedule, n - 1).1.keep
    ensures var (now, l) := Run(streams, channel, start, schedule, n);
            && now == PublishedAll(streams, During(schedule, n))
            && AllOrdered(now)
            && ListeningTo(l, start, Resolve(ParseCursor(start).value, LogOf(streams, channel)), LogOf(now, channel), n)
            && (!l.keep && l.stop == NothingArrived ==>
                  if l.sent == [] then n == 1 else OnChannel(Meanwhile(schedule, n - 1), channel) == [])
            && (n > |schedule| + 1 ==> !l.keep)
  {
    if n > 0 {
      hide IdText, HasControlExit, Events, EntriesAfter, Step, Resolve, ParseCursor, Ordered;
      assert n > 1 ==> Run(streams, channel, start, schedule, n - 2).1.keep;
      RunKeepsListening(streams, channel, start, schedule, n - 1);
      var (now, l) := Run(streams, channel, start, schedule, n - 1);
      var from := Resolve(ParseCursor(start).value, LogOf(streams, channel));
      TurnKeepsListening(now, channel, l, start, from, Meanwhile(schedule, n - 1), n - 1);
      PublishedAllAppend(streams, During(schedule, n - 1), Meanwhile(schedule, n - 1));
      PublicationsExtend(streams, During(schedule, n), channel);
    }
  }

  // ---------- the endpoint ----------

  /**
    `event_listen`. `schedule[i]` is what others publish, on any channel, while
    the i-th read is served; after the schedule nobody publishes any more. The
    response carries every entry above the start cursor that is in the log when
    it ends, once each and in order; it ends after the batch with the control
    message, or when a read finds nothing.
   */
  method EventListen(em: EventManager, channel: string, start: string, schedule: seq<seq<Publication>>)
    returns (body: string, stop: Stop, rounds: nat)
    requires em.Valid()
    modifies em
    ensures em.Valid() && rounds > 0
    ensures stop == Refused <==> ParseCursor(start).None?
    ensures stop == Refused ==> body == "" && em.streams == old(em.streams)
    ensures stop != Refused ==>
              && em.streams == PublishedAll(old(em.streams), During(schedule, rounds))
              && var from := Resolve(ParseCursor(start).value, old(em.Log(channel)));
              var sent := Events(EntriesAfter(em.Log(channel), from));
              && body == Wire(sent)
              && (stop == ExitSent <==>
                    exists i | 0 <= i < |sent| :: sent[i].event == Some("control") && sent[i].data == "exit")
              && (stop == NothingArrived ==>
                    if sent == [] then rounds == 1 else OnChannel(Meanwhile(schedule, rounds - 1), channel) == [])
  {
    ghost var sent: seq<Event>;
    body, stop, rounds, sent := ListenLoop(em, channel, start, schedule);
    if ParseCursor(start).Some? {
      RunKeepsListening(old(em.streams), channel, start, schedule, rounds);
    } else {
      RunRefused(old(em.streams), channel, start, schedule, rounds);
    }
  }

  lemma {:induction false} RunRefused(streams: Channels, channel: string, start: string,
                                      schedule: seq<seq<Publication>>, n: nat)
    requires ParseCursor(start).None? && n > 0
    ensures Run(streams, channel, start, schedule, n) == (streams, Listen(false, start, [], Refused))
  {
    if n > 1 { RunRefused(streams, channel, start, schedule, n - 1); }
  }

  lemma EmptyWire()
    ensures Wire([]) == ""
  {
  }

  /** The loop itself, against the step machine. */
  method ListenLoop(em: EventManager, channel: string, start: string, schedule: seq<seq<Publication>>)
    returns (body: string, stop: Stop, rounds: nat, ghost sent: seq<Event>)
    requires em.Valid()
    modifies em
    ensures em.Valid() && rounds > 0
    ensures var (now, l) := Run(old(em.streams), channel, start, schedule, rounds);
            em.streams == now && !l.keep && l.sent == sent && l.stop == stop
    ensures Run(old(em.streams), channel, start, schedule, rounds - 1).1.keep
    ensures body == Wire(sent)
  {
    hide FormatSse, Serve, HasControlExit, IdOf, ConcatMap;
    assert Wire([]) == "" by { EmptyWire(); }
    var keep, last := true, start;
    body, stop, rounds, sent := "", NothingArrived, 0, [];
    while keep
      invariant em.Valid()
      invariant (em.streams, Listen(keep, last, sent, stop)) == Run(old(em.streams), channel, start, schedule, rounds)
      invariant body == Wire(sent)
      invariant rounds == 0 ==> keep
      invariant rounds > 0 ==> Run(old(em.streams), channel, start, schedule, rounds - 1).1.keep
      decreases keep, |schedule| + 2 - rounds
    {
      BoundedRounds(old(em.streams), channel, start, schedule, rounds);
      var rsp := em.Read(channel, last, Meanwhile(schedule, rounds));
      rounds := rounds + 1;
      match rsp {
        case BadCursor => keep, stop := false, Refused;
        case TimedOut => keep := false;
        case Batch(events) =>
          var text, exit := SendBatch(events);
          ConcatMapAppend(sent, events, FormatSse);
          body, sent := body + text, sent + events;
          last := IdOf(events);
          if exit {
            keep, stop := false, ExitSent;
          }
      }
    }
  }

  /** Once the schedule is exhausted the next read finds nothing. */
  lemma BoundedRounds(streams: Channels, channel: string, start: string, schedule: seq<seq<Publication>>, n: nat)
    requires AllOrdered(streams)
    requires n > 0 ==> Run(streams, channel, start, schedule, n - 1).1.keep
    ensures Run(streams, channel, start, schedule, n).1.keep ==> n <= |schedule| + 1
  {
    if ParseCursor(start).None? {
      if n > 0 { RunRefused(streams, channel, start, schedule, n); }
    } else {
      RunKeepsListening(streams, channel, start, schedule, n);
    }
  }

  // ---------- from publisher to client ----------

  /** An entry that the message format carries. */
  predicate CleanEntry(en: Entry) {
    CleanText(en.msg) && '\r' !in en.msg && CleanText(en.event) && '\r' !in en.event
  }

  /** What a client reads is clean: the entries up to and including the first "exit". */
  predicate Readable(log: seq<Entry>) {
    log == [] || (CleanEntry(log[0]) && (log[0].msg == "exit" || Readable(log[1..])))
  }

  lemma {:induction false} ReadableEvents(log: seq<Entry>)
    requires Readable(log)
    ensures CleanToExit(Events(log))
  {
    if log != [] {
      CleanEvent(log[0]);
      EventsStep(log);
      hide CleanEntry, WireClean, Events, ToEvent;
      if log[0].msg != "exit" {
        ReadableEvents(log[1..]);
      }
    }
  }

  lemma CleanEvent(en: Entry)
    requires CleanEntry(en)
    ensures WireClean(ToEvent(en))
  {
    IdTextIsClean(en.id);
  }

  lemma EventsStep(log: seq<Entry>)
    requires log != []
    ensures Events(log)[0] == ToEvent(log[0]) && Events(log)[1..] == Events(log[1..])
    ensures IsExit(Events(log)[0]) <==> log[0].msg == "exit"
  {
  }

  lemma {:induction false} ReadablePrefix(log: seq<Entry>, log': seq<Entry>)
    requires log <= log' && Readable(log')
    ensures Readable(log)
  {
    if log != [] && log[0].msg != "exit" {
      assert log[1..] <= log'[1..];
      ReadablePrefix(log[1..], log'[1..]);
    }
  }

  /** Behind entries without an "exit" the rest is readable too. */
  lemma {:induction false} ReadableRest(log: seq<Entry>, m: nat)
    requires Readable(log) && m <= |log| && !HasExit(Events(log[..m]))
    ensures Readable(log[m..])
  {
    if m > 0 {
      assert log[..m][1..] == log[1..][..m - 1] && log[1..][m - 1..] == log[m..];
      EventsStep(log[..m]);
      hide CleanEntry, Events;
      ReadableRest(log[1..], m - 1);
    } else {
      assert log[0..] == log;
    }
  }

  /** The `last` query parameter the client sends: absent or empty, the server starts at the newest entry. */
  function StartOf(last: Option<string>): string {
    if last.Some? && last.value != "" then last.value else "$"
  }

  /** The entries carry what was published: data for data, and types with an absent one as "". */
  predicate Carries(log: seq<Entry>, on: seq<Publication>) {
    && |log| == |on|
    && (forall k | 0 <= k < |on| ::
          && log[k].msg == on[k].evt.data
          && log[k].event == (match on[k].evt.event case None => "" case Some(v) => v))
  }

  /** A publication that the message format carries. */
  predicate CleanPublication(p: Publication) {
    CleanText(p.evt.data) && '\r' !in p.evt.data && (p.evt.event.Some? ==>
      CleanText(p.evt.event.value) && '\r' !in p.evt.event.value)
  }

  /** The publications that a client reads are clean: those up to and including the first "exit". */
  predicate ReadablePublications(on: seq<Publication>) {
    on == [] || (CleanPublication(on[0]) && (on[0].evt.data == "exit" || ReadablePublications(on[1..])))
  }

  /** A client was given publications: their data and types, in order and once each, up to the first "exit". */
  predicate Delivers(on: seq<Publication>, yielded: seq<Event>, end: End) {
    && |yielded| <= |on|
    && (forall k | 0 <= k < |yielded| ::
          && on[k].evt.data != "exit"
          && yielded[k].data == on[k].evt.data
          && yielded[k].event == Some(match on[k].evt.event case None => "" case Some(v) => v))
    && (if |yielded| == |on| then end == Eof else on[|yielded|].evt.data == "exit" && end == Exit)
  }

  lemma {:induction false} PublishedReadable(log: seq<Entry>, on: seq<Publication>)
    requires Carries(log, on) && ReadablePublications(on)
    ensures Readable(log)
  {
    if on != [] && on[0].evt.data != "exit" {
      PublishedReadable(log[1..], on[1..]);
    }
  }

  lemma CarriedIsDelivered(log: seq<Entry>, on: seq<Publication>)
    requires Carries(log, on)
    ensures Delivers(on, UpToExit(Events(log)), if HasExit(Events(log)) then Exit else Eof)
  {
    var es := Events(log);
    UpToExitStops(es);
    hide UpToExit, HasExit, IdText;
    assert forall k | 0 <= k < |log| :: es[k].data == on[k].evt.data && es[k] == ToEvent(log[k]);
    assert forall k | 0 <= k < |UpToExit(es)| :: UpToExit(es)[k] == es[k] && !IsExit(UpToExit(es)[k]);
  }

  lemma PublishedIsCarried(streams: Channels, ps: seq<Publication>, channel: string)
    ensures var log, log' := LogOf(streams, channel), LogOf(PublishedAll(streams, ps), channel);
            log <= log' && Carries(log'[|log|..], OnChannel(ps, channel))
  {
    Grown(streams, ps, channel);
    forall k | 0 <= k < |OnChannel(ps, channel)|
      ensures var log, log' := LogOf(streams, channel), LogOf(PublishedAll(streams, ps), channel);
              var evt := OnChannel(ps, channel)[k].evt;
              && log'[|log| + k].msg == evt.data
              && log'[|log| + k].event == (match evt.event case None => "" case Some(v) => v)
    {
      EntriesArePublications(streams, ps, channel, k);
    }
  }

  /** Where a client starts that names the id of an entry it knows. */
  lemma StartsBehind(log: seq<Entry>, log': seq<Entry>, i: nat)
    requires i < |log|
    ensures var last := StartOf(Some(IdText(log[i].id)));
            && ParseCursor(last).Some?
            && (Ordered(log') && log <= log' ==>
                  EntriesAfter(log', Resolve(ParseCursor(last).value, log)) == log'[i + 1..])
  {
    CursorRoundTrip(log[i].id);
    hide ParseCursor, Ordered, Passed;
    if Ordered(log') && log <= log' {
      assert log'[i] == log[i];
      PassedOwnId(log', i);
    }
  }

  /** Where a client starts that names no id. */
  lemma StartsNow(last: Option<string>, log: seq<Entry>, log': seq<Entry>)
    requires last == None || last == Some("")
    ensures ParseCursor(StartOf(last)).Some?
    ensures Ordered(log') && log <= log' ==>
              EntriesAfter(log', Resolve(ParseCursor(StartOf(last)).value, log)) == log'[|log|..]
  {
    if Ordered(log') && log <= log' {
      AfterNewest(log, log');
    }
  }

  /**
    A whole session: the client yields exactly the entries above its start
    cursor, in order and once each, up to the first whose data is "exit". Without
    a cursor these are what is published on its channel from now on.
   */
  method Session(em: EventManager, projectid: string, execid: string, last: Option<string>,
                 schedule: seq<seq<Publication>>)
    returns (yielded: seq<Event>, end: End, rounds: nat)
    requires em.Valid()
    modifies em
    ensures em.Valid()
    ensures ParseCursor(StartOf(last)).None? ==> yielded == [] && em.streams == old(em.streams)
    ensures ParseCursor(StartOf(last)).Some? ==>
              var channel := GenerateChannel(projectid, execid);
              var from := Resolve(ParseCursor(StartOf(last)).value, old(em.Log(channel)));
              var above := EntriesAfter(em.Log(channel), from);
              && em.streams == PublishedAll(old(em.streams), During(schedule, rounds))
              && (Readable(above) ==> YieldsAll(above, yielded, end))
    ensures last == None || last == Some("") ==>
              var channel := GenerateChannel(projectid, execid);
              var on := OnChannel(During(schedule, rounds), channel);
              && old(em.Log(channel)) <= em.Log(channel)
              && var added := em.Log(channel)[|old(em.Log(channel))|..];
              && (Readable(added) ==> YieldsAll(added, yielded, end))
              && (ReadablePublications(on) ==> Delivers(on, yielded, end))
    ensures var channel := GenerateChannel(projectid, execid);
            forall i | 0 <= i < |old(em.Log(channel))| && last == Some(IdText(old(em.Log(channel))[i].id)) ::
              && old(em.Log(channel)) <= em.Log(channel)
              && (Readable(em.Log(channel)[i + 1..]) ==> YieldsAll(em.Log(channel)[i + 1..], yielded, end))
  {
    var channel := GenerateChannel(projectid, execid);
    ghost var streams, log := em.streams, em.Log(channel);
    hide GenerateChannel, StartOf, ParseCursor, FormatSse, EntriesAfter, Readable, ReadablePublications;
    hide Delivers, Resolve, YieldsAll, IdText;
    var body, stop;
    body, stop, rounds := EventListen(em, channel, StartOf(last), schedule);
    yielded, end := EventsListen(body);
    ghost var log' := em.Log(channel);
    if ParseCursor(StartOf(last)).Some? {
      PublicationsExtend(streams, During(schedule, rounds), channel);
      BodyYields(EntriesAfter(log', Resolve(ParseCursor(StartOf(last)).value, log)), yielded, end);
    }
    if last == None || last == Some("") {
      StartsNow(last, log, log');
      AddedIsDelivered(streams, During(schedule, rounds), channel, yielded, end);
    }
    forall i | 0 <= i < |log| && last == Some(IdText(log[i].id))
      ensures log <= log' && (Readable(log'[i + 1..]) ==> YieldsAll(log'[i + 1..], yielded, end))
    {
      StartsBehind(log, log', i);
    }
  }

  lemma BodyYields(log: seq<Entry>, yielded: seq<Event>, end: End)
    ensures Listened(yielded, end) == Client(IterLines(Wire(Events(log))), "") && Readable(log) ==>
              YieldsAll(log, yielded, end)
  {
    if Readable(log) {
      ReadableEvents(log);
      StreamRoundTrip(Events(log));
    }
  }

  lemma AddedIsDelivered(streams: Channels, ps: seq<Publication>, channel: string, yielded: seq<Event>, end: End)
    ensures var log, log' := LogOf(streams, channel), LogOf(PublishedAll(streams, ps), channel);
            && log <= log'
            && ((Readable(log'[|log|..]) ==> YieldsAll(log'[|log|..], yielded, end)) ==>
                 ReadablePublications(OnChannel(ps, channel)) ==> Delivers(OnChannel(ps, channel), yielded, end))
  {
    hide Delivers, Carries, Events;
    PublishedIsCarried(streams, ps, channel);
    var added := LogOf(PublishedAll(streams, ps), channel)[|LogOf(streams, channel)|..];
    CarriedIsDelivered(added, OnChannel(ps, channel));
    if ReadablePublications(OnChannel(ps, channel)) {
      PublishedReadable(added, OnChannel(ps, channel));
    }
  }

  /** What the client makes of a response body. */
  predicate YieldsAll(log: seq<Entry>, yielded: seq<Event>, end: End) {
    yielded == UpToExit(Events(log)) && end == if HasExit(Events(log)) then Exit else Eof
  }
  /**
    What a session yielded stays right as the log grows: complete once an "exit"
    was among the entries, and otherwise a prefix of what a longer session yields.
   */
  lemma LaterPublications(log: seq<Entry>, log': seq<Entry>, from: StreamId)
    requires Ordered(log') && log <= log'
    ensures var now, later := Events(EntriesAfter(log, from)), Events(EntriesAfter(log', from));
            if HasExit(now) then UpToExit(later) == UpToExit(now) else UpToExit(now) == now <= UpToExit(later)
  {
    if Passed(log, from) == |log| {
      assert EntriesAfter(log, from) == [];
      return;
    }
    ReadExtends(log, log', from);
    UpToExitStops(Events(EntriesAfter(log, from)));
    UpToExitAppend(Events(EntriesAfter(log, from)), Served(log, log', from, false));
  }

  /** What a client makes of a response body cut after `k` characters. */
  function Yielded(log: seq<Entry>, from: StreamId, k: nat): seq<Event>
    requires k <= |Wire(Events(EntriesAfter(log, from)))|
  {
    Client(IterLines(Wire(Events(EntriesAfter(log, from)))[..k]), "").events
  }

  function YieldedWhole(log: seq<Entry>, from: StreamId): seq<Event> {
    Yielded(log, from, |Wire(Events(EntriesAfter(log, from)))|)
  }

  /** A cut listen yields the first entries above the cursor, none of them an "exit". */
  lemma CutYields(log: seq<Entry>, from: StreamId, k: nat) returns (m: nat)
    requires k <= |Wire(Events(EntriesAfter(log, from)))| && CleanToCut(Events(EntriesAfter(log, from)), k)
    ensures m <= |EntriesAfter(log, from)|
    ensures Yielded(log, from, k) == Events(EntriesAfter(log, from))[..m]
    ensures !HasExit(Yielded(log, from, k))
  {
    hide FormatSse, Client, IterLines, WireClean, EntriesAfter, HasExit, CleanToCut;
    var es := Events(EntriesAfter(log, from));
    CutBody(es, k);
    var seen := es[..WholeMessages(es, k)];
    UpToExitStops(seen);
    m := |UpToExit(seen)|;
    NoExitBefore(seen);
    assert UpToExit(seen) == seen[..m] == es[..m];
  }

  lemma {:induction false} NoExitBefore(es: seq<Event>)
    ensures !HasExit(UpToExit(es))
  {
    if es != [] && !IsExit(es[0]) {
      NoExitBefore(es[1..]);
      assert UpToExit(es)[1..] == UpToExit(es[1..]);
    }
  }

  /**
    Resumption: a listen is cut after any character, the log grows, and the
    client reconnects with the id of the last event it yielded. The two
    listens together yield what one uninterrupted listen would have.
   */
  lemma Resume(log: seq<Entry>, log': seq<Entry>, from: StreamId, k: nat)
    requires Ordered(log') && log <= log'
    requires Readable(EntriesAfter(log', from))
    requires k <= |Wire(Events(EntriesAfter(log, from)))| && Yielded(log, from, k) != []
    ensures var first := Yielded(log, from, k);
            var cursor := ParseCursor(IdOf(first));
            && cursor.Some? && cursor.value.After?
            && first + YieldedWhole(log', cursor.value.id) == YieldedWhole(log', from)
  {
    hide Yielded, YieldedWhole, Readable, HasExit, UpToExit, IdText, ParseCursor, Ordered, Events, IdOf, Wire;
    var m := FirstPart(log, log', from, k);
    var p := Passed(log', from);
    var newest := log'[p + m - 1];
    NewestOfSlice(log', p, m);
    CursorRoundTrip(newest.id);
    PassedOwnId(log', p + m - 1);
    assert EntriesAfter(log', newest.id) == log'[p..][m..] && log'[p..][..m] == log'[p..p + m];
    ReadableRest(log'[p..], m);
    WholeYields(log', from);
    WholeYields(log', newest.id);
    ResumeAfter(log', from, m);
  }

  /** What a cut listen yielded, seen in the grown log. */
  lemma FirstPart(log: seq<Entry>, log': seq<Entry>, from: StreamId, k: nat) returns (m: nat)
    requires Ordered(log') && log <= log'
    requires Readable(EntriesAfter(log', from))
    requires k <= |Wire(Events(EntriesAfter(log, from)))| && Yielded(log, from, k) != []
    ensures var p := Passed(log', from);
            && 0 < m && p + m <= |log'|
            && Yielded(log, from, k) == Events(log'[p..p + m])
            && !HasExit(Events(log'[p..p + m]))
  {
    hide Yielded, Readable, CleanToExit, CleanToCut, HasExit, Ordered, Wire, ToEvent;
    var p := Passed(log, from);
    NothingAbove(log, from, k);
    PassedGrows(log, log', from);
    ReadablePart(log, log', p, k);
    m := CutYields(log, from, k);
    SliceOfGrown(log, log', p, m);
  }

  lemma ReadablePart(log: seq<Entry>, log': seq<Entry>, p: nat, k: nat)
    requires log <= log' && p <= |log| && Readable(log'[p..])
    ensures CleanToCut(Events(log[p..]), k)
  {
    hide Readable, CleanToExit, CleanToCut, Events;
    ReadablePrefix(log[p..], log'[p..]);
    ReadableEvents(log[p..]);
    CleanWherever(Events(log[p..]), k);
  }

  lemma NothingAbove(log: seq<Entry>, from: StreamId, k: nat)
    requires k <= |Wire(Events(EntriesAfter(log, from)))|
    ensures Passed(log, from) == |log| ==> Yielded(log, from, k) == []
  {
    if Passed(log, from) == |log| {
      assert Events(EntriesAfter(log, from)) == [];
      NothingSeen();
    }
  }

  lemma NewestOfSlice(log: seq<Entry>, p: nat, m: nat)
    requires 0 < m && p + m <= |log|
    ensures IdOf(Events(log[p..p + m])) == IdText(log[p + m - 1].id)
  {
    hide IdText;
    assert Events(log[p..p + m])[m - 1] == ToEvent(log[p + m - 1]);
  }

  lemma SliceOfGrown(log: seq<Entry>, log': seq<Entry>, p: nat, m: nat)
    requires log <= log' && p + m <= |log|
    ensures Events(log[p..])[..m] == Events(log'[p..p + m])
  {
  }

  /** In one log: the first `m` entries above a cursor, then what lies above the last of them. */
  lemma ResumeAfter(log: seq<Entry>, from: StreamId, m: nat)
    requires Ordered(log) && 0 < m && Passed(log, from) + m <= |log|
    requires var p := Passed(log, from); !HasExit(Events(log[p..p + m]))
    ensures var p := Passed(log, from);
            Events(log[p..p + m]) + UpToExit(Events(EntriesAfter(log, log[p + m - 1].id)))
            == UpToExit(Events(EntriesAfter(log, from)))
  {
    hide HasExit, UpToExit, Ordered, Events, Passed;
    var p := Passed(log, from);
    PassedOwnId(log, p + m - 1);
    ExitFreeBefore(log, p, p + m);
  }

  lemma ExitFreeBefore(log: seq<Entry>, p: nat, q: nat)
    requires p <= q <= |log| && !HasExit(Events(log[p..q]))
    ensures UpToExit(Events(log[p..])) == Events(log[p..q]) + UpToExit(Events(log[q..]))
  {
    hide HasExit, UpToExit;
    EventsJoin(log, p, q);
    hide Events;
    UpToExitAppend(Events(log[p..q]), Events(log[q..]));
  }

  lemma EventsJoin(log: seq<Entry>, p: nat, q: nat)
    requires p <= q <= |log|
    ensures Events(log[p..]) == Events(log[p..q]) + Events(log[q..])
  {
  }

  lemma WholeYields(log: seq<Entry>, from: StreamId)
    requires Readable(EntriesAfter(log, from))
    ensures YieldedWhole(log, from) == UpToExit(Events(EntriesAfter(log, from)))
  {
    hide FormatSse, Client, IterLines, Readable, CleanToExit, HasExit;
    var above := EntriesAfter(log, from);
    ReadableEvents(above);
    StreamRoundTrip(Events(above));
    assert Wire(Events(above))[..|Wire(Events(above))|] == Wire(Events(above));
  }

  /** `events_publish`: the client sends nothing for an empty message. */
  method EventsPublish(em: EventManager, projectid: string, execid: string,
                       data: string, event: Option<string>, now: nat)
    requires em.Valid()
    modifies em
    ensures em.Valid()
    ensures em.streams ==
            if data == "" then old(em.streams)
            else
              var channel := GenerateChannel(projectid, execid);
              Published(old(em.streams), Publication(channel, Event(data, event, None), now))
  {
    if data != "" {
      em.Publish(GenerateChannel(projectid, execid), Event(data, event, None), now);
    }
  }
}
