/**
  The listening client: the line decoder of the HTTP library (httpx below 0.22,
  which ends every line it yields with a single line feed), the line buffer of
  `BaseClient.events_listen`, and what the two recover from a stream of messages.
 */
module SseClient {
  import opened Text
  import opened Sse

  /** Without carriage returns the decoder only cuts. */
  lemma {:induction false} LinesKeepText(t: string)
    requires '\r' !in t
    ensures Concat(IterLines(t)) == t
  {
    if t != "" {
      var i := LineEnd(t);
      if i < |t| {
        LinesKeepText(t[i + 1..]);
        ConcatCons(t[..i] + "\n", IterLines(t[i + 1..]));
        CutAt(t, i);
      } else {
        ConcatCons(t, []);
      }
    }
  }

  lemma CutAt(t: string, i: nat)
    requires i < |t| && t[i] == '\n'
    ensures t == (t[..i] + "\n") + t[i + 1..]
  {
  }

  lemma ConcatCons(first: string, rest: seq<string>)
    ensures Concat([first] + rest) == first + Concat(rest)
  {
    assert ([first] + rest)[1..] == rest;
  }

  function Concat(parts: seq<string>): string {
    if parts == [] then "" else parts[0] + Concat(parts[1..])
  }

  function ConcatMap<T>(xs: seq<T>, f: T -> string): string {
    if xs == [] then "" else f(xs[0]) + ConcatMap(xs[1..], f)
  }

  /** The response body that carries `es`. */
  function Wire(es: seq<Event>): string {
    ConcatMap(es, FormatSse)
  }

  lemma {:induction false} ConcatMapAppend<T>(a: seq<T>, b: seq<T>, f: T -> string)
    ensures ConcatMap(a + b, f) == ConcatMap(a, f) + ConcatMap(b, f)
  {
    if a == [] {
      assert a + b == b;
    } else {
      calc {
        ConcatMap(a + b, f);
        { assert (a + b)[0] == a[0] && (a + b)[1..] == a[1..] + b; }
        f(a[0]) + ConcatMap(a[1..] + b, f);
        { ConcatMapAppend(a[1..], b, f); }
        f(a[0]) + (ConcatMap(a[1..], f) + ConcatMap(b, f));
        { Associative(f(a[0]), ConcatMap(a[1..], f), ConcatMap(b, f)); }
        ConcatMap(a, f) + ConcatMap(b, f);
      }
    }
  }

  lemma Associative(a: string, b: string, c: string)
    ensures (a + b) + c == a + (b + c)
  {
  }

  // ---------- the client loop ----------

  datatype End = Exit | Eof | Rejected

  /** The events a listen yielded, and why it stopped. */
  datatype Listened = Listened(events: seq<Event>, end: End)

  function Client(lines: seq<string>, buffer: string): Listened {
    if lines == [] then Listened([], Eof)
    else
      var b := buffer + lines[0];
      if EndsWith(b, "\n\n") then
        match ParseSse(b)
        case None => Listened([], Rejected)
        case Some(e) =>
          if e.data == "exit" then Listened([], Exit)
          else var rest := Client(lines[1..], ""); rest.(events := [e] + rest.events)
      else Client(lines[1..], b)
  }

  /** `events_listen` over a response body; the generator's yields are collected in order. */
  method EventsListen(body: string) returns (yielded: seq<Event>, end: End)
    ensures Listened(yielded, end) == Client(IterLines(body), "")
  {
    var lines := IterLines(body);
    var buffer := "";
    yielded := [];
    for i := 0 to |lines|
      invariant Client(lines, "") ==
                var rest := Client(lines[i..], buffer); rest.(events := yielded + rest.events)
    {
      assert lines[i..][1..] == lines[i + 1..];
      buffer := buffer + lines[i];
      if EndsWith(buffer, "\n\n") {
        var evt := FromSse2Event(buffer);
        if evt.None? {
          return yielded, Rejected;
        }
        if evt.value.data == "exit" {
          return yielded, Exit;
        }
        yielded := yielded + [evt.value];
        buffer := "";
      }
    }
    return yielded, Eof;
  }

  // ---------- what the client recovers ----------

  /** A field that survives the line decoder as well. */
  predicate WireClean(e: Event) {
    && Clean(e)
    && '\r' !in e.data
    && (e.event.Some? ==> '\r' !in e.event.value)
    && (e.id.Some? ==> '\r' !in e.id.value)
  }

  predicate AllWireClean(es: seq<Event>) { forall e <- es :: WireClean(e) }

  predicate IsExit(e: Event) { e.data == "exit" }

  predicate HasExit(es: seq<Event>) {
    es != [] && (IsExit(es[0]) || HasExit(es[1..]))
  }

  /** The events before the first one whose data is "exit". */
  function UpToExit(es: seq<Event>): seq<Event> {
    if es == [] || IsExit(es[0]) then [] else [es[0]] + UpToExit(es[1..])
  }

  lemma {:induction false} UpToExitStops(es: seq<Event>)
    ensures var r := UpToExit(es);
            && r <= es
            && (forall e <- r :: !IsExit(e))
            && (|r| < |es| ==> IsExit(es[|r|]))
            && (HasExit(es) <==> |r| < |es|)
  {
    if es != [] && !IsExit(es[0]) {
      UpToExitStops(es[1..]);
      assert es == [es[0]] + es[1..];
      assert UpToExit(es) == [es[0]] + UpToExit(es[1..]);
    }
  }

  lemma {:induction false} UpToExitAppend(a: seq<Event>, b: seq<Event>)
    ensures UpToExit(a + b) == if HasExit(a) then UpToExit(a) else a + UpToExit(b)
    ensures HasExit(a + b) <==> HasExit(a) || HasExit(b)
  {
    if a == [] {
      assert a + b == b;
    } else {
      hide UpToExit, HasExit, IsExit;
      assert (a + b)[0] == a[0] && (a + b)[1..] == a[1..] + b;
      ExitStep(a + b);
      ExitStep(a);
      UpToExitAppend(a[1..], b);
      ConsAppend(a, UpToExit(b));
    }
  }

  lemma ConsAppend(a: seq<Event>, b: seq<Event>)
    requires a != []
    ensures [a[0]] + (a[1..] + b) == a + b
  {
  }

  lemma ExitStep(es: seq<Event>)
    requires es != []
    ensures UpToExit(es) == if IsExit(es[0]) then [] else [es[0]] + UpToExit(es[1..])
    ensures HasExit(es) <==> IsExit(es[0]) || HasExit(es[1..])
  {
  }

  /** How many whole messages lie within the first `k` characters of the body. */
  function WholeMessages(es: seq<Event>, k: nat): (m: nat)
    ensures m <= |es|
    ensures k >= |Wire(es)| ==> m == |es|
  {
    if es == [] || k < |FormatSse(es[0])| then 0
    else 1 + WholeMessages(es[1..], k - |FormatSse(es[0])|)
  }

  /** A printed line, or nothing. */
  predicate IsBlock(block: string) {
    block == "" || (|block| > 1 && block[|block| - 1] == '\n' && '\n' !in block[..|block| - 1] && '\r' !in block)
  }

  /** A line that is not blank never completes a message. */
  lemma ClientBuffersBlock(block: string, rest: string, buffer: string)
    requires IsBlock(block)
    ensures Client(IterLines(block + rest), buffer) == Client(IterLines(rest), buffer + block)
  {
    if block == "" {
      assert block + rest == rest && buffer + block == buffer;
    } else {
      var a := block[..|block| - 1];
      assert block == a + "\n";
      assert block + rest == a + "\n" + rest;
      IterLine(a, rest);
      var b := buffer + block;
      assert b[|b| - 2] == a[|a| - 1] != '\n';
      assert ([block] + IterLines(rest))[1..] == IterLines(rest);
    }
  }

  lemma ClientDispatches(buffer: string, rest: string)
    requires EndsWith(buffer + "\n", "\n\n")
    ensures Client(IterLines("\n" + rest), buffer) ==
            match ParseSse(buffer + "\n")
            case None => Listened([], Rejected)
            case Some(e) =>
              if IsExit(e) then Listened([], Exit)
              else var r := Client(IterLines(rest), ""); r.(events := [e] + r.events)
  {
    hide IterLines, ParseSse, Client, EndsWith;
    BlankLine(rest);
    ClientStep("\n", IterLines(rest), buffer);
  }

  lemma BlankLine(rest: string)
    ensures IterLines("\n" + rest) == ["\n"] + IterLines(rest)
  {
    hide IterLines;
    IterLine("", rest);
    assert "" + "\n" + rest == "\n" + rest && "" + "\n" == "\n";
  }

  lemma ClientStep(line: string, lines: seq<string>, buffer: string)
    requires EndsWith(buffer + line, "\n\n")
    ensures Client([line] + lines, buffer) ==
            match ParseSse(buffer + line)
            case None => Listened([], Rejected)
            case Some(e) =>
              if IsExit(e) then Listened([], Exit)
              else var r := Client(lines, ""); r.(events := [e] + r.events)
  {
    hide ParseSse, EndsWith;
    assert ([line] + lines)[1..] == lines;
  }

  lemma FieldIsBlock(name: string, v: string)
    requires '\n' !in name && '\r' !in name && name != "" && '\n' !in v && '\r' !in v
    ensures IsBlock(name + v + "\n")
  {
    var b := name + v + "\n";
    assert b[..|b| - 1] == name + v;
  }

  lemma MessageIsBlocks(e: Event)
    requires WireClean(e)
    ensures var d := "data: " + e.data + "\n";
            && IsBlock(IdBlock(e.id)) && IsBlock(EventBlock(e.event)) && IsBlock(d) && |d| > 1
            && FormatSse(e) == ((IdBlock(e.id) + EventBlock(e.event)) + d) + "\n"
  {
    hide IsBlock;
    var d := "data: " + e.data + "\n";
    FieldIsBlock("data: ", e.data);
    assert IsBlock(IdBlock(e.id)) by {
      if e.id.Some? { FieldIsBlock("id: ", e.id.value); } else { EmptyBlock(); }
    }
    assert IsBlock(EventBlock(e.event)) by {
      if e.event.Some? { FieldIsBlock("event: ", e.event.value); } else { EmptyBlock(); }
    }
    Associative(IdBlock(e.id), EventBlock(e.event), d + "\n");
    Associative(IdBlock(e.id) + EventBlock(e.event), d, "\n");
  }

  lemma EmptyBlock()
    ensures IsBlock("")
  {
  }

  lemma ClientBuffersMessage(i: string, v: string, d: string, end: string)
    requires IsBlock(i) && IsBlock(v) && IsBlock(d)
    ensures Client(IterLines(((i + v) + d) + end), "") == Client(IterLines(end), (i + v) + d)
  {
    calc {
      Client(IterLines(((i + v) + d) + end), "");
      { Associative(i + v, d, end); Associative(i, v, d + end); }
      Client(IterLines(i + (v + (d + end))), "");
      { ClientBuffersBlock(i, v + (d + end), ""); assert "" + i == i; }
      Client(IterLines(v + (d + end)), i);
      { ClientBuffersBlock(v, d + end, i); }
      Client(IterLines(d + end), i + v);
      { ClientBuffersBlock(d, end, i + v); }
      Client(IterLines(end), (i + v) + d);
    }
  }

  lemma BlankLineEnds(b: string, d: string)
    requires IsBlock(d) && |d| > 1
    ensures EndsWith((b + d) + "\n", "\n\n")
  {
    var s := (b + d) + "\n";
    assert s[|s| - 2] == d[|d| - 1];
  }

  lemma ClientReadsMessage(e: Event, rest: string)
    requires WireClean(e)
    ensures Client(IterLines(FormatSse(e) + rest), "") ==
            if IsExit(e) then Listened([], Exit)
            else var r := Client(IterLines(rest), ""); r.(events := [e] + r.events)
  {
    var i, v, d := IdBlock(e.id), EventBlock(e.event), "data: " + e.data + "\n";
    MessageIsBlocks(e);
    Associative((i + v) + d, "\n", rest);
    ClientBuffersMessage(i, v, d, "\n" + rest);
    BlankLineEnds(i + v, d);
    ClientDispatches((i + v) + d, rest);
    MessageRoundTrip(e);
  }

  // ---------- a body cut anywhere ----------

  /** No blank line ends inside `s`. */
  predicate NoBlankLine(s: string) {
    forall i | 0 < i < |s| :: !(s[i - 1] == '\n' && s[i] == '\n')
  }

  lemma BlankLineAtEnd(s: string)
    ensures EndsWith(s, "\n\n") ==> !NoBlankLine(s)
  {
    if EndsWith(s, "\n\n") {
      var i := |s| - 1;
      assert s[|s| - 2..][0] == s[i - 1] && s[|s| - 2..][1] == s[i];
    }
  }

  lemma {:induction false} ClientWaits(lines: seq<string>, buffer: string)
    requires NoBlankLine(buffer + Concat(lines))
    ensures Client(lines, buffer) == Listened([], Eof)
  {
    if lines != [] {
      var b := buffer + lines[0];
      assert buffer + Concat(lines) == b + Concat(lines[1..]);
      assert NoBlankLine(b) by {
        assert b == (b + Concat(lines[1..]))[..|b|];
      }
      assert !EndsWith(b, "\n\n") by { BlankLineAtEnd(b); }
      ClientWaits(lines[1..], b);
    }
  }

  lemma NoBlankLineJoin(a: string, b: string)
    requires NoBlankLine(a) && NoBlankLine(b)
    requires b == "" || b[0] != '\n'
    ensures NoBlankLine(a + b)
  {
  }

  lemma CutMessage(e: Event, k: nat)
    requires WireClean(e) && k < |FormatSse(e)|
    ensures Client(IterLines(FormatSse(e)[..k]), "") == Listened([], Eof)
  {
    var i, v, d := IdBlock(e.id), EventBlock(e.event), "data: " + e.data + "\n";
    MessageIsBlocks(e);
    hide FormatSse, WireClean, IdBlock, EventBlock;
    BlocksHaveNoBlankLine(i, v, d);
    hide IsBlock;
    var body := (i + v) + d;
    var t := FormatSse(e)[..k];
    assert t == body[..k];
    CutWaits(body, k);
  }

  lemma BlocksHaveNoBlankLine(i: string, v: string, d: string)
    requires IsBlock(i) && IsBlock(v) && IsBlock(d)
    ensures NoBlankLine((i + v) + d) && '\r' !in (i + v) + d
  {
    NoBlankLineJoin(i, v);
    NoBlankLineJoin(i + v, d);
  }

  lemma CutWaits(body: string, k: nat)
    requires k <= |body| && NoBlankLine(body) && '\r' !in body
    ensures Client(IterLines(body[..k]), "") == Listened([], Eof)
  {
    var t := body[..k];
    hide IterLines, Client;
    LinesKeepText(t);
    assert "" + t == t;
    ClientWaits(IterLines(t), "");
  }

  /** What a client reads of a whole body is clean: the events up to and including the first "exit". */
  predicate CleanToExit(es: seq<Event>) {
    es == [] || (WireClean(es[0]) && (IsExit(es[0]) || CleanToExit(es[1..])))
  }

  /** The same for a body cut after `k` characters: events behind the cut play no part either. */
  predicate CleanToCut(es: seq<Event>, k: nat) {
    || es == []
    || k == 0
    || (WireClean(es[0])
        && (IsExit(es[0]) || k < |FormatSse(es[0])| || CleanToCut(es[1..], k - |FormatSse(es[0])|)))
  }

  lemma {:induction false} CleanWherever(es: seq<Event>, k: nat)
    requires CleanToExit(es)
    ensures CleanToCut(es, k)
  {
    hide FormatSse, WireClean;
    if es != [] && k > 0 && !IsExit(es[0]) && k >= |FormatSse(es[0])| {
      CleanWherever(es[1..], k - |FormatSse(es[0])|);
    }
  }

  lemma {:induction false} AllCleanToExit(es: seq<Event>)
    requires AllWireClean(es)
    ensures CleanToExit(es)
  {
    hide WireClean;
    if es != [] {
      AllCleanToExit(es[1..]);
    }
  }

  /** The client yields exactly the whole messages of the first `k` characters, up to the first "exit". */
  predicate Recovers(es: seq<Event>, k: nat)
    requires k <= |Wire(es)|
  {
    var seen := es[..WholeMessages(es, k)];
    Client(IterLines(Wire(es)[..k]), "") == Listened(UpToExit(seen), if HasExit(seen) then Exit else Eof)
  }

  /**
    A body cut after any number of characters: the client yields exactly the
    whole messages before the cut, up to the first "exit".
   */
  lemma CutBody(es: seq<Event>, k: nat)
    requires k <= |Wire(es)| && CleanToCut(es, k)
    ensures var seen := es[..WholeMessages(es, k)];
            Client(IterLines(Wire(es)[..k]), "") == Listened(UpToExit(seen), if HasExit(seen) then Exit else Eof)
  {
    CutRecovers(es, k);
  }

  lemma {:induction false} CutRecovers(es: seq<Event>, k: nat)
    requires k <= |Wire(es)| && CleanToCut(es, k)
    ensures Recovers(es, k)
  {
    hide Recovers, FormatSse, WireClean;
    if es == [] || k == 0 {
      CutNothing(es, k);
    } else if k < |FormatSse(es[0])| {
      CutInside(es, k);
    } else {
      WireStep(es);
      if !IsExit(es[0]) {
        CutRecovers(es[1..], k - |FormatSse(es[0])|);
      }
      CutBehind(es, k);
    }
  }

  lemma CutNothing(es: seq<Event>, k: nat)
    requires k <= |Wire(es)| && (es == [] || k == 0)
    ensures Recovers(es, k)
  {
    NothingWhole(es);
    NothingSeen();
    hide IterLines, Client, HasExit, UpToExit, FormatSse;
    assert Wire(es)[..k] == "" && es[..WholeMessages(es, k)] == [];
  }

  lemma CutInside(es: seq<Event>, k: nat)
    requires k <= |Wire(es)| && es != [] && WireClean(es[0]) && k < |FormatSse(es[0])|
    ensures Recovers(es, k)
  {
    hide IterLines, Client, HasExit, UpToExit, FormatSse, WireClean;
    WireStep(es);
    CutFirst(es[0], Wire(es[1..]), k);
    NothingSeen();
    assert es[..WholeMessages(es, k)] == [];
  }

  lemma CutBehind(es: seq<Event>, k: nat)
    requires k <= |Wire(es)| && es != [] && WireClean(es[0]) && |FormatSse(es[0])| <= k
    requires Wire(es) == FormatSse(es[0]) + Wire(es[1..])
    requires IsExit(es[0]) || Recovers(es[1..], k - |FormatSse(es[0])|)
    ensures Recovers(es, k)
  {
    var rest := k - |FormatSse(es[0])|;
    assert WholeMessages(es, k) == 1 + WholeMessages(es[1..], rest);
    hide IterLines, Client, HasExit, UpToExit, FormatSse, WireClean, ConcatMap, WholeMessages;
    CutFirst(es[0], Wire(es[1..]), k);
    ExitCons(es, WholeMessages(es[1..], rest));
  }

  lemma WireStep(es: seq<Event>)
    requires es != []
    ensures Wire(es) == FormatSse(es[0]) + Wire(es[1..])
  {
  }

  lemma NothingWhole(es: seq<Event>)
    ensures WholeMessages(es, 0) == 0
  {
    if es != [] {
      MessageIsLong(es[0]);
    }
  }

  lemma MessageIsLong(e: Event)
    ensures |FormatSse(e)| > 0
  {
  }

  lemma NothingSeen()
    ensures UpToExit([]) == [] && !HasExit([])
    ensures Client(IterLines(""), "") == Listened([], Eof)
  {
  }

  lemma ExitCons(es: seq<Event>, m: nat)
    requires es != [] && m <= |es| - 1
    ensures HasExit(es[..1 + m]) <==> IsExit(es[0]) || HasExit(es[1..][..m])
    ensures UpToExit(es[..1 + m]) == if IsExit(es[0]) then [] else [es[0]] + UpToExit(es[1..][..m])
  {
    assert es[..1 + m][1..] == es[1..][..m];
  }

  lemma CutFirst(e: Event, w: string, k: nat)
    requires WireClean(e) && k <= |FormatSse(e)| + |w|
    ensures Client(IterLines((FormatSse(e) + w)[..k]), "") ==
            if k < |FormatSse(e)| then Listened([], Eof)
            else if IsExit(e) then Listened([], Exit)
            else var r := Client(IterLines(w[..k - |FormatSse(e)|]), ""); r.(events := [e] + r.events)
  {
    CutPoint(FormatSse(e), w, k);
    if k < |FormatSse(e)| {
      CutMessage(e, k);
    } else {
      ClientReadsMessage(e, w[..k - |FormatSse(e)|]);
    }
  }

  lemma CutPoint(a: string, b: string, k: nat)
    requires k <= |a| + |b|
    ensures (a + b)[..k] == if k < |a| then a[..k] else a + b[..k - |a|]
  {
  }

  /** The whole body: printing and listening are inverse up to the first "exit". */
  lemma StreamRoundTrip(es: seq<Event>)
    requires CleanToExit(es)
    ensures Client(IterLines(Wire(es)), "") == Listened(UpToExit(es), if HasExit(es) then Exit else Eof)
  {
    CleanWherever(es, |Wire(es)|);
    CutBody(es, |Wire(es)|);
    hide IterLines, Client, CleanToExit, CleanToCut, UpToExit, HasExit;
    assert Wire(es)[..|Wire(es)|] == Wire(es);
    assert es[..|es|] == es;
  }

  lemma {:induction false} YieldedAreClean(lines: seq<string>, buffer: string)
    requires '\r' !in buffer && forall l <- lines :: '\r' !in l
    ensures AllWireClean(Client(lines, buffer).events)
  {
    if lines != [] {
      var b := buffer + lines[0];
      YieldedAreClean(lines[1..], b);
      YieldedAreClean(lines[1..], "");
      if ParseSse(b).Some? {
        assert WireClean(ParseSse(b).value);
      }
    }
  }

  /** Exactly the lists of clean events come back unchanged. */
  lemma StreamRoundTripExact(es: seq<Event>)
    requires !HasExit(es)
    ensures Client(IterLines(Wire(es)), "").events == es <==> AllWireClean(es)
  {
    if AllWireClean(es) {
      UpToExitStops(es);
      AllCleanToExit(es);
      StreamRoundTrip(es);
    }
    YieldedAreClean(IterLines(Wire(es)), "");
  }
}
