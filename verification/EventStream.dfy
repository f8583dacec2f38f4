/**
 The server's event stream (`crates/aurix-api/src/webhooks.rs`) and the client loop that reads
 it (`Api::sse` in `crates/aurix-cli/src/http.rs`), end to end.

 The server turns bus results into frames, drops what the caller must not see, and prints the
 frames with keep-alive comments in between; the network cuts the bytes anywhere; the client
 parses them back.
 */
module EventStream {
  import opened Words
  import opened Wrappers
  import opened Sse
  import Utf8
  import Decimal

  // ---- the server ------------------------------------------------------------------------------

  /** The public form of a bus event; `json` is missing when it cannot be serialised. */
  datatype Envelope = Envelope(id: string, json: Option<string>)

  datatype BusEvent = BusEvent(appId: Option<nat>, publicType: Option<string>, noise: bool, envelope: Option<Envelope>)

  datatype Received = Event(event: BusEvent) | Lagged(dropped: nat) | Closed

  datatype Frame = Message(event: string, id: Option<string>, data: string) | KeepAlive

  type Filter = Option<set<string>>

  /** The caller's tenant, a public type, and the filter; without one, everything but noise. */
  predicate Wanted(app: nat, filter: Filter, e: BusEvent) {
    && e.appId == Some(app)
    && e.publicType.Some?
    && (if filter.Some? then e.publicType.value in filter.value else !e.noise)
    && e.envelope.Some? && e.envelope.value.json.Some?
  }

  function EventFrame(e: BusEvent): Frame
    requires e.publicType.Some? && e.envelope.Some? && e.envelope.value.json.Some?
  {
    Message(e.publicType.value, Some(e.envelope.value.id), e.envelope.value.json.value)
  }

  function LaggedFrame(n: nat): Frame {
    Message("lagged", None, "{\"dropped\":" + Decimal.Print(n) + "}")
  }

  function OwedFor(app: nat, filter: Filter, r: Received): seq<Frame> {
    match r
    case Closed => []
    case Lagged(n) => [LaggedFrame(n)]
    case Event(e) => if Wanted(app, filter, e) then [EventFrame(e)] else []
  }

  /** The frames owed for a run of bus results: the wanted events and the lag notices, in order. */
  function Owed(app: nat, filter: Filter, rx: seq<Received>): seq<Frame> {
    if rx == [] || rx[0].Closed? then [] else OwedFor(app, filter, rx[0]) + Owed(app, filter, rx[1..])
  }

  function Hello(greeting: string): Frame {
    Message("stream.open", None, greeting)
  }

  class EventStream {
    const app: nat
    const filter: Filter
    var hello: Option<Frame>
    var rx: seq<Received>

    constructor (app: nat, filter: Filter, greeting: string, rx: seq<Received>)
      ensures this.app == app && this.filter == filter
      ensures Remaining() == [Hello(greeting)] + Owed(app, filter, rx)
    {
      this.app, this.filter, this.rx := app, filter, rx;
      hello := Some(Hello(greeting));
    }

    /** Everything the stream will still yield. */
    ghost function Remaining(): seq<Frame>
      reads this
    {
      (if hello.Some? then [hello.value] else []) + Owed(app, filter, rx)
    }

    /** The next frame; none once the bus is closed, or nothing more has been received. */
    method Next() returns (frame: Option<Frame>)
      modifies this
      ensures frame.Some? ==> old(Remaining()) == [frame.value] + Remaining()
      ensures frame.None? ==> old(Remaining()) == []
    {
      if hello.Some? {
        frame := hello;
        hello := None;
        return;
      }
      while rx != []
        invariant hello.None? && Remaining() == old(Remaining())
        decreases |rx|
      {
        var received := rx[0];
        if received.Closed? {
          return None;
        }
        rx := rx[1..];
        if received.Lagged? {
          return Some(LaggedFrame(received.dropped));
        }
        var e := received.event;
        if e.appId != Some(app) || e.publicType.None? {
          continue;
        }
        if filter.Some? && e.publicType.value !in filter.value {
          continue;
        }
        if filter.None? && e.noise {
          continue;
        }
        if e.envelope.None? || e.envelope.value.json.None? {
          continue;
        }
        return Some(EventFrame(e));
      }
      return None;
    }
  }

  // ---- printing --------------------------------------------------------------------------------

  /** No line breaks: the printer refuses such values. */
  predicate LineSafe(s: string) {
    '\n' !in s && '\r' !in s
  }

  predicate Printable(f: Frame) {
    f.Message? ==>
      && LineSafe(f.event) && LineSafe(f.data)
      && (f.id.Some? ==> LineSafe(f.id.value) && '\0' !in f.id.value)
  }

  function FrameLines(f: Frame): seq<string> {
    match f
    case KeepAlive => [": keepalive", ""]
    case Message(event, id, data) =>
      [FieldLine("event", event)]
        + (if id.Some? then [FieldLine("id", id.value)] else [])
        + [FieldLine("data", data), ""]
  }

  function FieldLine(name: string, value: string): (line: string)
    ensures name != "" ==> line != ""
  {
    name + ": " + value
  }

  function WireLines(wire: seq<Frame>): seq<string> {
    if wire == [] then [] else FrameLines(wire[0]) + WireLines(wire[1..])
  }

  function EncodeLines(lines: seq<string>): (raw: seq<seq<byte>>)
    ensures |raw| == |lines| && forall i :: 0 <= i < |raw| ==> raw[i] == Utf8.Encode(lines[i])
  {
    seq(|lines|, i requires 0 <= i < |lines| => Utf8.Encode(lines[i]))
  }

  /** The bytes on the wire: every line, encoded, with a newline after it. */
  function Print(lines: seq<string>): seq<byte> {
    if lines == [] then [] else Utf8.Encode(lines[0]) + [LF] + Print(lines[1..])
  }

  // ---- parsing printed lines back ------------------------------------------------------------------

  lemma FindFirst(a: string, c: char, b: string)
    requires c !in a
    ensures Find(a + [c] + b, c) == |a|
  {
    var s := a + [c] + b;
    assert s[|a|] == c && s[..|a|] == a;
  }

  /** A printed field reads back as its name and its value, leading spaces included. */
  lemma FieldRoundTrip(name: string, value: string)
    requires ':' !in name
    ensures FieldName(FieldLine(name, value)) == name && FieldValue(FieldLine(name, value)) == value
  {
    var line := name + ": " + value;
    assert line == name + [':'] + (" " + value);
    FindFirst(name, ':', " " + value);
    assert line[|name| + 1..] == " " + value;
  }

  lemma DecodeLine(line: string)
    requires LineSafe(line)
    ensures LF !in Utf8.Encode(line)
    ensures Utf8.Lossy(WithoutCr(Utf8.Encode(line))) == line
  {
    Utf8.EncodeAscii(line, LF);
    Utf8.EncodeAscii(line, CR);
    Utf8.LossyOfEncode(line);
    var b := Utf8.Encode(line);
    assert b != [] ==> b[|b| - 1] in b;
  }

  /** Feeding an encoded line is feeding the line. */
  function Feed(p: Pending, line: string): Parse {
    if line == [] then Parse(NOTHING, Dispatched(p)) else Parse(Absorb(p, line), [])
  }

  lemma FeedEncoded(p: Pending, line: string)
    requires LineSafe(line)
    ensures FeedLine(p, Utf8.Encode(line)) == Feed(p, line)
  {
    DecodeLine(line);
  }

  /** The pending event after a printed field line. */
  lemma AbsorbField(p: Pending, name: string, value: string)
    requires ':' !in name && name != ""
    ensures Absorb(p, FieldLine(name, value)) ==
      match name
      case "event" => p.(event := Some(value))
      case "data" => p.(data := p.data + [value])
      case "id" => if '\0' in value then p else p.(id := Some(value))
      case _ => p
  {
    FieldRoundTrip(name, value);
    assert FieldLine(name, value)[0] == name[0] && name[0] in name;
  }

  lemma AbsorbMessage(f: Frame)
    requires f.Message? && Printable(f)
    ensures Absorb(NOTHING, FieldLine("event", f.event)) == Pending(Some(f.event), None, [])
    ensures f.id.Some? ==>
      Absorb(Pending(Some(f.event), None, []), FieldLine("id", f.id.value)) == Pending(Some(f.event), f.id, [])
    ensures Absorb(Pending(Some(f.event), f.id, []), FieldLine("data", f.data))
      == Pending(Some(f.event), f.id, [f.data])
  {
    AbsorbField(NOTHING, "event", f.event);
    if f.id.Some? {
      AbsorbField(Pending(Some(f.event), None, []), "id", f.id.value);
    }
    AbsorbField(Pending(Some(f.event), f.id, []), "data", f.data);
    assert [] + [f.data] == [f.data];
  }

  /** What the client gets from a frame. */
  function FrameEvents(f: Frame): seq<SseEvent> {
    match f
    case KeepAlive => []
    case Message(event, id, data) => [SseEvent(event, id, data)]
  }

  function WireEvents(wire: seq<Frame>): seq<SseEvent> {
    if wire == [] then [] else FrameEvents(wire[0]) + WireEvents(wire[1..])
  }

  /** The three or four lines of a frame, fed from an empty state, hand over its event. */
  lemma RunFrame(f: Frame, rest: seq<string>)
    requires Printable(f)
    ensures RunWith(FeedLine, NOTHING, EncodeLines(FrameLines(f) + rest))
         == Prepend(FrameEvents(f), RunWith(FeedLine, NOTHING, EncodeLines(rest)))
  {
    if f.KeepAlive? {
      RunKeepAlive(rest);
    } else {
      RunMessage(f, rest);
    }
  }

  lemma RunText(p: Pending, line: string, rest: seq<string>)
    requires LineSafe(line) && line != ""
    ensures RunWith(FeedLine, p, EncodeLines([line] + rest)) == RunWith(FeedLine, Absorb(p, line), EncodeLines(rest))
  {
    FeedEncoded(p, line);
    var raw := EncodeLines([line] + rest);
    assert raw[0] == Utf8.Encode(line) && raw[1..] == EncodeLines(rest);
    var r := RunWith(FeedLine, Absorb(p, line), EncodeLines(rest));
    assert [] + r.events == r.events;
  }

  lemma RunBlank(p: Pending, rest: seq<string>)
    ensures RunWith(FeedLine, p, EncodeLines([""] + rest))
      == Prepend(Dispatched(p), RunWith(FeedLine, NOTHING, EncodeLines(rest)))
  {
    FeedEncoded(p, "");
    var raw := EncodeLines([""] + rest);
    assert raw[0] == Utf8.Encode("") && raw[1..] == EncodeLines(rest);
  }

  lemma RunKeepAlive(rest: seq<string>)
    ensures RunWith(FeedLine, NOTHING, EncodeLines(FrameLines(KeepAlive) + rest))
      == Prepend([], RunWith(FeedLine, NOTHING, EncodeLines(rest)))
  {
    var comment := ": keepalive";
    assert FrameLines(KeepAlive) + rest == [comment] + ([""] + rest);
    assert comment[0] == ':';
    RunText(NOTHING, comment, [""] + rest);
    RunBlank(NOTHING, rest);
  }

  lemma RunMessage(f: Frame, rest: seq<string>)
    requires f.Message? && Printable(f)
    ensures RunWith(FeedLine, NOTHING, EncodeLines(FrameLines(f) + rest))
         == Prepend(FrameEvents(f), RunWith(FeedLine, NOTHING, EncodeLines(rest)))
  {
    var last := [FieldLine("data", f.data)] + ([""] + rest);
    FieldLinesAreSafe(f);
    AbsorbMessage(f);
    if f.id.Some? {
      var id := FieldLine("id", f.id.value);
      assert FrameLines(f) + rest == [FieldLine("event", f.event)] + ([id] + last);
      RunText(NOTHING, FieldLine("event", f.event), [id] + last);
      RunText(Pending(Some(f.event), None, []), id, last);
    } else {
      assert FrameLines(f) + rest == [FieldLine("event", f.event)] + last;
      RunText(NOTHING, FieldLine("event", f.event), last);
    }
    RunText(Pending(Some(f.event), f.id, []), FieldLine("data", f.data), [""] + rest);
    RunBlank(Pending(Some(f.event), f.id, [f.data]), rest);
  }

  lemma FieldLinesAreSafe(f: Frame)
    requires f.Message? && Printable(f)
    ensures LineSafe(FieldLine("event", f.event)) && LineSafe(FieldLine("data", f.data))
    ensures f.id.Some? ==> LineSafe(FieldLine("id", f.id.value))
  {
  }

  // ---- end to end ----------------------------------------------------------------------------------

  lemma {:induction false} RunWire(wire: seq<Frame>)
    requires forall i :: 0 <= i < |wire| ==> Printable(wire[i])
    ensures RunWith(FeedLine, NOTHING, EncodeLines(WireLines(wire))) == Parse(NOTHING, WireEvents(wire))
    decreases |wire|
  {
    if wire == [] {
      assert EncodeLines([]) == [];
    } else {
      RunWire(wire[1..]);
      RunFrame(wire[0], WireLines(wire[1..]));
    }
  }

  lemma {:induction false} PrintIsJoin(lines: seq<string>)
    ensures Print(lines) == JoinSplit(Split(EncodeLines(lines), []))
    decreases |lines|
  {
    if lines != [] {
      PrintIsJoin(lines[1..]);
      assert EncodeLines(lines)[1..] == EncodeLines(lines[1..]);
    }
  }

  lemma {:induction false} WireLinesAreSafe(wire: seq<Frame>)
    requires forall i :: 0 <= i < |wire| ==> Printable(wire[i])
    ensures forall i :: 0 <= i < |WireLines(wire)| ==> LineSafe(WireLines(wire)[i])
    decreases |wire|
  {
    if wire != [] {
      WireLinesAreSafe(wire[1..]);
      FrameLinesAreSafe(wire[0]);
    }
  }

  lemma FrameLinesAreSafe(f: Frame)
    requires Printable(f)
    ensures forall i :: 0 <= i < |FrameLines(f)| ==> LineSafe(FrameLines(f)[i])
  {
    if f.Message? {
      FieldLinesAreSafe(f);
    }
  }

  lemma PrintedWireSplits(wire: seq<Frame>)
    requires forall i :: 0 <= i < |wire| ==> Printable(wire[i])
    ensures SplitLines(Print(WireLines(wire))) == Split(EncodeLines(WireLines(wire)), [])
  {
    var lines := WireLines(wire);
    WireLinesAreSafe(wire);
    forall i | 0 <= i < |lines|
      ensures LF !in EncodeLines(lines)[i]
    {
      DecodeLine(lines[i]);
    }
    PrintIsJoin(lines);
    SplitLinesIsUnique(Print(lines), Split(EncodeLines(lines), []));
  }

  /** A parser before its first chunk. */
  const START: State := State([], NOTHING)

  /** Printed frames, cut anywhere, parse back to exactly their events, with nothing left over. */
  lemma WireRoundTrip(wire: seq<Frame>, chunks: seq<seq<byte>>)
    requires forall i :: 0 <= i < |wire| ==> Printable(wire[i])
    requires Flatten(chunks) == Print(WireLines(wire))
    ensures PushAll(START, chunks) == (START, WireEvents(wire))
  {
    ChunkingDoesNotMatter(START, chunks);
    assert [] + Flatten(chunks) == Flatten(chunks);
    PrintedWireSplits(wire);
    RunWire(wire);
  }

  /** The frames without the keep-alive comments. */
  function Strip(wire: seq<Frame>): seq<Frame> {
    if wire == [] then []
    else (if wire[0].KeepAlive? then [] else [wire[0]]) + Strip(wire[1..])
  }

  lemma {:induction false} StripKeepsEvents(wire: seq<Frame>)
    ensures WireEvents(Strip(wire)) == WireEvents(wire)
    decreases |wire|
  {
    if wire != [] {
      StripKeepsEvents(wire[1..]);
      var s := Strip(wire[1..]);
      assert WireEvents([wire[0]] + s) == FrameEvents(wire[0]) + WireEvents(([wire[0]] + s)[1..]);
      assert ([wire[0]] + s)[1..] == s && [] + s == s;
    }
  }

  /** The events the frames owed for a run of bus results carry. */
  function Delivered(app: nat, filter: Filter, rx: seq<Received>): seq<SseEvent> {
    WireEvents(Owed(app, filter, rx))
  }

  /** Types, ids and JSON bodies hold no line breaks, and ids no NUL. */
  ghost predicate CleanResult(app: nat, filter: Filter, r: Received) {
    r.Event? && Wanted(app, filter, r.event) ==> Printable(EventFrame(r.event))
  }

  lemma LaggedIsPrintable(n: nat)
    ensures Printable(LaggedFrame(n))
  {
    var s := Decimal.Print(n);
    assert forall i :: 0 <= i < |s| ==> Decimal.IsDigit(s[i]);
    assert LineSafe(s);
    assert LineSafe("{\"dropped\":") && LineSafe("}");
  }

  ghost predicate AllPrintable(frames: seq<Frame>) {
    forall i :: 0 <= i < |frames| ==> Printable(frames[i])
  }

  lemma {:induction false} OwedIsPrintable(app: nat, filter: Filter, rx: seq<Received>)
    requires forall r :: r in rx ==> CleanResult(app, filter, r)
    ensures AllPrintable(Owed(app, filter, rx))
    decreases |rx|
  {
    if rx != [] && !rx[0].Closed? {
      assert rx[0] in rx;
      assert forall r :: r in rx[1..] ==> r in rx;
      OwedIsPrintable(app, filter, rx[1..]);
      if rx[0].Lagged? {
        LaggedIsPrintable(rx[0].dropped);
      }
    }
  }

  lemma WireEventsFirst(f: Frame, rest: seq<Frame>)
    ensures WireEvents([f] + rest) == FrameEvents(f) + WireEvents(rest)
  {
    assert ([f] + rest)[1..] == rest;
  }

  lemma {:induction false} StripPrintable(wire: seq<Frame>)
    requires AllPrintable(Strip(wire))
    ensures AllPrintable(wire)
    decreases |wire|
  {
    if wire != [] {
      var s := Strip(wire[1..]);
      if wire[0].Message? {
        assert wire[0] == Strip(wire)[0] && s == Strip(wire)[1..];
      } else {
        assert s == Strip(wire);
      }
      StripPrintable(wire[1..]);
    }
  }

  lemma HelloIsPrintable(greeting: string)
    requires LineSafe(greeting)
    ensures Printable(Hello(greeting))
  {
    assert LineSafe("stream.open");
  }

  /**
   Bus to subscriber: whatever the bus does, wherever keep-alives fall and however the bytes
   are cut, the client reads the greeting and then exactly what it is owed, in order.
   */
  lemma StreamReachesClient(app: nat, filter: Filter, greeting: string, rx: seq<Received>, wire: seq<Frame>,
      chunks: seq<seq<byte>>)
    requires LineSafe(greeting) && forall r :: r in rx ==> CleanResult(app, filter, r)
    requires Strip(wire) == [Hello(greeting)] + Owed(app, filter, rx)
    requires Flatten(chunks) == Print(WireLines(wire))
    ensures PushAll(START, chunks) == (START, [SseEvent("stream.open", None, greeting)] + Delivered(app, filter, rx))
  {
    HelloIsPrintable(greeting);
    OwedIsPrintable(app, filter, rx);
    StripPrintable(wire);
    StripKeepsEvents(wire);
    WireEventsFirst(Hello(greeting), Owed(app, filter, rx));
    WireRoundTrip(wire, chunks);
  }

  /** At any moment the client has read a prefix of what the stream holds. */
  lemma PartialStreamIsPrefix(received: seq<byte>, unread: seq<byte>)
    ensures PushState(START, received).1 <= PushState(START, received + unread).1
  {
    PushAppend(START, received, unread);
  }

  /**
   What the client should read of one bus result: a lag notice; or an event of the caller's own
   tenant with a public type that passes the filter, without a filter if it is no noise, and with
   an envelope that can be serialised, under this type and with the id and the body of the envelope.
   */
  ghost predicate Carries(app: nat, filter: Filter, r: Received, ev: SseEvent) {
    match r
    case Closed => false
    case Lagged(n) => ev == SseEvent("lagged", None, "{\"dropped\":" + Decimal.Print(n) + "}")
    case Event(e) =>
      && e.appId == Some(app)
      && e.publicType == Some(ev.event)
      && (filter.Some? ==> ev.event in filter.value)
      && (filter.None? ==> !e.noise)
      && e.envelope.Some? && ev.id == Some(e.envelope.value.id) && e.envelope.value.json == Some(ev.data)
  }

  /** The bus has not been closed up to this result. */
  ghost predicate IsOpen(rx: seq<Received>, i: nat) {
    i < |rx| && forall j :: 0 <= j <= i ==> !rx[j].Closed?
  }

  lemma OwedForExactly(app: nat, filter: Filter, r: Received)
    ensures |WireEvents(OwedFor(app, filter, r))| <= 1
    ensures forall ev :: Carries(app, filter, r, ev) <==> WireEvents(OwedFor(app, filter, r)) == [ev]
  {
    var owed := OwedFor(app, filter, r);
    if owed != [] {
      WireEventsFirst(owed[0], []);
      assert owed == [owed[0]] + [];
      assert WireEvents(owed) == [SseEvent(owed[0].event, owed[0].id, owed[0].data)];
      assert forall ev :: WireEvents(owed) == [ev] <==> ev == WireEvents(owed)[0];
    }
  }

  lemma DeliveredFirst(app: nat, filter: Filter, rx: seq<Received>)
    requires rx != [] && !rx[0].Closed?
    ensures Delivered(app, filter, rx) == WireEvents(OwedFor(app, filter, rx[0])) + Delivered(app, filter, rx[1..])
  {
    var owed, rest := OwedFor(app, filter, rx[0]), Owed(app, filter, rx[1..]);
    if owed == [] {
      assert owed + rest == rest;
    } else {
      WireEventsFirst(owed[0], []);
      WireEventsFirst(owed[0], rest);
      assert owed == [owed[0]] + [] && owed + rest == [owed[0]] + rest;
    }
  }

  /** The events delivered, one by one, come from these results. */
  ghost predicate ComesFrom(app: nat, filter: Filter, rx: seq<Received>, events: seq<SseEvent>, source: seq<nat>) {
    && |source| == |events|
    && (forall k, l :: 0 <= k < l < |source| ==> source[k] < source[l])
    && (forall k :: 0 <= k < |source| ==> IsOpen(rx, source[k]) && Carries(app, filter, rx[source[k]], events[k]))
  }

  ghost predicate AllAreRead(app: nat, filter: Filter, rx: seq<Received>, source: seq<nat>) {
    forall i: nat, ev :: IsOpen(rx, i) && Carries(app, filter, rx[i], ev) ==> i in source
  }

  function Shifted(source: seq<nat>): (r: seq<nat>)
    ensures |r| == |source| && forall k :: 0 <= k < |r| ==> r[k] == source[k] + 1
  {
    seq(|source|, k requires 0 <= k < |source| => source[k] + 1)
  }

  lemma ComesFromLater(app: nat, filter: Filter, rx: seq<Received>, events: seq<SseEvent>, source: seq<nat>)
    requires rx != [] && !rx[0].Closed? && ComesFrom(app, filter, rx[1..], events, source)
    ensures ComesFrom(app, filter, rx, events, Shifted(source))
  {
    forall k | 0 <= k < |source|
      ensures IsOpen(rx, source[k] + 1) && Carries(app, filter, rx[source[k] + 1], events[k])
    {
      assert IsOpen(rx[1..], source[k]);
      OpenLater(rx, source[k] + 1);
    }
  }

  lemma ComesFromFirst(app: nat, filter: Filter, rx: seq<Received>, ev: SseEvent, events: seq<SseEvent>,
      source: seq<nat>)
    requires rx != [] && !rx[0].Closed? && Carries(app, filter, rx[0], ev)
    requires ComesFrom(app, filter, rx, events, source) && forall k :: 0 <= k < |source| ==> source[k] > 0
    ensures ComesFrom(app, filter, rx, [ev] + events, [0] + source)
  {
  }

  lemma OpenLater(rx: seq<Received>, i: nat)
    requires 0 < i < |rx|
    ensures IsOpen(rx, i) <==> !rx[0].Closed? && IsOpen(rx[1..], i - 1)
  {
    assert forall j :: 0 < j < |rx| ==> rx[j] == rx[1..][j - 1];
    assert forall j :: 0 <= j < |rx| - 1 ==> rx[1..][j] == rx[j + 1];
  }

  /**
   The client reads exactly what it should of every result before the bus is closed, in their
   order: each event read comes from one, and each result that carries an event is read.
   */
  lemma {:induction false} DeliveredExactly(app: nat, filter: Filter, rx: seq<Received>) returns (source: seq<nat>)
    ensures ComesFrom(app, filter, rx, Delivered(app, filter, rx), source)
    ensures AllAreRead(app, filter, rx, source)
    decreases |rx|
  {
    if rx == [] || rx[0].Closed? {
      source := [];
    } else {
      var later := DeliveredExactly(app, filter, rx[1..]);
      DeliveredFirst(app, filter, rx);
      OwedForExactly(app, filter, rx[0]);
      ComesFromLater(app, filter, rx, Delivered(app, filter, rx[1..]), later);
      var first := WireEvents(OwedFor(app, filter, rx[0]));
      if first == [] {
        assert first + Delivered(app, filter, rx[1..]) == Delivered(app, filter, rx[1..]);
        source := Shifted(later);
      } else {
        ComesFromFirst(app, filter, rx, first[0], Delivered(app, filter, rx[1..]), Shifted(later));
        source := [0] + Shifted(later);
      }
      AllAreStillRead(app, filter, rx, later, source);
    }
  }

  lemma AllAreStillRead(app: nat, filter: Filter, rx: seq<Received>, later: seq<nat>, source: seq<nat>)
    requires rx != [] && !rx[0].Closed? && AllAreRead(app, filter, rx[1..], later)
    requires source == Shifted(later) || source == [0] + Shifted(later)
    requires source == Shifted(later) ==> forall ev :: !Carries(app, filter, rx[0], ev)
    ensures AllAreRead(app, filter, rx, source)
  {
    forall i: nat, ev | IsOpen(rx, i) && Carries(app, filter, rx[i], ev)
      ensures i in source
    {
      if i > 0 {
        OpenLater(rx, i);
        assert rx[i] == rx[1..][i - 1];
        var k :| 0 <= k < |later| && later[k] == i - 1;
        assert Shifted(later)[k] == i;
      }
    }
  }

  /** Every event with an id was a wanted event of the caller's own tenant, as the bus published it. */
  lemma OnlyWantedEventsAreDelivered(app: nat, filter: Filter, rx: seq<Received>, ev: SseEvent)
    requires ev in Delivered(app, filter, rx) && ev.id.Some?
    ensures exists r :: r in rx && r.Event? && Carries(app, filter, r, ev)
  {
    var source := DeliveredExactly(app, filter, rx);
    var k :| 0 <= k < |source| && Delivered(app, filter, rx)[k] == ev;
    assert rx[source[k]] in rx;
  }

  // ---- the client loop -----------------------------------------------------------------------------

  /** The id of the last event that carries one, or the id the caller resumed from. */
  function LastId(start: Option<string>, events: seq<SseEvent>): Option<string> {
    if events == [] then start
    else if events[|events| - 1].id.Some? then events[|events| - 1].id
    else LastId(start, events[..|events| - 1])
  }

  /** The events up to and including number `stop`, the first one the callback declines. */
  function UpTo(events: seq<SseEvent>, stop: Option<nat>): seq<SseEvent> {
    if stop.Some? && stop.value < |events| then events[..stop.value + 1] else events
  }

  /**
   Read chunks until they end or the callback declines an event, number `stop` at the earliest.
   Hands over exactly the events before that point and returns the id of the last one that
   carries an id, or the id the caller resumed from.
   */
  method ReadEvents(chunks: seq<seq<byte>>, start: Option<string>, stop: Option<nat>)
    returns (lastId: Option<string>, handed: seq<SseEvent>)
    ensures handed == UpTo(PushAll(START, chunks).1, stop)
    ensures lastId == LastId(start, handed)
  {
    var parser := new SseParser();
    lastId, handed := start, [];
    for i := 0 to |chunks|
      invariant HasRead(chunks, i, State(parser.buf, parser.State()), handed)
      invariant stop.Some? ==> |handed| <= stop.value
      invariant lastId == LastId(start, handed)
    {
      ghost var before := State(parser.buf, parser.State());
      var events := parser.Push(chunks[i]);
      ghost var now, sofar := State(parser.buf, parser.State()), handed + events;
      ReadsOn(chunks, i, before, handed, now, events);
      var stopped;
      lastId, handed, stopped := HandOver(events, start, stop, lastId, handed);
      if stopped {
        StopsEarly(chunks, i + 1, now, sofar, stop);
        return;
      }
    }
    ReadsAll(chunks, State(parser.buf, parser.State()), handed);
    UpToAll(handed, stop);
  }

  /** The parser's state and the events after this many chunks. */
  ghost predicate HasRead(chunks: seq<seq<byte>>, i: nat, s: State, events: seq<SseEvent>) {
    i <= |chunks| && PushAll(START, chunks[..i]) == (s, events)
  }

  lemma ReadsOn(chunks: seq<seq<byte>>, i: nat, s: State, events: seq<SseEvent>, t: State, more: seq<SseEvent>)
    requires i < |chunks| && HasRead(chunks, i, s, events)
    requires var split := SplitLines(s.buf + chunks[i]);
      t.buf == split.rest && Parse(t.pending, more) == Run(s.pending, split.lines)
    ensures HasRead(chunks, i + 1, t, events + more)
  {
    PushAllSnoc(START, chunks, i);
  }

  lemma StopsEarly(chunks: seq<seq<byte>>, i: nat, s: State, events: seq<SseEvent>, stop: Option<nat>)
    requires HasRead(chunks, i, s, events) && stop.Some? && stop.value < |events|
    ensures UpTo(events, stop) == UpTo(PushAll(START, chunks).1, stop)
  {
    PushAllPrefix(START, chunks, i);
    UpToPrefix(events, PushAll(START, chunks).1, stop);
  }

  lemma ReadsAll(chunks: seq<seq<byte>>, s: State, events: seq<SseEvent>)
    requires HasRead(chunks, |chunks|, s, events)
    ensures PushAll(START, chunks) == (s, events)
  {
    assert chunks[..|chunks|] == chunks;
  }

  /** The inner loop: hand over one chunk's events after those already handed over. */
  method HandOver(events: seq<SseEvent>, ghost start: Option<string>, stop: Option<nat>, last: Option<string>,
      sofar: seq<SseEvent>)
    returns (lastId: Option<string>, handed: seq<SseEvent>, stopped: bool)
    requires last == LastId(start, sofar) && (stop.Some? ==> |sofar| <= stop.value)
    ensures handed == UpTo(sofar + events, stop) && lastId == LastId(start, handed)
    ensures stopped <==> stop.Some? && stop.value < |sofar + events|
    ensures !stopped ==> handed == sofar + events && (stop.Some? ==> |handed| <= stop.value)
  {
    lastId, handed := last, sofar;
    for j := 0 to |events|
      invariant handed == sofar + events[..j]
      invariant stop.Some? ==> |handed| <= stop.value
      invariant lastId == LastId(start, handed)
    {
      assert (handed + [events[j]])[..|handed|] == handed;
      if events[j].id.Some? {
        lastId := events[j].id;
      }
      handed := handed + [events[j]];
      if stop == Some(|handed| - 1) {
        return lastId, handed, true;
      }
    }
    assert events[..|events|] == events;
    return lastId, handed, false;
  }

  lemma UpToAll(a: seq<SseEvent>, stop: Option<nat>)
    requires stop.Some? ==> |a| <= stop.value
    ensures UpTo(a, stop) == a
  {
  }

  lemma UpToPrefix(a: seq<SseEvent>, b: seq<SseEvent>, stop: Option<nat>)
    requires a <= b && stop.Some? && stop.value < |a|
    ensures UpTo(a, stop) == UpTo(b, stop)
  {
  }

  lemma PushAllSnoc(s: State, chunks: seq<seq<byte>>, i: nat)
    requires i < |chunks|
    ensures var before := PushAll(s, chunks[..i]); var step := PushState(before.0, chunks[i]);
      PushAll(s, chunks[..i + 1]) == (step.0, before.1 + step.1)
  {
    assert chunks[..i + 1][..i] == chunks[..i];
  }

  lemma {:induction false} PushAllPrefix(s: State, chunks: seq<seq<byte>>, i: nat)
    requires i <= |chunks|
    ensures PushAll(s, chunks[..i]).1 <= PushAll(s, chunks).1
    decreases |chunks| - i
  {
    if i == |chunks| {
      assert chunks[..i] == chunks;
    } else {
      PushAllSnoc(s, chunks, i);
      PushAllPrefix(s, chunks, i + 1);
    }
  }
}
