/**
 The incremental `text/event-stream` parser of the command-line client
 (`crates/aurix-cli/src/http.rs`).

 `SseParser.Push` keeps an unfinished line in its buffer between chunks.  Its meaning is given
 by `SplitLines` and `Run`: cut the whole stream at its newlines, feed the complete lines one
 by one, keep the rest.  The parser differs from section 9.2.6 of the WHATWG HTML standard: a
 lone carriage return ends no line, an id does not outlive its event, and an event with an
 empty data buffer is dispatched.
 */
module Sse {
  import opened Words
  import opened Wrappers
  import Utf8

  const LF: byte := 10
  const CR: byte := 13

  datatype SseEvent = SseEvent(event: string, id: Option<string>, data: string)

  /** The event being assembled. */
  datatype Pending = Pending(event: Option<string>, id: Option<string>, data: seq<string>)

  const NOTHING: Pending := Pending(None, None, [])

  // ---- one line ------------------------------------------------------------------------------

  function WithoutCr(line: seq<byte>): seq<byte> {
    if line != [] && line[|line| - 1] == CR then line[..|line| - 1] else line
  }

  /** Position of the first `c`, or the length of the string. */
  function Find(s: string, c: char): (i: nat)
    ensures i <= |s| && c !in s[..i] && (i < |s| ==> s[i] == c)
  {
    if s == [] then 0
    else if s[0] == c then 0
    else
      var i := 1 + Find(s[1..], c);
      assert s[..i] == [s[0]] + s[1..][..i - 1];
      i
  }

  function StripSpace(s: string): string {
    if s != [] && s[0] == ' ' then s[1..] else s
  }

  /** Field name and value: the text around the first colon, less one leading space. */
  function FieldName(line: string): string {
    line[..Find(line, ':')]
  }

  function FieldValue(line: string): string {
    var i := Find(line, ':');
    if i == |line| then "" else StripSpace(line[i + 1..])
  }

  function JoinLines(lines: seq<string>): string {
    if lines == [] then ""
    else if |lines| == 1 then lines[0]
    else lines[0] + "\n" + JoinLines(lines[1..])
  }

  /** What a blank line hands over, if anything is pending. */
  function Dispatched(p: Pending): seq<SseEvent> {
    if p == NOTHING then []
    else [SseEvent(if p.event.Some? then p.event.value else "message", p.id, JoinLines(p.data))]
  }

  /** The pending event after a line that is not blank. */
  function Absorb(p: Pending, line: string): Pending {
    if line != [] && line[0] == ':' then p
    else
      var value := FieldValue(line);
      match FieldName(line)
      case "event" => p.(event := Some(value))
      case "data" => p.(data := p.data + [value])
      case "id" => if '\0' in value then p else p.(id := Some(value))
      case _ => p
  }

  // ---- whole streams -------------------------------------------------------------------------

  datatype Parse = Parse(pending: Pending, events: seq<SseEvent>)

  function FeedLine(p: Pending, raw: seq<byte>): Parse {
    var line := Utf8.Lossy(WithoutCr(raw));
    if line == [] then Parse(NOTHING, Dispatched(p)) else Parse(Absorb(p, line), [])
  }

  /** Feed lines one by one and collect what they hand over. */
  function RunWith(feed: (Pending, seq<byte>) -> Parse, p: Pending, lines: seq<seq<byte>>): Parse
    decreases lines
  {
    if lines == [] then Parse(p, [])
    else
      var first := feed(p, lines[0]);
      Prepend(first.events, RunWith(feed, first.pending, lines[1..]))
  }

  function Prepend(events: seq<SseEvent>, p: Parse): Parse {
    Parse(p.pending, events + p.events)
  }

  function Run(p: Pending, lines: seq<seq<byte>>): Parse {
    RunWith(FeedLine, p, lines)
  }

  datatype Split = Split(lines: seq<seq<byte>>, rest: seq<byte>)

  /** Position of the first newline, or the length of the bytes. */
  function Newline(b: seq<byte>): (i: nat)
    ensures i <= |b| && LF !in b[..i] && (i < |b| ==> b[i] == LF)
  {
    if b == [] || b[0] == LF then 0
    else
      var i := 1 + Newline(b[1..]);
      assert b[..i] == [b[0]] + b[1..][..i - 1];
      i
  }

  function SplitLines(b: seq<byte>): Split
    decreases |b|
  {
    var i := Newline(b);
    if i == |b| then Split([], b)
    else
      var s := SplitLines(b[i + 1..]);
      Split([b[..i]] + s.lines, s.rest)
  }

  /** The bytes of complete lines followed by an unfinished one. */
  function JoinSplit(s: Split): seq<byte>
    decreases |s.lines|
  {
    if s.lines == [] then s.rest
    else s.lines[0] + [LF] + JoinSplit(Split(s.lines[1..], s.rest))
  }

  ghost predicate NewlineFree(s: Split) {
    LF !in s.rest && forall i :: 0 <= i < |s.lines| ==> LF !in s.lines[i]
  }

  lemma NewlineUnique(b: seq<byte>, i: nat)
    requires i < |b| && b[i] == LF && LF !in b[..i]
    ensures Newline(b) == i
  {
  }

  lemma SplitFirst(b: seq<byte>)
    requires Newline(b) < |b|
    ensures var s := SplitLines(b[Newline(b) + 1..]); SplitLines(b) == Split([b[..Newline(b)]] + s.lines, s.rest)
  {
  }

  lemma JoinFirst(line: seq<byte>, s: Split)
    requires LF !in line && NewlineFree(s)
    ensures var t := Split([line] + s.lines, s.rest);
      JoinSplit(t) == line + [LF] + JoinSplit(s) && NewlineFree(t)
  {
    assert ([line] + s.lines)[1..] == s.lines;
  }

  lemma JoinStep(b: seq<byte>, i: nat, s: Split)
    requires i < |b| && b[i] == LF && LF !in b[..i] && JoinSplit(s) == b[i + 1..] && NewlineFree(s)
    ensures var t := Split([b[..i]] + s.lines, s.rest);
      JoinSplit(t) == b && NewlineFree(t)
  {
    JoinFirst(b[..i], s);
    assert b[..i] + [LF] + b[i + 1..] == b;
  }

  lemma {:induction false} JoinOfSplit(b: seq<byte>)
    ensures JoinSplit(SplitLines(b)) == b && NewlineFree(SplitLines(b))
    decreases |b|
  {
    var i := Newline(b);
    if i < |b| {
      JoinOfSplit(b[i + 1..]);
      SplitFirst(b);
      JoinStep(b, i, SplitLines(b[i + 1..]));
    } else {
      assert b[..i] == b;
      assert SplitLines(b) == Split([], b);
    }
  }

  lemma {:induction false} SplitOfJoin(s: Split)
    requires NewlineFree(s)
    ensures SplitLines(JoinSplit(s)) == s
    decreases |s.lines|
  {
    var b := JoinSplit(s);
    if s.lines != [] {
      var line, tail := s.lines[0], JoinSplit(Split(s.lines[1..], s.rest));
      assert b == line + ([LF] + tail);
      assert b[..|line|] == line && b[|line|] == LF && b[|line| + 1..] == tail;
      NewlineUnique(b, |line|);
      SplitOfJoin(Split(s.lines[1..], s.rest));
    }
  }

  /** `SplitLines` is the one way to write a stream as newline-free lines and a rest. */
  lemma SplitLinesIsUnique(b: seq<byte>, s: Split)
    ensures SplitLines(b) == s <==> NewlineFree(s) && JoinSplit(s) == b
  {
    JoinOfSplit(b);
    if NewlineFree(s) && JoinSplit(s) == b {
      SplitOfJoin(s);
    }
  }

  // ---- the parser ----------------------------------------------------------------------------

  lemma RunFirst(out: seq<SseEvent>, p: Pending, line: seq<byte>, rest: seq<seq<byte>>)
    ensures var f := FeedLine(p, line);
      Prepend(out, Run(p, [line] + rest)) == Prepend(out + f.events, Run(f.pending, rest))
  {
    assert ([line] + rest)[1..] == rest;
  }

  /** Consuming the first line of a buffer leaves the same rest and the same events to come. */
  lemma LineConsumed(out: seq<SseEvent>, p: Pending, buf: seq<byte>)
    requires Newline(buf) < |buf|
    ensures var s, t, f := SplitLines(buf), SplitLines(buf[Newline(buf) + 1..]), FeedLine(p, buf[..Newline(buf)]);
      s.rest == t.rest && Prepend(out, Run(p, s.lines)) == Prepend(out + f.events, Run(f.pending, t.lines))
  {
    SplitFirst(buf);
    RunFirst(out, p, buf[..Newline(buf)], SplitLines(buf[Newline(buf) + 1..]).lines);
  }

  class SseParser {
    var buf: seq<byte>
    var event: Option<string>
    var id: Option<string>
    var data: seq<string>

    constructor ()
      ensures buf == [] && State() == NOTHING
    {
      buf, event, id, data := [], None, None, [];
    }

    function State(): Pending
      reads this
    {
      Pending(event, id, data)
    }

    /** Add a chunk, consume every complete line, and return the events they finish. */
    method Push(chunk: seq<byte>) returns (out: seq<SseEvent>)
      modifies this
      ensures var s := SplitLines(old(buf) + chunk);
        && buf == s.rest
        && Parse(State(), out) == Run(old(State()), s.lines)
    {
      buf := buf + chunk;
      ghost var all := buf;
      out := [];
      while Newline(buf) < |buf|
        invariant SplitLines(all).rest == SplitLines(buf).rest
        invariant Run(old(State()), SplitLines(all).lines) == Prepend(out, Run(State(), SplitLines(buf).lines))
        decreases |buf|
      {
        var nl := Newline(buf);
        var line := buf[..nl];
        LineConsumed(out, State(), buf);
        buf := buf[nl + 1..];
        var events := Line(line);
        out := out + events;
      }
    }

    /** Handle one complete line, without its newline. */
    method Line(raw: seq<byte>) returns (out: seq<SseEvent>)
      modifies this`event, this`id, this`data
      ensures Parse(State(), out) == FeedLine(old(State()), raw)
    {
      out := [];
      var line := Utf8.Lossy(WithoutCr(raw));
      if line == [] {
        if data != [] || event.Some? || id.Some? {
          out := [SseEvent(if event.Some? then event.value else "message", id, JoinLines(data))];
          event, id, data := None, None, [];
        }
        event := None;
      } else if line[0] != ':' {
        var name, value := FieldName(line), FieldValue(line);
        match name
        case "event" => event := Some(value);
        case "data" => data := data + [value];
        case "id" => if '\0' !in value { id := Some(value); }
        case _ =>
      }
    }
  }

  // ---- chunking does not matter ----------------------------------------------------------------

  /** The whole parser state: the unfinished line and the pending event. */
  datatype State = State(buf: seq<byte>, pending: Pending)

  /** One `Push`, as a function of the state. */
  function PushState(s: State, chunk: seq<byte>): (State, seq<SseEvent>) {
    var split := SplitLines(s.buf + chunk);
    var p := Run(s.pending, split.lines);
    (State(split.rest, p.pending), p.events)
  }

  /** Successive pushes, with their outputs concatenated. */
  function PushAll(s: State, chunks: seq<seq<byte>>): (State, seq<SseEvent>)
    decreases chunks, s
  {
    if chunks == [] then (s, [])
    else
      var before := PushAll(s, chunks[..|chunks| - 1]);
      var step := PushState(before.0, chunks[|chunks| - 1]);
      (step.0, before.1 + step.1)
  }

  function Flatten(chunks: seq<seq<byte>>): seq<byte> {
    if chunks == [] then [] else Flatten(chunks[..|chunks| - 1]) + chunks[|chunks| - 1]
  }

  lemma PrependTwice(x: seq<SseEvent>, y: seq<SseEvent>, p: Parse)
    ensures Prepend(x, Prepend(y, p)) == Prepend(x + y, p)
  {
    assert x + (y + p.events) == (x + y) + p.events;
  }

  lemma {:induction false} RunAppend(feed: (Pending, seq<byte>) -> Parse, p: Pending, a: seq<seq<byte>>,
      b: seq<seq<byte>>)
    ensures var r := RunWith(feed, p, a); RunWith(feed, p, a + b) == Prepend(r.events, RunWith(feed, r.pending, b))
    decreases |a|
  {
    if a == [] {
      assert a + b == b;
    } else {
      assert (a + b)[0] == a[0] && (a + b)[1..] == a[1..] + b;
      var first := feed(p, a[0]);
      RunAppend(feed, first.pending, a[1..], b);
      var r := RunWith(feed, first.pending, a[1..]);
      PrependTwice(first.events, r.events, RunWith(feed, r.pending, b));
    }
  }

  /** `s` continued by `t`, the split of its unfinished line and what follows. */
  function Continue(s: Split, t: Split): Split {
    Split(s.lines + t.lines, t.rest)
  }

  lemma {:induction false} JoinContinue(s: Split, t: Split, b: seq<byte>)
    requires JoinSplit(t) == s.rest + b
    ensures JoinSplit(Continue(s, t)) == JoinSplit(s) + b
    decreases |s.lines|
  {
    if s.lines == [] {
      assert s.lines + t.lines == t.lines;
    } else {
      var s' := Split(s.lines[1..], s.rest);
      assert (s.lines + t.lines)[1..] == s'.lines + t.lines;
      JoinContinue(s', t, b);
    }
  }

  /** Splitting a longer stream only continues the unfinished line. */
  lemma SplitAppend(a: seq<byte>, b: seq<byte>)
    ensures SplitLines(a + b) == Continue(SplitLines(a), SplitLines(SplitLines(a).rest + b))
  {
    var s := SplitLines(a);
    var t := SplitLines(s.rest + b);
    JoinOfSplit(a);
    JoinOfSplit(s.rest + b);
    JoinContinue(s, t, b);
    SplitOfJoin(Continue(s, t));
  }

  lemma PushAppend(s: State, a: seq<byte>, b: seq<byte>)
    ensures var first := PushState(s, a); var second := PushState(first.0, b);
      PushState(s, a + b) == (second.0, first.1 + second.1)
  {
    assert s.buf + (a + b) == (s.buf + a) + b;
    SplitAppend(s.buf + a, b);
    var left := SplitLines(s.buf + a);
    RunAppend(FeedLine, s.pending, left.lines, SplitLines(left.rest + b).lines);
  }

  /** An unfinished line never holds a newline. */
  ghost predicate Idle(s: State) {
    LF !in s.buf
  }

  lemma IdlePush(s: State)
    requires Idle(s)
    ensures PushState(s, []) == (s, [])
  {
    assert s.buf + [] == s.buf;
    SplitLinesIsUnique(s.buf, Split([], s.buf));
  }

  /**
   However a byte stream is cut into chunks, the outputs of the pushes put together and the
   final state are those of one push of the whole stream.
   */
  lemma {:induction false} ChunkingDoesNotMatter(s: State, chunks: seq<seq<byte>>)
    requires Idle(s)
    ensures PushAll(s, chunks) == PushState(s, Flatten(chunks))
    decreases |chunks|
  {
    if chunks == [] {
      IdlePush(s);
    } else {
      var init, last := chunks[..|chunks| - 1], chunks[|chunks| - 1];
      ChunkingDoesNotMatter(s, init);
      PushAppend(s, Flatten(init), last);
    }
  }
}
