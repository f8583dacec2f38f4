/**
 Events as other servers may print them: any number of data lines, a missing type, and lines that end
 in a carriage return and a newline or in a newline alone.
 */
module SseMultiline {
  import opened Words
  import opened Wrappers
  import opened Sse
  import opened EventStream
  import Text
  import Utf8

  /** A line without its newline, with or without a carriage return at its end. */
  function Ended(line: string, cr: bool): seq<byte> {
    Utf8.Encode(line) + if cr then [13] else []
  }

  function AllEnded(lines: seq<string>, crs: seq<bool>): (raw: seq<seq<byte>>)
    requires |crs| == |lines|
    ensures |raw| == |lines| && forall i :: 0 <= i < |raw| ==> raw[i] == Ended(lines[i], crs[i])
  {
    seq(|lines|, i requires 0 <= i < |lines| => Ended(lines[i], crs[i]))
  }

  /** The bytes of lines with these ends. */
  function PrintWith(lines: seq<string>, crs: seq<bool>): seq<byte>
    requires |crs| == |lines|
  {
    if lines == [] then [] else Ended(lines[0], crs[0]) + [10] + PrintWith(lines[1..], crs[1..])
  }

  predicate AllSafe(lines: seq<string>) {
    forall i :: 0 <= i < |lines| ==> LineSafe(lines[i])
  }

  /** Either end of a line is no part of it. */
  lemma EndedFeeds(p: Pending, line: string, cr: bool)
    requires LineSafe(line)
    ensures FeedLine(p, Ended(line, cr)) == FeedLine(p, Utf8.Encode(line))
    ensures LF !in Ended(line, cr)
  {
    DecodeLine(line);
    var b := Utf8.Encode(line);
    if cr {
      assert (b + [13])[..|b|] == b;
      Utf8.EncodeAscii(line, CR);
      assert b != [] ==> b[|b| - 1] in b;
      assert WithoutCr(b + [13]) == b == WithoutCr(b);
    } else {
      assert b + [] == b;
    }
  }

  lemma {:induction false} RunEnded(p: Pending, lines: seq<string>, crs: seq<bool>)
    requires |crs| == |lines| && AllSafe(lines)
    ensures RunWith(FeedLine, p, AllEnded(lines, crs)) == RunWith(FeedLine, p, EncodeLines(lines))
    decreases |lines|
  {
    if lines != [] {
      EndedFeeds(p, lines[0], crs[0]);
      assert AllEnded(lines, crs)[1..] == AllEnded(lines[1..], crs[1..]);
      assert EncodeLines(lines)[1..] == EncodeLines(lines[1..]);
      RunEnded(FeedLine(p, Utf8.Encode(lines[0])).pending, lines[1..], crs[1..]);
    }
  }

  lemma {:induction false} PrintWithIsJoin(lines: seq<string>, crs: seq<bool>)
    requires |crs| == |lines|
    ensures PrintWith(lines, crs) == JoinSplit(Split(AllEnded(lines, crs), []))
    decreases |lines|
  {
    if lines != [] {
      PrintWithIsJoin(lines[1..], crs[1..]);
      assert AllEnded(lines, crs)[1..] == AllEnded(lines[1..], crs[1..]);
    }
  }

  lemma PrintedSplits(lines: seq<string>, crs: seq<bool>)
    requires |crs| == |lines| && AllSafe(lines)
    ensures SplitLines(PrintWith(lines, crs)) == Split(AllEnded(lines, crs), [])
  {
    var raw := AllEnded(lines, crs);
    forall i | 0 <= i < |raw|
      ensures LF !in raw[i]
    {
      EndedFeeds(NOTHING, lines[i], crs[i]);
    }
    PrintWithIsJoin(lines, crs);
    SplitLinesIsUnique(PrintWith(lines, crs), Split(raw, []));
  }

  /** The lines of an event: its type and its id if it has them, its data line by line, and a blank one. */
  function EventLines(event: Option<string>, id: Option<string>, data: seq<string>): seq<string> {
    (if event.Some? then [FieldLine("event", event.value)] else [])
    + ((if id.Some? then [FieldLine("id", id.value)] else [])
      + (DataLines(data) + [""]))
  }

  function DataLines(data: seq<string>): seq<string> {
    if data == [] then [] else [FieldLine("data", data[0])] + DataLines(data[1..])
  }

  predicate IsClean(event: Option<string>, id: Option<string>, data: seq<string>) {
    && (event.Some? ==> LineSafe(event.value))
    && (id.Some? ==> LineSafe(id.value) && '\0' !in id.value)
    && AllSafe(data)
  }

  lemma FieldLineIsSafe(name: string, value: string)
    requires LineSafe(name) && LineSafe(value)
    ensures LineSafe(FieldLine(name, value))
  {
  }

  lemma {:induction false} DataLinesAreSafe(data: seq<string>)
    requires AllSafe(data)
    ensures AllSafe(DataLines(data))
    decreases |data|
  {
    if data != [] {
      FieldLineIsSafe("data", data[0]);
      DataLinesAreSafe(data[1..]);
    }
  }

  lemma EventLinesAreSafe(event: Option<string>, id: Option<string>, data: seq<string>)
    requires IsClean(event, id, data)
    ensures AllSafe(EventLines(event, id, data))
  {
    if event.Some? {
      FieldLineIsSafe("event", event.value);
    }
    if id.Some? {
      FieldLineIsSafe("id", id.value);
    }
    DataLinesAreSafe(data);
  }

  lemma {:induction false} RunData(p: Pending, data: seq<string>, rest: seq<string>)
    requires AllSafe(data)
    ensures RunWith(FeedLine, p, EncodeLines(DataLines(data) + rest))
      == RunWith(FeedLine, p.(data := p.data + data), EncodeLines(rest))
    decreases |data|
  {
    if data == [] {
      assert DataLines(data) + rest == rest && p.data + data == p.data;
    } else {
      DataLinesFirst(data, rest);
      RunOneData(p, data[0], DataLines(data[1..]) + rest);
      RunData(p.(data := p.data + [data[0]]), data[1..], rest);
      FirstDataFirst(p, data);
    }
  }

  lemma DataLinesFirst(data: seq<string>, rest: seq<string>)
    requires data != []
    ensures DataLines(data) + rest == [FieldLine("data", data[0])] + (DataLines(data[1..]) + rest)
  {
  }

  lemma FirstDataFirst(p: Pending, data: seq<string>)
    requires data != []
    ensures var q := p.(data := p.data + [data[0]]); q.(data := q.data + data[1..]) == p.(data := p.data + data)
  {
    assert p.data + [data[0]] + data[1..] == p.data + data;
  }

  lemma RunOneData(p: Pending, line: string, rest: seq<string>)
    requires LineSafe(line)
    ensures RunWith(FeedLine, p, EncodeLines([FieldLine("data", line)] + rest))
      == RunWith(FeedLine, p.(data := p.data + [line]), EncodeLines(rest))
  {
    FieldLineIsSafe("data", line);
    AbsorbField(p, "data", line);
    RunText(p, FieldLine("data", line), rest);
  }

  lemma RunField(p: Pending, name: string, value: Option<string>, rest: seq<string>)
    requires name in {"event", "id"} && (value.Some? ==> LineSafe(value.value))
    requires name == "id" && value.Some? ==> '\0' !in value.value
    requires if name == "event" then p.event == None else p.id == None
    ensures RunWith(FeedLine, p, EncodeLines((if value.Some? then [FieldLine(name, value.value)] else []) + rest))
      == RunWith(FeedLine, if name == "event" then p.(event := value) else p.(id := value), EncodeLines(rest))
  {
    if value.Some? {
      assert LineSafe("event") && LineSafe("id");
      FieldLineIsSafe(name, value.value);
      AbsorbField(p, name, value.value);
      RunText(p, FieldLine(name, value.value), rest);
    } else {
      assert [] + rest == rest;
    }
  }

  lemma {:induction false} JoinLinesJoins(lines: seq<string>)
    requires lines != []
    ensures JoinLines(lines) == Text.Join(lines, '\n')
    decreases |lines|
  {
    if |lines| > 1 {
      JoinLinesJoins(lines[1..]);
    }
  }

  /** The event that such lines make: of type "message" if they name none, its data with newlines between the lines. */
  function EventOf(event: Option<string>, id: Option<string>, data: seq<string>): SseEvent {
    SseEvent(if event.Some? then event.value else "message", id, if data == [] then "" else Text.Join(data, '\n'))
  }

  lemma RunEventLines(event: Option<string>, id: Option<string>, data: seq<string>)
    requires IsClean(event, id, data) && (event.Some? || id.Some? || data != [])
    ensures RunWith(FeedLine, NOTHING, EncodeLines(EventLines(event, id, data)))
      == Parse(NOTHING, [EventOf(event, id, data)])
  {
    var behind := DataLines(data) + [""];
    RunField(NOTHING, "event", event, (if id.Some? then [FieldLine("id", id.value)] else []) + behind);
    RunField(Pending(event, None, []), "id", id, behind);
    RunData(Pending(event, id, []), data, [""]);
    assert [] + data == data;
    RunEnd(event, id, data);
  }

  lemma RunEnd(event: Option<string>, id: Option<string>, data: seq<string>)
    requires event.Some? || id.Some? || data != []
    ensures RunWith(FeedLine, Pending(event, id, data), EncodeLines([""])) == Parse(NOTHING, [EventOf(event, id, data)])
  {
    assert [""] == [""] + [];
    RunBlank(Pending(event, id, data), []);
    assert EncodeLines([]) == [];
    if data != [] {
      JoinLinesJoins(data);
    }
  }

  /** Whatever ends its lines have and however its bytes are cut, the client reads such an event as it is. */
  lemma EventArrives(event: Option<string>, id: Option<string>, data: seq<string>, crs: seq<bool>,
      chunks: seq<seq<byte>>)
    requires IsClean(event, id, data) && (event.Some? || id.Some? || data != [])
    requires |crs| == |EventLines(event, id, data)| && Flatten(chunks) == PrintWith(EventLines(event, id, data), crs)
    ensures PushAll(START, chunks) == (START, [EventOf(event, id, data)])
  {
    var lines := EventLines(event, id, data);
    EventLinesAreSafe(event, id, data);
    ChunkingDoesNotMatter(START, chunks);
    assert [] + Flatten(chunks) == Flatten(chunks);
    PrintedSplits(lines, crs);
    RunEnded(NOTHING, lines, crs);
    RunEventLines(event, id, data);
  }

  /** So a text with newlines survives: it is sent as its lines, and arrives joined. */
  lemma TextSurvives(text: string, id: Option<string>)
    ensures EventOf(None, id, Text.Split(text, '\n')).data == text
  {
    Text.JoinOfSplit(text, '\n');
  }
}
