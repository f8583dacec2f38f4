/**
 16-bit PCM WAV files as `crates/aurix-client/examples/voice_cli.rs` reads and writes them: a
 reader that walks RIFF chunks, and the fixed 44-byte header of a 48 kHz stereo recording.
 */
module Wav {
  import opened Words
  import opened Wrappers

  const U32: nat := 0x1_0000_0000
  const SAMPLE_RATE: nat := 48000
  const BYTE_RATE: nat := SAMPLE_RATE * 4
  const PCM: nat := 1
  const CHANNELS: nat := 2
  const BLOCK: nat := 4
  const BITS: nat := 16
  const FMT_LENGTH: nat := 16

  const RIFF: seq<byte> := [82, 73, 70, 70]
  const WAVE: seq<byte> := [87, 65, 86, 69]
  const FMT: seq<byte> := [102, 109, 116, 32]
  const DATA: seq<byte> := [100, 97, 116, 97]

  // ---- little-endian numbers -----------------------------------------------------------------------

  function Le(n: nat, k: nat): (bytes: seq<byte>)
    ensures |bytes| == k
    decreases k, n
  {
    if k == 0 then [] else [n % 256] + Le(n / 256, k - 1)
  }

  function Value(bytes: seq<byte>): nat {
    if bytes == [] then 0 else bytes[0] + 256 * Value(bytes[1..])
  }

  function Pow256(k: nat): nat {
    if k == 0 then 1 else 256 * Pow256(k - 1)
  }

  lemma {:induction false} ValueOfLe(n: nat, k: nat)
    requires n < Pow256(k)
    ensures Value(Le(n, k)) == n
    decreases k
  {
    if k > 0 {
      var bytes := Le(n, k);
      assert bytes[0] == n % 256 && bytes[1..] == Le(n / 256, k - 1);
      ValueOfLe(n / 256, k - 1);
    }
  }

  lemma ValueOfU32(n: nat)
    requires n < U32
    ensures Value(Le(n, 4)) == n
  {
    var k := 3;
    assert Pow256(k) == 0x100_0000;
    assert Pow256(k + 1) == U32;
    ValueOfLe(n, k + 1);
  }

  lemma ValueOfU16(n: nat)
    requires n < 0x1_0000
    ensures Value(Le(n, 2)) == n
  {
    var k := 1;
    assert Pow256(k) == 256;
    assert Pow256(k + 1) == 0x1_0000;
    ValueOfLe(n, k + 1);
  }

  // ---- samples -------------------------------------------------------------------------------------

  predicate IsSample(x: int) {
    -32768 <= x <= 32767
  }

  /** A signed 16-bit sample, two's complement, low byte first. */
  function SampleBytes(x: int): (bytes: seq<byte>)
    requires IsSample(x)
    ensures |bytes| == 2
  {
    Le(if x < 0 then x + 0x1_0000 else x, 2)
  }

  function SampleOf(lo: byte, hi: byte): (x: int)
    ensures IsSample(x)
  {
    var n := lo + 256 * hi;
    if n < 0x8000 then n else n - 0x1_0000
  }

  lemma SampleRoundTrip(x: int)
    requires IsSample(x)
    ensures SampleOf(SampleBytes(x)[0], SampleBytes(x)[1]) == x
  {
    var n := if x < 0 then x + 0x1_0000 else x;
    ValueOfU16(n);
    var bytes := Le(n, 2);
    assert bytes[1..][1..] == [];
    assert Value(bytes) == bytes[0] + 256 * Value(bytes[1..]) && Value(bytes[1..]) == bytes[1] + 256 * Value([]);
  }

  function AudioBytes(samples: seq<int>): (bytes: seq<byte>)
    requires forall i :: 0 <= i < |samples| ==> IsSample(samples[i])
    ensures |bytes| == 2 * |samples|
  {
    if samples == [] then [] else SampleBytes(samples[0]) + AudioBytes(samples[1..])
  }

  /** The samples of a data chunk; an odd last byte is dropped. */
  function Samples(data: seq<byte>): (samples: seq<int>)
    ensures |samples| == |data| / 2
    ensures forall k :: 0 <= k < |samples| ==> samples[k] == SampleOf(data[2 * k], data[2 * k + 1])
  {
    seq(|data| / 2, k requires 0 <= k < |data| / 2 => SampleOf(data[2 * k], data[2 * k + 1]))
  }

  lemma SamplesCons(two: seq<byte>, rest: seq<byte>)
    requires |two| == 2
    ensures Samples(two + rest) == [SampleOf(two[0], two[1])] + Samples(rest)
  {
    var bytes := two + rest;
    forall k | 0 < k < |bytes| / 2
      ensures Samples(bytes)[k] == Samples(rest)[k - 1]
    {
      assert bytes[2 * k] == rest[2 * (k - 1)] && bytes[2 * k + 1] == rest[2 * (k - 1) + 1];
    }
  }

  lemma {:induction false} SamplesOfAudio(samples: seq<int>)
    requires forall i :: 0 <= i < |samples| ==> IsSample(samples[i])
    ensures Samples(AudioBytes(samples)) == samples
    decreases |samples|
  {
    if samples != [] {
      SampleRoundTrip(samples[0]);
      SamplesCons(SampleBytes(samples[0]), AudioBytes(samples[1..]));
      SamplesOfAudio(samples[1..]);
      assert [samples[0]] + samples[1..] == samples;
    }
  }

  lemma {:induction false} AudioAppend(a: seq<int>, b: seq<int>)
    requires forall i :: 0 <= i < |a| ==> IsSample(a[i])
    requires forall i :: 0 <= i < |b| ==> IsSample(b[i])
    ensures AudioBytes(a + b) == AudioBytes(a) + AudioBytes(b)
    decreases |a|
  {
    if a == [] {
      assert a + b == b;
    } else {
      AudioAppend(a[1..], b);
      assert (a + b)[1..] == a[1..] + b;
    }
  }

  // ---- reading ---------------------------------------------------------------------------------------

  /** What the walk has gathered so far. */
  datatype Scan = Scan(fmt: nat, channels: nat, rate: nat, bits: nat, data: Option<seq<byte>>)

  const START := Scan(0, 0, 0, 0, None)

  datatype Sound = Sound(rate: nat, channels: nat, pcm: seq<int>)

  datatype WavError = NotRiff | NoData | Unsupported(fmt: nat, bits: nat, channels: nat)

  function Gather(scan: Scan, id: seq<byte>, body: seq<byte>): Scan {
    if id == FMT && |body| >= 16 then
      scan.(fmt := Value(body[0..2]), channels := Value(body[2..4]), rate := Value(body[4..8]),
        bits := Value(body[14..16]))
    else if id == DATA then scan.(data := Some(body))
    else scan
  }

  function Min(a: nat, b: nat): nat {
    if a < b then a else b
  }

  /** The bytes a chunk of this length takes: header, body and pad. */
  function Extent(len: nat): (n: nat)
    ensures 8 + len <= n <= 9 + len
  {
    8 + len + len % 2
  }

  /** Chunk after chunk, until fewer than eight bytes are left. */
  function Walk(b: seq<byte>, scan: Scan): Scan
    decreases |b|
  {
    if |b| < 8 then scan
    else
      var len := Value(b[4..8]);
      Walk(b[Min(Extent(len), |b|)..], Gather(scan, b[..4], b[8..Min(8 + len, |b|)]))
  }

  function Interpret(scan: Scan): Result<Sound, WavError> {
    if scan.data.None? then Err(NoData)
    else if scan.fmt != 1 || scan.bits != 16 || !(1 <= scan.channels <= 2) || scan.rate == 0 then
      Err(Unsupported(scan.fmt, scan.bits, scan.channels))
    else Ok(Sound(scan.rate, scan.channels, Samples(scan.data.value)))
  }

  predicate IsRiff(b: seq<byte>) {
    |b| >= 12 && b[0..4] == RIFF && b[8..12] == WAVE
  }

  function Read(b: seq<byte>): Result<Sound, WavError> {
    if !IsRiff(b) then Err(NotRiff) else Interpret(Walk(b[12..], START))
  }

  /** The rest of the walk from an index on. */
  ghost function WalkFrom(b: seq<byte>, i: nat, scan: Scan): Scan {
    Walk(b[Min(i, |b|)..], scan)
  }

  lemma WalkAt(b: seq<byte>, i: nat, len: nat, scan: Scan)
    requires i + 8 <= |b| && len == Value(b[i + 4..i + 8])
    ensures WalkFrom(b, i, scan)
      == WalkFrom(b, i + Extent(len), Gather(scan, b[i..i + 4], b[i + 8..Min(i + 8 + len, |b|)]))
  {
    var s := b[i..];
    assert s[4..8] == b[i + 4..i + 8] && s[..4] == b[i..i + 4];
    assert s[8..Min(8 + len, |s|)] == b[i + 8..Min(i + 8 + len, |b|)];
    assert s[Min(Extent(len), |s|)..] == b[Min(i + Extent(len), |b|)..];
  }

  lemma WalkEnd(b: seq<byte>, i: nat, scan: Scan)
    requires i + 8 > |b|
    ensures WalkFrom(b, i, scan) == scan
  {
  }

  /** The loop of the reader. */
  method ScanChunks(b: seq<byte>) returns (scan: Scan)
    requires |b| >= 12
    ensures scan == Walk(b[12..], START)
  {
    scan := START;
    var i := 12;
    ghost var whole := Walk(b[12..], START);
    while i + 8 <= |b|
      invariant 12 <= i
      invariant whole == WalkFrom(b, i, scan)
    {
      var len := Value(b[i + 4..i + 8]);
      var id := b[i..i + 4];
      var body := b[i + 8..Min(i + 8 + len, |b|)];
      WalkAt(b, i, len, scan);
      scan := Gather(scan, id, body);
      i := i + Extent(len);
    }
    WalkEnd(b, i, scan);
  }

  method ReadWav(b: seq<byte>) returns (r: Result<Sound, WavError>)
    ensures r == Read(b)
  {
    if !IsRiff(b) {
      return Err(NotRiff);
    }
    var scan := ScanChunks(b);
    r := Interpret(scan);
  }

  // ---- well-formed files -----------------------------------------------------------------------------

  /** A chunk; the pad byte is there when the body has odd length. */
  datatype Chunk = Chunk(id: seq<byte>, body: seq<byte>, pad: byte)

  predicate Fits(c: Chunk) {
    |c.id| == 4 && |c.body| < U32
  }

  function Wire(c: Chunk): seq<byte>
    requires Fits(c)
  {
    c.id + Le(|c.body|, 4) + c.body + if |c.body| % 2 == 1 then [c.pad] else []
  }

  function Wires(chunks: seq<Chunk>): seq<byte>
    requires forall i :: 0 <= i < |chunks| ==> Fits(chunks[i])
  {
    if chunks == [] then [] else Wire(chunks[0]) + Wires(chunks[1..])
  }

  function GatherAll(scan: Scan, chunks: seq<Chunk>): Scan
    decreases chunks
  {
    if chunks == [] then scan else GatherAll(Gather(scan, chunks[0].id, chunks[0].body), chunks[1..])
  }

  lemma WalkWire(c: Chunk, rest: seq<byte>, scan: Scan)
    requires Fits(c)
    ensures Walk(Wire(c) + rest, scan) == Walk(rest, Gather(scan, c.id, c.body))
  {
    var b := Wire(c) + rest;
    var len := |c.body|;
    ValueOfU32(len);
    assert b[..4] == c.id && b[4..8] == Le(len, 4) && b[8..8 + len] == c.body && b[Extent(len)..] == rest;
  }

  /** The walk meets exactly the chunks the file was put together from. */
  lemma {:induction false} WalkWires(chunks: seq<Chunk>, tail: seq<byte>, scan: Scan)
    requires forall i :: 0 <= i < |chunks| ==> Fits(chunks[i])
    ensures Walk(Wires(chunks) + tail, scan) == Walk(tail, GatherAll(scan, chunks))
    decreases |chunks|
  {
    if chunks == [] {
      assert Wires(chunks) + tail == tail;
    } else {
      var rest := Wires(chunks[1..]) + tail;
      assert Wires(chunks) + tail == Wire(chunks[0]) + rest;
      WalkWire(chunks[0], rest, scan);
      WalkWires(chunks[1..], tail, Gather(scan, chunks[0].id, chunks[0].body));
    }
  }

  /** A last chunk that is cut short counts for as far as it goes. */
  lemma WalkCut(id: seq<byte>, len: nat, body: seq<byte>, scan: Scan)
    requires |id| == 4 && |body| <= len < U32
    ensures Walk(id + Le(len, 4) + body, scan) == Gather(scan, id, body)
  {
    var b := id + Le(len, 4) + body;
    ValueOfU32(len);
    assert b[..4] == id && b[4..8] == Le(len, 4) && b[8..Min(8 + len, |b|)] == body;
  }

  /** A file: any four bytes of RIFF size, the chunks, and whatever follows them. */
  function File(size: seq<byte>, chunks: seq<Chunk>, tail: seq<byte>): seq<byte>
    requires |size| == 4 && forall i :: 0 <= i < |chunks| ==> Fits(chunks[i])
  {
    RIFF + size + WAVE + (Wires(chunks) + tail)
  }

  lemma ReadFile(size: seq<byte>, chunks: seq<Chunk>, tail: seq<byte>)
    requires |size| == 4 && forall i :: 0 <= i < |chunks| ==> Fits(chunks[i])
    ensures Read(File(size, chunks, tail)) == Interpret(Walk(tail, GatherAll(START, chunks)))
  {
    var b := File(size, chunks, tail);
    assert b[0..4] == RIFF && b[8..12] == WAVE && b[12..] == Wires(chunks) + tail;
    WalkWires(chunks, tail, START);
  }

  /** Neither audio nor a format the reader looks at. */
  predicate Unknown(c: Chunk) {
    c.id != DATA && (c.id != FMT || |c.body| < 16)
  }

  lemma {:induction false} GatherSplit(scan: Scan, a: seq<Chunk>, b: seq<Chunk>)
    ensures GatherAll(scan, a + b) == GatherAll(GatherAll(scan, a), b)
    decreases |a|
  {
    if a == [] {
      assert a + b == b;
    } else {
      assert (a + b)[1..] == a[1..] + b;
      GatherSplit(Gather(scan, a[0].id, a[0].body), a[1..], b);
    }
  }

  /** An unknown chunk changes nothing, wherever it is put. */
  lemma UnknownChunkIsIgnored(size: seq<byte>, before: seq<Chunk>, c: Chunk, after: seq<Chunk>, tail: seq<byte>)
    requires |size| == 4 && Fits(c) && Unknown(c)
    requires forall i :: 0 <= i < |before| ==> Fits(before[i])
    requires forall i :: 0 <= i < |after| ==> Fits(after[i])
    ensures Read(File(size, before + [c] + after, tail)) == Read(File(size, before + after, tail))
  {
    ReadFile(size, before + [c] + after, tail);
    ReadFile(size, before + after, tail);
    GatherSplit(START, before, after);
    GatherSplit(START, before + [c], after);
    GatherSplit(START, before, [c]);
    assert [c][1..] == [];
    assert GatherAll(GatherAll(START, before), [c]) == GatherAll(START, before);
  }

  // ---- formats ---------------------------------------------------------------------------------------

  /** Numbers of two and four bytes, low byte first. */
  lemma ValueOfTwo(a: byte, b: byte)
    ensures Value([a, b]) == a + 256 * (b as int)
  {
    assert [a, b][1..] == [b] && [b][1..] == [];
    assert Value([b]) == b + 256 * Value([]);
  }

  lemma ValueOfFour(a: byte, b: byte, c: byte, d: byte)
    ensures Value([a, b, c, d]) == a + 0x100 * (b as int) + 0x1_0000 * (c as int) + 0x100_0000 * (d as int)
  {
    assert [a, b, c, d][1..] == [b, c, d] && [b, c, d][1..] == [c, d];
    ValueOfTwo(c, d);
    assert Value([b, c, d]) == b + 256 * Value([c, d]);
  }

  lemma FormatOf(f: seq<byte>)
    requires |f| >= 16
    ensures Gather(START, FMT, f) == Scan(
      f[0] + 256 * (f[1] as int), f[2] + 256 * (f[3] as int),
      f[4] + 0x100 * (f[5] as int) + 0x1_0000 * (f[6] as int) + 0x100_0000 * (f[7] as int),
      f[14] + 256 * (f[15] as int), None)
  {
    assert f[0..2] == [f[0], f[1]] && f[2..4] == [f[2], f[3]] && f[14..16] == [f[14], f[15]];
    assert f[4..8] == [f[4], f[5], f[6], f[7]];
    ValueOfTwo(f[0], f[1]);
    ValueOfTwo(f[2], f[3]);
    ValueOfTwo(f[14], f[15]);
    ValueOfFour(f[4], f[5], f[6], f[7]);
  }

  /** What should be read: 16-bit PCM in mono or stereo at some rate, and nothing else. */
  ghost predicate ReadsAs(r: Result<Sound, WavError>, scan: Scan, audio: seq<byte>) {
    if scan.fmt == 1 && scan.bits == 16 && (scan.channels == 1 || scan.channels == 2) && scan.rate != 0
    then r == Ok(Sound(scan.rate, scan.channels, Samples(audio)))
    else r == Err(Unsupported(scan.fmt, scan.bits, scan.channels))
  }

  /** What is read from a file of any format: the rate and the channels that its format chunk names. */
  lemma ReadsAnyFormat(size: seq<byte>, f: seq<byte>, audio: seq<byte>, pad: byte)
    requires |size| == 4 && 16 <= |f| < U32 && |audio| < U32
    ensures ReadsAs(Read(File(size, [Chunk(FMT, f, pad), Chunk(DATA, audio, pad)], [])), Scan(
      f[0] + 256 * (f[1] as int), f[2] + 256 * (f[3] as int),
      f[4] + 0x100 * (f[5] as int) + 0x1_0000 * (f[6] as int) + 0x100_0000 * (f[7] as int),
      f[14] + 256 * (f[15] as int), None), audio)
  {
    ReadTwo(size, Chunk(FMT, f, pad), Chunk(DATA, audio, pad));
    FormatOf(f);
    InterpretedAs(Gather(START, FMT, f), audio);
  }

  lemma InterpretedAs(scan: Scan, audio: seq<byte>)
    ensures ReadsAs(Interpret(Gather(scan, DATA, audio)), scan, audio)
  {
  }

  lemma ReadTwo(size: seq<byte>, c: Chunk, d: Chunk)
    requires |size| == 4 && Fits(c) && Fits(d)
    ensures Read(File(size, [c, d], [])) == Interpret(Gather(Gather(START, c.id, c.body), d.id, d.body))
  {
    ReadFile(size, [c, d], []);
    GatherTwo(c, d);
  }

  lemma GatherTwo(c: Chunk, d: Chunk)
    ensures GatherAll(START, [c, d]) == Gather(Gather(START, c.id, c.body), d.id, d.body)
  {
    assert [c, d][1..] == [d] && [d][1..] == [];
    assert GatherAll(Gather(START, c.id, c.body), [d]) == Gather(Gather(START, c.id, c.body), d.id, d.body);
  }

  /** Without a data chunk there is nothing to read, and anything else is no WAV file. */
  lemma ReadsNothingElse(b: seq<byte>)
    ensures |b| < 12 || b[0..4] != [82, 73, 70, 70] || b[8..12] != [87, 65, 86, 69] ==> Read(b) == Err(NotRiff)
    ensures Read(b).Ok? ==> |b| >= 12 && Walk(b[12..], START).data.Some?
  {
  }

  // ---- the recorder's header ---------------------------------------------------------------------------

  function FmtBody(): (b: seq<byte>)
    ensures |b| == 16
  {
    Le(PCM, 2) + Le(CHANNELS, 2) + Le(SAMPLE_RATE, 4) + Le(BYTE_RATE, 4) + Le(BLOCK, 2) + Le(BITS, 2)
  }

  /** The byte count of the recording, as a 32-bit product. */
  function DataLength(frames: nat): (n: nat)
    ensures n < U32
  {
    frames * 4 % U32
  }

  function RiffSize(frames: nat): (n: nat)
    ensures n < U32
  {
    (36 + DataLength(frames)) % U32
  }

  function Header(frames: nat): (h: seq<byte>)
    ensures |h| == 44
  {
    RIFF + Le(RiffSize(frames), 4) + (WAVE + FMT) + Le(FMT_LENGTH, 4) + FmtBody() + DATA + Le(DataLength(frames), 4)
  }

  /** The middle of the header: 16-bit stereo PCM. */
  method AppendFormat(before: seq<byte>) returns (h: seq<byte>)
    ensures h == before + FmtBody()
  {
    h := before;
    h := h + Le(PCM, 2);
    h := h + Le(CHANNELS, 2);
    h := h + Le(SAMPLE_RATE, 4);
    h := h + Le(BYTE_RATE, 4);
    h := h + Le(BLOCK, 2);
    h := h + Le(BITS, 2);
  }

  /** The header is built by appending to one buffer. */
  method WavHeader(frames: nat) returns (h: seq<byte>)
    ensures h == Header(frames)
  {
    var data := DataLength(frames);
    h := RIFF;
    h := h + Le((36 + data) % U32, 4);
    h := h + (WAVE + FMT);
    h := h + Le(FMT_LENGTH, 4);
    h := AppendFormat(h);
    h := h + DATA;
    h := h + Le(data, 4);
  }

  /** The header byte for byte: 16-bit stereo at 48 kHz. */
  lemma HeaderBytes(frames: nat)
    ensures var h := Header(frames);
      && h[..4] == [82, 73, 70, 70] && h[8..16] == [87, 65, 86, 69, 102, 109, 116, 32] && h[16..20] == [16, 0, 0, 0]
      && h[20..36] == [1, 0, 2, 0, 0x80, 0xBB, 0, 0, 0x00, 0xEE, 0x02, 0, 4, 0, 16, 0]
      && h[36..40] == [100, 97, 116, 97]
  {
    FmtBytes();
    FourBytes(16);
    HeaderParts(RIFF, Le(RiffSize(frames), 4), WAVE + FMT, Le(16, 4), FmtBody(), DATA, Le(DataLength(frames), 4));
  }

  lemma HeaderParts(a: seq<byte>, b: seq<byte>, c: seq<byte>, d: seq<byte>, e: seq<byte>, f: seq<byte>, g: seq<byte>)
    requires |a| == |b| == |d| == |f| == |g| == 4 && |c| == 8 && |e| == 16
    ensures var h := a + b + c + d + e + f + g;
      h[..4] == a && h[8..16] == c && h[16..20] == d && h[20..36] == e && h[36..40] == f
  {
  }

  lemma FourBytes(n: nat)
    ensures Le(n, 4) == [n % 256, n / 256 % 256, n / 256 / 256 % 256, n / 256 / 256 / 256 % 256]
  {
    assert Le(n / 256 / 256 / 256, 1) == [n / 256 / 256 / 256 % 256];
    assert Le(n / 256 / 256, 2) == [n / 256 / 256 % 256] + Le(n / 256 / 256 / 256, 1);
    assert Le(n / 256, 3) == [n / 256 % 256] + Le(n / 256 / 256, 2);
  }

  lemma TwoBytes(n: nat)
    ensures Le(n, 2) == [n % 256, n / 256 % 256]
  {
    assert Le(n / 256, 1) == [n / 256 % 256];
  }

  lemma FmtBytes()
    ensures FmtBody() == [1, 0, 2, 0, 0x80, 0xBB, 0, 0, 0x00, 0xEE, 0x02, 0, 4, 0, 16, 0]
  {
    TwoBytes(1);
    TwoBytes(2);
    FourBytes(48000);
    FourBytes(192000);
    TwoBytes(4);
    TwoBytes(16);
  }

  /** What the format chunk of the header says. */
  const RECORDED := Scan(PCM, CHANNELS, SAMPLE_RATE, BITS, None)

  lemma FormatFields(a: seq<byte>, b: seq<byte>, c: seq<byte>, d: seq<byte>, e: seq<byte>, f: seq<byte>)
    requires |a| == |b| == |e| == |f| == 2 && |c| == |d| == 4
    ensures var body := a + b + c + d + e + f;
      body[0..2] == a && body[2..4] == b && body[4..8] == c && body[14..16] == f
  {
  }

  lemma FormatIsUnderstood()
    ensures Gather(START, FMT, FmtBody()) == RECORDED
  {
    var b := FmtBody();
    FormatFields(Le(PCM, 2), Le(CHANNELS, 2), Le(SAMPLE_RATE, 4), Le(BYTE_RATE, 4), Le(BLOCK, 2), Le(BITS, 2));
    assert b[0..2] == Le(PCM, 2) && b[2..4] == Le(CHANNELS, 2) && b[4..8] == Le(SAMPLE_RATE, 4)
      && b[14..16] == Le(BITS, 2);
    ValueOfU16(PCM);
    ValueOfU16(CHANNELS);
    ValueOfU16(BITS);
    ValueOfU32(SAMPLE_RATE);
  }

  /** The data chunk of a recording, of which everything after it is taken to be a part or more chunks. */
  function DataPart(frames: nat, audio: seq<byte>): seq<byte> {
    DATA + Le(DataLength(frames), 4) + audio
  }

  lemma HeaderIsFile(frames: nat, audio: seq<byte>)
    ensures Header(frames) + audio == File(Le(RiffSize(frames), 4), [Chunk(FMT, FmtBody(), 0)], DataPart(frames, audio))
  {
    var c := Chunk(FMT, FmtBody(), 0);
    assert Wires([c]) == FMT + Le(FMT_LENGTH, 4) + FmtBody() by {
      assert [c][1..] == [];
    }
    Regroup(RIFF + Le(RiffSize(frames), 4), WAVE, FMT, Le(FMT_LENGTH, 4), FmtBody(), DATA,
      Le(DataLength(frames), 4), audio);
  }

  lemma Regroup(a: seq<byte>, b: seq<byte>, c: seq<byte>, d: seq<byte>, e: seq<byte>, f: seq<byte>, g: seq<byte>,
      h: seq<byte>)
    ensures a + (b + c) + d + e + f + g + h == a + b + ((c + d + e) + (f + g + h))
  {
  }

  lemma ReadRecording(frames: nat, audio: seq<byte>)
    ensures Read(Header(frames) + audio) == Interpret(Walk(DataPart(frames, audio), RECORDED))
  {
    var c := Chunk(FMT, FmtBody(), 0);
    HeaderIsFile(frames, audio);
    ReadFile(Le(RiffSize(frames), 4), [c], DataPart(frames, audio));
    FormatIsUnderstood();
    assert [c][1..] == [];
    assert GatherAll(START, [c]) == GatherAll(RECORDED, []) == RECORDED;
  }

  /** Whatever data a walk adds fits into the bytes walked over. */
  lemma {:induction false} WalkDataFits(b: seq<byte>, scan: Scan)
    ensures var data := Walk(b, scan).data;
      data == scan.data || (data.Some? && |data.value| + 8 <= |b|)
    decreases |b|
  {
    if |b| >= 8 {
      var len := Value(b[4..8]);
      WalkDataFits(b[Min(Extent(len), |b|)..], Gather(scan, b[..4], b[8..Min(8 + len, |b|)]));
    }
  }

  /** With a data length that is too small, the reader never gets all of the audio. */
  lemma ShortLengthLosesAudio(frames: nat, audio: seq<byte>)
    requires DataLength(frames) < |audio|
    ensures var data := Walk(DataPart(frames, audio), RECORDED).data;
      data.Some? && |data.value| < |audio|
  {
    var len := DataLength(frames);
    var b := DataPart(frames, audio);
    ValueOfU32(len);
    assert b[..4] == DATA && b[4..8] == Le(len, 4) && b[8..8 + len] == audio[..len];
    var rest := b[Min(Extent(len), |b|)..];
    assert Walk(b, RECORDED) == Walk(rest, RECORDED.(data := Some(audio[..len])));
    WalkDataFits(rest, RECORDED.(data := Some(audio[..len])));
  }

  lemma ShortLengthReadsLess(frames: nat, audio: seq<byte>)
    requires DataLength(frames) < |audio| && |audio| % 2 == 0
    ensures var r := Read(Header(frames) + audio);
      r.Ok? ==> |r.value.pcm| < |audio| / 2
  {
    ReadRecording(frames, audio);
    ShortLengthLosesAudio(frames, audio);
  }

  lemma ShortLengthIsNotRead(frames: nat, audio: seq<byte>, samples: seq<int>)
    requires DataLength(frames) < |audio| == 2 * |samples|
    ensures Read(Header(frames) + audio) != Ok(Sound(SAMPLE_RATE, CHANNELS, samples))
  {
    ShortLengthReadsLess(frames, audio);
  }

  lemma FullLengthKeepsAudio(frames: nat, audio: seq<byte>)
    requires DataLength(frames) == |audio|
    ensures Read(Header(frames) + audio) == Ok(Sound(SAMPLE_RATE, CHANNELS, Samples(audio)))
  {
    ReadRecording(frames, audio);
    WalkCut(DATA, |audio|, audio, RECORDED);
  }

  lemma LengthDecides(frames: nat, samples: seq<int>)
    requires forall i :: 0 <= i < |samples| ==> IsSample(samples[i])
    requires DataLength(frames) <= 2 * |samples|
    ensures Read(Header(frames) + AudioBytes(samples)) == Ok(Sound(SAMPLE_RATE, CHANNELS, samples))
       <==> DataLength(frames) == 2 * |samples|
  {
    if DataLength(frames) == 2 * |samples| {
      SamplesOfAudio(samples);
      FullLengthKeepsAudio(frames, AudioBytes(samples));
    } else {
      ShortLengthIsNotRead(frames, AudioBytes(samples), samples);
    }
  }

  /** The 32-bit frame counter and the 32-bit product give the byte count exactly if it fits 32 bits. */
  lemma CounterWraps(frames: nat)
    ensures DataLength(frames % U32) <= 4 * frames
    ensures DataLength(frames % U32) == 4 * frames <==> 4 * frames < U32
  {
    var q, r := frames / U32, frames % U32;
    assert frames == q * U32 + r;
    assert 4 * frames == 4 * r + U32 * (4 * q);
    ModAdd(4 * r, 4 * q);
  }

  lemma ModAdd(a: nat, k: nat)
    ensures (a + U32 * k) % U32 == a % U32
  {
    if k > 0 {
      ModAdd(a, k - 1);
      assert a + U32 * k == (a + U32 * (k - 1)) + U32;
    }
  }

  /**
   Reading a finished recording gives back exactly the samples that were written, if and only if
   their bytes can be counted in 32 bits.
   */
  lemma RecordingReadsBack(frames: nat, samples: seq<int>)
    requires |samples| == 2 * frames && forall i :: 0 <= i < |samples| ==> IsSample(samples[i])
    ensures Read(Header(frames % U32) + AudioBytes(samples)) == Ok(Sound(SAMPLE_RATE, CHANNELS, samples)) <==>
      4 * frames < U32
  {
    CounterWraps(frames);
    LengthDecides(frames % U32, samples);
  }

  /** What the reader holds once it is past the audio. */
  ghost function PastAudio(samples: seq<int>): Scan
    requires forall i :: 0 <= i < |samples| ==> IsSample(samples[i])
  {
    RECORDED.(data := Some(AudioBytes(samples)))
  }

  lemma AudioChunk(frames: nat, audio: seq<byte>, tail: seq<byte>)
    requires DataLength(frames) == |audio| && |audio| % 2 == 0
    ensures Walk(DataPart(frames, audio + tail), RECORDED) == Walk(tail, RECORDED.(data := Some(audio)))
  {
    var c := Chunk(DATA, audio, 0);
    assert [c][1..] == [];
    assert Wires([c]) == Wire(c);
    assert DataPart(frames, audio + tail) == Wires([c]) + tail;
    WalkWires([c], tail, RECORDED);
    assert GatherAll(RECORDED, [c]) == GatherAll(Gather(RECORDED, DATA, audio), []);
  }

  lemma TailedAudio(frames: nat, audio: seq<byte>, tail: seq<byte>)
    requires DataLength(frames) == |audio| && |audio| % 2 == 0
    ensures Read(Header(frames) + (audio + tail)) == Interpret(Walk(tail, RECORDED.(data := Some(audio))))
  {
    ReadRecording(frames, audio + tail);
    AudioChunk(frames, audio, tail);
  }

  /** Bytes behind the audio are read as further chunks. */
  lemma TailIsWalked(frames: nat, samples: seq<int>, tail: seq<byte>)
    requires |samples| == 2 * frames && forall i :: 0 <= i < |samples| ==> IsSample(samples[i])
    requires 4 * frames < U32
    ensures Read(Header(frames % U32) + (AudioBytes(samples) + tail)) == Interpret(Walk(tail, PastAudio(samples)))
  {
    CounterWraps(frames);
    TailedAudio(frames % U32, AudioBytes(samples), tail);
  }

  /** Another data chunk behind the audio is what the reader gets instead. */
  lemma StaleDataReplacesAudio(frames: nat, samples: seq<int>, body: seq<byte>)
    requires |samples| == 2 * frames && forall i :: 0 <= i < |samples| ==> IsSample(samples[i])
    requires 4 * frames < U32 && |body| < U32
    ensures Read(Header(frames % U32) + (AudioBytes(samples) + (DATA + Le(|body|, 4) + body)))
         == Ok(Sound(SAMPLE_RATE, CHANNELS, Samples(body)))
  {
    TailIsWalked(frames, samples, DATA + Le(|body|, 4) + body);
    WalkCut(DATA, |body|, body, PastAudio(samples));
  }
}
