/**
 The recorder driven by the 50 Hz audio clock of `crates/aurix-client/examples/voice_cli.rs`.
 */
module Recorder {
  import opened Words
  import opened Wrappers
  import opened Wav

  const FRAME_SAMPLES: nat := 960

  // ---- files ---------------------------------------------------------------------------------------

  /** What is on disk under one name. */
  class Inode {
    var bytes: seq<byte>

    constructor ()
      ensures bytes == []
    {
      bytes := [];
    }
  }

  /** Writing in the middle of a file replaces; a gap left behind its end is filled with zeros. */
  function Overwritten(bytes: seq<byte>, pos: nat, data: seq<byte>): seq<byte> {
    if data == [] then bytes
    else if pos <= |bytes| then bytes[..pos] + data + bytes[Min(pos + |data|, |bytes|)..]
    else bytes + seq(pos - |bytes|, _ => 0) + data
  }

  /** An open file: a position in an inode. */
  class Handle {
    const inode: Inode
    var pos: nat

    constructor (inode: Inode)
      ensures this.inode == inode && pos == 0
    {
      this.inode := inode;
      pos := 0;
    }

    method WriteAll(data: seq<byte>)
      modifies this, inode
      ensures inode.bytes == Overwritten(old(inode.bytes), old(pos), data)
      ensures pos == old(pos) + |data|
    {
      inode.bytes := Overwritten(inode.bytes, pos, data);
      pos := pos + |data|;
    }

    method Rewind()
      modifies this
      ensures pos == 0
    {
      pos := 0;
    }
  }

  // ---- samples -------------------------------------------------------------------------------------

  function Clamp(x: real): (y: real)
    ensures -1.0 <= y <= 1.0
    ensures -1.0 <= x <= 1.0 ==> y == x
  {
    if x < -1.0 then -1.0 else if x > 1.0 then 1.0 else x
  }

  /** Conversion to an integer, truncating towards zero. */
  function Truncate(x: real): int {
    if x >= 0.0 then x.Floor else -(-x).Floor
  }

  /** One sample of the mix as 16-bit PCM: never out of range, never louder, off by less than one step. */
  function Quantize(x: real): (q: int)
    ensures -32767 <= q <= 32767
    ensures x >= 0.0 ==> 32767.0 * Clamp(x) - 1.0 < q as real <= 32767.0 * Clamp(x)
    ensures x <= 0.0 ==> 32767.0 * Clamp(x) <= q as real < 32767.0 * Clamp(x) + 1.0
  {
    Truncate(Clamp(x) * 32767.0)
  }

  function QuantizeAll(mix: seq<real>): (samples: seq<int>)
    ensures |samples| == |mix|
    ensures forall i :: 0 <= i < |samples| ==> IsSample(samples[i]) && samples[i] == Quantize(mix[i])
  {
    seq(|mix|, i requires 0 <= i < |mix| => Quantize(mix[i]))
  }

  predicate AllSamples(samples: seq<int>) {
    forall i :: 0 <= i < |samples| ==> IsSample(samples[i])
  }

  // ---- recorder ------------------------------------------------------------------------------------

  /** Some position is where the audio so far ends, behind 44 bytes of some header. */
  ghost predicate InProgress(bytes: seq<byte>, samples: seq<int>, pos: nat) {
    && AllSamples(samples) && pos == 44 + |AudioBytes(samples)|
    && pos <= |bytes| && bytes[44..pos] == AudioBytes(samples)
  }

  lemma TickExtends(bytes: seq<byte>, samples: seq<int>, more: seq<int>, pos: nat)
    requires InProgress(bytes, samples, pos) && AllSamples(more)
    ensures InProgress(Overwritten(bytes, pos, AudioBytes(more)), samples + more, pos + |AudioBytes(more)|)
  {
    AudioAppend(samples, more);
    AllSamplesAppend(samples, more);
    WrittenAt(bytes, pos, AudioBytes(more));
  }

  lemma AllSamplesAppend(a: seq<int>, b: seq<int>)
    requires AllSamples(a) && AllSamples(b)
    ensures AllSamples(a + b)
  {
  }

  lemma WrittenAt(bytes: seq<byte>, pos: nat, data: seq<byte>)
    requires 44 <= pos <= |bytes|
    ensures pos + |data| <= |Overwritten(bytes, pos, data)|
    ensures Overwritten(bytes, pos, data)[44..pos + |data|] == bytes[44..pos] + data
  {
  }

  function Max(a: nat, b: nat): nat {
    if a < b then b else a
  }

  lemma OverwrittenLength(bytes: seq<byte>, pos: nat, data: seq<byte>)
    requires data != []
    ensures |Overwritten(bytes, pos, data)| == Max(|bytes|, pos + |data|)
  {
  }

  lemma HeaderReplaced(bytes: seq<byte>, samples: seq<int>, pos: nat, header: seq<byte>)
    requires InProgress(bytes, samples, pos) && |header| == 44
    ensures Overwritten(bytes, 0, header) == header + (AudioBytes(samples) + bytes[pos..])
  {
    assert bytes == bytes[..44] + (AudioBytes(samples) + bytes[pos..]);
  }

  function Wrap(n: nat): (w: nat)
    ensures w < U32
  {
    n % U32
  }

  lemma WrapAdd(n: nat, k: nat)
    ensures Wrap(Wrap(n) + k) == Wrap(n + k)
  {
    assert n + k == Wrap(n) + k + U32 * (n / U32);
    ModAdd(Wrap(n) + k, n / U32);
  }

  /** A reader gets exactly these samples if and only if their bytes can be counted in 32 bits. */
  ghost predicate ReadsBackIfCounted(bytes: seq<byte>, samples: seq<int>) {
    Read(bytes) == Ok(Sound(SAMPLE_RATE, CHANNELS, samples)) <==> 2 * |samples| < U32
  }

  /** A reader gets these samples, and then whatever further chunks the tail makes. */
  ghost predicate ReadsOn(bytes: seq<byte>, samples: seq<int>, tail: seq<byte>) {
    AllSamples(samples) && (2 * |samples| < U32 ==> Read(bytes) == Interpret(Walk(tail, PastAudio(samples))))
  }

  ghost predicate ReadsBack(bytes: seq<byte>, samples: seq<int>, tail: seq<byte>) {
    (tail == [] ==> ReadsBackIfCounted(bytes, samples)) && ReadsOn(bytes, samples, tail)
  }

  lemma CleanReadsBack(samples: seq<int>, count: nat)
    requires AllSamples(samples) && |samples| == 2 * count
    ensures ReadsBackIfCounted(Header(Wrap(count)) + AudioBytes(samples), samples)
  {
    RecordingReadsBack(count, samples);
  }

  lemma TailedReadsOn(samples: seq<int>, tail: seq<byte>, count: nat)
    requires AllSamples(samples) && |samples| == 2 * count
    ensures ReadsOn(Header(Wrap(count)) + (AudioBytes(samples) + tail), samples, tail)
  {
    if 4 * count < U32 {
      TailIsWalked(count, samples, tail);
    }
  }

  lemma FinishedReadsBack(bytes: seq<byte>, samples: seq<int>, pos: nat, count: nat)
    requires InProgress(bytes, samples, pos) && |samples| == 2 * count
    ensures ReadsBack(Overwritten(bytes, 0, Header(Wrap(count))), samples, bytes[pos..])
  {
    HeaderReplaced(bytes, samples, pos, Header(Wrap(count)));
    TailedReadsOn(samples, bytes[pos..], count);
    if bytes[pos..] == [] {
      assert AudioBytes(samples) + bytes[pos..] == AudioBytes(samples);
      CleanReadsBack(samples, count);
    }
  }

  /** A new or emptied file. */
  method Open(file: Inode) returns (f: Handle)
    modifies file
    ensures fresh(f) && f.inode == file && f.pos == 0 && file.bytes == []
  {
    file.bytes := [];
    f := new Handle(file);
  }

  /** A header for no audio, at the start of the file. */
  method WriteHeader(f: Handle)
    requires f.pos == 0
    modifies f, f.inode
    ensures f.inode.bytes == Overwritten(old(f.inode.bytes), 0, Header(0))
    ensures f.pos == 44 && |f.inode.bytes| == Max(|old(f.inode.bytes)|, 44)
  {
    var h := WavHeader(0);
    OverwrittenLength(f.inode.bytes, 0, h);
    f.WriteAll(h);
  }

  /** The audio of several ticks. */
  function Mixed(mixes: seq<seq<real>>): seq<real> {
    if mixes == [] then [] else mixes[0] + Mixed(mixes[1..])
  }

  predicate AreMixes(mixes: seq<seq<real>>) {
    forall i :: 0 <= i < |mixes| ==> |mixes[i]| == 2 * FRAME_SAMPLES
  }

  lemma QuantizeAppend(a: seq<real>, b: seq<real>)
    ensures QuantizeAll(a + b) == QuantizeAll(a) + QuantizeAll(b)
  {
  }

  lemma TakenAppend(taken: seq<int>, mixes: seq<seq<real>>)
    requires mixes != []
    ensures taken + QuantizeAll(mixes[0]) + QuantizeAll(Mixed(mixes[1..])) == taken + QuantizeAll(Mixed(mixes))
  {
    QuantizeAppend(mixes[0], Mixed(mixes[1..]));
  }

  class Recorder {
    var record: Handle?
    /** The frame counter, 32 bits wide. */
    var frames: nat
    /** The samples recorded since the recording was started, and the stereo frames they make up. */
    ghost var taken: seq<int>
    ghost var count: nat

    /** The open handle and its file. */
    ghost function Repr(): set<object>
      reads this
    {
      if record == null then {} else {record, record.inode}
    }

    ghost predicate Valid()
      reads this, Repr()
    {
      record != null ==>
        && InProgress(record.inode.bytes, taken, record.pos)
        && |taken| == 2 * count
        && frames == Wrap(count)
    }

    /** What the file holds behind the audio so far. */
    ghost function Tail(): seq<byte>
      reads this, Repr()
    {
      if record == null || record.pos > |record.inode.bytes| then [] else record.inode.bytes[record.pos..]
    }

    constructor ()
      ensures Valid() && record == null
    {
      record := null;
      frames, count := 0, 0;
      taken := [];
    }

    /** Stopping rewrites the first 44 bytes in place. */
    method Finish()
      modifies this, Repr()
      ensures record == null
      ensures old(record) != null ==>
        old(record).inode.bytes == Overwritten(old(record.inode.bytes), 0, Header(old(frames)))
      ensures old(record) != null && old(Valid()) ==>
        ReadsBack(old(record).inode.bytes, old(taken), old(Tail()))
    {
      if record != null {
        var f := record;
        record := null;
        f.Rewind();
        var h := WavHeader(frames);
        f.WriteAll(h);
        if old(Valid()) {
          FinishedReadsBack(old(record.inode.bytes), taken, old(record.pos), count);
        }
      }
    }

    /** One tick of the audio clock. */
    method Tick(mix: seq<real>)
      requires |mix| == 2 * FRAME_SAMPLES
      modifies this, Repr()
      ensures record == old(record)
      ensures record != null ==>
        && taken == old(taken) + QuantizeAll(mix)
        && record.inode.bytes == Overwritten(old(record.inode.bytes), old(record.pos), AudioBytes(QuantizeAll(mix)))
        && record.pos == old(record.pos) + 4 * FRAME_SAMPLES
        && |record.inode.bytes| == Max(|old(record.inode.bytes)|, record.pos)
      ensures old(Valid()) ==> Valid()
    {
      if record != null {
        var samples := QuantizeAll(mix);
        if old(Valid()) {
          TickExtends(record.inode.bytes, taken, samples, record.pos);
        }
        WrapAdd(count, FRAME_SAMPLES);
        OverwrittenLength(record.inode.bytes, record.pos, AudioBytes(samples));
        record.WriteAll(AudioBytes(samples));
        frames, count := Wrap(frames + FRAME_SAMPLES), count + FRAME_SAMPLES;
        taken := taken + samples;
      }
    }

    /** Some ticks in a row. */
    method Ticks(mixes: seq<seq<real>>)
      requires AreMixes(mixes)
      modifies this, Repr()
      ensures record == old(record)
      ensures record != null ==> taken == old(taken) + QuantizeAll(Mixed(mixes))
      ensures record != null && mixes == [] ==>
        record.pos == old(record.pos) && record.inode.bytes == old(record.inode.bytes)
      ensures record != null && mixes != [] ==>
        && record.pos >= old(record.pos) + 4 * FRAME_SAMPLES
        && |record.inode.bytes| == Max(|old(record.inode.bytes)|, record.pos)
      ensures old(Valid()) ==> Valid()
      decreases |mixes|
    {
      if mixes != [] {
        Tick(mixes[0]);
        Ticks(mixes[1..]);
        TakenAppend(old(taken), mixes);
      }
    }

    /**
     The first half of starting to record: the file is emptied and gets a header, while a running
     recording goes on. It may be one to the same file.
     */
    method Prepare(file: Inode, early: seq<seq<real>>, late: seq<seq<real>>) returns (f: Handle)
      requires Valid() && AreMixes(early) && AreMixes(late)
      modifies this, file, Repr()
      ensures record == old(record) && fresh(f) && f.inode == file
      ensures f.pos == 44 <= |file.bytes|
      ensures |file.bytes| != 44 <==> record != null && record.inode == file && early + late != []
      ensures record != null && record.inode != file ==>
        && Valid() && (old(Tail()) == [] ==> Tail() == [])
        && taken == old(taken) + QuantizeAll(Mixed(early)) + QuantizeAll(Mixed(late))
    {
      f := Open(file);
      Ticks(early);
      WriteHeader(f);
      Ticks(late);
    }

    /**
     Recording to a named file. The audio clock may tick before and after the header is written.
     Ticks of a recording to another file are in that recording; those of one to the same file
     leave bytes behind where the new recording starts, and nothing else does.
     */
    method Start(file: Inode, early: seq<seq<real>>, late: seq<seq<real>>)
      requires Valid() && AreMixes(early) && AreMixes(late)
      modifies this, file, Repr()
      ensures Valid()
      ensures record != null && fresh(record) && record.inode == file && taken == []
      ensures Tail() != [] <==> old(record) != null && old(record.inode) == file && early + late != []
      ensures old(record) != null && old(record.inode) != file && old(Tail()) == [] ==>
        ReadsBackIfCounted(old(record).inode.bytes, old(taken) + QuantizeAll(Mixed(early)) + QuantizeAll(Mixed(late)))
    {
      var f := Prepare(file, early, late);
      OverwrittenLength(file.bytes, 0, Header(frames));
      Finish();
      Begin(f);
    }

    /** A file with a header is an empty recording. */
    method Begin(f: Handle)
      requires f.pos == 44 <= |f.inode.bytes|
      modifies this
      ensures Valid() && record == f && taken == []
    {
      assert InProgress(f.inode.bytes, [], 44);
      record := f;
      frames, count := 0, 0;
      taken := [];
    }
  }
}
