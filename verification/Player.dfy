/**
 The WAV "microphone" of `crates/aurix-client/examples/voice_cli.rs`: at every tick of the 50 Hz
 audio clock the next 20 ms of a sound are pushed to the client.
 */
module Player {
  import opened Wrappers
  import opened Wav

  /** Interleaved samples per tick. */
  function FrameSize(sound: Sound): nat {
    sound.rate / 50 * sound.channels
  }

  function Repeat(pcm: seq<int>, n: nat): seq<int> {
    if n == 0 then [] else Repeat(pcm, n - 1) + pcm
  }

  class Player {
    var play: Option<Sound>
    var playPos: nat
    var playLoop: bool
    /** How many sounds have been reported as finished. */
    var finished: nat
    /** What has been pushed since the sound was started, and how often it went round. */
    ghost var pushed: seq<int>
    ghost var rounds: nat

    /** What has been pushed is the sound over and over, up to the position. */
    ghost predicate Valid()
      reads this
    {
      play.Some? ==>
        && playPos <= |play.value.pcm|
        && (!playLoop ==> rounds == 0)
        && pushed == Repeat(play.value.pcm, rounds) + play.value.pcm[..playPos]
    }

    constructor ()
      ensures Valid() && play.None?
    {
      play := None;
      playPos, playLoop, finished := 0, false, 0;
      pushed, rounds := [], 0;
    }

    method Start(sound: Sound, again: bool)
      modifies this
      ensures Valid() && play == Some(sound) && playLoop == again && playPos == 0 && finished == old(finished)
      ensures pushed == [] && rounds == 0
    {
      playLoop := again;
      playPos := 0;
      play := Some(sound);
      pushed, rounds := [], 0;
    }

    /** One tick: at most one frame, the sound is over when its end is reached. */
    method Tick() returns (chunk: seq<int>)
      requires Valid()
      modifies this
      ensures Valid() && pushed == old(pushed) + chunk
      ensures old(play).None? ==> play.None? && chunk == [] && finished == old(finished) && pushed == old(pushed)
      ensures old(play).Some? ==>
        var pcm := old(play).value.pcm;
        var end := Min(old(playPos) + FrameSize(old(play).value), |pcm|);
        && chunk == pcm[old(playPos)..end]
        && playLoop == old(playLoop)
        && (end < |pcm| ==> play == old(play) && playPos == end && rounds == old(rounds) && finished == old(finished))
        && (end == |pcm| && playLoop ==>
          play == old(play) && playPos == 0 && rounds == old(rounds) + 1 && finished == old(finished))
        && (end == |pcm| && !playLoop ==> play.None? && pushed == pcm && finished == old(finished) + 1)
    {
      chunk := [];
      if play.Some? {
        var w := play.value;
        var end := Min(playPos + FrameSize(w), |w.pcm|);
        chunk := w.pcm[playPos..end];
        assert w.pcm[..playPos] + chunk == w.pcm[..end];
        pushed := pushed + chunk;
        assert pushed == Repeat(w.pcm, rounds) + w.pcm[..end];
        playPos := end;
        if end >= |w.pcm| {
          assert w.pcm[..end] == w.pcm;
          if playLoop {
            playPos := 0;
            rounds := rounds + 1;
          } else {
            play := None;
            finished := finished + 1;
          }
        }
      }
    }

    /**
     The audio clock running for a while. A sound that is not looped has been pushed up to n frames
     and is over exactly when they cover it: never, for a sound below 50 Hz that is not empty.
     */
    method Run(n: nat)
      requires Valid() && play.Some? && !playLoop && playPos == 0 && pushed == []
      modifies this
      ensures var sound := old(play).value;
        && pushed == sound.pcm[..Min(n * FrameSize(sound), |sound.pcm|)]
        && (play.None? <==> n > 0 && n * FrameSize(sound) >= |sound.pcm|)
        && finished == old(finished) + if play.None? then 1 else 0
    {
      ghost var sound := play.value;
      ghost var frame := FrameSize(sound);
      for i := 0 to n
        invariant Valid()
        invariant pushed == sound.pcm[..Min(i * frame, |sound.pcm|)]
        invariant play.None? <==> i > 0 && i * frame >= |sound.pcm|
        invariant play.Some? ==> play == Some(sound) && !playLoop && playPos == i * frame
        invariant finished == old(finished) + if play.None? then 1 else 0
      {
        assert (i + 1) * frame == i * frame + frame;
        var _ := Tick();
      }
    }
  }

  lemma FrameIsEmptyExactlyWhen(sound: Sound)
    ensures FrameSize(sound) == 0 <==> sound.rate < 50 || sound.channels == 0
  {
    var perTick := sound.rate / 50;
    if perTick > 0 && sound.channels > 0 {
      assert perTick * sound.channels == (perTick - 1) * sound.channels + sound.channels;
      assert (perTick - 1) * sound.channels >= 0;
    }
  }

  /** A sound ends, after some number of ticks, exactly when a tick carries something or there is nothing to carry. */
  lemma SoundEndsExactlyWhen(sound: Sound)
    ensures (exists n: nat :: n > 0 && n * FrameSize(sound) >= |sound.pcm|) <==>
      (sound.rate >= 50 && sound.channels > 0) || sound.pcm == []
  {
    var frame := FrameSize(sound);
    FrameIsEmptyExactlyWhen(sound);
    if frame == 0 {
      forall n: nat
        ensures n * frame == 0
      {
      }
      assert 1 * frame == 0;
    } else {
      var n := |sound.pcm| + 1;
      assert n * frame == n * (frame - 1) + n && n * (frame - 1) >= 0;
    }
  }
}
