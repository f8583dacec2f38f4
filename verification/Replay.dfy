/**
 The anti-replay windows of the media protocol (`crates/aurix-common/src/protocol.rs`): a sliding
 bitmap of 64 sequence numbers (section 3.3.2 of RFC 3711), and a wide one of 4096 kept in 64 words.
 */
module Replay {

  const NARROW: nat := 64
  const WIDE_WORDS: nat := 64
  const WIDE: nat := 4096

  // ---- the rule --------------------------------------------------------------------------------------

  /** What has been accepted so far; `highest` means something once anything has. */
  datatype Past = Past(seen: set<nat>, highest: nat)

  const NOTHING := Past({}, 0)

  ghost predicate IsPast(p: Past) {
    && (p.seen != {} ==> p.highest in p.seen)
    && (forall s :: s in p.seen ==> s <= p.highest)
  }

  /** New, and not further behind the highest than the window is wide. */
  predicate Fresh(p: Past, width: nat, s: nat) {
    p.seen == {} || s > p.highest || (p.highest - s < width && s !in p.seen)
  }

  function Record(p: Past, width: nat, s: nat): Past {
    if !Fresh(p, width, s) then p
    else Past(p.seen + {s}, if p.seen == {} || s > p.highest then s else p.highest)
  }

  lemma RecordKeepsPast(p: Past, width: nat, s: nat)
    requires IsPast(p)
    ensures IsPast(Record(p, width, s))
    ensures Fresh(p, width, s) ==> s !in p.seen
  {
  }

  // ---- 64-bit words ----------------------------------------------------------------------------------

  type Word64 = w: seq<bool> | |w| == 64 witness seq(64, i => false)

  function Zero64(): (w: Word64)
    ensures forall i :: 0 <= i < 64 ==> !w[i]
  {
    seq(64, i => false)
  }

  function ShiftUp(w: Word64, n: nat): (r: Word64)
    requires n < 64
    ensures forall i :: 0 <= i < 64 ==> r[i] == (i >= n && w[i - n])
  {
    seq(64, i requires 0 <= i < 64 => i >= n && w[i - n])
  }

  function ShiftDown(w: Word64, n: nat): (r: Word64)
    requires n <= 64
    ensures forall i :: 0 <= i < 64 ==> r[i] == (i + n < 64 && w[i + n])
  {
    seq(64, i requires 0 <= i < 64 => i + n < 64 && w[i + n])
  }

  function Or(a: Word64, b: Word64): (r: Word64)
    ensures forall i :: 0 <= i < 64 ==> r[i] == (a[i] || b[i])
  {
    seq(64, i requires 0 <= i < 64 => a[i] || b[i])
  }

  // ---- the narrow window -----------------------------------------------------------------------------

  /** Bit d of the bitmap says whether the number d below the highest has been accepted. */
  ghost predicate Shows(bitmap: Word64, p: Past) {
    forall d :: 0 <= d < 64 && d <= p.highest ==> (bitmap[d] <==> p.highest - d in p.seen)
  }

  class ReplayWindow {
    var highest: nat
    var bitmap: Word64
    var initialized: bool
    ghost var past: Past

    ghost predicate Valid()
      reads this
    {
      && IsPast(past)
      && (initialized <==> past.seen != {})
      && (initialized ==> highest == past.highest && Shows(bitmap, past))
    }

    constructor ()
      ensures Valid() && past == NOTHING
    {
      highest, bitmap, initialized := 0, Zero64(), false;
      past := NOTHING;
    }

    /** The bitmap decides exactly as the rule does. */
    method CheckAndUpdate(s: nat) returns (ok: bool)
      requires Valid()
      modifies this
      ensures Valid()
      ensures ok == Fresh(old(past), 64, s) && past == Record(old(past), 64, s)
    {
      RecordKeepsPast(past, NARROW, s);
      past := Record(past, NARROW, s);
      if !initialized {
        initialized := true;
        highest := s;
        bitmap := Zero64()[0 := true];
        return true;
      }
      if s > highest {
        var delta := s - highest;
        if delta >= NARROW {
          bitmap := Zero64()[0 := true];
        } else {
          bitmap := ShiftUp(bitmap, delta)[0 := true];
        }
        highest := s;
        return true;
      }
      var delta := highest - s;
      if delta >= NARROW {
        return false;
      }
      if bitmap[delta] {
        return false;
      }
      bitmap := bitmap[delta := true];
      ok := true;
    }
  }

  // ---- the wide window -------------------------------------------------------------------------------

  /** Word i of the bitmap after a shift by `skip` words and `bits` bits. */
  function Shifted(words: seq<Word64>, i: nat, skip: nat, bits: nat): (v: Word64)
    requires i < |words| && bits < 64
    ensures forall j :: 0 <= j < 64 ==>
      v[j] ==
        if j >= bits then i >= skip && words[i - skip][j - bits]
        else i > skip && words[i - skip - 1][j + 64 - bits]
  {
    if i < skip then Zero64()
    else
      var v := ShiftUp(words[i - skip], bits);
      if bits > 0 && i > skip then Or(v, ShiftDown(words[i - skip - 1], 64 - bits)) else v
  }

  /** Bit j of word i stands for the number 64 i + j below the highest. */
  ghost predicate WideShows(words: seq<Word64>, p: Past)
    requires |words| == WIDE_WORDS
  {
    forall i, j :: 0 <= i < WIDE_WORDS && 0 <= j < 64 && 64 * i + j <= p.highest ==>
      (words[i][j] <==> p.highest - (64 * i + j) in p.seen)
  }

  lemma FirstShows(words: seq<Word64>, s: nat)
    requires |words| == WIDE_WORDS && words[0] == Zero64()[0 := true]
    requires forall i :: 1 <= i < WIDE_WORDS ==> words[i] == Zero64()
    ensures WideShows(words, Past({s}, s))
  {
  }

  /** Moving on far: everything known is too old, only the new number is left. */
  lemma FarShows(words: seq<Word64>, p: Past, s: nat)
    requires IsPast(p) && |words| == WIDE_WORDS && s >= p.highest + WIDE
    requires words[0] == Zero64()[0 := true]
    requires forall i :: 1 <= i < WIDE_WORDS ==> words[i] == Zero64()
    ensures WideShows(words, Past(p.seen + {s}, s))
  {
  }

  lemma ShiftedShows(before: seq<Word64>, p: Past, s: nat, i: nat, j: nat)
    requires IsPast(p) && |before| == WIDE_WORDS && WideShows(before, p) && p.highest < s < p.highest + WIDE
    requires i < WIDE_WORDS && j < 64 && 0 < 64 * i + j <= s
    ensures Shifted(before, i, (s - p.highest) / 64, (s - p.highest) % 64)[j] <==> s - (64 * i + j) in p.seen
  {
    var skip, bits := (s - p.highest) / 64, (s - p.highest) % 64;
    assert s - p.highest == 64 * skip + bits;
    if j >= bits {
      if i >= skip {
        assert before[i - skip][j - bits] <==> p.highest - (64 * (i - skip) + (j - bits)) in p.seen;
      }
    } else if i > skip {
      assert before[i - skip - 1][j + 64 - bits] <==> p.highest - (64 * (i - skip - 1) + (j + 64 - bits)) in p.seen;
    }
  }

  /** Moving on within the window: every bit moves with its number. */
  lemma NearShows(before: seq<Word64>, after: seq<Word64>, p: Past, s: nat)
    requires IsPast(p) && |before| == |after| == WIDE_WORDS && WideShows(before, p) && p.highest < s < p.highest + WIDE
    requires after[0] == Shifted(before, 0, (s - p.highest) / 64, (s - p.highest) % 64)[0 := true]
    requires forall i :: 1 <= i < WIDE_WORDS ==>
      after[i] == Shifted(before, i, (s - p.highest) / 64, (s - p.highest) % 64)
    ensures WideShows(after, Past(p.seen + {s}, s))
  {
    forall i, j | 0 <= i < WIDE_WORDS && 0 <= j < 64 && 64 * i + j <= s
      ensures after[i][j] <==> s - (64 * i + j) in p.seen + {s}
    {
      if 64 * i + j > 0 {
        ShiftedShows(before, p, s, i, j);
      }
    }
  }

  /** All words after a shift. */
  ghost predicate IsShifted(before: seq<Word64>, after: seq<Word64>, distance: nat)
    requires |before| == |after| == WIDE_WORDS
  {
    forall i :: 0 <= i < WIDE_WORDS ==>
      after[i] == if distance >= WIDE then Zero64() else Shifted(before, i, distance / 64, distance % 64)
  }

  lemma AdvanceShows(before: seq<Word64>, after: seq<Word64>, p: Past, s: nat)
    requires IsPast(p) && |before| == |after| == WIDE_WORDS && WideShows(before, p) && s > p.highest
    requires IsShifted(before, after, s - p.highest)
    ensures WideShows(after[0 := after[0][0 := true]], Past(p.seen + {s}, s))
  {
    var marked := after[0 := after[0][0 := true]];
    if s - p.highest >= WIDE {
      FarShows(marked, p, s);
    } else {
      NearShows(before, marked, p, s);
    }
  }

  /** Filling in: one more bit below the highest. */
  lemma MarkShows(words: seq<Word64>, p: Past, s: nat)
    requires |words| == WIDE_WORDS && WideShows(words, p) && s <= p.highest < s + WIDE
    ensures var i, j := (p.highest - s) / 64, (p.highest - s) % 64;
      && (words[i][j] <==> s in p.seen)
      && WideShows(words[i := words[i][j := true]], Past(p.seen + {s}, p.highest))
  {
    var i, j := (p.highest - s) / 64, (p.highest - s) % 64;
    assert 64 * i + j == p.highest - s;
    assert words[i][j] <==> p.highest - (64 * i + j) in p.seen;
  }

  class WideReplayWindow {
    var highest: nat
    const bitmap: array<Word64>
    var initialized: bool
    ghost var past: Past

    ghost predicate Valid()
      reads this, bitmap
    {
      && bitmap.Length == WIDE_WORDS
      && IsPast(past)
      && (initialized <==> past.seen != {})
      && (initialized ==> highest == past.highest && WideShows(bitmap[..], past))
    }

    constructor ()
      ensures Valid() && past == NOTHING
      ensures fresh(bitmap)
    {
      bitmap := new Word64[WIDE_WORDS](_ => Zero64());
      highest, initialized := 0, false;
      past := NOTHING;
    }

    method Clear()
      requires bitmap.Length == WIDE_WORDS
      modifies bitmap
      ensures forall i :: 0 <= i < WIDE_WORDS ==> bitmap[i] == Zero64()
    {
      for i := 0 to WIDE_WORDS
        invariant forall k :: 0 <= k < i ==> bitmap[k] == Zero64()
      {
        bitmap[i] := Zero64();
      }
    }

    /** The in-place loop runs from the top word down, so that it only reads words not yet written. */
    method ShiftLeft(distance: nat)
      requires bitmap.Length == WIDE_WORDS
      modifies bitmap
      ensures IsShifted(old(bitmap[..]), bitmap[..], distance)
    {
      if distance >= WIDE {
        Clear();
        return;
      }
      var skip, bits := distance / 64, distance % 64;
      ghost var before := bitmap[..];
      for i := WIDE_WORDS downto 0
        invariant forall k :: 0 <= k < i ==> bitmap[k] == before[k]
        invariant forall k :: i <= k < WIDE_WORDS ==> bitmap[k] == Shifted(before, k, skip, bits)
      {
        var v := Zero64();
        if i >= skip {
          v := ShiftUp(bitmap[i - skip], bits);
          if bits > 0 && i > skip {
            v := Or(v, ShiftDown(bitmap[i - skip - 1], 64 - bits));
          }
        }
        bitmap[i] := v;
      }
    }

    /** A number above the highest moves the window up. */
    method Advance(s: nat)
      requires Valid() && initialized && s > highest
      modifies this, bitmap
      ensures Valid() && past == Past(old(past).seen + {s}, s)
    {
      ghost var before := bitmap[..];
      ShiftLeft(s - highest);
      ghost var after := bitmap[..];
      AdvanceShows(before, after, past, s);
      bitmap[0] := bitmap[0][0 := true];
      assert bitmap[..] == after[0 := after[0][0 := true]];
      highest := s;
      past := Past(past.seen + {s}, s);
    }

    /** A number inside the window is looked up and marked. */
    method Mark(s: nat) returns (ok: bool)
      requires Valid() && initialized && s <= highest < s + WIDE
      modifies this, bitmap
      ensures Valid() && ok == (s !in old(past).seen)
      ensures past == if ok then Past(old(past).seen + {s}, old(past).highest) else old(past)
    {
      var delta := highest - s;
      var word, bit := delta / 64, delta % 64;
      MarkShows(bitmap[..], past, s);
      if bitmap[word][bit] {
        return false;
      }
      ghost var before := bitmap[..];
      bitmap[word] := bitmap[word][bit := true];
      assert bitmap[..] == before[word := before[word][bit := true]];
      past := Past(past.seen + {s}, past.highest);
      ok := true;
    }

    /** The words decide exactly as the rule does. */
    method CheckAndUpdate(s: nat) returns (ok: bool)
      requires Valid()
      modifies this, bitmap
      ensures Valid()
      ensures ok == Fresh(old(past), 4096, s) && past == Record(old(past), 4096, s)
    {
      if !initialized {
        initialized := true;
        highest := s;
        Clear();
        bitmap[0] := bitmap[0][0 := true];
        FirstShows(bitmap[..], s);
        past := Past({s}, s);
        return true;
      }
      if s > highest {
        Advance(s);
        return true;
      }
      if highest - s >= WIDE {
        return false;
      }
      ok := Mark(s);
    }
  }

  // ---- runs ------------------------------------------------------------------------------------------

  /** What a window knows before number i of a run. */
  function PastAt(width: nat, run: seq<nat>, i: nat): Past
    requires i <= |run|
  {
    if i == 0 then NOTHING else Record(PastAt(width, run, i - 1), width, run[i - 1])
  }

  predicate AcceptedAt(width: nat, run: seq<nat>, i: nat)
    requires i < |run|
  {
    Fresh(PastAt(width, run, i), width, run[i])
  }

  /** The highest is the maximum of the run, and only numbers too far below it are unknown. */
  ghost predicate Summarises(p: Past, width: nat, run: seq<nat>) {
    && (p.seen == {} <==> run == [])
    && (run != [] ==> p.highest in run)
    && (forall i :: 0 <= i < |run| ==> run[i] <= p.highest && (run[i] in p.seen || p.highest - run[i] >= width))
    && (forall s :: s in p.seen ==> s in run)
  }

  lemma RecordSummarises(p: Past, width: nat, run: seq<nat>, s: nat)
    requires width > 0 && Summarises(p, width, run)
    ensures Summarises(Record(p, width, s), width, run + [s])
  {
    var q, more := Record(p, width, s), run + [s];
    assert more[|run|] == s;
    forall i | 0 <= i < |more|
      ensures more[i] <= q.highest && (more[i] in q.seen || q.highest - more[i] >= width)
    {
      if i < |run| {
        assert more[i] == run[i];
      }
    }
    forall x | x in q.seen || (x == q.highest && more != [])
      ensures x in more
    {
      if x in run {
        var i :| 0 <= i < |run| && run[i] == x;
        assert more[i] == x;
      }
    }
  }

  lemma {:induction false} PastSummarises(width: nat, run: seq<nat>, i: nat)
    requires width > 0 && i <= |run|
    ensures Summarises(PastAt(width, run, i), width, run[..i])
    decreases i
  {
    if i > 0 {
      PastSummarises(width, run, i - 1);
      RecordSummarises(PastAt(width, run, i - 1), width, run[..i - 1], run[i - 1]);
      assert run[..i - 1] + [run[i - 1]] == run[..i];
    }
  }

  /** First of its number, with nothing before it that is a whole window ahead. */
  ghost predicate IsNews(width: nat, run: seq<nat>, j: nat)
    requires j < |run|
  {
    forall i :: 0 <= i < j ==> run[i] != run[j] && run[i] < run[j] + width
  }

  /** In every run, exactly the first arrivals that are not overtaken by a whole window are accepted. */
  lemma AcceptedExactlyWhen(width: nat, run: seq<nat>, j: nat)
    requires width > 0 && j < |run|
    ensures AcceptedAt(width, run, j) <==> IsNews(width, run, j)
  {
    PastSummarises(width, run, j);
    var p, before := PastAt(width, run, j), run[..j];
    forall i | 0 <= i < j
      ensures before[i] == run[i] && run[i] <= p.highest && (run[i] in p.seen || p.highest - run[i] >= width)
    {
    }
    if IsNews(width, run, j) && j > 0 {
      var k :| 0 <= k < j && before[k] == p.highest;
      assert run[k] < run[j] + width;
      assert run[j] !in before;
    }
  }

  lemma AcceptedAtMostOnce(width: nat, run: seq<nat>, i: nat, j: nat)
    requires width > 0 && i < j < |run| && run[i] == run[j]
    ensures !AcceptedAt(width, run, j)
  {
    AcceptedExactlyWhen(width, run, j);
  }

  /** The wide window accepts whatever the narrow one does. */
  lemma WiderAcceptsMore(narrow: nat, wide: nat, run: seq<nat>, j: nat)
    requires 0 < narrow <= wide && j < |run| && AcceptedAt(narrow, run, j)
    ensures AcceptedAt(wide, run, j)
  {
    AcceptedExactlyWhen(narrow, run, j);
    AcceptedExactlyWhen(wide, run, j);
  }
}
