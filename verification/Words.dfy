/**
 Machine words.  A byte is an integer below 256; a 32-bit register is the sequence of its
 bits, bit 0 (the least significant) first, so that shifts and XOR act position by position.
 */
module Words {

  const BYTE_BITS: nat := 8

  type byte = b: int | 0 <= b < 256

  type Word = w: seq<bool> | |w| == 32 witness Falses(32)

  function Zero(): (w: Word)
    ensures forall i :: 0 <= i < 32 ==> !w[i]
  {
    Falses(32)
  }

  function Ones(): (w: Word)
    ensures forall i :: 0 <= i < 32 ==> w[i]
  {
    Not(Zero())
  }

  lemma XorSwap(a: Word, b: Word, c: Word, d: Word)
    ensures Xor(Xor(a, b), Xor(c, d)) == Xor(Xor(a, c), Xor(b, d))
  {
  }

  lemma XorUnit(a: Word)
    ensures Xor(a, Zero()) == a && Xor(Zero(), a) == a && Xor(a, a) == Zero()
  {
  }

  lemma XorCancel(a: Word, b: Word)
    ensures Xor(Xor(a, b), b) == a
  {
  }

  lemma XorNot(a: Word, b: Word, c: Word)
    ensures Not(Xor(Xor(a, b), c)) == Xor(Xor(Not(a), Not(b)), Not(c))
  {
  }

  lemma NotInjective(a: Word, b: Word)
    requires Not(a) == Not(b)
    ensures a == b
  {
    assert Not(Not(a)) == a && Not(Not(b)) == b;
  }

  function Xor(a: Word, b: Word): (c: Word)
    ensures forall i :: 0 <= i < 32 ==> c[i] == (a[i] != b[i])
  {
    seq(32, i requires 0 <= i < 32 => a[i] != b[i])
  }

  function Not(a: Word): (c: Word)
    ensures forall i :: 0 <= i < 32 ==> c[i] == !a[i]
  {
    seq(32, i requires 0 <= i < 32 => !a[i])
  }

  function ShiftRight(a: Word): (c: Word)
    ensures forall i :: 0 <= i < 31 ==> c[i] == a[i + 1]
    ensures !c[31]
  {
    a[1..] + [false]
  }

  function Falses(n: nat): (bits: seq<bool>)
    ensures |bits| == n && forall i :: 0 <= i < n ==> !bits[i]
  {
    seq(n, i => false)
  }

  function Pow2(k: nat): (p: nat)
    ensures p >= 1
  {
    if k == 0 then 1 else 2 * Pow2(k - 1)
  }

  /** The `k` low bits of a number, least significant first, and the number they spell. */
  function NatBits(n: nat, k: nat): (bits: seq<bool>)
    ensures |bits| == k
    decreases k, n
  {
    if k == 0 then [] else [n % 2 == 1] + NatBits(n / 2, k - 1)
  }

  function BitsNat(bits: seq<bool>): (n: nat)
    ensures n < Pow2(|bits|)
  {
    if bits == [] then 0 else (if bits[0] then 1 else 0) + 2 * BitsNat(bits[1..])
  }

  lemma {:induction false} BitsNatInverse(n: nat, k: nat)
    requires n < Pow2(k)
    ensures BitsNat(NatBits(n, k)) == n
    decreases k
  {
    if k > 0 {
      BitsNatInverse(n / 2, k - 1);
      assert NatBits(n, k)[1..] == NatBits(n / 2, k - 1);
    }
  }

  lemma {:induction false} NatBitsInverse(bits: seq<bool>)
    ensures NatBits(BitsNat(bits), |bits|) == bits
    decreases |bits|
  {
    if bits != [] {
      var n, rest := BitsNat(bits), BitsNat(bits[1..]);
      assert n / 2 == rest && (n % 2 == 1) == bits[0];
      NatBitsInverse(bits[1..]);
    }
  }

  lemma ByteRange()
    ensures Pow2(8) == 256
  {
    assert Pow2(4) == 16;
  }

  /** The eight bits of a byte, least significant first. */
  function ByteBits(b: byte): (bits: seq<bool>)
    ensures |bits| == 8
  {
    NatBits(b, BYTE_BITS)
  }

  function BitsByte(bits: seq<bool>): (b: byte)
    requires |bits| == 8
  {
    ByteRange();
    BitsNat(bits)
  }

  lemma BitsByteInverse(b: byte)
    ensures BitsByte(ByteBits(b)) == b
  {
    ByteRange();
    BitsNatInverse(b, BYTE_BITS);
  }

  lemma ByteBitsInverse(bits: seq<bool>)
    requires |bits| == 8
    ensures ByteBits(BitsByte(bits)) == bits
  {
    NatBitsInverse(bits);
  }

  /** Big-endian bytes of a register: most significant byte first. */
  function WordBytes(w: Word): (bytes: seq<byte>)
    ensures |bytes| == 4
  {
    [BitsByte(w[24..32]), BitsByte(w[16..24]), BitsByte(w[8..16]), BitsByte(w[0..8])]
  }

  function BytesWord(bytes: seq<byte>): Word
    requires |bytes| == 4
  {
    ByteBits(bytes[3]) + ByteBits(bytes[2]) + ByteBits(bytes[1]) + ByteBits(bytes[0])
  }

  /** The number that bytes spell, most significant first. */
  function Spelled(bytes: seq<byte>): nat {
    if bytes == [] then 0 else 256 * Spelled(bytes[..|bytes| - 1]) + bytes[|bytes| - 1]
  }

  lemma SpelledSnoc(bytes: seq<byte>, b: byte)
    ensures Spelled(bytes + [b]) == 256 * Spelled(bytes) + b
  {
    assert (bytes + [b])[..|bytes|] == bytes;
  }

  lemma {:induction false} BitsNatAppend(a: seq<bool>, b: seq<bool>)
    ensures BitsNat(a + b) == BitsNat(a) + Pow2(|a|) * BitsNat(b)
    decreases |a|
  {
    if a == [] {
      assert a + b == b;
    } else {
      var d := if a[0] then 1 else 0;
      assert (a + b)[1..] == a[1..] + b;
      BitsNatAppend(a[1..], b);
      assert BitsNat(a + b) == d + 2 * BitsNat(a[1..] + b);
      AppendStep(d, BitsNat(a[1..]), Pow2(|a| - 1), BitsNat(b));
    }
  }

  lemma AppendStep(d: nat, x: nat, p: nat, y: nat)
    ensures d + 2 * (x + p * y) == d + 2 * x + (2 * p) * y
  {
  }

  lemma LowByteFirst(low: seq<bool>, high: seq<bool>)
    requires |low| == 8
    ensures BitsNat(low + high) == BitsByte(low) + 256 * BitsNat(high)
  {
    ByteRange();
    BitsNatAppend(low, high);
  }

  /** The bytes of a register spell its number. */
  lemma WordBytesSpell(w: Word)
    ensures Spelled(WordBytes(w)) == BitsNat(w)
  {
    var b := WordBytes(w);
    assert w == w[0..8] + w[8..] && w[8..] == w[8..16] + w[16..] && w[16..] == w[16..24] + w[24..32];
    LowByteFirst(w[0..8], w[8..]);
    LowByteFirst(w[8..16], w[16..]);
    LowByteFirst(w[16..24], w[24..32]);
    SpelledFour(b[0], b[1], b[2], b[3]);
  }

  lemma SpelledTwo(a: byte, b: byte)
    ensures Spelled([a, b]) == 256 * (a as int) + b
  {
    SpelledSnoc([], a);
    SpelledSnoc([a], b);
    assert [] + [a] == [a] && [a] + [b] == [a, b];
  }

  lemma SpelledFour(a: byte, b: byte, c: byte, d: byte)
    ensures Spelled([a, b, c, d]) == 256 * (256 * (256 * a + b) + c) + d
  {
    SpelledSnoc([], a);
    SpelledSnoc([a], b);
    SpelledSnoc([a, b], c);
    SpelledSnoc([a, b, c], d);
    assert [] + [a] == [a] && [a] + [b] == [a, b] && [a, b] + [c] == [a, b, c] && [a, b, c] + [d] == [a, b, c, d];
  }

  lemma WordInFourBytes(w: Word)
    ensures w == w[0..8] + w[8..16] + w[16..24] + w[24..32]
  {
  }

  lemma WordBytesInverse(w: Word)
    ensures BytesWord(WordBytes(w)) == w
  {
    ByteBitsInverse(w[24..32]);
    ByteBitsInverse(w[16..24]);
    ByteBitsInverse(w[8..16]);
    ByteBitsInverse(w[0..8]);
    WordInFourBytes(w);
  }

  lemma BytesWordInverse(bytes: seq<byte>)
    requires |bytes| == 4
    ensures WordBytes(BytesWord(bytes)) == bytes
  {
    var w := BytesWord(bytes);
    assert w[0..8] == ByteBits(bytes[3]) && w[8..16] == ByteBits(bytes[2]);
    assert w[16..24] == ByteBits(bytes[1]) && w[24..32] == ByteBits(bytes[0]);
    BitsByteInverse(bytes[0]);
    BitsByteInverse(bytes[1]);
    BitsByteInverse(bytes[2]);
    BitsByteInverse(bytes[3]);
  }

  /** Big-endian bytes of a 16-bit number. */
  function U16Bytes(n: nat): (bytes: seq<byte>)
    requires n < 0x1_0000
    ensures |bytes| == 2
  {
    [n / 256, n % 256]
  }

  function BytesU16(hi: byte, lo: byte): (n: nat)
    ensures n < 0x1_0000
  {
    256 * hi + lo
  }

  lemma U16RoundTrip(n: nat)
    requires n < 0x1_0000
    ensures var b := U16Bytes(n); BytesU16(b[0], b[1]) == n
  {
  }
}
