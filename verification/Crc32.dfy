/**
 The bitwise CRC-32 of the fuzz harness (`fuzz/src/lib.rs`), the IEEE checksum of section 8
 of RFC 1952.

 `Checksum` is the harness's nested loop.  `Register` is the register it computes, read as a
 fold over bytes; `BitRegister` reads the same register as a fold over single bits, least
 significant bit of each byte first.  The error-detection theorem lives on bits: any two
 inputs of the same length whose bits differ only inside 32 consecutive positions have
 different checksums.
 */
module Crc32 {
  import opened Words

  /** The ones of the reflected polynomial 0xEDB8_8320. */
  predicate InPolynomial(i: nat) {
    i == 5 || i == 8 || i == 9 || i == 15 || 19 <= i <= 21 || i == 23 || i == 24 || i == 26 || i == 27 || 29 <= i <= 31
  }

  function Polynomial(): (p: Word)
    ensures p[31]
  {
    seq(32, i requires 0 <= i < 32 => InPolynomial(i))
  }

  /** One bit of the register: shift right, fold the polynomial in when a one falls out. */
  function Step(x: Word): Word {
    if x[0] then Xor(ShiftRight(x), Polynomial()) else ShiftRight(x)
  }

  /** The inverse of `Step`: the top bit tells whether the polynomial was folded in. */
  function Unstep(y: Word): (x: Word)
    ensures x[0] == y[31]
    ensures forall i :: 1 <= i < 32 ==> x[i] == (y[i - 1] != (y[31] && Polynomial()[i - 1]))
  {
    [y[31]] + (if y[31] then Xor(y, Polynomial()) else y)[..31]
  }

  function Steps(x: Word, n: nat): Word
    decreases n, x
  {
    if n == 0 then x else Steps(Step(x), n - 1)
  }

  lemma {:induction false} StepsSnoc(x: Word, n: nat)
    ensures Steps(x, n + 1) == Step(Steps(x, n))
    decreases n
  {
    if n > 0 {
      StepsSnoc(Step(x), n - 1);
    }
  }

  function ByteWord(b: byte): (w: Word)
    ensures forall i :: 8 <= i < 32 ==> !w[i]
  {
    ByteBits(b) + Falses(24)
  }

  function Update(s: Word, b: byte): Word {
    Steps(Xor(s, ByteWord(b)), BYTE_BITS)
  }

  function Register(s: Word, data: seq<byte>): Word
    decreases data
  {
    if data == [] then s else Register(Update(s, data[0]), data[1..])
  }

  function Crc(data: seq<byte>): Word {
    Not(Register(Ones(), data))
  }

  /** The loop of the source: one pass over the bytes, eight register steps for each. */
  method Checksum(data: seq<byte>) returns (result: Word)
    ensures result == Crc(data)
  {
    var crc := Ones();
    for i := 0 to |data|
      invariant Register(Ones(), data) == Register(crc, data[i..])
    {
      RegisterFirst(crc, data, i);
      crc := FeedByte(crc, data[i]);
    }
    result := Not(crc);
  }

  /** The inner loop: fold a byte in, then eight register steps. */
  method FeedByte(register: Word, b: byte) returns (crc: Word)
    ensures crc == Update(register, b)
  {
    crc := Xor(register, ByteWord(b));
    ghost var start := crc;
    for k := 0 to BYTE_BITS
      invariant crc == Steps(start, k)
    {
      StepsSnoc(start, k);
      crc := if crc[0] then Xor(ShiftRight(crc), Polynomial()) else ShiftRight(crc);
    }
  }

  lemma RegisterFirst(s: Word, data: seq<byte>, i: nat)
    requires i < |data|
    ensures Register(s, data[i..]) == Register(Update(s, data[i]), data[i + 1..])
  {
    assert data[i..][1..] == data[i + 1..];
  }

  // ---- the step is a linear bijection ------------------------------------------------------

  lemma StepIsLinear(x: Word, y: Word)
    ensures Step(Xor(x, y)) == Xor(Step(x), Step(y))
  {
  }

  lemma UnstepUndoesStep(x: Word)
    ensures Unstep(Step(x)) == x
  {
  }

  lemma StepUndoesUnstep(y: Word)
    ensures Step(Unstep(y)) == y
  {
    var x := Unstep(y);
    forall i | 0 <= i < 32
      ensures Step(x)[i] == y[i]
    {
      assert i < 31 ==> ShiftRight(x)[i] == x[i + 1];
    }
  }

  /** Every register step is a bijection on 32-bit states, and it is linear over XOR. */
  lemma StepIsLinearBijection(x: Word, y: Word)
    ensures Unstep(Step(x)) == x && Step(Unstep(x)) == x
    ensures Step(x) == Step(y) ==> x == y
    ensures Step(Xor(x, y)) == Xor(Step(x), Step(y))
  {
    UnstepUndoesStep(x);
    UnstepUndoesStep(y);
    StepUndoesUnstep(x);
    StepIsLinear(x, y);
  }

  lemma {:induction false} StepsLinear(x: Word, y: Word, n: nat)
    ensures Steps(Xor(x, y), n) == Xor(Steps(x, n), Steps(y, n))
    decreases n
  {
    if n > 0 {
      StepIsLinear(x, y);
      StepsLinear(Step(x), Step(y), n - 1);
    }
  }

  // ---- the register is affine in the data --------------------------------------------------

  function XorBits(u: seq<bool>, v: seq<bool>): (w: seq<bool>)
    requires |u| == |v|
    ensures |w| == |u|
    ensures forall i :: 0 <= i < |w| ==> w[i] == (u[i] != v[i])
  {
    seq(|u|, i requires 0 <= i < |u| => u[i] != v[i])
  }

  function XorByte(a: byte, b: byte): byte {
    BitsByte(XorBits(ByteBits(a), ByteBits(b)))
  }

  function XorBytes(a: seq<byte>, b: seq<byte>): (c: seq<byte>)
    requires |a| == |b|
    ensures |c| == |a|
    ensures forall i :: 0 <= i < |a| ==> c[i] == XorByte(a[i], b[i])
  {
    seq(|a|, i requires 0 <= i < |a| => XorByte(a[i], b[i]))
  }

  lemma ByteWordXor(a: byte, b: byte)
    ensures ByteWord(XorByte(a, b)) == Xor(ByteWord(a), ByteWord(b))
  {
    ByteBitsInverse(XorBits(ByteBits(a), ByteBits(b)));
  }

  lemma UpdateIsLinear(s: Word, t: Word, a: byte, b: byte)
    ensures Update(Xor(s, t), XorByte(a, b)) == Xor(Update(s, a), Update(t, b))
  {
    ByteWordXor(a, b);
    XorSwap(s, t, ByteWord(a), ByteWord(b));
    StepsLinear(Xor(s, ByteWord(a)), Xor(t, ByteWord(b)), BYTE_BITS);
  }

  lemma XorBytesTail(a: seq<byte>, b: seq<byte>)
    requires |a| == |b| > 0
    ensures XorBytes(a, b)[0] == XorByte(a[0], b[0])
    ensures XorBytes(a, b)[1..] == XorBytes(a[1..], b[1..])
  {
  }

  lemma {:induction false} RegisterIsLinear(s: Word, t: Word, a: seq<byte>, b: seq<byte>)
    requires |a| == |b|
    ensures Register(Xor(s, t), XorBytes(a, b)) == Xor(Register(s, a), Register(t, b))
    decreases |a|
  {
    if |a| > 0 {
      UpdateIsLinear(s, t, a[0], b[0]);
      XorBytesTail(a, b);
      RegisterIsLinear(Update(s, a[0]), Update(t, b[0]), a[1..], b[1..]);
    }
  }

  /** The checksum of an XOR of three equally long inputs is the XOR of their checksums. */
  lemma CrcIsAffine(a: seq<byte>, b: seq<byte>, c: seq<byte>)
    requires |a| == |b| == |c|
    ensures Crc(XorBytes(XorBytes(a, b), c)) == Xor(Xor(Crc(a), Crc(b)), Crc(c))
  {
    RegisterIsLinear(Ones(), Ones(), a, b);
    RegisterIsLinear(Zero(), Ones(), XorBytes(a, b), c);
    XorUnit(Ones());
    XorNot(Register(Ones(), a), Register(Ones(), b), Register(Ones(), c));
  }

  // ---- the byte update is the table lookup of RFC 1952 -------------------------------------

  ghost function ShiftDown(w: Word, n: nat): Word
    decreases n, w
  {
    if n == 0 then w else ShiftDown(ShiftRight(w), n - 1)
  }

  lemma {:induction false} ShiftDownAt(w: Word, n: nat)
    requires n <= 32
    ensures ShiftDown(w, n) == w[n..] + Falses(n)
    decreases n
  {
    if n > 0 {
      ShiftDownAt(ShiftRight(w), n - 1);
    }
  }

  lemma StepSkipsZero(r: Word, w: Word)
    requires !w[0]
    ensures Step(Xor(r, w)) == Xor(Step(r), ShiftRight(w))
  {
    StepIsLinear(r, w);
  }

  lemma {:induction false} StepsSkip(r: Word, w: Word, n: nat)
    requires n <= 32 && forall i :: 0 <= i < n ==> !w[i]
    ensures Steps(Xor(r, w), n) == Xor(Steps(r, n), ShiftDown(w, n))
    decreases n
  {
    if n > 0 {
      StepSkipsZero(r, w);
      StepsSkip(Step(r), ShiftRight(w), n - 1);
    }
  }

  /** The low byte of a register on its own, and the register moved down by one byte. */
  function LowByte(w: Word): Word {
    w[..8] + Falses(24)
  }

  function DropByte(w: Word): Word {
    w[8..] + Falses(8)
  }

  function HighBytes(w: Word): (high: Word)
    ensures forall i :: 0 <= i < BYTE_BITS ==> !high[i]
  {
    Falses(8) + w[8..]
  }

  lemma SplitLowByte(w: Word)
    ensures w == Xor(LowByte(w), HighBytes(w))
    ensures ShiftDown(HighBytes(w), BYTE_BITS) == DropByte(w)
  {
    ShiftDownAt(HighBytes(w), BYTE_BITS);
  }

  lemma DropIgnoresByte(s: Word, b: byte)
    ensures DropByte(Xor(s, ByteWord(b))) == DropByte(s)
  {
    var x := Xor(s, ByteWord(b));
    assert forall i :: 8 <= i < 32 ==> x[i] == s[i];
    assert x[8..] == s[8..];
  }

  /** The bitwise update is the table lookup of the sample code in section 8 of RFC 1952. */
  lemma UpdateIsTableLookup(s: Word, b: byte)
    ensures Update(s, b) == Xor(Steps(LowByte(Xor(s, ByteWord(b))), BYTE_BITS), DropByte(s))
  {
    var x := Xor(s, ByteWord(b));
    SplitLowByte(x);
    StepsSkip(LowByte(x), HighBytes(x), BYTE_BITS);
    DropIgnoresByte(s, b);
  }

  // ---- the same register, one bit at a time ------------------------------------------------

  function Bit(b: bool): (w: Word)
    ensures w[0] == b && forall i :: 1 <= i < 32 ==> !w[i]
  {
    [b] + Falses(31)
  }

  /** The bits of a byte string in the order the register consumes them. */
  function Bits(data: seq<byte>): (bits: seq<bool>)
    ensures |bits| == 8 * |data|
  {
    if data == [] then [] else ByteBits(data[0]) + Bits(data[1..])
  }

  function BitRegister(s: Word, bits: seq<bool>): Word
    decreases bits
  {
    if bits == [] then s else BitRegister(Step(Xor(s, Bit(bits[0]))), bits[1..])
  }

  lemma {:induction false} BitRegisterAppend(s: Word, u: seq<bool>, v: seq<bool>)
    ensures BitRegister(s, u + v) == BitRegister(BitRegister(s, u), v)
    decreases |u|
  {
    if u == [] {
      assert u + v == v;
    } else {
      assert (u + v)[1..] == u[1..] + v;
      BitRegisterAppend(Step(Xor(s, Bit(u[0]))), u[1..], v);
    }
  }

  lemma StepPeelsBit(r: Word, w: Word)
    ensures Step(Xor(r, w)) == Xor(Step(Xor(r, Bit(w[0]))), ShiftRight(w))
  {
    var rest := Xor(w, Bit(w[0]));
    assert Xor(r, w) == Xor(Xor(r, Bit(w[0])), rest);
    StepIsLinear(Xor(r, Bit(w[0])), rest);
    assert Step(rest) == ShiftRight(w);
  }

  lemma {:induction false} StepsAreBits(r: Word, w: Word, n: nat)
    requires n <= 32
    ensures Steps(Xor(r, w), n) == Xor(BitRegister(r, w[..n]), ShiftDown(w, n))
    decreases n
  {
    if n > 0 {
      var s := Step(Xor(r, Bit(w[0])));
      StepPeelsBit(r, w);
      StepsAreBits(s, ShiftRight(w), n - 1);
      FirstBit(r, w, n);
      assert Steps(Xor(r, w), n) == Steps(Xor(s, ShiftRight(w)), n - 1);
    }
  }

  lemma FirstBit(r: Word, w: Word, n: nat)
    requires 0 < n <= 32
    ensures BitRegister(r, w[..n]) == BitRegister(Step(Xor(r, Bit(w[0]))), ShiftRight(w)[..n - 1])
  {
    assert w[..n][1..] == ShiftRight(w)[..n - 1];
  }

  lemma ByteShiftsOut(b: byte)
    ensures ByteWord(b)[..BYTE_BITS] == ByteBits(b)
    ensures ShiftDown(ByteWord(b), BYTE_BITS) == Zero()
  {
    ShiftDownAt(ByteWord(b), BYTE_BITS);
  }

  lemma UpdateIsEightBits(s: Word, b: byte)
    ensures Update(s, b) == BitRegister(s, ByteBits(b))
  {
    StepsAreBits(s, ByteWord(b), BYTE_BITS);
    ByteShiftsOut(b);
    XorUnit(BitRegister(s, ByteBits(b)));
  }

  lemma {:induction false} RegisterIsBitRegister(s: Word, data: seq<byte>)
    ensures Register(s, data) == BitRegister(s, Bits(data))
    decreases |data|
  {
    if data != [] {
      UpdateIsEightBits(s, data[0]);
      BitRegisterAppend(s, ByteBits(data[0]), Bits(data[1..]));
      RegisterIsBitRegister(Update(s, data[0]), data[1..]);
    }
  }

  // ---- error detection ---------------------------------------------------------------------

  lemma XorBitsTail(u: seq<bool>, v: seq<bool>)
    requires |u| == |v| > 0
    ensures XorBits(u, v)[0] == (u[0] != v[0])
    ensures XorBits(u, v)[1..] == XorBits(u[1..], v[1..])
  {
  }

  lemma BitXor(a: bool, b: bool)
    ensures Bit(a != b) == Xor(Bit(a), Bit(b))
  {
  }

  lemma {:induction false} BitRegisterIsLinear(s: Word, t: Word, u: seq<bool>, v: seq<bool>)
    requires |u| == |v|
    ensures BitRegister(Xor(s, t), XorBits(u, v)) == Xor(BitRegister(s, u), BitRegister(t, v))
    decreases |u|
  {
    if |u| > 0 {
      XorBitsTail(u, v);
      var x, y := Xor(s, Bit(u[0])), Xor(t, Bit(v[0]));
      BitXor(u[0], v[0]);
      XorSwap(s, t, Bit(u[0]), Bit(v[0]));
      StepIsLinear(x, y);
      BitRegisterIsLinear(Step(x), Step(y), u[1..], v[1..]);
    }
  }

  /** Feeding the same bits keeps different registers different. */
  lemma {:induction false} BitRegisterIsInjective(s: Word, t: Word, bits: seq<bool>)
    requires BitRegister(s, bits) == BitRegister(t, bits)
    ensures s == t
    decreases |bits|
  {
    if bits != [] {
      var x, y := Xor(s, Bit(bits[0])), Xor(t, Bit(bits[0]));
      BitRegisterIsInjective(Step(x), Step(y), bits[1..]);
      StepIsLinearBijection(x, y);
      XorCancel(s, Bit(bits[0]));
      XorCancel(t, Bit(bits[0]));
    }
  }

  /** A register with a one at position `|bits|` or above is not cleared by those bits. */
  lemma {:induction false} RegisterStaysAlive(x: Word, high: nat, bits: seq<bool>)
    requires |bits| <= high < 32 && x[high]
    ensures BitRegister(x, bits) != Zero()
    decreases |bits|
  {
    if bits == [] {
      assert x[high] != Zero()[high];
    } else {
      var y := Xor(x, Bit(bits[0]));
      if y[0] {
        assert Polynomial()[31];
        RegisterStaysAlive(Step(y), 31, bits[1..]);
      } else {
        RegisterStaysAlive(Step(y), high - 1, bits[1..]);
      }
    }
  }

  /** At most 32 difference bits, not all zero, never return the zero register to zero. */
  lemma {:induction false} BurstIsNotCancelled(w: seq<bool>)
    requires |w| <= 32
    requires exists i :: 0 <= i < |w| && w[i]
    ensures BitRegister(Zero(), w) != Zero()
    decreases |w|
  {
    if w[0] {
      var x := Step(Xor(Zero(), Bit(true)));
      assert Polynomial()[31] && x[31];
      RegisterStaysAlive(x, 31, w[1..]);
    } else {
      var i :| 0 <= i < |w| && w[i];
      assert w[1..][i - 1];
      assert Step(Xor(Zero(), Bit(false))) == Zero();
      BurstIsNotCancelled(w[1..]);
    }
  }

  /** `u` and `v` are equally long and agree outside the `width` positions from `at` on. */
  ghost predicate DifferOnlyWithin<T>(u: seq<T>, v: seq<T>, at: nat, width: nat) {
    && |u| == |v|
    && forall i :: 0 <= i < |u| && !(at <= i < at + width) ==> u[i] == v[i]
  }

  lemma DifferentBitsXor(u: seq<bool>, v: seq<bool>)
    requires |u| == |v| && u != v
    ensures exists i :: 0 <= i < |u| && XorBits(u, v)[i]
  {
    var i :| 0 <= i < |u| && u[i] != v[i];
    assert XorBits(u, v)[i];
  }

  lemma ShortBurstChangesBitRegister(r: Word, u: seq<bool>, v: seq<bool>)
    requires |u| == |v| <= 32 && u != v
    ensures BitRegister(r, u) != BitRegister(r, v)
  {
    BitRegisterIsLinear(r, r, u, v);
    XorUnit(r);
    XorUnit(BitRegister(r, u));
    DifferentBitsXor(u, v);
    BurstIsNotCancelled(XorBits(u, v));
  }

  lemma SplitThree(u: seq<bool>, i: nat, j: nat)
    requires i <= j <= |u|
    ensures u == u[..i] + (u[i..j] + u[j..])
  {
  }

  /** Both inputs split into a shared start, the window, and a shared end. */
  lemma WindowSplit(u: seq<bool>, v: seq<bool>, at: nat)
    returns (start: seq<bool>, x: seq<bool>, y: seq<bool>, end: seq<bool>)
    requires DifferOnlyWithin(u, v, at, 32) && at <= |u| && u != v
    ensures u == start + (x + end) && v == start + (y + end)
    ensures |x| == |y| <= 32 && x != y
  {
    var stop := if at + 32 <= |u| then at + 32 else |u|;
    start, x, y, end := u[..at], u[at..stop], v[at..stop], u[stop..];
    SplitThree(u, at, stop);
    SplitThree(v, at, stop);
    assert v[..at] == start && v[stop..] == end;
  }

  lemma BurstChangesBitRegister(s: Word, u: seq<bool>, v: seq<bool>, at: nat)
    requires DifferOnlyWithin(u, v, at, 32) && u != v
    ensures BitRegister(s, u) != BitRegister(s, v)
  {
    if |u| < at {
      assert false;
    }
    var start, x, y, end := WindowSplit(u, v, at);
    BitRegisterAppend(s, start, x + end);
    BitRegisterAppend(s, start, y + end);
    var r := BitRegister(s, start);
    BitRegisterAppend(r, x, end);
    BitRegisterAppend(r, y, end);
    ShortBurstChangesBitRegister(r, x, y);
    if BitRegister(s, u) == BitRegister(s, v) {
      BitRegisterIsInjective(BitRegister(r, x), BitRegister(r, y), end);
    }
  }

  lemma {:induction false} BitsAreInjective(a: seq<byte>, b: seq<byte>)
    requires Bits(a) == Bits(b)
    ensures a == b
    decreases |a|
  {
    assert 8 * |a| == 8 * |b|;
    if a != [] {
      assert Bits(a)[..8] == ByteBits(a[0]) && Bits(b)[..8] == ByteBits(b[0]);
      assert Bits(a)[8..] == Bits(a[1..]) && Bits(b)[8..] == Bits(b[1..]);
      BitsByteInverse(a[0]);
      BitsByteInverse(b[0]);
      BitsAreInjective(a[1..], b[1..]);
    }
  }

  /**
   Two different inputs whose bits differ only inside 32 consecutive positions, in the order
   the register reads them, have different checksums.
   */
  lemma BurstChangesCrc(a: seq<byte>, b: seq<byte>, at: nat)
    requires DifferOnlyWithin(Bits(a), Bits(b), at, 32) && a != b
    ensures Crc(a) != Crc(b)
  {
    if Bits(a) == Bits(b) {
      BitsAreInjective(a, b);
    }
    BurstChangesBitRegister(Ones(), Bits(a), Bits(b), at);
    RegisterIsBitRegister(Ones(), a);
    RegisterIsBitRegister(Ones(), b);
    if Crc(a) == Crc(b) {
      NotInjective(Register(Ones(), a), Register(Ones(), b));
    }
  }

  lemma BitsSplit(data: seq<byte>, i: nat)
    requires data != [] && i < |Bits(data)|
    ensures Bits(data)[i] == if i < 8 then ByteBits(data[0])[i] else Bits(data[1..])[i - 8]
  {
  }

  lemma {:induction false} BitsAt(data: seq<byte>, q: nat, r: nat)
    requires q < |data| && r < 8
    ensures 8 * q + r < |Bits(data)| && Bits(data)[8 * q + r] == ByteBits(data[q])[r]
    decreases q
  {
    var i := 8 * q + r;
    assert i < 8 * |data|;
    BitsSplit(data, i);
    if q > 0 {
      BitsAt(data[1..], q - 1, r);
      assert data[1..][q - 1] == data[q] && i - 8 == 8 * (q - 1) + r;
    }
  }

  /** In particular, damage confined to four consecutive bytes always shows. */
  lemma FourByteDamageChangesCrc(a: seq<byte>, b: seq<byte>, at: nat)
    requires DifferOnlyWithin(a, b, at, 4) && a != b
    ensures Crc(a) != Crc(b)
  {
    forall i | 0 <= i < |Bits(a)| && !(8 * at <= i < 8 * at + 32)
      ensures Bits(a)[i] == Bits(b)[i]
    {
      var q, r := i / 8, i % 8;
      BitsAt(a, q, r);
      BitsAt(b, q, r);
    }
    BurstChangesCrc(a, b, 8 * at);
  }
}
