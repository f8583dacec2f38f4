/**
 What the checksum is: the remainder of a polynomial division over GF(2), and, read as numbers, the
 32-bit arithmetic of the source.

 A polynomial is the list of its coefficients, highest first.  Bit `i` of a register is the
 coefficient of x^(31 - i), so a register is such a list as it stands.
 */
module CrcDivision {
  import opened Words
  import opened Crc32

  // ---- division --------------------------------------------------------------------------------

  /** The exponents of the divisor, the generator polynomial of IEEE 802.3. */
  const EXPONENTS: set<nat> := {32, 26, 23, 22, 16, 12, 11, 10, 8, 7, 5, 4, 2, 1, 0}

  function Divisor(): (d: seq<bool>)
    ensures |d| == 33 && forall i :: 0 <= i < 33 ==> (d[i] <==> 32 - i in EXPONENTS)
  {
    seq(33, i requires 0 <= i < 33 => 32 - i in EXPONENTS)
  }

  /** One step of long division: subtract the divisor if the leading coefficient is one, and drop that. */
  function Reduce(p: seq<bool>): (r: seq<bool>)
    requires |p| > 32
    ensures |r| == |p| - 1
    ensures forall i :: 0 <= i < |r| ==> r[i] == (p[i + 1] != (p[0] && i < 32 && Divisor()[i + 1]))
  {
    seq(|p| - 1, i requires 0 <= i < |p| - 1 => p[i + 1] != (p[0] && i < 32 && Divisor()[i + 1]))
  }

  function Remainder(p: seq<bool>): (r: seq<bool>)
    requires |p| >= 32
    ensures |r| == 32
    decreases |p|
  {
    if |p| == 32 then p else Remainder(Reduce(p))
  }

  /** A polynomial times the divisor. */
  function Times(q: seq<bool>): (p: seq<bool>)
    ensures |p| == |q| + 32
  {
    if q == [] then Falses(32)
    else
      var rest := Times(q[1..]);
      seq(|q| + 32, i requires 0 <= i < |q| + 32 => (q[0] && i <= 32 && Divisor()[i]) != (i > 0 && rest[i - 1]))
  }

  lemma TimesAt(first: bool, rest: seq<bool>, i: nat)
    requires i < |rest| + 33
    ensures Times([first] + rest)[i] == ((first && i <= 32 && Divisor()[i]) != (i > 0 && Times(rest)[i - 1]))
  {
    assert ([first] + rest)[1..] == rest;
  }

  /** Dividend, quotient and remainder: p = q * d + r, where r has no coefficient of x^32 or above. */
  ghost predicate IsDivided(p: seq<bool>, q: seq<bool>, r: seq<bool>) {
    |r| == 32 && |p| == |q| + 32 && forall i :: 0 <= i < |p| ==> Agrees(p, q, r, i)
  }

  /** One coefficient of p = q * d + r. */
  ghost predicate Agrees(p: seq<bool>, q: seq<bool>, r: seq<bool>, i: nat)
    requires |r| == 32 && |p| == |q| + 32 && i < |p|
  {
    p[i] == (Times(q)[i] != (i >= |q| && r[i - |q|]))
  }

  lemma DivisionStep(p: seq<bool>, rest: seq<bool>, r: seq<bool>)
    requires |p| > 32 && IsDivided(Reduce(p), rest, r)
    ensures IsDivided(p, [p[0]] + rest, r)
  {
    forall i | 0 <= i < |p|
      ensures Agrees(p, [p[0]] + rest, r, i)
    {
      assert i > 0 ==> Agrees(Reduce(p), rest, r, i - 1);
      DivisionAt(p, rest, r, i);
    }
  }

  lemma DivisionAt(p: seq<bool>, rest: seq<bool>, r: seq<bool>, i: nat)
    requires |p| > 32 && |r| == 32 && |rest| == |p| - 33 && i < |p|
    requires i > 0 ==> Agrees(Reduce(p), rest, r, i - 1)
    ensures Agrees(p, [p[0]] + rest, r, i)
  {
    TimesAt(p[0], rest, i);
    if i == 0 {
      assert Divisor()[0];
    } else {
      ReduceAt(p, i);
    }
  }

  lemma ReduceAt(p: seq<bool>, i: nat)
    requires 0 < i < |p| && |p| > 32
    ensures p[i] == (Reduce(p)[i - 1] != (p[0] && i <= 32 && Divisor()[i]))
  {
  }

  /** Long division divides. */
  lemma {:induction false} Division(p: seq<bool>) returns (q: seq<bool>)
    requires |p| >= 32
    ensures IsDivided(p, q, Remainder(p))
    decreases |p|
  {
    if |p| == 32 {
      q := [];
    } else {
      var rest := Division(Reduce(p));
      q := [p[0]] + rest;
      DivisionStep(p, rest, Remainder(p));
    }
  }

  /** The bits to come, 32 zeros behind them, and the register added to the first 32. */
  function Loaded(r: Word, bits: seq<bool>): (p: seq<bool>)
    ensures |p| == |bits| + 32
    ensures forall i :: 0 <= i < |p| ==> p[i] == ((i < |bits| && bits[i]) != (i < 32 && r[i]))
  {
    seq(|bits| + 32, i requires 0 <= i < |bits| + 32 => (i < |bits| && bits[i]) != (i < 32 && r[i]))
  }

  /** The reflected polynomial is the divisor without its leading coefficient. */
  lemma PolynomialIsDivisor(i: nat)
    requires i < 32
    ensures Polynomial()[i] == Divisor()[i + 1]
  {
  }

  lemma StepIsReduce(r: Word, bits: seq<bool>)
    requires bits != []
    ensures Reduce(Loaded(r, bits)) == Loaded(Step(Xor(r, Bit(bits[0]))), bits[1..])
  {
    var x := Xor(r, Bit(bits[0]));
    var p := Loaded(r, bits);
    assert p[0] == x[0];
    forall i | 0 <= i < |p| - 1
      ensures Reduce(p)[i] == Loaded(Step(x), bits[1..])[i]
    {
      StepAt(x, i);
      if i < 31 {
        assert x[i + 1] == r[i + 1];
      }
    }
  }

  lemma StepAt(x: Word, i: nat)
    ensures i < 32 ==> Step(x)[i] == ((i < 31 && x[i + 1]) != (x[0] && Divisor()[i + 1]))
  {
    if i < 32 {
      PolynomialIsDivisor(i);
    }
  }

  /** Feeding bits to a register divides. */
  lemma {:induction false} BitRegisterIsRemainder(r: Word, bits: seq<bool>)
    ensures BitRegister(r, bits) == Remainder(Loaded(r, bits))
    decreases |bits|
  {
    if bits == [] {
      assert Loaded(r, bits) == r;
    } else {
      StepIsReduce(r, bits);
      BitRegisterIsRemainder(Step(Xor(r, Bit(bits[0]))), bits[1..]);
    }
  }

  /** The bits of the data as a polynomial times x^32, with the first 32 coefficients of that inverted. */
  function Dividend(data: seq<byte>): (p: seq<bool>)
    ensures |p| == 8 * |data| + 32
    ensures forall i :: 0 <= i < |p| ==> p[i] == ((i < 8 * |data| && Bits(data)[i]) != (i < 32))
  {
    seq(8 * |data| + 32, i requires 0 <= i < 8 * |data| + 32 => (i < 8 * |data| && Bits(data)[i]) != (i < 32))
  }

  /** The checksum is the inverted remainder of the data. */
  lemma CrcIsRemainder(data: seq<byte>)
    ensures Not(Crc(data)) == Remainder(Dividend(data))
  {
    RegisterIsBitRegister(Ones(), data);
    BitRegisterIsRemainder(Ones(), Bits(data));
    LoadedOnes(data);
    NotNot(Register(Ones(), data));
  }

  lemma LoadedOnes(data: seq<byte>)
    ensures Loaded(Ones(), Bits(data)) == Dividend(data)
  {
  }

  lemma NotNot(w: Word)
    ensures Not(Not(w)) == w
  {
  }

  // ---- machine words -----------------------------------------------------------------------------

  /** A machine word with the bits of a register. */
  predicate Holds(v: bv32, w: Word) {
    && w[0] == (v & 0x1 != 0) && w[1] == (v & 0x2 != 0) && w[2] == (v & 0x4 != 0)
    && w[3] == (v & 0x8 != 0) && w[4] == (v & 0x10 != 0) && w[5] == (v & 0x20 != 0)
    && w[6] == (v & 0x40 != 0) && w[7] == (v & 0x80 != 0) && w[8] == (v & 0x100 != 0)
    && w[9] == (v & 0x200 != 0) && w[10] == (v & 0x400 != 0) && w[11] == (v & 0x800 != 0)
    && w[12] == (v & 0x1000 != 0) && w[13] == (v & 0x2000 != 0) && w[14] == (v & 0x4000 != 0)
    && w[15] == (v & 0x8000 != 0) && w[16] == (v & 0x10000 != 0) && w[17] == (v & 0x20000 != 0)
    && w[18] == (v & 0x40000 != 0) && w[19] == (v & 0x80000 != 0) && w[20] == (v & 0x100000 != 0)
    && w[21] == (v & 0x200000 != 0) && w[22] == (v & 0x400000 != 0) && w[23] == (v & 0x800000 != 0)
    && w[24] == (v & 0x1000000 != 0) && w[25] == (v & 0x2000000 != 0) && w[26] == (v & 0x4000000 != 0)
    && w[27] == (v & 0x8000000 != 0) && w[28] == (v & 0x10000000 != 0) && w[29] == (v & 0x20000000 != 0)
    && w[30] == (v & 0x40000000 != 0) && w[31] == (v & 0x80000000 != 0)
  }

  /** The loop body of the source on 32-bit words. */
  function StepWord(v: bv32): bv32 {
    if v & 1 == 1 then (v >> 1) ^ 0xEDB8_8320 else v >> 1
  }

  function UpdateWord(v: bv32, b: bv8): bv32 {
    var x := v ^ (b as bv32);
    StepWord(StepWord(StepWord(StepWord(StepWord(StepWord(StepWord(StepWord(x))))))))
  }

  function RegisterWord(v: bv32, data: seq<bv8>): bv32
    decreases |data|
  {
    if data == [] then v else RegisterWord(UpdateWord(v, data[0]), data[1..])
  }

  /** The checksum of the source. */
  function Checksum32(data: seq<bv8>): bv32 {
    RegisterWord(0xFFFF_FFFF, data) ^ 0xFFFF_FFFF
  }

  lemma XorBit(a: bv32, b: bv32, m: bv32)
    requires m != 0 && m & (m - 1) == 0
    ensures ((a ^ b) & m != 0) == ((a & m != 0) != (b & m != 0))
  {
    assert (a ^ b) & m == (a & m) ^ (b & m);
    assert a & m == 0 || a & m == m;
    assert b & m == 0 || b & m == m;
  }

  lemma XorByte(a: bv32, b: bv32, m: bv32)
    requires m == 0x1 || m == 0x100 || m == 0x1_0000 || m == 0x100_0000
    ensures ((a ^ b) & m != 0) == ((a & m != 0) != (b & m != 0))
    ensures ((a ^ b) & (m << 1) != 0) == ((a & (m << 1) != 0) != (b & (m << 1) != 0))
    ensures ((a ^ b) & (m << 2) != 0) == ((a & (m << 2) != 0) != (b & (m << 2) != 0))
    ensures ((a ^ b) & (m << 3) != 0) == ((a & (m << 3) != 0) != (b & (m << 3) != 0))
    ensures ((a ^ b) & (m << 4) != 0) == ((a & (m << 4) != 0) != (b & (m << 4) != 0))
    ensures ((a ^ b) & (m << 5) != 0) == ((a & (m << 5) != 0) != (b & (m << 5) != 0))
    ensures ((a ^ b) & (m << 6) != 0) == ((a & (m << 6) != 0) != (b & (m << 6) != 0))
    ensures ((a ^ b) & (m << 7) != 0) == ((a & (m << 7) != 0) != (b & (m << 7) != 0))
  {
    XorBit(a, b, m);
    XorBit(a, b, m << 1);
    XorBit(a, b, m << 2);
    XorBit(a, b, m << 3);
    XorBit(a, b, m << 4);
    XorBit(a, b, m << 5);
    XorBit(a, b, m << 6);
    XorBit(a, b, m << 7);
  }

  lemma HoldsXor(v: bv32, w: Word, v': bv32, w': Word)
    requires Holds(v, w) && Holds(v', w')
    ensures Holds(v ^ v', Xor(w, w'))
  {
    XorByte(v, v', 0x1);
    XorByte(v, v', 0x100);
    XorByte(v, v', 0x1_0000);
    XorByte(v, v', 0x100_0000);
  }

  lemma HoldsShift(v: bv32, w: Word)
    requires Holds(v, w)
    ensures Holds(v >> 1, ShiftRight(w))
  {
  }

  lemma OnesHold()
    ensures Holds(0xFFFF_FFFF, Ones())
  {
  }

  lemma PolynomialHolds()
    ensures Holds(0xEDB8_8320, Polynomial())
  {
  }

  lemma HoldsStep(v: bv32, w: Word)
    requires Holds(v, w)
    ensures Holds(StepWord(v), Step(w))
  {
    HoldsShift(v, w);
    PolynomialHolds();
    HoldsXor(v >> 1, ShiftRight(w), 0xEDB8_8320, Polynomial());
    LowBitOf(v);
  }

  lemma LowBitOf(v: bv32)
    ensures v & 1 == 1 <==> v & 1 != 0
  {
  }

  lemma HoldsSteps(v: bv32, w: Word)
    requires Holds(v, w)
    ensures Holds(StepWord(StepWord(StepWord(StepWord(v)))), Steps(w, 4))
  {
    HoldsStep(v, w);
    HoldsStep(StepWord(v), Step(w));
    HoldsStep(StepWord(StepWord(v)), Step(Step(w)));
    HoldsStep(StepWord(StepWord(StepWord(v))), Step(Step(Step(w))));
    FourSteps(w);
  }

  lemma FourSteps(w: Word)
    ensures Steps(w, 4) == Step(Step(Step(Step(w))))
  {
    assert Steps(w, 4) == Steps(Step(Step(w)), 2);
    assert Steps(Step(Step(w)), 2) == Steps(Step(Step(Step(Step(w)))), 0);
  }

  lemma {:induction false} StepsAppend(w: Word, m: nat, n: nat)
    ensures Steps(w, m + n) == Steps(Steps(w, m), n)
    decreases m
  {
    if m > 0 {
      StepsAppend(Step(w), m - 1, n);
    }
  }

  lemma HoldsUpdate(v: bv32, w: Word, b: bv8)
    requires Holds(v, w)
    ensures Holds(UpdateWord(v, b), Update(w, b as int))
  {
    var x, y := v ^ (b as bv32), Xor(w, ByteWord(b as int));
    ByteHolds(b);
    HoldsXor(v, w, b as bv32, ByteWord(b as int));
    HoldsSteps(x, y);
    HoldsSteps(StepWord(StepWord(StepWord(StepWord(x)))), Steps(y, 4));
    StepsAppend(y, 4, 4);
  }

  /** The bytes of the model. */
  function Numbers(data: seq<bv8>): (bytes: seq<byte>)
    ensures |bytes| == |data| && forall i :: 0 <= i < |data| ==> bytes[i] == data[i] as int
  {
    seq(|data|, i requires 0 <= i < |data| => data[i] as int)
  }

  /** The register is what the source computes in 32-bit words. */
  lemma {:induction false} RegisterHolds(v: bv32, w: Word, data: seq<bv8>)
    requires Holds(v, w)
    ensures Holds(RegisterWord(v, data), Register(w, Numbers(data)))
    decreases |data|
  {
    if data != [] {
      HoldsUpdate(v, w, data[0]);
      assert Numbers(data)[1..] == Numbers(data[1..]);
      RegisterHolds(UpdateWord(v, data[0]), Update(w, data[0] as int), data[1..]);
    }
  }

  /** The model computes the bits of the source's machine words. */
  lemma CrcHolds(data: seq<bv8>)
    ensures Holds(Checksum32(data), Crc(Numbers(data)))
  {
    var w := Register(Ones(), Numbers(data));
    OnesHold();
    RegisterHolds(0xFFFF_FFFF, Ones(), data);
    NotHolds(RegisterWord(0xFFFF_FFFF, data), w);
  }

  lemma NotHolds(v: bv32, w: Word)
    requires Holds(v, w)
    ensures Holds(v ^ 0xFFFF_FFFF, Not(w))
  {
    OnesHold();
    HoldsXor(v, w, 0xFFFF_FFFF, Ones());
    XorOnes(w);
  }

  lemma XorOnes(w: Word)
    ensures Xor(w, Ones()) == Not(w)
  {
  }

  // ---- bytes -----------------------------------------------------------------------------------------

  function ByteBitAt(b: bv8, i: nat): bool
    decreases i
  {
    if i == 0 then b & 1 == 1 else ByteBitAt(b >> 1, i - 1)
  }

  lemma HalfByte(b: bv8)
    ensures (b >> 1) as int == b as int / 2
  {
  }

  lemma LowBit(b: bv8)
    ensures (b & 1 == 1) == (b as int % 2 == 1)
  {
  }

  lemma {:induction false} ByteSpells(b: bv8, k: nat, i: nat)
    requires i < k
    ensures NatBits(b as int, k)[i] == ByteBitAt(b, i)
    decreases k
  {
    HalfByte(b);
    LowBit(b);
    if i > 0 {
      ByteSpells(b >> 1, k - 1, i - 1);
    }
  }

  lemma ByteMasks(b: bv8)
    ensures ByteBitAt(b, 0) == (b & 0x1 != 0) && ByteBitAt(b, 1) == (b & 0x2 != 0)
    ensures ByteBitAt(b, 2) == (b & 0x4 != 0) && ByteBitAt(b, 3) == (b & 0x8 != 0)
    ensures ByteBitAt(b, 4) == (b & 0x10 != 0) && ByteBitAt(b, 5) == (b & 0x20 != 0)
    ensures ByteBitAt(b, 6) == (b & 0x40 != 0) && ByteBitAt(b, 7) == (b & 0x80 != 0)
  {
    assert ByteBitAt(b, 3) == ByteBitAt(b >> 1 >> 1 >> 1, 0);
    assert ByteBitAt(b, 4) == ByteBitAt(b >> 1 >> 1, 2) == ByteBitAt(b >> 1 >> 1 >> 1 >> 1, 0);
    assert ByteBitAt(b, 5) == ByteBitAt(b >> 1 >> 1, 3) == ByteBitAt(b >> 1 >> 1 >> 1 >> 1, 1);
    assert ByteBitAt(b, 6) == ByteBitAt(b >> 1 >> 1, 4) == ByteBitAt(b >> 1 >> 1 >> 1 >> 1, 2);
    assert ByteBitAt(b, 7) == ByteBitAt(b >> 1 >> 1, 5) == ByteBitAt(b >> 1 >> 1 >> 1 >> 1, 3);
    assert ByteBitAt(b >> 1 >> 1 >> 1 >> 1, 3) == ByteBitAt(b >> 1 >> 1 >> 1 >> 1 >> 1 >> 1, 1);
  }

  lemma Widened(b: bv8)
    ensures (b as bv32) & 0xFFFF_FF00 == 0
    ensures ((b as bv32) & 0x1 != 0) == (b & 0x1 != 0) && ((b as bv32) & 0x2 != 0) == (b & 0x2 != 0)
    ensures ((b as bv32) & 0x4 != 0) == (b & 0x4 != 0) && ((b as bv32) & 0x8 != 0) == (b & 0x8 != 0)
    ensures ((b as bv32) & 0x10 != 0) == (b & 0x10 != 0) && ((b as bv32) & 0x20 != 0) == (b & 0x20 != 0)
    ensures ((b as bv32) & 0x40 != 0) == (b & 0x40 != 0) && ((b as bv32) & 0x80 != 0) == (b & 0x80 != 0)
  {
  }

  lemma HighMasks(v: bv32)
    requires v & 0xFFFF_FF00 == 0
    ensures v & 0x100 == 0 && v & 0x200 == 0 && v & 0x400 == 0 && v & 0x800 == 0
    ensures v & 0x1000 == 0 && v & 0x2000 == 0 && v & 0x4000 == 0 && v & 0x8000 == 0
    ensures v & 0x10000 == 0 && v & 0x20000 == 0 && v & 0x40000 == 0 && v & 0x80000 == 0
    ensures v & 0x100000 == 0 && v & 0x200000 == 0 && v & 0x400000 == 0 && v & 0x800000 == 0
    ensures v & 0x1000000 == 0 && v & 0x2000000 == 0 && v & 0x4000000 == 0 && v & 0x8000000 == 0
    ensures v & 0x10000000 == 0 && v & 0x20000000 == 0 && v & 0x40000000 == 0 && v & 0x80000000 == 0
  {
  }

  lemma HoldsLow(v: bv32, w: Word)
    requires v & 0xFFFF_FF00 == 0 && forall i :: 8 <= i < 32 ==> !w[i]
    requires w[0] == (v & 0x1 != 0) && w[1] == (v & 0x2 != 0) && w[2] == (v & 0x4 != 0) && w[3] == (v & 0x8 != 0)
    requires w[4] == (v & 0x10 != 0) && w[5] == (v & 0x20 != 0) && w[6] == (v & 0x40 != 0) && w[7] == (v & 0x80 != 0)
    ensures Holds(v, w)
  {
    HighMasks(v);
  }

  lemma ByteHolds(b: bv8)
    ensures Holds(b as bv32, ByteWord(b as int))
  {
    Widened(b);
    ByteMasks(b);
    ByteBitsAre(b);
    HoldsLow(b as bv32, ByteWord(b as int));
  }

  lemma ByteBitsAre(b: bv8)
    ensures forall i :: 0 <= i < 8 ==> ByteWord(b as int)[i] == ByteBitAt(b, i)
  {
    var w := ByteWord(b as int);
    forall i | 0 <= i < 8
      ensures w[i] == ByteBitAt(b, i)
    {
      ByteSpells(b, 8, i);
    }
  }

  // ---- the check value -------------------------------------------------------------------------------

  /** The bytes of "123456789". */
  const NINE_DIGITS: seq<bv8> := [0x31, 0x32, 0x33] + ([0x34, 0x35, 0x36] + [0x37, 0x38, 0x39])

  lemma RegisterWordFirst(v: bv32, b: bv8, rest: seq<bv8>)
    ensures RegisterWord(v, [b] + rest) == RegisterWord(UpdateWord(v, b), rest)
  {
    assert ([b] + rest)[1..] == rest;
  }

  lemma FirstUpdates()
    ensures UpdateWord(UpdateWord(UpdateWord(0xFFFF_FFFF, 0x31), 0x32), 0x33) == 0x77B7_9C2D
  {
    assert UpdateWord(0xFFFF_FFFF, 0x31) == 0x7C23_1048;
    assert UpdateWord(0x7C23_1048, 0x32) == 0xB0AC_BB32;
    assert UpdateWord(0xB0AC_BB32, 0x33) == 0x77B7_9C2D;
  }

  lemma MiddleUpdates()
    ensures UpdateWord(UpdateWord(UpdateWord(0x77B7_9C2D, 0x34), 0x35), 0x36) == 0xF68D_2C9E
  {
    assert UpdateWord(0x77B7_9C2D, 0x34) == 0x641C_1F5C;
    assert UpdateWord(0x641C_1F5C, 0x35) == 0x340A_C5E3;
    assert UpdateWord(0x340A_C5E3, 0x36) == 0xF68D_2C9E;
  }

  lemma LastUpdates()
    ensures UpdateWord(UpdateWord(UpdateWord(0xF68D_2C9E, 0x37), 0x38), 0x39) == 0x340B_C6D9
  {
    assert UpdateWord(0xF68D_2C9E, 0x37) == 0xAFFC_9660;
    assert UpdateWord(0xAFFC_9660, 0x38) == 0x651F_2550;
    assert UpdateWord(0x651F_2550, 0x39) == 0x340B_C6D9;
  }

  lemma ThreeMore(v: bv32, a: bv8, b: bv8, c: bv8, rest: seq<bv8>)
    ensures RegisterWord(v, [a, b, c] + rest) == RegisterWord(UpdateWord(UpdateWord(UpdateWord(v, a), b), c), rest)
  {
    RegisterWordFirst(v, a, [b, c] + rest);
    RegisterWordFirst(UpdateWord(v, a), b, [c] + rest);
    RegisterWordFirst(UpdateWord(UpdateWord(v, a), b), c, rest);
    assert [a, b, c] + rest == [a] + ([b, c] + rest) && [b, c] + rest == [b] + ([c] + rest);
  }

  lemma LastDigits()
    ensures RegisterWord(0xF68D_2C9E, [0x37, 0x38, 0x39]) == 0x340B_C6D9
  {
    LastUpdates();
    ThreeMore(0xF68D_2C9E, 0x37, 0x38, 0x39, []);
    assert [0x37, 0x38, 0x39] + [] == [0x37, 0x38, 0x39];
  }

  lemma NineUpdates()
    ensures RegisterWord(0xFFFF_FFFF, [0x31, 0x32, 0x33] + ([0x34, 0x35, 0x36] + [0x37, 0x38, 0x39])) == 0x340B_C6D9
  {
    FirstUpdates();
    ThreeMore(0xFFFF_FFFF, 0x31, 0x32, 0x33, [0x34, 0x35, 0x36] + [0x37, 0x38, 0x39]);
    MiddleUpdates();
    ThreeMore(0x77B7_9C2D, 0x34, 0x35, 0x36, [0x37, 0x38, 0x39]);
    LastDigits();
  }

  /** The checksum of the nine digits, as a machine word. */
  lemma CheckValue()
    ensures Checksum32(NINE_DIGITS) == 0xCBF4_3926
    ensures Holds(0xCBF4_3926, Crc(Numbers(NINE_DIGITS)))
  {
    NineUpdates();
    assert 0x340B_C6D9 as bv32 ^ 0xFFFF_FFFF == 0xCBF4_3926;
    CrcHolds(NINE_DIGITS);
  }
}
