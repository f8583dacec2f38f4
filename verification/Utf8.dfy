/**
 UTF-8 (RFC 3629): encoding of strings, and the lossy decoding of Rust's standard library,
 which replaces every ill-formed part by U+FFFD and never fails.
 */
module Utf8 {
  import opened Words

  const REPLACEMENT: char := '\U{FFFD}'

  function EncodeChar(c: char): (b: seq<byte>)
    ensures 1 <= |b| <= 4
  {
    var n := c as int;
    if n < 0x80 then [n]
    else if n < 0x800 then [0xC0 + n / 64, 0x80 + n % 64]
    else if n < 0x1_0000 then [0xE0 + n / 4096, 0x80 + n / 64 % 64, 0x80 + n % 64]
    else [0xF0 + n / 262144, 0x80 + n / 4096 % 64, 0x80 + n / 64 % 64, 0x80 + n % 64]
  }

  lemma HighBytes(c: char)
    requires c as int >= 0x80
    ensures forall i :: 0 <= i < |EncodeChar(c)| ==> EncodeChar(c)[i] >= 0x80
  {
  }

  function Encode(s: string): (b: seq<byte>) {
    if s == [] then [] else EncodeChar(s[0]) + Encode(s[1..])
  }

  predicate Continues(b: seq<byte>, i: nat) {
    i < |b| && 0x80 <= b[i] < 0xC0
  }

  /** The second byte of a three-byte form: no overlong forms, no surrogates. */
  predicate SecondOfThree(b: seq<byte>)
    requires b != []
  {
    && Continues(b, 1)
    && (b[0] == 0xE0 ==> 0xA0 <= b[1])
    && (b[0] == 0xED ==> b[1] < 0xA0)
  }

  /** The second byte of a four-byte form: no overlong forms, nothing above U+10FFFF. */
  predicate SecondOfFour(b: seq<byte>)
    requires b != []
  {
    && Continues(b, 1)
    && (b[0] == 0xF0 ==> 0x90 <= b[1])
    && (b[0] == 0xF4 ==> b[1] < 0x90)
  }

  /** The code points of two-, three- and four-byte forms. */
  function Two(a: int, b: int): int {
    64 * (a - 0xC0) + (b - 0x80)
  }

  function Three(a: int, b: int, c: int): int {
    4096 * (a - 0xE0) + 64 * (b - 0x80) + (c - 0x80)
  }

  function Four(a: int, b: int, c: int, d: int): int {
    262144 * (a - 0xF0) + 4096 * (b - 0x80) + 64 * (c - 0x80) + (d - 0x80)
  }

  /** The first character of a byte string, and how many bytes it takes. */
  function Next(b: seq<byte>): (r: (char, nat))
    requires b != []
    ensures 1 <= r.1 <= |b|
  {
    if b[0] < 0x80 then (b[0] as char, 1)
    else if 0xC2 <= b[0] < 0xE0 then
      if Continues(b, 1) then (Two(b[0], b[1]) as char, 2) else (REPLACEMENT, 1)
    else if 0xE0 <= b[0] < 0xF0 then
      if !SecondOfThree(b) then (REPLACEMENT, 1)
      else if !Continues(b, 2) then (REPLACEMENT, 2)
      else (Three(b[0], b[1], b[2]) as char, 3)
    else if 0xF0 <= b[0] < 0xF5 then
      if !SecondOfFour(b) then (REPLACEMENT, 1)
      else if !Continues(b, 2) then (REPLACEMENT, 2)
      else if !Continues(b, 3) then (REPLACEMENT, 3)
      else (Four(b[0], b[1], b[2], b[3]) as char, 4)
    else (REPLACEMENT, 1)
  }

  function Lossy(b: seq<byte>): string {
    if b == [] then [] else
    var (c, n) := Next(b);
    [c] + Lossy(b[n..])
  }

  lemma NextOfTwo(n: int, rest: seq<byte>)
    requires 0x80 <= n < 0x800
    ensures Next([0xC0 + n / 64, 0x80 + n % 64] + rest) == (n as char, 2)
  {
    var b := [0xC0 + n / 64, 0x80 + n % 64] + rest;
    assert b[0] == 0xC0 + n / 64 && b[1] == 0x80 + n % 64;
    assert Two(b[0], b[1]) == n;
  }

  lemma NextOfThree(n: int, x: byte, y: byte, z: byte, rest: seq<byte>)
    requires 0x800 <= n < 0x1_0000 && !(0xD800 <= n < 0xE000)
    requires 0 <= x < 16 && 0 <= y < 64 && 0 <= z < 64 && n == 4096 * x + 64 * y + z
    ensures Next([0xE0 + x, 0x80 + y, 0x80 + z] + rest) == (n as char, 3)
  {
    var b := [0xE0 + x, 0x80 + y, 0x80 + z] + rest;
    assert b[0] == 0xE0 + x && b[1] == 0x80 + y && b[2] == 0x80 + z;
    assert SecondOfThree(b) && Continues(b, 2);
  }

  lemma NextOfFour(n: int, x: byte, y: byte, z: byte, u: byte, rest: seq<byte>)
    requires 0x1_0000 <= n < 0x11_0000
    requires 0 <= x < 5 && 0 <= y < 64 && 0 <= z < 64 && 0 <= u < 64 && n == 262144 * x + 4096 * y + 64 * z + u
    ensures Next([0xF0 + x, 0x80 + y, 0x80 + z, 0x80 + u] + rest) == (n as char, 4)
  {
    var b := [0xF0 + x, 0x80 + y, 0x80 + z, 0x80 + u] + rest;
    assert b[0] == 0xF0 + x && b[1] == 0x80 + y && b[2] == 0x80 + z && b[3] == 0x80 + u;
    assert SecondOfFour(b) && Continues(b, 2) && Continues(b, 3);
  }

  /** Digits in base 64. */
  lemma ThreeDigits(n: nat)
    ensures n == 4096 * (n / 4096) + 64 * (n / 64 % 64) + n % 64
  {
    var q := n / 64;
    assert n == 64 * q + n % 64 && q == 64 * (q / 64) + q % 64;
    assert n / 4096 == q / 64;
  }

  lemma FourDigits(n: nat)
    ensures n == 262144 * (n / 262144) + 4096 * (n / 4096 % 64) + 64 * (n / 64 % 64) + n % 64
  {
    ThreeDigits(n);
    assert n / 4096 == 64 * (n / 262144) + n / 4096 % 64;
  }

  lemma NextOfShortChar(c: char, rest: seq<byte>)
    requires c as int < 0x800
    ensures Next(EncodeChar(c) + rest) == (c, |EncodeChar(c)|)
  {
    var n := c as int;
    if n < 0x80 {
      assert ([n] + rest)[0] == n;
    } else {
      NextOfTwo(n, rest);
    }
  }

  lemma NextOfMiddleChar(c: char, rest: seq<byte>)
    requires 0x800 <= c as int < 0x1_0000
    ensures Next(EncodeChar(c) + rest) == (c, |EncodeChar(c)|)
  {
    var n := c as int;
    ThreeDigits(n);
    NextOfThree(n, n / 4096, n / 64 % 64, n % 64, rest);
  }

  lemma NextOfLongChar(c: char, rest: seq<byte>)
    requires 0x1_0000 <= c as int
    ensures Next(EncodeChar(c) + rest) == (c, |EncodeChar(c)|)
  {
    var n := c as int;
    FourDigits(n);
    NextOfFour(n, n / 262144, n / 4096 % 64, n / 64 % 64, n % 64, rest);
  }

  lemma NextOfEncodedChar(c: char, rest: seq<byte>)
    ensures Next(EncodeChar(c) + rest) == (c, |EncodeChar(c)|)
  {
    if c as int < 0x800 {
      NextOfShortChar(c, rest);
    } else if c as int < 0x1_0000 {
      NextOfMiddleChar(c, rest);
    } else {
      NextOfLongChar(c, rest);
    }
  }

  /** Decoding undoes encoding, for every string. */
  lemma {:induction false} LossyOfEncode(s: string)
    ensures Lossy(Encode(s)) == s
    decreases |s|
  {
    if s != [] {
      var first, rest := EncodeChar(s[0]), Encode(s[1..]);
      NextOfEncodedChar(s[0], rest);
      assert (first + rest)[|first|..] == rest;
      LossyOfEncode(s[1..]);
    }
  }

  lemma {:induction false} EncodeAppend(s: string, t: string)
    ensures Encode(s + t) == Encode(s) + Encode(t)
    decreases |s|
  {
    if s == [] {
      assert s + t == t;
    } else {
      assert (s + t)[1..] == s[1..] + t;
      EncodeAppend(s[1..], t);
    }
  }

  /** An ASCII byte occurs in the encoding exactly when its character occurs in the string. */
  lemma {:induction false} EncodeAscii(s: string, b: byte)
    requires b < 0x80
    ensures b in Encode(s) <==> (b as char) in s
    decreases |s|
  {
    if s != [] {
      EncodeAscii(s[1..], b);
      assert b in EncodeChar(s[0]) <==> b as char == s[0];
      assert s == [s[0]] + s[1..];
    }
  }
}
