/**
 AURX datagrams (`crates/aurix-common/src/protocol.rs`) and the fuzz harness's checksum
 rewriting over them (`fuzz/src/lib.rs`).

 A datagram is a 30-byte header, the payload the header announces, and a 16-byte tag when the
 header's Authenticated flag is set.  The header carries the CRC-32 of the payload.
 */
module Packet {
  import opened Words
  import opened Wrappers
  import Crc32

  const HEADER_SIZE: nat := 30
  const AUTH_TAG_SIZE: nat := 16
  const PROTOCOL_VERSION: byte := 2

  type Flags = f: seq<bool> | |f| == 16 witness Falses(16)
  type u16 = n: nat | n < 0x1_0000

  /** Positions of two header flags: `Encrypted` is 0x0001, `Authenticated` is 0x0400. */
  const ENCRYPTED: nat := 0
  const AUTHENTICATED: nat := 10

  datatype Header = Header(
    packetType: byte, flags: Flags, sequence: Word, timestamp: Word, ssrc: Word,
    channelIdHash: Word, payloadLength: u16, checksum: Word)
  {
    predicate Authenticated() {
      flags[AUTHENTICATED]
    }
  }

  datatype Packet = Packet(header: Header, payload: seq<byte>, tag: Option<seq<byte>>)

  datatype DecodeError =
    TooLarge | TooShort | BadMagic | BadVersion | UnknownType | Truncated | TrailingBytes | ChecksumMismatch

  type Decoded = Result<Packet, DecodeError>

  function Magic(): (m: seq<byte>)
    ensures |m| == 4
  {
    [0x41, 0x55, 0x52, 0x58]
  }

  predicate KnownType(t: byte) {
    || t == 0x01 || t == 0x02 || t == 0x10 || t == 0x20 || t == 0x21
    || 0x30 <= t <= 0x34 || 0x40 <= t <= 0x42 || t == 0x50 || t == 0x60 || t == 0x61
    || t == 0x70 || t == 0x71 || t == 0x80 || t == 0xFF
  }

  // ---- header ------------------------------------------------------------------------------

  function FlagsBytes(f: Flags): (b: seq<byte>)
    ensures |b| == 2
  {
    [BitsByte(f[8..16]), BitsByte(f[0..8])]
  }

  function BytesFlags(hi: byte, lo: byte): Flags {
    ByteBits(lo) + ByteBits(hi)
  }

  lemma FlagsRoundTrip(f: Flags)
    ensures BytesFlags(FlagsBytes(f)[0], FlagsBytes(f)[1]) == f
  {
    ByteBitsInverse(f[8..16]);
    ByteBitsInverse(f[0..8]);
    assert f == f[0..8] + f[8..16];
  }

  lemma FlagsBytesRoundTrip(hi: byte, lo: byte)
    ensures FlagsBytes(BytesFlags(hi, lo)) == [hi, lo]
  {
    var f := BytesFlags(hi, lo);
    assert f[0..8] == ByteBits(lo) && f[8..16] == ByteBits(hi);
    BitsByteInverse(hi);
    BitsByteInverse(lo);
  }

  function EncodeHeader(h: Header): (b: seq<byte>)
    ensures |b| == HEADER_SIZE
  {
    (Magic() + [PROTOCOL_VERSION, h.packetType] + FlagsBytes(h.flags)) +
    (WordBytes(h.sequence) + WordBytes(h.timestamp) + WordBytes(h.ssrc) + WordBytes(h.channelIdHash)) +
    (U16Bytes(h.payloadLength) + WordBytes(h.checksum))
  }

  /** The fields of a header whose magic, version and type have been checked. */
  function ParseHeader(b: seq<byte>): Header
    requires |b| >= HEADER_SIZE
  {
    Header(b[5], BytesFlags(b[6], b[7]), BytesWord(b[8..12]), BytesWord(b[12..16]), BytesWord(b[16..20]),
           BytesWord(b[20..24]), BytesU16(b[24], b[25]), BytesWord(b[26..30]))
  }

  /** Where each field of an encoded header sits. */
  lemma HeaderLayout(h: Header, rest: seq<byte>)
    ensures var b := EncodeHeader(h) + rest;
      && b[0..4] == Magic() && b[4] == PROTOCOL_VERSION && b[5] == h.packetType
      && [b[6], b[7]] == FlagsBytes(h.flags)
      && b[8..12] == WordBytes(h.sequence) && b[12..16] == WordBytes(h.timestamp)
      && b[16..20] == WordBytes(h.ssrc) && b[20..24] == WordBytes(h.channelIdHash)
      && [b[24], b[25]] == U16Bytes(h.payloadLength) && b[26..30] == WordBytes(h.checksum)
      && b[HEADER_SIZE..] == rest
  {
    var first := Magic() + [PROTOCOL_VERSION, h.packetType] + FlagsBytes(h.flags);
    var middle := WordBytes(h.sequence) + WordBytes(h.timestamp) + WordBytes(h.ssrc) + WordBytes(h.channelIdHash);
    var last := U16Bytes(h.payloadLength) + WordBytes(h.checksum);
    var b := EncodeHeader(h) + rest;
    assert b[0..8] == first && b[8..24] == middle && b[24..30] == last;
    assert b[0..4] == first[0..4] && b[4] == first[4] && b[5] == first[5] && b[6] == first[6] && b[7] == first[7];
    assert b[8..12] == middle[0..4] && b[12..16] == middle[4..8];
    assert b[16..20] == middle[8..12] && b[20..24] == middle[12..16];
    assert b[24] == last[0] && b[25] == last[1] && b[26..30] == last[2..6];
  }

  /** The header in numbers: every field is big-endian, at these places. */
  lemma HeaderSpells(h: Header)
    ensures var b := EncodeHeader(h);
      && b[0..4] == [0x41, 0x55, 0x52, 0x58] && b[4] == 2 && b[5] == h.packetType
      && Spelled([b[6], b[7]]) == BitsNat(h.flags)
      && Spelled(b[8..12]) == BitsNat(h.sequence) && Spelled(b[12..16]) == BitsNat(h.timestamp)
      && Spelled(b[16..20]) == BitsNat(h.ssrc) && Spelled(b[20..24]) == BitsNat(h.channelIdHash)
      && Spelled([b[24], b[25]]) == h.payloadLength && Spelled(b[26..30]) == BitsNat(h.checksum)
  {
    var b := EncodeHeader(h);
    assert b + [] == b;
    HeaderLayout(h, []);
    WordBytesSpell(h.sequence);
    WordBytesSpell(h.timestamp);
    WordBytesSpell(h.ssrc);
    WordBytesSpell(h.channelIdHash);
    WordBytesSpell(h.checksum);
    FlagsSpell(h.flags);
    LengthSpells(h.payloadLength);
  }

  lemma FlagsSpell(f: Flags)
    ensures Spelled(FlagsBytes(f)) == BitsNat(f)
  {
    SpelledTwo(FlagsBytes(f)[0], FlagsBytes(f)[1]);
    assert f == f[0..8] + f[8..16];
    LowByteFirst(f[0..8], f[8..16]);
  }

  lemma LengthSpells(n: u16)
    ensures Spelled(U16Bytes(n)) == n
  {
    SpelledTwo(U16Bytes(n)[0], U16Bytes(n)[1]);
  }

  lemma ParseEncodedHeader(h: Header, rest: seq<byte>)
    ensures ParseHeader(EncodeHeader(h) + rest) == h
  {
    HeaderLayout(h, rest);
    FlagsRoundTrip(h.flags);
    WordBytesInverse(h.sequence);
    WordBytesInverse(h.timestamp);
    WordBytesInverse(h.ssrc);
    WordBytesInverse(h.channelIdHash);
    WordBytesInverse(h.checksum);
    U16RoundTrip(h.payloadLength);
  }

  lemma EncodeParsedHeader(b: seq<byte>)
    requires |b| >= HEADER_SIZE && b[0..4] == Magic() && b[4] == PROTOCOL_VERSION
    ensures EncodeHeader(ParseHeader(b)) == b[..HEADER_SIZE]
  {
    var h := ParseHeader(b);
    HeaderLayout(h, []);
    FlagsBytesRoundTrip(b[6], b[7]);
    BytesWordInverse(b[8..12]);
    BytesWordInverse(b[12..16]);
    BytesWordInverse(b[16..20]);
    BytesWordInverse(b[20..24]);
    BytesWordInverse(b[26..30]);
    assert EncodeHeader(h) + [] == EncodeHeader(h);
    SameHeaderBytes(EncodeHeader(h), b);
  }

  lemma SameHeaderBytes(a: seq<byte>, b: seq<byte>)
    requires |a| == HEADER_SIZE <= |b|
    requires a[0..4] == b[0..4] && a[4] == b[4] && a[5] == b[5] && a[6] == b[6] && a[7] == b[7]
    requires a[8..12] == b[8..12] && a[12..16] == b[12..16] && a[16..20] == b[16..20] && a[20..24] == b[20..24]
    requires a[24] == b[24] && a[25] == b[25] && a[26..30] == b[26..30]
    ensures a == b[..HEADER_SIZE]
  {
    forall i | 0 <= i < HEADER_SIZE
      ensures a[i] == b[i]
    {
      if i < 4 {
        assert a[0..4][i] == b[0..4][i];
      } else if 8 <= i < 12 {
        assert a[8..12][i - 8] == b[8..12][i - 8];
      } else if 12 <= i < 16 {
        assert a[12..16][i - 12] == b[12..16][i - 12];
      } else if 16 <= i < 20 {
        assert a[16..20][i - 16] == b[16..20][i - 16];
      } else if 20 <= i < 24 {
        assert a[20..24][i - 20] == b[20..24][i - 20];
      } else if 26 <= i {
        assert a[26..30][i - 26] == b[26..30][i - 26];
      }
    }
  }

  // ---- datagrams ---------------------------------------------------------------------------

  function TagSize(h: Header): nat {
    if h.Authenticated() then AUTH_TAG_SIZE else 0
  }

  /** The gates before the payload: size, magic, version, packet type. */
  function HeaderError(data: seq<byte>, maxSize: nat): (e: Option<DecodeError>)
    ensures e.None? ==> HEADER_SIZE <= |data| <= maxSize
  {
    if |data| > maxSize then Some(TooLarge)
    else if |data| < HEADER_SIZE then Some(TooShort)
    else if data[0..4] != Magic() then Some(BadMagic)
    else if data[4] != PROTOCOL_VERSION then Some(BadVersion)
    else if !KnownType(data[5]) then Some(UnknownType)
    else None
  }

  /** The gates behind the header: exact length, then the checksum. */
  function DecodeBody(h: Header, rest: seq<byte>): Decoded {
    var expected := h.payloadLength + TagSize(h);
    if |rest| < expected then Err(Truncated)
    else if |rest| > expected then Err(TrailingBytes)
    else
      var payload := rest[..h.payloadLength];
      if Crc32.Crc(payload) != h.checksum then Err(ChecksumMismatch)
      else Ok(Packet(h, payload, if h.Authenticated() then Some(rest[h.payloadLength..]) else None))
  }

  /** The strict decoder: bounded size, checked header, exact length, verified checksum. */
  function DecodeBounded(data: seq<byte>, maxSize: nat): Decoded {
    var e := HeaderError(data, maxSize);
    if e.Some? then Err(e.value) else DecodeBody(ParseHeader(data), data[HEADER_SIZE..])
  }

  /**
   The first gate that refuses a datagram: its size, the magic "AURX", version 2, the type, then the
   length at bytes 24 and 25 together with a tag if bit 0x04 of byte 6 is set, and the checksum.
   */
  lemma RefusalsAre(data: seq<byte>, maxSize: nat)
    ensures |data| > maxSize ==> DecodeBounded(data, maxSize) == Err(TooLarge)
    ensures |data| <= maxSize && |data| < 30 ==> DecodeBounded(data, maxSize) == Err(TooShort)
    ensures 30 <= |data| <= maxSize ==>
      && (data[0..4] != [0x41, 0x55, 0x52, 0x58] ==> DecodeBounded(data, maxSize) == Err(BadMagic))
      && (data[0..4] == [0x41, 0x55, 0x52, 0x58] && data[4] != 2 ==> DecodeBounded(data, maxSize) == Err(BadVersion))
    ensures HeaderError(data, maxSize).None? ==>
      var n := 30 + Spelled([data[24], data[25]]) + (if ByteBits(data[6])[2] then 16 else 0);
      && (|data| < n <==> DecodeBounded(data, maxSize) == Err(Truncated))
      && (|data| > n <==> DecodeBounded(data, maxSize) == Err(TrailingBytes))
      && (|data| == n <==> DecodeBounded(data, maxSize).Ok? || DecodeBounded(data, maxSize) == Err(ChecksumMismatch))
  {
    if HeaderError(data, maxSize).None? {
      SpelledTwo(data[24], data[25]);
      assert ParseHeader(data).flags[10] == ByteBits(data[6])[2];
    }
  }

  /** Behind an encoded header the decoder sees that header and the bytes that follow it. */
  lemma DecodeAfterHeader(h: Header, rest: seq<byte>, maxSize: nat)
    requires KnownType(h.packetType) && HEADER_SIZE + |rest| <= maxSize
    ensures DecodeBounded(EncodeHeader(h) + rest, maxSize) == DecodeBody(h, rest)
  {
    HeaderLayout(h, rest);
    ParseEncodedHeader(h, rest);
  }

  /** The bytes of a datagram, tag included. */
  function Wire(p: Packet): seq<byte> {
    EncodeHeader(p.header) + Tail(p)
  }

  function Tail(p: Packet): seq<byte> {
    p.payload + (if p.tag.Some? then p.tag.value else [])
  }

  /** The packets the decoder can return. */
  ghost predicate WellFormed(p: Packet) {
    && KnownType(p.header.packetType)
    && p.header.payloadLength == |p.payload|
    && p.header.checksum == Crc32.Crc(p.payload)
    && p.tag.Some? == p.header.Authenticated()
    && (p.tag.Some? ==> |p.tag.value| == AUTH_TAG_SIZE)
  }

  /** A body decodes to a packet exactly when it is that well-formed packet's own tail. */
  lemma BodyIsTail(h: Header, rest: seq<byte>, p: Packet)
    requires KnownType(h.packetType)
    ensures DecodeBody(h, rest) == Ok(p) <==> WellFormed(p) && p.header == h && rest == Tail(p)
  {
    if DecodeBody(h, rest) == Ok(p) {
      assert rest == rest[..h.payloadLength] + rest[h.payloadLength..];
    }
    if WellFormed(p) && p.header == h && rest == Tail(p) {
      assert rest[..h.payloadLength] == p.payload;
      assert p.tag.Some? ==> rest[h.payloadLength..] == p.tag.value;
    }
  }

  lemma AcceptedIsWire(data: seq<byte>, maxSize: nat, p: Packet)
    requires DecodeBounded(data, maxSize) == Ok(p)
    ensures |data| <= maxSize && WellFormed(p) && data == Wire(p)
  {
    assert HeaderError(data, maxSize).None?;
    var rest := data[HEADER_SIZE..];
    BodyIsTail(ParseHeader(data), rest, p);
    HeaderAndRest(data);
  }

  lemma HeaderAndRest(data: seq<byte>)
    requires |data| >= HEADER_SIZE && data[0..4] == Magic() && data[4] == PROTOCOL_VERSION
    ensures data == EncodeHeader(ParseHeader(data)) + data[HEADER_SIZE..]
  {
    EncodeParsedHeader(data);
    assert data == data[..HEADER_SIZE] + data[HEADER_SIZE..];
  }

  lemma WireIsAccepted(maxSize: nat, p: Packet)
    requires |Wire(p)| <= maxSize && WellFormed(p)
    ensures DecodeBounded(Wire(p), maxSize) == Ok(p)
  {
    DecodeAfterHeader(p.header, Tail(p), maxSize);
    BodyIsTail(p.header, Tail(p), p);
  }

  /** The datagrams the decoder accepts are exactly the wire forms of well-formed packets. */
  lemma DecodeAcceptsExactlyWires(data: seq<byte>, maxSize: nat, p: Packet)
    ensures DecodeBounded(data, maxSize) == Ok(p) <==> |data| <= maxSize && WellFormed(p) && data == Wire(p)
  {
    if DecodeBounded(data, maxSize) == Ok(p) {
      AcceptedIsWire(data, maxSize, p);
    } else if |data| <= maxSize && WellFormed(p) && data == Wire(p) {
      WireIsAccepted(maxSize, p);
    }
  }

  // ---- encoding ----------------------------------------------------------------------------

  function WithFlag(f: Flags, i: nat, on: bool): (g: Flags)
    requires i < 16
    ensures g[i] == on && forall j :: 0 <= j < 16 && j != i ==> g[j] == f[j]
  {
    f[i := on]
  }

  /** The length field is 16 bits wide: a longer payload's length wraps around. */
  function AsU16(n: nat): (r: u16)
    ensures n < 0x1_0000 ==> r == n
  {
    if n < 0x1_0000 then n else n % 0x1_0000
  }

  function FinalizedHeader(h: Header, payload: seq<byte>): Header {
    h.(payloadLength := AsU16(|payload|), checksum := Crc32.Crc(payload))
  }

  /** Encoding without a tag clears the Authenticated flag. */
  function Encode(p: Packet): seq<byte> {
    var h := FinalizedHeader(p.header, p.payload);
    EncodeHeader(h.(flags := WithFlag(h.flags, AUTHENTICATED, false))) + p.payload
  }

  function WithoutTag(p: Packet): Packet {
    Packet(p.header.(flags := WithFlag(p.header.flags, AUTHENTICATED, false)), p.payload, None)
  }

  lemma EncodeDropsTag(p: Packet)
    requires WellFormed(p)
    ensures WellFormed(WithoutTag(p)) && Encode(p) == Wire(WithoutTag(p))
  {
    assert Tail(WithoutTag(p)) == p.payload;
  }

  /**
   What decodes re-encodes to a datagram that decodes again, to the same packet without the
   tag: every header field but the Authenticated flag, and the payload, are unchanged.
   */
  lemma ReencodedPacketDecodes(data: seq<byte>, maxSize: nat, p: Packet)
    requires DecodeBounded(data, maxSize) == Ok(p)
    ensures DecodeBounded(Encode(p), maxSize) == Ok(WithoutTag(p))
  {
    DecodeAcceptsExactlyWires(data, maxSize, p);
    EncodeDropsTag(p);
    DecodeAcceptsExactlyWires(Encode(p), maxSize, WithoutTag(p));
  }

  /**
   A payload damaged inside four consecutive bytes, with the rest of the datagram intact, is
   refused: the checksum gate never lets such damage through.
   */
  lemma DamagedPayloadIsRefused(p: Packet, damaged: seq<byte>, at: nat, maxSize: nat)
    requires WellFormed(p) && |Wire(p)| <= maxSize
    requires Crc32.DifferOnlyWithin(p.payload, damaged, at, 4) && damaged != p.payload
    ensures DecodeBounded(Wire(p.(payload := damaged)), maxSize) == Err(ChecksumMismatch)
  {
    Crc32.FourByteDamageChangesCrc(p.payload, damaged, at);
    var q := p.(payload := damaged);
    DecodeAfterHeader(p.header, Tail(q), maxSize);
    assert Tail(q)[..|damaged|] == damaged;
  }

  // ---- sealing -----------------------------------------------------------------------------

  type Digest = d: seq<byte> | |d| == 32 witness seq(32, i => 0)

  datatype Nonce = Nonce(packetType: byte, ssrc: Word, sequence: Word, timestamp: Word)

  /** Session keys: the AES-CTR keystream under a nonce, and HMAC-SHA256 under the auth key. */
  datatype MediaKeys = MediaKeys(keystream: (Nonce, nat) -> byte, mac: seq<byte> -> Digest)

  function HeaderNonce(h: Header): Nonce {
    Nonce(h.packetType, h.ssrc, h.sequence, h.timestamp)
  }

  function ApplyCtr(keys: MediaKeys, n: Nonce, data: seq<byte>): (r: seq<byte>)
    ensures |r| == |data|
    ensures forall i :: 0 <= i < |data| ==> r[i] == Crc32.XorByte(data[i], keys.keystream(n, i))
  {
    seq<byte>(|data|, i requires 0 <= i < |data| => Crc32.XorByte(data[i], keys.keystream(n, i)))
  }

  lemma XorByteInvolution(a: byte, k: byte)
    ensures Crc32.XorByte(Crc32.XorByte(a, k), k) == a
  {
    var x := Crc32.XorBits(ByteBits(a), ByteBits(k));
    ByteBitsInverse(x);
    assert Crc32.XorBits(x, ByteBits(k)) == ByteBits(a);
    BitsByteInverse(a);
  }

  lemma CtrIsInvolution(keys: MediaKeys, n: Nonce, data: seq<byte>)
    ensures ApplyCtr(keys, n, ApplyCtr(keys, n, data)) == data
  {
    var once := ApplyCtr(keys, n, data);
    var twice := ApplyCtr(keys, n, once);
    forall i | 0 <= i < |data|
      ensures twice[i] == data[i]
    {
      XorByteInvolution(data[i], keys.keystream(n, i));
    }
  }

  /** The header a sealed packet travels under: both flags set, checksum over the ciphertext. */
  function SealedHeader(h: Header, cipher: seq<byte>): Header {
    FinalizedHeader(h.(flags := WithFlag(WithFlag(h.flags, AUTHENTICATED, true), ENCRYPTED, true)), cipher)
  }

  /** The header after opening: the tag was checked, the payload is in the clear. */
  function OpenedHeader(h: Header, payload: seq<byte>): Header {
    FinalizedHeader(h.(flags := WithFlag(WithFlag(h.flags, AUTHENTICATED, true), ENCRYPTED, false)), payload)
  }

  function AuthTag(keys: MediaKeys, signed: seq<byte>): (tag: seq<byte>)
    ensures |tag| == AUTH_TAG_SIZE
  {
    keys.mac(signed)[..AUTH_TAG_SIZE]
  }

  /** Encrypt, then authenticate header and ciphertext together. */
  function Seal(h: Header, payload: seq<byte>, keys: MediaKeys): seq<byte> {
    var cipher := ApplyCtr(keys, HeaderNonce(h), payload);
    var signed := EncodeHeader(SealedHeader(h, cipher)) + cipher;
    signed + AuthTag(keys, signed)
  }

  predicate VerifyAuth(p: Packet, keys: MediaKeys) {
    p.tag.Some? && p.tag.value == AuthTag(keys, EncodeHeader(p.header) + p.payload)
  }

  /** Verify first; then decrypt when the Encrypted flag is set, and clear it. */
  function Open(p: Packet, keys: MediaKeys): Option<Packet> {
    if !VerifyAuth(p, keys) then None
    else if !p.header.flags[ENCRYPTED] then Some(p)
    else
      var plain := ApplyCtr(keys, HeaderNonce(p.header), p.payload);
      Some(Packet(p.header.(flags := WithFlag(p.header.flags, ENCRYPTED, false), checksum := Crc32.Crc(plain)),
        plain, p.tag))
  }

  /** The last 16 bytes are the first 16 of the keyed hash of all bytes before them. */
  ghost predicate IsSigned(data: seq<byte>, keys: MediaKeys) {
    |data| >= 46 && data[|data| - 16..] == keys.mac(data[..|data| - 16])[..16]
  }

  /** A datagram opens exactly if it is signed, header and ciphertext alike, and says so. */
  lemma OpensExactlyWhen(data: seq<byte>, maxSize: nat, p: Packet, keys: MediaKeys)
    requires DecodeBounded(data, maxSize) == Ok(p)
    ensures Open(p, keys).Some? <==> p.header.flags[10] && IsSigned(data, keys)
  {
    AcceptedIsWire(data, maxSize, p);
    OpenNeedsAuth(p, keys);
    if p.tag.Some? {
      VerifiesExactlyWhen(data, p, keys);
    }
  }

  lemma OpenNeedsAuth(p: Packet, keys: MediaKeys)
    ensures Open(p, keys).Some? <==> VerifyAuth(p, keys)
  {
  }

  lemma VerifiesExactlyWhen(data: seq<byte>, p: Packet, keys: MediaKeys)
    requires WellFormed(p) && data == Wire(p) && p.tag.Some?
    ensures VerifyAuth(p, keys) <==> IsSigned(data, keys)
  {
    AppendAssociates(EncodeHeader(p.header), p.payload, p.tag.value);
    SignedSplits(EncodeHeader(p.header) + p.payload, p.tag.value, data, keys);
  }

  lemma SignedSplits(signed: seq<byte>, tag: seq<byte>, data: seq<byte>, keys: MediaKeys)
    requires data == signed + tag && |tag| == 16 && |signed| >= 30
    ensures IsSigned(data, keys) <==> tag == AuthTag(keys, signed)
  {
    assert data[..|data| - 16] == signed && data[|data| - 16..] == tag;
  }

  /** The keystream of a packet: no two packets share one unless they agree in type, source, sequence and time. */
  lemma NonceDetermines(h: Header, h': Header)
    ensures HeaderNonce(h) == HeaderNonce(h') <==>
      h.packetType == h'.packetType && h.ssrc == h'.ssrc && h.sequence == h'.sequence && h.timestamp == h'.timestamp
  {
  }

  /** The packet a receiver gets from `Seal`. */
  function SealedPacket(h: Header, payload: seq<byte>, keys: MediaKeys): Packet {
    var cipher := ApplyCtr(keys, HeaderNonce(h), payload);
    var sealed := SealedHeader(h, cipher);
    Packet(sealed, cipher, Some(AuthTag(keys, EncodeHeader(sealed) + cipher)))
  }

  lemma AppendAssociates(a: seq<byte>, b: seq<byte>, c: seq<byte>)
    ensures (a + b) + c == a + (b + c)
  {
  }

  /** A sealed packet says so: flags 0x0001 and 0x0400. */
  lemma SealedFlags(h: Header, payload: seq<byte>, keys: MediaKeys)
    ensures SealedPacket(h, payload, keys).header.flags[0] && SealedPacket(h, payload, keys).header.flags[10]
  {
  }

  lemma SealedIsWire(h: Header, payload: seq<byte>, keys: MediaKeys)
    ensures Seal(h, payload, keys) == Wire(SealedPacket(h, payload, keys))
  {
    var p := SealedPacket(h, payload, keys);
    AppendAssociates(EncodeHeader(p.header), p.payload, p.tag.value);
  }

  lemma SealedIsWellFormed(h: Header, payload: seq<byte>, keys: MediaKeys)
    requires KnownType(h.packetType) && |payload| < 0x1_0000
    ensures WellFormed(SealedPacket(h, payload, keys))
  {
    assert SealedPacket(h, payload, keys).header.flags[AUTHENTICATED];
  }

  lemma FlagOverwrites(f: Flags, i: nat)
    requires i < 16
    ensures WithFlag(WithFlag(f, i, true), i, false) == WithFlag(f, i, false)
    ensures WithFlag(f, i, true)[i]
  {
  }

  lemma SealedHeaderFields(h: Header, cipher: seq<byte>, payload: seq<byte>)
    requires |cipher| == |payload|
    ensures HeaderNonce(SealedHeader(h, cipher)) == HeaderNonce(h)
    ensures var s := SealedHeader(h, cipher);
      && s.flags[ENCRYPTED]
      && s.(flags := WithFlag(s.flags, ENCRYPTED, false), checksum := Crc32.Crc(payload)) == OpenedHeader(h, payload)
  {
    FlagOverwrites(WithFlag(h.flags, AUTHENTICATED, true), ENCRYPTED);
  }

  lemma OpensTo(p: Packet, keys: MediaKeys, plain: seq<byte>)
    requires VerifyAuth(p, keys) && p.header.flags[ENCRYPTED]
      && ApplyCtr(keys, HeaderNonce(p.header), p.payload) == plain
    ensures Open(p, keys) == Some(Packet(
      p.header.(flags := WithFlag(p.header.flags, ENCRYPTED, false), checksum := Crc32.Crc(plain)), plain, p.tag))
  {
  }

  lemma SealedOpens(h: Header, payload: seq<byte>, keys: MediaKeys)
    ensures var p := SealedPacket(h, payload, keys);
      Open(p, keys) == Some(Packet(OpenedHeader(h, payload), payload, p.tag))
  {
    var p := SealedPacket(h, payload, keys);
    CtrIsInvolution(keys, HeaderNonce(h), payload);
    SealedHeaderFields(h, p.payload, payload);
    OpensTo(p, keys, payload);
  }

  /**
   A sealed packet decodes before any key is touched, opens under its own keys, and yields the
   plaintext under the sender's header: only the flags and the payload's length and checksum
   are new.
   */
  lemma SealedPacketOpens(h: Header, payload: seq<byte>, keys: MediaKeys, maxSize: nat)
    requires KnownType(h.packetType) && |payload| < 0x1_0000
    requires HEADER_SIZE + |payload| + AUTH_TAG_SIZE <= maxSize
    ensures var d := DecodeBounded(Seal(h, payload, keys), maxSize);
      && d == Ok(SealedPacket(h, payload, keys))
      && Open(d.value, keys) == Some(Packet(OpenedHeader(h, payload), payload, d.value.tag))
  {
    var p := SealedPacket(h, payload, keys);
    SealedIsWire(h, payload, keys);
    SealedIsWellFormed(h, payload, keys);
    assert |Wire(p)| == HEADER_SIZE + |payload| + AUTH_TAG_SIZE;
    DecodeAcceptsExactlyWires(Wire(p), maxSize, p);
    SealedOpens(h, payload, keys);
  }

  // ---- the harness's checksum rewriting ------------------------------------------------------

  /** The bit of byte `b` with value 0x04. */
  predicate BitTwo(b: byte) {
    ByteBits(b)[2]
  }

  /**
   The tag length the harness subtracts.  It tests the 16-bit number at bytes 5 and 6 against
   0x0400, which is bit 0x04 of byte 5 -- the packet type.  The flags are at bytes 6 and 7.
   */
  function AssumedTag(data: seq<byte>): nat
    requires |data| >= HEADER_SIZE
  {
    if BitTwo(data[5]) then AUTH_TAG_SIZE else 0
  }

  /** The datagram with its length and checksum fields rewritten for the assumed tag length. */
  function FixedChecksum(data: seq<byte>): (r: Option<seq<byte>>) {
    if |data| < HEADER_SIZE || |data| < HEADER_SIZE + AssumedTag(data) then None
    else
      var n := |data| - HEADER_SIZE - AssumedTag(data);
      if n >= 0x1_0000 then None
      else Some(data[..24] + U16Bytes(n) + WordBytes(Crc32.Crc(data[HEADER_SIZE..HEADER_SIZE + n]))
        + data[HEADER_SIZE..])
  }

  /** The harness's in-place rewriting of a copy of the input. */
  method WithFixedChecksum(data: seq<byte>) returns (r: Option<seq<byte>>)
    ensures r == FixedChecksum(data)
  {
    if |data| < HEADER_SIZE {
      return None;
    }
    var fixed := new byte[|data|](i requires 0 <= i < |data| => data[i]);
    assert fixed[..] == data;
    var tag := if BitTwo(fixed[5]) then AUTH_TAG_SIZE else 0;
    if fixed.Length < HEADER_SIZE + tag {
      return None;
    }
    var bodyLen := fixed.Length - (HEADER_SIZE + tag);
    if bodyLen >= 0x1_0000 {
      return None;
    }
    var length := U16Bytes(bodyLen);
    fixed[24], fixed[25] := length[0], length[1];
    assert fixed[HEADER_SIZE..] == data[HEADER_SIZE..];
    var crc := Crc32.Checksum(fixed[HEADER_SIZE..HEADER_SIZE + bodyLen]);
    assert fixed[HEADER_SIZE..HEADER_SIZE + bodyLen] == data[HEADER_SIZE..HEADER_SIZE + bodyLen];
    var bytes := WordBytes(crc);
    fixed[26], fixed[27], fixed[28], fixed[29] := bytes[0], bytes[1], bytes[2], bytes[3];
    r := Some(fixed[..]);
    PatchedHeader(data, length, bytes, fixed[..]);
  }

  lemma PatchedHeader(data: seq<byte>, length: seq<byte>, crc: seq<byte>, fixed: seq<byte>)
    requires |fixed| == |data| >= HEADER_SIZE && |length| == 2 && |crc| == 4
    requires forall i :: 0 <= i < |data| && !(24 <= i < 30) ==> fixed[i] == data[i]
    requires fixed[24] == length[0] && fixed[25] == length[1]
    requires fixed[26] == crc[0] && fixed[27] == crc[1] && fixed[28] == crc[2] && fixed[29] == crc[3]
    ensures fixed == data[..24] + length + crc + data[HEADER_SIZE..]
  {
  }

  lemma LastFieldsReplaced(first: seq<byte>, middle: seq<byte>, last: seq<byte>, other: seq<byte>, data: seq<byte>)
    requires |first| == 8 && |middle| == 16 && |last| == 6 && |data| >= HEADER_SIZE
    requires first + middle + last == data[..HEADER_SIZE]
    ensures first + middle + other == data[..24] + other
  {
    assert data[..24] == data[..HEADER_SIZE][..24] == first + middle;
  }

  lemma RewrittenHeader(data: seq<byte>, n: u16, crc: Word)
    requires |data| >= HEADER_SIZE && data[0..4] == Magic() && data[4] == PROTOCOL_VERSION
    ensures EncodeHeader(ParseHeader(data).(payloadLength := n, checksum := crc))
         == data[..24] + U16Bytes(n) + WordBytes(crc)
  {
    var h := ParseHeader(data);
    var g := h.(payloadLength := n, checksum := crc);
    EncodeParsedHeader(data);
    var first := Magic() + [PROTOCOL_VERSION, h.packetType] + FlagsBytes(h.flags);
    var middle := WordBytes(h.sequence) + WordBytes(h.timestamp) + WordBytes(h.ssrc) + WordBytes(h.channelIdHash);
    LastFieldsReplaced(first, middle, U16Bytes(h.payloadLength) + WordBytes(h.checksum),
      U16Bytes(n) + WordBytes(crc), data);
    AppendAssociates(data[..24], U16Bytes(n), WordBytes(crc));
  }

  lemma BodyOf(data: seq<byte>, n: nat)
    requires HEADER_SIZE + n <= |data|
    ensures data[HEADER_SIZE..][..n] == data[HEADER_SIZE..HEADER_SIZE + n]
  {
  }

  lemma AuthenticatedBit(data: seq<byte>)
    requires |data| >= HEADER_SIZE
    ensures ParseHeader(data).Authenticated() == BitTwo(data[6])
  {
  }

  /**
   The rewritten datagram gets past the length and checksum gates exactly when bit 0x04 of the
   packet type equals the real Authenticated flag (bit 0x04 of byte 6).  Otherwise the decoder
   stops at the length gate, before the checksum.
   */
  lemma FixedChecksumReachesPayload(data: seq<byte>, maxSize: nat)
    requires FixedChecksum(data).Some? && HeaderError(data, maxSize).None?
    ensures var d := DecodeBounded(FixedChecksum(data).value, maxSize);
      && (d.Ok? <==> BitTwo(data[5]) == BitTwo(data[6]))
      && (BitTwo(data[5]) && !BitTwo(data[6]) ==> d == Err(TrailingBytes))
      && (!BitTwo(data[5]) && BitTwo(data[6]) ==> d == Err(Truncated))
  {
    var n := |data| - HEADER_SIZE - AssumedTag(data);
    var rest := data[HEADER_SIZE..];
    var crc := Crc32.Crc(data[HEADER_SIZE..HEADER_SIZE + n]);
    var h := ParseHeader(data).(payloadLength := n, checksum := crc);
    RewrittenHeader(data, n, crc);
    DecodeAfterHeader(h, rest, maxSize);
    BodyOf(data, n);
    AuthenticatedBit(data);
  }

  // ---- the misread flag at two inputs ----------------------------------------------------------

  lemma NextBit(n: nat, k: nat, i: nat)
    requires 0 < i < k
    ensures NatBits(n, k)[i] == NatBits(n / 2, k - 1)[i - 1]
  {
  }

  lemma BitTwoOf(b: byte)
    ensures BitTwo(b) <==> b / 4 % 2 == 1
  {
    NextBit(b, BYTE_BITS, 2);
    NextBit(b / 2, BYTE_BITS - 1, 1);
  }

  /** A datagram with sixteen payload bytes, all zero but for its type and the high flags byte. */
  function Example(packetType: byte, flags: byte): (data: seq<byte>)
    ensures |data| == 46
  {
    Magic() + [PROTOCOL_VERSION, packetType, flags] + seq<byte>(39, i => 0)
  }

  lemma ExampleIsRewritten(packetType: byte, flags: byte)
    requires KnownType(packetType)
    ensures var data := Example(packetType, flags);
      data[5] == packetType && data[6] == flags && HeaderError(data, 46).None? && FixedChecksum(data).Some?
  {
    assert Example(packetType, flags)[0..4] == Magic();
  }

  /** A session acknowledgement without a tag is declared too short, an audio datagram with one too long. */
  lemma MisreadFlagIsRefused()
    ensures FixedChecksum(Example(0x34, 0)).Some? && FixedChecksum(Example(0x01, 4)).Some?
    ensures DecodeBounded(FixedChecksum(Example(0x34, 0)).value, 46) == Err(TrailingBytes)
    ensures DecodeBounded(FixedChecksum(Example(0x01, 4)).value, 46) == Err(Truncated)
  {
    ExampleIsRewritten(0x34, 0);
    ExampleIsRewritten(0x01, 4);
    FixedChecksumReachesPayload(Example(0x34, 0), 46);
    FixedChecksumReachesPayload(Example(0x01, 4), 46);
    BitTwoOf(0x34);
    BitTwoOf(0x01);
    BitTwoOf(4);
    BitTwoOf(0);
  }
}
