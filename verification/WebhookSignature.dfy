/**
 The webhook signature header `t=<unix>,v1=<hex mac of "<t>.<body>">`
 (`crates/aurix-cli/src/webhook_sig.rs`). The keyed hash is a parameter.
 */
module WebhookSignature {
  import opened Words
  import opened Wrappers
  import Decimal
  import Hex
  import Text
  import Utf8

  // ---- hex -------------------------------------------------------------------------------------------

  function HexEncode(bytes: seq<byte>): string {
    if bytes == [] then "" else [Hex.LowerDigit(bytes[0] / 16), Hex.LowerDigit(bytes[0] % 16)] + HexEncode(bytes[1..])
  }

  function HexDecode(s: string): Option<seq<byte>> {
    if s == "" then Some([])
    else if |s| == 1 then None
    else
      var hi, lo, rest := Hex.Value(s[0]), Hex.Value(s[1]), HexDecode(s[2..]);
      if hi.Some? && lo.Some? && rest.Some? then Some([16 * hi.value + lo.value] + rest.value) else None
  }

  lemma {:induction false} HexRoundTrip(bytes: seq<byte>)
    ensures HexDecode(HexEncode(bytes)) == Some(bytes)
    decreases |bytes|
  {
    if bytes != [] {
      var s := HexEncode(bytes);
      Hex.ValueOfDigit(bytes[0] / 16);
      Hex.ValueOfDigit(bytes[0] % 16);
      HexRoundTrip(bytes[1..]);
      assert s[2..] == HexEncode(bytes[1..]);
      assert [bytes[0]] + bytes[1..] == bytes;
    }
  }

  /** Digits and lower-case letters. */
  predicate IsPlain(c: char) {
    '0' <= c <= '9' || 'a' <= c <= 'z'
  }

  lemma {:induction false} HexIsPlain(bytes: seq<byte>)
    ensures forall i :: 0 <= i < |HexEncode(bytes)| ==> IsPlain(HexEncode(bytes)[i])
    decreases |bytes|
  {
    if bytes != [] {
      HexIsPlain(bytes[1..]);
    }
  }

  // ---- signing ---------------------------------------------------------------------------------------

  /** A keyed hash: secret and message. */
  type Mac = (string, seq<byte>) -> seq<byte>

  /** What is signed: the decimal timestamp, a dot and the body. */
  function Message(ts: int, body: seq<byte>): seq<byte> {
    Utf8.Encode(Decimal.PrintInt(ts)) + [46] + body
  }

  function TimePart(ts: int): string {
    "t=" + Decimal.PrintInt(ts)
  }

  function MacPart(mac: seq<byte>): string {
    "v1=" + HexEncode(mac)
  }

  function Sign(mac: Mac, secret: string, ts: int, body: seq<byte>): string {
    TimePart(ts) + [','] + MacPart(mac(secret, Message(ts, body)))
  }

  /** No two pairs of timestamp and body have the same signed message. */
  lemma MessageIsInjective(t: int, a: seq<byte>, u: int, b: seq<byte>)
    requires Decimal.IsI64(t) && Decimal.IsI64(u) && Message(t, a) == Message(u, b)
    ensures t == u && a == b
  {
    var p, q := Utf8.Encode(Decimal.PrintInt(t)), Utf8.Encode(Decimal.PrintInt(u));
    NumberHasNoDot(t);
    NumberHasNoDot(u);
    SameHead(p, a, q, b);
    Utf8.LossyOfEncode(Decimal.PrintInt(t));
    Utf8.LossyOfEncode(Decimal.PrintInt(u));
    Decimal.ParseOfPrint(t);
    Decimal.ParseOfPrint(u);
  }

  lemma SameHead(p: seq<byte>, a: seq<byte>, q: seq<byte>, b: seq<byte>)
    requires 46 !in p && 46 !in q && p + [46] + a == q + [46] + b
    ensures p == q && a == b
  {
    var s := p + [46] + a;
    assert s == q + [46] + b;
    assert s[|p|] == 46 && s[|q|] == 46;
    assert |p| == |q|;
    assert s[..|p|] == p && s[..|q|] == q && s[|p| + 1..] == a && s[|q| + 1..] == b;
  }

  lemma NumberHasNoDot(t: int)
    ensures 46 !in Utf8.Encode(Decimal.PrintInt(t))
  {
    Utf8.EncodeAscii(Decimal.PrintInt(t), 46);
  }

  // ---- verifying -------------------------------------------------------------------------------------

  datatype VerifyError = NoTimestamp | NoMac | OutsideTolerance | NotHex | Mismatch

  /** Rust's `split_once`: before and after the first separator. */
  function SplitOnce(s: string, sep: char): (r: Option<(string, string)>)
    ensures r.Some? ==> sep !in r.value.0 && s == r.value.0 + [sep] + r.value.1
    ensures r.None? <==> sep !in s
  {
    if s == "" then None
    else if s[0] == sep then Some(("", s[1..]))
    else
      var rest := SplitOnce(s[1..], sep);
      if rest.None? then None else Some(([s[0]] + rest.value.0, rest.value.1))
  }

  lemma {:induction false} SplitOnceOf(a: string, sep: char, b: string)
    requires sep !in a
    ensures SplitOnce(a + [sep] + b, sep) == Some((a, b))
    decreases |a|
  {
    var s := a + [sep] + b;
    if a == "" {
      assert s[1..] == b;
    } else {
      assert s[0] == a[0] && s[1..] == a[1..] + [sep] + b;
      SplitOnceOf(a[1..], sep, b);
      assert [a[0]] + a[1..] == a;
    }
  }

  function Field(part: string): Option<(string, string)> {
    SplitOnce(Text.Trim(part), '=')
  }

  predicate IsField(part: string, name: string) {
    Field(part).Some? && Field(part).value.0 == name
  }

  /** The last `t` field counts, even when it is not a number. */
  function Timestamp(parts: seq<string>): Option<int> {
    if parts == [] then None
    else
      var last := parts[|parts| - 1];
      if IsField(last, "t") then Decimal.ParseI64(Field(last).value.1) else Timestamp(parts[..|parts| - 1])
  }

  function MacText(parts: seq<string>): Option<string> {
    if parts == [] then None
    else
      var last := parts[|parts| - 1];
      if IsField(last, "v1") then Some(Field(last).value.1) else MacText(parts[..|parts| - 1])
  }

  /** 64-bit subtraction and absolute value, both wrapping. */
  function Wrap64(n: int): (r: int)
    ensures Decimal.IsI64(r)
  {
    (n + 0x8000_0000_0000_0000) % 0x1_0000_0000_0000_0000 - 0x8000_0000_0000_0000
  }

  function Skew(now: int, ts: int): int {
    var d := Wrap64(now - ts);
    Wrap64(if d < 0 then -d else d)
  }

  function Distance(a: int, b: int): int {
    if a < b then b - a else a - b
  }

  /** The skew is the distance in time exactly when that fits into 63 bits. */
  lemma SkewIsDistance(now: int, ts: int)
    requires Decimal.IsI64(now) && Decimal.IsI64(ts)
    ensures Skew(now, ts) == Distance(now, ts) <==> Distance(now, ts) <= Decimal.I64_MAX
  {
  }

  /**
   Exactly which timestamps count as in time: those within the tolerance, and by wrap-around those
   half or almost all of the 64-bit range away.
   */
  lemma InTimeExactlyWhen(now: int, ts: int, tolerance: int)
    requires Decimal.IsI64(now) && Decimal.IsI64(ts) && 0 <= tolerance <= Decimal.I64_MAX
    ensures Skew(now, ts) <= tolerance <==>
      var d := Distance(now, ts);
      d <= tolerance || d == 0x8000_0000_0000_0000 || d >= 0x1_0000_0000_0000_0000 - tolerance
  {
  }

  /** At every clock reading since 1970 there is such a timestamp, whatever the tolerance. */
  lemma FarTimestampIsInTime(now: int, tolerance: int)
    requires 0 <= now <= Decimal.I64_MAX && 0 <= tolerance
    ensures Decimal.IsI64(now + Decimal.I64_MIN) && Skew(now, now + Decimal.I64_MIN) <= tolerance
  {
  }

  /** Where a text first occurs; its length if it does not. */
  function Find(s: string, what: string): (i: nat)
    ensures i <= |s|
  {
    if s == "" || what <= s then 0 else 1 + Find(s[1..], what)
  }

  lemma {:induction false} FindAfter(a: string, what: string, b: string)
    requires what != "" && what[0] !in a
    ensures Find(a + (what + b), what) == |a|
    decreases |a|
  {
    var s := a + (what + b);
    if a == "" {
      assert s == what + b;
    } else {
      assert s[0] == a[0] && s[1..] == a[1..] + (what + b);
      FindAfter(a[1..], what, b);
    }
  }

  /** The digest the verifier recomputes: the hex text after `v1=` of its own signature. */
  function Expected(mac: Mac, secret: string, ts: int, body: seq<byte>): (bytes: Option<seq<byte>>)
    ensures bytes == Some(mac(secret, Message(ts, body)))
  {
    var s := Sign(mac, secret, ts, body);
    ExpectedIsMac(mac, secret, ts, body);
    HexDecode(s[Find(s, "v1=") + 3..])
  }

  lemma ExpectedIsMac(mac: Mac, secret: string, ts: int, body: seq<byte>)
    ensures var s := Sign(mac, secret, ts, body);
      Find(s, "v1=") + 3 <= |s| && HexDecode(s[Find(s, "v1=") + 3..]) == Some(mac(secret, Message(ts, body)))
  {
    var digest := mac(secret, Message(ts, body));
    var s := Sign(mac, secret, ts, body);
    var a := TimePart(ts) + [','];
    assert 'v' !in a;
    assert s == a + ("v1=" + HexEncode(digest));
    FindAfter(a, "v1=", HexEncode(digest));
    assert s[|a| + 3..] == HexEncode(digest);
    HexRoundTrip(digest);
  }

  /** The header is accepted exactly when its mac is that of its own timestamp and the body, in time. */
  ghost predicate IsGenuine(mac: Mac, secret: string, header: string, body: seq<byte>, now: int, tolerance: int,
      ts: int)
  {
    var parts := Text.Split(header, ',');
    && Timestamp(parts) == Some(ts)
    && MacText(parts).Some?
    && HexDecode(MacText(parts).value) == Some(mac(secret, Message(ts, body)))
    && Skew(now, ts) <= tolerance
  }

  /** What is wrong with a header that is not genuine. */
  function Complaint(parts: seq<string>, now: int, tolerance: int): VerifyError {
    var ts, text := Timestamp(parts), MacText(parts);
    if ts.None? then NoTimestamp
    else if text.None? then NoMac
    else if Skew(now, ts.value) > tolerance then OutsideTolerance
    else if HexDecode(text.value).None? then NotHex
    else Mismatch
  }

  method Verify(mac: Mac, secret: string, header: string, body: seq<byte>, now: int, tolerance: int)
    returns (r: Result<int, VerifyError>)
    ensures forall ts :: r == Ok(ts) <==> IsGenuine(mac, secret, header, body, now, tolerance, ts)
    ensures r.Err? ==> r.error == Complaint(Text.Split(header, ','), now, tolerance)
  {
    var parts := Text.Split(header, ',');
    var ts: Option<int>, v1: Option<string> := None, None;
    for i := 0 to |parts|
      invariant ts == Timestamp(parts[..i]) && v1 == MacText(parts[..i])
    {
      assert parts[..i + 1][..i] == parts[..i];
      var field := Field(parts[i]);
      if field.Some? {
        if field.value.0 == "t" {
          ts := Decimal.ParseI64(field.value.1);
        } else if field.value.0 == "v1" {
          v1 := Some(field.value.1);
        }
      }
    }
    assert parts[..|parts|] == parts;
    if ts.None? {
      return Err(NoTimestamp);
    }
    if v1.None? {
      return Err(NoMac);
    }
    if Skew(now, ts.value) > tolerance {
      return Err(OutsideTolerance);
    }
    var got := HexDecode(v1.value);
    if got.None? {
      return Err(NotHex);
    }
    r := if got == Expected(mac, secret, ts.value, body) then Ok(ts.value) else Err(Mismatch);
  }

  // ---- signed headers --------------------------------------------------------------------------------

  lemma CleanField(name: string, value: string)
    requires '=' !in name
    requires forall i :: 0 <= i < |name + value| ==> !Text.IsWhitespace((name + value)[i]) && (name + value)[i] != ','
    ensures var s := name + ['='] + value;
      ',' !in s && Field(s) == Some((name, value))
  {
    var s := name + ['='] + value;
    forall i | 0 <= i < |s|
      ensures !Text.IsWhitespace(s[i]) && s[i] != ','
    {
      if i < |name| {
        assert s[i] == (name + value)[i];
      } else if i > |name| {
        assert s[i] == (name + value)[i - 1];
      }
    }
    Text.TrimOfClean(s);
    SplitOnceOf(name, '=', value);
  }

  lemma TimeField(ts: int)
    ensures ',' !in TimePart(ts) && Field(TimePart(ts)) == Some(("t", Decimal.PrintInt(ts)))
  {
    assert TimePart(ts) == "t" + ['='] + Decimal.PrintInt(ts);
    CleanField("t", Decimal.PrintInt(ts));
  }

  lemma MacField(digest: seq<byte>)
    ensures ',' !in MacPart(digest) && Field(MacPart(digest)) == Some(("v1", HexEncode(digest)))
  {
    assert MacPart(digest) == "v1" + ['='] + HexEncode(digest);
    HexIsPlain(digest);
    CleanField("v1", HexEncode(digest));
  }

  lemma FieldsOfSigned(a: string, b: string, number: string, text: string)
    requires Field(a) == Some(("t", number)) && Field(b) == Some(("v1", text))
    ensures Timestamp([a, b]) == Decimal.ParseI64(number) && MacText([a, b]) == Some(text)
  {
    assert [a, b][..1] == [a];
    assert "t"[0] != "v1"[0];
    assert !IsField(b, "t") && IsField(a, "t") && IsField(b, "v1");
  }

  /**
   Reading back a signed header, under any secret and with any body: the timestamp comes back, in
   time, exactly when the two messages have the same mac.
   */
  lemma SignedHeaderReadsBack(mac: Mac, secret: string, ts: int, body: seq<byte>, other: string, otherBody: seq<byte>,
      now: int, tolerance: int, u: int)
    requires Decimal.IsI64(ts)
    ensures IsGenuine(mac, other, Sign(mac, secret, ts, body), otherBody, now, tolerance, u) <==>
      u == ts && Skew(now, ts) <= tolerance && mac(other, Message(ts, otherBody)) == mac(secret, Message(ts, body))
  {
    var digest := mac(secret, Message(ts, body));
    var a, b := TimePart(ts), MacPart(digest);
    TimeField(ts);
    MacField(digest);
    Text.SplitFirst(a, ',', b);
    Text.SplitOne(b, ',');
    assert [a] + [b] == [a, b];
    FieldsOfSigned(a, b, Decimal.PrintInt(ts), HexEncode(digest));
    Decimal.ParseOfPrint(ts);
    HexRoundTrip(digest);
  }

  /** A signature verifies, under its own secret and body, exactly while it is in time. */
  lemma SignedHeaderVerifies(mac: Mac, secret: string, ts: int, body: seq<byte>, now: int, tolerance: int)
    requires Decimal.IsI64(ts)
    ensures IsGenuine(mac, secret, Sign(mac, secret, ts, body), body, now, tolerance, ts) <==>
      Skew(now, ts) <= tolerance
  {
    SignedHeaderReadsBack(mac, secret, ts, body, secret, body, now, tolerance, ts);
  }
}
