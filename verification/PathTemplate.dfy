/**
 Path templates of the command-line client (`crates/aurix-cli/src/openapi.rs`): one string
 replacement after another, each value percent-encoded as one path segment (sections 2.1 and
 2.3 of RFC 3986).
 */
module PathTemplate {
  import opened Words
  import opened Wrappers
  import Hex
  import Text
  import Utf8

  // ---- percent-encoding ----------------------------------------------------------------------------

  predicate IsUnreserved(b: byte) {
    || 65 <= b <= 90 || 97 <= b <= 122 || 48 <= b <= 57
    || b == 45 || b == 95 || b == 46 || b == 126
  }

  function EncodeByte(b: byte): (s: string)
    ensures s != ""
  {
    if IsUnreserved(b) then [b as char] else ['%', Hex.UpperDigit(b / 16), Hex.UpperDigit(b % 16)]
  }

  function EncodeBytes(bytes: seq<byte>): string {
    if bytes == [] then "" else EncodeByte(bytes[0]) + EncodeBytes(bytes[1..])
  }

  function Encoded(s: string): string {
    EncodeBytes(Utf8.Encode(s))
  }

  lemma {:induction false} EncodeSnoc(bytes: seq<byte>, b: byte)
    ensures EncodeBytes(bytes + [b]) == EncodeBytes(bytes) + EncodeByte(b)
    decreases |bytes|
  {
    var all := bytes + [b];
    if bytes == [] {
      assert all == [b] && all[1..] == [];
    } else {
      EncodeSnoc(bytes[1..], b);
      assert all[0] == bytes[0] && all[1..] == bytes[1..] + [b];
    }
  }

  /** The loop of the source: append one byte's form after the other. */
  method EncodeSegment(s: string) returns (out: string)
    ensures out == Encoded(s)
  {
    var bytes := Utf8.Encode(s);
    out := "";
    for i := 0 to |bytes|
      invariant out == EncodeBytes(bytes[..i])
    {
      var b := bytes[i];
      EncodeSnoc(bytes[..i], b);
      assert bytes[..i] + [b] == bytes[..i + 1];
      if IsUnreserved(b) {
        out := out + [b as char];
      } else {
        out := out + ['%', Hex.UpperDigit(b / 16), Hex.UpperDigit(b % 16)];
      }
    }
    assert bytes[..|bytes|] == bytes;
  }

  /** The inverse: percent triples become bytes, everything else stands for itself. */
  function DecodeBytes(s: string): Option<seq<byte>> {
    if s == "" then Some([])
    else if s[0] != '%' then
      var rest := DecodeBytes(s[1..]);
      if rest.Some? && s[0] as int < 256 then Some([s[0] as int] + rest.value) else None
    else if |s| >= 3 && Hex.Value(s[1]).Some? && Hex.Value(s[2]).Some? then
      var rest := DecodeBytes(s[3..]);
      if rest.Some? then Some([16 * Hex.Value(s[1]).value + Hex.Value(s[2]).value] + rest.value) else None
    else None
  }

  function Prepended(b: byte, rest: Option<seq<byte>>): Option<seq<byte>> {
    if rest.Some? then Some([b] + rest.value) else None
  }

  lemma DecodeTriple(hi: nat, lo: nat, rest: string)
    requires hi < 16 && lo < 16
    ensures DecodeBytes(['%', Hex.UpperDigit(hi), Hex.UpperDigit(lo)] + rest)
      == Prepended(16 * hi + lo, DecodeBytes(rest))
  {
    Hex.ValueOfDigit(hi);
    Hex.ValueOfDigit(lo);
    var s := ['%', Hex.UpperDigit(hi), Hex.UpperDigit(lo)] + rest;
    assert s[0] == '%' && s[1] == Hex.UpperDigit(hi) && s[2] == Hex.UpperDigit(lo) && s[3..] == rest;
  }

  lemma DecodeFirst(b: byte, rest: string)
    ensures DecodeBytes(EncodeByte(b) + rest) == Prepended(b, DecodeBytes(rest))
  {
    if IsUnreserved(b) {
      var s := EncodeByte(b) + rest;
      assert s[0] == b as char && s[1..] == rest;
    } else {
      DecodeTriple(b / 16, b % 16, rest);
    }
  }

  lemma {:induction false} DecodeOfEncode(bytes: seq<byte>)
    ensures DecodeBytes(EncodeBytes(bytes)) == Some(bytes)
    decreases |bytes|
  {
    if bytes != [] {
      DecodeOfEncode(bytes[1..]);
      DecodeFirst(bytes[0], EncodeBytes(bytes[1..]));
      assert [bytes[0]] + bytes[1..] == bytes;
    }
  }

  /** Different values have different encodings. */
  lemma EncodedIsInjective(s: string, t: string)
    requires Encoded(s) == Encoded(t)
    ensures s == t
  {
    DecodeOfEncode(Utf8.Encode(s));
    DecodeOfEncode(Utf8.Encode(t));
    Utf8.LossyOfEncode(s);
    Utf8.LossyOfEncode(t);
  }

  // ---- what is left as it is -----------------------------------------------------------------------

  /** Letters, digits and four marks. */
  predicate IsSafe(c: char) {
    'A' <= c <= 'Z' || 'a' <= c <= 'z' || '0' <= c <= '9' || c in "-._~"
  }

  predicate IsUpperHex(c: char) {
    '0' <= c <= '9' || 'A' <= c <= 'F'
  }

  /** Safe characters, and percent signs with two hexadecimal digits in upper case behind them. */
  predicate IsEscaped(s: string) {
    if s == "" then true
    else if s[0] == '%' then |s| >= 3 && IsUpperHex(s[1]) && IsUpperHex(s[2]) && IsEscaped(s[3..])
    else IsSafe(s[0]) && IsEscaped(s[1..])
  }

  lemma SafeAreUnreserved(c: char)
    ensures IsSafe(c) <==> c as int < 128 && IsUnreserved(c as int)
  {
  }

  lemma EncodeByteIsEscaped(b: byte, rest: string)
    requires IsEscaped(rest)
    ensures IsEscaped(EncodeByte(b) + rest)
  {
    var s := EncodeByte(b) + rest;
    if IsUnreserved(b) {
      SafeAreUnreserved(b as char);
      assert s[0] == b as char && s[1..] == rest;
    } else {
      assert s[0] == '%' && IsUpperHex(s[1]) && IsUpperHex(s[2]) && s[3..] == rest;
    }
  }

  lemma {:induction false} EncodedBytesAreEscaped(bytes: seq<byte>)
    ensures IsEscaped(EncodeBytes(bytes))
    decreases |bytes|
  {
    if bytes != [] {
      EncodedBytesAreEscaped(bytes[1..]);
      EncodeByteIsEscaped(bytes[0], EncodeBytes(bytes[1..]));
    }
  }

  /** No other character gets into a path. */
  lemma EncodedIsEscaped(s: string)
    ensures IsEscaped(Encoded(s))
  {
    EncodedBytesAreEscaped(Utf8.Encode(s));
  }

  /** Exactly the safe characters are left as they are; any other becomes one escape for each of its bytes. */
  lemma EncodedCharacter(c: char)
    ensures Encoded([c]) == [c] <==> IsSafe(c)
    ensures !IsSafe(c) ==> |Encoded([c])| == 3 * |Utf8.EncodeChar(c)|
  {
    SafeAreUnreserved(c);
    var bytes := Utf8.EncodeChar(c);
    assert [c][1..] == [] && Utf8.Encode([c]) == bytes + [] == bytes;
    if c as int < 128 {
      assert bytes == [c as int] && bytes[1..] == [];
      assert EncodeBytes(bytes) == EncodeByte(c as int) + "" == EncodeByte(c as int);
    } else {
      Utf8.HighBytes(c);
      HighBytesAreEscaped(bytes);
    }
  }

  /** Some known encodings. */
  lemma KnownEncodings()
    ensures Encoded("?") == "%3F" && Encoded(" ") == "%20" && Encoded("/") == "%2F" && Encoded("%") == "%25"
    ensures Encoded("\U{E9}") == "%C3%A9"
  {
    EncodedAscii('?');
    EncodedAscii(' ');
    EncodedAscii('/');
    EncodedAscii('%');
    var bytes := Utf8.EncodeChar('\U{E9}');
    assert bytes == [0xC3, 0xA9] && bytes[1..] == [0xA9] && [0xA9][1..] == [];
    assert EncodeBytes([0xA9]) == EncodeByte(0xA9) + EncodeBytes([]);
    assert EncodeBytes(bytes) == EncodeByte(0xC3) + EncodeBytes([0xA9]);
    EncodedOne('\U{E9}');
  }

  lemma EncodedOne(c: char)
    ensures Encoded([c]) == EncodeBytes(Utf8.EncodeChar(c))
  {
    assert [c][1..] == [];
    assert Utf8.Encode([c]) == Utf8.EncodeChar(c) + [] == Utf8.EncodeChar(c);
  }

  lemma EncodedAscii(c: char)
    requires c as int < 128
    ensures Encoded([c]) == EncodeByte(c as int)
  {
    EncodedOne(c);
    assert [c as int][1..] == [];
  }

  lemma {:induction false} HighBytesAreEscaped(bytes: seq<byte>)
    requires forall i :: 0 <= i < |bytes| ==> bytes[i] >= 128
    ensures |EncodeBytes(bytes)| == 3 * |bytes|
    decreases |bytes|
  {
    if bytes != [] {
      HighBytesAreEscaped(bytes[1..]);
    }
  }

  predicate IsBrace(c: char) {
    c == '{' || c == '}'
  }

  predicate BraceFree(s: string) {
    forall i :: 0 <= i < |s| ==> !IsBrace(s[i])
  }

  lemma EncodeByteIsPlain(b: byte)
    ensures BraceFree(EncodeByte(b)) && '/' !in EncodeByte(b)
  {
  }

  lemma {:induction false} EncodedIsPlain(bytes: seq<byte>)
    ensures BraceFree(EncodeBytes(bytes)) && '/' !in EncodeBytes(bytes)
    decreases |bytes|
  {
    if bytes != [] {
      EncodeByteIsPlain(bytes[0]);
      EncodedIsPlain(bytes[1..]);
    }
  }

  // ---- replacement ---------------------------------------------------------------------------------

  /** Rust's `str::replace`: non-overlapping occurrences, left to right. */
  function Replace(s: string, what: string, with: string): string
    requires what != ""
  {
    if s == "" then ""
    else if what <= s then with + Replace(s[|what|..], what, with)
    else [s[0]] + Replace(s[1..], what, with)
  }

  function Placeholder(name: string): (s: string)
    ensures |s| == |name| + 2 && s[0] == '{'
  {
    "{" + name + "}"
  }

  /** One replacement after the other, in the order of the declared parameters. */
  function Sequential(path: string, names: seq<string>, values: map<string, string>): string
    requires forall i :: 0 <= i < |names| ==> names[i] in values
    decreases names
  {
    if names == [] then path
    else Sequential(Replace(path, Placeholder(names[0]), Encoded(values[names[0]])), names[1..], values)
  }

  lemma SequentialStep(path: string, names: seq<string>, values: map<string, string>, i: nat)
    requires i < |names|
    ensures Usable(names, values) ==>
      Sequential(path, names[i..], values)
      == Sequential(Replace(path, Placeholder(names[i]), Encoded(values[names[i]])), names[i + 1..], values)
  {
    assert names[i..][1..] == names[i + 1..];
  }

  datatype RenderError = Missing(name: string) | Empty(name: string) | NotAParameter(name: string)

  predicate HasValue(name: string, values: map<string, string>) {
    name in values && values[name] != ""
  }

  predicate Usable(names: seq<string>, values: map<string, string>) {
    forall i :: 0 <= i < |names| ==> HasValue(names[i], values)
  }

  function Strays(names: seq<string>, values: map<string, string>): set<string> {
    set k | k in values && k !in names
  }

  /** The order of the keys of a sorted map: by characters, which is the order of their UTF-8 bytes. */
  predicate Before(a: string, b: string) {
    b != "" && (a == "" || a[0] < b[0] || (a[0] == b[0] && Before(a[1..], b[1..])))
  }

  lemma {:induction false} BeforeIsTransitive(a: string, b: string, c: string)
    requires Before(a, b) && Before(b, c)
    ensures Before(a, c)
    decreases |a|
  {
    if a != "" && a[0] == b[0] == c[0] {
      BeforeIsTransitive(a[1..], b[1..], c[1..]);
    }
  }

  lemma {:induction false} NotBeforeItself(a: string)
    ensures !Before(a, a)
    decreases |a|
  {
    if a != "" {
      NotBeforeItself(a[1..]);
    }
  }

  predicate IsLeast(k: string, keys: set<string>) {
    forall other :: other in keys ==> !Before(other, k)
  }

  /** The first key in the order of the map. */
  method Least(keys: set<string>) returns (k: string)
    requires keys != {}
    ensures k in keys && IsLeast(k, keys)
  {
    k :| k in keys;
    NotBeforeItself(k);
    var left := keys - {k};
    while left != {}
      invariant k in keys && left <= keys && IsLeast(k, keys - left)
      decreases |left|
    {
      var next :| next in left;
      if Before(next, k) {
        LowerIsLeast(next, k, keys - left);
        k := next;
      }
      left := left - {next};
    }
  }

  lemma LowerIsLeast(next: string, k: string, keys: set<string>)
    requires Before(next, k) && IsLeast(k, keys)
    ensures IsLeast(next, keys + {next})
  {
    NotBeforeItself(next);
    forall other | other in keys
      ensures !Before(other, next)
    {
      if Before(other, next) {
        BeforeIsTransitive(other, next, k);
      }
    }
  }

  /** The error the source reports: the first parameter without a value, then the first stray one. */
  ghost predicate Refused(names: seq<string>, values: map<string, string>, e: RenderError) {
    match e
    case NotAParameter(k) => Usable(names, values) && k in Strays(names, values) && IsLeast(k, Strays(names, values))
    case Missing(name) => FirstUnusable(names, values, name) && name !in values
    case Empty(name) => FirstUnusable(names, values, name) && name in values
  }

  ghost predicate FirstUnusable(names: seq<string>, values: map<string, string>, name: string) {
    exists i :: 0 <= i < |names| && names[i] == name && !HasValue(name, values)
      && forall j :: 0 <= j < i ==> HasValue(names[j], values)
  }

  /** Renders when every parameter has a non-empty value and nothing else is given. */
  method RenderPath(path: string, names: seq<string>, values: map<string, string>)
    returns (r: Result<string, RenderError>)
    ensures r.Ok? ==>
      Usable(names, values) && r.value == Sequential(path, names, values) && forall k :: k in values ==> k in names
    ensures r.Ok? <==>
      && (forall i :: 0 <= i < |names| ==> names[i] in values && values[names[i]] != "")
      && (forall k :: k in values ==> k in names)
    ensures r.Err? ==> Refused(names, values, r.error)
  {
    var rendered := path;
    for i := 0 to |names|
      invariant forall j :: 0 <= j < i ==> HasValue(names[j], values)
      invariant Usable(names, values) ==> Sequential(path, names, values) == Sequential(rendered, names[i..], values)
    {
      var name := names[i];
      if name !in values {
        return Err(Missing(name));
      }
      if values[name] == "" {
        return Err(Empty(name));
      }
      var encoded := EncodeSegment(values[name]);
      SequentialStep(rendered, names, values, i);
      rendered := Replace(rendered, Placeholder(name), encoded);
    }
    var strays := Strays(names, values);
    if strays != {} {
      var k := Least(strays);
      return Err(NotAParameter(k));
    }
    assert forall k :: k in values ==> k in names || k in strays;
    r := Ok(rendered);
  }

  // ---- simultaneous substitution ---------------------------------------------------------------------

  /** A template whose braces only enclose names. */
  datatype Piece = Plain(text: string) | Hole(name: string)

  predicate WellFormed(pieces: seq<Piece>) {
    forall i :: 0 <= i < |pieces| ==> BraceFree(if pieces[i].Plain? then pieces[i].text else pieces[i].name)
  }

  function ShowPiece(p: Piece): string {
    if p.Plain? then p.text else Placeholder(p.name)
  }

  function Show(pieces: seq<Piece>): string {
    if pieces == [] then "" else ShowPiece(pieces[0]) + Show(pieces[1..])
  }

  /** Fill one hole, everywhere it occurs. */
  function FillPiece(p: Piece, name: string, text: string): Piece {
    if p == Hole(name) then Plain(text) else p
  }

  function Fill(pieces: seq<Piece>, name: string, text: string): (r: seq<Piece>)
    ensures |r| == |pieces| && forall i :: 0 <= i < |r| ==> r[i] == FillPiece(pieces[i], name, text)
  {
    seq(|pieces|, i requires 0 <= i < |pieces| => FillPiece(pieces[i], name, text))
  }

  /** Fill all holes at once. */
  function SubstitutePiece(p: Piece, names: seq<string>, values: map<string, string>): Piece
    requires forall i :: 0 <= i < |names| ==> names[i] in values
  {
    if p.Hole? && p.name in names then Plain(Encoded(values[p.name])) else p
  }

  function Substitute(pieces: seq<Piece>, names: seq<string>, values: map<string, string>): (r: seq<Piece>)
    requires forall i :: 0 <= i < |names| ==> names[i] in values
    ensures |r| == |pieces| && forall i :: 0 <= i < |r| ==> r[i] == SubstitutePiece(pieces[i], names, values)
  {
    seq(|pieces|, i requires 0 <= i < |pieces| => SubstitutePiece(pieces[i], names, values))
  }

  /** A pattern that starts with a brace is not found inside brace-free text. */
  lemma {:induction false} ReplaceSkips(text: string, rest: string, what: string, with: string)
    requires what != "" && what[0] == '{' && '{' !in text
    ensures Replace(text + rest, what, with) == text + Replace(rest, what, with)
    decreases |text|
  {
    if text == "" {
      assert text + rest == rest;
    } else {
      var s := text + rest;
      assert s[0] == text[0] && text[0] in text && s[1..] == text[1..] + rest;
      ReplaceSkips(text[1..], rest, what, with);
      assert [text[0]] + text[1..] == text;
    }
  }

  /** A placeholder is found at the head of a text only if it is the one there. */
  lemma PlaceholderAtHead(name: string, other: string, rest: string)
    requires BraceFree(name) && BraceFree(other)
    ensures Placeholder(name) <= Placeholder(other) + rest <==> name == other
  {
    var s := Placeholder(other) + rest;
    var p := Placeholder(name);
    if p <= s {
      assert p[|name| + 1] == '}' && s[|other| + 1] == '}';
      assert |name| == |other|;
      forall i | 0 <= i < |name|
        ensures name[i] == other[i]
      {
        assert p[i + 1] == s[i + 1];
      }
    }
  }

  lemma ReplaceHead(p: Piece, rest: string, name: string, with: string)
    requires BraceFree(name) && BraceFree(if p.Plain? then p.text else p.name)
    ensures Replace(ShowPiece(p) + rest, Placeholder(name), with)
         == ShowPiece(FillPiece(p, name, with)) + Replace(rest, Placeholder(name), with)
  {
    var what := Placeholder(name);
    if p.Plain? {
      ReplaceSkips(p.text, rest, what, with);
    } else {
      var s := Placeholder(p.name) + rest;
      PlaceholderAtHead(name, p.name, rest);
      if p.name == name {
        assert s[|what|..] == rest;
      } else {
        var tail := p.name + "}";
        assert s[1..] == tail + rest && ['{'] + tail == Placeholder(p.name);
        ReplaceSkips(tail, rest, what, with);
        assert ['{'] + (tail + Replace(rest, what, with)) == Placeholder(p.name) + Replace(rest, what, with);
      }
    }
  }

  lemma {:induction false} ReplaceFills(pieces: seq<Piece>, name: string, with: string)
    requires WellFormed(pieces) && BraceFree(name)
    ensures Replace(Show(pieces), Placeholder(name), with) == Show(Fill(pieces, name, with))
    decreases |pieces|
  {
    if pieces != [] {
      ReplaceHead(pieces[0], Show(pieces[1..]), name, with);
      ReplaceFills(pieces[1..], name, with);
      assert Fill(pieces, name, with)[1..] == Fill(pieces[1..], name, with);
    }
  }

  /**
   On a template whose braces only enclose names, replacing the placeholders one after the other
   is replacing them all at once.
   */
  lemma {:induction false} SequentialIsSimultaneous(pieces: seq<Piece>, names: seq<string>, values: map<string, string>)
    requires WellFormed(pieces) && forall i :: 0 <= i < |names| ==> names[i] in values && BraceFree(names[i])
    ensures Sequential(Show(pieces), names, values) == Show(Substitute(pieces, names, values))
    decreases |names|
  {
    if names == [] {
      assert Substitute(pieces, names, values) == pieces;
    } else {
      var name := names[0];
      var filled := Fill(pieces, name, Encoded(values[name]));
      ReplaceFills(pieces, name, Encoded(values[name]));
      EncodedIsPlain(Utf8.Encode(values[name]));
      SequentialIsSimultaneous(filled, names[1..], values);
      SubstituteFirst(pieces, names, values);
    }
  }

  lemma SubstituteFirst(pieces: seq<Piece>, names: seq<string>, values: map<string, string>)
    requires names != [] && forall i :: 0 <= i < |names| ==> names[i] in values
    ensures Substitute(Fill(pieces, names[0], Encoded(values[names[0]])), names[1..], values)
      == Substitute(pieces, names, values)
  {
    assert names == [names[0]] + names[1..];
  }

  /** Braces open and close in turn. */
  predicate Flat(path: string, inside: bool) {
    if path == "" then !inside
    else if path[0] == '{' then !inside && Flat(path[1..], true)
    else if path[0] == '}' then inside && Flat(path[1..], false)
    else Flat(path[1..], inside)
  }

  lemma {:induction false} ClosingBrace(path: string) returns (k: nat)
    requires Flat(path, true)
    ensures k < |path| && path[k] == '}' && BraceFree(path[..k]) && Flat(path[k + 1..], false)
    decreases |path|
  {
    if path[0] == '}' {
      k := 0;
    } else {
      var rest := path[1..];
      var j := ClosingBrace(rest);
      k := j + 1;
      assert path[..k] == [path[0]] + rest[..j] && path[k + 1..] == rest[j + 1..];
    }
  }

  lemma HoleAtHead(path: string, k: nat)
    requires path != "" && path[0] == '{' && k < |path[1..]| && path[1..][k] == '}'
    ensures path == Placeholder(path[1..][..k]) + path[1..][k + 1..]
  {
  }

  lemma PieceAtHead(p: Piece, rest: seq<Piece>)
    requires WellFormed(rest) && BraceFree(if p.Plain? then p.text else p.name)
    ensures WellFormed([p] + rest) && Show([p] + rest) == ShowPiece(p) + Show(rest)
  {
    assert ([p] + rest)[1..] == rest;
  }

  /** The templates meant here are the texts whose braces open and close in turn. */
  lemma {:induction false} FlatTextHasPieces(path: string) returns (pieces: seq<Piece>)
    requires Flat(path, false)
    ensures WellFormed(pieces) && Show(pieces) == path
    decreases |path|
  {
    if path == "" {
      pieces := [];
    } else if path[0] == '{' {
      var inner := path[1..];
      var k := ClosingBrace(inner);
      var rest := FlatTextHasPieces(inner[k + 1..]);
      pieces := [Hole(inner[..k])] + rest;
      HoleAtHead(path, k);
      PieceAtHead(Hole(inner[..k]), rest);
    } else {
      var rest := FlatTextHasPieces(path[1..]);
      pieces := [Plain([path[0]])] + rest;
      PieceAtHead(Plain([path[0]]), rest);
    }
  }

  /** The condition is needed: a nested placeholder can complete another one. */
  lemma NestedBracesDiffer()
    ensures var values := map["a" := "x", "xb" := "y"];
      Sequential("{{a}b}", ["a", "xb"], values) == "y" != "{xb}"
  {
    var values := map["a" := "x", "xb" := "y"];
    EncodedIsSame("x");
    EncodedIsSame("y");
    assert Placeholder("a") == "{a}" && Placeholder("xb") == "{xb}";
    InnerBracesReplaced();
    WholeReplaced("{xb}", "y");
    SequentialOfTwo("{{a}b}", "a", "xb", values);
  }

  lemma WholeReplaced(what: string, with: string)
    requires what != ""
    ensures Replace(what, what, with) == with
  {
    assert what[|what|..] == "";
  }

  lemma InnerBracesReplaced()
    ensures Replace("{{a}b}", "{a}", "x") == "{xb}"
  {
    var path := "{{a}b}";
    assert "{a}"[1] != path[1];
    assert path[1..] == "{a}b}" && "{a}b}"[3..] == "b}";
    assert Replace("{a}b}", "{a}", "x") == "x" + Replace("b}", "{a}", "x");
    ReplaceSkips("b}", "", "{a}", "x");
    assert "b}" + "" == "b}";
  }

  lemma SequentialOfTwo(path: string, a: string, b: string, values: map<string, string>)
    requires a in values && b in values
    ensures Sequential(path, [a, b], values)
      == Replace(Replace(path, Placeholder(a), Encoded(values[a])), Placeholder(b), Encoded(values[b]))
  {
    var half := Replace(path, Placeholder(a), Encoded(values[a]));
    assert [a, b][1..] == [b] && [b][1..] == [];
    assert Sequential(path, [a, b], values) == Sequential(half, [b], values);
    assert Sequential(half, [b], values)
        == Sequential(Replace(half, Placeholder(b), Encoded(values[b])), [], values);
  }

  // ---- segments --------------------------------------------------------------------------------------

  function Count(s: string, c: char): nat {
    if s == "" then 0 else (if s[0] == c then 1 else 0) + Count(s[1..], c)
  }

  lemma {:induction false} CountAppend(s: string, t: string, c: char)
    ensures Count(s + t, c) == Count(s, c) + Count(t, c)
    decreases |s|
  {
    if s == "" {
      assert s + t == t;
    } else {
      assert (s + t)[1..] == s[1..] + t;
      CountAppend(s[1..], t, c);
    }
  }

  lemma {:induction false} CountOfNone(s: string, c: char)
    requires c !in s
    ensures Count(s, c) == 0
    decreases |s|
  {
    if s != "" {
      CountOfNone(s[1..], c);
    }
  }

  lemma {:induction false} SplitCount(s: string, sep: char)
    ensures |Text.Split(s, sep)| == 1 + Count(s, sep)
    decreases |s|
  {
    if s != "" {
      SplitCount(s[1..], sep);
    }
  }

  /** No parameter has a slash in its name. */
  predicate SlashFreeHoles(pieces: seq<Piece>) {
    forall i :: 0 <= i < |pieces| && pieces[i].Hole? ==> '/' !in pieces[i].name
  }

  lemma SubstituteKeepsSlashes(p: Piece, names: seq<string>, values: map<string, string>)
    requires forall i :: 0 <= i < |names| ==> names[i] in values
    requires p.Hole? ==> '/' !in p.name
    ensures Count(ShowPiece(SubstitutePiece(p, names, values)), '/') == Count(ShowPiece(p), '/')
  {
    if p.Hole? && p.name in names {
      EncodedIsPlain(Utf8.Encode(values[p.name]));
      CountOfNone(Encoded(values[p.name]), '/');
      CountOfNone(Placeholder(p.name), '/');
    }
  }

  lemma {:induction false} ShowKeepsSlashes(pieces: seq<Piece>, names: seq<string>, values: map<string, string>)
    requires SlashFreeHoles(pieces) && forall i :: 0 <= i < |names| ==> names[i] in values
    ensures Count(Show(Substitute(pieces, names, values)), '/') == Count(Show(pieces), '/')
    decreases |pieces|
  {
    if pieces != [] {
      var filled := Substitute(pieces, names, values);
      SubstituteKeepsSlashes(pieces[0], names, values);
      ShowKeepsSlashes(pieces[1..], names, values);
      assert filled[1..] == Substitute(pieces[1..], names, values);
      CountAppend(ShowPiece(pieces[0]), Show(pieces[1..]), '/');
      CountAppend(ShowPiece(filled[0]), Show(filled[1..]), '/');
    }
  }

  /** Rendering keeps the number of segments, whatever stands next to the parameters. */
  lemma SegmentCountIsKept(pieces: seq<Piece>, names: seq<string>, values: map<string, string>)
    requires WellFormed(pieces) && SlashFreeHoles(pieces)
    requires forall i :: 0 <= i < |names| ==> names[i] in values && BraceFree(names[i])
    ensures |Text.Split(Sequential(Show(pieces), names, values), '/')| == |Text.Split(Show(pieces), '/')|
  {
    SequentialIsSimultaneous(pieces, names, values);
    ShowKeepsSlashes(pieces, names, values);
    SplitCount(Show(pieces), '/');
    SplitCount(Show(Substitute(pieces, names, values)), '/');
  }

  // ---- templates by segments -------------------------------------------------------------------------

  lemma {:induction false} ShowAppend(a: seq<Piece>, b: seq<Piece>)
    ensures Show(a + b) == Show(a) + Show(b)
    decreases |a|
  {
    if a == [] {
      assert a + b == b;
    } else {
      assert (a + b)[1..] == a[1..] + b;
      ShowAppend(a[1..], b);
    }
  }

  /** A template from its segments. */
  function Joined(segments: seq<seq<Piece>>): seq<Piece>
    requires segments != []
  {
    if |segments| == 1 then segments[0] else segments[0] + [Plain("/")] + Joined(segments[1..])
  }

  function ShowAll(segments: seq<seq<Piece>>): (r: seq<string>)
    ensures |r| == |segments| && forall i :: 0 <= i < |r| ==> r[i] == Show(segments[i])
  {
    seq(|segments|, i requires 0 <= i < |segments| => Show(segments[i]))
  }

  function SubstituteAll(segments: seq<seq<Piece>>, names: seq<string>,
      values: map<string, string>): (r: seq<seq<Piece>>)
    requires forall i :: 0 <= i < |names| ==> names[i] in values
    ensures |r| == |segments| && forall i :: 0 <= i < |r| ==> r[i] == Substitute(segments[i], names, values)
  {
    seq(|segments|, i requires 0 <= i < |segments| => Substitute(segments[i], names, values))
  }

  predicate AllWellFormed(segments: seq<seq<Piece>>) {
    forall i :: 0 <= i < |segments| ==> WellFormed(segments[i]) && '/' !in Show(segments[i])
  }

  lemma {:induction false} ShowJoined(segments: seq<seq<Piece>>)
    requires segments != []
    ensures Show(Joined(segments)) == Text.Join(ShowAll(segments), '/')
    decreases |segments|
  {
    if |segments| > 1 {
      var rest := Joined(segments[1..]);
      ShowJoined(segments[1..]);
      ShowAppend(segments[0] + [Plain("/")], rest);
      ShowAppend(segments[0], [Plain("/")]);
      ShowOne("/");
      assert ShowAll(segments)[1..] == ShowAll(segments[1..]);
    }
  }

  lemma ShowOne(text: string)
    ensures Show([Plain(text)]) == text
  {
    assert [Plain(text)][1..] == [];
    assert text + "" == text;
  }

  lemma SubstituteSplit(a: seq<Piece>, b: seq<Piece>, names: seq<string>, values: map<string, string>)
    requires forall i :: 0 <= i < |names| ==> names[i] in values
    ensures Substitute(a + b, names, values) == Substitute(a, names, values) + Substitute(b, names, values)
  {
  }

  lemma {:induction false} SubstituteJoined(segments: seq<seq<Piece>>, names: seq<string>, values: map<string, string>)
    requires segments != [] && forall i :: 0 <= i < |names| ==> names[i] in values
    ensures Substitute(Joined(segments), names, values) == Joined(SubstituteAll(segments, names, values))
    decreases |segments|
  {
    if |segments| > 1 {
      var slash, rest := [Plain("/")], Joined(segments[1..]);
      SubstituteJoined(segments[1..], names, values);
      assert SubstituteAll(segments, names, values)[1..] == SubstituteAll(segments[1..], names, values);
      SubstituteSplit(segments[0] + slash, rest, names, values);
      SubstituteSplit(segments[0], slash, names, values);
      assert Substitute(slash, names, values) == slash;
    }
  }

  lemma {:induction false} JoinedIsWellFormed(segments: seq<seq<Piece>>)
    requires segments != [] && AllWellFormed(segments)
    ensures WellFormed(Joined(segments))
    decreases |segments|
  {
    if |segments| > 1 {
      JoinedIsWellFormed(segments[1..]);
    }
  }

  lemma {:induction false} SubstitutedIsSlashFree(pieces: seq<Piece>, names: seq<string>, values: map<string, string>)
    requires '/' !in Show(pieces) && forall i :: 0 <= i < |names| ==> names[i] in values
    ensures '/' !in Show(Substitute(pieces, names, values))
    decreases |pieces|
  {
    if pieces != [] {
      var filled := Substitute(pieces, names, values);
      assert filled[1..] == Substitute(pieces[1..], names, values);
      SubstitutedIsSlashFree(pieces[1..], names, values);
      if pieces[0].Hole? && pieces[0].name in names {
        EncodedIsPlain(Utf8.Encode(values[pieces[0].name]));
      }
    }
  }

  /** Rendering keeps the segments apart: each segment of the result is the rendering of its own. */
  lemma RenderedSegments(segments: seq<seq<Piece>>, names: seq<string>, values: map<string, string>)
    requires segments != [] && AllWellFormed(segments)
    requires forall i :: 0 <= i < |names| ==> names[i] in values && BraceFree(names[i])
    ensures Text.Split(Show(Joined(segments)), '/') == ShowAll(segments)
    ensures Text.Split(Sequential(Show(Joined(segments)), names, values), '/')
      == ShowAll(SubstituteAll(segments, names, values))
  {
    var filled := SubstituteAll(segments, names, values);
    forall i | 0 <= i < |filled|
      ensures '/' !in Show(filled[i])
    {
      SubstitutedIsSlashFree(segments[i], names, values);
    }
    ShowJoined(segments);
    ShowJoined(filled);
    Text.SplitOfJoin(ShowAll(segments), '/');
    Text.SplitOfJoin(ShowAll(filled), '/');
    JoinedIsWellFormed(segments);
    SequentialIsSimultaneous(Joined(segments), names, values);
    SubstituteJoined(segments, names, values);
  }

  // ---- reading a path back ---------------------------------------------------------------------------

  /** A character that no encoded value contains. */
  predicate IsSeparator(c: char) {
    c != '%' && !(c as int < 256 && IsUnreserved(c as int))
  }

  /** Where the first separator is, or the length of the text. */
  function FirstSeparator(s: string): (k: nat)
    ensures k <= |s|
  {
    if s == "" || IsSeparator(s[0]) then 0 else 1 + FirstSeparator(s[1..])
  }

  lemma EncodeByteHasNoSeparator(b: byte)
    ensures forall i :: 0 <= i < |EncodeByte(b)| ==> !IsSeparator(EncodeByte(b)[i])
  {
  }

  lemma {:induction false} EncodedHasNoSeparator(bytes: seq<byte>)
    ensures FirstSeparator(EncodeBytes(bytes)) == |EncodeBytes(bytes)|
  {
    if bytes != [] {
      EncodedHasNoSeparator(bytes[1..]);
      EncodeByteHasNoSeparator(bytes[0]);
      NoneSoFar(EncodeByte(bytes[0]), EncodeBytes(bytes[1..]));
    }
  }

  lemma {:induction false} NoneSoFar(a: string, b: string)
    requires forall i :: 0 <= i < |a| ==> !IsSeparator(a[i])
    ensures FirstSeparator(a + b) == |a| + FirstSeparator(b)
  {
    if a == "" {
      assert a + b == b;
    } else {
      assert (a + b)[1..] == a[1..] + b;
      NoneSoFar(a[1..], b);
    }
  }

  /** What comes first decides, or is skipped. */
  lemma {:induction false} FirstOfAppend(a: string, b: string)
    ensures FirstSeparator(a + b) == if FirstSeparator(a) < |a| then FirstSeparator(a) else |a| + FirstSeparator(b)
  {
    if a == "" {
      assert a + b == b;
    } else {
      assert (a + b)[1..] == a[1..] + b;
      FirstOfAppend(a[1..], b);
    }
  }

  /** Text with a separator comes before the next parameter, or there is no next one. */
  predicate Separates(rest: seq<Piece>) {
    rest == [] || (rest[0].Plain? && (FirstSeparator(rest[0].text) < |rest[0].text| || Separates(rest[1..])))
  }

  /** Between any two parameters of a segment there is text with a separator. */
  predicate Separated(segment: seq<Piece>) {
    segment == [] || (Separated(segment[1..]) && (segment[0].Hole? ==> Separates(segment[1..])))
  }

  /** A segment with at most one parameter is separated, whatever text is around it. */
  lemma {:induction false} OneHoleIsSeparated(segment: seq<Piece>)
    requires forall i, j :: 0 <= i < j < |segment| ==> segment[i].Plain? || segment[j].Plain?
    ensures Separated(segment)
    decreases |segment|
  {
    if segment != [] {
      OneHoleIsSeparated(segment[1..]);
      if segment[0].Hole? {
        assert forall j :: 0 <= j < |segment| - 1 ==> segment[1..][j] == segment[j + 1];
        PlainSeparates(segment[1..]);
      }
    }
  }

  lemma {:induction false} PlainSeparates(rest: seq<Piece>)
    requires forall i :: 0 <= i < |rest| ==> rest[i].Plain?
    ensures Separates(rest)
    decreases |rest|
  {
    if rest != [] {
      PlainSeparates(rest[1..]);
    }
  }

  lemma ShowFirst(pieces: seq<Piece>, names: seq<string>, values: map<string, string>)
    requires pieces != [] && HasAll(values, names)
    ensures Show(Substitute(pieces, names, values))
         == ShowPiece(SubstitutePiece(pieces[0], names, values)) + Show(Substitute(pieces[1..], names, values))
  {
    assert Substitute(pieces, names, values)[1..] == Substitute(pieces[1..], names, values);
  }

  /** Where the next separator comes does not depend on values further behind. */
  lemma {:induction false} SeparatorIsFixed(rest: seq<Piece>, names: seq<string>, v: map<string, string>,
      w: map<string, string>)
    requires Separates(rest) && HasAll(v, names) && HasAll(w, names)
    ensures FirstSeparator(Show(Substitute(rest, names, v))) == FirstSeparator(Show(Substitute(rest, names, w)))
    decreases |rest|
  {
    if rest != [] {
      ShowFirst(rest, names, v);
      ShowFirst(rest, names, w);
      FirstOfAppend(rest[0].text, Show(Substitute(rest[1..], names, v)));
      FirstOfAppend(rest[0].text, Show(Substitute(rest[1..], names, w)));
      if FirstSeparator(rest[0].text) == |rest[0].text| {
        SeparatorIsFixed(rest[1..], names, v, w);
      }
    }
  }

  /** Two encoded values before the same separator are the same. */
  lemma SameHead(x: string, a: string, y: string, b: string)
    requires Encoded(x) + a == Encoded(y) + b && FirstSeparator(a) == FirstSeparator(b)
    ensures x == y && a == b
  {
    EncodedHasNoSeparator(Utf8.Encode(x));
    EncodedHasNoSeparator(Utf8.Encode(y));
    FirstOfAppend(Encoded(x), a);
    FirstOfAppend(Encoded(y), b);
    SameParts(Encoded(x), a, Encoded(y), b);
    EncodedIsInjective(x, y);
  }

  lemma SameParts(x: string, a: string, y: string, b: string)
    requires x + a == y + b && |x| == |y|
    ensures x == y && a == b
  {
    assert x == (x + a)[..|x|] && a == (x + a)[|x|..];
    assert y == (y + b)[..|y|] && b == (y + b)[|y|..];
  }

  /** The text of a separated segment determines every parameter in it. */
  lemma {:induction false} SegmentDetermines(segment: seq<Piece>, names: seq<string>, v: map<string, string>,
      w: map<string, string>, i: nat)
    requires HasAll(v, names) && HasAll(w, names)
    requires Separated(segment) && i < |segment| && segment[i].Hole? && segment[i].name in names
    requires Show(Substitute(segment, names, v)) == Show(Substitute(segment, names, w))
    ensures v[segment[i].name] == w[segment[i].name]
    decreases |segment|
  {
    var a, b := Show(Substitute(segment[1..], names, v)), Show(Substitute(segment[1..], names, w));
    ShowFirst(segment, names, v);
    ShowFirst(segment, names, w);
    if segment[0].Hole? && segment[0].name in names {
      SeparatorIsFixed(segment[1..], names, v, w);
      SameHead(v[segment[0].name], a, w[segment[0].name], b);
    } else {
      SameParts(ShowPiece(segment[0]), a, ShowPiece(segment[0]), b);
    }
    if i > 0 {
      SegmentDetermines(segment[1..], names, v, w, i - 1);
    }
  }

  /** Some segment has this parameter. */
  ghost predicate HasHole(segments: seq<seq<Piece>>, name: string) {
    exists i, j :: 0 <= i < |segments| && 0 <= j < |segments[i]| && segments[i][j] == Hole(name)
  }

  lemma SegmentsDetermine(segments: seq<seq<Piece>>, names: seq<string>, v: map<string, string>,
      w: map<string, string>, k: string)
    requires forall i :: 0 <= i < |segments| ==> Separated(segments[i])
    requires HasAll(v, names) && HasAll(w, names)
    requires k in names && HasHole(segments, k)
    requires ShowAll(SubstituteAll(segments, names, v)) == ShowAll(SubstituteAll(segments, names, w))
    ensures v[k] == w[k]
  {
    var i, j :| 0 <= i < |segments| && 0 <= j < |segments[i]| && segments[i][j] == Hole(k);
    assert ShowAll(SubstituteAll(segments, names, v))[i] == ShowAll(SubstituteAll(segments, names, w))[i];
    SegmentDetermines(segments[i], names, v, w, j);
  }

  /** The parameters in each segment are separated, and every parameter is in some. */
  ghost predicate IsReadable(segments: seq<seq<Piece>>, names: seq<string>) {
    && segments != [] && AllWellFormed(segments)
    && (forall i :: 0 <= i < |segments| ==> Separated(segments[i]))
    && (forall i :: 0 <= i < |names| ==> BraceFree(names[i]) && HasHole(segments, names[i]))
  }

  /** A value for every parameter. */
  ghost predicate HasAll(values: map<string, string>, names: seq<string>) {
    forall i :: 0 <= i < |names| ==> names[i] in values
  }

  lemma SameSegments(segments: seq<seq<Piece>>, names: seq<string>, v: map<string, string>, w: map<string, string>)
    requires IsReadable(segments, names) && HasAll(v, names) && HasAll(w, names)
    requires Sequential(Show(Joined(segments)), names, v) == Sequential(Show(Joined(segments)), names, w)
    ensures ShowAll(SubstituteAll(segments, names, v)) == ShowAll(SubstituteAll(segments, names, w))
  {
    RenderedSegments(segments, names, v);
    RenderedSegments(segments, names, w);
  }

  lemma SameValues(segments: seq<seq<Piece>>, names: seq<string>, v: map<string, string>, w: map<string, string>)
    requires IsReadable(segments, names) && HasAll(v, names) && HasAll(w, names)
    requires ShowAll(SubstituteAll(segments, names, v)) == ShowAll(SubstituteAll(segments, names, w))
    ensures forall k :: k in names ==> v[k] == w[k]
  {
    forall k | k in names
      ensures v[k] == w[k]
    {
      SegmentsDetermine(segments, names, v, w, k);
    }
  }

  /**
   A template whose parameters are separated in each segment can be read back: two sets of values
   that render to the same path are equal.
   */
  lemma RenderingIsInjective(segments: seq<seq<Piece>>, names: seq<string>, v: map<string, string>,
      w: map<string, string>)
    requires IsReadable(segments, names) && HasAll(v, names) && HasAll(w, names)
    requires (forall k :: k in v ==> k in names) && (forall k :: k in w ==> k in names)
    requires Sequential(Show(Joined(segments)), names, v) == Sequential(Show(Joined(segments)), names, w)
    ensures v == w
  {
    SameSegments(segments, names, v, w);
    SameValues(segments, names, v, w);
    SameMaps(v, w, names);
  }

  lemma SameMaps(v: map<string, string>, w: map<string, string>, names: seq<string>)
    requires HasAll(v, names) && HasAll(w, names)
    requires (forall k :: k in v ==> k in names) && (forall k :: k in w ==> k in names)
    requires forall k :: k in names ==> k in v && k in w && v[k] == w[k]
    ensures v == w
  {
  }

  /** Text that is the same encoded. */
  predicate AllUnreserved(s: string) {
    forall i :: 0 <= i < |s| ==> s[i] as int < 256 && IsUnreserved(s[i] as int)
  }

  /** Two parameters with only unreserved text between them, or none, can never be told apart. */
  lemma UnseparatedIsAmbiguous(x: string, y: string, text: string, a: string, b: string, c: string)
    requires x != y && b != "" && AllUnreserved(text)
    requires AllUnreserved(a) && AllUnreserved(b) && AllUnreserved(c)
    ensures var pieces := [Hole(x), Plain(text), Hole(y)];
      var v, w := map[x := a + text + b, y := c], map[x := a, y := b + text + c];
      v != w && Show(Substitute(pieces, [x, y], v)) == Show(Substitute(pieces, [x, y], w))
  {
    var v, w := map[x := a + text + b, y := c], map[x := a, y := b + text + c];
    assert |v[x]| != |w[x]|;
    ShowThree(x, y, text, v);
    ShowThree(x, y, text, w);
    SameEitherWay(text, a, b, c);
  }

  lemma SameEitherWay(text: string, a: string, b: string, c: string)
    requires AllUnreserved(text) && AllUnreserved(a) && AllUnreserved(b) && AllUnreserved(c)
    ensures Encoded(a + text + b) + text + Encoded(c) == Encoded(a) + text + Encoded(b + text + c)
  {
    EncodedIsSame(a + text + b);
    EncodedIsSame(b + text + c);
    EncodedIsSame(a);
    EncodedIsSame(c);
    assert a + text + b + text + c == a + text + (b + text + c);
  }

  lemma ShowThree(x: string, y: string, text: string, values: map<string, string>)
    requires x in values && y in values
    ensures Show(Substitute([Hole(x), Plain(text), Hole(y)], [x, y], values))
      == Encoded(values[x]) + text + Encoded(values[y])
  {
    var last, rest, names := [Hole(y)], [Plain(text), Hole(y)], [x, y];
    assert last[1..] == [] && rest[1..] == last && [Hole(x), Plain(text), Hole(y)][1..] == rest;
    ShowFirst([Hole(x), Plain(text), Hole(y)], names, values);
    ShowFirst(rest, names, values);
    ShowFirst(last, names, values);
    SameConcatenation(Encoded(values[x]), text, Encoded(values[y]));
  }

  lemma SameConcatenation(a: string, b: string, c: string)
    ensures a + (b + (c + "")) == a + b + c
  {
  }

  lemma {:induction false} EncodedIsSame(s: string)
    requires AllUnreserved(s)
    ensures Encoded(s) == s
    decreases |s|
  {
    if s != "" {
      EncodedIsSame(s[1..]);
      var bytes := Utf8.Encode(s);
      assert Utf8.EncodeChar(s[0]) == [s[0] as int];
      assert bytes == [s[0] as int] + Utf8.Encode(s[1..]);
      assert bytes[1..] == Utf8.Encode(s[1..]);
      assert EncodeBytes(bytes) == EncodeByte(bytes[0]) + Encoded(s[1..]);
      assert [s[0]] + s[1..] == s;
    }
  }
}
