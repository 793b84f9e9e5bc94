/** Base 64 encoding with the URL- and filename-safe alphabet of RFC 4648 section 5, as
    `base64.urlsafe_b64encode` produces it (padding included), and the decoding of RFC 4648
    section 4 that undoes it. */
module Base64Url {
  import opened Wrappers
  import opened Text

  type Sextet = x: int | 0 <= x < 64

  /** The 64 symbols of the URL-safe alphabet, defined by character ranges. */
  predicate IsSymbol(c: char) {
    ('A' <= c <= 'Z') || ('a' <= c <= 'z') || ('0' <= c <= '9') || c == '-' || c == '_'
  }

  /** The value a symbol stands for. */
  function SymbolValue(c: char): Sextet
    requires IsSymbol(c)
  {
    if 'A' <= c <= 'Z' then c as int - 'A' as int
    else if 'a' <= c <= 'z' then c as int - 'a' as int + 26
    else if '0' <= c <= '9' then c as int - '0' as int + 52
    else if c == '-' then 62
    else 63
  }

  /** The symbol for a 6-bit value (the table of RFC 4648 section 5); `SymbolValue` inverts it. */
  function Symbol(x: Sextet): (c: char)
    ensures IsSymbol(c) && SymbolValue(c) == x
  {
    if x < 26 then ('A' as int + x) as char
    else if x < 52 then ('a' as int + x - 26) as char
    else if x < 62 then ('0' as int + x - 52) as char
    else if x == 62 then '-'
    else '_'
  }

  /** How many `=` end the encoding of `n` bytes. */
  function PadCount(n: nat): nat {
    (3 - n % 3) % 3
  }

  /** Four symbols for a full group of three bytes. */
  function Quad(b0: byte, b1: byte, b2: byte): (r: string)
    ensures |r| == 4
  {
    [Symbol(b0 / 4), Symbol((b0 % 4) * 16 + b1 / 16), Symbol((b1 % 16) * 4 + b2 / 64), Symbol(b2 % 64)]
  }

  /** The last, padded group for one or two remaining bytes. */
  function PaddedQuad(b: seq<byte>): (r: string)
    requires 1 <= |b| <= 2
    ensures |r| == 4
  {
    if |b| == 1 then [Symbol(b[0] / 4), Symbol((b[0] % 4) * 16), '=', '=']
    else [Symbol(b[0] / 4), Symbol((b[0] % 4) * 16 + b[1] / 16), Symbol((b[1] % 16) * 4), '=']
  }

  /** `base64.urlsafe_b64encode(b).decode()`: four characters per started group of three bytes,
      symbols first, then one `=` for each byte the last group lacks. */
  function Encode(b: seq<byte>): (r: string)
    ensures |r| == 4 * ((|b| + 2) / 3)
    decreases |b|
  {
    if |b| == 0 then ""
    else if |b| < 3 then PaddedQuad(b)
    else
      assert (|b| + 2) / 3 == (|b[3..]| + 2) / 3 + 1;
      Quad(b[0], b[1], b[2]) + Encode(b[3..])
  }

  /** Symbols of the alphabet followed by exactly `pad` `=`. */
  predicate PaddedSymbols(e: string, pad: nat) {
    && |e| >= pad
    && (forall i :: 0 <= i < |e| - pad ==> IsSymbol(e[i]))
    && (forall i :: |e| - pad <= i < |e| ==> e[i] == '=')
  }

  lemma PaddedSymbolsPrepend(q: string, rest: string, pad: nat)
    requires PaddedSymbols(q, 0)
    requires PaddedSymbols(rest, pad)
    ensures PaddedSymbols(q + rest, pad)
  {
    var e := q + rest;
    forall i | |q| <= i < |e| ensures e[i] == rest[i - |q|] {
    }
  }

  lemma PadCountStep(n: nat)
    requires n >= 3
    ensures PadCount(n - 3) == PadCount(n)
  {
    assert (n - 3) % 3 == n % 3;
  }

  lemma QuadShape(b0: byte, b1: byte, b2: byte)
    ensures PaddedSymbols(Quad(b0, b1, b2), 0)
  {
    var q := Quad(b0, b1, b2);
    assert IsSymbol(q[0]) && IsSymbol(q[1]) && IsSymbol(q[2]) && IsSymbol(q[3]);
  }

  lemma PaddedQuadShape(b: seq<byte>)
    requires 1 <= |b| <= 2
    ensures PaddedSymbols(PaddedQuad(b), PadCount(|b|))
  {
  }

  /** The shape of an encoding: symbols of the alphabet, then exactly `PadCount(|b|)` `=`. */
  lemma {:induction false} EncodeShape(b: seq<byte>)
    ensures PaddedSymbols(Encode(b), PadCount(|b|))
    decreases |b|
  {
    if |b| == 0 {
    } else if |b| < 3 {
      PaddedQuadShape(b);
    } else {
      var q, rest := Quad(b[0], b[1], b[2]), Encode(b[3..]);
      assert Encode(b) == q + rest;
      PadCountStep(|b|);
      EncodeShape(b[3..]);
      QuadShape(b[0], b[1], b[2]);
      PaddedSymbolsPrepend(q, rest, PadCount(|b|));
    }
  }

  /** The three bytes four symbols stand for. */
  function Triple(a: Sextet, b: Sextet, c: Sextet, d: Sextet): seq<byte> {
    [a * 4 + b / 16, (b % 16) * 16 + c / 4, (c % 4) * 64 + d]
  }

  /** Decodes the last group of four characters, which may end in one or two `=`. */
  function DecodeLast(s: string): Option<seq<byte>>
    requires |s| == 4
  {
    if !IsSymbol(s[0]) || !IsSymbol(s[1]) then None
    else if s[2] == '=' && s[3] == '=' then
      Some(Triple(SymbolValue(s[0]), SymbolValue(s[1]), 0, 0)[..1])
    else if IsSymbol(s[2]) && s[3] == '=' then
      Some(Triple(SymbolValue(s[0]), SymbolValue(s[1]), SymbolValue(s[2]), 0)[..2])
    else if IsSymbol(s[2]) && IsSymbol(s[3]) then
      Some(Triple(SymbolValue(s[0]), SymbolValue(s[1]), SymbolValue(s[2]), SymbolValue(s[3])))
    else None
  }

  /** Base 64 decoding (RFC 4648 section 4, URL-safe alphabet): the length must be a multiple
      of four, padding may appear only at the very end. */
  function Decode(s: string): (r: Option<seq<byte>>)
    decreases |s|
  {
    if |s| == 0 then Some([])
    else if |s| < 4 then None
    else if |s| == 4 then DecodeLast(s)
    else if IsSymbol(s[0]) && IsSymbol(s[1]) && IsSymbol(s[2]) && IsSymbol(s[3]) then
      var rest :- Decode(s[4..]);
      Some(Triple(SymbolValue(s[0]), SymbolValue(s[1]), SymbolValue(s[2]), SymbolValue(s[3])) + rest)
    else None
  }

  /** `s + "=" * (-len(s) % 4)`: restores the padding an unpadded encoding dropped. */
  function Repad(s: string): string {
    s + seq((4 - |s| % 4) % 4, _ => '=')
  }

  /** The bit arithmetic of one group: the four symbols of three bytes decode to those bytes. */
  lemma GroupRoundTrip(b0: byte, b1: byte, b2: byte)
    ensures Triple(b0 / 4, (b0 % 4) * 16 + b1 / 16, (b1 % 16) * 4 + b2 / 64, b2 % 64) == [b0, b1, b2]
  {
    var s1 := (b0 % 4) * 16 + b1 / 16;
    var s2 := (b1 % 16) * 4 + b2 / 64;
    assert s1 / 16 == b0 % 4 && s1 % 16 == b1 / 16;
    assert s2 / 4 == b1 % 16 && s2 % 4 == b2 / 64;
  }

  /** A last group of one byte: two symbols and `==`. */
  lemma OneByteRoundTrip(b0: byte)
    ensures DecodeLast(PaddedQuad([b0])) == Some([b0])
  {
    var e := PaddedQuad([b0]);
    var v0, v1 := SymbolValue(e[0]), SymbolValue(e[1]);
    assert v0 == b0 / 4 && v1 == (b0 % 4) * 16;
    assert v1 / 16 == b0 % 4;
    var t := Triple(v0, v1, 0, 0);
    assert t[0] == b0;
    assert t[..1] == [b0];
    assert DecodeLast(e) == Some(t[..1]);
  }

  /** A last group of two bytes: three symbols and `=`. */
  lemma TwoBytesRoundTrip(b0: byte, b1: byte)
    ensures DecodeLast(PaddedQuad([b0, b1])) == Some([b0, b1])
  {
    var e := PaddedQuad([b0, b1]);
    var v0, v1, v2 := SymbolValue(e[0]), SymbolValue(e[1]), SymbolValue(e[2]);
    assert v0 == b0 / 4 && v1 == (b0 % 4) * 16 + b1 / 16 && v2 == (b1 % 16) * 4;
    assert e[2] != '=' && e[3] == '=';
    assert v1 / 16 == b0 % 4 && v1 % 16 == b1 / 16 && v2 / 4 == b1 % 16;
    var t := Triple(v0, v1, v2, 0);
    assert t[0] == b0 && t[1] == b1;
    assert t[..2] == [b0, b1];
    assert DecodeLast(e) == Some(t[..2]);
  }

  /** A last group of three bytes: four symbols, no padding. */
  lemma ThreeBytesRoundTrip(b0: byte, b1: byte, b2: byte)
    ensures DecodeLast(Quad(b0, b1, b2)) == Some([b0, b1, b2])
  {
    var e := Quad(b0, b1, b2);
    GroupRoundTrip(b0, b1, b2);
    assert e[2] != '=' && e[3] != '=';
    assert DecodeLast(e) == Some(Triple(SymbolValue(e[0]), SymbolValue(e[1]), SymbolValue(e[2]), SymbolValue(e[3])));
  }

  /** The last group: one, two or three bytes encode to four characters that `DecodeLast`
      turns back into those bytes. */
  lemma LastGroupRoundTrip(b: seq<byte>)
    requires 1 <= |b| <= 3
    ensures |Encode(b)| == 4 && DecodeLast(Encode(b)) == Some(b)
  {
    if |b| == 1 {
      assert b == [b[0]];
      OneByteRoundTrip(b[0]);
    } else if |b| == 2 {
      assert b == [b[0], b[1]];
      TwoBytesRoundTrip(b[0], b[1]);
    } else {
      assert b == [b[0], b[1], b[2]];
      assert Encode(b[3..]) == "";
      assert Encode(b) == Quad(b[0], b[1], b[2]) + "";
      ThreeBytesRoundTrip(b[0], b[1], b[2]);
    }
  }

  /** A leading group of four symbols decodes to its three bytes, followed by the rest. */
  lemma DecodeLeadingGroup(q: string, rest: string, tail: seq<byte>)
    requires |q| == 4 && IsSymbol(q[0]) && IsSymbol(q[1]) && IsSymbol(q[2]) && IsSymbol(q[3])
    requires |rest| > 0 && Decode(rest) == Some(tail)
    ensures Decode(q + rest) ==
            Some(Triple(SymbolValue(q[0]), SymbolValue(q[1]), SymbolValue(q[2]), SymbolValue(q[3])) + tail)
  {
    var s := q + rest;
    assert s[..4] == q && s[4..] == rest;
  }

  /** The symbols of a full group decode to its bytes. */
  lemma QuadRoundTrip(b0: byte, b1: byte, b2: byte)
    ensures var q := Quad(b0, b1, b2);
            IsSymbol(q[0]) && IsSymbol(q[1]) && IsSymbol(q[2]) && IsSymbol(q[3]) &&
            Triple(SymbolValue(q[0]), SymbolValue(q[1]), SymbolValue(q[2]), SymbolValue(q[3])) == [b0, b1, b2]
  {
    GroupRoundTrip(b0, b1, b2);
  }

  lemma FirstThree(b: seq<byte>)
    requires |b| >= 3
    ensures b == [b[0], b[1], b[2]] + b[3..]
  {
  }

  /** Decoding undoes encoding, for every byte string. */
  lemma {:induction false} DecodeEncode(b: seq<byte>)
    ensures Decode(Encode(b)) == Some(b)
    decreases |b|
  {
    if |b| == 0 {
    } else if |b| <= 3 {
      LastGroupRoundTrip(b);
    } else {
      FirstThree(b);
      var q, rest := Quad(b[0], b[1], b[2]), Encode(b[3..]);
      assert Encode(b) == q + rest;
      DecodeEncode(b[3..]);
      QuadRoundTrip(b[0], b[1], b[2]);
      DecodeLeadingGroup(q, rest, b[3..]);
    }
  }

  /** The length arithmetic of padding: an encoding of `n` bytes is at least as long as its
      padding, and its unpadded part lacks exactly that padding to reach a multiple of four. */
  lemma PadArithmetic(n: nat)
    ensures 4 * ((n + 2) / 3) >= PadCount(n)
    ensures (4 - (4 * ((n + 2) / 3) - PadCount(n)) % 4) % 4 == PadCount(n)
  {
    var q, m := n / 3, n % 3;
    assert n == 3 * q + m;
    if m == 0 {
      assert (n + 2) / 3 == q;
      assert PadCount(n) == 0;
    } else if m == 1 {
      assert (n + 2) / 3 == q + 1;
      assert PadCount(n) == 2;
      assert 4 * (q + 1) - 2 == 4 * q + 2;
    } else {
      assert (n + 2) / 3 == q + 1;
      assert PadCount(n) == 1;
      assert 4 * (q + 1) - 1 == 4 * q + 3;
    }
  }

  /** Dropping the padding of an encoding and restoring it with `Repad` gives the encoding back. */
  lemma RepadUnpadded(b: seq<byte>)
    ensures |Encode(b)| >= PadCount(|b|)
    ensures Repad(Encode(b)[..|Encode(b)| - PadCount(|b|)]) == Encode(b)
  {
    var e := Encode(b);
    var p := PadCount(|b|);
    PadArithmetic(|b|);
    EncodeShape(b);
    var u := e[..|e| - p];
    assert (4 - |u| % 4) % 4 == p;
    var r := Repad(u);
    assert r == u + seq(p, _ => '=');
    assert |r| == |e|;
    forall i | 0 <= i < |e| ensures r[i] == e[i] {
      if i < |u| {
        assert r[i] == u[i];
      } else {
        assert r[i] == '=';
      }
    }
    assert r == e;
  }
}
