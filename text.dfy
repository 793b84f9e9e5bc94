/** Bytes, ASCII text and the UTF-8 encoding that `str.encode("utf-8")` performs. */
module Text {
  import opened Wrappers

  type byte = x: int | 0 <= x < 256

  predicate IsAscii(s: string) {
    forall i :: 0 <= i < |s| ==> s[i] as int < 128
  }

  /** Concatenation is associative; stated once so that proofs can regroup explicitly. */
  lemma Associative<T>(a: seq<T>, b: seq<T>, c: seq<T>)
    ensures (a + b) + c == a + (b + c)
  {
  }

  lemma AsciiConcat(a: string, b: string)
    requires IsAscii(a) && IsAscii(b)
    ensures IsAscii(a + b)
  {
    forall i | 0 <= i < |a + b| ensures (a + b)[i] as int < 128 {
      if i >= |a| {
        assert (a + b)[i] == b[i - |a|];
      }
    }
  }

  /** UTF-8 encoding of one Unicode scalar value (RFC 3629 section 3): a lead byte announcing
      the length, then continuation bytes, together carrying the code point. */
  function Utf8Char(c: char): (r: seq<byte>)
    ensures 1 <= |r| <= 4
    ensures (c as int < 128) <==> |r| == 1
    ensures |r| == 1 ==> r[0] == c as int
  {
    var n := c as int;
    if n < 0x80 then [n]
    else if n < 0x800 then TwoBytes(n)
    else if n < 0x1_0000 then ThreeBytes(n)
    else FourBytes(n)
  }

  /** The bytes of a character are a well-formed sequence of the shortest width that
      carries its code point. */
  lemma Utf8CharForm(c: char)
    ensures var r := Utf8Char(c);
            && Width(r[0]) == |r| && (forall i :: 1 <= i < |r| ==> IsContinuation(r[i]))
            && CodePoint(r) == c as int && LeastOfWidth(|r|) <= c as int
  {
  }

  function TwoBytes(n: int): (r: seq<byte>)
    requires 0x80 <= n < 0x800
    ensures |r| == 2 && Width(r[0]) == 2 && IsContinuation(r[1]) && CodePoint(r) == n
  {
    [0xC0 + n / 64, 0x80 + n % 64]
  }

  function ThreeBytes(n: int): (r: seq<byte>)
    requires 0x800 <= n < 0x1_0000
    ensures |r| == 3 && Width(r[0]) == 3 && IsContinuation(r[1]) && IsContinuation(r[2])
    ensures CodePoint(r) == n
  {
    SixBitGroups(n);
    assert n / 262144 == 0;
    [0xE0 + n / 4096, 0x80 + (n / 64) % 64, 0x80 + n % 64]
  }

  function FourBytes(n: int): (r: seq<byte>)
    requires 0x1_0000 <= n < 0x11_0000
    ensures |r| == 4 && Width(r[0]) == 4
    ensures IsContinuation(r[1]) && IsContinuation(r[2]) && IsContinuation(r[3])
    ensures CodePoint(r) == n
  {
    SixBitGroups(n);
    [0xF0 + n / 262144, 0x80 + (n / 4096) % 64, 0x80 + (n / 64) % 64, 0x80 + n % 64]
  }

  /** `s.encode("utf-8")`: each character's sequence in turn. `FromUtf8OfUtf8` decodes it back;
      on ASCII text every character becomes its own code as one byte. */
  function Utf8(s: string): (r: seq<byte>)
    ensures |r| >= |s|
    ensures IsAscii(s) ==> |r| == |s| && forall i :: 0 <= i < |s| ==> r[i] == s[i] as int
  {
    if s == [] then [] else Utf8Char(s[0]) + Utf8(s[1..])
  }

  /** A Unicode scalar value: a code point that is not a surrogate. */
  predicate IsScalar(v: int) {
    0 <= v < 0xD800 || 0xE000 <= v < 0x11_0000
  }

  /** The length of the UTF-8 sequence that a byte starts, or 0 for a byte that cannot start
      one (a continuation byte, or 0xF8 and above). */
  function Width(lead: byte): nat {
    if lead < 0x80 then 1
    else if 0xC0 <= lead < 0xE0 then 2
    else if 0xE0 <= lead < 0xF0 then 3
    else if 0xF0 <= lead < 0xF8 then 4
    else 0
  }

  predicate IsContinuation(b: byte) {
    0x80 <= b < 0xC0
  }

  /** The smallest code point that needs `w` bytes: smaller ones in `w` bytes are overlong. */
  function LeastOfWidth(w: nat): int {
    if w <= 1 then 0 else if w == 2 then 0x80 else if w == 3 then 0x800 else 0x1_0000
  }

  /** The code point that a lead byte of width `|b|` and its continuation bytes carry. */
  function CodePoint(b: seq<byte>): int
    requires 1 <= |b| <= 4
  {
    var lead := b[0] as int;
    if |b| == 1 then lead
    else if |b| == 2 then (lead - 0xC0) * 64 + Payload(b[1])
    else if |b| == 3 then ((lead - 0xE0) * 64 + Payload(b[1])) * 64 + Payload(b[2])
    else (((lead - 0xF0) * 64 + Payload(b[1])) * 64 + Payload(b[2])) * 64 + Payload(b[3])
  }

  /** The six bits a continuation byte carries. */
  function Payload(b: byte): int {
    b as int - 0x80
  }

  /** Strict UTF-8 decoding of the first character of `b` (RFC 3629 section 3), with the number
      of bytes it takes. Truncated sequences, stray continuation bytes, overlong forms,
      surrogates and code points above U+10FFFF are refused. */
  function DecodeChar(b: seq<byte>): (r: Option<(char, nat)>)
    ensures r.Some? ==> 1 <= r.value.1 <= |b|
  {
    if b == [] then None
    else
      var w := Width(b[0]);
      if w == 0 || |b| < w || exists i :: 1 <= i < w && !IsContinuation(b[i]) then None
      else
        var v := CodePoint(b[..w]);
        if v < LeastOfWidth(w) || !IsScalar(v) then None else Some((v as char, w))
  }

  /** Strict UTF-8 decoding, `bytes.decode("utf-8")`: the partner of `Utf8`. */
  function FromUtf8(b: seq<byte>): (r: Option<string>)
    decreases |b|
  {
    if b == [] then Some([])
    else match DecodeChar(b)
      case None => None
      case Some((c, w)) =>
        match FromUtf8(b[w..])
        case None => None
        case Some(t) => Some([c] + t)
  }

  /** The decoder reads back the character that `Utf8Char` encoded, and exactly its bytes,
      whatever follows. */
  lemma DecodeCharOf(c: char, rest: seq<byte>)
    ensures DecodeChar(Utf8Char(c) + rest) == Some((c, |Utf8Char(c)|))
  {
    var e := Utf8Char(c);
    var b := e + rest;
    Utf8CharForm(c);
    assert b[..|e|] == e;
    assert forall i :: 1 <= i < |e| ==> b[i] == e[i];
  }

  /** A code point is its four six-bit groups, most significant first. */
  lemma SixBitGroups(n: int)
    requires 0 <= n
    ensures n == ((n / 262144 * 64 + (n / 4096) % 64) * 64 + (n / 64) % 64) * 64 + n % 64
  {
    var q := n / 64;
    assert n == q * 64 + n % 64;
    assert n / 4096 == q / 64;
    assert n / 262144 == q / 4096;
    assert q == (q / 4096 * 64 + (q / 64) % 64) * 64 + q % 64;
  }

  /** Strict decoding of the UTF-8 encoding of any text gives the text back. */
  lemma {:induction false} FromUtf8OfUtf8(s: string)
    ensures FromUtf8(Utf8(s)) == Some(s)
    decreases |s|
  {
    if s != [] {
      var head, tail := Utf8Char(s[0]), Utf8(s[1..]);
      DecodeCharOf(s[0], tail);
      assert (head + tail)[|head|..] == tail;
      FromUtf8OfUtf8(s[1..]);
      assert [s[0]] + s[1..] == s;
    }
  }

  /** Different texts have different UTF-8 encodings. */
  lemma Utf8Injective(s: string, t: string)
    requires Utf8(s) == Utf8(t)
    ensures s == t
  {
    FromUtf8OfUtf8(s);
    FromUtf8OfUtf8(t);
  }

  /** Decodes bytes that are all below 128 as ASCII text; any other byte is refused. */
  function AsciiText(b: seq<byte>): (r: Option<string>)
    ensures r.Some? <==> forall i :: 0 <= i < |b| ==> b[i] < 128
    ensures r.Some? ==> |r.value| == |b| && IsAscii(r.value)
    ensures r.Some? ==> forall i :: 0 <= i < |b| ==> r.value[i] as int == b[i]
  {
    if b == [] then Some([])
    else if b[0] >= 128 then None
    else match AsciiText(b[1..])
      case None => None
      case Some(t) => Some([b[0] as char] + t)
  }

  /** Decoding the UTF-8 bytes of ASCII text gives the text back. */
  lemma {:induction false} AsciiTextOfUtf8(s: string)
    requires IsAscii(s)
    ensures AsciiText(Utf8(s)) == Some(s)
  {
    var b := Utf8(s);
    assert forall i :: 0 <= i < |b| ==> b[i] < 128 by {
      forall i | 0 <= i < |b| ensures b[i] < 128 {
        assert b[i] == s[i] as int;
      }
    }
    var t := AsciiText(b).value;
    assert |t| == |s|;
    forall i | 0 <= i < |s| ensures t[i] == s[i] {
      assert t[i] as int == s[i] as int;
    }
    assert t == s;
  }
}
