/** `secrets.token_hex(32).lower()`: the hexadecimal text of random bytes, two lower-case digits
    per byte, and the decoding that undoes it. */
module Hex {
  import opened Wrappers
  import opened Text

  /** The characters `[0-9a-f]`. */
  predicate IsLowerHexDigit(c: char) {
    ('0' <= c <= '9') || ('a' <= c <= 'f')
  }

  /** The characters `[0-9a-fA-F]`. */
  predicate IsHexDigit(c: char) {
    ('0' <= c <= '9') || ('a' <= c <= 'f') || ('A' <= c <= 'F')
  }

  /** Exactly `n` characters of `[0-9a-f]`. */
  predicate IsLowerHexOfLength(s: string, n: nat) {
    |s| == n && forall i :: 0 <= i < |s| ==> IsLowerHexDigit(s[i])
  }

  /** The value of a hexadecimal digit, in either case. */
  function DigitValue(c: char): (v: int)
    requires IsHexDigit(c)
    ensures 0 <= v < 16
  {
    if '0' <= c <= '9' then c as int - '0' as int
    else if 'a' <= c <= 'f' then c as int - 'a' as int + 10
    else c as int - 'A' as int + 10
  }

  /** The lower-case digit for a value below 16; `DigitValue` inverts it. */
  function Digit(v: int): (c: char)
    requires 0 <= v < 16
    ensures IsLowerHexDigit(c) && DigitValue(c) == v
  {
    if v < 10 then ('0' as int + v) as char else ('a' as int + v - 10) as char
  }

  /** `bytes.hex()`: the high digit, then the low digit, of every byte. */
  function TokenHex(b: seq<byte>): (r: string)
    ensures |r| == 2 * |b|
  {
    if b == [] then "" else [Digit(b[0] / 16), Digit(b[0] % 16)] + TokenHex(b[1..])
  }

  /** `str.lower()` on ASCII text: `A`-`Z` become `a`-`z`, every other character stays. */
  function AsciiLower(s: string): (r: string)
    ensures |r| == |s|
    ensures forall i :: 0 <= i < |s| ==>
              r[i] == if 'A' <= s[i] <= 'Z' then (s[i] as int - 'A' as int + 'a' as int) as char else s[i]
  {
    if s == [] then "" else
      var c := if 'A' <= s[0] <= 'Z' then (s[0] as int - 'A' as int + 'a' as int) as char else s[0];
      [c] + AsciiLower(s[1..])
  }

  /** `bytes.fromhex` restricted to what `hex()` writes: pairs of digits, either case. */
  function FromHex(s: string): (r: Option<seq<byte>>)
    decreases |s|
  {
    if s == [] then Some([])
    else if |s| < 2 then None
    else if !IsHexDigit(s[0]) || !IsHexDigit(s[1]) then None
    else
      var rest :- FromHex(s[2..]);
      Some([DigitValue(s[0]) * 16 + DigitValue(s[1])] + rest)
  }

  /** The text is `[0-9a-f]` only, twice as long as the bytes. */
  lemma {:induction false} TokenHexIsLowerHex(b: seq<byte>)
    ensures IsLowerHexOfLength(TokenHex(b), 2 * |b|)
    decreases |b|
  {
    if b != [] {
      TokenHexIsLowerHex(b[1..]);
      var r := TokenHex(b);
      var rest := TokenHex(b[1..]);
      assert r == [Digit(b[0] / 16), Digit(b[0] % 16)] + rest;
      forall i | 2 <= i < |r| ensures IsLowerHexDigit(r[i]) {
        assert r[i] == rest[i - 2];
      }
    }
  }

  /** `.lower()` leaves the output of `hex()` as it is. */
  lemma LowerKeepsTokenHex(b: seq<byte>)
    ensures AsciiLower(TokenHex(b)) == TokenHex(b)
  {
    TokenHexIsLowerHex(b);
    var t := TokenHex(b);
    assert forall i :: 0 <= i < |t| ==> !('A' <= t[i] <= 'Z');
  }

  /** Decoding the text gives the bytes back. */
  lemma {:induction false} FromHexTokenHex(b: seq<byte>)
    ensures FromHex(TokenHex(b)) == Some(b)
    decreases |b|
  {
    if b != [] {
      FromHexTokenHex(b[1..]);
      var t := TokenHex(b);
      assert t[2..] == TokenHex(b[1..]);
      assert DigitValue(t[0]) * 16 + DigitValue(t[1]) == b[0];
      assert b == [b[0]] + b[1..];
    }
  }
}
