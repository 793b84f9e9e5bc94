/** `json.dumps(data, separators=(",", ":"))` for the flat objects the token builder serialises:
    members in insertion order, string and integer values, no whitespace, and the default
    `ensure_ascii` escaping. A parser for the same layout is the partner that shows nothing is
    lost: `Parse(Dumps(o)) == Some(o)`. */
module Json {
  import opened Wrappers
  import opened Text
  import Hex

  datatype Value = Str(s: string) | Int(n: int)

  /** A JSON object as its members in insertion order (Python dicts keep that order). */
  type Object = seq<(string, Value)>

  const Backspace: char := '\U{8}'
  const FormFeed: char := '\U{C}'

  /** `\u` and four lower-case hexadecimal digits, the form `'\\u{0:04x}'.format(n)` writes. */
  function UnicodeEscape(n: int): (r: string)
    requires 0 <= n < 0x10000
    ensures |r| == 6
  {
    ['\\', 'u', Hex.Digit(n / 4096), Hex.Digit((n / 256) % 16), Hex.Digit((n / 16) % 16), Hex.Digit(n % 16)]
  }

  /** How `ensure_ascii` writes one character: the two-character escapes for the quote, the
      backslash and five control characters; printable ASCII as it is; everything else as
      `\uXXXX`, and characters beyond the Basic Multilingual Plane as a surrogate pair (the
      source's `0xd800 | ((n >> 10) & 0x3ff)` equals `0xD800 + n / 1024` here, because the
      low ten bits of 0xD800 are zero and `n < 0x100000`). */
  function EscapeChar(c: char): (r: string)
    ensures |r| >= 1
  {
    if c == '"' then "\\\""
    else if c == '\\' then "\\\\"
    else if c == '\n' then "\\n"
    else if c == '\r' then "\\r"
    else if c == '\t' then "\\t"
    else if c == Backspace then "\\b"
    else if c == FormFeed then "\\f"
    else if ' ' <= c <= '~' then [c]
    else if c as int < 0x10000 then UnicodeEscape(c as int)
    else
      var n := c as int - 0x10000;
      UnicodeEscape(0xD800 + n / 1024) + UnicodeEscape(0xDC00 + n % 1024)
  }

  /** The pieces `f` gives for the characters of `s`, joined in order. */
  function Concat(f: char -> string, s: string): string
    decreases |s|
  {
    if s == [] then "" else Concat(f, s[..|s| - 1]) + f(s[|s| - 1])
  }

  /** Dropping the last character and dropping the first one commute. */
  lemma DropEnds(s: string)
    requires |s| > 1
    ensures s[..|s| - 1][1..] == s[1..][..|s| - 2]
    ensures s[..|s| - 1][0] == s[0] && s[1..][|s| - 2] == s[|s| - 1]
  {
  }

  /** Read from the front: the first character's piece comes first. */
  lemma {:induction false} ConcatCons(f: char -> string, s: string)
    requires s != []
    ensures Concat(f, s) == f(s[0]) + Concat(f, s[1..])
    decreases |s|
  {
    if |s| == 1 {
      assert s[..0] == [] && s[1..] == [];
    } else {
      ConcatCons(f, s[..|s| - 1]);
      ConcatConsStep(f, s);
    }
  }

  /** The inductive step of `ConcatCons`: from the string without its last character to the
      whole string. */
  lemma ConcatConsStep(f: char -> string, s: string)
    requires |s| > 1
    requires Concat(f, s[..|s| - 1]) == f(s[0]) + Concat(f, s[..|s| - 1][1..])
    ensures Concat(f, s) == f(s[0]) + Concat(f, s[1..])
  {
    DropEnds(s);
    var middle := Concat(f, s[..|s| - 1][1..]);
    var first, last := f(s[0]), f(s[|s| - 1]);
    assert Concat(f, s) == (first + middle) + last;
    assert Concat(f, s[1..]) == middle + last;
    Associative(first, middle, last);
  }

  /** The body of a string literal: every character escaped. */
  function EscapeBody(s: string): string {
    Concat(EscapeChar, s)
  }

  /** A JSON string literal. */
  function Quote(s: string): (r: string)
    ensures |r| >= 2
  {
    "\"" + EscapeBody(s) + "\""
  }

  predicate IsDigit(c: char) {
    '0' <= c <= '9'
  }

  predicate AllDigits(s: string) {
    forall i :: 0 <= i < |s| ==> IsDigit(s[i])
  }

  /** `str(n)` for a natural number: decimal digits without leading zeros. */
  function NatText(n: nat): (r: string)
    ensures |r| >= 1 && AllDigits(r)
  {
    if n < 10 then [('0' as int + n) as char]
    else NatText(n / 10) + [('0' as int + n % 10) as char]
  }

  /** `str(n)` for any integer. */
  function IntText(n: int): (r: string)
    ensures |r| >= 1
  {
    if n < 0 then "-" + NatText(-n) else NatText(n)
  }

  function ValueText(v: Value): (r: string)
    ensures |r| >= 1
  {
    match v
    case Str(s) => Quote(s)
    case Int(n) => IntText(n)
  }

  /** One member with the key separator `:`. */
  function MemberText(m: (string, Value)): string
  {
    Quote(m.0) + ":" + ValueText(m.1)
  }

  /** The members joined by the item separator `,`. */
  function MembersText(o: Object): string
    requires |o| >= 1
  {
    if |o| == 1 then MemberText(o[0]) else MemberText(o[0]) + "," + MembersText(o[1..])
  }

  /** `json.dumps(o, separators=(",", ":"))`: the output is pure ASCII, so its UTF-8 bytes are
      its character codes. */
  function Dumps(o: Object): string
  {
    if o == [] then "{}" else "{" + MembersText(o) + "}"
  }

  // ---------------------------------------------------------------------------------------
  // The parser: the inverse that shows the layout is unambiguous.

  /** The leading run of digits and what follows it. */
  function SpanDigits(s: string): (r: (string, string))
    ensures r.0 + r.1 == s && AllDigits(r.0)
    ensures r.1 == [] || !IsDigit(r.1[0])
  {
    if s != [] && IsDigit(s[0]) then
      var (d, rest) := SpanDigits(s[1..]);
      assert s == [s[0]] + s[1..];
      ([s[0]] + d, rest)
    else ([], s)
  }

  /** The number a run of decimal digits stands for. */
  function DigitsValue(d: string): nat
    requires AllDigits(d)
  {
    if d == [] then 0 else DigitsValue(d[..|d| - 1]) * 10 + (d[|d| - 1] as int - '0' as int)
  }

  /** At least one digit. */
  function ParseNat(s: string): (r: Option<(nat, string)>)
    ensures r.Some? ==> |r.value.1| < |s|
  {
    var (d, rest) := SpanDigits(s);
    if d == [] then None else Some((DigitsValue(d), rest))
  }

  /** An optional minus sign and at least one digit. */
  function ParseInt(s: string): (r: Option<(int, string)>)
    ensures r.Some? ==> |r.value.1| < |s|
  {
    if s != [] && s[0] == '-' then
      var (n, rest) :- ParseNat(s[1..]);
      Some((-(n as int), rest))
    else
      var (n, rest) :- ParseNat(s);
      Some((n as int, rest))
  }

  /** The number four hexadecimal digits stand for. */
  function Hex4Value(a: char, b: char, c: char, d: char): (n: int)
    requires Hex.IsHexDigit(a) && Hex.IsHexDigit(b) && Hex.IsHexDigit(c) && Hex.IsHexDigit(d)
    ensures 0 <= n < 0x10000
  {
    ((Hex.DigitValue(a) * 16 + Hex.DigitValue(b)) * 16 + Hex.DigitValue(c)) * 16 + Hex.DigitValue(d)
  }

  /** Four hexadecimal digits, as they follow `\u`. */
  function ParseHex4(s: string): (r: Option<(int, string)>)
    ensures r.Some? ==> |s| >= 4 && 0 <= r.value.0 < 0x10000 && r.value.1 == s[4..]
  {
    if |s| < 4 || !Hex.IsHexDigit(s[0]) || !Hex.IsHexDigit(s[1]) || !Hex.IsHexDigit(s[2]) || !Hex.IsHexDigit(s[3]) then None
    else Some((Hex4Value(s[0], s[1], s[2], s[3]), s[4..]))
  }

  /** The character an escape stands for; `s` starts just after the backslash. */
  function ParseEscape(s: string): (r: Option<(char, string)>)
    ensures r.Some? ==> |r.value.1| < |s|
  {
    if s == [] then None
    else if s[0] == '"' then Some(('"', s[1..]))
    else if s[0] == '\\' then Some(('\\', s[1..]))
    else if s[0] == '/' then Some(('/', s[1..]))
    else if s[0] == 'b' then Some((Backspace, s[1..]))
    else if s[0] == 'f' then Some((FormFeed, s[1..]))
    else if s[0] == 'n' then Some(('\n', s[1..]))
    else if s[0] == 'r' then Some(('\r', s[1..]))
    else if s[0] == 't' then Some(('\t', s[1..]))
    else if s[0] == 'u' then ParseUnicode(s[1..])
    else None
  }

  /** The character a `\uXXXX` escape stands for; `s` starts just after the `u`. A high
      surrogate must be followed by an escaped low surrogate; a lone surrogate is refused. */
  function ParseUnicode(s: string): (r: Option<(char, string)>)
    ensures r.Some? ==> |r.value.1| < |s|
  {
    var (hi, rest) :- ParseHex4(s);
    if 0xD800 <= hi < 0xDC00 then
      if |rest| >= 2 && rest[0] == '\\' && rest[1] == 'u' then
        var (lo, rest') :- ParseHex4(rest[2..]);
        if 0xDC00 <= lo < 0xE000 then Some(((0x10000 + (hi - 0xD800) * 1024 + (lo - 0xDC00)) as char, rest'))
        else None
      else None
    else if 0xDC00 <= hi < 0xE000 then None
    else Some((hi as char, rest))
  }

  /** The characters of a string literal up to its closing quote, and what follows the quote.
      Unescaped control characters are refused. */
  function ParseChars(s: string): (r: Option<(string, string)>)
    ensures r.Some? ==> |r.value.1| < |s|
    decreases |s|
  {
    if s == [] then None
    else if s[0] == '"' then Some(("", s[1..]))
    else if s[0] == '\\' then
      var (c, rest) :- ParseEscape(s[1..]);
      var (t, rest') :- ParseChars(rest);
      Some(([c] + t, rest'))
    else if s[0] < ' ' then None
    else
      var (t, rest) :- ParseChars(s[1..]);
      Some(([s[0]] + t, rest))
  }

  function ParseString(s: string): (r: Option<(string, string)>)
    ensures r.Some? ==> |r.value.1| < |s|
  {
    if s != [] && s[0] == '"' then ParseChars(s[1..]) else None
  }

  function ParseValue(s: string): (r: Option<(Value, string)>)
    ensures r.Some? ==> |r.value.1| < |s|
  {
    if s != [] && s[0] == '"' then
      var (t, rest) :- ParseString(s);
      Some((Str(t), rest))
    else
      var (n, rest) :- ParseInt(s);
      Some((Int(n), rest))
  }

  /** `"key":value` members separated by `,` up to the closing brace, which must end the text. */
  function ParseMembers(s: string): Option<Object>
    decreases |s|
  {
    var (k, rest) :- ParseString(s);
    if rest == [] || rest[0] != ':' then None
    else
      var (v, rest') :- ParseValue(rest[1..]);
      if rest' == "}" then Some([(k, v)])
      else if rest' != [] && rest'[0] == ',' then
        var more :- ParseMembers(rest'[1..]);
        Some([(k, v)] + more)
      else None
  }

  /** A whole object. */
  function Parse(s: string): Option<Object> {
    if s == "{}" then Some([])
    else if s != [] && s[0] == '{' then ParseMembers(s[1..])
    else None
  }

  // ---------------------------------------------------------------------------------------
  // Round trip: parsing what `Dumps` writes gives the object back.

  lemma DivDiv16(n: nat)
    ensures (n / 16) / 16 == n / 256
  {
    var a := n / 16;
    var b := a / 16;
    assert n == 16 * a + n % 16;
    assert a == 16 * b + a % 16;
    assert n == 256 * b + (16 * (a % 16) + n % 16);
  }

  /** The four digits of `UnicodeEscape(n)` read back as `n`. */
  lemma Hex4RoundTrip(n: int, t: string)
    requires 0 <= n < 0x10000
    ensures ParseHex4(UnicodeEscape(n)[2..] + t) == Some((n, t))
  {
    var e := UnicodeEscape(n)[2..] + t;
    DivDiv16(n);
    DivDiv16(n / 16);
    assert (n / 256) / 16 == n / 4096 by {
      assert (n / 16) / 256 == n / 4096 by {
        DivDiv16(n / 256);
        DivDiv16(n);
        assert ((n / 16) / 16) / 16 == n / 4096 by {
          var a := n / 16;
          assert a / 16 == n / 256;
          var b := n / 256;
          assert n == 256 * b + n % 256;
          assert b == 16 * (b / 16) + b % 16;
          assert n == 4096 * (b / 16) + (256 * (b % 16) + n % 256);
        }
      }
    }
    assert n / 256 == (n / 4096) * 16 + (n / 256) % 16;
    assert n / 16 == (n / 256) * 16 + (n / 16) % 16;
    assert n == (n / 16) * 16 + n % 16;
    assert e[4..] == t;
  }

  /** A two-character escape: the letter after the backslash names the character. */
  lemma ShortEscapeRoundTrip(c: char, t: string)
    requires c == '"' || c == '\\' || c == '\n' || c == '\r' || c == '\t' || c == Backspace || c == FormFeed
    ensures ParseEscape(EscapeChar(c)[1..] + t) == Some((c, t))
  {
    var s := EscapeChar(c)[1..] + t;
    assert s[1..] == t;
  }

  /** A `\uXXXX` escape of a character in the Basic Multilingual Plane. */
  lemma BmpEscapeRoundTrip(c: char, t: string)
    requires c as int < 0x10000
    ensures ParseUnicode(UnicodeEscape(c as int)[2..] + t) == Some((c, t))
  {
    Hex4RoundTrip(c as int, t);
  }

  lemma SurrogateArithmetic(n: int)
    requires 0 <= n < 0x100000
    ensures 0xD800 <= 0xD800 + n / 1024 < 0xDC00
    ensures 0xDC00 <= 0xDC00 + n % 1024 < 0xE000
    ensures 0x10000 + ((0xD800 + n / 1024) - 0xD800) * 1024 + ((0xDC00 + n % 1024) - 0xDC00) == 0x10000 + n
  {
  }

  /** An escaped high surrogate followed by an escaped low surrogate reads as the character
      the pair encodes. */
  lemma PairRoundTrip(hi: int, lo: int, t: string)
    requires 0xD800 <= hi < 0xDC00 && 0xDC00 <= lo < 0xE000
    ensures ParseUnicode(UnicodeEscape(hi)[2..] + UnicodeEscape(lo) + t)
         == Some(((0x10000 + (hi - 0xD800) * 1024 + (lo - 0xDC00)) as char, t))
  {
    var high, low := UnicodeEscape(hi)[2..], UnicodeEscape(lo);
    Hex4RoundTrip(hi, low + t);
    LowEscape(lo, t);
    Associative(high, low, t);
  }

  /** The second escape of a pair: a backslash, `u`, and four digits reading back as `lo`. */
  lemma LowEscape(lo: int, t: string)
    requires 0xDC00 <= lo < 0xE000
    ensures var r := UnicodeEscape(lo) + t;
            |r| >= 2 && r[0] == '\\' && r[1] == 'u' && ParseHex4(r[2..]) == Some((lo, t))
  {
    Hex4RoundTrip(lo, t);
    assert (UnicodeEscape(lo) + t)[2..] == UnicodeEscape(lo)[2..] + t;
  }

  /** A `\uXXXX` escape, after its backslash, reads back as its character. */
  lemma BmpEscapeCharRoundTrip(c: char, e: string, t: string)
    requires c as int < 0x10000 && e == UnicodeEscape(c as int)
    ensures ParseEscape(e[1..] + t) == Some((c, t))
  {
    var u := e[1..] + t;
    BmpEscapeRoundTrip(c, t);
    assert u[1..] == UnicodeEscape(c as int)[2..] + t;
  }

  /** A surrogate pair escape, after its first backslash, reads back as its character. */
  lemma PairEscapeCharRoundTrip(c: char, hi: int, lo: int, e: string, t: string)
    requires 0xD800 <= hi < 0xDC00 && 0xDC00 <= lo < 0xE000
    requires c as int == 0x10000 + (hi - 0xD800) * 1024 + (lo - 0xDC00)
    requires e == UnicodeEscape(hi) + UnicodeEscape(lo)
    ensures ParseEscape(e[1..] + t) == Some((c, t))
  {
    var u := e[1..] + t;
    PairRoundTrip(hi, lo, t);
    assert u[1..] == UnicodeEscape(hi)[2..] + UnicodeEscape(lo) + t;
  }

  /** An escape written by `EscapeChar` (everything after its backslash) parses back to the
      character, and what follows is left alone. */
  lemma EscapeRoundTrip(c: char, t: string)
    requires EscapeChar(c)[0] == '\\'
    ensures ParseEscape(EscapeChar(c)[1..] + t) == Some((c, t))
  {
    if c == '"' || c == '\\' || c == '\n' || c == '\r' || c == '\t' || c == Backspace || c == FormFeed {
      ShortEscapeRoundTrip(c, t);
    } else if ' ' <= c <= '~' {
      assert false;
    } else if c as int < 0x10000 {
      BmpEscapeCharRoundTrip(c, EscapeChar(c), t);
    } else {
      var n := c as int - 0x10000;
      SurrogateArithmetic(n);
      PairEscapeCharRoundTrip(c, 0xD800 + n / 1024, 0xDC00 + n % 1024, EscapeChar(c), t);
    }
  }

  /** One written character in front of a parsable remainder parses to that character in front
      of the remainder's characters. */
  lemma EscapeCharStep(c: char, x: string, t: string, rest: string)
    requires ParseChars(x) == Some((t, rest))
    ensures ParseChars(EscapeChar(c) + x) == Some(([c] + t, rest))
  {
    var e := EscapeChar(c);
    var s := e + x;
    if e[0] == '\\' {
      EscapeRoundTrip(c, x);
      assert s[1..] == e[1..] + x;
    } else {
      assert e == [c] && ' ' <= c <= '~' && c != '"';
      assert s[1..] == x;
    }
  }

  /** The body of a string literal, its closing quote and anything after it parse back to the
      string and that remainder. */
  lemma {:induction false} EscapeBodyRoundTrip(s: string, t: string)
    ensures ParseChars(EscapeBody(s) + "\"" + t) == Some((s, t))
    decreases |s|
  {
    if s == [] {
      assert EscapeBody(s) + "\"" + t == "\"" + t;
      assert ("\"" + t)[1..] == t;
    } else {
      EscapeBodyRoundTrip(s[1..], t);
      EscapeBodyStep(s[0], s[1..], t);
      assert [s[0]] + s[1..] == s;
    }
  }

  /** One more character in front of a body that parses back. */
  lemma EscapeBodyStep(c: char, rest: string, t: string)
    requires ParseChars(EscapeBody(rest) + "\"" + t) == Some((rest, t))
    ensures ParseChars(EscapeBody([c] + rest) + "\"" + t) == Some(([c] + rest, t))
  {
    var head, body := EscapeChar(c), EscapeBody(rest);
    assert ([c] + rest)[1..] == rest;
    ConcatCons(EscapeChar, [c] + rest);
    Associative(head, body, "\"");
    Associative(head, body + "\"", t);
    EscapeCharStep(c, body + "\"" + t, rest, t);
  }

  /** A string literal parses back to its string. */
  lemma QuoteRoundTrip(s: string, t: string)
    ensures ParseString(Quote(s) + t) == Some((s, t))
  {
    EscapeBodyRoundTrip(s, t);
    assert (Quote(s) + t)[1..] == EscapeBody(s) + "\"" + t;
  }

  /** The digits of `NatText(n)` stand for `n`. */
  lemma {:induction false} NatTextValue(n: nat)
    ensures DigitsValue(NatText(n)) == n
    decreases n
  {
    if n >= 10 {
      NatTextValue(n / 10);
      var d := NatText(n);
      assert d[..|d| - 1] == NatText(n / 10);
    }
  }

  /** A run of digits followed by a non-digit is split off exactly. */
  lemma {:induction false} SpanDigitsOf(d: string, t: string)
    requires AllDigits(d)
    requires t == [] || !IsDigit(t[0])
    ensures SpanDigits(d + t) == (d, t)
    decreases |d|
  {
    if d == [] {
      assert d + t == t;
    } else {
      SpanDigitsOf(d[1..], t);
      assert (d + t)[1..] == d[1..] + t;
      assert [d[0]] + d[1..] == d;
    }
  }

  /** A run of digits followed by a non-digit parses back to the number it stands for. */
  lemma DigitsRoundTrip(d: string, t: string)
    requires d != [] && AllDigits(d)
    requires t == [] || !IsDigit(t[0])
    ensures ParseNat(d + t) == Some((DigitsValue(d), t))
  {
    SpanDigitsOf(d, t);
  }

  /** Digits followed by a non-digit parse back to the number they stand for. */
  lemma NatRoundTrip(n: nat, t: string)
    requires t == [] || !IsDigit(t[0])
    ensures ParseInt(NatText(n) + t) == Some((n, t))
  {
    var d := NatText(n);
    NatTextValue(n);
    DigitsRoundTrip(d, t);
    assert IsDigit((d + t)[0]);
  }

  /** A minus sign and digits parse back to the negated number. */
  lemma NegRoundTrip(m: nat, t: string)
    requires t == [] || !IsDigit(t[0])
    ensures ParseInt("-" + NatText(m) + t) == Some((-(m as int), t))
  {
    var d := NatText(m);
    NatTextValue(m);
    DigitsRoundTrip(d, t);
    Associative("-", d, t);
    assert ("-" + (d + t))[1..] == d + t;
  }

  lemma IntRoundTrip(n: int, t: string)
    requires t == [] || !IsDigit(t[0])
    ensures ParseInt(IntText(n) + t) == Some((n, t))
  {
    if n < 0 {
      NegRoundTrip(-n, t);
    } else {
      NatRoundTrip(n, t);
    }
  }

  /** A value followed by a non-digit parses back to the value. */
  lemma ValueRoundTrip(v: Value, t: string)
    requires t == [] || !IsDigit(t[0])
    ensures ParseValue(ValueText(v) + t) == Some((v, t))
  {
    match v
    case Str(s) =>
      QuoteRoundTrip(s, t);
    case Int(n) =>
      IntRoundTrip(n, t);
      var e := IntText(n);
      assert e[0] == '-' || IsDigit(e[0]);
  }

  /** The key of a member parses back, leaving the key separator and the value. */
  lemma KeyRoundTrip(m: (string, Value), t: string)
    ensures ParseString(MemberText(m) + t) == Some((m.0, ":" + ValueText(m.1) + t))
  {
    QuoteRoundTrip(m.0, ":" + ValueText(m.1) + t);
    assert MemberText(m) + t == Quote(m.0) + (":" + ValueText(m.1) + t);
  }

  /** The last member and the closing brace. */
  lemma LastMemberRoundTrip(m: (string, Value))
    ensures ParseMembers(MemberText(m) + "}") == Some([m])
  {
    var x := ":" + ValueText(m.1) + "}";
    KeyRoundTrip(m, "}");
    ValueRoundTrip(m.1, "}");
    assert x[1..] == ValueText(m.1) + "}";
  }

  /** A member's key and value read back, leaving what follows the value. */
  lemma MemberParts(m: (string, Value), t: string)
    requires t == [] || !IsDigit(t[0])
    ensures var x := ":" + ValueText(m.1) + t;
            && ParseString(MemberText(m) + t) == Some((m.0, x))
            && x != [] && x[0] == ':' && ParseValue(x[1..]) == Some((m.1, t))
  {
    var x := ":" + ValueText(m.1) + t;
    assert ParseString(MemberText(m) + t) == Some((m.0, x)) by {
      KeyRoundTrip(m, t);
    }
    assert x[1..] == ValueText(m.1) + t;
    assert ParseValue(x[1..]) == Some((m.1, t)) by {
      ValueRoundTrip(m.1, t);
    }
  }

  /** A member, the item separator and further members. */
  lemma NextMemberRoundTrip(m: (string, Value), u: string, more: Object)
    requires ParseMembers(u) == Some(more)
    ensures ParseMembers(MemberText(m) + "," + u) == Some([m] + more)
  {
    var t := "," + u;
    MemberParts(m, t);
    assert t[0] == ',' && t != "}" && t[1..] == u;
    assert MemberText(m) + "," + u == MemberText(m) + t;
  }

  /** The members and the closing brace parse back to the members. */
  lemma {:induction false} MembersRoundTrip(o: Object)
    requires |o| >= 1
    ensures ParseMembers(MembersText(o) + "}") == Some(o)
    decreases |o|
  {
    if |o| == 1 {
      LastMemberRoundTrip(o[0]);
      assert [o[0]] == o;
    } else {
      MembersRoundTrip(o[1..]);
      NextMemberRoundTrip(o[0], MembersText(o[1..]) + "}", o[1..]);
      assert MembersText(o) + "}" == MemberText(o[0]) + "," + (MembersText(o[1..]) + "}");
      assert [o[0]] + o[1..] == o;
    }
  }

  /** Parsing undoes `Dumps`: the compact text determines every key, every value and their
      order. */
  lemma ParseDumps(o: Object)
    ensures Parse(Dumps(o)) == Some(o)
  {
    if o != [] {
      MembersRoundTrip(o);
      assert Dumps(o)[1..] == MembersText(o) + "}";
    }
  }

  // ---------------------------------------------------------------------------------------
  // `ensure_ascii`: everything `Dumps` writes is ASCII.

  lemma EscapeCharAscii(c: char)
    ensures IsAscii(EscapeChar(c))
  {
    var e := EscapeChar(c);
    if !(c == '"' || c == '\\' || c == '\n' || c == '\r' || c == '\t' || c == Backspace || c == FormFeed
         || (' ' <= c <= '~')) {
      if c as int < 0x10000 {
        assert e == UnicodeEscape(c as int);
      } else {
        var n := c as int - 0x10000;
        SurrogateArithmetic(n);
        AsciiConcat(UnicodeEscape(0xD800 + n / 1024), UnicodeEscape(0xDC00 + n % 1024));
      }
    }
  }

  lemma {:induction false} EscapeBodyAscii(s: string)
    ensures IsAscii(EscapeBody(s))
    decreases |s|
  {
    if s != [] {
      EscapeBodyAscii(s[..|s| - 1]);
      EscapeCharAscii(s[|s| - 1]);
      AsciiConcat(EscapeBody(s[..|s| - 1]), EscapeChar(s[|s| - 1]));
    }
  }

  lemma QuoteAscii(s: string)
    ensures IsAscii(Quote(s))
  {
    EscapeBodyAscii(s);
    AsciiConcat("\"", EscapeBody(s));
    AsciiConcat("\"" + EscapeBody(s), "\"");
  }

  lemma ValueTextAscii(v: Value)
    ensures IsAscii(ValueText(v))
  {
    match v
    case Str(s) => QuoteAscii(s);
    case Int(n) =>
      var d := NatText(if n < 0 then -n else n);
      assert IsAscii(d);
      if n < 0 {
        AsciiConcat("-", d);
      }
  }

  lemma MemberTextAscii(m: (string, Value))
    ensures IsAscii(MemberText(m))
  {
    QuoteAscii(m.0);
    ValueTextAscii(m.1);
    AsciiConcat(Quote(m.0), ":");
    AsciiConcat(Quote(m.0) + ":", ValueText(m.1));
  }

  lemma {:induction false} MembersTextAscii(o: Object)
    requires |o| >= 1
    ensures IsAscii(MembersText(o))
    decreases |o|
  {
    MemberTextAscii(o[0]);
    if |o| > 1 {
      MembersTextAscii(o[1..]);
      AsciiConcat(MemberText(o[0]), ",");
      AsciiConcat(MemberText(o[0]) + ",", MembersText(o[1..]));
    }
  }

  /** The serialised text is pure ASCII, so its UTF-8 bytes are its character codes. */
  lemma DumpsAscii(o: Object)
    ensures IsAscii(Dumps(o))
  {
    if o != [] {
      MembersTextAscii(o);
      AsciiConcat("{", MembersText(o));
      AsciiConcat("{" + MembersText(o), "}");
    }
  }
}
