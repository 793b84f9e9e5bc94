/** `generate_random_string` of utils.py: `length` independent draws from the 62-character
    alphabet `string.ascii_letters + string.digits`. The secure random source is not modelled;
    its answers are the sequence `draws`, one alphabet index per character. */
module Utils {

  const AsciiLowercase := "abcdefghijklmnopqrstuvwxyz"
  const AsciiUppercase := "ABCDEFGHIJKLMNOPQRSTUVWXYZ"
  const Digits := "0123456789"

  /** `string.ascii_letters + string.digits`: lower case first, then upper case, then digits. */
  const Characters := AsciiLowercase + AsciiUppercase + Digits

  /** One answer of `secrets.choice(characters)`: an index into `Characters`. */
  type Draw = i: int | 0 <= i < 62

  /** The class [A-Za-z0-9], defined by character ranges independently of `Characters`. */
  predicate IsAlnum(c: char) {
    ('a' <= c <= 'z') || ('A' <= c <= 'Z') || ('0' <= c <= '9')
  }

  /** The position of an alphanumeric character in `Characters`. */
  function AlnumIndex(c: char): (i: Draw)
    requires IsAlnum(c)
  {
    if 'a' <= c <= 'z' then c as int - 'a' as int
    else if 'A' <= c <= 'Z' then c as int - 'A' as int + 26
    else c as int - '0' as int + 52
  }

  lemma LowercaseAt(i: int)
    requires 0 <= i < 26
    ensures AsciiLowercase[i] as int == 'a' as int + i
  {
  }

  lemma UppercaseAt(i: int)
    requires 0 <= i < 26
    ensures AsciiUppercase[i] as int == 'A' as int + i
  {
  }

  lemma DigitsAt(i: int)
    requires 0 <= i < 10
    ensures Digits[i] as int == '0' as int + i
  {
  }

  /** `Characters` lists exactly the alphanumeric characters, each at its `AlnumIndex`. */
  lemma CharactersAt(i: Draw)
    ensures |Characters| == 62
    ensures IsAlnum(Characters[i]) && AlnumIndex(Characters[i]) == i
  {
    if i < 26 {
      LowercaseAt(i);
      assert Characters[i] == AsciiLowercase[i];
    } else if i < 52 {
      UppercaseAt(i - 26);
      assert Characters[i] == AsciiUppercase[i - 26];
    } else {
      DigitsAt(i - 52);
      assert Characters[i] == Digits[i - 52];
    }
  }

  /** `''.join(secrets.choice(characters) for i in range(length))`: character i is the
      alphabet entry named by draw i. */
  function GenerateRandomString(length: nat, draws: seq<Draw>): (r: string)
    requires |draws| == length
    ensures |r| == length
    ensures forall i :: 0 <= i < length ==> r[i] == Characters[draws[i]]
  {
    if length == 0 then "" else [Characters[draws[0]]] + GenerateRandomString(length - 1, draws[1..])
  }

  /** The shape every generated password has: exactly `n` characters of [A-Za-z0-9]. */
  predicate IsAlnumOfLength(s: string, n: nat) {
    |s| == n && forall i :: 0 <= i < |s| ==> IsAlnum(s[i])
  }

  /** The result has the requested length, only alphanumeric characters, and none of the
      characters that would break a token, a padded encoding or a shell word. */
  lemma GeneratedIsAlnum(length: nat, draws: seq<Draw>)
    requires |draws| == length
    ensures IsAlnumOfLength(GenerateRandomString(length, draws), length)
    ensures forall c :: c in GenerateRandomString(length, draws) ==>
              c != '.' && c != '=' && c != '-' && c != '_' && c != ' ' && c != '\n' && c != '\t' && c != '\r'
  {
    var r := GenerateRandomString(length, draws);
    forall i | 0 <= i < length ensures IsAlnum(r[i]) {
      CharactersAt(draws[i]);
    }
  }

  /** Every draw can be read back from the character it produced, so different draws give
      different strings. */
  lemma GeneratedDeterminesDraws(length: nat, draws: seq<Draw>)
    requires |draws| == length
    ensures forall i :: 0 <= i < length ==>
              IsAlnum(GenerateRandomString(length, draws)[i]) &&
              AlnumIndex(GenerateRandomString(length, draws)[i]) == draws[i]
  {
    forall i | 0 <= i < length
      ensures IsAlnum(GenerateRandomString(length, draws)[i])
      ensures AlnumIndex(GenerateRandomString(length, draws)[i]) == draws[i]
    {
      CharactersAt(draws[i]);
    }
  }

  /** Equal outputs come from equal draws. */
  lemma GeneratedInjective(length: nat, d1: seq<Draw>, d2: seq<Draw>)
    requires |d1| == length && |d2| == length
    requires GenerateRandomString(length, d1) == GenerateRandomString(length, d2)
    ensures d1 == d2
  {
    GeneratedDeterminesDraws(length, d1);
    GeneratedDeterminesDraws(length, d2);
  }

  /** Asking for no characters makes no draws and gives the empty string. */
  lemma GeneratedEmpty(draws: seq<Draw>)
    requires |draws| == 0
    ensures GenerateRandomString(0, draws) == ""
  {
  }
}
