/** `AppConfig._generate_supabase_key` of config.py: an HS256-signed JSON Web Token built by hand.
    The header and the payload are serialised with `json.dumps(..., separators=(",", ":"))`,
    encoded as URL-safe base 64 without padding and joined by `.`; the signature is the
    HMAC-SHA256 of that signing input under the UTF-8 bytes of the secret, encoded the same way.
    The wall clock and HMAC-SHA256 are not modelled: they are the parameters `clock` and `mac`.
    A decoder and a verifier are the partners that show what a token carries. */
module Token {
  import opened Wrappers
  import opened Text
  import Base64Url
  import Json
  import PyStr

  /** The two `int(time.time())` readings, taken for `iat` and for `exp` in that order. */
  datatype Clock = Clock(iatReading: int, expReading: int)

  /** A SHA-256 digest: 32 bytes. */
  type Digest = d: seq<byte> | |d| == 32 witness seq(32, _ => 0)

  /** `hmac.new(key, message, hashlib.sha256).digest()`. */
  type Mac = (seq<byte>, seq<byte>) -> Digest

  /** About six months, in seconds: `exp` is this far after the second clock reading. */
  const Lifetime := 15777000

  /** `{"alg": "HS256", "typ": "JWT"}`, written as two one-member lists joined so that the
      verifier does not expand its serialisation in every proof that mentions a key. */
  function Header(): Json.Object { [("alg", Json.Str("HS256"))] + [("typ", Json.Str("JWT"))] }

  /** The `aud` claim: "authenticated" for the anon role and empty for every other role. */
  function Audience(role: string): (a: string)
    ensures a == "authenticated" <==> role == "anon"
    ensures a != "authenticated" ==> a == ""
  {
    if role == "anon" then "authenticated" else ""
  }

  /** The claims, in the order the source's dict literal lists them. */
  function Payload(role: string, clock: Clock): Json.Object {
    [ ("sub", Json.Str("supabase-auth")),
      ("iss", Json.Str("supabase")),
      ("aud", Json.Str(Audience(role))),
      ("iat", Json.Int(clock.iatReading)),
      ("exp", Json.Int(clock.expReading + Lifetime)),
      ("role", Json.Str(role)) ]
  }

  /** `base64.urlsafe_b64encode(b).decode("utf-8").rstrip("=").replace("\n", "")`. */
  function Segment(b: seq<byte>): string {
    PyStr.RemoveAll(PyStr.RStrip(Base64Url.Encode(b), '='), '\n')
  }

  /** The inner `b64encode` helper: compact JSON, UTF-8, unpadded URL-safe base 64. */
  function EncodeObject(o: Json.Object): string {
    Segment(Utf8(Json.Dumps(o)))
  }

  /** `f"{header_b64}.{payload_b64}"`. */
  function SigningInput(header: Json.Object, payload: Json.Object): string {
    EncodeObject(header) + "." + EncodeObject(payload)
  }

  /** The signing input, `.`, and the encoded HMAC of the signing input's UTF-8 bytes under the
      secret's UTF-8 bytes. */
  function Sign(header: Json.Object, payload: Json.Object, secret: string, mac: Mac): string {
    var message := SigningInput(header, payload);
    message + "." + Segment(mac(Utf8(secret), Utf8(message)))
  }

  /** `_generate_supabase_key(jwt_secret, role)` at the given clock readings. */
  function SupabaseKey(jwtSecret: string, role: string, clock: Clock, mac: Mac): string {
    Sign(Header(), Payload(role, clock), jwtSecret, mac)
  }

  // ---------------------------------------------------------------------------------------
  // The partners: decoding a segment, a whole token, and checking a signature.

  /** Reinstates the padding and decodes. */
  function DecodeSegment(s: string): Option<seq<byte>> {
    Base64Url.Decode(Base64Url.Repad(s))
  }

  /** A segment holding compact JSON. */
  function DecodeObject(s: string): Option<Json.Object> {
    var b :- DecodeSegment(s);
    var text :- AsciiText(b);
    Json.Parse(text)
  }

  datatype Decoded = Decoded(header: Json.Object, payload: Json.Object, signature: seq<byte>)

  /** Splits a token on `.` into exactly three segments and decodes each. */
  function DecodeToken(token: string): Option<Decoded> {
    var parts := PyStr.Split(token, '.');
    if |parts| != 3 then None
    else
      var header :- DecodeObject(parts[0]);
      var payload :- DecodeObject(parts[1]);
      var signature :- DecodeSegment(parts[2]);
      Some(Decoded(header, payload, signature))
  }

  /** Recomputes the HMAC of the first two segments under `secret` and compares it with the
      decoded third segment. */
  predicate Verify(token: string, secret: string, mac: Mac) {
    var parts := PyStr.Split(token, '.');
    && |parts| == 3
    && DecodeSegment(parts[2]) == Some(mac(Utf8(secret), Utf8(parts[0] + "." + parts[1])))
  }

  /** The value of the first member named `key`. */
  function Claim(o: Json.Object, key: string): Option<Json.Value> {
    if o == [] then None
    else if o[0].0 == key then Some(o[0].1)
    else Claim(o[1..], key)
  }

  /** `Claim` finds the first member with the key, and finds nothing when no member has it. */
  lemma {:induction false} ClaimFirst(o: Json.Object, key: string, i: int)
    requires 0 <= i <= |o|
    requires forall j :: 0 <= j < i ==> o[j].0 != key
    ensures i < |o| && o[i].0 == key ==> Claim(o, key) == Some(o[i].1)
    ensures i == |o| ==> Claim(o, key) == None
    decreases i
  {
    if i > 0 {
      ClaimFirst(o[1..], key, i - 1);
    }
  }

  // ---------------------------------------------------------------------------------------
  // What a segment is.

  /** The characters a segment may contain: the URL-safe alphabet, so never `.`, `=` or a
      newline. */
  predicate IsSegmentText(s: string) {
    forall i :: 0 <= i < |s| ==> Base64Url.IsSymbol(s[i])
  }

  /** Stripping `=` removes exactly the padding and nothing else, and there is no newline to
      remove: a segment is the padded encoding without its last `PadCount` characters. */
  lemma SegmentIsUnpadded(b: seq<byte>)
    ensures var e := Base64Url.Encode(b);
            && |e| >= Base64Url.PadCount(|b|)
            && Segment(b) == e[..|e| - Base64Url.PadCount(|b|)]
            && IsSegmentText(Segment(b))
  {
    var e := Base64Url.Encode(b);
    var pad := Base64Url.PadCount(|b|);
    Base64Url.EncodeShape(b);
    var k := |e| - pad;
    if k > 0 {
      assert Base64Url.IsSymbol(e[k - 1]);
    }
    PyStr.RStripSuffix(e, '=', k);
    var r := PyStr.RStrip(e, '=');
    forall i | 0 <= i < k ensures Base64Url.IsSymbol(r[i]) {
      assert r[i] == e[i];
    }
    assert '\n' !in r;
    assert Segment(b) == r;
  }

  /** Reinstating the padding and decoding gives the bytes back. */
  lemma DecodeSegmentOf(b: seq<byte>)
    ensures DecodeSegment(Segment(b)) == Some(b)
  {
    SegmentIsUnpadded(b);
    Base64Url.RepadUnpadded(b);
    Base64Url.DecodeEncode(b);
  }

  /** Three pieces without `.` joined by `.` split back into those pieces. */
  lemma SplitThree(h: string, p: string, s: string)
    requires '.' !in h && '.' !in p && '.' !in s
    ensures PyStr.Split(h + "." + p + "." + s, '.') == [h, p, s]
  {
    var parts := [h, p, s];
    assert PyStr.Join(parts, '.') == h + "." + p + "." + s by {
      assert PyStr.Join(parts[1..], '.') == p + "." + s by {
        assert parts[1..][1..] == [s];
      }
    }
    PyStr.SplitJoin(parts, '.');
  }

  /** A segment contains no `.`, so it cannot be confused with a separator. */
  lemma SegmentText(b: seq<byte>)
    ensures IsSegmentText(Segment(b)) && '.' !in Segment(b)
  {
    SegmentIsUnpadded(b);
  }

  /** A segment is the padded encoding's length less the padding. */
  lemma SegmentLength(b: seq<byte>)
    ensures |Segment(b)| == 4 * ((|b| + 2) / 3) - Base64Url.PadCount(|b|)
  {
    SegmentIsUnpadded(b);
  }

  /** An HMAC-SHA256 signature segment has 43 characters: 32 bytes take 44 padded symbols, the
      last of which is the single `=` that is stripped. */
  lemma SignatureSegmentLength(d: Digest)
    ensures |Segment(d)| == 43
  {
    SegmentLength(d);
    assert Base64Url.PadCount(32) == 1;
  }

  /** A JSON segment decodes back to its object. */
  lemma DecodeObjectOf(o: Json.Object)
    ensures DecodeObject(EncodeObject(o)) == Some(o)
  {
    var text := Json.Dumps(o);
    DecodeSegmentOf(Utf8(text));
    Json.DumpsAscii(o);
    AsciiTextOfUtf8(text);
    Json.ParseDumps(o);
  }

  // ---------------------------------------------------------------------------------------
  // What a signed token is, for any header and payload.

  /** A signed token splits on `.` into exactly three pieces: the header segment, the payload
      segment and the 43-character signature segment, all in the URL-safe alphabet. */
  lemma SignedStructure(header: Json.Object, payload: Json.Object, secret: string, mac: Mac)
    ensures PyStr.Split(Sign(header, payload, secret, mac), '.')
         == [EncodeObject(header), EncodeObject(payload), Segment(mac(Utf8(secret), Utf8(SigningInput(header, payload))))]
    ensures IsSegmentText(EncodeObject(header)) && IsSegmentText(EncodeObject(payload))
    ensures IsSegmentText(Segment(mac(Utf8(secret), Utf8(SigningInput(header, payload)))))
    ensures |Segment(mac(Utf8(secret), Utf8(SigningInput(header, payload))))| == 43
  {
    var d := mac(Utf8(secret), Utf8(SigningInput(header, payload)));
    SegmentText(Utf8(Json.Dumps(header)));
    SegmentText(Utf8(Json.Dumps(payload)));
    SegmentText(d);
    SignatureSegmentLength(d);
    SplitThree(EncodeObject(header), EncodeObject(payload), Segment(d));
  }

  /** Decoding a signed token gives back the header, the payload and the HMAC of the signing
      input under the secret's UTF-8 bytes. */
  lemma DecodeSigned(header: Json.Object, payload: Json.Object, secret: string, mac: Mac)
    ensures DecodeToken(Sign(header, payload, secret, mac))
         == Some(Decoded(header, payload, mac(Utf8(secret), Utf8(SigningInput(header, payload)))))
  {
    SignedStructure(header, payload, secret, mac);
    DecodeObjectOf(header);
    DecodeObjectOf(payload);
    DecodeSegmentOf(mac(Utf8(secret), Utf8(SigningInput(header, payload))));
  }

  /** A signed token verifies against a secret exactly when that secret's HMAC of the signing
      input is the digest it was signed with; in particular it verifies against its own secret. */
  lemma VerifySigned(header: Json.Object, payload: Json.Object, secret: string, other: string, mac: Mac)
    ensures Verify(Sign(header, payload, secret, mac), other, mac)
        <==> mac(Utf8(other), Utf8(SigningInput(header, payload))) == mac(Utf8(secret), Utf8(SigningInput(header, payload)))
  {
    SignedStructure(header, payload, secret, mac);
    DecodeSegmentOf(mac(Utf8(secret), Utf8(SigningInput(header, payload))));
  }

  // ---------------------------------------------------------------------------------------
  // What a Supabase key is.

  lemma HeaderClaims()
    ensures Claim(Header(), "alg") == Some(Json.Str("HS256"))
    ensures Claim(Header(), "typ") == Some(Json.Str("JWT"))
  {
    ClaimFirst(Header(), "alg", 0);
    ClaimFirst(Header(), "typ", 1);
  }

  /** The claims: fixed subject and issuer, the role, `aud` "authenticated" exactly for the
      anon role and empty otherwise, `iat` the first clock reading and `exp` `Lifetime` seconds
      after the second. */
  lemma PayloadClaims(role: string, clock: Clock)
    ensures var p := Payload(role, clock);
            && Claim(p, "sub") == Some(Json.Str("supabase-auth"))
            && Claim(p, "iss") == Some(Json.Str("supabase"))
            && Claim(p, "aud") == Some(Json.Str(Audience(role)))
            && Claim(p, "iat") == Some(Json.Int(clock.iatReading))
            && Claim(p, "exp") == Some(Json.Int(clock.expReading + Lifetime))
            && Claim(p, "role") == Some(Json.Str(role))
  {
    var p := Payload(role, clock);
    ClaimFirst(p, "sub", 0);
    ClaimFirst(p, "iss", 1);
    ClaimFirst(p, "aud", 2);
    ClaimFirst(p, "iat", 3);
    ClaimFirst(p, "exp", 4);
    ClaimFirst(p, "role", 5);
  }

  /** A key splits on `.` into the header segment, the payload segment and the 43-character
      segment of the HMAC of the signing input under the secret. */
  lemma KeyStructure(jwtSecret: string, role: string, clock: Clock, mac: Mac)
    ensures var sig := Segment(mac(Utf8(jwtSecret), Utf8(SigningInput(Header(), Payload(role, clock)))));
            && PyStr.Split(SupabaseKey(jwtSecret, role, clock, mac), '.')
               == [EncodeObject(Header()), EncodeObject(Payload(role, clock)), sig]
            && |sig| == 43 && IsSegmentText(sig)
    ensures IsSegmentText(EncodeObject(Header())) && IsSegmentText(EncodeObject(Payload(role, clock)))
  {
    SignedStructure(Header(), Payload(role, clock), jwtSecret, mac);
  }

  /** The claims any signed token with these claims decodes to, whatever its header. */
  lemma SignedPayloadClaims(header: Json.Object, role: string, clock: Clock, secret: string, mac: Mac, d: Decoded)
    requires DecodeToken(Sign(header, Payload(role, clock), secret, mac)) == Some(d)
    ensures Claim(d.payload, "role") == Some(Json.Str(role))
    ensures Claim(d.payload, "aud") == Some(Json.Str(Audience(role)))
    ensures Claim(d.payload, "iat") == Some(Json.Int(clock.iatReading))
    ensures Claim(d.payload, "exp") == Some(Json.Int(clock.expReading + Lifetime))
  {
    DecodeSigned(header, Payload(role, clock), secret, mac);
    PayloadClaims(role, clock);
  }

  /** The header a key decodes to names the algorithm HS256 and the type JWT. */
  lemma KeyHeaderClaims(jwtSecret: string, role: string, clock: Clock, mac: Mac, d: Decoded)
    requires DecodeToken(SupabaseKey(jwtSecret, role, clock, mac)) == Some(d)
    ensures Claim(d.header, "alg") == Some(Json.Str("HS256"))
    ensures Claim(d.header, "typ") == Some(Json.Str("JWT"))
  {
    DecodeSigned(Header(), Payload(role, clock), jwtSecret, mac);
    HeaderClaims();
  }

  /** The claims a key decodes to: the role it was made for; the audience `Audience(role)`,
      "authenticated" exactly for the anon role and empty otherwise; `iat` the first clock
      reading; `exp` `Lifetime` seconds after the second reading, hence at least that far
      after `iat` when the clock does not run backwards. */
  lemma KeyPayloadClaims(jwtSecret: string, role: string, clock: Clock, mac: Mac, d: Decoded)
    requires DecodeToken(SupabaseKey(jwtSecret, role, clock, mac)) == Some(d)
    ensures Claim(d.payload, "role") == Some(Json.Str(role))
    ensures Claim(d.payload, "aud") == Some(Json.Str(Audience(role)))
    ensures Claim(d.payload, "iat") == Some(Json.Int(clock.iatReading))
    ensures Claim(d.payload, "exp") == Some(Json.Int(clock.expReading + Lifetime))
  {
    SignedPayloadClaims(Header(), role, clock, jwtSecret, mac, d);
  }

  /** Every key decodes. */
  lemma KeyDecodes(jwtSecret: string, role: string, clock: Clock, mac: Mac)
    ensures DecodeToken(SupabaseKey(jwtSecret, role, clock, mac))
         == Some(Decoded(Header(), Payload(role, clock), mac(Utf8(jwtSecret), Utf8(SigningInput(Header(), Payload(role, clock))))))
  {
    DecodeSigned(Header(), Payload(role, clock), jwtSecret, mac);
  }

  /** A key verifies against the secret it was signed with. */
  lemma KeyVerifies(jwtSecret: string, role: string, clock: Clock, mac: Mac)
    ensures Verify(SupabaseKey(jwtSecret, role, clock, mac), jwtSecret, mac)
  {
    VerifySigned(Header(), Payload(role, clock), jwtSecret, jwtSecret, mac);
  }

  /** A key verifies against another secret exactly when that secret gives the same HMAC of
      the signing input. */
  lemma KeyVerifiesExactly(jwtSecret: string, other: string, role: string, clock: Clock, mac: Mac)
    ensures var m := Utf8(SigningInput(Header(), Payload(role, clock)));
            Verify(SupabaseKey(jwtSecret, role, clock, mac), other, mac) <==> mac(Utf8(other), m) == mac(Utf8(jwtSecret), m)
  {
    assert SupabaseKey(jwtSecret, role, clock, mac) == Sign(Header(), Payload(role, clock), jwtSecret, mac);
    VerifySigned(Header(), Payload(role, clock), jwtSecret, other, mac);
  }

  /** Keys for different roles are different strings, whatever the secrets and clocks. */
  lemma RolesGiveDifferentKeys(s1: string, s2: string, role1: string, role2: string, c1: Clock, c2: Clock, mac: Mac)
    requires role1 != role2
    ensures SupabaseKey(s1, role1, c1, mac) != SupabaseKey(s2, role2, c2, mac)
  {
    DecodeSigned(Header(), Payload(role1, c1), s1, mac);
    DecodeSigned(Header(), Payload(role2, c2), s2, mac);
    PayloadClaims(role1, c1);
    PayloadClaims(role2, c2);
  }
}
