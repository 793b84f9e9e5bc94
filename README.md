# Secret provisioning of the n8n + Supabase installer

This Dafny project models how the installer's configuration object fills in missing credentials
before it writes the `.env` files of the n8n and Supabase stacks. The operation is
`AppConfig.generate_missing_secrets`. It checks eleven credential attributes in a fixed order.
Each one that is empty (`None` because the environment variable was missing, or `""`) gets a
freshly generated value:

- alphanumeric passwords from `generate_random_string` and from the inline vault-key generator;
- a URL-safe base 64 JWT secret;
- two lower-case hexadecimal secrets;
- the anon and service-role keys. `_generate_supabase_key` builds these by hand as HS256 JSON Web
  Tokens and signs them with the JWT secret as it stands at that moment.

The modules follow the source's layers:

- `Utils`: `generate_random_string` over a sequence of draws from `[A-Za-z0-9]`.
- `Text`: bytes, ASCII, and the UTF-8 encoding behind `str.encode("utf-8")`.
- `PyStr`: `str.rstrip`, `str.replace` (deleting one character) and `str.split`/`join`.
- `Base64Url`: `base64.urlsafe_b64encode` (RFC 4648 section 5, padded) and its decoder.
- `Hex`: `secrets.token_hex` followed by `.lower()`, and its decoder.
- `Json`: `json.dumps(..., separators=(",", ":"))` for flat objects of string and integer
  values, with the default `ensure_ascii` escaping. A parser is its partner.
- `Token`: `_generate_supabase_key` and its inner `b64encode`, with a decoder and a signature
  verifier as partners.
- `Config`: the `AppConfig` class with every attribute its initialiser sets, and the method
  `GenerateMissingSecrets`. That method makes the source's eleven `if not self.x: self.x = v`
  steps in order. Each step is a method of its own that changes its field in place. The pure
  function `Provision` gives the eleven fields' new values, with `Fill(x, v)` for one step, and
  the properties of the provisioner are lemmas about it.

The random sources, the clock and HMAC-SHA256 are inputs. An `Entropy` record holds everything
one call draws:

- the `secrets.choice` indices;
- the bytes behind `secrets.token_bytes(32)` and each `secrets.token_hex(32)`;
- the two `time.time()` readings of each key;
- the HMAC function.

Points of the code that the model keeps as written:

- The JWT secret keeps its base 64 padding. It is 44 characters and ends in one `=`
  (config.py:170).
- A key that is already set is kept even when the JWT secret is generated anew in the same
  run (config.py:172-177). `Config.StaleKeyKept` states this. Such a key will in general not
  verify under the new secret; that is not proved, because HMAC is a parameter.
- Eleven fields are provisioned, the n8n database and pgAdmin passwords among them
  (config.py:161-166).
- `exp` is computed from a second clock reading, not from `iat` (config.py:208-209).

## Model

| member | source | states |
|---|---|---|
| Utils.GenerateRandomString | utils.py:12-15 | the result has exactly the requested length, and its i-th character is the alphabet entry the i-th draw selects |
| Utils.CharactersAt | utils.py:14 | the alphabet `ascii_letters + digits` has 62 characters, each alphanumeric, and each draw's character maps back to that draw |
| Utils.GeneratedIsAlnum | utils.py:12-15 | a generated string is exactly `length` characters of `[A-Za-z0-9]`, so it never holds `.`, `=`, `-`, `_` or whitespace |
| Utils.GeneratedDeterminesDraws | utils.py:15 | every draw can be read back from the character at its position |
| Utils.GeneratedInjective | utils.py:15 | different draw sequences give different strings |
| Utils.GeneratedEmpty | utils.py:12-15 | length 0 gives the empty string |
| Text.Utf8Char | config.py:215 | one character encodes to 1 to 4 bytes, and to one byte equal to its code exactly when it is ASCII |
| Text.Utf8CharForm | config.py:215 | the bytes of a character are a lead byte announcing their number, then continuation bytes, carrying its code point in the fewest bytes that can |
| Text.DecodeCharOf | config.py:215 | strict decoding reads back the encoded character and exactly its bytes, whatever follows |
| Text.Utf8 | config.py:215 | `encode("utf-8")` is at least as long as the text, and on ASCII text it is the character codes one for one |
| Text.FromUtf8OfUtf8 | config.py:215 | strict decoding of the UTF-8 bytes of any text gives the text back |
| Text.Utf8Injective | config.py:222-223 | different texts, secrets included, have different UTF-8 bytes |
| Text.AsciiText | config.py:215 | decoding accepts exactly the byte strings below 128 and gives the characters with those codes |
| Text.AsciiTextOfUtf8 | config.py:215 | decoding the UTF-8 bytes of ASCII text gives the text back |
| PyStr.RStrip | config.py:216 | `rstrip(c)` gives a prefix, everything it drops is `c`, and the result does not end in `c` |
| PyStr.RStripSuffix | config.py:216 | `rstrip(c)` removes exactly the maximal trailing run of `c` |
| PyStr.RemoveAll | config.py:216 | `replace(c, "")` leaves no `c`, never lengthens, and changes nothing when `c` is absent |
| PyStr.RemoveAllChar | config.py:216 | on one character, `replace(c, "")` deletes it exactly when it is `c` |
| PyStr.RemoveAllAppend | config.py:216 | removing from a concatenation concatenates the removals, so the other characters keep their order |
| PyStr.Split | config.py:227 | splitting gives at least one piece and no piece contains the separator |
| PyStr.JoinSplit | config.py:227 | joining the pieces of a split gives the string back |
| PyStr.SplitJoin | config.py:227 | splitting a join of separator-free pieces gives those pieces back |
| Base64Url.Symbol | config.py:170 | every 6-bit value has a symbol of the URL-safe alphabet, and the symbol decodes back to the value |
| Base64Url.Encode | config.py:170 | `urlsafe_b64encode` of n bytes is 4 * ceil(n / 3) characters |
| Base64Url.EncodeShape | config.py:170 | an encoding is alphabet symbols followed by exactly `(3 - n % 3) % 3` padding characters `=` |
| Base64Url.LastGroupRoundTrip | config.py:170 | the final group of one, two or three bytes encodes to four characters and decodes back |
| Base64Url.DecodeEncode | config.py:170 | decoding an encoding gives the bytes back |
| Base64Url.RepadUnpadded | config.py:216 | restoring the stripped `=` to an unpadded encoding gives the padded encoding back |
| Hex.Digit | config.py:179 | each value below 16 has a lower-case hexadecimal digit that reads back as that value |
| Hex.TokenHex | config.py:179 | `token_hex` of n bytes has 2n characters |
| Hex.AsciiLower | config.py:179 | `.lower()` keeps the length, maps `A`-`Z` to `a`-`z` and keeps every other character |
| Hex.TokenHexIsLowerHex | config.py:179 | `token_hex` output is exactly 2n lower-case hexadecimal digits |
| Hex.LowerKeepsTokenHex | config.py:179 | `.lower()` does not change `token_hex` output |
| Hex.FromHexTokenHex | config.py:179 | decoding `token_hex` output gives the bytes back |
| Json.UnicodeEscape | config.py:214 | a `\uXXXX` escape is six characters |
| Json.EscapeRoundTrip | config.py:214 | every backslash escape `ensure_ascii` writes, surrogate pairs included, parses back to its character |
| Json.EscapeCharAscii | config.py:214 | the escape of any character is pure ASCII |
| Json.QuoteRoundTrip | config.py:214 | a serialised string literal parses back to its string, leaving what follows it untouched |
| Json.NatTextValue | config.py:214 | the decimal digits of `str(n)` stand for `n` |
| Json.IntRoundTrip | config.py:214 | a serialised integer, negative ones included, parses back to itself |
| Json.ValueRoundTrip | config.py:214 | a serialised string or integer value parses back to itself |
| Json.MembersRoundTrip | config.py:214 | the `,`-separated `"key":value` members parse back to the same members in the same order |
| Json.EscapeChar | config.py:214 | `ensure_ascii` escaping of one character, never empty; `Json.EscapeRoundTrip` and `Json.EscapeCharAscii` state it |
| Json.Dumps | config.py:214 | `json.dumps(o, separators=(",", ":"))` of a flat object; `Json.ParseDumps` and `Json.DumpsAscii` state it |
| Json.ParseDumps | config.py:214 | parsing the compact serialisation of any object gives the object back |
| Json.DumpsAscii | config.py:214-215 | the compact serialisation is pure ASCII, so its UTF-8 bytes are its character codes |
| Token.Header | config.py:203 | the header object `{"alg": "HS256", "typ": "JWT"}`; `Token.HeaderClaims` states its members |
| Token.Payload | config.py:204-211 | the payload object of a role at two clock readings; `Token.PayloadClaims` states its claims |
| Token.Segment | config.py:215-225 | `urlsafe_b64encode(...).decode().rstrip("=").replace("\n", "")` of bytes; `Token.SegmentIsUnpadded` and `Token.DecodeSegmentOf` state what it is |
| Token.EncodeObject | config.py:213-216 | the inner `b64encode`: the segment of the UTF-8 bytes of the compact JSON text; `Token.DecodeObjectOf` inverts it |
| Token.Sign | config.py:218-227 | header segment, `.`, payload segment, `.`, segment of the HMAC of the signing input under the secret; `Token.SignedStructure`, `Token.DecodeSigned` and `Token.VerifySigned` state it |
| Token.SupabaseKey | config.py:199-227 | `_generate_supabase_key` as `Sign` of the fixed header and the role's payload; `Token.KeyStructure`, `Token.KeyDecodes` and `Token.KeyVerifies` state it |
| Token.Audience | config.py:207 | the `aud` claim is "authenticated" exactly for the anon role, and empty for every other role |
| Token.SegmentIsUnpadded | config.py:213-216 | a segment is the padded base 64 encoding with exactly its trailing `=` removed |
| Token.SegmentText | config.py:213-216 | a segment holds only alphabet symbols and never a `.` |
| Token.SegmentLength | config.py:213-216 | a segment of n bytes is 4 * ceil(n / 3) characters minus the padding |
| Token.SignatureSegmentLength | config.py:222-225 | the signature segment of a 32-byte HMAC-SHA256 digest is 43 characters |
| Token.DecodeSegmentOf | config.py:213-216 | an unpadded segment decodes back to its bytes |
| Token.DecodeObjectOf | config.py:213-216 | a `b64encode` segment decodes back to the object that was serialised |
| Token.SplitThree | config.py:227 | three dot-free segments joined by `.` split back into exactly those three |
| Token.SignedStructure | config.py:218-227 | a signed token splits on `.` into exactly the header segment, the payload segment and the signature segment |
| Token.DecodeSigned | config.py:218-227 | a signed token decodes to its header, its payload and the HMAC of the signing input's UTF-8 bytes under the secret's UTF-8 bytes |
| Token.VerifySigned | config.py:222-227 | a token verifies under a secret exactly when that secret's HMAC of the signing input equals the embedded one |
| Token.HeaderClaims | config.py:203 | the header names `alg` HS256 and `typ` JWT |
| Token.PayloadClaims | config.py:204-211 | the payload carries `sub`, `iss`, `aud` by role, `iat` from the first clock reading, `exp` 15777000 seconds after the second reading, and `role` |
| Token.SignedPayloadClaims | config.py:204-227 | the decoded payload of a signed token names its role and that role's audience |
| Token.KeyStructure | config.py:199-227 | a Supabase key splits on `.` into exactly the encoded header, the encoded payload and the 43-character segment of the HMAC of the signing input under the secret |
| Token.KeyHeaderClaims | config.py:203-227 | a key's decoded header says HS256 and JWT |
| Token.KeyPayloadClaims | config.py:204-227 | a key's decoded payload names its role and that role's audience |
| Token.KeyDecodes | config.py:199-227 | a key decodes to the fixed header, the role's payload and the HMAC under the secret |
| Token.KeyVerifies | config.py:222-227 | a key verifies under the secret it was signed with |
| Token.KeyVerifiesExactly | config.py:222-227 | a key verifies under another secret exactly when that secret gives the same HMAC of the signing input |
| Token.RolesGiveDifferentKeys | config.py:204-227 | keys for two different roles always differ, whatever the secrets and clock readings |
| Config.AppConfig.GenerateMissingSecrets | config.py:156-197 | the eleven steps in source order, each keys step signing with the JWT secret its step left, turn the tracked attributes into `Provision` of their old values, and no other attribute (the misspelt logflare logger key included) can change |
| Config.AppConfig.GenerateN8nPostgresPassword | config.py:161-163 | an empty n8n database password becomes a 32-character random string; everything else stays |
| Config.AppConfig.GenerateN8nPgadminPassword | config.py:164-166 | an empty pgAdmin password becomes a 16-character random string; everything else stays |
| Config.AppConfig.GenerateJwtSecret | config.py:169-171 | an empty JWT secret becomes the padded URL-safe base 64 text of 32 random bytes; everything else stays |
| Config.AppConfig.GenerateAnonKey | config.py:172-174 | an empty anon key becomes the key signed with the given secret for role `anon`; everything else stays |
| Config.AppConfig.GenerateServiceRoleKey | config.py:175-177 | an empty service-role key becomes the key signed with the given secret for role `service_role`; everything else stays |
| Config.AppConfig.GenerateDbEncKey | config.py:178-180 | an empty database encryption key becomes the lower-cased `token_hex` of 32 random bytes; everything else stays |
| Config.AppConfig.GenerateDashboardPassword | config.py:181-183 | an empty dashboard password becomes a 16-character random string; everything else stays |
| Config.AppConfig.GenerateSecretKeyBase | config.py:184-186 | an empty secret key base becomes the lower-cased `token_hex` of 32 random bytes; everything else stays |
| Config.AppConfig.GenerateVaultEncKey | config.py:187-190 | an empty vault key becomes 32 characters drawn from `ascii_letters + digits`; everything else stays |
| Config.AppConfig.GeneratePostgresPassword | config.py:191-193 | an empty Supabase database password becomes a 32-character random string; everything else stays |
| Config.AppConfig.GenerateLogflareApiKey | config.py:194-196 | an empty Logflare key becomes a 32-character random string; everything else stays |
| Config.Fill | config.py:161-196 | one `if not field: field = generated` step on a value; `Config.ProvisionKeepsPresent` and `Config.CompleteIsFixed` state it |
| Config.JwtSecretText | config.py:170 | the padded URL-safe base 64 text of the secret's 32 bytes; `Config.JwtSecretShape` states it |
| Config.HexSecret | config.py:179 | `token_hex(32).lower()` of 32 bytes; `Config.HexSecretShape` states it |
| Config.Provision | config.py:161-196 | the eleven fields' new values, both keys signed with the JWT secret after its step; the `Config` lemmas below state its properties |
| Config.ProvisionKeepsPresent | config.py:161-196 | every field that was already non-empty keeps its value |
| Config.KeyIsPresent | config.py:172-177 | a generated key is never empty |
| Config.ProvisionFillsAll | config.py:161-196 | afterwards all eleven fields are non-empty |
| Config.CompleteIsFixed | config.py:161-196 | a configuration with every field set is left unchanged, whatever the run draws |
| Config.ProvisionIdempotent | config.py:156-197 | running the provisioner a second time, with any draws, changes nothing |
| Config.JwtSecretShape | config.py:170 | the JWT secret text is 44 characters: 43 base 64 symbols and one `=`, decoding to the 32 random bytes |
| Config.HexSecretShape | config.py:179 | a hex secret is 64 lower-case hexadecimal digits decoding to its 32 random bytes |
| Config.GeneratedPasswords | config.py:161-196 | each generated password is alphanumeric: 32 characters for the n8n database, the vault (including the inline generator at config.py:187-189), the Supabase database and Logflare, and 16 for pgAdmin and the dashboard |
| Config.GeneratedJwtSecret | config.py:169-171 | a generated JWT secret has the padded base 64 shape and decodes to the random bytes |
| Config.GeneratedHexSecrets | config.py:178-186 | a generated database encryption key or secret key base is 64 lower-case hexadecimal digits decoding to its random bytes |
| Config.GeneratedKeysUseResolvedSecret | config.py:169-177 | a generated anon or service-role key is the key signed with the JWT secret as resolved in the same run, and verifies under it |
| Config.StaleKeyKept | config.py:169-174 | when the JWT secret is regenerated but the anon key was set, the anon key is kept unchanged |

## Left out

- Randomness, the clock and HMAC-SHA256 are not computed. `secrets.choice`, `secrets.token_bytes`,
  `secrets.token_hex`, `time.time()` and `hmac.new(..., hashlib.sha256)` are parameters,
  gathered in `Config.Entropy`. The model proves what the code does with any of their answers.
  It does not prove the answers are random or that HMAC is secure.
- Each key reads the clock twice, for `iat` and for `exp`. The model keeps both readings as
  independent integers. It assumes nothing about how they relate.
- Logging through `logger.info` and `logger.success` has no effect on the configuration and is
  not modelled.
- `AppConfig.__init__` and `collect_user_inputs` read the environment and the terminal. They are
  not modelled: `GenerateMissingSecrets` starts from any state of the attributes.
- `main.py`, `setup_n8n.py`, `setup_supabase.py` and `utils.run_command` run processes and write
  files. They are not part of this model.
- Json.Dumps covers only the flat objects the key builder serialises: string and integer values,
  no nesting, floats, booleans or `null`.
- Text: characters are Unicode scalar values, so the lone surrogates a Python `str` can hold are
  not modelled. A pre-set JWT secret is read by `os.getenv` (config.py:39), which on POSIX turns
  undecodable bytes of the environment into lone surrogates. `jwt_secret.encode("utf-8")`
  (config.py:223) then raises `UnicodeEncodeError`, and the fields assigned by earlier steps stay
  changed. The model cannot hold such a secret and always returns a key.
- Text.Utf8Char and Text.Utf8 state only lengths and the ASCII case in their own contracts,
  because facts about every byte there make each proof that meets a key costlier. The content is
  stated for every scalar value by `Text.Utf8CharForm`, `Text.DecodeCharOf`,
  `Text.FromUtf8OfUtf8` and `Text.Utf8Injective`.
- PyStr.RemoveAll states in its own contract only that no `c` is left, that the result is no
  longer, and that nothing changes without a `c`. `PyStr.RemoveAllChar` and
  `PyStr.RemoveAllAppend` fix the result: each other character is kept, in order.
- Hex.AsciiLower changes ASCII letters only. That is all `str.lower()` can meet in `token_hex`
  output.
- Token.HeaderClaims states the header's members, not its exact serialised text
  `{"alg":"HS256","typ":"JWT"}`. The parser round trip fixes that text only up to the model's
  `Dumps`.
- An exception raised part-way through `generate_missing_secrets` is not modelled: each step
  method always completes.
