/** `AppConfig.generate_missing_secrets` of config.py: eleven credential fields of the installer's
    configuration object are checked in a fixed order, and each one that is empty (`None` from
    `os.getenv`, or `""`) receives a freshly generated value. The random sources and the clock are
    not modelled: their answers for one call are the `Entropy` record. `Provision` is the pure
    specification of the eleven fields' new values; the method on `AppConfig` is proved to
    produce it, and the properties of the provisioner are lemmas about `Provision`. */
module Config {
  import opened Wrappers
  import opened Text
  import Utils
  import Hex
  import Base64Url
  import Token

  /** A credential field: `None` when the environment variable was missing. */
  type Field = Option<string>

  /** Python truthiness of a `str | None`: `not field` is false exactly for a non-empty string. */
  predicate Present(f: Field) {
    f.Some? && f.value != ""
  }

  type Bytes32 = b: seq<byte> | |b| == 32 witness seq(32, _ => 0)
  type Draws16 = d: seq<Utils.Draw> | |d| == 16 witness seq(16, _ => 0)
  type Draws32 = d: seq<Utils.Draw> | |d| == 32 witness seq(32, _ => 0)

  /** What the random sources and the clock answer during one call, one answer per field:
      `secrets.choice` draws for the alphanumeric passwords, `secrets.token_bytes(32)` for the
      JWT secret, the 32 bytes behind each `secrets.token_hex(32)`, the two clock readings of
      each key, and HMAC-SHA256. */
  datatype Entropy = Entropy(
    n8nPostgresPassword: Draws32,
    n8nPgadminPassword: Draws16,
    jwtSecret: Bytes32,
    anonClock: Token.Clock,
    serviceRoleClock: Token.Clock,
    dbEncKey: Bytes32,
    dashboardPassword: Draws16,
    secretKeyBase: Bytes32,
    vaultEncKey: Draws32,
    postgresPassword: Draws32,
    logflareApiKey: Draws32,
    mac: Token.Mac)

  /** The eleven fields the provisioner tracks. */
  datatype Credentials = Credentials(
    n8nPostgresPassword: Field,
    n8nPgadminPassword: Field,
    supabaseJwtSecret: Field,
    supabaseAnonKey: Field,
    supabaseServiceRoleKey: Field,
    supabaseDbEncKey: Field,
    supabaseDashboardPassword: Field,
    supabaseSecretKeyBase: Field,
    supabaseVaultEncKey: Field,
    supabasePostgresPassword: Field,
    supabaseLogflareApiKey: Field)

  /** `if not field: field = generated`. */
  function Fill(f: Field, generated: string): Field {
    if Present(f) then f else Some(generated)
  }

  /** `base64.urlsafe_b64encode(secrets.token_bytes(32)).decode('utf-8')`, padding kept. */
  function JwtSecretText(b: Bytes32): string {
    Base64Url.Encode(b)
  }

  /** `secrets.token_hex(32).lower()`. */
  function HexSecret(b: Bytes32): string {
    Hex.AsciiLower(Hex.TokenHex(b))
  }

  /** The new values of the eleven fields. The JWT secret is resolved first; both derived keys
      are signed with the resolved value. */
  function Provision(c: Credentials, e: Entropy): Credentials {
    var jwt := Fill(c.supabaseJwtSecret, JwtSecretText(e.jwtSecret));
    Credentials(
      Fill(c.n8nPostgresPassword, Utils.GenerateRandomString(32, e.n8nPostgresPassword)),
      Fill(c.n8nPgadminPassword, Utils.GenerateRandomString(16, e.n8nPgadminPassword)),
      jwt,
      Fill(c.supabaseAnonKey, Token.SupabaseKey(jwt.value, "anon", e.anonClock, e.mac)),
      Fill(c.supabaseServiceRoleKey, Token.SupabaseKey(jwt.value, "service_role", e.serviceRoleClock, e.mac)),
      Fill(c.supabaseDbEncKey, HexSecret(e.dbEncKey)),
      Fill(c.supabaseDashboardPassword, Utils.GenerateRandomString(16, e.dashboardPassword)),
      Fill(c.supabaseSecretKeyBase, HexSecret(e.secretKeyBase)),
      Fill(c.supabaseVaultEncKey, Utils.GenerateRandomString(32, e.vaultEncKey)),
      Fill(c.supabasePostgresPassword, Utils.GenerateRandomString(32, e.postgresPassword)),
      Fill(c.supabaseLogflareApiKey, Utils.GenerateRandomString(32, e.logflareApiKey)))
  }

  // ---------------------------------------------------------------------------------------
  // What the provisioner promises.

  /** `after` agrees with `before` on a field that was already set. */
  predicate KeptIfPresent(before: Field, after: Field) {
    Present(before) ==> after == before
  }

  /** Every field that `before` had set is unchanged in `after`. */
  predicate Keeps(before: Credentials, after: Credentials) {
    && KeptIfPresent(before.n8nPostgresPassword, after.n8nPostgresPassword)
    && KeptIfPresent(before.n8nPgadminPassword, after.n8nPgadminPassword)
    && KeptIfPresent(before.supabaseJwtSecret, after.supabaseJwtSecret)
    && KeptIfPresent(before.supabaseAnonKey, after.supabaseAnonKey)
    && KeptIfPresent(before.supabaseServiceRoleKey, after.supabaseServiceRoleKey)
    && KeptIfPresent(before.supabaseDbEncKey, after.supabaseDbEncKey)
    && KeptIfPresent(before.supabaseDashboardPassword, after.supabaseDashboardPassword)
    && KeptIfPresent(before.supabaseSecretKeyBase, after.supabaseSecretKeyBase)
    && KeptIfPresent(before.supabaseVaultEncKey, after.supabaseVaultEncKey)
    && KeptIfPresent(before.supabasePostgresPassword, after.supabasePostgresPassword)
    && KeptIfPresent(before.supabaseLogflareApiKey, after.supabaseLogflareApiKey)
  }

  /** Every tracked field holds a non-empty value. */
  predicate Complete(c: Credentials) {
    && Present(c.n8nPostgresPassword)
    && Present(c.n8nPgadminPassword)
    && Present(c.supabaseJwtSecret)
    && Present(c.supabaseAnonKey)
    && Present(c.supabaseServiceRoleKey)
    && Present(c.supabaseDbEncKey)
    && Present(c.supabaseDashboardPassword)
    && Present(c.supabaseSecretKeyBase)
    && Present(c.supabaseVaultEncKey)
    && Present(c.supabasePostgresPassword)
    && Present(c.supabaseLogflareApiKey)
  }

  /** A field that already holds a non-empty value is left exactly as it was. */
  lemma ProvisionKeepsPresent(c: Credentials, e: Entropy)
    ensures Keeps(c, Provision(c, e))
  {
  }

  /** A signed key is never empty: it holds at least its two `.` separators. */
  lemma KeyIsPresent(jwtSecret: string, role: string, clock: Token.Clock, mac: Token.Mac)
    ensures Present(Some(Token.SupabaseKey(jwtSecret, role, clock, mac)))
  {
    Token.KeyStructure(jwtSecret, role, clock, mac);
  }

  /** Afterwards every tracked field holds a non-empty value. */
  lemma ProvisionFillsAll(c: Credentials, e: Entropy)
    ensures Complete(Provision(c, e))
  {
    var jwt := Provision(c, e).supabaseJwtSecret;
    KeyIsPresent(jwt.value, "anon", e.anonClock, e.mac);
    KeyIsPresent(jwt.value, "service_role", e.serviceRoleClock, e.mac);
  }

  /** A configuration with every field set is left as it is, whatever the run draws. */
  lemma CompleteIsFixed(c: Credentials, e: Entropy)
    requires Complete(c)
    ensures Provision(c, e) == c
  {
  }

  /** A second run, whatever it draws, changes nothing. */
  lemma ProvisionIdempotent(c: Credentials, e: Entropy, e2: Entropy)
    ensures Provision(Provision(c, e), e2) == Provision(c, e)
  {
    ProvisionFillsAll(c, e);
    CompleteIsFixed(Provision(c, e), e2);
  }

  /** The JWT secret text: 43 base 64 symbols and one `=`, decoding to the random bytes. */
  lemma JwtSecretShape(b: Bytes32)
    ensures |JwtSecretText(b)| == 44
    ensures Base64Url.PaddedSymbols(JwtSecretText(b), 1)
    ensures Base64Url.Decode(JwtSecretText(b)) == Some(b)
  {
    assert |b| == 32;
    assert (|b| + 2) / 3 == 11 && Base64Url.PadCount(|b|) == 1;
    Base64Url.EncodeShape(b);
    Base64Url.DecodeEncode(b);
  }

  /** The hexadecimal secrets: 64 lower-case hexadecimal digits decoding to the random bytes. */
  lemma HexSecretShape(b: Bytes32)
    ensures Hex.IsLowerHexOfLength(HexSecret(b), 64)
    ensures Hex.FromHex(HexSecret(b)) == Some(b)
  {
    Hex.LowerKeepsTokenHex(b);
    Hex.TokenHexIsLowerHex(b);
    Hex.FromHexTokenHex(b);
  }

  /** The generated passwords are alphanumeric, 32 characters long for the n8n database, the
      vault, the Supabase database and Logflare, and 16 for pgAdmin and the dashboard. */
  lemma GeneratedPasswords(c: Credentials, e: Entropy)
    ensures var p := Provision(c, e);
            && (!Present(c.n8nPostgresPassword) ==> Utils.IsAlnumOfLength(p.n8nPostgresPassword.value, 32))
            && (!Present(c.n8nPgadminPassword) ==> Utils.IsAlnumOfLength(p.n8nPgadminPassword.value, 16))
            && (!Present(c.supabaseDashboardPassword) ==> Utils.IsAlnumOfLength(p.supabaseDashboardPassword.value, 16))
            && (!Present(c.supabaseVaultEncKey) ==> Utils.IsAlnumOfLength(p.supabaseVaultEncKey.value, 32))
            && (!Present(c.supabasePostgresPassword) ==> Utils.IsAlnumOfLength(p.supabasePostgresPassword.value, 32))
            && (!Present(c.supabaseLogflareApiKey) ==> Utils.IsAlnumOfLength(p.supabaseLogflareApiKey.value, 32))
  {
    Utils.GeneratedIsAlnum(32, e.n8nPostgresPassword);
    Utils.GeneratedIsAlnum(16, e.n8nPgadminPassword);
    Utils.GeneratedIsAlnum(16, e.dashboardPassword);
    Utils.GeneratedIsAlnum(32, e.vaultEncKey);
    Utils.GeneratedIsAlnum(32, e.postgresPassword);
    Utils.GeneratedIsAlnum(32, e.logflareApiKey);
  }

  /** A generated JWT secret has the padded base 64 shape and decodes to the random bytes. */
  lemma GeneratedJwtSecret(c: Credentials, e: Entropy)
    ensures var p := Provision(c, e);
            !Present(c.supabaseJwtSecret) ==>
              && |p.supabaseJwtSecret.value| == 44
              && Base64Url.PaddedSymbols(p.supabaseJwtSecret.value, 1)
              && Base64Url.Decode(p.supabaseJwtSecret.value) == Some(e.jwtSecret)
  {
    JwtSecretShape(e.jwtSecret);
  }

  /** A generated database encryption key or secret key base is 64 lower-case hexadecimal
      digits that decode to the 32 random bytes. */
  lemma GeneratedHexSecrets(c: Credentials, e: Entropy)
    ensures var p := Provision(c, e);
            && (!Present(c.supabaseDbEncKey) ==>
                  && Hex.IsLowerHexOfLength(p.supabaseDbEncKey.value, 64)
                  && Hex.FromHex(p.supabaseDbEncKey.value) == Some(e.dbEncKey))
            && (!Present(c.supabaseSecretKeyBase) ==>
                  && Hex.IsLowerHexOfLength(p.supabaseSecretKeyBase.value, 64)
                  && Hex.FromHex(p.supabaseSecretKeyBase.value) == Some(e.secretKeyBase))
  {
    HexSecretShape(e.dbEncKey);
    HexSecretShape(e.secretKeyBase);
  }

  /** A generated anon or service-role key is signed with the JWT secret as it stands after
      the run, whether that secret was already set or has just been generated, and verifies
      under it. */
  lemma GeneratedKeysUseResolvedSecret(c: Credentials, e: Entropy)
    ensures var p := Provision(c, e);
            var secret := p.supabaseJwtSecret.value;
            && (!Present(c.supabaseAnonKey) ==>
                  && p.supabaseAnonKey == Some(Token.SupabaseKey(secret, "anon", e.anonClock, e.mac))
                  && Token.Verify(p.supabaseAnonKey.value, secret, e.mac))
            && (!Present(c.supabaseServiceRoleKey) ==>
                  && p.supabaseServiceRoleKey == Some(Token.SupabaseKey(secret, "service_role", e.serviceRoleClock, e.mac))
                  && Token.Verify(p.supabaseServiceRoleKey.value, secret, e.mac))
  {
    var secret := Provision(c, e).supabaseJwtSecret.value;
    Token.KeyVerifies(secret, "anon", e.anonClock, e.mac);
    Token.KeyVerifies(secret, "service_role", e.serviceRoleClock, e.mac);
  }

  /** A key that was already set survives even when the secret it was signed with is missing
      and a new secret is generated in the same run. */
  lemma StaleKeyKept(c: Credentials, e: Entropy)
    requires !Present(c.supabaseJwtSecret) && Present(c.supabaseAnonKey)
    ensures Provision(c, e).supabaseJwtSecret == Some(JwtSecretText(e.jwtSecret))
    ensures Provision(c, e).supabaseAnonKey == c.supabaseAnonKey
  {
  }

  /** The installer's configuration object with every attribute its initialiser sets. How the
      initial values are read from the environment and the terminal is not modelled: any state
      is a possible starting point. */
  class AppConfig {
    var skipInputs: bool

    var server: string
    var n8nPostgresPassword: Field
    var n8nPgadminPassword: Field
    var n8nOpenaiApiKey: string
    var n8nInbucketWebPort: int
    var n8nFilePermissions: string
    var n8nPostgresUser: string
    var n8nPostgresDb: string
    var n8nPgadminEmail: string
    var n8nGenericTimezone: string
    var cloudflareTunnelToken: string
    var n8nWebhookUrl: string
    var n8nPostgresPort: string

    var supabasePostgresPassword: Field
    var supabaseJwtSecret: Field
    var supabaseAnonKey: Field
    var supabaseServiceRoleKey: Field
    var supabaseDashboardUsername: string
    var supabaseDashboardPassword: Field
    var supabaseSecretKeyBase: Field
    var supabaseVaultEncKey: Field
    var supabasePostgresHost: string
    var supabasePostgresPort: int
    var supabasePostgresDb: string
    var supabasePoolerProxyPortTransaction: int
    var supabasePoolerDefaultPoolSize: int
    var supabasePoolerMaxClientConn: int
    var supabasePoolerTenantId: string
    var supabaseKongHttpPort: int
    var supabaseKongHttpsPort: int
    var supabasePgrstDbSchemas: string
    var supabaseSiteUrl: string
    var supabaseAdditionalRedirectUrls: string
    var supabaseJwtExpiry: int
    var supabaseDisableSignup: bool
    var supabaseApiExternalUrl: string
    var supabaseMailerUrlpathsConfirmation: string
    var supabaseMailerUrlpathsInvite: string
    var supabaseMailerUrlpathsRecovery: string
    var supabaseMailerUrlpathsEmailChange: string
    var supabaseEnableEmailSignup: bool
    var supabaseEnableEmailAutoconfirm: bool
    var supabaseSmtpAdminEmail: string
    var supabaseSmtpHost: string
    var supabaseSmtpPort: int
    var supabaseSmtpUser: string
    var supabaseSmtpPass: string
    var supabaseSmtpSenderName: string
    var supabaseEnableAnonymousUsers: bool
    var supabaseEnablePhoneSignup: bool
    var supabaseEnablePhoneAutoconfirm: bool
    var supabaseStudioDefaultOrganization: string
    var supabaseStudioDefaultProject: string
    var supabaseStudioPort: int
    var supabasePublicUrl: string
    var supabaseImgproxyEnableWebpDetection: bool
    var supabaseOpenaiApiKey: string
    var supabaseFunctionsVerifyJwt: bool
    /** Read from the same variable as the logflare key, but never provisioned. */
    var supabaseLogfkareLoggerBackendApiKey: Field
    var supabaseLogflareApiKey: Field
    var supabaseDockerSocketLocation: string
    var supabaseGoogleProjectId: string
    var supabaseGoogleProjectNumber: string
    var supabaseDbEncKey: Field
    var commonDockerNetworkName: string

    /** The eleven tracked fields as a value. */
    function Secrets(): Credentials
      reads this
    {
      Credentials(
        n8nPostgresPassword, n8nPgadminPassword, supabaseJwtSecret, supabaseAnonKey,
        supabaseServiceRoleKey, supabaseDbEncKey, supabaseDashboardPassword,
        supabaseSecretKeyBase, supabaseVaultEncKey, supabasePostgresPassword,
        supabaseLogflareApiKey)
    }

    /** `generate_missing_secrets()`: the eleven `if not field: field = generated` steps in the
        source's order. Both key steps sign with the JWT secret as it stands after its own
        step. The tracked fields end as `Provision` of their old values, and the frame lets no
        other attribute change. */
    method GenerateMissingSecrets(e: Entropy)
      modifies this`n8nPostgresPassword, this`n8nPgadminPassword, this`supabaseJwtSecret,
               this`supabaseAnonKey, this`supabaseServiceRoleKey, this`supabaseDbEncKey,
               this`supabaseDashboardPassword, this`supabaseSecretKeyBase,
               this`supabaseVaultEncKey, this`supabasePostgresPassword,
               this`supabaseLogflareApiKey
      ensures Secrets() == Provision(old(Secrets()), e)
    {
      GenerateN8nPostgresPassword(e);
      GenerateN8nPgadminPassword(e);
      GenerateJwtSecret(e);
      GenerateAnonKey(supabaseJwtSecret.value, e);
      GenerateServiceRoleKey(supabaseJwtSecret.value, e);
      GenerateDbEncKey(e);
      GenerateDashboardPassword(e);
      GenerateSecretKeyBase(e);
      GenerateVaultEncKey(e);
      GeneratePostgresPassword(e);
      GenerateLogflareApiKey(e);
    }

    // One method per step of `generate_missing_secrets`: `if not field: field = generated`,
    // changing that field only.

    method GenerateN8nPostgresPassword(e: Entropy)
      modifies this`n8nPostgresPassword
      ensures Secrets() == old(Secrets()).(n8nPostgresPassword :=
          Fill(old(n8nPostgresPassword), Utils.GenerateRandomString(32, e.n8nPostgresPassword)))
    {
      if !Present(n8nPostgresPassword) {
        n8nPostgresPassword := Some(Utils.GenerateRandomString(32, e.n8nPostgresPassword));
      }
    }

    method GenerateN8nPgadminPassword(e: Entropy)
      modifies this`n8nPgadminPassword
      ensures Secrets() == old(Secrets()).(n8nPgadminPassword :=
          Fill(old(n8nPgadminPassword), Utils.GenerateRandomString(16, e.n8nPgadminPassword)))
    {
      if !Present(n8nPgadminPassword) {
        n8nPgadminPassword := Some(Utils.GenerateRandomString(16, e.n8nPgadminPassword));
      }
    }

    method GenerateJwtSecret(e: Entropy)
      modifies this`supabaseJwtSecret
      ensures Secrets() == old(Secrets()).(supabaseJwtSecret :=
          Fill(old(supabaseJwtSecret), JwtSecretText(e.jwtSecret)))
    {
      if !Present(supabaseJwtSecret) {
        supabaseJwtSecret := Some(JwtSecretText(e.jwtSecret));
      }
    }

    method GenerateAnonKey(jwtSecret: string, e: Entropy)
      modifies this`supabaseAnonKey
      ensures Secrets() == old(Secrets()).(supabaseAnonKey :=
          Fill(old(supabaseAnonKey), Token.SupabaseKey(jwtSecret, "anon", e.anonClock, e.mac)))
    {
      if !Present(supabaseAnonKey) {
        supabaseAnonKey := Some(Token.SupabaseKey(jwtSecret, "anon", e.anonClock, e.mac));
      }
    }

    method GenerateServiceRoleKey(jwtSecret: string, e: Entropy)
      modifies this`supabaseServiceRoleKey
      ensures Secrets() == old(Secrets()).(supabaseServiceRoleKey :=
          Fill(old(supabaseServiceRoleKey), Token.SupabaseKey(jwtSecret, "service_role", e.serviceRoleClock, e.mac)))
    {
      if !Present(supabaseServiceRoleKey) {
        supabaseServiceRoleKey := Some(Token.SupabaseKey(jwtSecret, "service_role", e.serviceRoleClock, e.mac));
      }
    }

    method GenerateDbEncKey(e: Entropy)
      modifies this`supabaseDbEncKey
      ensures Secrets() == old(Secrets()).(supabaseDbEncKey :=
          Fill(old(supabaseDbEncKey), HexSecret(e.dbEncKey)))
    {
      if !Present(supabaseDbEncKey) {
        supabaseDbEncKey := Some(HexSecret(e.dbEncKey));
      }
    }

    method GenerateDashboardPassword(e: Entropy)
      modifies this`supabaseDashboardPassword
      ensures Secrets() == old(Secrets()).(supabaseDashboardPassword :=
          Fill(old(supabaseDashboardPassword), Utils.GenerateRandomString(16, e.dashboardPassword)))
    {
      if !Present(supabaseDashboardPassword) {
        supabaseDashboardPassword := Some(Utils.GenerateRandomString(16, e.dashboardPassword));
      }
    }

    method GenerateSecretKeyBase(e: Entropy)
      modifies this`supabaseSecretKeyBase
      ensures Secrets() == old(Secrets()).(supabaseSecretKeyBase :=
          Fill(old(supabaseSecretKeyBase), HexSecret(e.secretKeyBase)))
    {
      if !Present(supabaseSecretKeyBase) {
        supabaseSecretKeyBase := Some(HexSecret(e.secretKeyBase));
      }
    }

    method GenerateVaultEncKey(e: Entropy)
      modifies this`supabaseVaultEncKey
      ensures Secrets() == old(Secrets()).(supabaseVaultEncKey :=
          Fill(old(supabaseVaultEncKey), Utils.GenerateRandomString(32, e.vaultEncKey)))
    {
      if !Present(supabaseVaultEncKey) {
        supabaseVaultEncKey := Some(Utils.GenerateRandomString(32, e.vaultEncKey));
      }
    }

    method GeneratePostgresPassword(e: Entropy)
      modifies this`supabasePostgresPassword
      ensures Secrets() == old(Secrets()).(supabasePostgresPassword :=
          Fill(old(supabasePostgresPassword), Utils.GenerateRandomString(32, e.postgresPassword)))
    {
      if !Present(supabasePostgresPassword) {
        supabasePostgresPassword := Some(Utils.GenerateRandomString(32, e.postgresPassword));
      }
    }

    method GenerateLogflareApiKey(e: Entropy)
      modifies this`supabaseLogflareApiKey
      ensures Secrets() == old(Secrets()).(supabaseLogflareApiKey :=
          Fill(old(supabaseLogflareApiKey), Utils.GenerateRandomString(32, e.logflareApiKey)))
    {
      if !Present(supabaseLogflareApiKey) {
        supabaseLogflareApiKey := Some(Utils.GenerateRandomString(32, e.logflareApiKey));
      }
    }
  }
}
