/** The configuration checker script (src/validate_config.py): `check_config`. */
module ValidateConfig {
  import opened Wrappers
  import opened PyValue
  import opened Settings

  /** The messages `check_config` can return. */
  datatype Note = DebugInProduction | CorsInProduction | CriticalFound | LoadFailed(error: string)

  /** The text each message is returned with. */
  function NoteText(n: Note): string {
    match n
    case DebugInProduction => "DEBUG mode is enabled in production environment"
    case CorsInProduction => "CORS is allowing all origins in production environment"
    case CriticalFound => "Critical configuration errors found."
    case LoadFailed(e) => "Failed to load configuration: " + e
  }

  /** A secret is shown only as whether it is set. */
  function Masked(secret: Option<string>): (r: Val)
    ensures r == VStr("<hidden>") || r == VNone
    ensures r.VStr? <==> Filled(secret)
  {
    if Filled(secret) then VStr("<hidden>") else VNone
  }

  function OptStr(s: Option<string>): Val {
    if s.Some? then VStr(s.value) else VNone
  }

  /** A list of strings as a Python list value. */
  function Strs(xs: seq<string>): (r: seq<Val>)
    ensures |r| == |xs| && forall i :: 0 <= i < |xs| ==> r[i] == VStr(xs[i])
  {
    if xs == [] then [] else [VStr(xs[0])] + Strs(xs[1..])
  }

  /** The sanitized view of a configuration that `check_config` returns: every
      field as loaded except the log format, the connection string and the Redis
      password. */
  function View(c: Config): Val {
    VDict([
      ("ENVIRONMENT", VStr(c.environment)),
      ("HOST_NAME", VStr(c.hostName)),
      ("PORT", VNum(c.port as real)),
      ("DEBUG", VBool(c.debug)),
      ("PROJECT_NAME", VStr(c.projectName)),
      ("VERSION", VStr(c.version)),
      ("LOGGING", VDict([("LEVEL", VStr(c.logLevel)), ("FORMAT", VStr("<format string>"))])),
      ("AZURE", VDict([
        ("USE_MANAGED_IDENTITY", VBool(c.useManagedIdentity)),
        ("ACCOUNT_URL", OptStr(c.accountUrl)),
        ("CONNECTION_STRING", Masked(c.connectionString))])),
      ("REDIS", VDict([
        ("HOST", OptStr(c.redisHost)),
        ("PORT", VNum(c.redisPort as real)),
        ("SSL", VBool(c.redisSsl)),
        ("PASSWORD", Masked(c.redisPassword)),
        ("CACHE_TTL", VNum(c.cacheTtl as real)),
        ("POPULAR_CACHE_TTL", VNum(c.popularCacheTtl as real))])),
      ("API", VDict([
        ("CORS_ORIGINS", VList(Strs(c.corsOrigins))),
        ("RATE_LIMIT_TIMES", VNum(c.rateLimitTimes as real)),
        ("RATE_LIMIT_SECONDS", VNum(c.rateLimitSeconds as real))]))
    ])
  }

  /** The view never depends on the secrets themselves, only on whether each is
      set: two configurations that differ only in their connection string and Redis
      password, with the same ones set, have the same view. */
  lemma ViewHidesSecrets(c: Config, connection: Option<string>, password: Option<string>)
    requires Filled(connection) == Filled(c.connectionString)
    requires Filled(password) == Filled(c.redisPassword)
    ensures View(c.(connectionString := connection, redisPassword := password)) == View(c)
  {
  }

  /** The warnings about the loaded configuration: only in production, one for
      DEBUG and one for a '*' origin, in that order. */
  function ProductionWarnings(c: Config): (r: seq<Note>)
    ensures c.environment != "production" ==> r == []
    ensures DebugInProduction in r <==> c.environment == "production" && c.debug
    ensures CorsInProduction in r <==> c.environment == "production" && "*" in c.corsOrigins
    ensures |r| <= 2 && CriticalFound !in r
  {
    if c.environment == "production" then
      (if c.debug then [DebugInProduction] else [])
      + (if "*" in c.corsOrigins then [CorsInProduction] else [])
    else []
  }

  /** `check_config`. `loaded` is `AppSettings()` read afresh, or the error raised
      while reading it; `running` is the configuration the imported module was
      started with, which is what `verify_required_settings` inspects. A stopping
      check makes the result invalid and adds one error after the warnings; a load
      failure gives one message and an empty view. */
  method CheckConfig(loaded: Result<Config>, running: Config) returns (isValid: bool, messages: seq<Note>, view: Val)
    ensures loaded.Failure? ==>
      !isValid && messages == [LoadFailed(loaded.error)] && view == VDict([])
    ensures loaded.Success? ==> (isValid <==> running.useManagedIdentity || Filled(running.connectionString))
    ensures loaded.Success? ==>
      messages == ProductionWarnings(loaded.value) + (if isValid then [] else [CriticalFound])
    ensures loaded.Success? ==> view == View(loaded.value)
  {
    if loaded.Failure? {
      return false, [LoadFailed(loaded.error)], VDict([]);
    }
    var settings := loaded.value;
    var errors: seq<Note> := [];
    var _, exited := VerifyRequiredSettings(running);
    if exited {
      isValid := false;
      errors := errors + [CriticalFound];
    } else {
      isValid := true;
    }
    var warnings := ProductionChecks(settings);
    view := View(settings);
    messages := warnings + errors;
  }

  /** The production checks of `check_config` on the loaded configuration. */
  method ProductionChecks(settings: Config) returns (warnings: seq<Note>)
    ensures warnings == ProductionWarnings(settings)
  {
    warnings := [];
    if settings.environment == "production" {
      if settings.debug {
        warnings := warnings + [DebugInProduction];
      }
      if "*" in settings.corsOrigins {
        warnings := warnings + [CorsInProduction];
      }
    }
  }

  /** Outside production the only message `check_config` can give about a loaded
      configuration is the critical one, and it is the last message whenever it is
      given. */
  lemma CriticalComesLast(c: Config, isValid: bool)
    ensures var ms := ProductionWarnings(c) + (if isValid then [] else [CriticalFound]);
            (!isValid <==> ms != [] && ms[|ms| - 1] == CriticalFound)
            && (c.environment != "production" ==> ms == (if isValid then [] else [CriticalFound]))
  {
    var ws := ProductionWarnings(c);
    if isValid && ws != [] {
      assert ws[|ws| - 1] in ws;
    }
  }
}
