/** The application settings (src/config/settings.py): defaults, the three field
    validators and the startup check `verify_required_settings`. The same check and
    validators appear again in the monolith src/database_service.py, whose only
    differences are two defaults; `MonolithDefaults` models those. */
module Settings {
  import opened Wrappers

  /** The loaded settings, flattened: `AppSettings` with its `LOGGING`, `AZURE`,
      `REDIS` and `API` sub-settings. */
  datatype Config = Config(
    environment: string, port: int, debug: bool, projectName: string, version: string,
    hostName: string,
    logLevel: string, logFormat: string,
    connectionString: Option<string>, accountUrl: Option<string>, useManagedIdentity: bool,
    redisHost: Option<string>, redisPort: int, redisPassword: Option<string>, redisSsl: bool,
    cacheTtl: int, popularCacheTtl: int, popularityThreshold: int, popularityWindow: int,
    corsOrigins: seq<string>, rateLimitTimes: int, rateLimitSeconds: int)

  /** Python truthiness of an optional string: present and non-empty. */
  predicate Filled(s: Option<string>) {
    s.Some? && s.value != ""
  }

  /** `os.getenv('ENVIRONMENT', 'development')`: the raw variable, read where a default
      or a validator needs it, independently of the validated `ENVIRONMENT` field. */
  function EnvVar(variable: Option<string>): (r: string)
    ensures variable.Some? ==> r == variable.value
    ensures variable.None? ==> r == "development"
  {
    if variable.Some? then variable.value else "development"
  }

  const AllowedEnvironments: seq<string> := ["development", "staging", "production", "test"]

  /** The local storage emulator's well-known connection string. */
  const AzuriteConnectionString: string :=
    "DefaultEndpointsProtocol=http;AccountName=devstoreaccount1;AccountKey=Eby8vdM02xNOcqFlqUwJPLlmEtlCDXJ1OUzFT50uSRZ6IFsuFq2UVErCz4I6tq/K1SZFPTOtr/KBHBeksoGMGw==;BlobEndpoint=http://127.0.0.1:10000/devstoreaccount1;QueueEndpoint=http://127.0.0.1:10001/devstoreaccount1;TableEndpoint=http://127.0.0.1:10002/devstoreaccount1;"

  const DefaultLogFormat := "%(asctime)s - %(name)s - %(levelname)s - %(message)s"

  /** `validate_environment`: the environment must be one of the four names, spelled
      exactly (no case folding); the value is kept as given. */
  function ValidateEnvironment(v: string): (r: Result<string>)
    ensures r.Success? <==> v == "development" || v == "staging" || v == "production" || v == "test"
    ensures r.Success? ==> r.value == v
  {
    if v in AllowedEnvironments then Success(v)
    else Failure("Environment must be one of ['development', 'staging', 'production', 'test']")
  }

  /** `validate_account_url`: `flag` is `USE_MANAGED_IDENTITY` as found in the data
      validated so far, `None` when it is not there yet. The URL is refused exactly
      when the flag is there and true and the URL is missing or empty. */
  function ValidateAccountUrl(v: Option<string>, flag: Option<bool>): (r: Result<Option<string>>)
    ensures r.Failure? <==> flag == Some(true) && !Filled(v)
    ensures r.Success? ==> r.value == v
  {
    if flag == Some(true) && !Filled(v) then
      Failure("AZURE_STORAGE_ACCOUNT_URL must be provided when USE_MANAGED_IDENTITY is enabled")
    else Success(v)
  }

  /** `ACCOUNT_URL` is declared before `USE_MANAGED_IDENTITY`, so when fields are
      validated in declaration order the flag is not yet in the data and the URL
      check never refuses anything. */
  lemma AccountUrlNeverRefusedInDeclarationOrder(v: Option<string>)
    ensures ValidateAccountUrl(v, None).Success?
  {
  }

  /** `validate_cors_origins`: a literal `"*"` among the origins is refused exactly when
      the raw `ENVIRONMENT` variable is `production`; the list is kept as given. */
  function ValidateCorsOrigins(v: seq<string>, variable: Option<string>): (r: Result<seq<string>>)
    ensures r.Failure? <==> EnvVar(variable) == "production" && "*" in v
    ensures r.Success? ==> r.value == v
  {
    if EnvVar(variable) == "production" && "*" in v then
      Failure("Wildcard CORS origin '*' is not allowed in production")
    else Success(v)
  }

  /** All the field checks a loaded configuration passes through. pydantic runs every
      one of them and raises a single ValidationError that lists all refusals; the
      model gives the configuration unchanged when none refuses, and otherwise a
      failure carrying one refusal's message. */
  function Validated(c: Config, variable: Option<string>, flagSeen: bool): (r: Result<Config>)
    ensures r.Success? <==>
      && (flagSeen && c.useManagedIdentity ==> Filled(c.accountUrl))
      && !(EnvVar(variable) == "production" && "*" in c.corsOrigins)
      && (c.environment == "development" || c.environment == "staging"
          || c.environment == "production" || c.environment == "test")
    ensures r.Success? ==> r.value == c
  {
    var flag := if flagSeen then Some(c.useManagedIdentity) else None;
    var url := ValidateAccountUrl(c.accountUrl, flag);
    if url.Failure? then Failure(url.error)
    else
      var cors := ValidateCorsOrigins(c.corsOrigins, variable);
      if cors.Failure? then Failure(cors.error)
      else
        var env := ValidateEnvironment(c.environment);
        if env.Failure? then Failure(env.error)
        else Success(c)
  }

  /** The defaults of src/config/settings.py when nothing but `ENVIRONMENT` is set.
      The `ENVIRONMENT` field is read from that same variable (case-sensitive, no
      prefix); the connection string and the Redis host depend on it being
      `development` (its default). */
  function Defaults(variable: Option<string>, hostName: string): (c: Config)
    ensures EnvVar(variable) == "development" ==>
      c.connectionString == Some(AzuriteConnectionString) && c.redisHost == Some("localhost")
    ensures EnvVar(variable) != "development" ==> c.connectionString.None? && c.redisHost.None?
    ensures c.environment == EnvVar(variable) && c.port == 8080 && !c.debug
    ensures c.projectName == "Star Map API" && c.version == "1.1.0"
    ensures c.logLevel == "INFO" && c.accountUrl.None? && !c.useManagedIdentity
    ensures c.redisPort == 6379 && c.redisPassword.None? && !c.redisSsl
    ensures c.cacheTtl == 300 && c.popularCacheTtl == 3600
    ensures c.popularityThreshold == 50 && c.popularityWindow == 3600
    ensures c.corsOrigins == ["http://localhost:3000"]
    ensures c.rateLimitTimes == 5 && c.rateLimitSeconds == 60
  {
    var dev := EnvVar(variable) == "development";
    Config(
      EnvVar(variable), 8080, false, "Star Map API", "1.1.0", hostName,
      "INFO", DefaultLogFormat,
      if dev then Some(AzuriteConnectionString) else None, None, false,
      if dev then Some("localhost") else None, 6379, None, false,
      300, 3600, 50, 3600,
      ["http://localhost:3000"], 5, 60)
  }

  /** The monolith's defaults (src/database_service.py): no default connection
      string at all, and a Redis host that must be supplied. */
  function MonolithDefaults(variable: Option<string>, redisHost: string, hostName: string): (c: Config)
    ensures c.connectionString.None? && c.redisHost == Some(redisHost)
    ensures c.environment == EnvVar(variable)
    ensures c == Defaults(variable, hostName).(connectionString := None, redisHost := Some(redisHost))
  {
    Config(
      EnvVar(variable), 8080, false, "Star Map API", "1.1.0", hostName,
      "INFO", DefaultLogFormat,
      None, None, false,
      Some(redisHost), 6379, None, false,
      300, 3600, 50, 3600,
      ["http://localhost:3000"], 5, 60)
  }

  /** The defaults load exactly when the `ENVIRONMENT` variable names one of the four
      environments; any other value makes `validate_environment` refuse it, and
      `settings = AppSettings()` raises. */
  lemma DefaultsValidate(variable: Option<string>, hostName: string, flagSeen: bool)
    ensures Validated(Defaults(variable, hostName), variable, flagSeen).Success?
      <==> EnvVar(variable) in AllowedEnvironments
    ensures Validated(Defaults(variable, hostName), variable, flagSeen).Success? ==>
      Validated(Defaults(variable, hostName), variable, flagSeen).value == Defaults(variable, hostName)
  {
    var c := Defaults(variable, hostName);
    assert "*" !in c.corsOrigins;
    assert !c.useManagedIdentity;
    var v := c.environment;
    assert Validated(c, variable, flagSeen).Success? <==> ValidateEnvironment(v).Success?;
    assert v in AllowedEnvironments <==> ValidateEnvironment(v).Success?;
  }

  /** An unknown environment name, such as `prod`, stops the defaults from loading. */
  lemma UnknownEnvironmentRefused(hostName: string, flagSeen: bool)
    ensures Validated(Defaults(Some("prod"), hostName), Some("prod"), flagSeen).Failure?
    ensures Validated(Defaults(Some("staging"), hostName), Some("staging"), flagSeen).Success?
  {
    DefaultsValidate(Some("prod"), hostName, flagSeen);
    DefaultsValidate(Some("staging"), hostName, flagSeen);
  }

  /** The problems the startup check knows about. */
  datatype Problem = MissingStorage | MissingRedis | OpenCors

  /** The text each problem is reported with. */
  function Message(p: Problem): string {
    match p
    case MissingStorage =>
      "Either AZURE_STORAGE_CONNECTION_STRING must be provided or AZURE_STORAGE_USE_MANAGED_IDENTITY must be enabled"
    case MissingRedis => "REDIS_HOST not configured. Caching and rate limiting will be disabled."
    case OpenCors => "CORS is configured to allow all origins (*) in production environment"
  }

  /** A log record written by the startup check. */
  datatype LogLine = ConfigWarning(problem: Problem) | ConfigError(problem: Problem) | StartupFailed

  /** The text of a log record. */
  function LogText(l: LogLine): string {
    match l
    case ConfigWarning(p) => "Configuration warning: " + Message(p)
    case ConfigError(p) => "Configuration error: " + Message(p)
    case StartupFailed => "Application startup failed due to configuration errors"
  }

  /** The problems that stop startup. */
  function CriticalErrors(c: Config): (r: seq<Problem>)
    ensures |r| <= 1
    ensures r != [] <==> !c.useManagedIdentity && !Filled(c.connectionString)
    ensures r != [] ==> r == [MissingStorage]
  {
    if !c.useManagedIdentity && !Filled(c.connectionString) then [MissingStorage] else []
  }

  /** The problems that are only reported, in the order they are checked. */
  function Warnings(c: Config): (r: seq<Problem>)
    ensures |r| <= 2
    ensures MissingStorage !in r
    ensures MissingRedis in r <==> !Filled(c.redisHost)
    ensures OpenCors in r <==> c.environment == "production" && "*" in c.corsOrigins
    ensures MissingRedis in r && OpenCors in r ==> r == [MissingRedis, OpenCors]
  {
    (if !Filled(c.redisHost) then [MissingRedis] else [])
    + (if c.environment == "production" && "*" in c.corsOrigins then [OpenCors] else [])
  }

  function WarningLines(ws: seq<Problem>): (r: seq<LogLine>)
    ensures |r| == |ws|
  {
    if ws == [] then [] else WarningLines(ws[..|ws| - 1]) + [ConfigWarning(ws[|ws| - 1])]
  }

  /** One warning line per warning, in order. */
  lemma {:induction false} WarningLinesAt(ws: seq<Problem>)
    ensures forall i :: 0 <= i < |ws| ==> WarningLines(ws)[i] == ConfigWarning(ws[i])
    decreases |ws|
  {
    if ws != [] {
      WarningLinesAt(ws[..|ws| - 1]);
    }
  }

  /** The lines for one more warning. */
  lemma WarningLinesStep(ws: seq<Problem>, i: nat)
    requires i < |ws|
    ensures WarningLines(ws[..i + 1]) == WarningLines(ws[..i]) + [ConfigWarning(ws[i])]
  {
    assert ws[..i + 1][..i] == ws[..i];
  }

  function ErrorLines(es: seq<Problem>): (r: seq<LogLine>)
    ensures |r| == |es|
  {
    if es == [] then [] else ErrorLines(es[..|es| - 1]) + [ConfigError(es[|es| - 1])]
  }

  /** One error line per error, in order. */
  lemma {:induction false} ErrorLinesAt(es: seq<Problem>)
    ensures forall i :: 0 <= i < |es| ==> ErrorLines(es)[i] == ConfigError(es[i])
    decreases |es|
  {
    if es != [] {
      ErrorLinesAt(es[..|es| - 1]);
    }
  }

  /** The lines for one more error. */
  lemma ErrorLinesStep(es: seq<Problem>, j: nat)
    requires j < |es|
    ensures ErrorLines(es[..j + 1]) == ErrorLines(es[..j]) + [ConfigError(es[j])]
  {
    assert es[..j + 1][..j] == es[..j];
  }

  /** What the startup check logs: every warning, then, only when startup stops,
      every error and the failure line. */
  function StartupLog(c: Config): seq<LogLine> {
    WarningLines(Warnings(c))
    + (if CriticalErrors(c) != [] then ErrorLines(CriticalErrors(c)) + [StartupFailed] else [])
  }

  /** Every warning is logged before any error, and the failure line comes last. */
  lemma StartupLogOrder(c: Config)
    ensures forall i :: 0 <= i < |Warnings(c)| ==> StartupLog(c)[i] == ConfigWarning(Warnings(c)[i])
    ensures forall i :: |Warnings(c)| <= i < |StartupLog(c)| ==> !StartupLog(c)[i].ConfigWarning?
    ensures CriticalErrors(c) != [] <==> StartupLog(c) != [] && StartupLog(c)[|StartupLog(c)| - 1] == StartupFailed
  {
    var ws := WarningLines(Warnings(c));
    var rest := if CriticalErrors(c) != [] then ErrorLines(CriticalErrors(c)) + [StartupFailed] else [];
    assert StartupLog(c) == ws + rest;
    WarningLinesAt(Warnings(c));
    ErrorLinesAt(CriticalErrors(c));
    assert forall i :: 0 <= i < |rest| ==> !rest[i].ConfigWarning?;
  }

  /** The first half of `verify_required_settings`: the two lists it fills. */
  method CollectProblems(c: Config) returns (criticalErrors: seq<Problem>, warnings: seq<Problem>)
    ensures criticalErrors == CriticalErrors(c) && warnings == Warnings(c)
  {
    criticalErrors := [];
    warnings := [];
    if !c.useManagedIdentity && !Filled(c.connectionString) {
      criticalErrors := criticalErrors + [MissingStorage];
    }
    if !Filled(c.redisHost) {
      warnings := warnings + [MissingRedis];
    }
    if c.environment == "production" && "*" in c.corsOrigins {
      warnings := warnings + [OpenCors];
    }
  }

  /** `verify_required_settings`: collect the problems, log them as `StartupLog`
      says, and exit with status 1 (`exited`) exactly when managed identity is off
      and there is no connection string; a missing Redis host or an open CORS list
      in production never stops startup. */
  method VerifyRequiredSettings(c: Config) returns (log: seq<LogLine>, exited: bool)
    ensures exited <==> !c.useManagedIdentity && !Filled(c.connectionString)
    ensures log == StartupLog(c)
  {
    var criticalErrors, warnings := CollectProblems(c);
    log, exited := LogProblems(criticalErrors, warnings);
  }

  /** The second half of `verify_required_settings`: log every warning; then, when
      there are errors, log each of them and the failure line, and exit. */
  method LogProblems(criticalErrors: seq<Problem>, warnings: seq<Problem>) returns (log: seq<LogLine>, exited: bool)
    ensures exited <==> criticalErrors != []
    ensures log == WarningLines(warnings)
                   + (if criticalErrors != [] then ErrorLines(criticalErrors) + [StartupFailed] else [])
  {
    log := [];
    var i := 0;
    while i < |warnings|
      invariant 0 <= i <= |warnings|
      invariant log == WarningLines(warnings[..i])
    {
      WarningLinesStep(warnings, i);
      log := log + [ConfigWarning(warnings[i])];
      i := i + 1;
    }
    assert warnings[..|warnings|] == warnings;
    exited := false;
    if criticalErrors == [] {
      assert log + [] == log;
    } else {
      ghost var warned := log;
      var j := 0;
      while j < |criticalErrors|
        invariant 0 <= j <= |criticalErrors|
        invariant log == warned + ErrorLines(criticalErrors[..j])
      {
        ErrorLinesStep(criticalErrors, j);
        log := log + [ConfigError(criticalErrors[j])];
        j := j + 1;
      }
      assert criticalErrors[..|criticalErrors|] == criticalErrors;
      log := log + [StartupFailed];
      exited := true;
    }
  }

  /** Under the defaults of src/config/settings.py a development start neither
      stops nor warns, while a start with `ENVIRONMENT` set to anything else stops
      (no connection string) and warns about Redis. */
  lemma DefaultsAtStartup(variable: Option<string>, hostName: string)
    ensures EnvVar(variable) == "development" ==>
      CriticalErrors(Defaults(variable, hostName)) == [] && Warnings(Defaults(variable, hostName)) == []
    ensures EnvVar(variable) != "development" ==>
      CriticalErrors(Defaults(variable, hostName)) == [MissingStorage]
      && Warnings(Defaults(variable, hostName)) == [MissingRedis]
  {
  }

  /** The monolith's defaults always stop startup: it has no default connection
      string. */
  lemma MonolithDefaultsStop(variable: Option<string>, redisHost: string, hostName: string)
    ensures CriticalErrors(MonolithDefaults(variable, redisHost, hostName)) == [MissingStorage]
  {
  }
}
