/** Server configuration read from the environment. The process environment is a map from
    variable name to value; a fatal log in `Load` becomes an error result naming the cause. */
module Config {
  import opened Common
  import opened StrConv

  type Env = map<string, string>

  /** `os.Getenv`: an unset variable reads as "". */
  function Getenv(env: Env, key: string): string
  {
    StringAt(env, key)
  }

  /** A variable's value when it is set and non-empty, the fallback otherwise. */
  function EnvOrDefault(env: Env, key: string, fallback: string): (v: string)
    ensures Getenv(env, key) != "" ==> v == env[key]
    ensures Getenv(env, key) == "" ==> v == fallback
    ensures fallback != "" ==> v != ""
  {
    var val := Getenv(env, key);
    if val != "" then val else fallback
  }

  datatype LocalConfig = LocalConfig(rootPath: string)
  datatype SmbConfig = SmbConfig(host: string, port: string, share: string, user: string, password: string)
  datatype FtpConfig = FtpConfig(host: string, port: string, user: string, password: string)
  datatype S3Config = S3Config(bucket: string, region: string, prefix: string)

  datatype Config = Config(
    port: string,
    logLevel: string,
    storageBackend: string,
    maxUploadSize: int64,
    local: LocalConfig,
    smb: SmbConfig,
    ftp: FtpConfig,
    s3: S3Config)

  /** Why `Load` stops the server. */
  datatype LoadError =
    | InvalidBackend(backend: string)
    | InvalidMaxUploadSize(cause: NumError)
    | ValidationFailed(message: string)

  const ValidBackends: set<string> := {"local", "smb", "ftp", "s3"}

  /** The backends a configuration can name. */
  datatype Backend = LocalBackend | SmbBackend | FtpBackend | S3Backend | UnknownBackend

  /** The backend a `STORAGE_BACKEND` value selects. */
  function KindOf(name: string): (k: Backend)
    ensures k != UnknownBackend <==> name in ValidBackends
  {
    if name == "local" then LocalBackend
    else if name == "smb" then SmbBackend
    else if name == "ftp" then FtpBackend
    else if name == "s3" then S3Backend
    else UnknownBackend
  }

  /** Checks that the selected backend has the settings it cannot work without; the settings
      of the other backends are not looked at. */
  function ValidateBackend(c: Config): (r: Result<(), string>)
    ensures r.Ok? ==> forall s :: s in Required(KindOf(c.storageBackend)) ==> Value(c, s) != ""
    ensures r.Err? ==> exists s :: s in Required(KindOf(c.storageBackend)) && Value(c, s) == "" && r.error == MissingMessage(s)
  {
    match KindOf(c.storageBackend)
    case LocalBackend =>
      if c.local.rootPath == "" then Err(MissingMessage(LocalRootPath)) else Ok(())
    case SmbBackend =>
      if c.smb.host == "" then Err(MissingMessage(SmbHost))
      else if c.smb.share == "" then Err(MissingMessage(SmbShare))
      else Ok(())
    case FtpBackend =>
      if c.ftp.host == "" then Err(MissingMessage(FtpHost)) else Ok(())
    case S3Backend =>
      if c.s3.bucket == "" then Err(MissingMessage(S3Bucket)) else Ok(())
    case UnknownBackend => Ok(())
  }

  /** The configuration record `Load` builds once the backend and the upload limit are known:
      every other field is its setting looked up in the environment. */
  function Assemble(env: Env, backend: string, maxUpload: int64): (c: Config)
    ensures c.storageBackend == backend && c.maxUploadSize == maxUpload
    ensures forall s :: s != StorageBackend ==> Value(c, s) == Lookup(env, s)
  {
    Record(s => Lookup(env, s), backend, maxUpload)
  }

  /** The record whose string fields other than the backend are given by `f`. */
  function Record(f: Setting -> string, backend: string, maxUpload: int64): (c: Config)
    ensures c.storageBackend == backend && c.maxUploadSize == maxUpload
    ensures forall s :: s != StorageBackend ==> Value(c, s) == f(s)
  {
    Config(
      port := f(Port),
      logLevel := f(LogLevel),
      storageBackend := backend,
      maxUploadSize := maxUpload,
      local := LocalConfig(rootPath := f(LocalRootPath)),
      smb := SmbConfig(host := f(SmbHost), port := f(SmbPort), share := f(SmbShare), user := f(SmbUser), password := f(SmbPassword)),
      ftp := FtpConfig(host := f(FtpHost), port := f(FtpPort), user := f(FtpUser), password := f(FtpPassword)),
      s3 := S3Config(bucket := f(S3Bucket), region := f(S3Region), prefix := f(S3Prefix)))
  }

  /** The text of the upload limit: `MAX_UPLOAD_SIZE`, 104857600 bytes when unset or empty. */
  function UploadLimitText(env: Env): string
  {
    EnvOrDefault(env, "MAX_UPLOAD_SIZE", "104857600")
  }

  /** `config.Load`: the backend is checked first, then the upload limit, then the backend's
      required settings. */
  function Load(env: Env): (r: Result<Config, LoadError>)
    ensures Lookup(env, StorageBackend) !in ValidBackends ==>
              r == Err(InvalidBackend(Lookup(env, StorageBackend)))
    ensures r.Ok? ==>
              && r.value.storageBackend in ValidBackends
              && ParseInt64(UploadLimitText(env)) == Ok(r.value.maxUploadSize)
              && (forall s :: Value(r.value, s) == Lookup(env, s))
              && ValidateBackend(r.value).Ok?
  {
    var backend := Lookup(env, StorageBackend);
    if backend !in ValidBackends then Err(InvalidBackend(backend))
    else
      match ParseInt64(UploadLimitText(env))
      case Err(e) => Err(InvalidMaxUploadSize(e))
      case Ok(maxUpload) =>
        var cfg := Assemble(env, backend, maxUpload);
        match ValidateBackend(cfg)
        case Err(m) => Err(ValidationFailed(m))
        case Ok(_) => Ok(cfg)
  }

  // ---------------------------------------------------------------------------------------
  // The settings as a table: each string field, the variable it comes from and its default
  // ---------------------------------------------------------------------------------------

  datatype Setting =
    | Port | LogLevel | StorageBackend | LocalRootPath
    | SmbHost | SmbPort | SmbShare | SmbUser | SmbPassword
    | FtpHost | FtpPort | FtpUser | FtpPassword
    | S3Bucket | S3Region | S3Prefix

  function EnvName(s: Setting): string
  {
    match s
    case Port => "PORT"
    case LogLevel => "LOG_LEVEL"
    case StorageBackend => "STORAGE_BACKEND"
    case LocalRootPath => "LOCAL_ROOT_PATH"
    case SmbHost => "SMB_HOST"
    case SmbPort => "SMB_PORT"
    case SmbShare => "SMB_SHARE"
    case SmbUser => "SMB_USER"
    case SmbPassword => "SMB_PASSWORD"
    case FtpHost => "FTP_HOST"
    case FtpPort => "FTP_PORT"
    case FtpUser => "FTP_USER"
    case FtpPassword => "FTP_PASSWORD"
    case S3Bucket => "S3_BUCKET"
    case S3Region => "S3_REGION"
    case S3Prefix => "S3_PREFIX"
  }

  /** The value a setting takes when its variable is unset or empty; a setting without a
      default reads as `os.Getenv` does. */
  function Default(s: Setting): string
  {
    match s
    case Port => "8080"
    case LogLevel => "info"
    case StorageBackend => "local"
    case LocalRootPath => "./data"
    case SmbPort => "445"
    case FtpPort => "21"
    case S3Region => "us-east-1"
    case _ => ""
  }

  /** A setting's value in the environment. */
  function Lookup(env: Env, s: Setting): (v: string)
    ensures Getenv(env, EnvName(s)) != "" ==> v == env[EnvName(s)]
    ensures Getenv(env, EnvName(s)) == "" ==> v == Default(s)
  {
    EnvOrDefault(env, EnvName(s), Default(s))
  }

  function Value(c: Config, s: Setting): string
  {
    match s
    case Port => c.port
    case LogLevel => c.logLevel
    case StorageBackend => c.storageBackend
    case LocalRootPath => c.local.rootPath
    case SmbHost => c.smb.host
    case SmbPort => c.smb.port
    case SmbShare => c.smb.share
    case SmbUser => c.smb.user
    case SmbPassword => c.smb.password
    case FtpHost => c.ftp.host
    case FtpPort => c.ftp.port
    case FtpUser => c.ftp.user
    case FtpPassword => c.ftp.password
    case S3Bucket => c.s3.bucket
    case S3Region => c.s3.region
    case S3Prefix => c.s3.prefix
  }

  /** The settings each backend cannot work without, in the order they are checked. */
  function Required(backend: Backend): seq<Setting>
  {
    match backend
    case LocalBackend => [LocalRootPath]
    case SmbBackend => [SmbHost, SmbShare]
    case FtpBackend => [FtpHost]
    case S3Backend => [S3Bucket]
    case UnknownBackend => []
  }

  /** The message naming a required setting that is missing. */
  function MissingMessage(s: Setting): string
  {
    match s
    case LocalRootPath => "LOCAL_ROOT_PATH is required for local backend"
    case SmbHost => "SMB_HOST is required for smb backend"
    case SmbShare => "SMB_SHARE is required for smb backend"
    case FtpHost => "FTP_HOST is required for ftp backend"
    case S3Bucket => "S3_BUCKET is required for s3 backend"
    case _ => EnvName(s) + " is required"
  }

  // ---------------------------------------------------------------------------------------

  /** `EnvOrDefault` with a non-empty value set and with the variable absent. */
  lemma EnvOrDefaultCases(env: Env, key: string, fallback: string)
    ensures EnvOrDefault(env, key, fallback) == fallback <==>
              key !in env || env[key] == "" || env[key] == fallback
    ensures EnvOrDefault(env, key, fallback) == "" <==> fallback == "" && (key !in env || env[key] == "")
  {
  }

  /** Validation succeeds exactly when every required setting of the selected backend is
      non-empty. */
  lemma ValidateBackendOk(c: Config)
    ensures ValidateBackend(c).Ok? <==>
              forall i :: 0 <= i < |Required(KindOf(c.storageBackend))| ==> Value(c, Required(KindOf(c.storageBackend))[i]) != ""
  {
    var req := Required(KindOf(c.storageBackend));
    if ValidateBackend(c).Err? {
      if KindOf(c.storageBackend) == SmbBackend && c.smb.host != "" {
        assert Value(c, req[1]) == "";
      } else {
        assert Value(c, req[0]) == "";
      }
    }
  }

  /** A failed validation names the first required setting, in checking order, that is empty. */
  lemma ValidateBackendFirstMissing(c: Config)
    ensures ValidateBackend(c).Err? ==>
              exists i :: 0 <= i < |Required(KindOf(c.storageBackend))|
                && Value(c, Required(KindOf(c.storageBackend))[i]) == ""
                && (forall j :: 0 <= j < i ==> Value(c, Required(KindOf(c.storageBackend))[j]) != "")
                && ValidateBackend(c).error == MissingMessage(Required(KindOf(c.storageBackend))[i])
  {
    var req := Required(KindOf(c.storageBackend));
    if ValidateBackend(c).Err? {
      if KindOf(c.storageBackend) == SmbBackend && c.smb.host != "" {
        assert Value(c, req[0]) != "" && Value(c, req[1]) == "";
      } else {
        assert Value(c, req[0]) == "";
      }
    }
  }

  /** Validation depends on the selected backend's required settings and on nothing else. */
  lemma ValidateSelectedOnly(c1: Config, c2: Config)
    requires c1.storageBackend == c2.storageBackend
    requires forall s :: s in Required(KindOf(c1.storageBackend)) ==> Value(c1, s) == Value(c2, s)
    ensures ValidateBackend(c1) == ValidateBackend(c2)
  {
    var req := Required(KindOf(c1.storageBackend));
    if |req| > 0 {
      assert req[0] in req;
    }
    if |req| > 1 {
      assert req[1] in req;
    }
  }

  /** A backend outside the known set is never refused by the validator itself. */
  lemma ValidateUnknownBackend(c: Config)
    requires c.storageBackend !in ValidBackends
    ensures ValidateBackend(c) == Ok(())
  {
  }

  /** A setting without a default is the variable's raw value. */
  lemma LookupWithoutDefault(env: Env, s: Setting)
    requires Default(s) == ""
    ensures Lookup(env, s) == Getenv(env, EnvName(s))
  {
  }

  lemma LoadSteps(env: Env)
    ensures var parsed := ParseInt64(UploadLimitText(env));
            Load(env).Ok? <==>
              && Lookup(env, StorageBackend) in ValidBackends && parsed.Ok?
              && ValidateBackend(Assemble(env, Lookup(env, StorageBackend), parsed.value)).Ok?
  {
  }

  /** What a successful `Load` has checked and built. */
  lemma LoadOk(env: Env)
    requires Load(env).Ok?
    ensures var parsed := ParseInt64(UploadLimitText(env));
            && Lookup(env, StorageBackend) in ValidBackends && parsed.Ok?
            && Load(env).value == Assemble(env, Lookup(env, StorageBackend), parsed.value)
            && ValidateBackend(Load(env).value).Ok?
  {
  }

  /** One string field of a loaded configuration. */
  lemma LoadField(env: Env, s: Setting)
    requires Load(env).Ok?
    ensures Value(Load(env).value, s) == Lookup(env, s)
  {
  }

  /** The order of failures: an unknown backend first, then an unparsable upload limit, then a
      missing required setting, with the message validation gives. */
  lemma LoadErrors(env: Env)
    ensures Lookup(env, StorageBackend) !in ValidBackends ==>
              Load(env) == Err(InvalidBackend(Lookup(env, StorageBackend)))
    ensures var parsed := ParseInt64(UploadLimitText(env));
            Lookup(env, StorageBackend) in ValidBackends && parsed.Err? ==>
              Load(env) == Err(InvalidMaxUploadSize(parsed.error))
    ensures var parsed := ParseInt64(UploadLimitText(env));
            Load(env).Err? && Load(env).error.ValidationFailed? ==>
              && Lookup(env, StorageBackend) in ValidBackends && parsed.Ok?
              && var cfg := Assemble(env, Lookup(env, StorageBackend), parsed.value);
                 ValidateBackend(cfg).Err? && Load(env).error.message == ValidateBackend(cfg).error
  {
  }

  /** `Load` succeeds exactly when the backend is known, the upload limit parses, and every
      setting the backend requires is non-empty. */
  lemma LoadOutcome(env: Env)
    ensures Load(env).Ok? <==>
              var backend := Lookup(env, StorageBackend);
              && backend in ValidBackends
              && ParseInt64(UploadLimitText(env)).Ok?
              && forall s :: s in Required(KindOf(backend)) ==> Lookup(env, s) != ""
  {
    LoadSteps(env);
    var backend := Lookup(env, StorageBackend);
    var parsed := ParseInt64(UploadLimitText(env));
    if backend in ValidBackends && parsed.Ok? {
      ValidateAgainstEnv(env, Assemble(env, backend, parsed.value));
    }
  }

  /** Validating a record whose settings come from the environment checks the environment. */
  lemma ValidateAgainstEnv(env: Env, c: Config)
    requires forall s :: s != StorageBackend ==> Value(c, s) == Lookup(env, s)
    ensures ValidateBackend(c).Ok? <==> forall s :: s in Required(KindOf(c.storageBackend)) ==> Lookup(env, s) != ""
  {
    ValidateBackendOk(c);
    var req := Required(KindOf(c.storageBackend));
    assert StorageBackend !in req;
    assert forall i :: 0 <= i < |req| ==> req[i] in req;
  }

  /** Only the local root has a default among required settings, so every other required
      setting must be set in the environment. */
  lemma RequiredDefaults(k: Backend, s: Setting)
    requires s in Required(k)
    ensures s == LocalRootPath || Default(s) == ""
    ensures s != LocalRootPath ==> forall env :: Lookup(env, s) == Getenv(env, EnvName(s))
  {
  }

  /** With the local backend and a parsable upload limit, loading cannot fail. */
  lemma LocalLoads(env: Env)
    requires Lookup(env, StorageBackend) == "local"
    requires ParseInt64(UploadLimitText(env)).Ok?
    ensures Load(env).Ok? && Load(env).value.local.rootPath != ""
  {
    var parsed := ParseInt64(UploadLimitText(env));
    LocalValidates(env, parsed.value);
    assert Load(env) == Ok(Assemble(env, "local", parsed.value));
  }

  /** The local root always has a value, so a local configuration always validates. */
  lemma LocalValidates(env: Env, maxUpload: int64)
    ensures var cfg := Assemble(env, "local", maxUpload);
            ValidateBackend(cfg) == Ok(()) && cfg.local.rootPath != ""
  {
    var cfg := Assemble(env, "local", maxUpload);
    assert cfg.local.rootPath == Value(cfg, LocalRootPath) == Lookup(env, LocalRootPath);
  }

  // ---------------------------------------------------------------------------------------
  // Concrete environments
  // ---------------------------------------------------------------------------------------

  lemma DefaultUploadLimit(s: string)
    requires s == "104857600"
    ensures ParseInt64(s) == Ok(104857600)
  {
    assert s[0] == '1' && s[1] == '0' && s[2] == '4' && s[3] == '8' && s[4] == '5';
    assert s[5] == '7' && s[6] == '6' && s[7] == '0' && s[8] == '0' && |s| == 9;
    assert ScanUint(0, s) == ScanUint(1, s[1..]);
    assert ScanUint(1, s[1..]) == ScanUint(10, s[2..]);
    assert ScanUint(10, s[2..]) == ScanUint(104, s[3..]);
    assert ScanUint(104, s[3..]) == ScanUint(1048, s[4..]);
    assert ScanUint(1048, s[4..]) == ScanUint(10485, s[5..]);
    assert ScanUint(10485, s[5..]) == ScanUint(104857, s[6..]);
    assert ScanUint(104857, s[6..]) == ScanUint(1048576, s[7..]);
    assert ScanUint(1048576, s[7..]) == ScanUint(10485760, s[8..]);
    assert ScanUint(10485760, s[8..]) == ScanUint(104857600, s[9..]);
  }

  /** With the local backend selected and the port, log level and upload limit unset, the
      documented defaults apply. */
  lemma LoadDefaults(env: Env)
    requires Lookup(env, StorageBackend) == "local"
    requires Getenv(env, "PORT") == "" && Getenv(env, "LOG_LEVEL") == "" && Getenv(env, "MAX_UPLOAD_SIZE") == ""
    ensures Load(env).Ok?
    ensures var c := Load(env).value;
            && c.port == "8080" && c.logLevel == "info" && c.storageBackend == "local"
            && c.maxUploadSize == 104857600 && c.local.rootPath != ""
  {
    assert UploadLimitText(env) == "104857600";
    DefaultUploadLimit(UploadLimitText(env));
    LocalLoads(env);
    LoadOk(env);
    LoadField(env, Port);
    LoadField(env, LogLevel);
  }

  /** With the S3 backend and a bucket set, loading succeeds and keeps the bucket. */
  lemma S3Loads(env: Env)
    requires Lookup(env, StorageBackend) == "s3"
    requires Getenv(env, EnvName(S3Bucket)) != ""
    requires ParseInt64(UploadLimitText(env)).Ok?
    ensures Load(env).Ok?
    ensures Load(env).value.s3.bucket == Getenv(env, EnvName(S3Bucket))
  {
    KindOfS3(Lookup(env, StorageBackend));
    LookupWithoutDefault(env, S3Bucket);
    LoadOutcome(env);
    LoadField(env, S3Bucket);
  }

  /** With the S3 backend, a bucket and no region set, loading succeeds with the default region. */
  lemma S3DefaultRegion(env: Env)
    requires Lookup(env, StorageBackend) == "s3"
    requires Getenv(env, EnvName(S3Bucket)) != "" && Getenv(env, EnvName(S3Region)) == ""
    requires ParseInt64(UploadLimitText(env)).Ok?
    ensures Load(env).Ok?
    ensures Load(env).value.s3.region == "us-east-1"
  {
    S3Loads(env);
    LoadField(env, S3Region);
    RegionDefault(env);
  }

  /** With the SMB backend, loading succeeds once host and share are set, and copies them. */
  lemma SmbLoads(env: Env)
    requires Lookup(env, StorageBackend) == "smb"
    requires Getenv(env, EnvName(SmbHost)) != "" && Getenv(env, EnvName(SmbShare)) != ""
    requires ParseInt64(UploadLimitText(env)).Ok?
    ensures Load(env).Ok?
    ensures Load(env).value.smb.host == Getenv(env, EnvName(SmbHost))
    ensures Load(env).value.smb.share == Getenv(env, EnvName(SmbShare))
  {
    KindOfSmb(Lookup(env, StorageBackend));
    LookupWithoutDefault(env, SmbHost);
    LookupWithoutDefault(env, SmbShare);
    LoadOutcome(env);
    LoadField(env, SmbHost);
    LoadField(env, SmbShare);
  }

  lemma RegionDefault(env: Env)
    requires Getenv(env, EnvName(S3Region)) == ""
    ensures Lookup(env, S3Region) == "us-east-1"
  {
  }

  lemma KindOfS3(name: string)
    requires name == "s3"
    ensures KindOf(name) == S3Backend
  {
  }

  lemma KindOfSmb(name: string)
    requires name == "smb"
    ensures KindOf(name) == SmbBackend
  {
  }
}
