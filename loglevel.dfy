/** The server's log level, chosen from the configured `LOG_LEVEL` without regard to case. */
module LogLevel {
  import opened Strs

  /** The `slog` levels the server can run at. */
  datatype Level = Debug | Info | Warn | Error

  /** `parseLogLevel`: unknown names, the empty one included, give `Info`. A level other than
      `Info` comes only from its own name, or from `warning` for `Warn`, in any case. */
  function ParseLogLevel(s: string): (l: Level)
    ensures l != Info <==> ToLower(s) in {"debug", "warn", "warning", "error"}
    ensures l != Info ==> ToLower(s) == LevelName(l) || (l == Warn && ToLower(s) == "warning")
  {
    match ToLower(s)
    case "debug" => Debug
    case "warn" => Warn
    case "warning" => Warn
    case "error" => Error
    case _ => Info
  }

  /** The name each level is selected by, besides `warning` for `Warn`. */
  function LevelName(l: Level): string
  {
    match l
    case Debug => "debug"
    case Info => "info"
    case Warn => "warn"
    case Error => "error"
  }

  lemma {:induction false} ToLowerIdempotent(s: string)
    ensures ToLower(ToLower(s)) == ToLower(s)
  {
    var t := ToLower(s);
    assert forall i :: 0 <= i < |s| ==> LowerChar(t[i]) == t[i];
  }

  /** The level depends only on the lower-cased name. */
  lemma CaseInsensitive(s1: string, s2: string)
    requires ToLower(s1) == ToLower(s2)
    ensures ParseLogLevel(s1) == ParseLogLevel(s2)
  {
  }

  lemma ParseLowered(s: string)
    ensures ParseLogLevel(ToLower(s)) == ParseLogLevel(s)
  {
    ToLowerIdempotent(s);
  }

  /** Each level's name selects it, and so does `warning` for `Warn`. */
  lemma NamesParse(l: Level)
    ensures ParseLogLevel(LevelName(l)) == l
    ensures ParseLogLevel("warning") == Warn
  {
    LoweredName(LevelName(l));
    LoweredName("warning");
  }

  lemma LoweredName(s: string)
    requires forall i :: 0 <= i < |s| ==> 'a' <= s[i] <= 'z'
    ensures ToLower(s) == s
  {
  }

  /** `DEBUG` selects `Debug`. */
  lemma UpperDebug(s: string)
    requires s == "DEBUG"
    ensures ParseLogLevel(s) == Debug
  {
    assert ToLower(s) == "debug";
  }
}
