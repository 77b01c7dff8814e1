/** Settings: command-line flags with `ATTACHE_*` environment variables as fallback
    (main.go lines 213-249), and the check in `main` that the credentials and the
    server are present (lines 35-39). */
module Configuration {

  import opened Strings

  /** The flag values once `flag.Parse` has run, defaults filled in for flags not
      given on the command line. */
  datatype Flags = Flags(
    username: string, password: string, server: string, port: int, tls: bool,
    path: string, exclude: string)

  const DefaultExclude: string := "Spam,Trash,Deleted Messages"

  /** The program's settings after merging (the fields of its `Context`). */
  datatype Settings = Settings(
    username: string, password: string, server: string, port: int, tls: bool,
    path: string, exclude: seq<string>)

  /** `val, ok := os.LookupEnv(key); if value == "" && ok { value = val }`: a
      non-empty value is kept, an empty one takes the variable's value when the
      variable is set, and a changed one is the variable's value. */
  function Merge(value: string, env: map<string, string>, key: string): (r: string)
    ensures value != "" ==> r == value
    ensures value == "" && key in env ==> r == env[key]
    ensures r != value ==> key in env && r == env[key]
  {
    if value == "" && key in env then env[key] else value
  }

  /** The exclude list made from the merged exclude string: its comma-split when the
      string is non-empty, which has at least one entry; an empty string leaves
      the list empty. */
  function ExcludeList(exclude: string): (r: seq<string>)
    ensures r == [] <==> exclude == ""
  {
    if exclude != "" then Split(exclude, ',') else []
  }

  /** The settings `parseArguments` produces for a fresh context. */
  function Parse(flags: Flags, env: map<string, string>): Settings
  {
    Settings(
      Merge(flags.username, env, "ATTACHE_USERNAME"),
      Merge(flags.password, env, "ATTACHE_PASSWORD"),
      Merge(flags.server, env, "ATTACHE_SERVER"),
      flags.port,
      flags.tls,
      Merge(flags.path, env, "ATTACHE_PATH"),
      ExcludeList(Merge(flags.exclude, env, "ATTACHE_EXCLUDE")))
  }

  /** The check in `main`: without a username, a password or a server the program
      prints its usage and exits. The output path is not required. */
  predicate MissingRequired(s: Settings)
  {
    s.username == "" || s.password == "" || s.server == ""
  }

  /** A non-empty flag value is kept (for `-exclude`, its comma-split); an empty
      flag whose environment variable is set takes the variable's value; and a
      setting differs from its flag only in that case. */
  lemma FlagWinsOverEnvironment(flags: Flags, env: map<string, string>)
    ensures var s := Parse(flags, env);
      && (flags.username != "" ==> s.username == flags.username)
      && (flags.password != "" ==> s.password == flags.password)
      && (flags.server != "" ==> s.server == flags.server)
      && (flags.path != "" ==> s.path == flags.path)
      && (flags.exclude != "" ==> s.exclude == Split(flags.exclude, ','))
    ensures var s := Parse(flags, env);
      && (flags.username == "" && "ATTACHE_USERNAME" in env ==> s.username == env["ATTACHE_USERNAME"])
      && (flags.password == "" && "ATTACHE_PASSWORD" in env ==> s.password == env["ATTACHE_PASSWORD"])
      && (flags.server == "" && "ATTACHE_SERVER" in env ==> s.server == env["ATTACHE_SERVER"])
      && (flags.path == "" && "ATTACHE_PATH" in env ==> s.path == env["ATTACHE_PATH"])
    ensures var s := Parse(flags, env);
      && (s.username != flags.username ==> flags.username == "" && "ATTACHE_USERNAME" in env && s.username == env["ATTACHE_USERNAME"])
      && (s.password != flags.password ==> flags.password == "" && "ATTACHE_PASSWORD" in env && s.password == env["ATTACHE_PASSWORD"])
      && (s.server != flags.server ==> flags.server == "" && "ATTACHE_SERVER" in env && s.server == env["ATTACHE_SERVER"])
      && (s.path != flags.path ==> flags.path == "" && "ATTACHE_PATH" in env && s.path == env["ATTACHE_PATH"])
      && (s.exclude != ExcludeList(flags.exclude) ==>
            flags.exclude == "" && "ATTACHE_EXCLUDE" in env && s.exclude == ExcludeList(env["ATTACHE_EXCLUDE"]))
  {
  }

  /** The exclude list is the untrimmed comma-split of the merged exclude string:
      joining it back with commas gives that string, and no entry holds a comma. */
  lemma ExcludeListIsCommaSplit(exclude: string)
    requires exclude != ""
    ensures Join(ExcludeList(exclude), ',') == exclude
    ensures forall k :: 0 <= k < |ExcludeList(exclude)| ==> ',' !in ExcludeList(exclude)[k]
    ensures |ExcludeList(exclude)| >= 1
  {
  }

  /** Entries keep their spaces: "Spam, Trash" excludes "Spam" and " Trash". */
  lemma NoTrimming()
    ensures ExcludeList("Spam, Trash") == ["Spam", " Trash"]
  {
    assert Join(["Spam", " Trash"], ',') == "Spam, Trash";
    SplitJoin(["Spam", " Trash"], ',');
  }

  /** With the default exclude flag the environment cannot change the list:
      `ATTACHE_EXCLUDE` is read only when `-exclude` is given as the empty string. */
  lemma {:induction false} DefaultExcludeIgnoresEnvironment(flags: Flags, env: map<string, string>)
    requires flags.exclude == DefaultExclude
    ensures Parse(flags, env).exclude == ["Spam", "Trash", "Deleted Messages"]
  {
    var parts := ["Spam", "Trash", "Deleted Messages"];
    DefaultExcludeJoined();
    SplitJoin(parts, ',');
  }

  lemma DefaultExcludeJoined()
    ensures Join(["Spam", "Trash", "Deleted Messages"], ',') == DefaultExclude
  {
    var parts := ["Spam", "Trash", "Deleted Messages"];
    assert Join(parts[2..], ',') == "Deleted Messages";
    assert Join(parts[1..], ',') == "Trash,Deleted Messages";
  }

  /** When `-exclude` is empty the list comes from `ATTACHE_EXCLUDE` if it is set,
      and is empty otherwise. */
  lemma ExcludeFromEnvironment(flags: Flags, env: map<string, string>)
    requires flags.exclude == ""
    ensures "ATTACHE_EXCLUDE" in env ==> Parse(flags, env).exclude == ExcludeList(env["ATTACHE_EXCLUDE"])
    ensures "ATTACHE_EXCLUDE" !in env ==> Parse(flags, env).exclude == []
  {
  }
}
