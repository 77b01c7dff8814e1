/** One run of the program (`main`, main.go lines 33-68): settings, the required-argument
    check, connecting and logging in, the walk over the LIST stream, and the exit
    status. The server's behaviour is an input. */
module Session {

  import opened Filesystem
  import opened Configuration
  import opened FolderWalker

  /** What the server does: whether dialling or LOGIN fails, the mailboxes LIST
      reports (each with its SELECT and FETCH behaviour), and whether the LIST
      command itself ends in an error. */
  datatype Server = Server(dialFails: bool, loginFails: bool, mailboxes: seq<Mailbox>, listFails: bool)

  /** The status passed to `os.Exit` (0 when `main` returns normally), the commands
      sent, and the disk afterwards. */
  datatype Outcome = Outcome(exitCode: int, commands: seq<Command>, disk: Disk)

  /** `main`. A missing username, password or server calls `os.Exit(-1)` before
      any connection; otherwise the run goes on as `Connected` says. */
  function Run(flags: Flags, env: map<string, string>, server: Server, d: Disk): Outcome
  {
    var s := Parse(flags, env);
    if MissingRequired(s) then Outcome(-1, [], d) else Connected(s, server, d)
  }

  /** The rest of `main` once the settings are complete: dial, LOGIN, LIST and the
      walk over the mailboxes. `log.Fatal` exits with 1 and skips the deferred
      LOGOUT; a run that returns from `main` sends LOGOUT and exits with 0. Either
      way the first command dials the configured server and port. */
  function Connected(s: Settings, server: Server, d: Disk): (o: Outcome)
    ensures o.exitCode == 0 || o.exitCode == 1
    ensures o.commands != [] && o.commands[0] == Dial(s.server, s.port)
  {
    var dial := Dial(s.server, s.port);
    var login := Login(s.username, s.password);
    if server.dialFails then Outcome(1, [dial], d)
    else if server.loginFails then Outcome(1, [dial, login], d)
    else
      var w := Walk(d, s.path, s.exclude, server.mailboxes);
      if w.fatal || server.listFails then Outcome(1, [dial, login, List] + w.commands, w.disk)
      else Outcome(0, [dial, login, List] + w.commands + [Logout], w.disk)
  }

  /** The run calls `os.Exit(-1)` exactly when the username, the password or the
      server is missing after merging, and then it neither connects nor writes. */
  lemma MissingArgumentsExitEarly(flags: Flags, env: map<string, string>, server: Server, d: Disk)
    ensures Run(flags, env, server, d).exitCode == -1 <==> MissingRequired(Parse(flags, env))
    ensures MissingRequired(Parse(flags, env)) ==> Run(flags, env, server, d).commands == [] && Run(flags, env, server, d).disk == d
    ensures !MissingRequired(Parse(flags, env)) ==>
      var s := Parse(flags, env);
      Run(flags, env, server, d).commands[0] == Dial(s.server, s.port)
  {
  }

  /** The run succeeds (exit 0) exactly when nothing goes wrong: the settings are
      complete, dial, LOGIN, every SELECT and FETCH and LIST succeed. LOGOUT is sent
      exactly on success, as the last command. */
  lemma {:induction false} ExitStatus(flags: Flags, env: map<string, string>, server: Server, d: Disk)
    ensures var o := Run(flags, env, server, d); o.exitCode == -1 || o.exitCode == 0 || o.exitCode == 1
    ensures var o := Run(flags, env, server, d); var s := Parse(flags, env);
      o.exitCode == 0 <==>
        !MissingRequired(s) && !server.dialFails && !server.loginFails && !server.listFails
        && !Walk(d, s.path, s.exclude, server.mailboxes).fatal
    ensures var o := Run(flags, env, server, d);
      Logout in o.commands <==> o.exitCode == 0
    ensures var o := Run(flags, env, server, d);
      o.exitCode == 0 ==> o.commands[|o.commands| - 1] == Logout
  {
    var s := Parse(flags, env);
    var w := Walk(d, s.path, s.exclude, server.mailboxes);
    ExcludedNeverSelected(d, s.path, s.exclude, server.mailboxes);
    assert Logout !in w.commands;
  }

  /** A folder in the exclude list is never selected or fetched in the whole run. */
  lemma {:induction false} ExcludedFoldersUntouched(flags: Flags, env: map<string, string>, server: Server, d: Disk)
    ensures forall c :: c in Run(flags, env, server, d).commands && (c.Select? || c.Fetch?) ==>
      !Excluded(c.mailbox, Parse(flags, env).exclude)
  {
    var s := Parse(flags, env);
    ExcludedNeverSelected(d, s.path, s.exclude, server.mailboxes);
  }

  /** Running the program a second time against the same server and with the same
      settings, on the disk the first run left, sends the same commands, exits with
      the same status and writes nothing. */
  lemma RunTwice(flags: Flags, env: map<string, string>, server: Server, d: Disk)
    ensures var first := Run(flags, env, server, d);
      Run(flags, env, server, first.disk) == first
  {
    var s := Parse(flags, env);
    WalkTwice(d, s.path, s.exclude, server.mailboxes);
  }
}
