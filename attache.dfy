/** The program itself, in the source's imperative form: the global `Context` whose
    fields `parseArguments` fills in step by step, the loops of `main` over the
    mailboxes, of `readAttachments` over the fetched messages and of
    `saveAttachments` over the parts, all writing through a `FileSystem`. Each method
    is proved to agree with the function that specifies it, whose properties are
    proved in the modules it imports. */
module Attache {

  import opened Wrappers
  import opened Strings
  import opened Filesystem
  import opened DestinationResolver
  import opened MessageProcessor
  import opened Configuration
  import opened FolderWalker
  import Session

  /** The program's settings (`type Context`, main.go lines 22-31). The IMAP client
      handle is not a field here: the server is an input to each method instead. */
  class Context {
    var username: string
    var password: string
    var server: string
    var port: int
    var tls: bool
    var exclude: seq<string>
    var path: string

    function Settings(): Settings
      reads this
    {
      Configuration.Settings(username, password, server, port, tls, path, exclude)
    }

    /** `Context{}`: every field holds its zero value. */
    constructor ()
      ensures Settings() == Configuration.Settings("", "", "", 0, false, "", [])
    {
      username, password, server, port, tls, exclude, path := "", "", "", 0, false, [], "";
    }

    /** `parseArguments`: the flag values, then each empty string setting replaced by
        its `ATTACHE_*` variable when that is set. The exclude list is replaced only
        when the merged exclude string is non-empty. */
    method ParseArguments(flags: Flags, env: map<string, string>)
      modifies this
      ensures Settings() == Parse(flags, env).(exclude :=
        if Merge(flags.exclude, env, "ATTACHE_EXCLUDE") == "" then old(exclude) else Parse(flags, env).exclude)
    {
      username := flags.username;
      password := flags.password;
      server := flags.server;
      port := flags.port;
      tls := flags.tls;
      path := flags.path;
      var excludeText := flags.exclude;

      username := MergeVariable(username, env, "ATTACHE_USERNAME");
      password := MergeVariable(password, env, "ATTACHE_PASSWORD");
      server := MergeVariable(server, env, "ATTACHE_SERVER");
      path := MergeVariable(path, env, "ATTACHE_PATH");
      excludeText := MergeVariable(excludeText, env, "ATTACHE_EXCLUDE");
      if excludeText != "" {
        exclude := Split(excludeText, ',');
      }
    }

    /** The loop at the top of `readAttachments`: is the mailbox name one of the
        exclude entries? */
    method CheckExcluded(name: string) returns (excluded: bool)
      ensures excluded <==> Excluded(name, exclude)
    {
      var i := 0;
      while i < |exclude|
        invariant 0 <= i <= |exclude|
        invariant name !in exclude[..i]
      {
        if name == exclude[i] {
          return true;
        }
        i := i + 1;
      }
      assert exclude[..i] == exclude;
      return false;
    }

    /** `saveAttachments`: works out the message's directory, skips the message when
        that path exists, and otherwise saves its attachments part by part. */
    method SaveAttachments(m: RawMessage, fs: FileSystem)
      modifies fs
      ensures fs.State() == SaveMessage(old(fs.State()), path, m)
    {
      if !m.Mail? || m.from.None? || |m.from.value| < 1 || m.date.None? {
        return;
      }
      var dir := Destination(path, m.from.value[0], m.date.value);
      assert DestinationOf(path, m) == Some(dir);
      var found := fs.Stat(dir);
      if found {
        return;
      }
      SaveParts(dir, m.parts, fs);
    }

    /** The part loop of `saveAttachments`: the end of the message stops it, any
        other error abandons the message, inline parts are passed over and each
        attachment is saved. */
    method SaveParts(dir: string, parts: seq<PartEvent>, fs: FileSystem)
      modifies fs
      ensures fs.State() == ProcessParts(old(fs.State()), dir, parts)
    {
      var i := 0;
      while i < |parts|
        invariant 0 <= i <= |parts|
        invariant ProcessParts(fs.State(), dir, parts[i..]) == ProcessParts(old(fs.State()), dir, parts)
      {
        var part := parts[i];
        ProcessAt(fs.State(), dir, parts, i);
        if part.Eof? {
          break;
        } else if part.Err? {
          return;
        }
        if part.Attachment? {
          SavePart(dir, part.filename, part.body, part.fault, fs);
        }
        i := i + 1;
      }
    }

    /** One attachment of the part loop: the file name normalised, `MkdirAll`, then
        `os.Create` and `io.Copy`; a failing step skips the rest of the attachment. */
    method SavePart(dir: string, name: string, body: seq<byte>, fault: Fault, fs: FileSystem)
      modifies fs
      ensures fs.State() == SaveAttachment(old(fs.State()), dir, name, body, fault)
    {
      var filename := name;
      if TrimSpaces(filename) == "" {
        filename := "unknown";
      }
      var ok := fs.MkdirAll(dir, fault == MkdirFails);
      if !ok {
        return;
      }
      ok := fs.Create(dir + "/" + filename, fault == CreateFails);
      if !ok {
        return;
      }
      var size, copied := fs.Copy(dir + "/" + filename, body, CopyFault(fault));
    }

    /** `readAttachments` for one mailbox of the LIST stream: returns the commands it
        sends and whether it ends the run with `log.Fatal`. */
    method ReadAttachments(box: Mailbox, fs: FileSystem) returns (commands: seq<Command>, fatal: bool)
      modifies fs
      ensures var p := ReadMailbox(old(fs.State()), path, exclude, box);
        commands == p.commands && fatal == p.fatal && fs.State() == p.disk
    {
      var excluded := CheckExcluded(box.name);
      if excluded {
        return [], false;
      }
      commands := [Select(box.name)];
      if box.reply.SelectFailed? {
        return commands, true;
      }
      if box.reply.messages == 0 {
        return commands, false;
      }
      commands := commands + [Fetch(box.name, 1, box.reply.messages)];
      var messages := box.reply.delivered;
      var i := 0;
      while i < |messages|
        invariant 0 <= i <= |messages|
        invariant SaveAll(fs.State(), path, messages[i..]) == SaveAll(old(fs.State()), path, messages)
      {
        SaveAllAt(fs.State(), path, messages, i);
        SaveAttachments(messages[i], fs);
        i := i + 1;
      }
      fatal := box.reply.fetchFailed;
    }
  }

  /** `val, ok := os.LookupEnv(key); if value == "" && ok { value = val }`: the
      variable is used only when the flag value is empty and the variable is set. */
  method MergeVariable(value: string, env: map<string, string>, key: string) returns (merged: string)
    ensures merged == Merge(value, env, key)
  {
    merged := value;
    if merged == "" && key in env {
      merged := env[key];
    }
  }

  /** `main`, on a fresh global context: returns the status passed to `os.Exit`
      and the commands sent to the server. */
  method Execute(flags: Flags, env: map<string, string>, server: Session.Server, fs: FileSystem)
    returns (exitCode: int, commands: seq<Command>)
    modifies fs
    ensures var o := Session.Run(flags, env, server, old(fs.State()));
      exitCode == o.exitCode && commands == o.commands && fs.State() == o.disk
  {
    var context := new Context();
    context.ParseArguments(flags, env);
    ghost var s := Parse(flags, env);
    assert context.Settings() == s;
    if context.username == "" || context.password == "" || context.server == "" {
      return -1, [];
    }
    exitCode, commands := Serve(context, server, fs);
  }

  /** `main` after the argument check: connect, log in, walk the LIST stream, and
      check how LIST ended. */
  method Serve(context: Context, server: Session.Server, fs: FileSystem) returns (exitCode: int, commands: seq<Command>)
    modifies fs
    ensures var o := Session.Connected(context.Settings(), server, old(fs.State()));
      exitCode == o.exitCode && commands == o.commands && fs.State() == o.disk
  {
    commands := [Dial(context.server, context.port)];
    if server.dialFails {
      return 1, commands;
    }
    commands := commands + [Login(context.username, context.password)];
    if server.loginFails {
      return 1, commands;
    }
    commands := commands + [List];
    var walked, fatal := ReadMailboxes(context, server.mailboxes, fs);
    commands := commands + walked;
    if fatal {
      return 1, commands;
    }
    if server.listFails {
      return 1, commands;
    }
    return 0, commands + [Logout];
  }

  /** The loop of `main` over the LIST stream: `readAttachments` for each mailbox
      until one of them ends the run. */
  method ReadMailboxes(context: Context, boxes: seq<Mailbox>, fs: FileSystem)
    returns (commands: seq<Command>, fatal: bool)
    modifies fs
    ensures var w := Walk(old(fs.State()), context.path, context.exclude, boxes);
      commands == w.commands && fatal == w.fatal && fs.State() == w.disk
  {
    commands := [];
    ghost var root, exclude := context.path, context.exclude;
    ghost var whole := Walk(fs.State(), root, exclude, boxes);
    var i := 0;
    while i < |boxes|
      invariant 0 <= i <= |boxes|
      invariant context.path == root && context.exclude == exclude
      invariant var rest := Walk(fs.State(), root, exclude, boxes[i..]);
        && commands + rest.commands == whole.commands
        && rest.disk == whole.disk && rest.fatal == whole.fatal
    {
      WalkAt(fs.State(), root, exclude, boxes, i);
      var here;
      here, fatal := context.ReadAttachments(boxes[i], fs);
      commands := commands + here;
      if fatal {
        return;
      }
      i := i + 1;
    }
    assert boxes[i..] == [];
    return commands, false;
  }
}
