/** The walk over the mailboxes (`readAttachments`, main.go lines 70-107, driven by
    the loop at lines 61-63), as functions: which mailboxes are selected and
    fetched, with which range, what the fetched messages do to the disk, and
    when the run dies. The imperative version in module Attache is proved to agree
    with `ReadMailbox` and `Walk`. */
module FolderWalker {

  import opened Wrappers
  import opened Filesystem
  import opened DestinationResolver
  import opened MessageProcessor

  /** A command sent to the mail server. */
  datatype Command =
    | Dial(server: string, port: int)
    | Login(username: string, password: string)
    | List
    | Select(mailbox: string)
    | Fetch(mailbox: string, first: nat, last: nat)
    | Logout

  /** The server's answer to SELECT and, after it, what the FETCH stream delivers
      and whether it ends in an error. */
  datatype SelectReply =
    | SelectFailed
    | Selected(messages: nat, delivered: seq<RawMessage>, fetchFailed: bool)

  /** One mailbox of the LIST stream, with the server's behaviour towards it. */
  datatype Mailbox = Mailbox(name: string, reply: SelectReply)

  /** The disk, the commands sent so far, and whether `log.Fatal` ended the run. */
  datatype Progress = Progress(disk: Disk, commands: seq<Command>, fatal: bool)

  /** The folder filter: exact, case-sensitive equality with an entry of the list. */
  predicate Excluded(name: string, exclude: seq<string>)
  {
    name in exclude
  }

  /** The messages of one FETCH stream, saved one after another. */
  function SaveAll(d: Disk, root: string, messages: seq<RawMessage>): Disk
    decreases |messages|
  {
    if messages == [] then d else SaveAll(SaveMessage(d, root, messages[0]), root, messages[1..])
  }

  /** `readAttachments` for one mailbox. */
  function ReadMailbox(d: Disk, root: string, exclude: seq<string>, m: Mailbox): Progress
  {
    if Excluded(m.name, exclude) then Progress(d, [], false)
    else
      match m.reply
      case SelectFailed => Progress(d, [Select(m.name)], true)
      case Selected(n, delivered, fetchFailed) =>
        if n == 0 then Progress(d, [Select(m.name)], false)
        else Progress(SaveAll(d, root, delivered), [Select(m.name), Fetch(m.name, 1, n)], fetchFailed)
  }

  /** The mailboxes handled in order until one of them ends the run. */
  function Walk(d: Disk, root: string, exclude: seq<string>, boxes: seq<Mailbox>): Progress
    decreases |boxes|
  {
    if boxes == [] then Progress(d, [], false)
    else
      var p := ReadMailbox(d, root, exclude, boxes[0]);
      if p.fatal then p
      else
        var q := Walk(p.disk, root, exclude, boxes[1..]);
        Progress(q.disk, p.commands + q.commands, q.fatal)
  }

  /** The messages from `i` on: message `i`, then the rest. */
  lemma SaveAllAt(d: Disk, root: string, messages: seq<RawMessage>, i: nat)
    requires i < |messages|
    ensures SaveAll(d, root, messages[i..]) == SaveAll(SaveMessage(d, root, messages[i]), root, messages[i + 1..])
  {
    assert messages[i..][0] == messages[i];
    assert messages[i..][1..] == messages[i + 1..];
  }

  /** The mailboxes from `i` on: mailbox `i`, then, unless it ends the run, the rest. */
  lemma WalkAt(d: Disk, root: string, exclude: seq<string>, boxes: seq<Mailbox>, i: nat)
    requires i < |boxes|
    ensures var p := ReadMailbox(d, root, exclude, boxes[i]);
      Walk(d, root, exclude, boxes[i..]) ==
        if p.fatal then p
        else
          var q := Walk(p.disk, root, exclude, boxes[i + 1..]);
          Progress(q.disk, p.commands + q.commands, q.fatal)
  {
    assert boxes[i..][0] == boxes[i];
    assert boxes[i..][1..] == boxes[i + 1..];
  }

  /** A mailbox that ends the run whatever the disk holds: it is not excluded, and
      its SELECT fails or its non-empty FETCH stream ends in an error. */
  predicate FatalReply(m: Mailbox, exclude: seq<string>)
  {
    !Excluded(m.name, exclude)
      && (m.reply.SelectFailed? || (m.reply.messages > 0 && m.reply.fetchFailed))
  }

  /** The messages a walk processes: those delivered for each mailbox it gets to
      that is neither excluded nor empty. */
  function Processed(exclude: seq<string>, boxes: seq<Mailbox>): seq<RawMessage>
    decreases |boxes|
  {
    if boxes == [] then []
    else
      var m := boxes[0];
      var here := if !Excluded(m.name, exclude) && m.reply.Selected? && m.reply.messages > 0
        then m.reply.delivered else [];
      if FatalReply(m, exclude) then here else here + Processed(exclude, boxes[1..])
  }

  lemma ReadMailboxFatal(d: Disk, root: string, exclude: seq<string>, m: Mailbox)
    ensures ReadMailbox(d, root, exclude, m).fatal == FatalReply(m, exclude)
  {
  }

  /** Every command names a mailbox that is not excluded. */
  predicate NoExcludedMailbox(cmds: seq<Command>, exclude: seq<string>)
  {
    forall c :: c in cmds ==> (c.Select? || c.Fetch?) && !Excluded(c.mailbox, exclude)
  }

  /** Every FETCH asks for 1 to a count of at least 1, right after the SELECT of
      the same mailbox. */
  predicate FetchAfterSelect(cmds: seq<Command>)
  {
    forall k :: 0 <= k < |cmds| && cmds[k].Fetch? ==>
      cmds[k].first == 1 && cmds[k].last >= 1 && k > 0 && cmds[k - 1] == Select(cmds[k].mailbox)
  }

  /** Every FETCH names a mailbox of `boxes` whose SELECT reported exactly
      `last` messages. */
  predicate FetchMatchesCount(cmds: seq<Command>, boxes: seq<Mailbox>)
  {
    forall c :: c in cmds && c.Fetch? ==>
      exists m :: m in boxes && m.name == c.mailbox && m.reply.Selected? && m.reply.messages == c.last
  }

  lemma FetchAfterSelectConcat(a: seq<Command>, b: seq<Command>)
    requires FetchAfterSelect(a) && FetchAfterSelect(b)
    requires a != [] ==> !a[0].Fetch?
    requires b != [] ==> !b[0].Fetch?
    ensures FetchAfterSelect(a + b)
  {
    var cmds := a + b;
    forall k | 0 <= k < |cmds| && cmds[k].Fetch?
      ensures cmds[k].first == 1 && cmds[k].last >= 1 && k > 0 && cmds[k - 1] == Select(cmds[k].mailbox)
    {
      if k < |a| {
        assert cmds[k] == a[k] && cmds[k - 1] == a[k - 1];
      } else {
        assert cmds[k] == b[k - |a|];
        assert cmds[k - 1] == b[k - |a| - 1];
      }
    }
  }

  /** An excluded mailbox is never selected or fetched, and no command of the walk
      names an excluded mailbox. */
  lemma {:induction false} ExcludedNeverSelected(d: Disk, root: string, exclude: seq<string>, boxes: seq<Mailbox>)
    ensures NoExcludedMailbox(Walk(d, root, exclude, boxes).commands, exclude)
    decreases |boxes|
  {
    if boxes != [] {
      var p := ReadMailbox(d, root, exclude, boxes[0]);
      if !p.fatal {
        ExcludedNeverSelected(p.disk, root, exclude, boxes[1..]);
      }
    }
  }

  /** Every FETCH asks for the whole mailbox, 1 to its message count, which is at
      least 1 (an empty mailbox is never fetched), and comes right after the SELECT
      of the same mailbox. */
  lemma {:induction false} FetchIsWholeMailbox(d: Disk, root: string, exclude: seq<string>, boxes: seq<Mailbox>)
    ensures FetchAfterSelect(Walk(d, root, exclude, boxes).commands)
    ensures FetchMatchesCount(Walk(d, root, exclude, boxes).commands, boxes)
    ensures var cmds := Walk(d, root, exclude, boxes).commands; cmds != [] ==> cmds[0].Select?
    decreases |boxes|
  {
    if boxes != [] {
      var p := ReadMailbox(d, root, exclude, boxes[0]);
      assert FetchAfterSelect(p.commands);
      assert FetchMatchesCount(p.commands, boxes) by {
        forall c | c in p.commands && c.Fetch?
          ensures exists m :: m in boxes && m.name == c.mailbox && m.reply.Selected? && m.reply.messages == c.last
        {
          assert boxes[0] in boxes;
        }
      }
      if !p.fatal {
        var q := Walk(p.disk, root, exclude, boxes[1..]);
        FetchIsWholeMailbox(p.disk, root, exclude, boxes[1..]);
        FetchAfterSelectConcat(p.commands, q.commands);
        forall c | c in q.commands && c.Fetch?
          ensures exists m :: m in boxes && m.name == c.mailbox && m.reply.Selected? && m.reply.messages == c.last
        {
          var m :| m in boxes[1..] && m.name == c.mailbox && m.reply.Selected? && m.reply.messages == c.last;
          assert m in boxes;
        }
      }
    }
  }

  /** A walk that does not die selects every mailbox that is not excluded, and
      fetches exactly 1 to its message count from each such mailbox that is not
      empty. */
  lemma {:induction false} EveryMailboxVisited(d: Disk, root: string, exclude: seq<string>, boxes: seq<Mailbox>)
    requires !Walk(d, root, exclude, boxes).fatal
    ensures var cmds := Walk(d, root, exclude, boxes).commands;
      forall i :: 0 <= i < |boxes| && !Excluded(boxes[i].name, exclude) ==>
        && boxes[i].reply.Selected?
        && Select(boxes[i].name) in cmds
        && (boxes[i].reply.messages > 0 ==> Fetch(boxes[i].name, 1, boxes[i].reply.messages) in cmds)
    decreases |boxes|
  {
    if boxes != [] {
      var p := ReadMailbox(d, root, exclude, boxes[0]);
      EveryMailboxVisited(p.disk, root, exclude, boxes[1..]);
      var q := Walk(p.disk, root, exclude, boxes[1..]);
      forall i | 1 <= i < |boxes| && !Excluded(boxes[i].name, exclude)
        ensures boxes[i].reply.Selected?
        ensures Select(boxes[i].name) in p.commands + q.commands
        ensures boxes[i].reply.messages > 0 ==> Fetch(boxes[i].name, 1, boxes[i].reply.messages) in p.commands + q.commands
      {
        assert boxes[i] == boxes[1..][i - 1];
      }
    }
  }

  /** A mailbox that ends the run ends it there: the walk over all mailboxes is the
      walk over those up to and including it, and it is fatal. */
  lemma {:induction false} FatalStopsWalk(d: Disk, root: string, exclude: seq<string>, boxes: seq<Mailbox>, k: nat)
    requires k < |boxes| && FatalReply(boxes[k], exclude)
    ensures Walk(d, root, exclude, boxes) == Walk(d, root, exclude, boxes[..k + 1])
    ensures Walk(d, root, exclude, boxes).fatal
    decreases k
  {
    var p := ReadMailbox(d, root, exclude, boxes[0]);
    ReadMailboxFatal(d, root, exclude, boxes[0]);
    assert boxes[..k + 1][0] == boxes[0];
    if k > 0 && !p.fatal {
      FatalStopsWalk(p.disk, root, exclude, boxes[1..], k - 1);
      assert boxes[..k + 1][1..] == boxes[1..][..k];
    }
  }

  lemma {:induction false} SaveAllAppend(d: Disk, root: string, a: seq<RawMessage>, b: seq<RawMessage>)
    ensures SaveAll(d, root, a + b) == SaveAll(SaveAll(d, root, a), root, b)
    decreases |a|
  {
    if a != [] {
      assert (a + b)[1..] == a[1..] + b;
      SaveAllAppend(SaveMessage(d, root, a[0]), root, a[1..], b);
    } else {
      assert a + b == b;
    }
  }

  /** The commands a walk sends and whether it dies do not depend on the disk, and
      its effect on the disk is that of saving the processed messages in order. */
  lemma {:induction false} WalkSavesProcessed(d: Disk, e: Disk, root: string, exclude: seq<string>, boxes: seq<Mailbox>)
    ensures Walk(d, root, exclude, boxes).disk == SaveAll(d, root, Processed(exclude, boxes))
    ensures Walk(d, root, exclude, boxes).commands == Walk(e, root, exclude, boxes).commands
    ensures Walk(d, root, exclude, boxes).fatal == Walk(e, root, exclude, boxes).fatal
    decreases |boxes|
  {
    if boxes != [] {
      var m := boxes[0];
      var p := ReadMailbox(d, root, exclude, m);
      var p' := ReadMailbox(e, root, exclude, m);
      ReadMailboxFatal(d, root, exclude, m);
      ReadMailboxFatal(e, root, exclude, m);
      var here := if !Excluded(m.name, exclude) && m.reply.Selected? && m.reply.messages > 0
        then m.reply.delivered else [];
      assert p.disk == SaveAll(d, root, here);
      assert p.commands == p'.commands;
      if !p.fatal {
        WalkSavesProcessed(p.disk, p'.disk, root, exclude, boxes[1..]);
        SaveAllAppend(d, root, here, Processed(exclude, boxes[1..]));
      }
    }
  }

  /** A message that leaves a directory behind when processed: it has a
      destination and reaches an attachment that gets past `MkdirAll`. */
  predicate LeavesDirectory(root: string, m: RawMessage)
  {
    m.Mail? && DestinationOf(root, m).Some?
      && exists k :: 0 <= k < |m.parts| && Reached(m.parts, k)
           && m.parts[k].Attachment? && m.parts[k].fault != MkdirFails
  }

  /** Whether a message changes the disk does not depend on the disk: one that does
      not leave a directory behind changes nothing... */
  lemma SaveMessageUnchanged(d: Disk, root: string, m: RawMessage)
    requires !LeavesDirectory(root, m)
    ensures SaveMessage(d, root, m) == d
  {
    var dest := DestinationOf(root, m);
    if dest.Some? && !Exists(d, dest.value) {
      DirectoryCreatedIff(d, dest.value, m.parts);
      NoDirectoryNoChange(d, dest.value, m.parts);
    }
  }

  /** ... and one that does leaves its destination existing. */
  lemma SaveMessageMarks(d: Disk, root: string, m: RawMessage)
    requires LeavesDirectory(root, m)
    ensures Exists(SaveMessage(d, root, m), DestinationOf(root, m).value)
  {
    var dest := DestinationOf(root, m);
    if !Exists(d, dest.value) {
      DirectoryCreatedIff(d, dest.value, m.parts);
    }
  }

  /** A message whose directory another message has already left behind is skipped
      whole as already processed. */
  lemma SharedDirectorySkipped(d: Disk, root: string, m: RawMessage, n: RawMessage)
    requires LeavesDirectory(root, m)
    requires DestinationOf(root, n) == DestinationOf(root, m)
    ensures SaveMessage(SaveMessage(d, root, m), root, n) == SaveMessage(d, root, m)
  {
    SaveMessageMarks(d, root, m);
  }

  /** The cost of the 12-hour timestamp: a message from the same sender dated
      exactly twelve hours after one that left its directory behind is skipped,
      and none of its attachments is saved. */
  lemma TwelveHoursLaterSkipped(d: Disk, root: string, m: RawMessage, n: RawMessage)
    requires LeavesDirectory(root, m) && m.date.value.hour < 12
    requires n.Mail? && n.from.Some? && |n.from.value| >= 1 && n.from.value[0] == m.from.value[0]
    requires n.date == Some(m.date.value.(hour := m.date.value.hour + 12))
    ensures SaveMessage(SaveMessage(d, root, m), root, n) == SaveMessage(d, root, m)
  {
    TwelveHoursApart(root, m.from.value[0], m.date.value);
    SharedDirectorySkipped(d, root, m, n);
  }

  /** Saving a message removes no directory and no file. */
  lemma SaveMessageGrows(d: Disk, root: string, m: RawMessage)
    ensures d.dirs <= SaveMessage(d, root, m).dirs && d.files.Keys <= SaveMessage(d, root, m).files.Keys
  {
    var dest := DestinationOf(root, m);
    if dest.Some? && !Exists(d, dest.value) {
      OnlyTargetsWritten(d, dest.value, m.parts);
    }
  }

  lemma {:induction false} SaveAllGrows(d: Disk, root: string, messages: seq<RawMessage>)
    ensures d.dirs <= SaveAll(d, root, messages).dirs
    ensures d.files.Keys <= SaveAll(d, root, messages).files.Keys
    decreases |messages|
  {
    if messages != [] {
      SaveMessageGrows(d, root, messages[0]);
      SaveAllGrows(SaveMessage(d, root, messages[0]), root, messages[1..]);
    }
  }

  /** After saving a sequence, every message of it that leaves a directory behind
      has its destination existing. */
  lemma {:induction false} SaveAllMarks(d: Disk, root: string, messages: seq<RawMessage>)
    ensures forall k :: 0 <= k < |messages| && LeavesDirectory(root, messages[k]) ==>
      Exists(SaveAll(d, root, messages), DestinationOf(root, messages[k]).value)
    decreases |messages|
  {
    if messages != [] {
      var next := SaveMessage(d, root, messages[0]);
      var final := SaveAll(next, root, messages[1..]);
      assert SaveAll(d, root, messages) == final;
      SaveAllMarks(next, root, messages[1..]);
      SaveAllGrows(next, root, messages[1..]);
      if LeavesDirectory(root, messages[0]) {
        SaveMessageMarks(d, root, messages[0]);
        ExistsKept(next, final, DestinationOf(root, messages[0]).value);
      }
      forall k | 1 <= k < |messages| && LeavesDirectory(root, messages[k])
        ensures Exists(final, DestinationOf(root, messages[k]).value)
      {
        assert messages[k] == messages[1..][k - 1];
      }
    }
  }

  lemma ExistsKept(a: Disk, b: Disk, p: string)
    requires a.dirs <= b.dirs && a.files.Keys <= b.files.Keys
    ensures Exists(a, p) ==> Exists(b, p)
  {
    if p in a.files {
      assert p in a.files.Keys;
    }
  }


  /** A disk on which every message that would leave a directory already finds its
      destination is a fixed point of saving the messages. */
  lemma {:induction false} SaveAllSkipsMarked(d: Disk, root: string, messages: seq<RawMessage>)
    requires forall k :: 0 <= k < |messages| && LeavesDirectory(root, messages[k]) ==>
      Exists(d, DestinationOf(root, messages[k]).value)
    ensures SaveAll(d, root, messages) == d
    decreases |messages|
  {
    if messages != [] {
      if !LeavesDirectory(root, messages[0]) {
        SaveMessageUnchanged(d, root, messages[0]);
      }
      forall k | 0 <= k < |messages[1..]| && LeavesDirectory(root, messages[1..][k])
        ensures Exists(d, DestinationOf(root, messages[1..][k]).value)
      {
        assert messages[1..][k] == messages[k + 1];
      }
      SaveAllSkipsMarked(d, root, messages[1..]);
    }
  }

  /** Saving the same messages again writes nothing. */
  lemma RerunWritesNothing(d: Disk, root: string, messages: seq<RawMessage>)
    ensures SaveAll(SaveAll(d, root, messages), root, messages) == SaveAll(d, root, messages)
  {
    SaveAllMarks(d, root, messages);
    SaveAllSkipsMarked(SaveAll(d, root, messages), root, messages);
  }

  /** A second walk over the same mailboxes sends the same commands, dies at the
      same point, and leaves the disk exactly as the first walk left it. */
  lemma WalkTwice(d: Disk, root: string, exclude: seq<string>, boxes: seq<Mailbox>)
    ensures var first := Walk(d, root, exclude, boxes);
      Walk(first.disk, root, exclude, boxes) == first
  {
    var first := Walk(d, root, exclude, boxes);
    WalkSavesProcessed(d, first.disk, root, exclude, boxes);
    WalkSavesProcessed(first.disk, d, root, exclude, boxes);
    RerunWritesNothing(d, root, Processed(exclude, boxes));
  }
}
