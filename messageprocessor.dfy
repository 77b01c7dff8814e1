/** What `saveAttachments` (main.go lines 109-211) does to the disk for one fetched
    message, as functions over the `Disk` value. The imperative version in module
    Attache is proved to agree with `SaveMessage`. */
module MessageProcessor {

  import opened Wrappers
  import opened Strings
  import opened TimeFormat
  import opened Filesystem
  import opened DestinationResolver

  /** Which step, if any, of saving an attachment fails. */
  datatype Fault = NoFault | MkdirFails | CreateFails | CopyFails(after: nat)

  /** One result of the mail reader's `NextPart`. */
  datatype PartEvent =
    | Inline
    | Attachment(filename: string, body: seq<byte>, fault: Fault)
    | Eof
    | Err(unknownCharset: bool)
  {
    /** The part loop ends here: end of message or a read error. */
    predicate Stops()
    {
      Eof? || Err?
    }

    /** An attachment whose `MkdirAll` and `os.Create` succeed, so that it writes
        its target file. */
    predicate Writes()
    {
      Attachment? && fault != MkdirFails && fault != CreateFails
    }
  }

  /** A fetched message, as far as the program looks into it: no body section, a
      body the mail reader cannot open, or a readable mail with its `From` list
      (None when it does not parse), its `Date` (None when missing or unparseable)
      and the results of successive `NextPart` calls. Calls beyond the end of
      `parts` return end-of-message. */
  datatype RawMessage =
    | NoBody
    | Unreadable
    | Mail(from: Option<seq<string>>, date: Option<Time>, parts: seq<PartEvent>)

  /** The file name an attachment is saved under: a name that is empty or all
      spaces becomes "unknown"; any other name, tabs or surrounding spaces
      included, is used unchanged. */
  function NormalizeFilename(name: string): (r: string)
    ensures r == if AllSpaces(name) then "unknown" else name
  {
    if TrimSpaces(name) == "" then "unknown" else name
  }

  /** The path an attachment with this declared name is written to. */
  function Target(dir: string, filename: string): string
  {
    dir + "/" + NormalizeFilename(filename)
  }

  /** An attachment's file lies under `dir` with a non-empty name, and directly
      under it when the declared name holds no slash. */
  lemma TargetUnderDir(dir: string, filename: string)
    ensures var r := Target(dir, filename); |r| > |dir| + 1 && r[..|dir| + 1] == dir + "/"
    ensures '/' !in filename ==> '/' !in Target(dir, filename)[|dir| + 1..]
  {
    var name := NormalizeFilename(filename);
    var r := Target(dir, filename);
    assert r[..|dir| + 1] == dir + "/";
    assert r[|dir| + 1..] == name;
    if AllSpaces(filename) {
      assert name == "unknown";
    } else {
      assert name == filename && filename != [];
    }
  }

  function CopyFault(fault: Fault): Option<nat>
  {
    if fault.CopyFails? then Some(fault.after) else None
  }

  /** One attachment: `MkdirAll(dir)`, then create or truncate `dir/name`, then copy
      the body into it. A failed step ends the attachment; a failed copy leaves what
      it already wrote. */
  function SaveAttachment(d: Disk, dir: string, filename: string, body: seq<byte>, fault: Fault): (r: Disk)
    ensures fault == MkdirFails ==> r == d
    ensures fault != MkdirFails ==> r.dirs == MakeDirs(d, dir).dirs
    ensures fault == CreateFails ==> r.files == d.files
    ensures d.files.Keys <= r.files.Keys <= d.files.Keys + {Target(dir, filename)}
    ensures forall q :: q in d.files && q != Target(dir, filename) ==> q in r.files && r.files[q] == d.files[q]
    ensures fault == NoFault ==> Target(dir, filename) in r.files && r.files[Target(dir, filename)] == body
    ensures fault.CopyFails? ==>
      (Target(dir, filename) in r.files && r.files[Target(dir, filename)] == body[..Copied(|body|, Some(fault.after))])
  {
    if fault == MkdirFails then d
    else
      var made := MakeDirs(d, dir);
      if fault == CreateFails then made
      else
        var path := Target(dir, filename);
        var created := CreateFile(made, path);
        AppendFile(created, path, body[..Copied(|body|, CopyFault(fault))])
  }

  /** The part loop: inline parts are skipped, each attachment is saved, and the
      first end-of-message or error ends the message. */
  function ProcessParts(d: Disk, dir: string, parts: seq<PartEvent>): Disk
    decreases |parts|
  {
    if parts == [] then d
    else
      match parts[0]
      case Eof => d
      case Err(_) => d
      case Inline => ProcessParts(d, dir, parts[1..])
      case Attachment(name, body, fault) =>
        ProcessParts(SaveAttachment(d, dir, name, body, fault), dir, parts[1..])
  }

  /** The directory of a message, when it can be computed: the message has a body
      the reader opens, a parseable non-empty `From` list and a parseable date. */
  function DestinationOf(root: string, m: RawMessage): (r: Option<string>)
    ensures r.Some? <==> m.Mail? && m.from.Some? && |m.from.value| >= 1 && m.date.Some?
  {
    match m
    case NoBody => None
    case Unreadable => None
    case Mail(from, date, _) =>
      if from.None? || |from.value| < 1 || date.None? then None
      else Some(Destination(root, from.value[0], date.value))
  }

  /** `saveAttachments`: a message whose destination cannot be computed, or whose
      destination already exists, leaves the disk alone; otherwise its parts are
      processed. A message changes the disk only when its destination is known
      and did not exist beforehand. */
  function SaveMessage(d: Disk, root: string, m: RawMessage): (r: Disk)
    ensures r != d ==> DestinationOf(root, m).Some? && !Exists(d, DestinationOf(root, m).value)
  {
    match DestinationOf(root, m)
    case None => d
    case Some(dir) => if Exists(d, dir) then d else ProcessParts(d, dir, m.parts)
  }

  /** No part before position `k` ends the loop. */
  predicate Reached(parts: seq<PartEvent>, k: int)
  {
    forall j :: 0 <= j < k && j < |parts| ==> !parts[j].Stops()
  }

  /** Every path an attachment among `parts` that gets past `MkdirAll` and
      `os.Create` could write. */
  function Targets(dir: string, parts: seq<PartEvent>): set<string>
  {
    set k | 0 <= k < |parts| && parts[k].Writes() :: Target(dir, parts[k].filename)
  }

  lemma TargetsOfTail(dir: string, parts: seq<PartEvent>)
    requires parts != []
    ensures Targets(dir, parts[1..]) <= Targets(dir, parts)
    ensures parts[0].Writes() ==> Target(dir, parts[0].filename) in Targets(dir, parts)
  {
    forall q | q in Targets(dir, parts[1..])
      ensures q in Targets(dir, parts)
    {
      var k :| 0 <= k < |parts[1..]| && parts[1..][k].Writes() && q == Target(dir, parts[1..][k].filename);
      assert parts[k + 1] == parts[1..][k];
    }
    if parts[0].Writes() {
      assert Target(dir, parts[0].filename) in Targets(dir, parts) by {
        assert 0 < |parts| && parts[0].Writes();
      }
    }
  }

  /** How `ProcessParts` takes its first step past a part that does not stop it. */
  lemma ProcessFirst(d: Disk, dir: string, parts: seq<PartEvent>)
    requires parts != [] && !parts[0].Stops()
    ensures ProcessParts(d, dir, parts) == ProcessParts(Step(d, dir, parts[0]), dir, parts[1..])
  {
  }

  /** The loop from part `i` on: a stopping part ends it, any other is one step. */
  lemma ProcessAt(d: Disk, dir: string, parts: seq<PartEvent>, i: nat)
    requires i < |parts|
    ensures ProcessParts(d, dir, parts[i..]) ==
      if parts[i].Stops() then d else ProcessParts(Step(d, dir, parts[i]), dir, parts[i + 1..])
  {
    assert parts[i..][0] == parts[i];
    assert parts[i..][1..] == parts[i + 1..];
  }

  /** The disk after one part that does not stop the loop. */
  function Step(d: Disk, dir: string, part: PartEvent): Disk
  {
    if part.Attachment? then SaveAttachment(d, dir, part.filename, part.body, part.fault) else d
  }

  lemma ReachedShift(parts: seq<PartEvent>, k: nat)
    requires parts != []
    ensures Reached(parts, k + 1) <==> !parts[0].Stops() && Reached(parts[1..], k)
  {
    if !parts[0].Stops() && Reached(parts[1..], k) {
      forall j | 0 <= j < k + 1 && j < |parts|
        ensures !parts[j].Stops()
      {
        if j > 0 {
          assert parts[j] == parts[1..][j - 1];
        }
      }
    }
    if Reached(parts, k + 1) {
      forall j | 0 <= j < k && j < |parts[1..]|
        ensures !parts[1..][j].Stops()
      {
        assert parts[1..][j] == parts[j + 1];
      }
    }
  }

  /** End-of-message and any error stop the loop for good: what comes after the
      first stopping event is never read. */
  lemma {:induction false} StopsAtFirstStop(d: Disk, dir: string, parts: seq<PartEvent>, k: nat)
    requires k < |parts| && parts[k].Stops()
    ensures ProcessParts(d, dir, parts) == ProcessParts(d, dir, parts[..k])
    decreases k
  {
    if k > 0 && !parts[0].Stops() {
      ProcessFirst(d, dir, parts);
      ProcessFirst(d, dir, parts[..k]);
      StopsAtFirstStop(Step(d, dir, parts[0]), dir, parts[1..], k - 1);
      assert parts[..k][1..] == parts[1..][..k - 1];
    }
  }

  /** A part whose character set the reader does not know abandons the rest of the
      message like any other error. */
  lemma UnknownCharsetAbandonsMessage(d: Disk, dir: string, before: seq<PartEvent>, after: seq<PartEvent>)
    ensures ProcessParts(d, dir, before + [Err(true)] + after) == ProcessParts(d, dir, before)
  {
    var parts := before + [Err(true)] + after;
    StopsAtFirstStop(d, dir, parts, |before|);
    assert parts[..|before|] == before;
  }

  /** A message without attachments leaves the disk unchanged. */
  lemma {:induction false} NoAttachmentsNoChange(d: Disk, dir: string, parts: seq<PartEvent>)
    requires forall k :: 0 <= k < |parts| ==> !parts[k].Attachment?
    ensures ProcessParts(d, dir, parts) == d
    decreases |parts|
  {
    if parts != [] && parts[0].Inline? {
      NoAttachmentsNoChange(d, dir, parts[1..]);
    }
  }

  /** The part loop creates directories only along `dir`, writes only files that
      are targets of its attachments that get past `os.Create`, and leaves every
      other file as it was. */
  lemma {:induction false} OnlyTargetsWritten(d: Disk, dir: string, parts: seq<PartEvent>)
    ensures var r := ProcessParts(d, dir, parts);
      && d.dirs <= r.dirs && r.dirs <= d.dirs + Ancestors(dir) + {dir}
      && d.files.Keys <= r.files.Keys <= d.files.Keys + Targets(dir, parts)
      && forall q :: q in d.files && q !in Targets(dir, parts) ==> q in r.files && r.files[q] == d.files[q]
    decreases |parts|
  {
    if parts != [] && !parts[0].Stops() {
      var next := Step(d, dir, parts[0]);
      StepWrites(d, dir, parts[0]);
      TargetsOfTail(dir, parts);
      ProcessFirst(d, dir, parts);
      OnlyTargetsWritten(next, dir, parts[1..]);
    }
  }

  /** One step of the loop adds at most the destination and its ancestors as
      directories and writes at most the target of a part that gets past
      `os.Create`. */
  lemma StepWrites(d: Disk, dir: string, part: PartEvent)
    ensures var next := Step(d, dir, part);
      && d.dirs <= next.dirs && next.dirs <= d.dirs + Ancestors(dir) + {dir}
      && d.files.Keys <= next.files.Keys
      && (part.Writes() ==> next.files.Keys <= d.files.Keys + {Target(dir, part.filename)})
      && (!part.Writes() ==> next.files == d.files)
      && forall q :: q in d.files && !(part.Writes() && q == Target(dir, part.filename)) ==>
           q in next.files && next.files[q] == d.files[q]
  {
  }

  /** The destination directory exists after the loop exactly when it existed
      before or some attachment reached by the loop got past `MkdirAll`. */
  lemma {:induction false} DirectoryCreatedIff(d: Disk, dir: string, parts: seq<PartEvent>)
    ensures dir in ProcessParts(d, dir, parts).dirs <==>
      dir in d.dirs
      || exists k :: 0 <= k < |parts| && Reached(parts, k) && parts[k].Attachment? && parts[k].fault != MkdirFails
    decreases |parts|
  {
    if parts != [] && !parts[0].Stops() {
      var tail := parts[1..];
      var next := Step(d, dir, parts[0]);
      ProcessFirst(d, dir, parts);
      DirectoryCreatedIff(next, dir, tail);
      assert dir in next.dirs <==> dir in d.dirs || (parts[0].Attachment? && parts[0].fault != MkdirFails);
      if exists k :: 0 <= k < |tail| && Reached(tail, k) && tail[k].Attachment? && tail[k].fault != MkdirFails {
        var k :| 0 <= k < |tail| && Reached(tail, k) && tail[k].Attachment? && tail[k].fault != MkdirFails;
        assert parts[k + 1] == tail[k];
        ReachedShift(parts, k);
      }
      if exists k :: 0 <= k < |parts| && Reached(parts, k) && parts[k].Attachment? && parts[k].fault != MkdirFails {
        var k :| 0 <= k < |parts| && Reached(parts, k) && parts[k].Attachment? && parts[k].fault != MkdirFails;
        if k > 0 {
          assert tail[k - 1] == parts[k];
          ReachedShift(parts, k - 1);
        }
      }
    } else if parts != [] {
      forall k | 0 < k < |parts|
        ensures !Reached(parts, k)
      {
        assert parts[0].Stops();
      }
    }
  }

  /** If the loop leaves no destination directory behind, it changed nothing at
      all: every write is preceded by a successful `MkdirAll`. */
  lemma {:induction false} NoDirectoryNoChange(d: Disk, dir: string, parts: seq<PartEvent>)
    requires dir !in ProcessParts(d, dir, parts).dirs
    ensures ProcessParts(d, dir, parts) == d
    decreases |parts|
  {
    if parts != [] && !parts[0].Stops() {
      var next := Step(d, dir, parts[0]);
      ProcessFirst(d, dir, parts);
      OnlyTargetsWritten(next, dir, parts[1..]);
      NoDirectoryNoChange(next, dir, parts[1..]);
    }
  }

  /** A saved attachment's file holds exactly its body, provided no later
      attachment that gets past `os.Create` has the same target. */
  lemma {:induction false} LastAttachmentWins(d: Disk, dir: string, parts: seq<PartEvent>, k: nat)
    requires k < |parts| && Reached(parts, k)
    requires parts[k].Attachment? && parts[k].fault == NoFault
    requires forall j :: k < j < |parts| && parts[j].Writes() ==>
      Target(dir, parts[j].filename) != Target(dir, parts[k].filename)
    ensures var r := ProcessParts(d, dir, parts);
      Target(dir, parts[k].filename) in r.files && r.files[Target(dir, parts[k].filename)] == parts[k].body
    decreases k
  {
    if k == 0 {
      SavedThenKept(d, dir, parts);
    } else {
      var tail := parts[1..];
      ReachedShift(parts, k - 1);
      ProcessFirst(d, dir, parts);
      assert tail[k - 1] == parts[k];
      forall j | k - 1 < j < |tail| && tail[j].Writes()
        ensures Target(dir, tail[j].filename) != Target(dir, parts[k].filename)
      {
        assert tail[j] == parts[j + 1];
      }
      LastAttachmentWins(Step(d, dir, parts[0]), dir, tail, k - 1);
    }
  }

  /** The first part, a fault-free attachment, survives the rest of the loop when
      no later attachment that gets past `os.Create` has its target. */
  lemma SavedThenKept(d: Disk, dir: string, parts: seq<PartEvent>)
    requires parts != [] && parts[0].Attachment? && parts[0].fault == NoFault
    requires forall j :: 0 < j < |parts| && parts[j].Writes() ==>
      Target(dir, parts[j].filename) != Target(dir, parts[0].filename)
    ensures var r := ProcessParts(d, dir, parts);
      Target(dir, parts[0].filename) in r.files && r.files[Target(dir, parts[0].filename)] == parts[0].body
  {
    var next := Step(d, dir, parts[0]);
    var tail := parts[1..];
    var p := Target(dir, parts[0].filename);
    ProcessFirst(d, dir, parts);
    assert p in next.files && next.files[p] == parts[0].body;
    forall j | 0 <= j < |tail| && tail[j].Writes()
      ensures Target(dir, tail[j].filename) != p
    {
      assert tail[j] == parts[j + 1];
    }
    KeptUntilRewritten(next, dir, tail, p);
  }

  /** A file that no attachment getting past `os.Create` targets keeps its
      contents. */
  lemma KeptUntilRewritten(d: Disk, dir: string, parts: seq<PartEvent>, p: string)
    requires p in d.files
    requires forall j :: 0 <= j < |parts| && parts[j].Writes() ==> Target(dir, parts[j].filename) != p
    ensures p in ProcessParts(d, dir, parts).files && ProcessParts(d, dir, parts).files[p] == d.files[p]
  {
    OnlyTargetsWritten(d, dir, parts);
  }

  /** Processing a message twice changes nothing the second time: either the first
      run created the destination, which now short-circuits, or it changed nothing
      and the second run repeats it. */
  lemma SaveMessageIdempotent(d: Disk, root: string, m: RawMessage)
    ensures SaveMessage(SaveMessage(d, root, m), root, m) == SaveMessage(d, root, m)
  {
    var dest := DestinationOf(root, m);
    if dest.Some? && !Exists(d, dest.value) {
      var r := ProcessParts(d, dest.value, m.parts);
      if !Exists(r, dest.value) {
        NoDirectoryNoChange(d, dest.value, m.parts);
      }
    }
  }

  /** A message without a computable destination, or whose destination already
      exists, is skipped whole. */
  lemma SkippedMessageChangesNothing(d: Disk, root: string, m: RawMessage)
    requires DestinationOf(root, m).None? || Exists(d, DestinationOf(root, m).value)
    ensures SaveMessage(d, root, m) == d
  {
  }
}
