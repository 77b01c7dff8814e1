# attache, modelled in Dafny

attache is a small command-line tool. It logs in to an IMAP server, walks every
mailbox the server lists, and skips the mailboxes named in an exclude list. From
each message it copies the MIME attachments to `path/<sender address>/<date>/<file name>`
on the local disk. The date directory is also the "already processed" mark: a
message whose directory exists is skipped whole.

This project models the program's core, the single file `main.go`, and proves
properties of that model.

- **`Configuration`** — `parseArguments` as functions:
  - a non-empty flag wins over its `ATTACHE_*` environment variable;
  - `-exclude` is split on commas, with no trimming;
  - `main` requires a username, a password and a server.
- **`TimeFormat`, `DestinationResolver`** — the destination directory, with the
  date written in the Go layout `2006-01-02T03-04-05`. That layout uses a
  12-hour clock.
- **`Filesystem`** — the disk as a value (a set of directories and a map from
  path to bytes) and a `FileSystem` class with `Stat`, `MkdirAll`, `Create` and
  `Copy`. Whether a call fails is a flag chosen by the caller.
- **`MessageProcessor`** — `saveAttachments` as functions:
  - the message-level checks and the "directory exists" skip;
  - the part loop: end-of-message stops it; any other error abandons the message;
    inline parts do nothing; each attachment runs `MkdirAll`, `Create` and `Copy`,
    and a failed step skips only that attachment.
- **`FolderWalker`** — `readAttachments` and the mailbox loop of `main` as
  functions: the exclude filter, SELECT, the empty-mailbox skip, FETCH 1..n, and
  `log.Fatal` ending the run.
- **`Session`** — all of `main`: `os.Exit(-1)` for missing arguments, status 1
  from `log.Fatal`, and 0 with LOGOUT otherwise.
- **`Attache`** — the program in its own imperative form:
  - a `Context` class whose fields `ParseArguments` updates;
  - the loops over mailboxes, messages and parts, writing through a `FileSystem`;
  - each method is proved equal to the function above that specifies it.

The IMAP server is an input. A `Session.Server` value says:
- whether dial and LOGIN fail;
- which mailboxes LIST reports;
- for each mailbox, what SELECT answers, which messages FETCH delivers, and
  whether the FETCH or LIST stream ends in an error.

A message is given as its parse results: a `From` list, a date, and a sequence of
part events (inline, attachment, end of message, error).

Sharp edges of the code that the model keeps:

- Every error from `NextPart` other than end-of-message abandons the rest of the
  message, a charset-decoding error included (main.go:167-177). The test for
  `message.UnknownCharsetError` only decides what is logged before the `return`.
  `MessageProcessor.UnknownCharsetAbandonsMessage` states this.
- The layout element `03` (main.go:153) is the hour on a 12-hour clock, with no
  AM/PM marker. Messages from the same sender twelve hours apart therefore share
  one directory (`DestinationResolver.DestinationCollision`,
  `DestinationResolver.TwelveHoursApart`). Once the first of them met has left
  that directory behind, which takes one attachment getting past `MkdirAll`, the
  second is skipped whole (`FolderWalker.TwelveHoursLaterSkipped`).
- The error from `filepath.Abs` (main.go:154) is overwritten by the `os.Stat`
  call on the next line without being checked.
- Two logging lines of the part loop misuse Go. main.go:165 applies
  `err.(type)` outside a type switch, which the Go compiler does not accept.
  main.go:168 hands the `%w` verb to `log.Printf`; that compiles, but only
  `fmt.Errorf` understands `%w`, so the line logs `%!w(...)` and `go vet` flags
  it. Both lines only log, so the model follows the loop's evident intent:
  end-of-message ends the loop, and any other error abandons the message.

## Model

| member | source | states |
|---|---|---|
| Strings.Split | main.go:247 | `strings.Split` on a one-character separator: at least one piece, no piece holds the separator, and joining the pieces with it gives the input back |
| Strings.SplitJoin | main.go:247 | splitting a comma-joined list of comma-free entries gives exactly those entries back |
| Strings.TrimSpaces | main.go:188 | `strings.Trim(s, " ")` is empty exactly when `s` is all spaces, and otherwise neither starts nor ends with a space |
| Strings.TrimLeft | main.go:188 | the input with its leading spaces removed: a suffix of it, all spaces before it, and it does not start with a space |
| Strings.TrimRight | main.go:188 | the input with its trailing spaces removed: a prefix of it, all spaces after it, and it does not end with a space |
| Strings.TrimmedEmptyIffSpaces | main.go:188 | trimming both ends leaves nothing exactly when the name is all spaces |
| Strings.TrimmedEndsAreNotSpaces | main.go:188 | what trimming both ends leaves neither starts nor ends with a space |
| TimeFormat.Decimal | main.go:153 | the decimal digits of a number: at least one digit, no leading zero, one digit below 10, at most two below 100 |
| TimeFormat.ValueOfDecimal | main.go:153 | the decimal text of `n` reads back as `n` |
| TimeFormat.Pad | main.go:153 | a number zero-padded to a width: digits only, reading back as the number, as long as the width or the number's own length |
| TimeFormat.Hour12 | main.go:153 | the `03` layout element: an hour from 1 to 12 with the same remainder modulo 12 as the 24-hour hour |
| TimeFormat.ClockTextLength | main.go:153 | month, day, hour, minute and second always take 15 characters (`-MM-DDThh-mm-ss`) |
| TimeFormat.ClockTextInjective | main.go:153 | equal clock texts mean equal month, day, minute, second and equal hour modulo 12 |
| TimeFormat.YearTextInjective | main.go:153 | equal year texts mean equal years |
| TimeFormat.FormatCollidesExactlyOnSameReading | main.go:153 | two valid dates format the same exactly when they read the same on a 12-hour clock face |
| TimeFormat.NoSlash | main.go:153 | a formatted date holds no `/`, so it is one path element |
| TimeFormat.YearText | main.go:153 | the `2006` element; `YearTextInjective` proves that distinct years give distinct texts |
| TimeFormat.ClockText | main.go:153 | the `-01-02T03-04-05` elements; `ClockTextLength` and `ClockTextInjective` prove that they always take 15 characters and tell dates apart up to the hour modulo 12 |
| TimeFormat.Format | main.go:153 | `date.Format("2006-01-02T03-04-05")`; `FormatCollidesExactlyOnSameReading` and `NoSlash` state its properties |
| DestinationResolver.Destination | main.go:153 | `path/address/date`; `DestinationCollision`, `TwelveHoursApart` and `ExampleDestination` state its properties |
| DestinationResolver.DestinationCollision | main.go:153 | two messages get the same directory exactly when they have the same sender address and their dates read the same on a 12-hour clock |
| DestinationResolver.TwelveHoursApart | main.go:153 | a date and the date twelve hours later give the same directory |
| DestinationResolver.ExampleDestination | main.go:153 | a message from a@example.com dated 2024-01-02 03:04:05 goes to `root/a@example.com/2024-01-02T03-04-05` |
| Filesystem.Exists | main.go:155-156 | `os.Stat` finds something, a file or a directory, at the path; `FileSystem.Stat` and `MessageProcessor.SkippedMessageChangesNothing` rely on it |
| Filesystem.Ancestors | main.go:192 | the ancestor directories `MkdirAll` creates are exactly the non-empty proper prefixes of the path that end just before a slash |
| Filesystem.MakeDirs | main.go:192 | after `MkdirAll` the directory and all its ancestors exist, no file changes, and nothing else is added |
| Filesystem.CreateFile | main.go:197 | after `os.Create` the file exists and is empty; every other file is unchanged |
| Filesystem.AppendFile | main.go:203 | the copied bytes are appended to the open file; nothing else changes |
| Filesystem.Copied | main.go:203-207 | `io.Copy` writes the whole body; a copy that fails after `n` bytes writes exactly the smaller of `n` and the body's length |
| Filesystem.FileSystem.Stat | main.go:155-156 | reports whether anything, file or directory, is at the path |
| Filesystem.FileSystem.MkdirAll | main.go:192-195 | succeeds unless it faults, and then the disk is `MakeDirs`; a fault changes nothing |
| Filesystem.FileSystem.Create | main.go:197-201 | succeeds unless it faults, and then the disk is `CreateFile`; a fault changes nothing |
| Filesystem.FileSystem.Copy | main.go:203-207 | writes exactly the `Copied` prefix of the body into the file and reports whether the copy finished |
| MessageProcessor.NormalizeFilename | main.go:188-190 | a name that is empty or all spaces becomes "unknown"; any other name is kept as given, spaces included |
| MessageProcessor.TargetUnderDir | main.go:188-197 | an attachment's file lies under the message's directory with a non-empty name, and directly under it when the declared name has no `/` |
| MessageProcessor.SaveAttachment | main.go:191-208 | a failed `MkdirAll` changes nothing. Otherwise the directory exists afterwards. A failed `os.Create` changes no file. Only the attachment's own file can change. Without a fault it holds the body; after a failed copy it holds the prefix copied |
| MessageProcessor.ProcessParts | main.go:161-210 | the part loop; `StopsAtFirstStop`, `OnlyTargetsWritten`, `DirectoryCreatedIff` and `LastAttachmentWins` state its properties |
| MessageProcessor.DestinationOf | main.go:109-153 | a message has a destination exactly when it has a body, with a parseable non-empty `From` list and a parseable date |
| MessageProcessor.SaveMessage | main.go:109-159 | a message changes the disk only when its destination is known and did not exist beforehand |
| MessageProcessor.StopsAtFirstStop | main.go:162-177 | the loop ignores every part after the first end-of-message or error |
| MessageProcessor.UnknownCharsetAbandonsMessage | main.go:167-177 | an unknown-charset error abandons the message: the parts after it have no effect |
| MessageProcessor.NoAttachmentsNoChange | main.go:179-183 | a message with no attachment parts writes nothing, not even its directory |
| MessageProcessor.OnlyTargetsWritten | main.go:184-208 | the loop only adds the destination and its ancestors as directories and only writes the target files of attachments that get past `os.Create`; other files keep their contents and none is removed |
| MessageProcessor.DirectoryCreatedIff | main.go:192-195 | the destination exists after the loop exactly when it existed before or some attachment reached by the loop got past `MkdirAll` |
| MessageProcessor.NoDirectoryNoChange | main.go:192-195 | a loop that leaves no destination directory writes nothing at all |
| MessageProcessor.LastAttachmentWins | main.go:197-207 | a fault-free attachment reached by the loop ends up with exactly its body on disk, unless a later attachment with the same target gets past `os.Create` |
| MessageProcessor.SavedThenKept | main.go:197-207 | an attachment saved first keeps its body through the rest of the loop when no later attachment that gets past `os.Create` shares its target |
| MessageProcessor.KeptUntilRewritten | main.go:197-207 | a file that no attachment getting past `os.Create` targets keeps its contents |
| MessageProcessor.SaveMessageIdempotent | main.go:153-159 | processing a message a second time, with the same filesystem faults, changes nothing; `FolderWalker.SharedDirectorySkipped` is the guarantee that holds whatever the faults |
| MessageProcessor.SkippedMessageChangesNothing | main.go:111-159 | a message without body, reader, sender or date, or whose directory exists, is skipped whole |
| Configuration.Parse | main.go:213-249 | the settings after `parseArguments`; `FlagWinsOverEnvironment` (each flag against its variable, both ways), `ExcludeListIsCommaSplit` and `ExcludeFromEnvironment` state its properties |
| Configuration.Merge | main.go:225-228 | a non-empty value is kept; an empty value takes the variable when it is set; a changed value is the variable's |
| Configuration.ExcludeList | main.go:246-248 | the list is empty exactly when the merged exclude string is |
| Configuration.MissingRequired | main.go:35 | the username, the password or the server is empty; `Session.MissingArgumentsExitEarly` states what follows |
| Configuration.FlagWinsOverEnvironment | main.go:225-248 | a non-empty flag value is kept, and a non-empty `-exclude` is split on commas; an empty username, password, server or path flag takes its `ATTACHE_*` variable when that is set; a setting differs from its flag only in that case |
| Configuration.ExcludeListIsCommaSplit | main.go:246-248 | the exclude list joined back with commas is the exclude string; no entry holds a comma |
| Configuration.NoTrimming | main.go:247 | "Spam, Trash" excludes "Spam" and " Trash", with its space |
| Configuration.DefaultExcludeIgnoresEnvironment | main.go:221-248 | with the default `-exclude` the list is Spam, Trash, Deleted Messages, whatever `ATTACHE_EXCLUDE` holds |
| Configuration.ExcludeFromEnvironment | main.go:242-248 | an empty `-exclude` takes the list from `ATTACHE_EXCLUDE` when it is set, and leaves it empty otherwise |
| FolderWalker.Excluded | main.go:72-76 | the mailbox name equals an exclude entry; `Attache.Context.CheckExcluded` computes it and `ExcludedNeverSelected` relies on it |
| FolderWalker.ReadMailbox | main.go:70-107 | `readAttachments` for one mailbox; `ReadMailboxFatal`, `ExcludedNeverSelected` and `FetchIsWholeMailbox` state its properties |
| FolderWalker.Walk | main.go:61-63 | the loop over the LIST stream; `EveryMailboxVisited`, `FatalStopsWalk`, `WalkSavesProcessed` and `WalkTwice` state its properties |
| FolderWalker.SaveAll | main.go:100-102 | the loop over the FETCH stream; `SaveAllGrows`, `SaveAllMarks`, `SaveAllSkipsMarked` and `RerunWritesNothing` state its properties |
| FolderWalker.Processed | main.go:100-102 | the messages a walk hands to `saveAttachments`, in order; `WalkSavesProcessed` relates them to the disk |
| FolderWalker.ReadMailboxFatal | main.go:78-106 | a mailbox ends the run exactly when it is not excluded and its SELECT fails or its non-empty FETCH stream ends in an error, whatever the disk holds |
| FolderWalker.ExcludedNeverSelected | main.go:72-76 | no SELECT or FETCH of the walk names an excluded mailbox, and no other command is sent by it |
| FolderWalker.FetchIsWholeMailbox | main.go:82-88 | every FETCH asks for 1 to the mailbox's message count, which is at least 1, and comes right after the SELECT of that mailbox |
| FolderWalker.EveryMailboxVisited | main.go:61-63 | a walk that does not die selects every mailbox that is not excluded, and fetches 1 to n from each one that is not empty |
| FolderWalker.FatalStopsWalk | main.go:78-81 | after a mailbox that ends the run, nothing more is sent or written and the run is fatal |
| FolderWalker.WalkSavesProcessed | main.go:100-102 | the commands and the fatal outcome do not depend on the disk; the disk is that of saving the delivered messages in order |
| FolderWalker.SaveMessageUnchanged | main.go:155-195 | a message whose loop would create no directory writes nothing, whatever the disk |
| FolderWalker.SaveMessageMarks | main.go:155-195 | a message whose loop gets an attachment past `MkdirAll` leaves its destination existing |
| FolderWalker.SharedDirectorySkipped | main.go:155-159 | a message whose directory an earlier message left behind is skipped whole |
| FolderWalker.TwelveHoursLaterSkipped | main.go:153-159 | a message from the same sender dated twelve hours after one that left its directory behind is skipped whole |
| FolderWalker.SaveMessageGrows | main.go:184-208 | saving a message removes no directory and no file |
| FolderWalker.SaveAllGrows | main.go:100-102 | saving a FETCH stream removes no directory and no file |
| FolderWalker.SaveAllMarks | main.go:100-102 | after a FETCH stream, every message of it that got an attachment past `MkdirAll` has its destination existing |
| FolderWalker.SaveAllSkipsMarked | main.go:155-159 | if every message that would create a directory already finds its destination, saving the stream writes nothing |
| FolderWalker.RerunWritesNothing | main.go:100-102 | saving the same messages a second time, with the same filesystem faults, writes nothing; `SharedDirectorySkipped` holds whatever the faults |
| FolderWalker.WalkTwice | main.go:61-63 | a second walk over the same mailboxes, with the same filesystem faults, sends the same commands, dies at the same point and leaves the disk as the first walk left it; `SharedDirectorySkipped` holds whatever the faults |
| Session.Run | main.go:33-68 | `main`; `MissingArgumentsExitEarly`, `ExitStatus`, `ExcludedFoldersUntouched` and `RunTwice` state its properties |
| Session.Connected | main.go:41-68 | a run past the argument check exits with 0 or 1 and first dials the configured server and port |
| Session.MissingArgumentsExitEarly | main.go:35-39 | `os.Exit(-1)` is called exactly when the username, password or server is missing after merging; then nothing is sent and nothing written; otherwise the first command dials the merged server and port |
| Session.ExitStatus | main.go:41-68 | the status passed to `os.Exit` is -1, 0 or 1. It is 0 exactly when the settings are complete and dial, LOGIN, every SELECT and FETCH, and LIST succeed. LOGOUT is sent exactly then, as the last command |
| Session.ExcludedFoldersUntouched | main.go:72-76 | in a whole run no excluded folder is selected or fetched |
| Session.RunTwice | main.go:33-68 | a second run with the same settings, server and filesystem faults on the disk the first left exits the same way, sends the same commands and writes nothing; `FolderWalker.SharedDirectorySkipped` holds whatever the faults |
| Attache.Context.constructor | main.go:18-20 | the global context starts with every field at its zero value |
| Attache.Context.ParseArguments | main.go:213-249 | the fields become the merged settings. The exclude list is replaced only when the merged exclude string is non-empty |
| Attache.MergeVariable | main.go:225-228 | the variable replaces the value only when the value is empty and the variable is set |
| Attache.Context.CheckExcluded | main.go:71-76 | true exactly when the mailbox name equals an exclude entry |
| Attache.Context.SaveAttachments | main.go:109-160 | the disk after the message is `SaveMessage` of the disk before |
| Attache.Context.SaveParts | main.go:161-210 | the disk after the part loop is `ProcessParts` of the disk before |
| Attache.Context.SavePart | main.go:184-208 | the disk after one attachment is `SaveAttachment` of the disk before |
| Attache.Context.ReadAttachments | main.go:70-107 | the commands, the fatal flag and the disk are those of `ReadMailbox` |
| Attache.ReadMailboxes | main.go:54-63 | the commands, the fatal flag and the disk are those of `Walk` |
| Attache.Serve | main.go:41-68 | the status passed to `os.Exit`, the commands and the disk are those of `Session.Connected` |
| Attache.Execute | main.go:33-68 | on a fresh context, the status passed to `os.Exit`, the commands and the disk are those of `Session.Run` |

## Left out

- The IMAP protocol, TLS and the go-imap client are not modelled. The server's answers are inputs. The `-tls` flag is parsed but the program never reads it, since it always dials with TLS; the model keeps the field and nothing reads it.
- Goroutines and channels are not modelled. The LIST and FETCH streams become sequences consumed in order, followed by their final error.
- MIME parsing is not modelled. A message is given as its parse results. An unreadable body, an unparseable `From` list and an unparseable date are the outcomes `Unreadable`, `from == None` and `date == None`. An attachment whose `Filename()` fails has the name "".
- Time zones are not modelled. A date is the wall-clock time the `Date` header gives.
- `filepath.Abs` is not modelled: the destination is used as built. In the source its error is overwritten without being checked.
- Filesystem.FileSystem.MkdirAll: a failed call is modelled as changing nothing, although `os.MkdirAll` may have created some of the parents before it failed. `MessageProcessor.SaveAttachment` with `MkdirFails` inherits this, because the model has no way to say which parents were made.
- What a parent process sees as the exit status is not modelled: the model records the argument of `os.Exit`, and a POSIX parent sees `os.Exit(-1)` as 255.
- `io.Copy` streaming is not modelled. The body is one byte sequence, and a failed copy keeps the bytes written before the failure.
- Closing files is not modelled. The source never closes the files it creates.
- Logging, `flag.Usage` output and the `Flags for` / `Saved n bytes` messages are not modelled, because they have no effect on the disk or the server.
- Filesystem faults are part of the message input: each attachment carries whether its `MkdirAll`, `os.Create` or `io.Copy` fails. The rerun lemmas (`SaveMessageIdempotent`, `RerunWritesNothing`, `WalkTwice`, `RunTwice`) therefore assume each fault happens again. A message whose first run left no directory, say because `MkdirAll` failed on a full disk, is retried, and a rerun in which that call succeeds does write.
- Why a filesystem call fails is not modelled: a full disk, missing rights, a file in the way, or a file name containing `/` whose subdirectory is missing. Each failure is a fault flag on the attachment.
- File names are not sanitised by the source. A name with `..` or `/` is written wherever the path points; the model keeps the path as a plain string.
- LOGOUT's own result is not modelled: `defer c.Logout()` ignores it.
