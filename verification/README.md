# Plastic SCM source control: a Dafny model of the command utilities

This project models the pure logic of `PlasticSourceControlUtils.cpp`, the
part of the Unreal Engine Plastic SCM plugin that talks to a long-lived
`cm shell` process. The model covers:

- how one command line is framed;
- how the reply is read chunk by chunk until the `CommandResult <code>` sentinel appears;
- how the reply is split into lines;
- how `cm status`, `cm fileinfo`, `cm log` and `cm history` output is decoded into file states and revisions;
- how the workspace root and repository specification are found;
- how the provider's state cache is refreshed;
- how redundant error messages are turned into information.

Everything the source does through a process, a pipe, the file system or the
provider singleton is a parameter:

- the chunks the shell's output pipe yields (`Channel.Shell`);
- the reply of a `status` or `fileinfo` command and whether a file exists (`Status.Oracles`);
- the result of `cm log` for a changeset, as an optional typed XML tree (`History.LogOracle`);
- whether a directory exists (`Workspace.FindRootDirectory`);
- the state cache, as a map keyed by the upper-cased file name (`Cache.StateCache`).

The modules follow the source:

| file | module | what it holds |
|---|---|---|
| text.dfy | `Text` | the `FString` operations the source relies on: searching, clamped `LeftChop`/`RightChop`/`Mid`, `ParseIntoArray` with culling (`Split`), `Atoi` |
| channel.dfy | `Channel` | command framing, the sentinel scan, the read loop, `RunCommandInternal`, `RunCommand` |
| status.dfy | `Status` | the status parser, `ParseStatusResult`, `RunStatus`, the fileinfo parser and lock promotion, `RunUpdateStatus` |
| history.dfy | `History` | `TranslateAction`, `ParseLogResults` over a typed log tree, `ParseHistoryResults` |
| workspace.dfy | `Workspace` | `FindRootDirectory`, `GetRepositorySpecification` |
| cache.dfy | `Cache` | `UpdateCachedStates` |
| messages.dfy | `Messages` | `RemoveRedundantErrors` |

Where the source has a defect, the model keeps two definitions: one as written
(`...AsWritten`) and one as evidently intended. The rest of the model uses the
intended one. See "## Findings".

## Model

| member | source | states |
|---|---|---|
| Channel.Delimiter | Source/PlasticSourceControl/Private/PlasticSourceControlUtils.cpp:17-21 | the platform line terminator is `"\r\n"` on Windows and `"\n"` elsewhere; either ends with a line feed and holds no other one |
| Channel.BuildCommandLine | Source/PlasticSourceControl/Private/PlasticSourceControlUtils.cpp:141-156 | the line sent is the command, then `" " + p` for each parameter in order, then `` ` "f"` `` for each file in order, then one line feed |
| Channel.OneCommandPerLine | Source/PlasticSourceControl/Private/PlasticSourceControlUtils.cpp:141-156 | when no command, parameter or file holds a line feed, the sent line holds exactly one, as its last character |
| Channel.ScanSentinel | Source/PlasticSourceControl/Private/PlasticSourceControlUtils.cpp:174-180 | a found sentinel starts at the last `"CommandResult "` of the buffer, and its code text ends at the first delimiter after the 14-character marker; not found means no delimiter follows the last marker |
| Channel.DoneIsFinal | Source/PlasticSourceControl/Private/PlasticSourceControlUtils.cpp:166-187 | once the sentinel is complete the loop is left: later chunks change nothing |
| Channel.ReadResponse | Source/PlasticSourceControl/Private/PlasticSourceControlUtils.cpp:166-198 | the read loop, written as a loop, computes the fold over the chunks; when the chunks run out first, the result is failure with the whole buffer |
| Channel.ChunkingIrrelevant | Source/PlasticSourceControl/Private/PlasticSourceControlUtils.cpp:166-187 | for a reply `out + "CommandResult " + code + delimiter` with no marker in `out`, every chunking ends with success iff `Atoi(code) == 0` and with the buffer cut at the marker, i.e. `out`; the code must hold no line feed and no `C`, so that the sentinel is the last marker and ends at its own delimiter |
| Channel.NoMarkerKeepsReading | Source/PlasticSourceControl/Private/PlasticSourceControlUtils.cpp:166-198 | output that never shows the marker is all kept and the loop never finishes |
| Channel.Feed | Source/PlasticSourceControl/Private/PlasticSourceControlUtils.cpp:166-187 | an empty chunk, or a finished read, changes nothing; otherwise the chunk is appended, and the read finishes exactly when the grown buffer holds a complete sentinel, keeping the text before its marker |
| Channel.ReadAll | Source/PlasticSourceControl/Private/PlasticSourceControlUtils.cpp:166-187 | while no complete sentinel has appeared, the buffer is all the chunks read, in order |
| Channel.RunCommandInternal | Source/PlasticSourceControl/Private/PlasticSourceControlUtils.cpp:127-223 | no running shell gives failure with `command + ": Plastic SCM shell not running!"` and nothing sent; a running shell is sent the framed line; failure moves the output to the error text and leaves the results empty |
| Channel.RunCommandInternalFramed | Source/PlasticSourceControl/Private/PlasticSourceControlUtils.cpp:166-214 | on a well-framed reply, success iff the exit code reads as 0; the output before the marker is the result text on success and the error text on failure |
| Channel.RunCommandInternalUnterminated | Source/PlasticSourceControl/Private/PlasticSourceControlUtils.cpp:199-214 | a shell that stops before printing the marker fails with all of its output as error text |
| Channel.RunCommand | Source/PlasticSourceControl/Private/PlasticSourceControlUtils.cpp:253-265 | no returned line is empty or holds the terminator, and a failed command returns no output lines |
| Channel.RunCommandLines | Source/PlasticSourceControl/Private/PlasticSourceControlUtils.cpp:253-265 | for a well-framed reply whose output is lines joined by the platform terminator (with or without a final one), a successful command returns exactly those lines and no errors, and a failed one returns no lines and exactly those lines as errors |
| Channel.RunCommandNotRunning | Source/PlasticSourceControl/Private/PlasticSourceControlUtils.h:92-102 | with no running shell, `RunCommand` returns false, no output and the single error line naming the command |
| Text.JoinPieces | Source/PlasticSourceControl/Private/PlasticSourceControlUtils.cpp:261-262 | splitting at the delimiter loses nothing: joining the pieces with it rebuilds the text |
| Text.Split | Source/PlasticSourceControl/Private/PlasticSourceControlUtils.cpp:261-262 | `ParseIntoArray` with culling yields only non-empty pieces, none holding the delimiter |
| Text.SplitOfJoin | Source/PlasticSourceControl/Private/PlasticSourceControlUtils.cpp:261-262 | non-empty lines free of a terminator whose first character occurs only once in it (as in `"\n"` and `"\r\n"`), joined with it, with or without a final terminator, split back into the same lines |
| Text.PiecesOfJoin | Source/PlasticSourceControl/Private/PlasticSourceControlUtils.cpp:261-262 | fields free of a one-character delimiter, joined with it, split back into the same fields |
| Text.NonEmptyKeepsFull | Source/PlasticSourceControl/Private/PlasticSourceControlUtils.cpp:261-262 | culling keeps every piece when none is empty |
| Text.AtoiDecimalText | Source/PlasticSourceControl/Private/PlasticSourceControlUtils.cpp:581-582 | `Atoi` reads back the decimal text of a number, with or without a minus sign |
| Status.StatusTable | Source/PlasticSourceControl/Private/PlasticSourceControlUtils.cpp:433-479 | a status line decodes to a state other than `Unknown` exactly when its two characters at offset 1, in any case, are one of that state's codes (CH, CO, CP, RP, AD, PR, IG, DE/LD, MV/LM), and to `Unknown` exactly when they are none of them |
| Status.ParseStatusLine | Source/PlasticSourceControl/Private/PlasticSourceControlUtils.cpp:471-474 | codes are compared ignoring case; no line decodes to `Conflicted`: the code read is at most two characters long and never equals `"conflited"` in any case |
| Status.StatusLineRoundTrip | Source/PlasticSourceControl/Private/PlasticSourceControlUtils.cpp:485-499 | a line ` <code> <path>` as `cm status` prints it, with the code in any case, decodes to the state the code stands for |
| Status.LowerCaseCode | Source/PlasticSourceControl/Private/PlasticSourceControlUtils.cpp:433-437 | a lower-case ` ch <path>` line decodes to `Changed`, as the upper-case code does |
| Status.ParseStatusResult | Source/PlasticSourceControl/Private/PlasticSourceControlUtils.cpp:500-518 | only the workspace state changes; no result line gives `Controlled` |
| Status.LastStatusLineWins | Source/PlasticSourceControl/Private/PlasticSourceControlUtils.cpp:504-509 | with several result lines, only the last one decides the state |
| Status.StatusLoop | Source/PlasticSourceControl/Private/PlasticSourceControlUtils.cpp:541-565 | one state per file; commands are issued for a prefix of the files; the error lines are those of the issued commands, command after command; the result is true iff every status command succeeds; on failure the last command issued is the one that failed, and none is issued after it |
| Status.StatusLoopStates | Source/PlasticSourceControl/Private/PlasticSourceControlUtils.cpp:541-565 | each file reached carries the state its command decoded (fresh on failure); every later file keeps a fresh state |
| Status.RunStatus | Source/PlasticSourceControl/Private/PlasticSourceControlUtils.cpp:521-569 | a single file that does not exist gives one `Private` state, false and no command; otherwise one state per file, in input order, and true iff every status command succeeds; the error lines are those of the commands issued, and of every file's command when the result is true |
| Status.ParseFileinfo | Source/PlasticSourceControl/Private/PlasticSourceControlUtils.cpp:575-598 | with fewer than two `;` fields, nothing is read and the changesets are indeterminate |
| Status.FileinfoRoundTrip | Source/PlasticSourceControl/Private/PlasticSourceControlUtils.cpp:575-605 | a line `rev;head;owner;place` reads back both changesets, the lock owner and the lock place |
| Status.FileinfoUnlocked | Source/PlasticSourceControl/Private/PlasticSourceControlUtils.cpp:575-605 | a line `rev;head;;` reads back both changesets and no lock |
| Status.ApplyFileinfo | Source/PlasticSourceControl/Private/PlasticSourceControlUtils.cpp:620-630 | the changesets and lock come from the fileinfo line; the state becomes `LockedByOther` when someone holds the lock and it is not this user in this workspace, names compared ignoring case, and is otherwise unchanged |
| Status.LockPromotion | Source/PlasticSourceControl/Private/PlasticSourceControlUtils.cpp:625-630 | after status then fileinfo, a file is `LockedByOther` iff its lock owner is non-empty and either differs from the user or its lock place differs from the workspace, both compared ignoring case |
| Status.ApplyFileinfoLines | Source/PlasticSourceControl/Private/PlasticSourceControlUtils.cpp:613-634 | line `i` updates the state at `offset + i`; every other state is unchanged |
| Status.GroupByDirectory | Source/PlasticSourceControl/Private/PlasticSourceControlUtils.cpp:662-677 | the groups are non-empty, each holds files of one directory, directories being compared ignoring case as the map's keys are, no two share a directory, and together they hold exactly the input files |
| Status.RunUpdateStatusAsWritten | Source/PlasticSourceControl/Private/PlasticSourceControlUtils.cpp:656-692 | one state per grouped file; the result is true iff every group whose status step succeeded also had its fileinfo succeed; the error lines are, group after group, the status errors and then, when status succeeded, the fileinfo errors |
| Status.GroupStepAsWritten | Source/PlasticSourceControl/Private/PlasticSourceControlUtils.cpp:680-688 | one group appends one state per file and keeps the earlier states; the result stays true iff it was true and, when the group's status step succeeded, its fileinfo succeeded too; its status errors, then its fileinfo errors when status succeeded, follow the earlier errors |
| Status.SecondGroupLines | Source/PlasticSourceControl/Private/PlasticSourceControlUtils.cpp:613-617 | for any two groups whose status and fileinfo steps succeed, as written the second group's fileinfo lines are applied from index 0 of all states so far, over the first group's already updated states; corrected, each group's lines update that group's own states |
| Status.LockLandsOnWrongFile | Source/PlasticSourceControl/Private/PlasticSourceControlUtils.cpp:680-688 | with files `a/x` and `b/y`, where `b/y` is locked by someone else, the source marks `a/x` `LockedByOther` and leaves `b/y` `Controlled`; the corrected loop does the reverse |
| Status.RunUpdateStatus | Source/PlasticSourceControl/Private/PlasticSourceControlUtils.cpp:656-692 | the corrected loop: one state per grouped file, with the same result rule and the same error lines as the source |
| Status.RunUpdateStatusIsPerGroup | Source/PlasticSourceControl/Private/PlasticSourceControlUtils.cpp:680-689 | the corrected states are each group's own status-then-fileinfo states, concatenated in group order |
| History.TranslateAction | Source/PlasticSourceControl/Private/PlasticSourceControlUtils.cpp:723-742 | `Added` gives `add`, `Moved` gives `branch`, `Deleted` gives `delete`, and every other type gives `edit`, each as an if-and-only-if |
| History.IsoDate | Source/PlasticSourceControl/Private/PlasticSourceControlUtils.cpp:813-820 | a 33-character date loses the four characters after its 23rd; a date of at most 10 characters becomes empty |
| History.IsoDateExample | Source/PlasticSourceControl/Private/PlasticSourceControlUtils.cpp:815-818 | `2016-04-18T10:44:49.0000000+02:00` becomes `2016-04-18T10:44:49.000+02:00` |
| History.ApplyItem | Source/PlasticSourceControl/Private/PlasticSourceControlUtils.cpp:831-861 | an item about the revision sets the file name from its destination path, the action from its type, and the branch source only for a parent revision with a different source path; nothing else changes |
| History.LastMatchWins | Source/PlasticSourceControl/Private/PlasticSourceControlUtils.cpp:829-863 | after all items, each of file name, action and branch source is the value of the last item that sets it, or unchanged when none does; a branch source is never cleared |
| History.ApplyItems | Source/PlasticSourceControl/Private/PlasticSourceControlUtils.cpp:829-863 | the items change only the file name, action and branch source: the revision number and text, changeset number, description, user name and date are kept |
| History.ApplyChangeset | Source/PlasticSourceControl/Private/PlasticSourceControlUtils.cpp:803-820 | corrected: the description, user name and date are taken from the comment, owner and date nodes when present; nothing else changes |
| History.ParseLogResults | Source/PlasticSourceControl/Private/PlasticSourceControlUtils.cpp:776-865 | corrected; without a root tagged `LogList`, compared ignoring case, or without a changeset, the revision is unchanged; the revision number, revision text and changeset number are never changed |
| History.ParseLogReadsChangeset | Source/PlasticSourceControl/Private/PlasticSourceControlUtils.cpp:803-826 | corrected: a decoded changeset's own fields, the owner included, are read whether or not it lists changes |
| History.LogListTagIgnoresCase | Source/PlasticSourceControl/Private/PlasticSourceControlUtils.cpp:792 | a root tagged `loglist` decodes exactly as one tagged `LogList` |
| History.ParseLogResultsAsWritten | Source/PlasticSourceControl/Private/PlasticSourceControlUtils.cpp:803-812 | the source dereferences a null owner node exactly when the changeset has a comment and no owner |
| History.AsWrittenAgreesWithCommentAndOwner | Source/PlasticSourceControl/Private/PlasticSourceControlUtils.cpp:803-812 | when comment and owner are both present or both absent, the source decodes as intended |
| History.AsWrittenIgnoresOwner | Source/PlasticSourceControl/Private/PlasticSourceControlUtils.cpp:808-812 | with an owner and no comment, the source keeps the old user name where the owner was meant |
| History.HistoryStep | Source/PlasticSourceControl/Private/PlasticSourceControlUtils.cpp:912-933 | a line is malformed iff it has other than two `;` fields; otherwise the entry's changeset number and revision number are read from the fields, the step succeeds iff the log command succeeds, and then the entry is the log's decoding of the revision read from the line, else that revision itself |
| History.HistoryLineRoundTrip | Source/PlasticSourceControl/Private/PlasticSourceControlUtils.cpp:895-902 | a line `changeset;revision` as `cm history` prints it is well formed and reads back both numbers and the revision text |
| History.WalkEntries | Source/PlasticSourceControl/Private/PlasticSourceControlUtils.cpp:909-935 | entry `n-1-i` comes from line `i`, walking from the last line; every line reached before the last one was complete |
| History.WalkOk | Source/PlasticSourceControl/Private/PlasticSourceControlUtils.cpp:905-937 | the result is true iff every line is well formed and its log lookup succeeds |
| History.WalkStops | Source/PlasticSourceControl/Private/PlasticSourceControlUtils.cpp:913-933 | a failed walk stopped at a malformed line, which gives no entry, or at a failed lookup, which is the last entry |
| History.ParseHistoryResults | Source/PlasticSourceControl/Private/PlasticSourceControlUtils.cpp:903-938 | at most one entry per line, one per line when the result is true, and true with no entries for no lines |
| History.WalkHistory | Source/PlasticSourceControl/Private/PlasticSourceControlUtils.cpp:910-935 | the descending loop guarded by the result so far computes the walk |
| Workspace.TrimTrailing | Source/PlasticSourceControl/Private/PlasticSourceControlUtils.cpp:283-291 | the result is a prefix without a trailing `c`, and only `c` characters were removed |
| Workspace.FindRootDirectory | Source/PlasticSourceControl/Private/PlasticSourceControlUtils.cpp:277-319 | true with the first candidate having a `.plastic` subdirectory (the trimmed path, then each cut at its last `/`), which is a prefix of the path; otherwise false with the path unchanged |
| Workspace.Search | Source/PlasticSourceControl/Private/PlasticSourceControlUtils.cpp:296-313 | a directory found is non-empty, a prefix of the start and has a `.plastic` subdirectory; the start is found itself when it has one; an empty start finds nothing |
| Workspace.SearchIsFirstWorkspace | Source/PlasticSourceControl/Private/PlasticSourceControlUtils.cpp:296-312 | the search one directory up at a time stops at the first candidate with a `.plastic` subdirectory, and finds nothing when no candidate has one |
| Workspace.Candidates | Source/PlasticSourceControl/Private/PlasticSourceControlUtils.cpp:296-312 | every directory tried is non-empty and a prefix of the starting path, and the first is the starting path itself |
| Workspace.FindRootDirectoryLoop | Source/PlasticSourceControl/Private/PlasticSourceControlUtils.cpp:296-318 | the loop over a shrinking root computes `FindRootDirectory` |
| Workspace.GetRepositorySpecificationAsWritten | Source/PlasticSourceControl/Private/PlasticSourceControlUtils.cpp:370-392 | a failed status keeps the outputs; after a successful one, the guard `3 >= Num` reads past the fields exactly when the line has fewer than three `@` fields |
| Workspace.AsWrittenOutOfRange | Source/PlasticSourceControl/Private/PlasticSourceControlUtils.cpp:376-381 | any line of two non-empty fields without `@`, such as `cs:41@rep:UE4PlasticPlugin`, reads past the end of its fields |
| Workspace.GetRepositorySpecification | Source/PlasticSourceControl/Private/PlasticSourceControlUtils.cpp:361-392 | the corrected guard: success iff the line has at least three `@` fields, and the outputs are kept on failure |
| Workspace.SpecRoundTrip | Source/PlasticSourceControl/Private/PlasticSourceControlUtils.cpp:369-381 | a line `cs:N@rep:NAME@repserver:URL` reads back the repository name and server URL |
| Cache.RefreshOne | Source/PlasticSourceControl/Private/PlasticSourceControlUtils.cpp:966-974 | names are matched ignoring case, so every spelling of a name finds the same entry; an unknown file gets a fresh entry; an entry is rewritten only in its workspace state, hash and time stamp, and only when its workspace state differs |
| Cache.CaseVariantSharesEntry | Source/PlasticSourceControl/Private/PlasticSourceControlUtils.cpp:966-974 | with `A` cached, a new state for `a` in the same workspace state changes nothing: the result is false and no second entry appears |
| Cache.UpdateCachedStates | Source/PlasticSourceControl/Private/PlasticSourceControlUtils.cpp:958-977 | the result is true iff some new state's workspace state differs from the cached one; the cache gains exactly the keys of the new files, names compared ignoring case, and untouched entries are unchanged |
| Cache.RefreshNothingIff | Source/PlasticSourceControl/Private/PlasticSourceControlUtils.cpp:964-977 | no entry changes iff every new state agrees with the cache it started from, and then every lookup gives what it gave before, except that a name the cache did not know may find the fresh entry another spelling of it created |
| Cache.RefreshKeys | Source/PlasticSourceControl/Private/PlasticSourceControlUtils.cpp:964-976 | the cache gains an entry for each new state's file, under its case-folded key, and keeps every other entry as it was |
| Cache.RefreshKeepsIdentity | Source/PlasticSourceControl/Private/PlasticSourceControlUtils.cpp:968-973 | name, revisions and lock of every cached entry are never rewritten; an added entry has the fresh identity of the spelling that created it |
| Cache.RefreshLastWins | Source/PlasticSourceControl/Private/PlasticSourceControlUtils.cpp:964-976 | each entry ends with the workspace state of the last new state for any spelling of its name; an entry with no new state is kept |
| Cache.RefreshFromOneState | Source/PlasticSourceControl/Private/PlasticSourceControlUtils.cpp:968-973 | a rewritten entry takes its workspace state, hash and time stamp together from one new state for the same name in some spelling |
| Cache.UpdateCachedStatesLoop | Source/PlasticSourceControl/Private/PlasticSourceControlUtils.cpp:958-977 | the loop with a counter computes `UpdateCachedStates` |
| Messages.RemoveRedundantErrors | Source/PlasticSourceControl/Private/PlasticSourceControlUtils.cpp:1003-1022 | the info messages are the old ones followed by the copied errors, and the errors become the remaining ones; no remaining error holds the filter; errors without it in any case remain; success becomes true iff it was, or some error held the filter and every error held it ignoring case |
| Messages.Copied | Source/PlasticSourceControl/Private/PlasticSourceControlUtils.cpp:1006-1013 | every copied error is an error holding the filter, case-sensitively, and every such error is copied |
| Messages.Remaining | Source/PlasticSourceControl/Private/PlasticSourceControlUtils.cpp:982-1001 | every remaining error is an error not holding the filter, ignoring case, and every such error remains |
| Messages.CopiedCounts | Source/PlasticSourceControl/Private/PlasticSourceControlUtils.cpp:1006-1013 | each error holding the filter is copied as many times as it occurs among the errors, and nothing else is copied |
| Messages.RemainingCounts | Source/PlasticSourceControl/Private/PlasticSourceControlUtils.cpp:1015 | each error not holding the filter in any case remains as many times as it occurs, and nothing else remains |
| Messages.CopiedSnoc | Source/PlasticSourceControl/Private/PlasticSourceControlUtils.cpp:1006-1013 | the copy walks the errors forward: one more error, when it holds the filter, is appended after the earlier copies |
| Messages.RemainingSnoc | Source/PlasticSourceControl/Private/PlasticSourceControlUtils.cpp:1015 | removal keeps the order: one more error, unless it holds the filter in some case, is kept after the earlier remaining ones |
| Messages.RemainingIsPartition | Source/PlasticSourceControl/Private/PlasticSourceControlUtils.cpp:1015 | the remaining and the removed errors together are the errors |
| Messages.NothingCopiedRemains | Source/PlasticSourceControl/Private/PlasticSourceControlUtils.cpp:1008-1015 | every error copied to the info messages is also removed |
| Messages.NoMatchKeepsCommand | Source/PlasticSourceControl/Private/PlasticSourceControlUtils.h:138-142 | when no error holds the filter, the command is unchanged |
| Messages.Idempotent | Source/PlasticSourceControl/Private/PlasticSourceControlUtils.cpp:1003-1022 | removing the redundant errors a second time changes nothing |
| Messages.RemoveRedundantErrorsLoop | Source/PlasticSourceControl/Private/PlasticSourceControlUtils.cpp:1006-1021 | the copy pass and the removal pass, each a forward loop, and the success rule compute `RemoveRedundantErrors` |
| Messages.CopyMatching | Source/PlasticSourceControl/Private/PlasticSourceControlUtils.cpp:1006-1013 | the forward copy loop collects exactly the copied errors, in order |
| Messages.KeepUnmatched | Source/PlasticSourceControl/Private/PlasticSourceControlUtils.cpp:1015 | the forward removal loop keeps exactly the remaining errors, in order |

## Left out

- Process and pipe lifecycle (`CreatePipeWrite`, `LaunchBackgroundPlasticShell`, restart, exit, `Terminate`): these are OS handles and process state. A shell is either not running or a sequence of output chunks. A shell found stopped at entry is restarted by the source, and its chunks are those of the restarted shell.
- Polling, sleeping and the 60-second timeout log in the read loop: wall-clock timing only. A timeout changes no buffer.
- `FScopedTempFile` and `RunDumpToFile`: file and process I/O.
- XML text parsing (`FXmlFile::LoadFile`): the log is a typed tree, given by an oracle that returns nothing when the command or the parse fails.
- `FDateTime::ParseIso8601`: the model stops at the rewritten date text.
- `RunLogCommand`'s repository specification text: part of the log oracle.
- `RunFileinfo`'s command arguments: part of the fileinfo oracle.
- `FPlasticSourceControlProvider::GetStateInternal` is not part of this model: `Cache.Lookup` models it as a lookup in its `FString`-keyed map, which ignores case, adding a fresh state for an unknown name.
- Module and provider lookups: the user name, workspace name and state cache are passed in.
- `UE_LOG` logging.
- Plugin settings.
- `FindPlasticBinaryPath`: returns the constant `cm` on Windows and `/usr/bin/cm` elsewhere; no logic to model.
- `GetPlasticScmVersion`, `GetUserName`, `GetWorkspaceName`, `GetBranchName`: each is one command whose first line is handed on unchanged. `GetRepositorySpecification` decodes its reply, and it is modelled.
- `RunGetHistory`: runs `history` and, when it succeeds, hands the lines to `ParseHistoryResults`, which is modelled (`History.ParseHistoryResults`).
- Text.Atoi: reads an unbounded integer; the 32-bit overflow of `FCString::Atoi` on very long digit strings is not modelled.
- Text.ContainsIgnoreCase, Text.EqualsIgnoreCase, Cache.CacheKey: fold ASCII letters only; the engine's locale-dependent case folding is not modelled.
- Text.Contains: an empty filter counts as found everywhere. The engine's behaviour for an empty search text is not modelled; every caller passes a fixed non-empty filter.
- Status.ParentPath: `FPaths::GetPath` is modelled as the text before the last `/` or `\`; its other normalisations are not modelled.
- Status.ParseStatusResult: the source calls the static `FDateTime::Now()` on the time stamp and discards the result, so the time stamp is unchanged in the model too.
- Status.ParseFileinfo: the two changesets the source leaves uninitialised with fewer than two fields are `Indeterminate`, not a particular number.
- Status.RunUpdateStatusAsWritten: requires that `fileinfo` never returns more lines than files (`FileinfoFits`), which the source assumes without checking; more lines would first read `InFiles[IdxResult]` past the end of the group's files.
- Status.GroupByDirectory: the engine's map iterates its groups in an unspecified order, so the update loops take any permutation of the groups as input.
- History.HistoryStep, History.ParseHistoryResults: decode each log with the corrected `ParseLogResults`, not the as-written one, which can dereference a null owner node.
- History.LogRoot: the typed tree holds the first `<Changeset>` and its child nodes directly; `FindChildNode`'s lookup of each child by tag is not modelled.
- History.ParseHistoryResults: its own ensures give the lengths only. The entry-by-entry contract is stated for any per-line step by `History.WalkEntries`, `History.WalkOk` and `History.WalkStops`.
- Workspace.PlasticDirectory: the `FPaths` `/` operator is modelled as plain concatenation with `/.plastic`.

## Findings

| source | as written | input that shows it | evidently intended | confidence | as-written member | corrected member |
|---|---|---|---|---|---|---|
| Source/PlasticSourceControl/Private/PlasticSourceControlUtils.cpp:376-381 | `if (3 >= RepositorySpecification.Num())` then reads fields 1 and 2 | status line `cs:41@rep:UE4PlasticPlugin` (two fields) reads field 2 past the end; a line with four fields is rejected | `3 <= Num` | not executed | Workspace.AsWrittenOutOfRange | Workspace.SpecRoundTrip |
| Source/PlasticSourceControl/Private/PlasticSourceControlUtils.cpp:808-812 | the owner node is read under `if (CommentNode != nullptr)` | a changeset with a `<Comment>` and no `<Owner>` dereferences null; one with an `<Owner>` and no `<Comment>` ignores the owner | test `OwnerNode != nullptr` | not executed | History.AsWrittenIgnoresOwner | History.ParseLogResults |
| Source/PlasticSourceControl/Private/PlasticSourceControlUtils.cpp:613-617 | `InOutStates[IdxResult]` indexes all states accumulated over the groups, from 0 | files `a/x` and `b/y` in two groups, with `b/y` locked by another user: `a/x` becomes `LockedByOther` and `b/y` stays `Controlled` | index from the first state of the current group | not executed | Status.LockLandsOnWrongFile | Status.RunUpdateStatusIsPerGroup |
