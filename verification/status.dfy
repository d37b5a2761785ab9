/**
 * Workspace state of files: decoding of `cm status` lines, the per-file
 * status loop of `RunStatus`, decoding of `cm fileinfo` lines with lock
 * promotion, and the grouping state machine of `RunUpdateStatus`.
 *
 * The shell, the file system and the identity of the current user are given
 * as an `Oracles` value: the reply of a `status` command for one file, the
 * reply of a `fileinfo` command for a group of files, whether a file exists,
 * and the current user and workspace names.
 */
module Status {
  import opened Text
  import Channel

  datatype WorkspaceState =
    | Unknown | Ignored | Controlled | CheckedOut | Added | Moved | Copied
    | Replaced | Deleted | Changed | Conflicted | LockedByOther | Private

  /** A changeset number as read from `fileinfo`, or a value the source leaves uninitialised. */
  datatype Changeset = Known(n: int) | Indeterminate

  datatype FileState = FileState(
    localFilename: string,
    workspaceState: WorkspaceState,
    localRevisionChangeset: Changeset,
    depotRevisionChangeset: Changeset,
    lockedBy: string,
    lockedWhere: string,
    pendingMergeBaseFileHash: string,
    timeStamp: int)

  /** A freshly created state for a path, before any command has been run for it. */
  function NewFileState(path: string): FileState {
    FileState(path, Unknown, Indeterminate, Indeterminate, [], [], [], 0)
  }

  // ---------------------------------------------------------------------------
  // `cm status` lines
  // ---------------------------------------------------------------------------

  /** The two-letter code: status lines start with a space, so it sits at offset 1. */
  function StatusCode(line: string): (code: string)
    ensures |code| <= 2
  {
    Mid(line, 1, 2)
  }

  /**
   * `FPlasticStatusParser`. The string `==` of the source ignores case, so
   * the code is compared in upper case. The branch for a conflict compares
   * the code with the nine-letter "conflited", so `Conflicted` is never
   * produced.
   */
  function ParseStatusLine(line: string): (st: WorkspaceState)
    ensures st != Conflicted && st != LockedByOther
  {
    var key := Upper(StatusCode(line));
    if key == "CH" then Changed
    else if key == "CO" then CheckedOut
    else if key == "CP" then Copied
    else if key == "RP" then Replaced
    else if key == "AD" then Added
    else if key == "PR" then Private
    else if key == "IG" then Ignored
    else if key == "DE" || key == "LD" then Deleted
    else if key == "MV" || key == "LM" then Moved
    else if key == Upper("conflited") then Conflicted
    else Unknown
  }

  /** The status codes `cm status` prints for each state, as documented with the parser. */
  function CodesOf(st: WorkspaceState): set<string> {
    match st
    case Changed => {"CH"}
    case CheckedOut => {"CO"}
    case Copied => {"CP"}
    case Replaced => {"RP"}
    case Added => {"AD"}
    case Private => {"PR"}
    case Ignored => {"IG"}
    case Deleted => {"DE", "LD"}
    case Moved => {"MV", "LM"}
    case _ => {}
  }

  /**
   * The parser agrees with the code table in both directions, ignoring
   * case: a line decodes to a tabled state exactly when its code, upper-cased,
   * is one of that state's codes, and to `Unknown` exactly when it is in no
   * entry of the table.
   */
  lemma StatusTable(line: string)
    ensures forall st :: st != Unknown ==> (ParseStatusLine(line) == st <==> Upper(StatusCode(line)) in CodesOf(st))
    ensures ParseStatusLine(line) == Unknown <==> forall st :: Upper(StatusCode(line)) !in CodesOf(st)
  {
    var code := Upper(StatusCode(line));
    forall st | st != Unknown
      ensures ParseStatusLine(line) == st <==> code in CodesOf(st)
    {
      match st
      case Deleted => assert code in CodesOf(st) <==> code == "DE" || code == "LD";
      case Moved => assert code in CodesOf(st) <==> code == "MV" || code == "LM";
      case _ =>
    }
    forall st
      ensures ParseStatusLine(line) == Unknown ==> code !in CodesOf(st)
    {
      match st
      case Deleted => assert code in CodesOf(st) <==> code == "DE" || code == "LD";
      case Moved => assert code in CodesOf(st) <==> code == "MV" || code == "LM";
      case _ =>
    }
    var parsed := ParseStatusLine(line);
    if parsed != Unknown {
      assert code in CodesOf(parsed);
    }
  }

  /**
   * A line ` <code> <path>` decodes to the state whose table entry holds the
   * code, in whatever case it is written.
   */
  lemma StatusLineRoundTrip(st: WorkspaceState, code: string, path: string)
    requires Upper(code) in CodesOf(st)
    ensures ParseStatusLine(" " + code + " " + path) == st
  {
    var line := " " + code + " " + path;
    assert |code| == 2;
    assert line[1..3] == code;
    StatusTable(line);
  }

  /** `cm status` codes in lower case decode as their upper-case forms do. */
  lemma LowerCaseCode(path: string)
    ensures ParseStatusLine(" ch " + path) == Changed
  {
    assert Upper("ch") == "CH";
    StatusLineRoundTrip(Changed, "ch", path);
  }

  /**
   * `ParseStatusResult`: the last status line decides the state (a rename
   * in the editor reports a checkout and a move); no line at all means the
   * file is controlled and unchanged. Nothing else in the state is touched:
   * the source's `TimeStamp.Now()` discards its result.
   */
  function ParseStatusResult(results: seq<string>, state: FileState): (r: FileState)
    ensures r == state.(workspaceState := r.workspaceState)
    ensures |results| == 0 ==> r.workspaceState == Controlled
    ensures r.workspaceState != Conflicted && r.workspaceState != LockedByOther
  {
    if 0 < |results| then state.(workspaceState := ParseStatusLine(results[|results| - 1]))
    else state.(workspaceState := Controlled)
  }

  /** Lines before the last one have no influence. */
  lemma LastStatusLineWins(earlier: seq<string>, last: string, state: FileState)
    ensures ParseStatusResult(earlier + [last], state) == ParseStatusResult([last], state)
    ensures ParseStatusResult([last], state).workspaceState == ParseStatusLine(last)
  {
  }

  // ---------------------------------------------------------------------------
  // RunStatus
  // ---------------------------------------------------------------------------

  /** The outside world as far as the status commands can see it. */
  datatype Oracles = Oracles(
    fileExists: string -> bool,
    status: string -> Channel.Reply,
    fileinfo: seq<string> -> Channel.Reply,
    userName: string,
    workspaceName: string)

  /** `ok`: the overall result; `issued`: the files a status command was run for, in order. */
  datatype StatusRun = StatusRun(ok: bool, states: seq<FileState>, errors: seq<string>, issued: seq<string>)

  /** The state a successful or failed status command leaves for a file. */
  function StatusState(f: string, reply: Channel.Reply): (r: FileState)
    ensures r.localFilename == f
    ensures !reply.success ==> r == NewFileState(f)
  {
    if reply.success then ParseStatusResult(reply.lines, NewFileState(f)) else NewFileState(f)
  }

  /** The states of the files after a failure: created, but no command is run for them. */
  function Skipped(files: seq<string>): (r: seq<FileState>)
    ensures |r| == |files|
    ensures forall i :: 0 <= i < |files| ==> r[i] == NewFileState(files[i])
  {
    seq(|files|, i requires 0 <= i < |files| => NewFileState(files[i]))
  }

  /**
   * The loop of `RunStatus`: one state is appended per file; status
   * commands are issued in order up to and including the first that fails,
   * and none after it.
   */
  function StatusLoop(files: seq<string>, o: Oracles): (r: StatusRun)
    ensures |r.states| == |files|
    ensures r.errors == StatusErrors(r.issued, o)
    ensures |r.issued| <= |files| && r.issued == files[..|r.issued|]
    ensures r.ok <==> forall i :: 0 <= i < |files| ==> o.status(files[i]).success
    ensures r.ok ==> r.issued == files
    ensures !r.ok ==> 0 < |r.issued| && !o.status(files[|r.issued| - 1]).success
    decreases |files|
  {
    if |files| == 0 then StatusRun(true, [], [], [])
    else
      var f := files[0];
      var reply := o.status(f);
      if reply.success then
        var rest := StatusLoop(files[1..], o);
        AllStatusesCons(files, o);
        assert files[..|rest.issued| + 1] == [f] + files[1..][..|rest.issued|];
        StatusRun(rest.ok, [StatusState(f, reply)] + rest.states, reply.errors + rest.errors, [f] + rest.issued)
      else
        StatusRun(false, [NewFileState(f)] + Skipped(files[1..]), reply.errors, [f])
  }

  /** Every status command succeeds iff the first does and every later one does. */
  lemma AllStatusesCons(files: seq<string>, o: Oracles)
    requires 0 < |files|
    ensures (forall i :: 0 <= i < |files| ==> o.status(files[i]).success)
        <==> o.status(files[0]).success && forall i :: 0 <= i < |files[1..]| ==> o.status(files[1..][i]).success
  {
    assert forall i :: 1 <= i < |files| ==> files[i] == files[1..][i - 1];
  }

  /**
   * Every command issued before the last one succeeded; the files a command
   * was issued for carry the state it decoded, the others a fresh state.
   */
  lemma StatusLoopStates(files: seq<string>, o: Oracles)
    ensures var r := StatusLoop(files, o);
      && (forall i :: 0 <= i < |r.issued| - 1 ==> o.status(files[i]).success)
      && (forall i :: 0 <= i < |r.issued| ==> r.states[i] == StatusState(files[i], o.status(files[i])))
      && (forall i :: |r.issued| <= i < |files| ==> r.states[i] == NewFileState(files[i]))
  {
    StatusLoopIssuedSucceeded(files, o);
    StatusLoopIssuedStates(files, o);
    StatusLoopSkippedStates(files, o);
  }

  lemma {:induction false} StatusLoopIssuedSucceeded(files: seq<string>, o: Oracles)
    ensures var r := StatusLoop(files, o);
      forall i :: 0 <= i < |r.issued| - 1 ==> o.status(files[i]).success
    decreases |files|
  {
    if |files| > 0 && o.status(files[0]).success {
      var tail := files[1..];
      StatusLoopIssuedSucceeded(tail, o);
      assert forall i :: 1 <= i < |files| ==> files[i] == tail[i - 1];
    }
  }

  lemma {:induction false} StatusLoopIssuedStates(files: seq<string>, o: Oracles)
    ensures var r := StatusLoop(files, o);
      forall i :: 0 <= i < |r.issued| ==> r.states[i] == StatusState(files[i], o.status(files[i]))
    decreases |files|
  {
    if |files| > 0 && o.status(files[0]).success {
      StatusLoopIssuedStates(files[1..], o);
      StatusLoopShift(files, o);
    }
  }

  lemma {:induction false} StatusLoopSkippedStates(files: seq<string>, o: Oracles)
    ensures var r := StatusLoop(files, o);
      forall i :: |r.issued| <= i < |files| ==> r.states[i] == NewFileState(files[i])
    decreases |files|
  {
    if |files| > 0 {
      if o.status(files[0]).success {
        StatusLoopSkippedStates(files[1..], o);
        StatusLoopShift(files, o);
      } else {
        StatusLoopFirstFails(files, o);
      }
    }
  }

  /** After a successful first command, the loop continues on the other files, one index further on. */
  lemma StatusLoopShift(files: seq<string>, o: Oracles)
    requires |files| > 0 && o.status(files[0]).success
    ensures var r, rest := StatusLoop(files, o), StatusLoop(files[1..], o);
      && |r.issued| == |rest.issued| + 1
      && r.states[0] == StatusState(files[0], o.status(files[0]))
      && forall i :: 1 <= i < |files| ==> files[i] == files[1..][i - 1] && r.states[i] == rest.states[i - 1]
  {
    var rest := StatusLoop(files[1..], o);
    assert StatusLoop(files, o).states == [StatusState(files[0], o.status(files[0]))] + rest.states;
  }

  /** After a failed first command, every other file keeps a fresh state. */
  lemma StatusLoopFirstFails(files: seq<string>, o: Oracles)
    requires |files| > 0 && !o.status(files[0]).success
    ensures var r := StatusLoop(files, o);
      && r.issued == [files[0]]
      && forall i :: 0 <= i < |files| ==> r.states[i] == NewFileState(files[i])
  {
    var tail := files[1..];
    assert StatusLoop(files, o).states == [NewFileState(files[0])] + Skipped(tail);
    assert forall i :: 1 <= i < |files| ==> files[i] == tail[i - 1];
  }

  /** The error lines of the status commands for `files`, command after command. */
  function StatusErrors(files: seq<string>, o: Oracles): seq<string> {
    if |files| == 0 then [] else o.status(files[0]).errors + StatusErrors(files[1..], o)
  }

  /**
   * `RunStatus`: a lone file that does not exist is reported `Private` with a
   * false result and no command; otherwise the status loop runs over all files.
   */
  function RunStatus(files: seq<string>, o: Oracles): (r: StatusRun)
    ensures |r.states| == |files|
    ensures forall i :: 0 <= i < |files| ==> r.states[i].localFilename == files[i]
    ensures |r.issued| <= |files| && r.issued == files[..|r.issued|]
    ensures r.errors == StatusErrors(r.issued, o)
    ensures r.ok ==> r.errors == StatusErrors(files, o)
    ensures |files| == 1 && !o.fileExists(files[0]) ==>
      !r.ok && r.issued == [] && r.errors == [] && r.states[0].workspaceState == Private
    ensures !(|files| == 1 && !o.fileExists(files[0])) ==>
      (r.ok <==> forall i :: 0 <= i < |files| ==> o.status(files[i]).success)
  {
    if |files| == 1 && !o.fileExists(files[0]) then
      StatusRun(false, [NewFileState(files[0]).(workspaceState := Private)], [], [])
    else
      StatusLoopStates(files, o);
      StatusLoop(files, o)
  }

  // ---------------------------------------------------------------------------
  // `cm fileinfo` lines and lock promotion
  // ---------------------------------------------------------------------------

  datatype Fileinfo = Fileinfo(revisionChangeset: Changeset, headChangeset: Changeset, lockedBy: string, lockedWhere: string)

  /**
   * `FPlasticFileinfoParser` over `{RevisionChangeset};{RevisionHeadChangeset};{LockedBy};{LockedWhere}`.
   * Empty fields are culled by the split. With fewer than two fields the two
   * changesets stay uninitialised in the source.
   */
  function ParseFileinfo(line: string): (r: Fileinfo)
    ensures |Split(line, ";")| < 2 ==> r == Fileinfo(Indeterminate, Indeterminate, [], [])
  {
    var fields := Split(line, ";");
    if |fields| >= 2 then
      Fileinfo(Known(Atoi(fields[0])), Known(Atoi(fields[1])),
               if |fields| >= 3 then fields[2] else [],
               if |fields| >= 4 then fields[3] else [])
    else Fileinfo(Indeterminate, Indeterminate, [], [])
  }

  predicate NoSemicolon(s: string) { forall i :: 0 <= i < |s| ==> s[i] != ';' }

  /** The line `cm fileinfo --format={RevisionChangeset};{RevisionHeadChangeset};{LockedBy};{LockedWhere}` prints. */
  function FileinfoLine(rev: nat, head: nat, owner: string, place: string): string {
    Join([DecimalText(rev), DecimalText(head), owner, place], ";")
  }

  lemma FileinfoFields(rev: nat, head: nat, owner: string, place: string)
    requires NoSemicolon(owner) && NoSemicolon(place)
    ensures Pieces(FileinfoLine(rev, head, owner, place), ";")
         == [DecimalText(rev), DecimalText(head), owner, place]
  {
    var fs := [DecimalText(rev), DecimalText(head), owner, place];
    assert forall i, j :: 0 <= i < |fs| && 0 <= j < |fs[i]| ==> fs[i][j] != ';' by {
      assert AllDigits(fs[0]) && AllDigits(fs[1]);
    }
    PiecesOfJoin(fs, ';');
  }

  /**
   * Decoding a line with a lock reads back both changesets, the lock owner
   * and the workspace holding the lock.
   */
  lemma FileinfoRoundTrip(rev: nat, head: nat, owner: string, place: string)
    requires |owner| > 0 && |place| > 0 && NoSemicolon(owner) && NoSemicolon(place)
    ensures ParseFileinfo(FileinfoLine(rev, head, owner, place)) == Fileinfo(Known(rev), Known(head), owner, place)
  {
    FileinfoFields(rev, head, owner, place);
    NonEmptyKeepsFull([DecimalText(rev), DecimalText(head), owner, place]);
    AtoiDecimalText(rev);
    AtoiDecimalText(head);
  }

  /** An unlocked file (`16;16;;`): both changesets, and no lock owner or place. */
  lemma FileinfoUnlocked(rev: nat, head: nat)
    ensures ParseFileinfo(FileinfoLine(rev, head, [], [])) == Fileinfo(Known(rev), Known(head), [], [])
  {
    var a, b := DecimalText(rev), DecimalText(head);
    var e: string := [];
    FileinfoFields(rev, head, e, e);
    var ps := [a, b, e, e];
    assert NonEmpty(ps) == [a, b] by {
      var none: seq<string> := [];
      assert [e][1..] == none && NonEmpty([e]) == NonEmpty(none) == none;
      assert [e, e][1..] == [e] && NonEmpty([e, e]) == none;
      assert ps[1..][1..] == [e, e];
      assert NonEmpty(ps[1..]) == [b] + NonEmpty([e, e]);
    }
    AtoiDecimalText(rev);
    AtoiDecimalText(head);
  }

  /**
   * The lock is held elsewhere: someone holds it, and not this user in this
   * workspace, names compared ignoring case as the source's `!=` does.
   */
  predicate LockedElsewhere(owner: string, place: string, user: string, workspace: string) {
    0 < |owner| && (!EqualsIgnoreCase(owner, user) || !EqualsIgnoreCase(place, workspace))
  }

  /**
   * One `fileinfo` line applied to a state: changesets and lock fields are
   * copied, and the state is promoted to `LockedByOther` when the lock is
   * held elsewhere; otherwise the status-derived state is kept.
   */
  function ApplyFileinfo(state: FileState, info: Fileinfo, user: string, workspace: string): (r: FileState)
    ensures r.localFilename == state.localFilename
    ensures r.pendingMergeBaseFileHash == state.pendingMergeBaseFileHash && r.timeStamp == state.timeStamp
    ensures r.localRevisionChangeset == info.revisionChangeset && r.depotRevisionChangeset == info.headChangeset
    ensures r.lockedBy == info.lockedBy && r.lockedWhere == info.lockedWhere
    ensures LockedElsewhere(info.lockedBy, info.lockedWhere, user, workspace) ==> r.workspaceState == LockedByOther
    ensures !LockedElsewhere(info.lockedBy, info.lockedWhere, user, workspace) ==> r.workspaceState == state.workspaceState
  {
    var s := state.(localRevisionChangeset := info.revisionChangeset,
                    depotRevisionChangeset := info.headChangeset,
                    lockedBy := info.lockedBy,
                    lockedWhere := info.lockedWhere);
    if LockedElsewhere(s.lockedBy, s.lockedWhere, user, workspace) then s.(workspaceState := LockedByOther) else s
  }

  /**
   * A state ends up `LockedByOther` after `fileinfo` exactly when the lock is
   * held elsewhere (status decoding itself never yields `LockedByOther`).
   */
  lemma LockPromotion(f: string, results: seq<string>, line: string, user: string, workspace: string)
    ensures var info := ParseFileinfo(line);
      ApplyFileinfo(ParseStatusResult(results, NewFileState(f)), info, user, workspace).workspaceState == LockedByOther
      <==> LockedElsewhere(info.lockedBy, info.lockedWhere, user, workspace)
  {
    var info := ParseFileinfo(line);
    var before := ParseStatusResult(results, NewFileState(f));
    assert before.workspaceState != LockedByOther;
    var after := ApplyFileinfo(before, info, user, workspace);
  }

  /**
   * `ParseFileinfoResults`: line `i` of the reply updates the state at index
   * `offset + i`; every other state is left as it was.
   */
  function ApplyFileinfoLines(states: seq<FileState>, offset: nat, lines: seq<string>, user: string, workspace: string)
    : (r: seq<FileState>)
    requires offset + |lines| <= |states|
    ensures |r| == |states|
    ensures forall i :: 0 <= i < |states| && !(offset <= i < offset + |lines|) ==> r[i] == states[i]
    ensures forall i :: offset <= i < offset + |lines| ==>
      r[i] == ApplyFileinfo(states[i], ParseFileinfo(lines[i - offset]), user, workspace)
    decreases |lines|
  {
    if |lines| == 0 then states
    else
      var s := ApplyFileinfo(states[offset], ParseFileinfo(lines[0]), user, workspace);
      ApplyFileinfoLines(states[offset := s], offset + 1, lines[1..], user, workspace)
  }

  // ---------------------------------------------------------------------------
  // Grouping by directory
  // ---------------------------------------------------------------------------

  predicate IsSeparator(c: char) { c == '/' || c == '\\' }

  /** `FPaths::GetPath`: everything before the last path separator, or "" when there is none. */
  function ParentPath(f: string): (r: string)
    ensures r <= f
    ensures |r| < |f| ==> r == f[..|r|]
  {
    if |f| == 0 then []
    else if IsSeparator(f[|f| - 1]) then f[..|f| - 1]
    else ParentPath(f[..|f| - 1])
  }

  /**
   * The key of a file's group: its directory. The source's map keyed by
   * `FString` hashes and compares keys ignoring case.
   */
  function DirectoryKey(f: string): string {
    Upper(ParentPath(f))
  }

  /** Each group is non-empty, shares one directory key, and no two groups share one. */
  ghost predicate WellGrouped(groups: seq<seq<string>>) {
    && (forall i :: 0 <= i < |groups| ==> |groups[i]| > 0)
    && (forall i, x :: 0 <= i < |groups| && x in groups[i] ==> DirectoryKey(x) == DirectoryKey(groups[i][0]))
    && (forall i, j :: 0 <= i < j < |groups| ==> DirectoryKey(groups[i][0]) != DirectoryKey(groups[j][0]))
  }

  /** The index of the group for the directory of `f`, if any. */
  function GroupIndex(groups: seq<seq<string>>, f: string): (r: Option<nat>)
    requires forall i :: 0 <= i < |groups| ==> |groups[i]| > 0
    ensures r.Some? ==> r.value < |groups| && DirectoryKey(groups[r.value][0]) == DirectoryKey(f)
    ensures r.None? ==> forall i :: 0 <= i < |groups| ==> DirectoryKey(groups[i][0]) != DirectoryKey(f)
  {
    if |groups| == 0 then None
    else if DirectoryKey(groups[|groups| - 1][0]) == DirectoryKey(f) then Some(|groups| - 1)
    else GroupIndex(groups[..|groups| - 1], f)
  }

  /** Step 1 of `RunUpdateStatus`: add a file to its directory's group, or open a new group. */
  function AddToGroups(groups: seq<seq<string>>, f: string): (r: seq<seq<string>>)
    requires WellGrouped(groups)
    ensures WellGrouped(r)
    ensures multiset(Flatten(r)) == multiset(Flatten(groups)) + multiset{f}
  {
    match GroupIndex(groups, f)
    case None =>
      OpenGroup(groups, f);
      FlattenAppend(groups, [f]);
      groups + [[f]]
    case Some(i) =>
      JoinGroup(groups, i, f);
      FlattenUpdate(groups, i, groups[i] + [f]);
      var r := groups[i := groups[i] + [f]];
      calc {
        multiset(Flatten(r)) + multiset(groups[i]);
        multiset(Flatten(groups)) + multiset(groups[i] + [f]);
        multiset(Flatten(groups)) + multiset{f} + multiset(groups[i]);
      }
      MultisetCancel(multiset(Flatten(r)), multiset(Flatten(groups)) + multiset{f}, multiset(groups[i]));
      r
  }

  lemma OpenGroup(groups: seq<seq<string>>, f: string)
    requires WellGrouped(groups)
    requires forall i :: 0 <= i < |groups| ==> DirectoryKey(groups[i][0]) != DirectoryKey(f)
    ensures WellGrouped(groups + [[f]])
  {
    var r := groups + [[f]];
    forall i, x | 0 <= i < |r| && x in r[i]
      ensures DirectoryKey(x) == DirectoryKey(r[i][0])
    {
      if i < |groups| {
        assert r[i] == groups[i];
      }
    }
  }

  lemma JoinGroup(groups: seq<seq<string>>, i: nat, f: string)
    requires WellGrouped(groups)
    requires i < |groups| && DirectoryKey(groups[i][0]) == DirectoryKey(f)
    ensures WellGrouped(groups[i := groups[i] + [f]])
  {
    var r := groups[i := groups[i] + [f]];
    assert forall j :: 0 <= j < |r| ==> r[j][0] == groups[j][0];
    forall j, x | 0 <= j < |r| && x in r[j]
      ensures DirectoryKey(x) == DirectoryKey(r[j][0])
    {
      if j == i && x !in groups[i] {
        assert x == f;
      }
    }
  }

  lemma MultisetCancel<T>(a: multiset<T>, c: multiset<T>, b: multiset<T>)
    requires a + b == c + b
    ensures a == c
  {
    forall x ensures a[x] == c[x] {
      assert (a + b)[x] == (c + b)[x];
    }
  }

  lemma {:induction false} FlattenUpdate<T>(xss: seq<seq<T>>, i: nat, ys: seq<T>)
    requires i < |xss|
    ensures multiset(Flatten(xss[i := ys])) + multiset(xss[i]) == multiset(Flatten(xss)) + multiset(ys)
  {
    if i == 0 {
      var u := xss[i := ys];
      assert u[0] == ys && u[1..] == xss[1..];
      assert Flatten(u) == ys + Flatten(xss[1..]);
      assert Flatten(xss) == xss[0] + Flatten(xss[1..]);
      assert multiset(Flatten(u)) == multiset(ys) + multiset(Flatten(xss[1..]));
      assert multiset(Flatten(xss)) == multiset(xss[0]) + multiset(Flatten(xss[1..]));
      assert multiset(Flatten(u)) + multiset(xss[i]) == multiset(Flatten(xss)) + multiset(ys);
    } else {
      var u := xss[i := ys];
      var v := xss[1..][i - 1 := ys];
      assert u[0] == xss[0] && u[1..] == v && xss[1..][i - 1] == xss[i];
      FlattenUpdate(xss[1..], i - 1, ys);
      assert multiset(Flatten(v)) + multiset(xss[i]) == multiset(Flatten(xss[1..])) + multiset(ys);
      assert Flatten(u) == xss[0] + Flatten(v);
      assert Flatten(xss) == xss[0] + Flatten(xss[1..]);
      calc {
        multiset(Flatten(u)) + multiset(xss[i]);
        multiset(xss[0]) + (multiset(Flatten(v)) + multiset(xss[i]));
        multiset(xss[0]) + (multiset(Flatten(xss[1..])) + multiset(ys));
        multiset(xss[0]) + multiset(Flatten(xss[1..])) + multiset(ys);
        multiset(Flatten(xss)) + multiset(ys);
      }
    }
  }

  /**
   * The files grouped by directory: well-grouped, and the groups hold
   * exactly the input files.
   */
  function GroupByDirectory(files: seq<string>): (r: seq<seq<string>>)
    ensures WellGrouped(r)
    ensures multiset(Flatten(r)) == multiset(files)
  {
    if |files| == 0 then []
    else
      var init := files[..|files| - 1];
      assert files == init + [files[|files| - 1]];
      AddToGroups(GroupByDirectory(init), files[|files| - 1])
  }

  // ---------------------------------------------------------------------------
  // RunUpdateStatus
  // ---------------------------------------------------------------------------

  datatype UpdateRun = UpdateRun(ok: bool, states: seq<FileState>, errors: seq<string>)

  /** What the source assumes of `fileinfo`: never more lines than files. */
  ghost predicate FileinfoFits(o: Oracles) {
    forall g :: |o.fileinfo(g).lines| <= |g|
  }

  /**
   * One group of the loop of `RunUpdateStatus` as written: the states of the
   * group are appended to all states so far, and the `fileinfo` lines are
   * applied from index 0 of that accumulated sequence. A failed status step
   * leaves the result alone; a failed `fileinfo` lowers it.
   */
  /** The error lines one group adds: its status errors, then, when status succeeded, its `fileinfo` errors. */
  function GroupErrors(g: seq<string>, o: Oracles): seq<string> {
    var run := RunStatus(g, o);
    if run.ok then run.errors + o.fileinfo(g).errors else run.errors
  }

  lemma AppendAssoc(a: seq<string>, b: seq<string>, c: seq<string>)
    ensures (a + b) + c == a + (b + c)
  {
  }

  /** The error lines of all groups, group after group. */
  function UpdateErrors(groups: seq<seq<string>>, o: Oracles): seq<string> {
    if |groups| == 0 then [] else GroupErrors(groups[0], o) + UpdateErrors(groups[1..], o)
  }

  function GroupStepAsWritten(g: seq<string>, o: Oracles, acc: UpdateRun): (r: UpdateRun)
    requires FileinfoFits(o)
    ensures r.errors == acc.errors + GroupErrors(g, o)
    ensures |r.states| == |acc.states| + |g|
    ensures r.ok <==> acc.ok && (RunStatus(g, o).ok ==> o.fileinfo(g).success)
    ensures r.states[..|acc.states|] == acc.states
         || (RunStatus(g, o).ok && o.fileinfo(g).success && 0 < |o.fileinfo(g).lines|)
  {
    var run := RunStatus(g, o);
    var states := acc.states + run.states;
    var errors := acc.errors + run.errors;
    if run.ok then
      var fi := o.fileinfo(g);
      AppendAssoc(acc.errors, run.errors, fi.errors);
      UpdateRun(acc.ok && fi.success,
                if fi.success then ApplyFileinfoLines(states, 0, fi.lines, o.userName, o.workspaceName) else states,
                errors + fi.errors)
    else UpdateRun(acc.ok, states, errors)
  }

  function UpdateLoopAsWritten(groups: seq<seq<string>>, o: Oracles, acc: UpdateRun): (r: UpdateRun)
    requires FileinfoFits(o)
    ensures |r.states| == |acc.states| + |Flatten(groups)|
    ensures r.ok <==> acc.ok && forall i :: 0 <= i < |groups| && RunStatus(groups[i], o).ok ==> o.fileinfo(groups[i]).success
    ensures r.errors == acc.errors + UpdateErrors(groups, o)
    decreases |groups|
  {
    if |groups| == 0 then acc
    else
      AppendAssoc(acc.errors, GroupErrors(groups[0], o), UpdateErrors(groups[1..], o));
      UpdateLoopAsWritten(groups[1..], o, GroupStepAsWritten(groups[0], o, acc))
  }

  /**
   * `RunUpdateStatus` as written. The groups come from a map whose iteration
   * order is unspecified: any order of the directory groups may be given.
   * A failed status step never lowers the result; only `fileinfo` results count.
   */
  function RunUpdateStatusAsWritten(files: seq<string>, groups: seq<seq<string>>, o: Oracles): (r: UpdateRun)
    requires multiset(groups) == multiset(GroupByDirectory(files))
    requires FileinfoFits(o)
    ensures |r.states| == |Flatten(groups)|
    ensures r.ok <==> forall i :: 0 <= i < |groups| && RunStatus(groups[i], o).ok ==> o.fileinfo(groups[i]).success
    ensures r.errors == UpdateErrors(groups, o)
  {
    UpdateLoopAsWritten(groups, o, UpdateRun(true, [], []))
  }

  /** The states one group yields on its own: status, then `fileinfo` on its own states. */
  function GroupStates(g: seq<string>, o: Oracles): (r: seq<FileState>)
    requires FileinfoFits(o)
    ensures |r| == |g|
  {
    var run := RunStatus(g, o);
    var fi := o.fileinfo(g);
    if run.ok && fi.success then ApplyFileinfoLines(run.states, 0, fi.lines, o.userName, o.workspaceName)
    else run.states
  }

  /** One group of the loop, with the `fileinfo` lines applied to the group's own states. */
  function GroupStep(g: seq<string>, o: Oracles, acc: UpdateRun): (r: UpdateRun)
    requires FileinfoFits(o)
    ensures r.states == acc.states + GroupStates(g, o)
    ensures r.errors == acc.errors + GroupErrors(g, o)
    ensures r.ok <==> acc.ok && (RunStatus(g, o).ok ==> o.fileinfo(g).success)
  {
    var run := RunStatus(g, o);
    var states := acc.states + run.states;
    var errors := acc.errors + run.errors;
    if run.ok then
      var fi := o.fileinfo(g);
      AppendAssoc(acc.errors, run.errors, fi.errors);
      if fi.success then
        ApplyAtOffset(acc.states, run.states, fi.lines, o.userName, o.workspaceName);
        UpdateRun(acc.ok, ApplyFileinfoLines(states, |acc.states|, fi.lines, o.userName, o.workspaceName), errors + fi.errors)
      else UpdateRun(false, states, errors + fi.errors)
    else UpdateRun(acc.ok, states, errors)
  }

  /** The loop over groups of `RunUpdateStatus`, each group's `fileinfo` lines applied at its own offset. */
  function UpdateLoop(groups: seq<seq<string>>, o: Oracles, acc: UpdateRun): (r: UpdateRun)
    requires FileinfoFits(o)
    ensures |r.states| == |acc.states| + |Flatten(groups)|
    ensures r.ok <==> acc.ok && forall i :: 0 <= i < |groups| && RunStatus(groups[i], o).ok ==> o.fileinfo(groups[i]).success
    ensures r.errors == acc.errors + UpdateErrors(groups, o)
    decreases |groups|
  {
    if |groups| == 0 then acc
    else
      AppendAssoc(acc.errors, GroupErrors(groups[0], o), UpdateErrors(groups[1..], o));
      UpdateLoop(groups[1..], o, GroupStep(groups[0], o, acc))
  }

  /** `RunUpdateStatus` with the `fileinfo` lines applied at the group's own offset. */
  function RunUpdateStatus(files: seq<string>, groups: seq<seq<string>>, o: Oracles): (r: UpdateRun)
    requires multiset(groups) == multiset(GroupByDirectory(files))
    requires FileinfoFits(o)
    ensures |r.states| == |Flatten(groups)|
    ensures r.ok <==> forall i :: 0 <= i < |groups| && RunStatus(groups[i], o).ok ==> o.fileinfo(groups[i]).success
    ensures r.errors == UpdateErrors(groups, o)
  {
    UpdateLoop(groups, o, UpdateRun(true, [], []))
  }

  /** Applying lines at the end of a sequence leaves the front alone. */
  lemma ApplyAtOffset(front: seq<FileState>, back: seq<FileState>, lines: seq<string>, user: string, workspace: string)
    requires |lines| <= |back|
    ensures ApplyFileinfoLines(front + back, |front|, lines, user, workspace)
         == front + ApplyFileinfoLines(back, 0, lines, user, workspace)
  {
    var l := ApplyFileinfoLines(front + back, |front|, lines, user, workspace);
    var r := front + ApplyFileinfoLines(back, 0, lines, user, workspace);
    assert |l| == |r|;
    forall i | 0 <= i < |l| ensures l[i] == r[i] {
      if i >= |front| {
        assert (front + back)[i] == back[i - |front|];
      }
    }
  }

  /** The states each group yields on its own, group by group. */
  function PerGroup(groups: seq<seq<string>>, o: Oracles): (r: seq<seq<FileState>>)
    requires FileinfoFits(o)
    ensures |r| == |groups|
    ensures forall i :: 0 <= i < |groups| ==> r[i] == GroupStates(groups[i], o)
  {
    if |groups| == 0 then [] else [GroupStates(groups[0], o)] + PerGroup(groups[1..], o)
  }

  /**
   * Each group's files end up with exactly the states that group yields on
   * its own, concatenated in group order.
   */
  lemma UnfoldLoop(groups: seq<seq<string>>, o: Oracles, acc: UpdateRun)
    requires FileinfoFits(o) && |groups| > 0
    ensures UpdateLoop(groups, o, acc) == UpdateLoop(groups[1..], o, GroupStep(groups[0], o, acc))
  {
  }

  lemma FlattenPerGroup(groups: seq<seq<string>>, o: Oracles)
    requires FileinfoFits(o) && |groups| > 0
    ensures Flatten(PerGroup(groups, o)) == GroupStates(groups[0], o) + Flatten(PerGroup(groups[1..], o))
  {
    var p := PerGroup(groups, o);
    assert p[1..] == PerGroup(groups[1..], o);
  }

  lemma ConcatChain<T>(l: seq<T>, m: seq<T>, a: seq<T>, b: seq<T>, c: seq<T>, f: seq<T>)
    requires l == m + c && m == a + b && f == b + c
    ensures l == a + f
  {
  }

  lemma {:induction false} UpdateLoopIsPerGroup(groups: seq<seq<string>>, o: Oracles, acc: UpdateRun)
    requires FileinfoFits(o)
    ensures UpdateLoop(groups, o, acc).states == acc.states + Flatten(PerGroup(groups, o))
    decreases |groups|
  {
    if |groups| > 0 {
      var next := GroupStep(groups[0], o, acc);
      var b, c := GroupStates(groups[0], o), Flatten(PerGroup(groups[1..], o));
      assert UpdateLoop(groups, o, acc).states == UpdateLoop(groups[1..], o, next).states by {
        UnfoldLoop(groups, o, acc);
      }
      assert UpdateLoop(groups[1..], o, next).states == next.states + c by {
        UpdateLoopIsPerGroup(groups[1..], o, next);
      }
      assert Flatten(PerGroup(groups, o)) == b + c by {
        FlattenPerGroup(groups, o);
      }
      ConcatChain(UpdateLoop(groups, o, acc).states, next.states, acc.states, b, c, Flatten(PerGroup(groups, o)));
    }
  }

  /** The result of `RunUpdateStatus` is the concatenation of each group's own states. */
  lemma RunUpdateStatusIsPerGroup(files: seq<string>, groups: seq<seq<string>>, o: Oracles)
    requires multiset(groups) == multiset(GroupByDirectory(files))
    requires FileinfoFits(o)
    ensures RunUpdateStatus(files, groups, o).states == Flatten(PerGroup(groups, o))
  {
    UpdateLoopIsPerGroup(groups, o, UpdateRun(true, [], []));
  }

  /**
   * Two groups whose status and `fileinfo` steps succeed: as written, the
   * lines of the second group are applied from the first state, which
   * belongs to the first group, on top of the first group's own lines; at
   * the group's own offset they are applied to the second group's states.
   */
  lemma {:induction false} SecondGroupLines(g1: seq<string>, g2: seq<string>, o: Oracles)
    requires FileinfoFits(o)
    requires RunStatus(g1, o).ok && o.fileinfo(g1).success
    requires RunStatus(g2, o).ok && o.fileinfo(g2).success
    ensures var s1, s2 := RunStatus(g1, o).states, RunStatus(g2, o).states;
      var l1, l2 := o.fileinfo(g1).lines, o.fileinfo(g2).lines;
      && UpdateLoopAsWritten([g1, g2], o, UpdateRun(true, [], [])).states
         == ApplyFileinfoLines(ApplyFileinfoLines(s1, 0, l1, o.userName, o.workspaceName) + s2, 0, l2, o.userName, o.workspaceName)
      && UpdateLoop([g1, g2], o, UpdateRun(true, [], [])).states
         == ApplyFileinfoLines(s1, 0, l1, o.userName, o.workspaceName) + ApplyFileinfoLines(s2, 0, l2, o.userName, o.workspaceName)
  {
    SecondGroupLinesAsWritten(g1, g2, o);
    SecondGroupLinesCorrected(g1, g2, o);
  }

  lemma SecondGroupLinesAsWritten(g1: seq<string>, g2: seq<string>, o: Oracles)
    requires FileinfoFits(o)
    requires RunStatus(g1, o).ok && o.fileinfo(g1).success
    requires RunStatus(g2, o).ok && o.fileinfo(g2).success
    ensures var s1, s2 := RunStatus(g1, o).states, RunStatus(g2, o).states;
      var l1, l2 := o.fileinfo(g1).lines, o.fileinfo(g2).lines;
      UpdateLoopAsWritten([g1, g2], o, UpdateRun(true, [], [])).states
      == ApplyFileinfoLines(ApplyFileinfoLines(s1, 0, l1, o.userName, o.workspaceName) + s2, 0, l2, o.userName, o.workspaceName)
  {
    var init := UpdateRun(true, [], []);
    var s1 := RunStatus(g1, o).states;
    var first := GroupStepAsWritten(g1, o, init);
    assert [] + s1 == s1;
    assert first.states == ApplyFileinfoLines(s1, 0, o.fileinfo(g1).lines, o.userName, o.workspaceName);
    TwoStepsAsWritten(g1, g2, o, init);
  }

  /** The as-written loop over two groups is the group step twice. */
  lemma TwoStepsAsWritten(g1: seq<string>, g2: seq<string>, o: Oracles, acc: UpdateRun)
    requires FileinfoFits(o)
    ensures UpdateLoopAsWritten([g1, g2], o, acc) == GroupStepAsWritten(g2, o, GroupStepAsWritten(g1, o, acc))
  {
    var first := GroupStepAsWritten(g1, o, acc);
    assert [g1, g2][1..] == [g2];
    assert UpdateLoopAsWritten([g1, g2], o, acc) == UpdateLoopAsWritten([g2], o, first);
    assert [g2][1..] == [];
    assert UpdateLoopAsWritten([g2], o, first) == UpdateLoopAsWritten([], o, GroupStepAsWritten(g2, o, first));
  }

  /** The corrected loop over two groups is the group step twice. */
  lemma TwoSteps(g1: seq<string>, g2: seq<string>, o: Oracles, acc: UpdateRun)
    requires FileinfoFits(o)
    ensures UpdateLoop([g1, g2], o, acc) == GroupStep(g2, o, GroupStep(g1, o, acc))
  {
    var first := GroupStep(g1, o, acc);
    assert [g1, g2][1..] == [g2];
    assert UpdateLoop([g1, g2], o, acc) == UpdateLoop([g2], o, first);
    assert [g2][1..] == [];
    assert UpdateLoop([g2], o, first) == UpdateLoop([], o, GroupStep(g2, o, first));
  }

  lemma SecondGroupLinesCorrected(g1: seq<string>, g2: seq<string>, o: Oracles)
    requires FileinfoFits(o)
    requires RunStatus(g1, o).ok && o.fileinfo(g1).success
    requires RunStatus(g2, o).ok && o.fileinfo(g2).success
    ensures var s1, s2 := RunStatus(g1, o).states, RunStatus(g2, o).states;
      var l1, l2 := o.fileinfo(g1).lines, o.fileinfo(g2).lines;
      UpdateLoop([g1, g2], o, UpdateRun(true, [], [])).states
      == ApplyFileinfoLines(s1, 0, l1, o.userName, o.workspaceName) + ApplyFileinfoLines(s2, 0, l2, o.userName, o.workspaceName)
  {
    var init := UpdateRun(true, [], []);
    TwoSteps(g1, g2, o, init);
    assert GroupStep(g1, o, init).states == GroupStates(g1, o);
  }

  /** Every file exists and is unchanged; only the directory `b` holds a file locked by someone else. */
  function LockExampleOracles(): Oracles {
    Oracles(
      f => true,
      f => Channel.Reply(true, [], []),
      g => if g == ["b/y"] then Channel.Reply(true, ["7;7;other;ws"], []) else Channel.Reply(true, [], []),
      "me", "ws")
  }

  /** A path of one directory letter and one file letter lies in that directory. */
  lemma DirectoryOfChild(d: char, f: char)
    requires !IsSeparator(f)
    ensures ParentPath([d, '/', f]) == [d]
  {
    assert [d, '/', f][..2] == [d, '/'];
    assert [d, '/'][..1] == [d];
  }

  /** One file makes one group. */
  lemma OneFileGroup(a: string)
    ensures GroupByDirectory([a]) == [[a]]
  {
    var none: seq<seq<string>> := [];
    assert [a][..0] == [];
    assert GroupByDirectory([]) == none;
    assert GroupIndex(none, a) == None;
    assert AddToGroups(none, a) == none + [[a]];
  }

  /** Two files of different directories make two groups, in input order. */
  lemma TwoDirectories(a: string, b: string)
    requires DirectoryKey(a) != DirectoryKey(b)
    ensures GroupByDirectory([a, b]) == [[a], [b]]
  {
    OneFileGroup(a);
    assert [a, b][..1] == [a];
    assert GroupByDirectory([a, b]) == AddToGroups([[a]], b);
    assert GroupIndex([[a]], b) == None by {
      var none: seq<seq<string>> := [];
      assert [[a]][..0] == none;
      assert GroupIndex(none, b) == None;
    }
    assert AddToGroups([[a]], b) == [[a]] + [[b]];
  }

  lemma LockExampleGroups()
    ensures GroupByDirectory(["a/x", "b/y"]) == [["a/x"], ["b/y"]]
  {
    DirectoryOfChild('a', 'x');
    DirectoryOfChild('b', 'y');
    assert DirectoryKey("a/x")[0] == 'A' && DirectoryKey("b/y")[0] == 'B';
    TwoDirectories("a/x", "b/y");
  }

  lemma LockExampleStatus(f: string)
    ensures RunStatus([f], LockExampleOracles()) == StatusRun(true, [NewFileState(f).(workspaceState := Controlled)], [], [f])
  {
    var o := LockExampleOracles();
    assert [f][1..] == [];
    assert StatusLoop([f][1..], o) == StatusRun(true, [], [], []);
  }

  lemma LockExampleLine()
    ensures ParseFileinfo("7;7;other;ws") == Fileinfo(Known(7), Known(7), "other", "ws")
  {
    assert DecimalText(7) == "7";
    assert FileinfoLine(7, 7, "other", "ws") == "7;7;other;ws";
    FileinfoRoundTrip(7, 7, "other", "ws");
  }

  lemma LockExampleReplies()
    ensures var o := LockExampleOracles();
      && FileinfoFits(o)
      && o.userName == "me" && o.workspaceName == "ws"
      && o.fileinfo(["a/x"]) == Channel.Reply(true, [], [])
      && o.fileinfo(["b/y"]) == Channel.Reply(true, ["7;7;other;ws"], [])
  {
    var o := LockExampleOracles();
    assert FileinfoFits(o);
  }

  /** The example line holds a lock of another user, for the user "me" in the workspace "ws". */
  lemma LockExampleLocked()
    ensures var info := ParseFileinfo("7;7;other;ws");
      LockedElsewhere(info.lockedBy, info.lockedWhere, "me", "ws")
  {
    LockExampleLine();
    assert |Upper("other")| != |Upper("me")|;
  }

  /** The state of a locked file after its `fileinfo` line, and of an unlocked one before. */
  lemma LockExampleApply(f: string, g: string)
    ensures var lines := ["7;7;other;ws"];
      var x := NewFileState(f).(workspaceState := Controlled);
      var y := NewFileState(g).(workspaceState := Controlled);
      && ApplyFileinfoLines([x, y], 0, lines, "me", "ws")[0].workspaceState == LockedByOther
      && ApplyFileinfoLines([x, y], 0, lines, "me", "ws")[1].workspaceState == Controlled
      && ApplyFileinfoLines([y], 0, lines, "me", "ws")[0].workspaceState == LockedByOther
  {
    LockExampleLocked();
    var info := ParseFileinfo("7;7;other;ws");
    var x := NewFileState(f).(workspaceState := Controlled);
    var y := NewFileState(g).(workspaceState := Controlled);
    assert ApplyFileinfo(x, info, "me", "ws").workspaceState == LockedByOther;
    assert ApplyFileinfo(y, info, "me", "ws").workspaceState == LockedByOther;
  }

  /**
   * Two groups of one file each, whose status steps succeed, the first with
   * no `fileinfo` line and the second with one: the states both loops leave.
   */
  lemma TwoGroupLoopsAsWritten(g1: seq<string>, g2: seq<string>, o: Oracles, x: FileState, y: FileState, line: string)
    requires FileinfoFits(o)
    requires RunStatus(g1, o).ok && RunStatus(g1, o).states == [x]
    requires RunStatus(g2, o).ok && RunStatus(g2, o).states == [y]
    requires o.fileinfo(g1) == Channel.Reply(true, [], []) && o.fileinfo(g2) == Channel.Reply(true, [line], [])
    ensures UpdateLoopAsWritten([g1, g2], o, UpdateRun(true, [], [])).states
         == ApplyFileinfoLines([x, y], 0, [line], o.userName, o.workspaceName)
  {
    assert ApplyFileinfoLines([x], 0, [], o.userName, o.workspaceName) == [x];
    SecondGroupLinesAsWritten(g1, g2, o);
    assert [x] + [y] == [x, y];
  }

  lemma TwoGroupLoopsCorrected(g1: seq<string>, g2: seq<string>, o: Oracles, x: FileState, y: FileState, line: string)
    requires FileinfoFits(o)
    requires RunStatus(g1, o).ok && RunStatus(g1, o).states == [x]
    requires RunStatus(g2, o).ok && RunStatus(g2, o).states == [y]
    requires o.fileinfo(g1) == Channel.Reply(true, [], []) && o.fileinfo(g2) == Channel.Reply(true, [line], [])
    ensures UpdateLoop([g1, g2], o, UpdateRun(true, [], [])).states
         == [x] + ApplyFileinfoLines([y], 0, [line], o.userName, o.workspaceName)
  {
    assert ApplyFileinfoLines([x], 0, [], o.userName, o.workspaceName) == [x];
    SecondGroupLinesCorrected(g1, g2, o);
  }

  /** Both loops over the two example groups, with the states they leave. */
  lemma LockExampleLoops()
    ensures var o := LockExampleOracles();
      var init := UpdateRun(true, [], []);
      && UpdateLoopAsWritten([["a/x"], ["b/y"]], o, init).states
         == ApplyFileinfoLines(
              [NewFileState("a/x").(workspaceState := Controlled), NewFileState("b/y").(workspaceState := Controlled)],
              0, ["7;7;other;ws"], "me", "ws")
      && UpdateLoop([["a/x"], ["b/y"]], o, init).states
         == [NewFileState("a/x").(workspaceState := Controlled)]
          + ApplyFileinfoLines([NewFileState("b/y").(workspaceState := Controlled)], 0, ["7;7;other;ws"], "me", "ws")
  {
    LockExampleReplies();
    LockExampleStatus("a/x");
    LockExampleStatus("b/y");
    var x, y := NewFileState("a/x").(workspaceState := Controlled), NewFileState("b/y").(workspaceState := Controlled);
    TwoGroupLoopsAsWritten(["a/x"], ["b/y"], LockExampleOracles(), x, y, "7;7;other;ws");
    TwoGroupLoopsCorrected(["a/x"], ["b/y"], LockExampleOracles(), x, y, "7;7;other;ws");
  }

  /**
   * Two directories, the second holding a file locked by someone else. As
   * written, the lock lands on the file of the first directory; applied at
   * the group's own offset, it lands on the locked file.
   */
  lemma LockLandsOnWrongFile()
    ensures var o := LockExampleOracles();
      && multiset([["a/x"], ["b/y"]]) == multiset(GroupByDirectory(["a/x", "b/y"]))
      && FileinfoFits(o)
      && RunUpdateStatusAsWritten(["a/x", "b/y"], [["a/x"], ["b/y"]], o).states[0].workspaceState == LockedByOther
      && RunUpdateStatusAsWritten(["a/x", "b/y"], [["a/x"], ["b/y"]], o).states[1].workspaceState == Controlled
      && RunUpdateStatus(["a/x", "b/y"], [["a/x"], ["b/y"]], o).states[0].workspaceState == Controlled
      && RunUpdateStatus(["a/x", "b/y"], [["a/x"], ["b/y"]], o).states[1].workspaceState == LockedByOther
  {
    LockExampleGroups();
    LockExampleReplies();
    LockExampleLoops();
    LockExampleApply("a/x", "b/y");
  }
}
