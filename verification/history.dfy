/**
 * Revisions of a file: decoding of one changeset of `cm log --xml` (given
 * here as a typed tree instead of XML text) and the walk over the lines of
 * `cm history --format="{1};{6}"`, newest first.
 */
module History {
  import opened Text

  /** Where a moved file came from. */
  datatype BranchSource = BranchSource(filename: string, revisionNumber: int)

  /**
   * One revision of a file. `date` is the ISO 8601 text handed to the date
   * parser, after the rewrite of its fractional seconds.
   */
  datatype Revision = Revision(
    filename: string,
    revisionNumber: int,
    revision: string,
    changesetNumber: int,
    description: string,
    userName: string,
    date: string,
    action: string,
    branchSource: Option<BranchSource>)

  /** A revision as the history walk creates it, before its changeset is looked up. */
  function NewRevision(changesetNumber: int, revisionNumber: int, revision: string): Revision {
    Revision([], revisionNumber, revision, changesetNumber, [], [], [], [], None)
  }

  // ---------------------------------------------------------------------------
  // Actions
  // ---------------------------------------------------------------------------

  /** `TranslateAction`: the item type of `cm log` as the keyword the editor shows. */
  function TranslateAction(itemType: string): (r: string)
    ensures r == "add" <==> itemType == "Added"
    ensures r == "branch" <==> itemType == "Moved"
    ensures r == "delete" <==> itemType == "Deleted"
    ensures r == "edit" <==> itemType != "Added" && itemType != "Moved" && itemType != "Deleted"
  {
    if itemType == "Added" then "add"
    else if itemType == "Moved" then "branch"
    else if itemType == "Deleted" then "delete"
    else "edit"
  }

  /** The item types `cm log` reports, each mapped to a keyword of its own. */
  lemma TranslateActionInjective(a: string, b: string)
    requires a in {"Added", "Moved", "Deleted", "Changed"} && b in {"Added", "Moved", "Deleted", "Changed"}
    ensures TranslateAction(a) == TranslateAction(b) <==> a == b
  {
  }

  // ---------------------------------------------------------------------------
  // The typed `cm log --xml` tree
  // ---------------------------------------------------------------------------

  /** An `<Item>` of `<Changes>`: each child node may be missing. */
  datatype LogItem = LogItem(
    revId: Option<string>,
    parentRevId: Option<string>,
    srcCmPath: Option<string>,
    dstCmPath: Option<string>,
    itemType: Option<string>)

  /** The first `<Changeset>` of the list: each child node may be missing. */
  datatype LogChangeset = LogChangeset(
    comment: Option<string>,
    owner: Option<string>,
    date: Option<string>,
    changes: Option<seq<LogItem>>)

  /** The root node: its tag and its first `<Changeset>` child, if any. */
  datatype LogRoot = LogRoot(tag: string, changeset: Option<LogChangeset>)

  const LogListTag := "LogList"

  /** The root is a `LogList`: the source compares the tag with an `FString` `!=`, which ignores case. */
  predicate IsLogList(root: LogRoot) {
    EqualsIgnoreCase(root.tag, LogListTag)
  }

  /**
   * `2016-04-18T10:44:49.0000000+02:00` becomes `2016-04-18T10:44:49.000+02:00`:
   * the text without its last 10 characters, then the text without its
   * first 27, both clamped.
   */
  function IsoDate(d: string): (r: string)
    ensures |d| == 33 ==> r == d[..23] + d[27..]
    ensures |d| <= 10 ==> r == []
  {
    LeftChop(d, 10) + RightChop(d, 27)
  }

  lemma IsoDateExample()
    ensures IsoDate("2016-04-18T10:44:49.0000000+02:00") == "2016-04-18T10:44:49.000+02:00"
  {
    var d := "2016-04-18T10:44:49.0000000+02:00";
    assert d[..23] == "2016-04-18T10:44:49.000";
    assert d[27..] == "+02:00";
  }

  // ---------------------------------------------------------------------------
  // Items of the changeset
  // ---------------------------------------------------------------------------

  /** The revision number an item is about: its `RevId`, or -1 without one. */
  function ItemRevision(item: LogItem): int {
    if item.revId.Some? then Atoi(item.revId.value) else -1
  }

  predicate Matches(item: LogItem, n: int) { ItemRevision(item) == n }

  /** A matching item with a destination path sets the file name. */
  predicate SetsFilename(item: LogItem, n: int) { Matches(item, n) && item.dstCmPath.Some? }

  /** A matching item with a type sets the action. */
  predicate SetsAction(item: LogItem, n: int) { Matches(item, n) && item.itemType.Some? }

  /** A matching item records a move when it has a parent revision and a source path other than its destination. */
  predicate SetsBranchSource(item: LogItem, n: int) {
    && SetsFilename(item, n)
    && item.parentRevId.Some? && item.srcCmPath.Some?
    && item.srcCmPath.value != item.dstCmPath.value
  }

  /** One `<Item>` applied to the revision. */
  function ApplyItem(item: LogItem, rev: Revision): (r: Revision)
    ensures r.revisionNumber == rev.revisionNumber && r.revision == rev.revision
    ensures r.changesetNumber == rev.changesetNumber && r.description == rev.description
    ensures r.userName == rev.userName && r.date == rev.date
    ensures r.filename == if SetsFilename(item, rev.revisionNumber) then item.dstCmPath.value else rev.filename
    ensures r.action == if SetsAction(item, rev.revisionNumber) then TranslateAction(item.itemType.value) else rev.action
    ensures r.branchSource ==
      if SetsBranchSource(item, rev.revisionNumber)
      then Some(BranchSource(item.srcCmPath.value, Atoi(item.parentRevId.value)))
      else rev.branchSource
  {
    if !Matches(item, rev.revisionNumber) then rev
    else
      var named :=
        if item.dstCmPath.None? then rev
        else if SetsBranchSource(item, rev.revisionNumber) then
          rev.(filename := item.dstCmPath.value,
               branchSource := Some(BranchSource(item.srcCmPath.value, Atoi(item.parentRevId.value))))
        else rev.(filename := item.dstCmPath.value);
      if item.itemType.Some? then named.(action := TranslateAction(item.itemType.value)) else named
  }

  /** The loop over `<Changes>`: it does not stop at the first match. */
  function ApplyItems(items: seq<LogItem>, rev: Revision): (r: Revision)
    ensures r.revisionNumber == rev.revisionNumber && r.revision == rev.revision
    ensures r.changesetNumber == rev.changesetNumber && r.description == rev.description
    ensures r.userName == rev.userName && r.date == rev.date
    decreases |items|
  {
    if |items| == 0 then rev else ApplyItems(items[1..], ApplyItem(items[0], rev))
  }

  /** Which field of the revision an item sets. */
  datatype Field = Filename | Action | Branch

  predicate Sets(item: LogItem, n: int, field: Field) {
    match field
    case Filename => SetsFilename(item, n)
    case Action => SetsAction(item, n)
    case Branch => SetsBranchSource(item, n)
  }

  /** The index of the last item that sets `field`, if any. */
  function LastSetting(items: seq<LogItem>, n: int, field: Field): (r: Option<nat>)
    ensures r.Some? ==> (r.value < |items| && Sets(items[r.value], n, field)
      && forall j :: r.value < j < |items| ==> !Sets(items[j], n, field))
    ensures r.None? ==> forall j :: 0 <= j < |items| ==> !Sets(items[j], n, field)
  {
    if |items| == 0 then None
    else if Sets(items[|items| - 1], n, field) then Some(|items| - 1)
    else LastSetting(items[..|items| - 1], n, field)
  }

  /** The value a field has after the last item that sets it, or its value before all items. */
  function FieldAfter(items: seq<LogItem>, rev: Revision, field: Field): Revision {
    match LastSetting(items, rev.revisionNumber, field)
    case None => rev
    case Some(i) =>
      var item := items[i];
      match field
      case Filename => rev.(filename := item.dstCmPath.value)
      case Action => rev.(action := TranslateAction(item.itemType.value))
      case Branch => rev.(branchSource := Some(BranchSource(item.srcCmPath.value, Atoi(item.parentRevId.value))))
  }

  /**
   * Among the items about the revision, the last one with a destination path
   * decides the file name, the last one with a type decides the action, and
   * the last move decides the branch source, which no later item clears.
   */
  lemma {:induction false} LastMatchWins(items: seq<LogItem>, rev: Revision)
    ensures ApplyItems(items, rev).filename == FieldAfter(items, rev, Filename).filename
    ensures ApplyItems(items, rev).action == FieldAfter(items, rev, Action).action
    ensures ApplyItems(items, rev).branchSource == FieldAfter(items, rev, Branch).branchSource
    decreases |items|
  {
    if |items| > 0 {
      var init := items[..|items| - 1];
      var last := items[|items| - 1];
      assert init + [last] == items;
      ApplyItemsSnoc(init, last, rev);
      LastMatchWins(init, rev);
      LastSettingSnoc(init, last, rev.revisionNumber, Filename);
      LastSettingSnoc(init, last, rev.revisionNumber, Action);
      LastSettingSnoc(init, last, rev.revisionNumber, Branch);
    }
  }

  lemma LastSettingSnoc(init: seq<LogItem>, last: LogItem, n: int, field: Field)
    ensures LastSetting(init + [last], n, field) == if Sets(last, n, field) then Some(|init|) else LastSetting(init, n, field)
  {
    assert (init + [last])[..|init|] == init;
  }

  lemma {:induction false} ApplyItemsSnoc(items: seq<LogItem>, item: LogItem, rev: Revision)
    ensures ApplyItems(items + [item], rev) == ApplyItem(item, ApplyItems(items, rev))
    decreases |items|
  {
    if |items| > 0 {
      assert (items + [item])[1..] == items[1..] + [item];
      ApplyItemsSnoc(items[1..], item, ApplyItem(items[0], rev));
    } else {
      assert [] + [item] == [item];
    }
  }

  // ---------------------------------------------------------------------------
  // ParseLogResults
  // ---------------------------------------------------------------------------

  /** The description, the owner and the date of the changeset, each when present. */
  function ApplyChangeset(cs: LogChangeset, rev: Revision): (r: Revision)
    ensures r.description == (if cs.comment.Some? then cs.comment.value else rev.description)
    ensures r.userName == (if cs.owner.Some? then cs.owner.value else rev.userName)
    ensures r.date == (if cs.date.Some? then IsoDate(cs.date.value) else rev.date)
    ensures r == rev.(description := r.description, userName := r.userName, date := r.date)
  {
    var described := if cs.comment.Some? then rev.(description := cs.comment.value) else rev;
    var owned := if cs.owner.Some? then described.(userName := cs.owner.value) else described;
    if cs.date.Some? then owned.(date := IsoDate(cs.date.value)) else owned
  }

  /**
   * `ParseLogResults` with the owner read when the `<Owner>` node exists.
   * Without a `LogList` root or a `<Changeset>` nothing changes; without
   * `<Changes>` only the changeset's own fields are read.
   */
  function ParseLogResults(root: Option<LogRoot>, rev: Revision): (r: Revision)
    ensures root.None? || !IsLogList(root.value) || root.value.changeset.None? ==> r == rev
    ensures r.revisionNumber == rev.revisionNumber && r.revision == rev.revision
    ensures r.changesetNumber == rev.changesetNumber
  {
    if root.None? || !IsLogList(root.value) || root.value.changeset.None? then rev
    else
      var cs := root.value.changeset.value;
      var head := ApplyChangeset(cs, rev);
      if cs.changes.None? then head else ApplyItems(cs.changes.value, head)
  }

  /** A decoded changeset: its comment, owner and date are read whether or not it lists changes. */
  lemma ParseLogReadsChangeset(root: LogRoot, rev: Revision)
    requires IsLogList(root) && root.changeset.Some?
    ensures var cs := root.changeset.value;
      var r := ParseLogResults(Some(root), rev);
      && r.description == (if cs.comment.Some? then cs.comment.value else rev.description)
      && r.userName == (if cs.owner.Some? then cs.owner.value else rev.userName)
      && r.date == (if cs.date.Some? then IsoDate(cs.date.value) else rev.date)
  {
  }

  /** A root tag spelled in another case is still a `LogList`: the decoding does not depend on it. */
  lemma LogListTagIgnoresCase(cs: LogChangeset, rev: Revision)
    ensures ParseLogResults(Some(LogRoot("loglist", Some(cs))), rev)
         == ParseLogResults(Some(LogRoot(LogListTag, Some(cs))), rev)
  {
    assert Upper("loglist") == Upper(LogListTag);
  }

  /** The outcome of the source's decoding: a revision, or a null dereference of the missing `<Owner>`. */
  datatype LogOutcome = Decoded(revision: Revision) | NullOwner

  /**
   * `ParseLogResults` as written: the owner is read under the test for the
   * `<Comment>` node, so a comment without an owner dereferences a null
   * node, and an owner without a comment is ignored.
   */
  function ParseLogResultsAsWritten(root: Option<LogRoot>, rev: Revision): (r: LogOutcome)
    ensures root.None? || !IsLogList(root.value) || root.value.changeset.None? ==> r == Decoded(rev)
    ensures r == NullOwner <==>
      root.Some? && IsLogList(root.value) && root.value.changeset.Some?
      && root.value.changeset.value.comment.Some? && root.value.changeset.value.owner.None?
  {
    if root.None? || !IsLogList(root.value) || root.value.changeset.None? then Decoded(rev)
    else
      var cs := root.value.changeset.value;
      var described := if cs.comment.Some? then rev.(description := cs.comment.value) else rev;
      if cs.comment.Some? && cs.owner.None? then NullOwner
      else
        var owned := if cs.comment.Some? then described.(userName := cs.owner.value) else described;
        var head := if cs.date.Some? then owned.(date := IsoDate(cs.date.value)) else owned;
        Decoded(if cs.changes.None? then head else ApplyItems(cs.changes.value, head))
  }

  /** When comment and owner are both present or both absent, the source decodes as intended. */
  lemma AsWrittenAgreesWithCommentAndOwner(root: Option<LogRoot>, rev: Revision)
    requires root.Some? && root.value.changeset.Some? ==>
      root.value.changeset.value.comment.Some? == root.value.changeset.value.owner.Some?
    ensures ParseLogResultsAsWritten(root, rev) == Decoded(ParseLogResults(root, rev))
  {
  }

  /** An owner without a comment: the source keeps the old user name, the intended decoding takes the owner. */
  lemma AsWrittenIgnoresOwner(owner: string, rev: Revision)
    requires owner != rev.userName
    ensures var root := Some(LogRoot(LogListTag, Some(LogChangeset(None, Some(owner), None, None))));
      && ParseLogResultsAsWritten(root, rev) == Decoded(rev)
      && ParseLogResults(root, rev).userName == owner
  {
  }

  // ---------------------------------------------------------------------------
  // ParseHistoryResults
  // ---------------------------------------------------------------------------

  /**
   * `RunLogCommand` for a changeset: `None` when the `log` command fails or
   * its output is not XML, otherwise the root of the document (if any).
   */
  type LogOracle = string -> Option<Option<LogRoot>>

  /** What one history line yields: nothing when it is malformed, else the looked-up revision. */
  datatype Step = Malformed | Looked(ok: bool, revision: Revision)

  function HistoryStep(line: string, log: LogOracle): (r: Step)
    ensures r.Malformed? <==> |Split(line, ";")| != 2
    ensures r.Looked? ==> r.ok == log(Split(line, ";")[0]).Some?
    ensures r.Looked? ==>
      && r.revision.changesetNumber == Atoi(Split(line, ";")[0])
      && r.revision.revisionNumber == Atoi(Split(line, ";")[1])
      && r.revision.revision == Split(line, ";")[1]
    ensures r.Looked? && r.ok ==>
      r.revision == ParseLogResults(log(Split(line, ";")[0]).value,
                                    NewRevision(Atoi(Split(line, ";")[0]), Atoi(Split(line, ";")[1]), Split(line, ";")[1]))
    ensures r.Looked? && !r.ok ==>
      r.revision == NewRevision(Atoi(Split(line, ";")[0]), Atoi(Split(line, ";")[1]), Split(line, ";")[1])
  {
    var infos := Split(line, ";");
    if |infos| != 2 then Malformed
    else
      var rev := NewRevision(Atoi(infos[0]), Atoi(infos[1]), infos[1]);
      match log(infos[0])
      case None => Looked(false, rev)
      case Some(root) => Looked(true, ParseLogResults(root, rev))
  }

  /** A line `{changeset};{revision id}` as `cm history --format="{1};{6}"` prints it. */
  function HistoryLine(changeset: nat, revisionId: nat): string {
    Join([DecimalText(changeset), DecimalText(revisionId)], ";")
  }

  /** Each printed line is well formed and reads back its changeset and revision id. */
  lemma HistoryLineRoundTrip(changeset: nat, revisionId: nat, log: LogOracle)
    ensures var r := HistoryStep(HistoryLine(changeset, revisionId), log);
      && r.Looked?
      && r.revision.changesetNumber == changeset
      && r.revision.revisionNumber == revisionId
      && r.revision.revision == DecimalText(revisionId)
  {
    var infos := Split(HistoryLine(changeset, revisionId), ";");
    HistoryLineFields(changeset, revisionId);
    AtoiDecimalText(changeset);
    AtoiDecimalText(revisionId);
    assert Atoi(infos[0]) == changeset && Atoi(infos[1]) == revisionId;
  }

  /** The two fields of a printed history line. */
  lemma HistoryLineFields(changeset: nat, revisionId: nat)
    ensures Split(HistoryLine(changeset, revisionId), ";") == [DecimalText(changeset), DecimalText(revisionId)]
  {
    var fs := [DecimalText(changeset), DecimalText(revisionId)];
    assert forall i, j :: 0 <= i < |fs| && 0 <= j < |fs[i]| ==> fs[i][j] != ';' by {
      assert AllDigits(fs[0]) && AllDigits(fs[1]);
    }
    PiecesOfJoin(fs, ';');
    NonEmptyKeepsFull(fs);
  }

  datatype HistoryRun = HistoryRun(ok: bool, history: seq<Revision>)

  /**
   * The walk of `ParseHistoryResults` for any per-line step: the lines are
   * walked from the last to the first; a malformed line stops the walk
   * without an entry, a failed lookup stops it after its entry.
   */
  function Walk(lines: seq<string>, step: string -> Step): (r: HistoryRun)
    ensures |r.history| <= |lines|
    ensures r.ok ==> |r.history| == |lines|
    decreases |lines|
  {
    if |lines| == 0 then HistoryRun(true, [])
    else
      match step(lines[|lines| - 1])
      case Malformed => HistoryRun(false, [])
      case Looked(ok, rev) =>
        if !ok then HistoryRun(false, [rev])
        else
          var rest := Walk(lines[..|lines| - 1], step);
          HistoryRun(rest.ok, [rev] + rest.history)
  }

  /** A line that is well formed and whose lookup succeeds. */
  predicate Complete(line: string, step: string -> Step) {
    step(line).Looked? && step(line).ok
  }

  /**
   * The entries come from the last lines, newest first: line `i` yields
   * entry `n-1-i`, and every line before the earliest one reached is
   * complete.
   */
  lemma {:induction false} WalkEntries(lines: seq<string>, step: string -> Step)
    ensures var r := Walk(lines, step);
      forall i :: |lines| - |r.history| <= i < |lines| ==>
        && step(lines[i]).Looked?
        && step(lines[i]).revision == r.history[|lines| - 1 - i]
        && (|lines| - |r.history| < i ==> step(lines[i]).ok)
    decreases |lines|
  {
    if |lines| > 0 {
      var init := lines[..|lines| - 1];
      var first := step(lines[|lines| - 1]);
      if first.Looked? && first.ok {
        WalkEntries(init, step);
        assert forall i :: 0 <= i < |init| ==> init[i] == lines[i];
      }
    }
  }

  /** The walk succeeds exactly when every line is complete. */
  lemma {:induction false} WalkOk(lines: seq<string>, step: string -> Step)
    ensures Walk(lines, step).ok <==> forall k :: 0 <= k < |lines| ==> Complete(lines[k], step)
    decreases |lines|
  {
    if |lines| > 0 {
      var init := lines[..|lines| - 1];
      WalkOk(init, step);
      assert forall k :: 0 <= k < |init| ==> init[k] == lines[k];
    }
  }

  /**
   * A walk that fails stopped either at a malformed line, which has no entry,
   * or at a failed lookup, which is the last entry.
   */
  lemma {:induction false} WalkStops(lines: seq<string>, step: string -> Step)
    ensures var r := Walk(lines, step);
      !r.ok ==>
        || (|r.history| < |lines| && step(lines[|lines| - 1 - |r.history|]).Malformed?)
        || (0 < |r.history| && !Complete(lines[|lines| - |r.history|], step))
    decreases |lines|
  {
    if |lines| > 0 {
      var init := lines[..|lines| - 1];
      var first := step(lines[|lines| - 1]);
      if first.Looked? && first.ok {
        WalkStops(init, step);
        var rest := Walk(init, step);
        if |rest.history| < |init| {
          assert lines[|lines| - 1 - (|rest.history| + 1)] == init[|init| - 1 - |rest.history|];
        }
        if 0 < |rest.history| {
          assert lines[|lines| - (|rest.history| + 1)] == init[|init| - |rest.history|];
        }
      }
    }
  }

  /** Adding a line in front of the others: it is reached last, and only if the walk has not stopped. */
  lemma {:induction false} WalkCons(line: string, rest: seq<string>, step: string -> Step)
    ensures Walk([line] + rest, step) ==
      var r := Walk(rest, step);
      if !r.ok then r
      else match step(line)
        case Malformed => HistoryRun(false, r.history)
        case Looked(ok, rev) => HistoryRun(ok, r.history + [rev])
    decreases |rest|
  {
    var lines := [line] + rest;
    if |rest| == 0 {
      assert lines[..|lines| - 1] == [];
    } else {
      var init := rest[..|rest| - 1];
      assert lines[..|lines| - 1] == [line] + init;
      assert lines[|lines| - 1] == rest[|rest| - 1];
      WalkCons(line, init, step);
    }
  }

  /** The step of the history walk: split the line, then look its changeset up. */
  function LogStep(log: LogOracle): string -> Step {
    line => HistoryStep(line, log)
  }

  /**
   * `ParseHistoryResults`: the walk with the source's step. What the walk
   * promises for any step is stated by `WalkEntries`, `WalkOk` and
   * `WalkStops`.
   */
  function ParseHistoryResults(lines: seq<string>, log: LogOracle): (r: HistoryRun)
    ensures |r.history| <= |lines|
    ensures r.ok ==> |r.history| == |lines|
    ensures |lines| == 0 ==> r == HistoryRun(true, [])
  {
    Walk(lines, LogStep(log))
  }

  /** The walk as the source writes it: a loop from the last line down, guarded by the result so far. */
  method WalkHistory(lines: seq<string>, step: string -> Step) returns (ok: bool, history: seq<Revision>)
    ensures HistoryRun(ok, history) == Walk(lines, step)
  {
    ok := true;
    history := [];
    var index := |lines|;
    while index > 0
      invariant 0 <= index <= |lines|
      invariant HistoryRun(ok, history) == Walk(lines[index..], step)
    {
      index := index - 1;
      WalkCons(lines[index], lines[index + 1..], step);
      assert lines[index..] == [lines[index]] + lines[index + 1..];
      if ok {
        match step(lines[index])
        case Malformed =>
          ok := false;
        case Looked(found, rev) =>
          ok := found;
          history := history + [rev];
      }
    }
    assert lines[0..] == lines;
  }
}
