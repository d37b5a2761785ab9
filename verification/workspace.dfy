/**
 * Locating the workspace: the search for the nearest directory holding a
 * `.plastic` subdirectory, and the decoding of the repository
 * specification `cs:41@rep:UE4PlasticPlugin@repserver:localhost:8087`
 * that `cm status --nochanges` prints for the workspace root.
 */
module Workspace {
  import opened Text
  import Channel

  // ---------------------------------------------------------------------------
  // FindRootDirectory
  // ---------------------------------------------------------------------------

  /** The path without any trailing `c`. */
  function TrimTrailing(s: string, c: char): (r: string)
    ensures r <= s
    ensures |r| == 0 || r[|r| - 1] != c
    ensures forall i :: |r| <= i < |s| ==> s[i] == c
  {
    if |s| > 0 && s[|s| - 1] == c then TrimTrailing(s[..|s| - 1], c) else s
  }

  /** `FindLastChar`: the index of the last `c`, if any. */
  function LastIndexOf(s: string, c: char): (r: Option<nat>)
    ensures r.Some? ==> r.value < |s| && s[r.value] == c && forall j :: r.value < j < |s| ==> s[j] != c
    ensures r.None? ==> forall j :: 0 <= j < |s| ==> s[j] != c
  {
    if |s| == 0 then None
    else if s[|s| - 1] == c then Some(|s| - 1)
    else LastIndexOf(s[..|s| - 1], c)
  }

  /** One step up: the path before its last '/', or the empty path when there is none. */
  function Parent(path: string): (r: string)
    requires |path| > 0
    ensures r < path
  {
    match LastIndexOf(path, '/')
    case Some(i) => path[..i]
    case None => []
  }

  /** The path of the `.plastic` subdirectory of a directory. */
  function PlasticDirectory(dir: string): string {
    dir + "/.plastic"
  }

  /** The directories tried in turn, from the trimmed path up to the last non-empty ancestor. */
  function Candidates(path: string): (r: seq<string>)
    ensures forall k :: 0 <= k < |r| ==> |r[k]| > 0 && r[k] <= path
    ensures |path| > 0 ==> |r| > 0 && r[0] == path
    decreases |path|
  {
    if |path| == 0 then [] else [path] + Candidates(Parent(path))
  }

  /** The first index of `dirs` whose `.plastic` subdirectory exists. */
  function FirstWorkspace(dirs: seq<string>, dirExists: string -> bool): (r: Option<nat>)
    ensures r.Some? ==> r.value < |dirs| && dirExists(PlasticDirectory(dirs[r.value]))
    ensures r.Some? ==> forall j :: 0 <= j < r.value ==> !dirExists(PlasticDirectory(dirs[j]))
    ensures r.None? ==> forall j :: 0 <= j < |dirs| ==> !dirExists(PlasticDirectory(dirs[j]))
  {
    if |dirs| == 0 then None
    else if dirExists(PlasticDirectory(dirs[0])) then Some(0)
    else match FirstWorkspace(dirs[1..], dirExists)
      case None => None
      case Some(k) => Some(k + 1)
  }

  datatype RootSearch = RootSearch(found: bool, root: string)

  /** The path the search starts from: trailing '\' removed, then trailing '/'. */
  function Trimmed(path: string): (r: string)
    ensures r <= path
  {
    TrimTrailing(TrimTrailing(path, '\\'), '/')
  }

  /** The search loop of `FindRootDirectory`, one candidate at a time. */
  function Search(dir: string, dirExists: string -> bool): (r: Option<string>)
    ensures r.Some? ==> 0 < |r.value| && r.value <= dir && dirExists(PlasticDirectory(r.value))
    ensures 0 < |dir| && dirExists(PlasticDirectory(dir)) ==> r == Some(dir)
    ensures |dir| == 0 ==> r.None?
    decreases |dir|
  {
    if |dir| == 0 then None
    else if dirExists(PlasticDirectory(dir)) then Some(dir)
    else Search(Parent(dir), dirExists)
  }

  /**
   * `FindRootDirectory`: true with the nearest candidate whose `.plastic`
   * subdirectory exists, else false with the path as given.
   */
  function FindRootDirectory(path: string, dirExists: string -> bool): (r: RootSearch)
    ensures var dirs := Candidates(Trimmed(path));
      match FirstWorkspace(dirs, dirExists)
      case Some(k) => r == RootSearch(true, dirs[k])
      case None => r == RootSearch(false, path)
    ensures r.found ==> r.root <= path && dirExists(PlasticDirectory(r.root))
  {
    SearchIsFirstWorkspace(Trimmed(path), dirExists);
    match Search(Trimmed(path), dirExists)
    case Some(root) => RootSearch(true, root)
    case None => RootSearch(false, path)
  }

  /** The recursive search finds the first candidate with a `.plastic` subdirectory. */
  lemma {:induction false} SearchIsFirstWorkspace(dir: string, dirExists: string -> bool)
    ensures var dirs := Candidates(dir);
      match FirstWorkspace(dirs, dirExists)
      case Some(k) => Search(dir, dirExists) == Some(dirs[k])
      case None => Search(dir, dirExists) == None
    decreases |dir|
  {
    if |dir| > 0 {
      var dirs := Candidates(dir);
      var rest := Candidates(Parent(dir));
      assert dirs == [dir] + rest;
      if !dirExists(PlasticDirectory(dir)) {
        SearchIsFirstWorkspace(Parent(dir), dirExists);
        assert dirs[1..] == rest;
        match FirstWorkspace(rest, dirExists)
        case Some(k) =>
          assert dirs[k + 1] == rest[k];
        case None =>
      }
    }
  }

  /** The loop as the source writes it, over a mutable root. */
  method FindRootDirectoryLoop(path: string, dirExists: string -> bool) returns (found: bool, root: string)
    ensures RootSearch(found, root) == FindRootDirectory(path, dirExists)
  {
    root := Trimmed(path);
    found := false;
    while !found && |root| > 0
      invariant Search(Trimmed(path), dirExists) == if found then Some(root) else Search(root, dirExists)
      decreases |root|, if found then 0 else 1
    {
      found := dirExists(PlasticDirectory(root));
      if !found {
        match LastIndexOf(root, '/')
        case Some(i) =>
          root := root[..i];
        case None =>
          root := [];
      }
    }
    if !found {
      root := path;
    }
  }

  // ---------------------------------------------------------------------------
  // GetRepositorySpecification
  // ---------------------------------------------------------------------------

  const RepPrefix := "rep:"
  const ServerPrefix := "repserver:"

  /** The repository name and server URL, and whether the workspace status could be read. */
  datatype RepositorySpec = RepositorySpec(ok: bool, repositoryName: string, serverUrl: string)

  /** The source's outcome: a specification, or an index past the end of the split fields. */
  datatype SpecOutcome = Read(spec: RepositorySpec) | IndexOutOfRange

  /**
   * `GetRepositorySpecification` as written, on the reply of the `status`
   * command: the guard `3 >= Num` lets one or two fields through to an
   * index past the end, and rejects four or more.
   */
  function GetRepositorySpecificationAsWritten(reply: Channel.Reply, prev: RepositorySpec): (r: SpecOutcome)
    ensures !reply.success ==> r == Read(prev.(ok := false))
    ensures reply.success && |reply.lines| > 0 ==>
      (r == IndexOutOfRange <==> |Split(reply.lines[0], "@")| < 3)
  {
    if !reply.success then Read(prev.(ok := false))
    else if |reply.lines| == 0 then Read(prev.(ok := true))
    else
      var fields := Split(reply.lines[0], "@");
      if 3 >= |fields| then
        if |fields| < 3 then IndexOutOfRange
        else Read(RepositorySpec(true, RightChop(fields[1], |RepPrefix|), RightChop(fields[2], |ServerPrefix|)))
      else Read(prev.(ok := false))
  }

  /**
   * `GetRepositorySpecification` with the guard `3 <= Num`: the name and
   * URL are read from the second and third fields whenever they exist.
   */
  function GetRepositorySpecification(reply: Channel.Reply, prev: RepositorySpec): (r: RepositorySpec)
    ensures !reply.success ==> r == prev.(ok := false)
    ensures reply.success && |reply.lines| == 0 ==> r == prev.(ok := true)
    ensures reply.success && |reply.lines| > 0 ==> (r.ok <==> |Split(reply.lines[0], "@")| >= 3)
    ensures !r.ok ==> r.repositoryName == prev.repositoryName && r.serverUrl == prev.serverUrl
  {
    if !reply.success then prev.(ok := false)
    else if |reply.lines| == 0 then prev.(ok := true)
    else
      var fields := Split(reply.lines[0], "@");
      if 3 <= |fields| then RepositorySpec(true, RightChop(fields[1], |RepPrefix|), RightChop(fields[2], |ServerPrefix|))
      else prev.(ok := false)
  }

  predicate NoAt(s: string) { forall i :: 0 <= i < |s| ==> s[i] != '@' }

  /** The line `cm status --nochanges` prints for a workspace. */
  function SpecLine(changeset: string, name: string, url: string): string {
    Join(["cs:" + changeset, RepPrefix + name, ServerPrefix + url], "@")
  }

  /** The intended decoding reads back the repository name and server URL of a printed line. */
  lemma SpecRoundTrip(changeset: string, name: string, url: string, prev: RepositorySpec)
    requires NoAt(changeset) && NoAt(name) && NoAt(url)
    ensures GetRepositorySpecification(Channel.Reply(true, [SpecLine(changeset, name, url)], []), prev)
         == RepositorySpec(true, name, url)
  {
    var fs := ["cs:" + changeset, RepPrefix + name, ServerPrefix + url];
    assert forall i, j :: 0 <= i < |fs| && 0 <= j < |fs[i]| ==> fs[i][j] != '@' by {
      forall i, j | 0 <= i < |fs| && 0 <= j < |fs[i]|
        ensures fs[i][j] != '@'
      {
        if i == 0 && j >= 3 { assert fs[0][j] == changeset[j - 3]; }
        if i == 1 && j >= 4 { assert fs[1][j] == name[j - 4]; }
        if i == 2 && j >= 10 { assert fs[2][j] == url[j - 10]; }
      }
    }
    PiecesOfJoin(fs, '@');
    NonEmptyKeepsFull(fs);
    assert (RepPrefix + name)[|RepPrefix|..] == name;
    assert (ServerPrefix + url)[|ServerPrefix|..] == url;
  }

  /**
   * As written, any status line of two fields, such as
   * `cs:41@rep:UE4PlasticPlugin`, reads past the end of its fields.
   */
  lemma AsWrittenOutOfRange(first: string, second: string, prev: RepositorySpec)
    requires |first| > 0 && |second| > 0 && NoAt(first) && NoAt(second)
    ensures GetRepositorySpecificationAsWritten(Channel.Reply(true, [first + "@" + second], []), prev)
         == IndexOutOfRange
  {
    PiecesAfterField(first, '@', second);
    PiecesOfField(second, '@');
    NonEmptyKeepsFull([first, second]);
  }

  /** On three fields, the source and the intended decoding agree. */
  lemma AsWrittenAgreesOnThreeFields(reply: Channel.Reply, prev: RepositorySpec)
    requires reply.success && |reply.lines| > 0 && |Split(reply.lines[0], "@")| == 3
    ensures GetRepositorySpecificationAsWritten(reply, prev) == Read(GetRepositorySpecification(reply, prev))
  {
  }
}
