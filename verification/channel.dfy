/**
 * The request/response protocol with the long-lived `cm shell` process:
 * how one command line is framed, how the reply is read chunk by chunk until
 * the `CommandResult <code>` sentinel line appears, and how the raw reply is
 * turned into success, output and error text (`RunCommandInternal`) and then
 * into arrays of lines (`RunCommand`).
 *
 * The process itself is not modelled: what the shell writes back is given as
 * the sequence of chunks its output pipe yields before the process stops.
 */
module Channel {
  import opened Text

  /** The platform decides the line terminator of the shell's output. */
  datatype Platform = Windows | Posix

  /** A line terminator: ends with a line feed, has no other line feed and no 'C'. */
  predicate LineDelimiter(d: string) {
    && |d| > 0
    && d[|d| - 1] == '\n'
    && (forall i :: 0 <= i < |d| - 1 ==> d[i] != '\n')
    && (forall i :: 0 <= i < |d| ==> d[i] != 'C')
  }

  function Delimiter(p: Platform): (d: string)
    ensures LineDelimiter(d) && FirstCharUnique(d)
  {
    match p
    case Windows => "\r\n"
    case Posix => "\n"
  }

  // ---------------------------------------------------------------------------
  // Framing of the command line
  // ---------------------------------------------------------------------------

  /** Every parameter, each preceded by one space. */
  function SpacedParameters(ps: seq<string>): string {
    if |ps| == 0 then [] else " " + ps[0] + SpacedParameters(ps[1..])
  }

  /** Every file path, each preceded by a space and wrapped in double quotes (no escaping). */
  function QuotedFiles(fs: seq<string>): string {
    if |fs| == 0 then [] else " \"" + fs[0] + "\"" + QuotedFiles(fs[1..])
  }

  /** The line written to the shell's input pipe. */
  function CommandLine(command: string, ps: seq<string>, fs: seq<string>): string {
    command + SpacedParameters(ps) + QuotedFiles(fs) + "\n"
  }

  lemma {:induction false} SpacedParametersSnoc(ps: seq<string>, p: string)
    ensures SpacedParameters(ps + [p]) == SpacedParameters(ps) + " " + p
  {
    if |ps| > 0 {
      assert (ps + [p])[1..] == ps[1..] + [p];
      SpacedParametersSnoc(ps[1..], p);
    } else {
      assert (ps + [p])[1..] == [];
    }
  }

  lemma {:induction false} QuotedFilesSnoc(fs: seq<string>, f: string)
    ensures QuotedFiles(fs + [f]) == QuotedFiles(fs) + " \"" + f + "\""
  {
    if |fs| > 0 {
      assert (fs + [f])[1..] == fs[1..] + [f];
      QuotedFilesSnoc(fs[1..], f);
    } else {
      assert (fs + [f])[1..] == [];
    }
  }

  /**
   * The command line as `RunCommandInternal` builds it: append the parameters
   * one by one, then the quoted files one by one, then the final line feed.
   */
  method BuildCommandLine(command: string, ps: seq<string>, fs: seq<string>) returns (line: string)
    ensures line == command + SpacedParameters(ps) + QuotedFiles(fs) + "\n"
  {
    line := command;
    var i := 0;
    while i < |ps|
      invariant 0 <= i <= |ps|
      invariant line == command + SpacedParameters(ps[..i])
    {
      SpacedParametersSnoc(ps[..i], ps[i]);
      assert ps[..i + 1] == ps[..i] + [ps[i]];
      line := line + " " + ps[i];
      i := i + 1;
    }
    assert ps[..i] == ps;
    var j := 0;
    while j < |fs|
      invariant 0 <= j <= |fs|
      invariant line == command + SpacedParameters(ps) + QuotedFiles(fs[..j])
    {
      QuotedFilesSnoc(fs[..j], fs[j]);
      assert fs[..j + 1] == fs[..j] + [fs[j]];
      line := line + " \"" + fs[j] + "\"";
      j := j + 1;
    }
    assert fs[..j] == fs;
    line := line + "\n";
  }

  predicate NoLineFeed(s: string) { forall i :: 0 <= i < |s| ==> s[i] != '\n' }

  lemma {:induction false} SpacedParametersNoLineFeed(ps: seq<string>)
    requires forall k :: 0 <= k < |ps| ==> NoLineFeed(ps[k])
    ensures NoLineFeed(SpacedParameters(ps))
  {
    if |ps| > 0 {
      SpacedParametersNoLineFeed(ps[1..]);
    }
  }

  lemma {:induction false} QuotedFilesNoLineFeed(fs: seq<string>)
    requires forall k :: 0 <= k < |fs| ==> NoLineFeed(fs[k])
    ensures NoLineFeed(QuotedFiles(fs))
  {
    if |fs| > 0 {
      QuotedFilesNoLineFeed(fs[1..]);
    }
  }

  /**
   * When neither the command, a parameter nor a file holds a line feed, the
   * sent line holds exactly one, as its last character: one command per line.
   */
  lemma OneCommandPerLine(command: string, ps: seq<string>, fs: seq<string>)
    requires NoLineFeed(command)
    requires forall k :: 0 <= k < |ps| ==> NoLineFeed(ps[k])
    requires forall k :: 0 <= k < |fs| ==> NoLineFeed(fs[k])
    ensures var line := CommandLine(command, ps, fs);
      forall i :: 0 <= i < |line| ==> (line[i] == '\n' <==> i == |line| - 1)
  {
    SpacedParametersNoLineFeed(ps);
    QuotedFilesNoLineFeed(fs);
  }

  // ---------------------------------------------------------------------------
  // The sentinel line `CommandResult <code><delimiter>`
  // ---------------------------------------------------------------------------

  const Marker: string := "CommandResult "

  /** Where the sentinel starts and where its exit-code text ends. */
  datatype Sentinel = Sentinel(at: nat, codeEnd: nat)

  /** `k` is the start of the last marker in `buf`. */
  ghost predicate LastMarkerAt(buf: string, k: nat) {
    OccursAt(buf, Marker, k) && forall k2: nat :: k < k2 ==> !OccursAt(buf, Marker, k2)
  }

  /**
   * Find the last marker in the buffer, then the first delimiter at or after
   * the end of the marker. Both must be present for the reply to be complete.
   */
  function ScanSentinel(buf: string, delim: string): (r: Option<Sentinel>)
    requires |delim| > 0
    ensures r.Some? ==> LastMarkerAt(buf, r.value.at)
    ensures r.Some? ==> r.value.at + |Marker| <= r.value.codeEnd && OccursAt(buf, delim, r.value.codeEnd)
    ensures r.Some? ==> forall j: nat :: r.value.at + |Marker| <= j < r.value.codeEnd ==> !OccursAt(buf, delim, j)
    ensures r.None? ==> forall k: nat, j: nat :: LastMarkerAt(buf, k) && k + |Marker| <= j ==> !OccursAt(buf, delim, j)
  {
    match FindLast(buf, Marker)
    case None => None
    case Some(at) =>
      match FindFrom(buf, delim, at + |Marker|)
      case None => None
      case Some(e) => Some(Sentinel(at, e))
  }

  /** The read loop's state: still accumulating output, or finished. */
  datatype ReadState = Reading(buffer: string) | Done(success: bool, output: string)

  /**
   * One iteration of the read loop. An empty read changes nothing; a
   * non-empty one is appended and the buffer is rescanned. Once the sentinel
   * is complete, success is an exit code of 0 and the output is the buffer
   * cut at the marker.
   */
  function Feed(st: ReadState, chunk: string, delim: string): (r: ReadState)
    requires |delim| > 0
    ensures st.Done? || |chunk| == 0 ==> r == st
    ensures st.Reading? && |chunk| > 0 ==>
      (r.Reading? <==> ScanSentinel(st.buffer + chunk, delim).None?)
    ensures st.Reading? && r.Reading? ==> r.buffer == st.buffer + chunk
    ensures st.Reading? && r.Done? ==> OccursAt(st.buffer + chunk, Marker, |r.output|)
  {
    match st
    case Done(_, _) => st
    case Reading(buf) =>
      if |chunk| == 0 then st
      else
        var b := buf + chunk;
        match ScanSentinel(b, delim)
        case None => Reading(b)
        case Some(s) => Done(Atoi(b[s.at + |Marker|..s.codeEnd]) == 0, b[..s.at])
  }

  /** The read loop over every chunk the pipe yields while the process runs. */
  function ReadAll(chunks: seq<string>, delim: string): (r: ReadState)
    requires |delim| > 0
    ensures r.Reading? ==> r.buffer == Concat(chunks)
  {
    if |chunks| == 0 then Reading([])
    else Feed(ReadAll(chunks[..|chunks| - 1], delim), chunks[|chunks| - 1], delim)
  }

  /** All chunks, in the order they were read. */
  function Concat(chunks: seq<string>): string {
    if |chunks| == 0 then [] else Concat(chunks[..|chunks| - 1]) + chunks[|chunks| - 1]
  }

  /** A finished read stays finished, whatever is read afterwards. */
  lemma {:induction false} DoneIsFinal(chunks: seq<string>, i: nat, delim: string)
    requires |delim| > 0 && i <= |chunks|
    requires ReadAll(chunks[..i], delim).Done?
    ensures ReadAll(chunks, delim) == ReadAll(chunks[..i], delim)
    decreases |chunks| - i
  {
    if i < |chunks| {
      assert chunks[..i + 1][..i] == chunks[..i];
      DoneIsFinal(chunks, i + 1, delim);
    } else {
      assert chunks[..i] == chunks;
    }
  }

  /**
   * The read loop of `RunCommandInternal`: it leaves as soon as the sentinel
   * is complete, or when the process stops (the chunks run out).
   */
  method ReadResponse(chunks: seq<string>, delim: string) returns (found: bool, success: bool, buffer: string)
    requires |delim| > 0
    ensures found ==> ReadAll(chunks, delim) == Done(success, buffer)
    ensures !found ==> ReadAll(chunks, delim) == Reading(buffer) && !success
  {
    found, success, buffer := false, false, [];
    var i := 0;
    while i < |chunks|
      invariant 0 <= i <= |chunks|
      invariant ReadAll(chunks[..i], delim) == Reading(buffer)
      invariant !success
    {
      assert chunks[..i + 1][..i] == chunks[..i];
      var chunk := chunks[i];
      i := i + 1;
      if 0 < |chunk| {
        buffer := buffer + chunk;
        var scan := ScanSentinel(buffer, delim);
        if scan.Some? {
          var s := scan.value;
          success := Atoi(buffer[s.at + |Marker|..s.codeEnd]) == 0;
          buffer := buffer[..s.at];
          found := true;
          DoneIsFinal(chunks, i, delim);
          return;
        }
      }
    }
    assert chunks[..i] == chunks;
  }

  // ---------------------------------------------------------------------------
  // Chunking does not matter for a well-framed reply
  // ---------------------------------------------------------------------------

  /** The whole reply: output, sentinel marker, exit-code text, terminator. */
  function Stream(out: string, code: string, d: string): string {
    out + Marker + code + d
  }

  /** The output holds no marker; the code text holds no 'C' and no line feed. */
  predicate WellFramed(out: string, code: string, d: string) {
    && LineDelimiter(d)
    && !Contains(out, Marker)
    && (forall i :: 0 <= i < |code| ==> code[i] != 'C' && code[i] != '\n')
  }

  lemma MarkerChars()
    ensures |Marker| == 14 && Marker[0] == 'C'
    ensures forall j :: 1 <= j < |Marker| ==> Marker[j] != 'C' && Marker[j] != '\n'
  {
  }

  /** Within a prefix of a string, occurrences are those of the whole that fit. */
  lemma OccursInPrefix(s: string, n: nat, pat: string, k: nat)
    requires n <= |s|
    ensures OccursAt(s[..n], pat, k) <==> OccursAt(s, pat, k) && k + |pat| <= n
  {
    if k + |pat| <= n {
      assert s[..n][k..k + |pat|] == s[k..k + |pat|];
    }
  }

  /** The only marker of a well-framed reply is the sentinel's own. */
  lemma OnlyMarker(out: string, code: string, d: string, k: nat)
    requires WellFramed(out, code, d)
    ensures k != |out| ==> !OccursAt(Stream(out, code, d), Marker, k)
  {
    var s := Stream(out, code, d);
    MarkerChars();
    assert s[|out|] == 'C';
    if k != |out| && k + 14 <= |s| {
      if k + 14 <= |out| {
        assert s[k..k + 14] == out[k..k + 14];
        assert !OccursAt(out, Marker, k);
      } else if k < |out| {
        assert s[k..k + 14][|out| - k] == s[|out|];
      } else if k < |out| + 14 {
        assert s[k..k + 14][0] == s[k] == Marker[k - |out|];
      } else if k < |out| + 14 + |code| {
        assert s[k..k + 14][0] == s[k] == code[k - |out| - 14];
      } else {
        assert s[k..k + 14][0] == s[k] == d[k - |out| - 14 - |code|];
      }
    }
  }

  /** Past the marker, the only line feed of a well-framed reply is its last character. */
  lemma NoEarlyDelimiter(out: string, code: string, d: string, n: nat, j: nat)
    requires WellFramed(out, code, d)
    requires n <= |Stream(out, code, d)| && |out| + 14 <= j
    requires j + |d| < |Stream(out, code, d)|
    ensures !OccursAt(Stream(out, code, d)[..n], d, j)
  {
    var s := Stream(out, code, d);
    MarkerChars();
    OccursInPrefix(s, n, d, j);
    var e := j + |d| - 1;
    if e < |out| + 14 + |code| {
      assert s[e] == code[e - |out| - 14];
    } else {
      assert s[e] == d[e - |out| - 14 - |code|];
    }
    assert s[j..j + |d|][|d| - 1] == s[e];
  }

  /** Scanning any prefix of a well-framed reply finds the sentinel only once it is whole. */
  lemma ScanPrefix(out: string, code: string, d: string, n: nat)
    requires WellFramed(out, code, d)
    requires n <= |Stream(out, code, d)|
    ensures var s := Stream(out, code, d);
      ScanSentinel(s[..n], d) == if n == |s| then Some(Sentinel(|out|, |s| - |d|)) else None
  {
    PrefixLastMarker(out, code, d, n);
    if |out| + 14 <= n {
      PrefixDelimiter(out, code, d, n);
    }
  }

  /** A prefix of a well-framed reply shows the sentinel's marker as its last once the marker is whole. */
  lemma PrefixLastMarker(out: string, code: string, d: string, n: nat)
    requires WellFramed(out, code, d)
    requires n <= |Stream(out, code, d)|
    ensures FindLast(Stream(out, code, d)[..n], Marker) == if n < |out| + 14 then None else Some(|out|)
  {
    var s := Stream(out, code, d);
    var b := s[..n];
    MarkerChars();
    forall k: nat
      ensures k != |out| ==> !OccursAt(b, Marker, k)
    {
      OnlyMarker(out, code, d, k);
      OccursInPrefix(s, n, Marker, k);
    }
    OccursInPrefix(s, n, Marker, |out|);
    if |out| + 14 <= n {
      assert s[|out|..|out| + 14] == Marker;
      assert OccursAt(b, Marker, |out|);
    }
  }

  /** Past the marker, a prefix of a well-framed reply shows a delimiter only once it is the whole reply. */
  lemma PrefixDelimiter(out: string, code: string, d: string, n: nat)
    requires WellFramed(out, code, d)
    requires |out| + 14 <= n <= |Stream(out, code, d)|
    ensures var s := Stream(out, code, d);
      FindFrom(s[..n], d, |out| + 14) == if n == |s| then Some(|s| - |d|) else None
  {
    var s := Stream(out, code, d);
    var b := s[..n];
    forall j: nat | |out| + 14 <= j && j + |d| < |s|
      ensures !OccursAt(b, d, j)
    {
      NoEarlyDelimiter(out, code, d, n, j);
    }
    if n == |s| {
      assert b == s;
      assert s[|s| - |d|..] == d;
      assert OccursAt(b, d, |s| - |d|);
    }
  }

  /** Every prefix read so far is still being accumulated until the whole reply is in. */
  lemma {:induction false} ReadPrefix(out: string, code: string, d: string, chunks: seq<string>)
    requires WellFramed(out, code, d)
    requires Concat(chunks) <= Stream(out, code, d)
    ensures var s := Stream(out, code, d);
      ReadAll(chunks, d) == if |Concat(chunks)| == |s| then Done(Atoi(code) == 0, out) else Reading(Concat(chunks))
    decreases |chunks|
  {
    var s := Stream(out, code, d);
    if |chunks| > 0 {
      var init := chunks[..|chunks| - 1];
      var c := chunks[|chunks| - 1];
      var p := Concat(init);
      assert Concat(chunks) == p + c;
      assert p <= s;
      ReadPrefix(out, code, d, init);
      if |p| < |s| && |c| > 0 {
        var b := p + c;
        assert b == s[..|b|];
        ScanPrefix(out, code, d, |b|);
        if |b| == |s| {
          assert b == s;
          assert b[|out| + 14..|s| - |d|] == code;
          assert b[..|out|] == out;
        }
      }
    }
  }

  /**
   * However the pipe splits a well-framed reply into chunks, the read loop
   * ends with success exactly when the exit code reads as 0, and with the
   * output before the marker.
   */
  lemma ChunkingIrrelevant(out: string, code: string, d: string, chunks: seq<string>)
    requires WellFramed(out, code, d)
    requires Concat(chunks) == Stream(out, code, d)
    ensures ReadAll(chunks, d) == Done(Atoi(code) == 0, out)
  {
    ReadPrefix(out, code, d, chunks);
  }

  /** A reply that never shows the marker leaves the loop still reading, holding all of it. */
  lemma {:induction false} NoMarkerKeepsReading(chunks: seq<string>, d: string)
    requires |d| > 0
    requires !Contains(Concat(chunks), Marker)
    ensures ReadAll(chunks, d) == Reading(Concat(chunks))
    decreases |chunks|
  {
    if |chunks| > 0 {
      var init := chunks[..|chunks| - 1];
      var c := chunks[|chunks| - 1];
      var p := Concat(init);
      assert Concat(chunks) == p + c;
      forall k: nat | k <= |p|
        ensures !OccursAt(p, Marker, k)
      {
        if k + |Marker| <= |p| {
          assert (p + c)[k..k + |Marker|] == p[k..k + |Marker|];
          assert !OccursAt(p + c, Marker, k);
        }
      }
      NoMarkerKeepsReading(init, d);
    }
  }

  // ---------------------------------------------------------------------------
  // RunCommandInternal and RunCommand
  // ---------------------------------------------------------------------------

  /**
   * The shell as seen by one call: not running (no valid process handle), or
   * running and yielding these chunks before it stops. A shell found stopped
   * at entry is restarted by the source before the command is sent; the
   * chunks are then those of the restarted shell.
   */
  datatype Shell = NotRunning | Running(chunks: seq<string>)

  /** What one command yields: success, output, error text, and the line sent (if any). */
  datatype RawReply = RawReply(success: bool, results: string, errors: string, sent: Option<string>)

  const NotRunningSuffix: string := ": Plastic SCM shell not running!"

  function RunCommandInternal(p: Platform, command: string, ps: seq<string>, fs: seq<string>, shell: Shell): (r: RawReply)
    ensures shell.NotRunning? ==> !r.success && r.results == [] && r.errors == command + NotRunningSuffix && r.sent == None
    ensures shell.Running? ==> r.sent == Some(CommandLine(command, ps, fs))
    ensures r.success ==> r.errors == []
    ensures !r.success ==> r.results == []
  {
    match shell
    case NotRunning => RawReply(false, [], command + NotRunningSuffix, None)
    case Running(chunks) =>
      var sent := Some(CommandLine(command, ps, fs));
      match ReadAll(chunks, Delimiter(p))
      case Reading(buf) => RawReply(false, [], buf, sent)
      case Done(ok, out) => if ok then RawReply(true, out, [], sent) else RawReply(false, [], out, sent)
  }

  /**
   * For a well-framed reply, however chunked: success iff the exit code reads
   * as 0; the output before the marker is the result text on success and
   * the error text on failure.
   */
  lemma RunCommandInternalFramed(p: Platform, command: string, ps: seq<string>, fs: seq<string>,
                                 chunks: seq<string>, out: string, code: string)
    requires WellFramed(out, code, Delimiter(p))
    requires Concat(chunks) == Stream(out, code, Delimiter(p))
    ensures var r := RunCommandInternal(p, command, ps, fs, Running(chunks));
      && (r.success <==> Atoi(code) == 0)
      && (r.success ==> r.results == out)
      && (!r.success ==> r.errors == out)
  {
    ChunkingIrrelevant(out, code, Delimiter(p), chunks);
  }

  /** A shell that stops without ever printing the marker fails with all of its output as error text. */
  lemma RunCommandInternalUnterminated(p: Platform, command: string, ps: seq<string>, fs: seq<string>, chunks: seq<string>)
    requires !Contains(Concat(chunks), Marker)
    ensures var r := RunCommandInternal(p, command, ps, fs, Running(chunks));
      !r.success && r.errors == Concat(chunks)
  {
    NoMarkerKeepsReading(chunks, Delimiter(p));
  }

  /** Result and error text split into lines. */
  datatype Reply = Reply(success: bool, lines: seq<string>, errors: seq<string>)

  /**
   * `RunCommand`: no returned line is empty or holds the terminator, and on
   * failure there are no output lines.
   */
  function RunCommand(p: Platform, command: string, ps: seq<string>, fs: seq<string>, shell: Shell): (r: Reply)
    ensures forall i :: 0 <= i < |r.lines| ==> |r.lines[i]| > 0 && !Contains(r.lines[i], Delimiter(p))
    ensures forall i :: 0 <= i < |r.errors| ==> |r.errors[i]| > 0 && !Contains(r.errors[i], Delimiter(p))
    ensures !r.success ==> r.lines == []
  {
    var raw := RunCommandInternal(p, command, ps, fs, shell);
    var d := Delimiter(p);
    SplitEmpty(d);
    Reply(raw.success, Split(raw.results, d), Split(raw.errors, d))
  }

  /**
   * A well-framed reply whose output is lines joined by the terminator
   * (with or without a terminator after the last) gives back exactly those
   * lines: as results on success, as error messages on failure.
   */
  lemma RunCommandLines(p: Platform, command: string, ps: seq<string>, fs: seq<string>,
                        chunks: seq<string>, ls: seq<string>, out: string, code: string)
    requires |ls| > 0 && forall i :: 0 <= i < |ls| ==> |ls[i]| > 0 && !Contains(ls[i], Delimiter(p))
    requires out == Join(ls, Delimiter(p)) || out == Join(ls, Delimiter(p)) + Delimiter(p)
    requires WellFramed(out, code, Delimiter(p))
    requires Concat(chunks) == Stream(out, code, Delimiter(p))
    ensures var r := RunCommand(p, command, ps, fs, Running(chunks));
      && (r.success <==> Atoi(code) == 0)
      && (r.success ==> r.lines == ls && r.errors == [])
      && (!r.success ==> r.lines == [] && r.errors == ls)
  {
    RunCommandInternalFramed(p, command, ps, fs, chunks, out, code);
    SplitOfJoin(ls, Delimiter(p));
    SplitEmpty(Delimiter(p));
  }

  /** A shell that is not running yields one error line naming the command. */
  lemma RunCommandNotRunning(p: Platform, command: string, ps: seq<string>, fs: seq<string>)
    requires NoLineFeed(command)
    ensures RunCommand(p, command, ps, fs, NotRunning) == Reply(false, [], [command + NotRunningSuffix])
  {
    var d := Delimiter(p);
    var e := command + NotRunningSuffix;
    assert forall i :: 0 <= i < |e| ==> e[i] != '\n';
    forall k: nat
      ensures !OccursAt(e, d, k)
    {
      if k + |d| <= |e| {
        assert e[k..k + |d|][|d| - 1] == e[k + |d| - 1];
      }
    }
    SplitEmpty(d);
    SplitWithoutDelimiter(e, d);
  }
}
