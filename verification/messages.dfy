/**
 * `RemoveRedundantErrors`: errors that only report an expected condition
 * (a filter text such as "is not in a workspace") are copied to the info
 * messages and removed from the errors; a command whose every error was
 * such a report is then considered successful.
 *
 * The copy uses a case-sensitive search, the removal the engine's default
 * case-insensitive one, so every copied error is removed but an error that
 * matches only when case is ignored is dropped without being copied.
 */
module Messages {
  import opened Text

  datatype Command = Command(success: bool, infoMessages: seq<string>, errorMessages: seq<string>)

  /** The errors that hold the filter, case-sensitively, in their order: the ones copied to the info messages. */
  function Copied(errors: seq<string>, filter: string): (r: seq<string>)
    ensures forall i :: 0 <= i < |r| ==> r[i] in errors && Contains(r[i], filter)
    ensures forall i :: 0 <= i < |errors| && Contains(errors[i], filter) ==> errors[i] in r
    ensures |r| <= |errors|
  {
    if |errors| == 0 then []
    else
      var rest := Copied(errors[1..], filter);
      if Contains(errors[0], filter) then [errors[0]] + rest else rest
  }

  /** `RemoveAll` with the case-insensitive `Contains`: the errors that remain, in their order. */
  function Remaining(errors: seq<string>, filter: string): (r: seq<string>)
    ensures forall i :: 0 <= i < |r| ==> r[i] in errors && !ContainsIgnoreCase(r[i], filter)
    ensures forall i :: 0 <= i < |errors| && !ContainsIgnoreCase(errors[i], filter) ==> errors[i] in r
    ensures |r| <= |errors|
  {
    if |errors| == 0 then []
    else
      var rest := Remaining(errors[1..], filter);
      if ContainsIgnoreCase(errors[0], filter) then rest else [errors[0]] + rest
  }

  /** Each error holding the filter is copied as many times as it occurs, and no other text is. */
  lemma {:induction false} CopiedCounts(errors: seq<string>, filter: string)
    ensures forall x :: multiset(Copied(errors, filter))[x] == if Contains(x, filter) then multiset(errors)[x] else 0
  {
    if |errors| > 0 {
      CopiedCounts(errors[1..], filter);
      assert errors == [errors[0]] + errors[1..];
    }
  }

  /** Each error not holding the filter in any case remains as many times as it occurs, and no other text does. */
  lemma {:induction false} RemainingCounts(errors: seq<string>, filter: string)
    ensures forall x :: multiset(Remaining(errors, filter))[x] == if ContainsIgnoreCase(x, filter) then 0 else multiset(errors)[x]
  {
    if |errors| > 0 {
      RemainingCounts(errors[1..], filter);
      assert errors == [errors[0]] + errors[1..];
    }
  }

  /** The errors `RemoveAll` drops. */
  function Dropped(errors: seq<string>, filter: string): seq<string> {
    if |errors| == 0 then []
    else
      var rest := Dropped(errors[1..], filter);
      if ContainsIgnoreCase(errors[0], filter) then [errors[0]] + rest else rest
  }

  /** Copying walks the errors forward: one more error adds itself, if it holds the filter, at the end. */
  lemma {:induction false} CopiedSnoc(errors: seq<string>, x: string, filter: string)
    ensures Copied(errors + [x], filter) == Copied(errors, filter) + (if Contains(x, filter) then [x] else [])
  {
    if |errors| == 0 {
      assert errors + [x] == [x];
      assert [x][1..] == [];
    } else {
      assert (errors + [x])[0] == errors[0];
      assert (errors + [x])[1..] == errors[1..] + [x];
      CopiedSnoc(errors[1..], x, filter);
    }
  }

  /** Removal walks the errors forward: one more error stays, at the end, unless it holds the filter in some case. */
  lemma {:induction false} RemainingSnoc(errors: seq<string>, x: string, filter: string)
    ensures Remaining(errors + [x], filter)
         == Remaining(errors, filter) + (if ContainsIgnoreCase(x, filter) then [] else [x])
  {
    if |errors| == 0 {
      assert errors + [x] == [x];
      assert [x][1..] == [];
    } else {
      assert (errors + [x])[0] == errors[0];
      assert (errors + [x])[1..] == errors[1..] + [x];
      RemainingSnoc(errors[1..], x, filter);
    }
  }

  /** `RemoveRedundantErrors` on a finished command. */
  function RemoveRedundantErrors(cmd: Command, filter: string): (r: Command)
    ensures r.infoMessages == cmd.infoMessages + Copied(cmd.errorMessages, filter)
    ensures r.errorMessages == Remaining(cmd.errorMessages, filter)
    ensures cmd.infoMessages <= r.infoMessages
    ensures multiset(r.errorMessages) <= multiset(cmd.errorMessages)
    ensures forall i :: 0 <= i < |r.errorMessages| ==> !Contains(r.errorMessages[i], filter)
    ensures forall i :: 0 <= i < |cmd.errorMessages| ==>
              (ContainsIgnoreCase(cmd.errorMessages[i], filter) || cmd.errorMessages[i] in r.errorMessages)
    ensures r.success <==> (cmd.success
      || ((exists i :: 0 <= i < |cmd.errorMessages| && Contains(cmd.errorMessages[i], filter))
          && forall i :: 0 <= i < |cmd.errorMessages| ==> ContainsIgnoreCase(cmd.errorMessages[i], filter)))
  {
    RemainingIsPartition(cmd.errorMessages, filter);
    RemainingEmptyIff(cmd.errorMessages, filter);
    CopiedEmptyIff(cmd.errorMessages, filter);
    NothingCopiedRemains(cmd.errorMessages, filter);
    var copied := Copied(cmd.errorMessages, filter);
    var remaining := Remaining(cmd.errorMessages, filter);
    Command(cmd.success || (|copied| > 0 && |remaining| == 0), cmd.infoMessages + copied, remaining)
  }

  /** Removal splits the errors: what remains and what is dropped are, together, the errors. */
  lemma {:induction false} RemainingIsPartition(errors: seq<string>, filter: string)
    ensures multiset(Remaining(errors, filter)) + multiset(Dropped(errors, filter)) == multiset(errors)
  {
    if |errors| > 0 {
      var e, rest := errors[0], errors[1..];
      RemainingIsPartition(rest, filter);
      assert errors == [e] + rest;
      assert multiset(errors) == multiset{e} + multiset(rest);
      if ContainsIgnoreCase(e, filter) {
        assert Dropped(errors, filter) == [e] + Dropped(rest, filter);
        assert multiset(Dropped(errors, filter)) == multiset{e} + multiset(Dropped(rest, filter));
      } else {
        assert Remaining(errors, filter) == [e] + Remaining(rest, filter);
        assert multiset(Remaining(errors, filter)) == multiset{e} + multiset(Remaining(rest, filter));
      }
    }
  }

  lemma {:induction false} RemainingEmptyIff(errors: seq<string>, filter: string)
    ensures |Remaining(errors, filter)| == 0 <==> forall i :: 0 <= i < |errors| ==> ContainsIgnoreCase(errors[i], filter)
  {
    if |errors| > 0 {
      RemainingEmptyIff(errors[1..], filter);
      assert forall i :: 0 < i < |errors| ==> errors[i] == errors[1..][i - 1];
    }
  }

  lemma {:induction false} CopiedEmptyIff(errors: seq<string>, filter: string)
    ensures |Copied(errors, filter)| > 0 <==> exists i :: 0 <= i < |errors| && Contains(errors[i], filter)
  {
    if |errors| > 0 {
      CopiedEmptyIff(errors[1..], filter);
      if !Contains(errors[0], filter) {
        if i :| 0 <= i < |errors| && Contains(errors[i], filter) {
          assert errors[1..][i - 1] == errors[i];
        }
      }
    }
  }

  /**
   * Every error copied to the info messages is also removed: a
   * case-sensitive match is a case-insensitive one.
   */
  lemma NothingCopiedRemains(errors: seq<string>, filter: string)
    ensures forall i :: 0 <= i < |Remaining(errors, filter)| ==> !Contains(Remaining(errors, filter)[i], filter)
  {
    var r := Remaining(errors, filter);
    forall i | 0 <= i < |r| ensures !Contains(r[i], filter) {
      if Contains(r[i], filter) {
        ContainsImpliesIgnoreCase(r[i], filter);
      }
    }
  }

  /** A command none of whose errors holds the filter, in any case, is left as it is. */
  lemma {:induction false} NoMatchKeepsCommand(cmd: Command, filter: string)
    requires forall i :: 0 <= i < |cmd.errorMessages| ==> !ContainsIgnoreCase(cmd.errorMessages[i], filter)
    ensures RemoveRedundantErrors(cmd, filter) == cmd
  {
    NoMatchKeepsErrors(cmd.errorMessages, filter);
  }

  lemma {:induction false} NoMatchKeepsErrors(errors: seq<string>, filter: string)
    requires forall i :: 0 <= i < |errors| ==> !ContainsIgnoreCase(errors[i], filter)
    ensures Remaining(errors, filter) == errors
    ensures Copied(errors, filter) == []
  {
    if |errors| > 0 {
      NoMatchKeepsErrors(errors[1..], filter);
      if Contains(errors[0], filter) {
        ContainsImpliesIgnoreCase(errors[0], filter);
      }
    }
  }

  /** Removing the redundant errors a second time changes nothing. */
  lemma Idempotent(cmd: Command, filter: string)
    ensures var once := RemoveRedundantErrors(cmd, filter);
      RemoveRedundantErrors(once, filter) == once
  {
    var once := RemoveRedundantErrors(cmd, filter);
    NoMatchKeepsCommand(once, filter);
  }

  /** The first pass: the errors holding the filter, case-sensitively, collected in their order. */
  method CopyMatching(errors: seq<string>, filter: string) returns (copied: seq<string>)
    ensures copied == Copied(errors, filter)
  {
    copied := [];
    var i := 0;
    while i < |errors|
      invariant 0 <= i <= |errors|
      invariant copied == Copied(errors[..i], filter)
    {
      assert errors[..i + 1] == errors[..i] + [errors[i]];
      CopiedSnoc(errors[..i], errors[i], filter);
      if Contains(errors[i], filter) {
        copied := copied + [errors[i]];
      }
      i := i + 1;
    }
    assert errors[..|errors|] == errors;
  }

  /** The second pass, `RemoveAll`: the errors not holding the filter in any case, kept in their order. */
  method KeepUnmatched(errors: seq<string>, filter: string) returns (remaining: seq<string>)
    ensures remaining == Remaining(errors, filter)
  {
    remaining := [];
    var j := 0;
    while j < |errors|
      invariant 0 <= j <= |errors|
      invariant remaining == Remaining(errors[..j], filter)
    {
      assert errors[..j + 1] == errors[..j] + [errors[j]];
      RemainingSnoc(errors[..j], errors[j], filter);
      if !ContainsIgnoreCase(errors[j], filter) {
        remaining := remaining + [errors[j]];
      }
      j := j + 1;
    }
    assert errors[..|errors|] == errors;
  }

  /** Both passes over the errors, then the success rule. */
  method RemoveRedundantErrorsLoop(cmd: Command, filter: string) returns (r: Command)
    ensures r == RemoveRedundantErrors(cmd, filter)
  {
    var copied := CopyMatching(cmd.errorMessages, filter);
    var found := |copied| > 0;
    var remaining := KeepUnmatched(cmd.errorMessages, filter);
    r := Command(cmd.success || (found && |remaining| == 0), cmd.infoMessages + copied, remaining);
  }
}
