/**
 * `UpdateCachedStates`: the provider's cache of file states, keyed by file
 * name, refreshed from the states a command has just computed. A file the
 * cache does not know yet gets a fresh state first; an entry is rewritten
 * only when its workspace state differs from the new one, and then only in
 * its workspace state, pending merge base hash and time stamp.
 *
 * The provider's cache is a map keyed by `FString`, which hashes and compares
 * keys ignoring case: two spellings of one name share one entry, whose name
 * is the spelling that created it.
 */
module Cache {
  import opened Text
  import opened Status

  /** The cache, each entry under the upper-cased name of its file. */
  type StateCache = map<string, FileState>

  /** The key a file name is looked up under: every spelling of a name has the same key. */
  function CacheKey(f: string): string {
    Upper(f)
  }

  /** `GetStateInternal`: the cached state of a file, under any spelling of its name, or a fresh one. */
  function Lookup(cache: StateCache, f: string): FileState {
    if CacheKey(f) in cache then cache[CacheKey(f)] else NewFileState(f)
  }

  /** A state as `GetStateInternal` creates it, for some spelling of the name `f`. */
  predicate FreshFor(st: FileState, f: string) {
    st == NewFileState(st.localFilename) && CacheKey(st.localFilename) == CacheKey(f)
  }

  /**
   * Every lookup in `after` gives what it gave in `before`, except that a
   * name unknown to `before` may have gained a fresh entry under another
   * spelling.
   */
  ghost predicate LookupsAgree(after: StateCache, before: StateCache) {
    forall f :: Lookup(after, f) == Lookup(before, f) || (CacheKey(f) !in before && FreshFor(Lookup(after, f), f))
  }

  /** The cache after a refresh, and how many entries changed. */
  datatype Refresh = Refresh(cache: StateCache, updated: nat)

  /** The fields the refresh never rewrites. */
  predicate SameIdentity(a: FileState, b: FileState) {
    a.localFilename == b.localFilename
    && a.localRevisionChangeset == b.localRevisionChangeset
    && a.depotRevisionChangeset == b.depotRevisionChangeset
    && a.lockedBy == b.lockedBy
    && a.lockedWhere == b.lockedWhere
  }

  /** The three fields a changed entry takes from the new state. */
  function Overwrite(cached: FileState, s: FileState): FileState {
    cached.(workspaceState := s.workspaceState,
            pendingMergeBaseFileHash := s.pendingMergeBaseFileHash,
            timeStamp := s.timeStamp)
  }

  /** One iteration of the loop: refresh the entry of `s.localFilename`, under any spelling. */
  function RefreshOne(cache: StateCache, s: FileState): (r: Refresh)
    ensures r.cache.Keys == cache.Keys + {CacheKey(s.localFilename)}
    ensures forall k :: k in cache && k != CacheKey(s.localFilename) ==> r.cache[k] == cache[k]
    ensures r.cache[CacheKey(s.localFilename)].workspaceState == s.workspaceState
    ensures r.updated <= 1
    ensures r.updated == 0 <==> Lookup(cache, s.localFilename).workspaceState == s.workspaceState
    ensures r.updated == 0 ==> r.cache[CacheKey(s.localFilename)] == Lookup(cache, s.localFilename)
    ensures r.updated == 1 ==> r.cache[CacheKey(s.localFilename)] == Overwrite(Lookup(cache, s.localFilename), s)
  {
    var f := s.localFilename;
    var state := Lookup(cache, f);
    if state.workspaceState != s.workspaceState then Refresh(cache[CacheKey(f) := Overwrite(state, s)], 1)
    else Refresh(cache[CacheKey(f) := state], 0)
  }

  /** A cached `A` and a new state for `a` in the same workspace state: one entry, nothing changed. */
  lemma CaseVariantSharesEntry(cached: FileState, s: FileState)
    requires s.localFilename == "a" && cached.workspaceState == s.workspaceState
    ensures var cache := map[CacheKey("A") := cached];
      UpdateCachedStates(cache, [s]) == (false, cache)
  {
    assert CacheKey("a") == CacheKey("A");
    var cache := map[CacheKey("A") := cached];
    assert RefreshAll(cache, [s]) == Refresh(cache, 0) by {
      assert [s][..0] == [];
    }
  }

  /** The keys of the files the new states are for. */
  function FileKeys(states: seq<FileState>): (r: set<string>)
    ensures forall i :: 0 <= i < |states| ==> CacheKey(states[i].localFilename) in r
    ensures forall k :: k in r ==> exists i :: 0 <= i < |states| && CacheKey(states[i].localFilename) == k
  {
    if |states| == 0 then {}
    else
      var init := states[..|states| - 1];
      var r := FileKeys(init) + {CacheKey(states[|states| - 1].localFilename)};
      assert forall i :: 0 <= i < |init| ==> init[i] == states[i];
      r
  }

  /** The index of the last new state whose file has key `k`, if there is one. */
  function LastFor(states: seq<FileState>, k: string): (r: Option<nat>)
    ensures r.Some? ==> r.value < |states| && CacheKey(states[r.value].localFilename) == k
    ensures r.Some? ==> forall j :: r.value < j < |states| ==> CacheKey(states[j].localFilename) != k
    ensures r.None? ==> forall j :: 0 <= j < |states| ==> CacheKey(states[j].localFilename) != k
  {
    if |states| == 0 then None
    else if CacheKey(states[|states| - 1].localFilename) == k then Some(|states| - 1)
    else LastFor(states[..|states| - 1], k)
  }

  /** The loop of `UpdateCachedStates` over the first `|states|` new states. */
  function RefreshAll(cache: StateCache, states: seq<FileState>): (r: Refresh)
    ensures r.updated <= |states|
  {
    if |states| == 0 then Refresh(cache, 0)
    else
      var front := RefreshAll(cache, states[..|states| - 1]);
      var last := RefreshOne(front.cache, states[|states| - 1]);
      Refresh(last.cache, front.updated + last.updated)
  }

  /** The refresh adds an entry for every new state's file and leaves other entries alone. */
  lemma {:induction false} RefreshKeys(cache: StateCache, states: seq<FileState>)
    ensures RefreshAll(cache, states).cache.Keys == cache.Keys + FileKeys(states)
    ensures forall k :: k in cache && k !in FileKeys(states) ==> RefreshAll(cache, states).cache[k] == cache[k]
  {
    if |states| > 0 {
      var init := states[..|states| - 1];
      var s := states[|states| - 1];
      RefreshKeys(cache, init);
    }
  }

  /** `UpdateCachedStates`: the refreshed cache, and whether any entry changed. */
  function UpdateCachedStates(cache: StateCache, states: seq<FileState>): (r: (bool, StateCache))
    ensures r.1.Keys == cache.Keys + FileKeys(states)
    ensures forall k :: k in cache && k !in FileKeys(states) ==> r.1[k] == cache[k]
    ensures r.0 <==> exists i :: 0 <= i < |states| && Lookup(cache, states[i].localFilename).workspaceState != states[i].workspaceState
  {
    RefreshNothingIff(cache, states);
    RefreshKeys(cache, states);
    var r := RefreshAll(cache, states);
    (r.updated > 0, r.cache)
  }

  /**
   * Nothing changes exactly when every new state agrees with the cache it
   * started from, and then the cache only gains fresh entries.
   */
  lemma {:induction false} RefreshNothingIff(cache: StateCache, states: seq<FileState>)
    ensures RefreshAll(cache, states).updated == 0 <==>
      forall i :: 0 <= i < |states| ==> Lookup(cache, states[i].localFilename).workspaceState == states[i].workspaceState
    ensures RefreshAll(cache, states).updated == 0 ==> LookupsAgree(RefreshAll(cache, states).cache, cache)
  {
    RefreshNothingStates(cache, states);
    RefreshNothingAgrees(cache, states);
  }

  lemma {:induction false} RefreshNothingStates(cache: StateCache, states: seq<FileState>)
    ensures RefreshAll(cache, states).updated == 0 <==>
      forall i :: 0 <= i < |states| ==> Lookup(cache, states[i].localFilename).workspaceState == states[i].workspaceState
  {
    if |states| > 0 {
      var init := states[..|states| - 1];
      var s := states[|states| - 1];
      RefreshNothingStates(cache, init);
      var front := RefreshAll(cache, init);
      var last := RefreshOne(front.cache, s);
      assert RefreshAll(cache, states) == Refresh(last.cache, front.updated + last.updated);
      if front.updated == 0 {
        UnchangedLookup(cache, init, s.localFilename);
      }
      forall i | 0 <= i < |init| ensures init[i] == states[i] { }
    }
  }

  /** While nothing has changed, every name looks up the workspace state it had. */
  lemma UnchangedLookup(cache: StateCache, states: seq<FileState>, f: string)
    requires RefreshAll(cache, states).updated == 0
    ensures Lookup(RefreshAll(cache, states).cache, f).workspaceState == Lookup(cache, f).workspaceState
  {
    RefreshNothingAgrees(cache, states);
    AgreeingLookup(RefreshAll(cache, states).cache, cache, f);
  }

  lemma {:induction false} RefreshNothingAgrees(cache: StateCache, states: seq<FileState>)
    ensures RefreshAll(cache, states).updated == 0 ==> LookupsAgree(RefreshAll(cache, states).cache, cache)
  {
    if |states| > 0 {
      var init := states[..|states| - 1];
      var s := states[|states| - 1];
      var front := RefreshAll(cache, init);
      var last := RefreshOne(front.cache, s);
      assert RefreshAll(cache, states) == Refresh(last.cache, front.updated + last.updated);
      if front.updated == 0 && last.updated == 0 {
        RefreshNothingAgrees(cache, init);
        RefreshKeys(cache, init);
        RefreshOneAgrees(front.cache, s);
        AgreesTransitive(last.cache, front.cache, cache);
      }
    }
  }

  /** A step that changes nothing only adds a fresh entry, if any. */
  lemma RefreshOneAgrees(cache: StateCache, s: FileState)
    requires RefreshOne(cache, s).updated == 0
    ensures LookupsAgree(RefreshOne(cache, s).cache, cache)
  {
    var after := RefreshOne(cache, s).cache;
    forall f ensures Lookup(after, f) == Lookup(cache, f) || (CacheKey(f) !in cache && FreshFor(Lookup(after, f), f)) {
      if CacheKey(f) == CacheKey(s.localFilename) && CacheKey(f) !in cache {
        assert Lookup(after, f) == NewFileState(s.localFilename);
      }
    }
  }

  lemma AgreesTransitive(a: StateCache, b: StateCache, c: StateCache)
    requires LookupsAgree(a, b) && LookupsAgree(b, c) && c.Keys <= b.Keys
    ensures LookupsAgree(a, c)
  {
    forall f ensures Lookup(a, f) == Lookup(c, f) || (CacheKey(f) !in c && FreshFor(Lookup(a, f), f)) {
      if Lookup(a, f) != Lookup(b, f) {
        assert CacheKey(f) !in c;
      }
    }
  }

  /** Agreeing caches give every name the same workspace state: a fresh entry is `Unknown` either way. */
  lemma AgreeingLookup(after: StateCache, before: StateCache, f: string)
    requires LookupsAgree(after, before)
    ensures Lookup(after, f).workspaceState == Lookup(before, f).workspaceState
  {
  }

  /**
   * The refresh never touches the name, revisions or lock of a cached file,
   * and an entry it adds has the fresh identity of a spelling of its key.
   */
  lemma {:induction false} RefreshKeepsIdentity(cache: StateCache, states: seq<FileState>)
    ensures forall k :: k in RefreshAll(cache, states).cache ==>
      if k in cache then SameIdentity(RefreshAll(cache, states).cache[k], cache[k])
      else FreshIdentity(RefreshAll(cache, states).cache[k], k)
  {
    if |states| > 0 {
      var init := states[..|states| - 1];
      var s := states[|states| - 1];
      RefreshKeepsIdentity(cache, init);
      RefreshKeys(cache, init);
      var front := RefreshAll(cache, init);
      var last := RefreshOne(front.cache, s);
      forall k | k in last.cache
        ensures if k in cache then SameIdentity(last.cache[k], cache[k]) else FreshIdentity(last.cache[k], k)
      {
        if k != CacheKey(s.localFilename) {
          assert last.cache[k] == front.cache[k];
        } else if k !in front.cache {
          assert k !in cache;
        }
      }
    }
  }

  /** An entry with the identity `GetStateInternal` gives a new file whose name has key `k`. */
  predicate FreshIdentity(st: FileState, k: string) {
    SameIdentity(st, NewFileState(st.localFilename)) && CacheKey(st.localFilename) == k
  }

  /** Each file ends with the workspace state of its last new state; other files keep theirs. */
  lemma {:induction false} RefreshLastWins(cache: StateCache, states: seq<FileState>, k: string)
    requires k in RefreshAll(cache, states).cache
    ensures match LastFor(states, k)
      case Some(i) => RefreshAll(cache, states).cache[k].workspaceState == states[i].workspaceState
      case None => k in cache && RefreshAll(cache, states).cache[k] == cache[k]
  {
    if |states| > 0 {
      var init := states[..|states| - 1];
      var s := states[|states| - 1];
      var front := RefreshAll(cache, init);
      var last := RefreshOne(front.cache, s);
      if CacheKey(s.localFilename) != k {
        assert last.cache[k] == front.cache[k];
        RefreshLastWins(cache, init, k);
      }
    }
  }

  /** What an entry started as: the cached state, or the fresh state of the spelling that created it. */
  function Origin(cache: StateCache, k: string, entry: FileState): FileState {
    if k in cache then cache[k] else NewFileState(entry.localFilename)
  }

  /**
   * A rewritten entry takes all three fields from one new state for the
   * same file: the entry is either as it started, or that state with the
   * workspace state, hash and time stamp of some new state.
   */
  lemma {:induction false} RefreshFromOneState(cache: StateCache, states: seq<FileState>, k: string)
    requires k in RefreshAll(cache, states).cache
    ensures var entry := RefreshAll(cache, states).cache[k];
      entry == Origin(cache, k, entry)
      || exists i :: 0 <= i < |states| && CacheKey(states[i].localFilename) == k
                     && entry == Overwrite(Origin(cache, k, entry), states[i])
  {
    if |states| > 0 {
      var n := |states| - 1;
      var init := states[..n];
      var front := RefreshAll(cache, init);
      var last := RefreshOne(front.cache, states[n]);
      if CacheKey(states[n].localFilename) == k && last.updated == 1 {
        RefreshLastRewrites(cache, states);
      } else if k in front.cache {
        RefreshFromOneState(cache, init, k);
        RefreshEarlierState(cache, states, k);
      } else {
        RefreshKeys(cache, init);
      }
    }
  }

  /** When the last new state rewrites its entry, the entry is its origin overwritten by that state. */
  lemma RefreshLastRewrites(cache: StateCache, states: seq<FileState>)
    requires |states| > 0
    requires RefreshOne(RefreshAll(cache, states[..|states| - 1]).cache, states[|states| - 1]).updated == 1
    ensures var s := states[|states| - 1];
      var entry := RefreshAll(cache, states).cache[CacheKey(s.localFilename)];
      entry == Overwrite(Origin(cache, CacheKey(s.localFilename), entry), s)
  {
    var n := |states| - 1;
    var init := states[..n];
    var s := states[n];
    var k := CacheKey(s.localFilename);
    var front := RefreshAll(cache, init);
    RefreshKeys(cache, init);
    RefreshKeepsIdentity(cache, init);
    var entry := RefreshAll(cache, states).cache[k];
    if k !in front.cache {
      assert k !in cache;
    }
    OverwriteIdentity(Lookup(front.cache, s.localFilename), Origin(cache, k, entry), s);
  }

  /** When the last new state leaves key `k` alone, the entry of `k` is the one the earlier states left. */
  lemma RefreshEarlierState(cache: StateCache, states: seq<FileState>, k: string)
    requires |states| > 0
    requires var front := RefreshAll(cache, states[..|states| - 1]);
      k in front.cache
      && (CacheKey(states[|states| - 1].localFilename) != k || RefreshOne(front.cache, states[|states| - 1]).updated == 0)
    ensures var init := states[..|states| - 1];
      && RefreshAll(cache, states).cache[k] == RefreshAll(cache, init).cache[k]
      && forall i :: 0 <= i < |init| ==> states[i] == init[i]
  {
  }

  /** Overwriting two states that agree on everything else gives the same state. */
  lemma OverwriteIdentity(a: FileState, b: FileState, s: FileState)
    requires SameIdentity(a, b)
    ensures Overwrite(a, s) == Overwrite(b, s)
  {
  }

  /** The loop of the source over a mutable cache and counter. */
  method UpdateCachedStatesLoop(cache: StateCache, states: seq<FileState>) returns (changed: bool, result: StateCache)
    ensures (changed, result) == UpdateCachedStates(cache, states)
  {
    result := cache;
    var updated := 0;
    var i := 0;
    while i < |states|
      invariant i <= |states|
      invariant Refresh(result, updated) == RefreshAll(cache, states[..i])
    {
      var f := states[i].localFilename;
      var state := Lookup(result, f);
      if state.workspaceState != states[i].workspaceState {
        result := result[CacheKey(f) := Overwrite(state, states[i])];
        updated := updated + 1;
      } else {
        result := result[CacheKey(f) := state];
      }
      assert states[..i + 1][..i] == states[..i];
      i := i + 1;
    }
    assert states[..i] == states;
    changed := updated > 0;
  }
}
