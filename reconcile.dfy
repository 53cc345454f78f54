/**
 * The reconciliation rules: which locations need a detail refetch, which
 * locations are removed, how fetch completions land in the entry store and
 * how the store is seeded from the persistent cache.
 */
module Reconcile {
  import opened Wrappers
  import opened WorkspaceTypes

  /** Map lookup that yields `None` for a missing key, like indexing a JavaScript record. */
  function Lookup<V>(m: map<string, V>, name: string): Option<V>
  {
    if name in m then Some(m[name]) else None
  }

  /** Two maps that agree on every lookup are equal. */
  lemma MapsEqualByLookup<V>(a: map<string, V>, b: map<string, V>)
    requires forall n :: Lookup(a, n) == Lookup(b, n)
    ensures a == b
  {
    assert a.Keys == b.Keys by {
      forall n ensures n in a <==> n in b {
        assert Lookup(a, n) == Lookup(b, n);
      }
    }
    forall n | n in a ensures a[n] == b[n] {
      assert Lookup(a, n) == Lookup(b, n);
    }
  }

  // ---------------------------------------------------------------------
  // The fetch set

  /** Optional chaining on the previous row: its version key, or undefined. */
  function PrevVersionKey(prev: Option<StatusEntry>): Option<string>
  {
    if prev.Some? then Some(prev.value.versionKey) else None
  }

  /** Optional chaining on the previous row: its load status, or undefined. */
  function PrevLoadStatus(prev: Option<StatusEntry>): Option<LoadStatus>
  {
    if prev.Some? then Some(prev.value.loadStatus) else None
  }

  /** The held entry's load status when it is a success entry, otherwise undefined. */
  function HeldLoadStatus(held: Option<Entry>): Option<LoadStatus>
  {
    if held.Some? && held.value.WorkspaceLocationEntry? then Some(held.value.loadStatus) else None
  }

  /**
   * The filter of the fetch pass for one current row, with JavaScript's
   * strict inequality between an optional value and a present one.
   */
  predicate NeedsFetch(prev: Option<StatusEntry>, held: Option<Entry>, loc: StatusEntry)
  {
    || PrevVersionKey(prev) != Some(loc.versionKey)
    || PrevLoadStatus(prev) != Some(loc.loadStatus)
    || HeldLoadStatus(held) != Some(loc.loadStatus)
  }

  /**
   * The names an ungated pass refetches. A current location is fetched iff it
   * is unseen in the previous snapshot, its version key or load status
   * changed since then, or the store does not hold a success entry with the
   * current load status (so an error entry or no entry always refetches).
   */
  function StaleNames(prev: LocationStatuses, statuses: LocationStatuses, entries: EntryMap): (r: set<string>)
    ensures forall n :: n in r <==>
      && n in statuses
      && (|| n !in prev
          || prev[n].versionKey != statuses[n].versionKey
          || prev[n].loadStatus != statuses[n].loadStatus
          || !HoldsLoadStatus(entries, n, statuses[n].loadStatus))
  {
    set loc | loc in statuses.Values && NeedsFetch(Lookup(prev, loc.name), Lookup(entries, loc.name), loc) :: loc.name
  }

  /** Reconciling a snapshot against itself, with matching success entries, fetches nothing. */
  lemma SameSnapshotIsQuiet(statuses: LocationStatuses, entries: EntryMap)
    requires forall n | n in statuses :: HoldsLoadStatus(entries, n, statuses[n].loadStatus)
    ensures StaleNames(statuses, statuses, entries) == {}
  {
  }

  /** A version-key change refetches the location whatever its load status. */
  lemma VersionChangeRefetches(prev: LocationStatuses, statuses: LocationStatuses, entries: EntryMap, n: string)
    requires n in prev && n in statuses && prev[n].versionKey != statuses[n].versionKey
    ensures n in StaleNames(prev, statuses, entries)
  {
  }

  /**
   * Once every fetched location has received a success entry agreeing with
   * the snapshot's load status, the next pass over the same snapshot (whose
   * previous snapshot is now that snapshot) fetches nothing.
   */
  lemma FetchedThenQuiet(prev: LocationStatuses, statuses: LocationStatuses, entries: EntryMap, fetched: EntryMap)
    requires fetched.Keys == StaleNames(prev, statuses, entries)
    requires forall n | n in fetched :: fetched[n].WorkspaceLocationEntry? && fetched[n].loadStatus == statuses[n].loadStatus
    ensures StaleNames(statuses, statuses, entries + fetched) == {}
  {
  }

  // ---------------------------------------------------------------------
  // The removed set

  /**
   * The names to evict: rows of the previous snapshot whose name is absent
   * from the current snapshot, and success entries whose own name is absent
   * from it. Error entries contribute nothing.
   */
  function RemovedNames(prev: LocationStatuses, statuses: LocationStatuses, entries: EntryMap): (r: set<string>)
    ensures r !! statuses.Keys
    ensures prev.Keys - statuses.Keys <= r
  {
    (set p | p in prev.Values && p.name !in statuses :: p.name)
      + (set e | e in entries.Values && e.WorkspaceLocationEntry? && e.name !in statuses :: e.name)
  }

  /**
   * With success entries stored under their own names, the removed set is
   * exactly the previous-snapshot names and the success-entry names that the
   * current snapshot lacks.
   */
  lemma RemovedNamesByKey(prev: LocationStatuses, statuses: LocationStatuses, entries: EntryMap)
    requires SuccessKeyedByName(entries)
    ensures RemovedNames(prev, statuses, entries) == (prev.Keys - statuses.Keys) + (SuccessNames(entries) - statuses.Keys)
  {
  }

  /**
   * When the fetch pass has just advanced the previous snapshot to the
   * current one, only success entries are evicted.
   */
  lemma RemovedAfterAdvance(statuses: LocationStatuses, entries: EntryMap)
    requires SuccessKeyedByName(entries)
    ensures RemovedNames(statuses, statuses, entries) == SuccessNames(entries) - statuses.Keys
  {
  }

  /**
   * Eviction finishes within one pass and is idempotent: after a pass, no
   * success entry of a vanished location is left, and a second pass over the
   * same snapshot, with the previous snapshot advanced to it, removes nothing.
   */
  lemma SecondPassRemovesNothing(prev: LocationStatuses, statuses: LocationStatuses, entries: EntryMap)
    requires SuccessKeyedByName(entries)
    ensures var kept := entries - RemovedNames(prev, statuses, entries);
            && (forall n | n in kept && kept[n].WorkspaceLocationEntry? :: n in statuses)
            && RemovedNames(statuses, statuses, kept) == {}
  {
    var kept := entries - RemovedNames(prev, statuses, entries);
    RemovedNamesByKey(prev, statuses, entries);
    RemovedAfterAdvance(statuses, kept);
  }

  /**
   * An error entry for a location absent from the current snapshot survives
   * a pass that has just advanced the previous snapshot.
   */
  lemma ErrorEntrySurvivesAdvance(statuses: LocationStatuses, entries: EntryMap, n: string)
    requires SuccessKeyedByName(entries)
    requires n in entries && entries[n].PythonError?
    ensures n !in RemovedNames(statuses, statuses, entries)
  {
  }

  // ---------------------------------------------------------------------
  // Fetch completions

  /** A resolved detail fetch: the requested name and the entry in the response, if any. */
  datatype Completion = Completion(name: string, response: Option<Entry>)

  /**
   * The write of one completed fetch: a response entry replaces key `name`
   * and no other; a response without an entry leaves the store alone.
   */
  function Deliver(entries: EntryMap, name: string, response: Option<Entry>): (r: EntryMap)
    ensures response.None? ==> r == entries
    ensures response.Some? ==> r.Keys == entries.Keys + {name} && r[name] == response.value
    ensures forall n | n in entries && n != name :: r[n] == entries[n]
  {
    if response.Some? then entries[name := response.value] else entries
  }

  /** The store after a sequence of completions, in the order they resolved. */
  function ApplyCompletions(entries: EntryMap, cs: seq<Completion>): EntryMap
    decreases |cs|
  {
    if cs == [] then entries
    else
      var last := cs[|cs| - 1];
      Deliver(ApplyCompletions(entries, cs[..|cs| - 1]), last.name, last.response)
  }

  /** The entry of the last completion for `name` that carried one. */
  function ResponseFor(cs: seq<Completion>, name: string): Option<Entry>
    decreases |cs|
  {
    if cs == [] then None
    else if cs[|cs| - 1].name == name && cs[|cs| - 1].response.Some? then cs[|cs| - 1].response
    else ResponseFor(cs[..|cs| - 1], name)
  }

  /** No two completions are for the same name. */
  predicate DistinctNames(cs: seq<Completion>)
  {
    forall i, j | 0 <= i < j < |cs| :: cs[i].name != cs[j].name
  }

  /**
   * After a run of completions a name holds the last entry delivered for it,
   * or, when none was, what it held before.
   */
  lemma {:induction false} ApplyCompletionsAt(entries: EntryMap, cs: seq<Completion>, name: string)
    ensures Lookup(ApplyCompletions(entries, cs), name)
            == if ResponseFor(cs, name).Some? then ResponseFor(cs, name) else Lookup(entries, name)
    decreases |cs|
  {
    if cs != [] {
      ApplyCompletionsAt(entries, cs[..|cs| - 1], name);
    }
  }

  /** The entry chosen for a name is one that was delivered for it, and with distinct names it is the only one. */
  lemma {:induction false} ResponseForDelivered(cs: seq<Completion>, name: string)
    ensures ResponseFor(cs, name).Some? ==> Completion(name, ResponseFor(cs, name)) in cs
    ensures DistinctNames(cs) ==> forall e :: Completion(name, Some(e)) in cs ==> ResponseFor(cs, name) == Some(e)
    decreases |cs|
  {
    if cs != [] {
      var init := cs[..|cs| - 1];
      ResponseForDelivered(init, name);
      assert cs == init + [cs[|cs| - 1]];
      if DistinctNames(cs) {
        assert DistinctNames(init);
        forall e | Completion(name, Some(e)) in cs ensures ResponseFor(cs, name) == Some(e) {
          if cs[|cs| - 1] != Completion(name, Some(e)) {
            assert Completion(name, Some(e)) in init;
            var k :| 0 <= k < |init| && init[k] == Completion(name, Some(e));
            assert cs[k].name == name;
            assert cs[|cs| - 1].name != name;
          }
        }
      }
    }
  }

  /**
   * The fetches of a batch may resolve in any order: any two orders of the
   * same completions, one per name, leave the same store.
   */
  lemma ApplyCompletionsAnyOrder(entries: EntryMap, cs: seq<Completion>, ds: seq<Completion>)
    requires DistinctNames(cs) && DistinctNames(ds)
    requires forall c :: c in cs <==> c in ds
    ensures ApplyCompletions(entries, cs) == ApplyCompletions(entries, ds)
  {
    forall n ensures Lookup(ApplyCompletions(entries, cs), n) == Lookup(ApplyCompletions(entries, ds), n) {
      ApplyCompletionsAt(entries, cs, n);
      ApplyCompletionsAt(entries, ds, n);
      ResponseForDelivered(cs, n);
      ResponseForDelivered(ds, n);
    }
    MapsEqualByLookup(ApplyCompletions(entries, cs), ApplyCompletions(entries, ds));
  }

  // ---------------------------------------------------------------------
  // Seeding from the persistent cache

  /** The entry store after the cache bootstrap: every cached entry found for a cached status name. */
  function SeedEntries(cachedLocations: LocationStatuses, cachedDetails: EntryMap): EntryMap
  {
    map n | n in cachedLocations && n in cachedDetails :: cachedDetails[n]
  }

  /** The previous snapshot after the cache bootstrap: the cached rows whose cached entry is a success entry. */
  function SeedPrev(cachedLocations: LocationStatuses, cachedDetails: EntryMap): LocationStatuses
  {
    map n | n in cachedLocations && n in cachedDetails && cachedDetails[n].WorkspaceLocationEntry? :: cachedLocations[n]
  }

  /**
   * The seeded previous snapshot names only locations whose seeded entry is a
   * success entry, and carries their cached status rows.
   */
  lemma SeedPrevHoldsSuccess(cachedLocations: LocationStatuses, cachedDetails: EntryMap)
    ensures SeedPrev(cachedLocations, cachedDetails).Keys <= SeedEntries(cachedLocations, cachedDetails).Keys
    ensures forall n | n in SeedEntries(cachedLocations, cachedDetails) ::
      (n in SeedPrev(cachedLocations, cachedDetails) <==> SeedEntries(cachedLocations, cachedDetails)[n].WorkspaceLocationEntry?)
  {
  }

  /**
   * If the live snapshot equals the cached one, the first pass after the
   * bootstrap refetches exactly the locations whose cached entry is missing,
   * an error, or disagrees with the snapshot's load status.
   */
  lemma FirstPassAfterSeed(cachedLocations: LocationStatuses, cachedDetails: EntryMap)
    ensures StaleNames(SeedPrev(cachedLocations, cachedDetails), cachedLocations, SeedEntries(cachedLocations, cachedDetails))
            == set n | n in cachedLocations && !HoldsLoadStatus(cachedDetails, n, cachedLocations[n].loadStatus)
  {
  }

  // ---------------------------------------------------------------------
  // Worked scenarios

  /**
   * Two loaded locations, nothing seen and nothing held: both are fetched;
   * once both hold matching success entries, the same snapshot fetches nothing.
   */
  lemma TwoNewLocationsScenario()
    ensures var a := StatusEntry("A", Loaded, "v1");
            var b := StatusEntry("B", Loaded, "v1");
            var both: LocationStatuses := map["A" := a, "B" := b];
            && StaleNames(map[], both, map[]) == {"A", "B"}
            && StaleNames(both, both, map["A" := WorkspaceLocationEntry("A", Loaded, None), "B" := WorkspaceLocationEntry("B", Loaded, None)]) == {}
  {
  }

  /** A new version key refetches a location whose load status did not change. */
  lemma VersionBumpScenario()
    ensures var held := map["A" := WorkspaceLocationEntry("A", Loaded, None)];
            var v1: LocationStatuses := map["A" := StatusEntry("A", Loaded, "v1")];
            var v2: LocationStatuses := map["A" := StatusEntry("A", Loaded, "v2")];
            StaleNames(v1, v2, held) == {"A"}
  {
  }

  /**
   * Location B leaves the snapshot: it is removed, A stays, both against the
   * old previous snapshot and against the one an ungated fetch pass has
   * already advanced.
   */
  lemma RemovedLocationScenario()
    ensures var a := StatusEntry("A", Loaded, "v1");
            var b := StatusEntry("B", Loaded, "v1");
            var held := map["A" := WorkspaceLocationEntry("A", Loaded, None), "B" := WorkspaceLocationEntry("B", Loaded, None)];
            && RemovedNames(map["A" := a, "B" := b], map["A" := a], held) == {"B"}
            && RemovedNames(map["A" := a], map["A" := a], held) == {"B"}
  {
    var a := StatusEntry("A", Loaded, "v1");
    var held := map["A" := WorkspaceLocationEntry("A", Loaded, None), "B" := WorkspaceLocationEntry("B", Loaded, None)];
    RemovedAfterAdvance(map["A" := a], held);
    assert SuccessNames(held) == {"A", "B"};
  }
}
