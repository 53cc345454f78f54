/**
 * The workspace provider's state and the steps that change it. Each memo and
 * effect of the provider is one method; a render is `Render`, the cache
 * bootstrap is `Bootstrap`, and the network answers arrive as arguments.
 */
module WorkspaceProvider {
  import opened Wrappers
  import opened WorkspaceTypes
  import opened LocationStatusMap
  import opened Reconcile
  import opened RepoSort
  import opened WorkspaceViews

  class Workspace {
    /** The snapshot the last ungated fetch pass reconciled against. */
    var prev: LocationStatuses
    /** The entry store (`locationEntriesData`). */
    var entries: EntryMap
    var didInitiateFetchFromCache: bool
    var didLoadStatusData: bool
    /** Set while a batch of detail fetches is in flight. */
    var isRefetching: bool
    /** The location details held by the persistent cache. */
    ghost var cache: EntryMap
    /** The names of the in-flight batch whose fetches have not resolved yet. */
    ghost var pending: set<string>

    ghost predicate Valid()
      reads this
    {
      && (didLoadStatusData ==> didInitiateFetchFromCache)
      && (isRefetching ==> didLoadStatusData)
      && (!isRefetching ==> pending == {})
      // every held entry is also persisted
      && (forall n | n in entries :: n in cache && cache[n] == entries[n])
    }

    constructor (ghost persisted: EntryMap)
      ensures Valid()
      ensures prev == map[] && entries == map[] && cache == persisted
      ensures !didInitiateFetchFromCache && !didLoadStatusData && !isRefetching
    {
      prev := map[];
      entries := map[];
      didInitiateFetchFromCache := false;
      didLoadStatusData := false;
      isRefetching := false;
      cache := persisted;
      pending := {};
    }

    /**
     * The one-shot cache bootstrap. `cachedStatus` is the cached status
     * response and `cachedDetails` the entries the cache returned, per name;
     * a name it has no entry for is a miss. Only the first call does
     * anything: it seeds the store with every cached entry of a cached status
     * name, seeds the previous snapshot with the rows whose cached entry is a
     * success entry, and then opens the gate of the fetch pass.
     */
    method Bootstrap(cachedStatus: Option<StatusResult>, cachedDetails: EntryMap)
      requires Valid()
      requires forall n | n in cachedDetails :: n in cache && cache[n] == cachedDetails[n]
      modifies this
      ensures Valid()
      ensures old(didInitiateFetchFromCache) ==> unchanged(this)
      ensures !old(didInitiateFetchFromCache) ==>
        && didInitiateFetchFromCache && didLoadStatusData
        && entries == SeedEntries(GetLocations(cachedStatus), cachedDetails)
        && prev == SeedPrev(GetLocations(cachedStatus), cachedDetails)
        && isRefetching == old(isRefetching) && cache == old(cache) && pending == old(pending)
    {
      if didInitiateFetchFromCache {
        return;
      }
      didInitiateFetchFromCache := true;
      var allData, prevCached := LoadCachedEntries(GetLocations(cachedStatus), cachedDetails);
      prev := prevCached;
      didLoadStatusData := true;
      entries := allData;
    }

    /**
     * The fetch pass. Before the bootstrap finished, or while a batch is in
     * flight, it fetches nothing and leaves the previous snapshot alone;
     * otherwise it computes the stale names and then advances the previous
     * snapshot to `statuses`.
     */
    method LocationsToFetch(statuses: LocationStatuses) returns (toFetch: set<string>)
      requires Valid()
      modifies this`prev
      ensures Valid()
      ensures !didLoadStatusData || isRefetching ==> toFetch == {} && prev == old(prev)
      ensures didLoadStatusData && !isRefetching ==>
        toFetch == StaleNames(old(prev), statuses, entries) && prev == statuses
    {
      if !didLoadStatusData {
        return {};
      }
      if isRefetching {
        return {};
      }
      toFetch := StaleNames(prev, statuses, entries);
      prev := statuses;
    }

    /** The removed set of the current state against `statuses`. */
    function LocationsRemoved(statuses: LocationStatuses): (r: set<string>)
      reads this
      ensures r !! statuses.Keys
      ensures prev.Keys - statuses.Keys <= r
    {
      RemovedNames(prev, statuses, entries)
    }

    /** The batch effect's first half: a non-empty fetch set raises the flag. */
    method StartBatch(toFetch: set<string>)
      requires Valid()
      requires toFetch != {} ==> didLoadStatusData && !isRefetching
      modifies this`isRefetching, this`pending
      ensures Valid()
      ensures toFetch == {} ==> isRefetching == old(isRefetching) && pending == old(pending)
      ensures toFetch != {} ==> isRefetching && pending == toFetch
    {
      if toFetch == {} {
        return;
      }
      isRefetching := true;
      pending := toFetch;
    }

    /**
     * The eviction effect: every removed name leaves the store and the
     * persistent cache; everything else stays. The store is replaced only
     * when its key count shrank, which `replaced` reports.
     */
    method Evict(removed: set<string>) returns (replaced: bool)
      requires Valid()
      modifies this`entries, this`cache
      ensures Valid()
      ensures entries == old(entries) - removed
      ensures cache == old(cache) - removed
      ensures replaced <==> removed * old(entries).Keys != {}
    {
      replaced := false;
      if removed == {} {
        MinusDisjoint(entries, removed);
        MinusDisjoint(cache, removed);
        return;
      }
      var copy, cleared := DeleteKeys(entries, cache, removed);
      cache := cleared;
      assert copy.Keys == entries.Keys - removed;
      KeysShrinkIffRemoved(entries.Keys, removed);
      if |copy.Keys| != |entries.Keys| {
        entries := copy;
        replaced := true;
      } else {
        MinusDisjoint(entries, removed);
      }
    }

    /**
     * The write of one resolved detail fetch: a response entry replaces key
     * `name` in the store and in the persistent cache, and a response without
     * an entry changes nothing.
     */
    method RefetchLocation(name: string, response: Option<Entry>)
      requires Valid()
      modifies this`entries, this`cache
      ensures Valid()
      ensures entries == Deliver(old(entries), name, response)
      ensures cache == Deliver(old(cache), name, response)
    {
      if response.Some? {
        entries := entries[name := response.value];
        cache := cache[name := response.value];
      }
    }

    /** A fetch of the in-flight batch resolves. */
    method ResolveBatchFetch(name: string, response: Option<Entry>)
      requires Valid() && name in pending
      modifies this`entries, this`cache, this`pending
      ensures Valid()
      ensures entries == Deliver(old(entries), name, response)
      ensures cache == Deliver(old(cache), name, response)
      ensures pending == old(pending) - {name}
    {
      RefetchLocation(name, response);
      pending := pending - {name};
    }

    /** The batch effect's second half: once every fetch resolved, the flag drops. */
    method EndBatch()
      requires Valid() && isRefetching && pending == {}
      modifies this`isRefetching
      ensures Valid() && !isRefetching
    {
      isRefetching := false;
    }

    /**
     * The bulk `refetch`: a fetch for every current location, whatever the
     * flag says; the completions arrive in any order, one per name.
     */
    method RefetchAll(statuses: LocationStatuses, completions: seq<Completion>)
      requires Valid()
      requires DistinctNames(completions)
      requires forall n :: n in statuses <==> exists c :: c in completions && c.name == n
      modifies this`entries, this`cache
      ensures Valid()
      ensures entries == ApplyCompletions(old(entries), completions)
      ensures cache == ApplyCompletions(old(cache), completions)
    {
      var i := 0;
      while i < |completions|
        invariant 0 <= i <= |completions|
        invariant Valid()
        invariant entries == ApplyCompletions(old(entries), completions[..i])
        invariant cache == ApplyCompletions(old(cache), completions[..i])
      {
        assert completions[..i + 1][..i] == completions[..i];
        RefetchLocation(completions[i].name, completions[i].response);
        i := i + 1;
      }
      assert completions[..i] == completions;
    }

    /** `locationEntries`: the success entries of the store, in enumeration order `order`. */
    function SuccessEntries(order: seq<string>): (r: seq<Entry>)
      reads this
      requires EnumeratesKeys(entries, order)
      ensures forall e :: e in r <==> e in entries.Values && e.WorkspaceLocationEntry?
    {
      LocationEntriesOfStore(entries, order);
      LocationEntries(ValuesInOrder(entries, order))
    }

    /** `allRepos`: the sorted repository options of the loaded locations in the store. */
    function Repos(order: seq<string>): (r: seq<RepoOption>)
      reads this
      requires EnumeratesKeys(entries, order)
      ensures SortedByKey(r)
      ensures forall o :: o in r <==> exists n :: n in entries && Offers(entries[n], o)
    {
      AllReposOfStore(entries, order);
      AllRepos(LocationEntries(ValuesInOrder(entries, order)))
    }

    /** The `loading` flag exposed to consumers. */
    function Loading(statuses: LocationStatuses): bool
      reads this
    {
      IsLoading(didLoadStatusData, statuses, entries)
    }

    /**
     * One render with a new status snapshot, in the provider's order: the
     * fetch memo (which may advance the previous snapshot), the removed memo
     * (which reads the snapshot the fetch memo left), the batch effect, and
     * the eviction effect.
     */
    method Render(statuses: LocationStatuses) returns (toFetch: set<string>, removed: set<string>)
      requires Valid()
      modifies this
      ensures Valid()
      ensures old(!didLoadStatusData || isRefetching) ==> toFetch == {} && prev == old(prev)
      ensures old(didLoadStatusData && !isRefetching) ==>
        toFetch == StaleNames(old(prev), statuses, old(entries)) && prev == statuses
      ensures removed == RemovedNames(prev, statuses, old(entries))
      ensures isRefetching == (old(isRefetching) || toFetch != {})
      ensures pending == if toFetch == {} then old(pending) else toFetch
      ensures entries == old(entries) - removed && cache == old(cache) - removed
      ensures didInitiateFetchFromCache == old(didInitiateFetchFromCache)
      ensures didLoadStatusData == old(didLoadStatusData)
    {
      toFetch := LocationsToFetch(statuses);
      removed := LocationsRemoved(statuses);
      StartBatch(toFetch);
      var _ := Evict(removed);
    }
  }

  /**
   * The loop of the bootstrap: for every cached status row, the cached entry
   * found for its name goes into the new store, and the row goes into the new
   * previous snapshot when that entry is a success entry.
   */
  method LoadCachedEntries(cachedLocations: LocationStatuses, cachedDetails: EntryMap)
    returns (allData: EntryMap, prevCached: LocationStatuses)
    ensures allData == SeedEntries(cachedLocations, cachedDetails)
    ensures prevCached == SeedPrev(cachedLocations, cachedDetails)
  {
    allData := map[];
    prevCached := map[];
    var todo := cachedLocations.Keys;
    while todo != {}
      invariant todo <= cachedLocations.Keys
      invariant forall n :: n in allData <==> n in cachedLocations && n !in todo && n in cachedDetails
      invariant forall n | n in allData :: allData[n] == cachedDetails[n]
      invariant forall n :: n in prevCached <==> n in allData && allData[n].WorkspaceLocationEntry?
      invariant forall n | n in prevCached :: prevCached[n] == cachedLocations[n]
      decreases todo
    {
      var n :| n in todo;
      var location := cachedLocations[n];
      if location.name in cachedDetails {
        var entry := cachedDetails[location.name];
        allData := allData[location.name := entry];
        if entry.WorkspaceLocationEntry? {
          prevCached := prevCached[location.name := location];
        }
      }
      todo := todo - {n};
    }
  }

  /**
   * The loop of the eviction: each removed name is deleted from a copy of the
   * store and cleared from the persistent cache.
   */
  method DeleteKeys(data: EntryMap, ghost persisted: EntryMap, removed: set<string>)
    returns (copy: EntryMap, ghost cleared: EntryMap)
    ensures copy == data - removed
    ensures cleared == persisted - removed
  {
    copy := data;
    cleared := persisted;
    var todo := removed;
    while todo != {}
      invariant todo <= removed
      invariant forall n :: n in copy <==> n in data && (n !in removed || n in todo)
      invariant forall n | n in copy :: copy[n] == data[n]
      invariant forall n :: n in cleared <==> n in persisted && (n !in removed || n in todo)
      invariant forall n | n in cleared :: cleared[n] == persisted[n]
      decreases todo
    {
      var n :| n in todo;
      copy := copy - {n};
      cleared := cleared - {n};
      todo := todo - {n};
    }
  }

  /** Removing keys a map does not hold leaves it as it was. */
  lemma MinusDisjoint(m: EntryMap, removed: set<string>)
    requires removed * m.Keys == {}
    ensures m - removed == m
  {
    forall n | n in m ensures n in m - removed && (m - removed)[n] == m[n] {
      assert n in m.Keys && n !in removed * m.Keys;
    }
    assert (m - removed).Keys == m.Keys;
  }

  /** Removing a set of keys shrinks the key count iff some of them were present. */
  lemma KeysShrinkIffRemoved(keys: set<string>, removed: set<string>)
    ensures |keys - removed| != |keys| <==> removed * keys != {}
  {
  }
}
