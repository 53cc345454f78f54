/**
 * The read surface of the workspace context: the success entries, the sorted
 * repository options and the `loading` flag.
 */
module WorkspaceViews {
  import opened WorkspaceTypes
  import opened RepoSort
  import opened Reconcile

  /** `order` lists every key of the store exactly once: an enumeration order of its properties. */
  predicate EnumeratesKeys(data: EntryMap, order: seq<string>)
  {
    && (forall i, j | 0 <= i < j < |order| :: order[i] != order[j])
    && (forall n | n in order :: n in data)
    && (forall n | n in data :: n in order)
  }

  /**
   * `Object.values` of the store: its values in a property-enumeration order,
   * which is given, since the map does not carry one.
   */
  function ValuesInOrder(data: EntryMap, order: seq<string>): seq<Entry>
    requires EnumeratesKeys(data, order)
  {
    seq(|order|, i requires 0 <= i < |order| => data[order[i]])
  }

  /** `locationEntries`: the success entries, in their original order. */
  function LocationEntries(values: seq<Entry>): (r: seq<Entry>)
    ensures forall e :: e in r <==> e in values && e.WorkspaceLocationEntry?
    ensures |r| <= |values|
    ensures (forall e | e in values :: e.WorkspaceLocationEntry?) ==> r == values
    decreases |values|
  {
    if values == [] then []
    else (if values[0].WorkspaceLocationEntry? then [values[0]] else []) + LocationEntries(values[1..])
  }

  /**
   * The filter keeps order and multiplicity: filtering a concatenation is
   * concatenating the filtered parts.
   */
  lemma {:induction false} LocationEntriesAppend(a: seq<Entry>, b: seq<Entry>)
    ensures LocationEntries(a + b) == LocationEntries(a) + LocationEntries(b)
    decreases |a|
  {
    if a == [] {
      assert a + b == b;
    } else {
      assert (a + b)[0] == a[0];
      assert (a + b)[1..] == a[1..] + b;
      LocationEntriesAppend(a[1..], b);
    }
  }

  /** The enumerated values are exactly the store's values. */
  lemma ValuesInOrderMembers(data: EntryMap, order: seq<string>)
    requires EnumeratesKeys(data, order)
    ensures forall e :: e in ValuesInOrder(data, order) <==> e in data.Values
  {
    var vs := ValuesInOrder(data, order);
    forall e | e in data.Values ensures e in vs {
      var n :| n in data && data[n] == e;
      var i :| 0 <= i < |order| && order[i] == n;
      assert vs[i] == e;
    }
  }

  /** `locationEntries` of the store holds exactly its success entries. */
  lemma LocationEntriesOfStore(data: EntryMap, order: seq<string>)
    requires EnumeratesKeys(data, order)
    ensures forall e :: e in LocationEntries(ValuesInOrder(data, order)) <==> e in data.Values && e.WorkspaceLocationEntry?
  {
    ValuesInOrderMembers(data, order);
  }

  /** One option per repository of a loaded location (the `repoLocationToRepos` helper). */
  function RepoLocationToRepos(location: RepositoryLocation): seq<RepoOption>
  {
    seq(|location.repositoryNames|, i requires 0 <= i < |location.repositoryNames| =>
      RepoOption(location.name, location.repositoryNames[i]))
  }

  /** The options contributed by one entry: none unless its location loaded. */
  function ReposOf(e: Entry): seq<RepoOption>
  {
    if e.WorkspaceLocationEntry? && e.locationOrLoadError.Some? && e.locationOrLoadError.value.Location? then
      RepoLocationToRepos(e.locationOrLoadError.value.location)
    else []
  }

  /** The reduce of `allRepos`: every entry's options, concatenated in entry order. */
  function CollectRepos(es: seq<Entry>): seq<RepoOption>
    decreases |es|
  {
    if es == [] then [] else ReposOf(es[0]) + CollectRepos(es[1..])
  }

  /** `allRepos`: the collected options sorted by `location:repository`. */
  function AllRepos(es: seq<Entry>): seq<RepoOption>
  {
    SortByKey(CollectRepos(es))
  }

  /** `o` is offered by `e`: `e` is a success entry of a loaded location that has `o`'s repository. */
  predicate Offers(e: Entry, o: RepoOption)
  {
    && e.WorkspaceLocationEntry?
    && e.locationOrLoadError.Some?
    && e.locationOrLoadError.value.Location?
    && o.locationName == e.locationOrLoadError.value.location.name
    && o.repositoryName in e.locationOrLoadError.value.location.repositoryNames
  }

  lemma ReposOfOffers(e: Entry, o: RepoOption)
    ensures o in ReposOf(e) <==> Offers(e, o)
  {
  }

  lemma {:induction false} CollectReposMembers(es: seq<Entry>, o: RepoOption)
    ensures o in CollectRepos(es) <==> exists k :: 0 <= k < |es| && Offers(es[k], o)
    decreases |es|
  {
    if es != [] {
      CollectReposMembers(es[1..], o);
      ReposOfOffers(es[0], o);
      if exists k :: 0 <= k < |es| && Offers(es[k], o) {
        var k :| 0 <= k < |es| && Offers(es[k], o);
        if k > 0 {
          assert es[1..][k - 1] == es[k];
        }
      }
      if exists k :: 0 <= k < |es[1..]| && Offers(es[1..][k], o) {
        var k :| 0 <= k < |es[1..]| && Offers(es[1..][k], o);
        assert es[k + 1] == es[1..][k];
      }
    }
  }

  /**
   * `allRepos` is sorted by `location:repository`, is a permutation of the
   * collected options, and holds exactly the repositories of the loaded
   * locations among the given entries.
   */
  lemma AllReposSpec(es: seq<Entry>)
    ensures SortedByKey(AllRepos(es))
    ensures multiset(AllRepos(es)) == multiset(CollectRepos(es))
    ensures forall o :: o in AllRepos(es) <==> exists k :: 0 <= k < |es| && Offers(es[k], o)
  {
    forall o ensures o in AllRepos(es) <==> exists k :: 0 <= k < |es| && Offers(es[k], o) {
      CollectReposMembers(es, o);
      assert o in AllRepos(es) <==> o in multiset(AllRepos(es));
      assert o in CollectRepos(es) <==> o in multiset(CollectRepos(es));
    }
  }

  /**
   * Over the store's values, `allRepos` of the success entries holds exactly
   * the repositories offered by some value; error entries offer none.
   */
  lemma AllReposOfLocationEntries(values: seq<Entry>, o: RepoOption)
    ensures o in AllRepos(LocationEntries(values)) <==> exists e :: e in values && Offers(e, o)
  {
    var es := LocationEntries(values);
    AllReposSpec(es);
    if exists e :: e in values && Offers(e, o) {
      var e :| e in values && Offers(e, o);
      assert e in es;
      var k :| 0 <= k < |es| && es[k] == e;
    }
    if o in AllRepos(es) {
      var k :| 0 <= k < |es| && Offers(es[k], o);
      assert es[k] in values;
    }
  }

  /**
   * `allRepos` of the store holds exactly the repositories offered by some
   * held entry, whatever order the properties enumerate in.
   */
  lemma AllReposOfStore(data: EntryMap, order: seq<string>)
    requires EnumeratesKeys(data, order)
    ensures SortedByKey(AllRepos(LocationEntries(ValuesInOrder(data, order))))
    ensures forall o :: o in AllRepos(LocationEntries(ValuesInOrder(data, order))) <==> exists n :: n in data && Offers(data[n], o)
  {
    var values := ValuesInOrder(data, order);
    ValuesInOrderMembers(data, order);
    AllReposSpec(LocationEntries(values));
    forall o ensures o in AllRepos(LocationEntries(values)) <==> exists n :: n in data && Offers(data[n], o) {
      AllReposOfLocationEntries(values, o);
      if exists n :: n in data && Offers(data[n], o) {
        var n :| n in data && Offers(data[n], o);
        assert data[n] in data.Values;
      }
    }
  }

  /** The `loading` flag: set until the bootstrap finished and every current name holds some entry. */
  function IsLoading(didLoadStatusData: bool, statuses: LocationStatuses, entries: EntryMap): bool
  {
    !(didLoadStatusData && forall n | n in statuses :: n in entries)
  }

  /**
   * Once the bootstrap finished, `loading` clears as soon as every current
   * name has either held an entry or received one, success or error.
   */
  lemma LoadingClearsWhenAllDelivered(statuses: LocationStatuses, entries: EntryMap, cs: seq<Completion>)
    requires forall n | n in statuses :: n in entries || ResponseFor(cs, n).Some?
    ensures !IsLoading(true, statuses, ApplyCompletions(entries, cs))
  {
    forall n | n in statuses ensures n in ApplyCompletions(entries, cs) {
      ApplyCompletionsAt(entries, cs, n);
    }
  }

  /**
   * Conversely, a current name that held no entry and received none keeps
   * `loading` set, whatever else was delivered.
   */
  lemma LoadingUntilDelivered(statuses: LocationStatuses, entries: EntryMap, cs: seq<Completion>, n: string)
    requires n in statuses && n !in entries && ResponseFor(cs, n).None?
    ensures IsLoading(true, statuses, ApplyCompletions(entries, cs))
  {
    ApplyCompletionsAt(entries, cs, n);
  }
}
