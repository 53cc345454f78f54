# Workspace reconciliation engine (Dagster UI `WorkspaceContext`)

This project models the reconciliation core of the Dagster UI's workspace
provider and proves properties of it in Dafny. The provider keeps a
client-side store of code-location detail entries (`locationEntriesData`) in
step with a polled status summary (`locationStatuses`). It does four things:

- it normalises each status response into a name-to-row snapshot (`getLocations`);
- it decides which locations need a detail refetch, comparing the snapshot with the
  previous snapshot and with the held entries, and then advances the previous snapshot;
- it runs those refetches as one batch, guarded by a single global `isRefetching` flag;
- it evicts the locations that left the snapshot from the store and from the persistent cache.

The store is seeded once from the persistent cache before any comparison runs.
Read-only views are derived from the store: the success entries, the repository
options sorted by `location:repository`, and the `loading` flag.

Layout, one module per file:

- `wrappers.dfy` (`Wrappers`): `Option`.
- `workspace_types.dfy` (`WorkspaceTypes`): status rows, detail entries (success
  `WorkspaceLocationEntry` or `PythonError`), repository options. Also
  `LocationStatuses`, a snapshot map whose every row is stored under its own name.
- `location_status_map.dfy` (`LocationStatusMap`): `getLocations`.
- `reconcile.dfy` (`Reconcile`): the fetch set, the removed set, how fetch
  completions land in the store, and how the cache bootstrap seeds the state, all
  as pure functions with the lemmas about them.
- `repo_sort.dfy` (`RepoSort`): the insertion sort by `location:repository`.
- `workspace_views.dfy` (`WorkspaceViews`): `locationEntries`, `allRepos`, `loading`.
- `workspace_provider.dfy` (`WorkspaceProvider`): class `Workspace` with the
  provider's state (`prev`, `entries`, the three flags, a ghost `cache` of persisted
  details and a ghost `pending` set for the in-flight batch). Each memo and effect is
  one method, and `Render` runs them in the provider's order.

Network and cache answers are method arguments. The status response is an
`Option<StatusResult>`, a detail response is an `Option<Entry>`, and a cache read is a
map of the entries the cache returned. `Valid()` states that every held entry is also
persisted, that the batch flag is only up after the bootstrap, and that `pending` is
empty when no batch is in flight.

Where the code does something other than one might expect, the model follows the
code:

- Eviction takes the success entries whose own name left the snapshot, plus the
  previous-snapshot rows that left it. Error entries are never evicted on their own
  account, although one might expect every held name that left to be evicted.
- The fetch memo runs before the removed memo in a render. So on an ungated pass the
  previous snapshot is already the current one when the removed set is computed, and
  only success entries are evicted. An error entry of a vanished location then stays
  in the store. `Reconcile.RemovedAfterAdvance` and
  `Reconcile.ErrorEntrySurvivesAdvance` state this.
- The fetch filter refetches any location not holding a success entry with the
  current load status. That includes error entries and missing entries, even when the
  version key is unchanged.
- The bulk `refetch` issues its fetches concurrently, not one after another.
- `LoadStatus` has the two values of the server's enum. The logic only compares load
  statuses for equality.

## Model

| member | source | states |
|---|---|---|
| `LocationStatusMap.Collect` | js_modules/dagster-ui/packages/ui-core/src/workspace/WorkspaceContext/WorkspaceContext.tsx:332-338 | the fold's keys are the accumulator's keys plus every row name; untouched accumulator keys keep their rows |
| `LocationStatusMap.GetLocations` | js_modules/dagster-ui/packages/ui-core/src/workspace/WorkspaceContext/WorkspaceContext.tsx:326-339 | the snapshot's names are exactly the row names of a `WorkspaceLocationStatusEntries` answer; a missing response or an error answer gives the empty snapshot; every row sits under its own name (by its type) |
| `LocationStatusMap.CollectLast` | js_modules/dagster-ui/packages/ui-core/src/workspace/WorkspaceContext/WorkspaceContext.tsx:332-338 | after the fold, the row stored for a name is the last row in the list with that name |
| `LocationStatusMap.GetLocationsKeepsLastRow` | js_modules/dagster-ui/packages/ui-core/src/workspace/WorkspaceContext/WorkspaceContext.tsx:326-339 | for duplicated names in a status answer, `getLocations` keeps the last row |
| `Reconcile.StaleNames` | js_modules/dagster-ui/packages/ui-core/src/workspace/WorkspaceContext/WorkspaceContext.tsx:201-210 | the filter callback (`NeedsFetch`) taken as a set: a current location is fetched iff it is unseen in the previous snapshot, or its version key or load status changed, or the store lacks a success entry with the current load status |
| `Reconcile.SameSnapshotIsQuiet` | js_modules/dagster-ui/packages/ui-core/src/workspace/WorkspaceContext/WorkspaceContext.tsx:201-211 | reconciling a snapshot against itself, when every name holds a success entry with matching load status, fetches nothing |
| `Reconcile.VersionChangeRefetches` | js_modules/dagster-ui/packages/ui-core/src/workspace/WorkspaceContext/WorkspaceContext.tsx:206 | a changed version key refetches the location whatever its load status |
| `Reconcile.FetchedThenQuiet` | js_modules/dagster-ui/packages/ui-core/src/workspace/WorkspaceContext/WorkspaceContext.tsx:201-226 | once every fetched name received a success entry agreeing with the snapshot, the next pass over the same snapshot fetches nothing |
| `Reconcile.RemovedNames` | js_modules/dagster-ui/packages/ui-core/src/workspace/WorkspaceContext/WorkspaceContext.tsx:229-243 | no removed name is in the current snapshot, and every previous-snapshot name missing from it is removed |
| `Reconcile.RemovedNamesByKey` | js_modules/dagster-ui/packages/ui-core/src/workspace/WorkspaceContext/WorkspaceContext.tsx:229-243 | with success entries stored under their own names, the removed set is exactly the vanished previous-snapshot names plus the vanished success-entry names |
| `Reconcile.RemovedAfterAdvance` | js_modules/dagster-ui/packages/ui-core/src/workspace/WorkspaceContext/WorkspaceContext.tsx:211-243 | right after the fetch pass advanced the previous snapshot, only vanished success entries are removed |
| `Reconcile.SecondPassRemovesNothing` | js_modules/dagster-ui/packages/ui-core/src/workspace/WorkspaceContext/WorkspaceContext.tsx:229-257 | after one eviction no success entry of a vanished location is left, and a second pass over the same snapshot removes nothing |
| `Reconcile.ErrorEntrySurvivesAdvance` | js_modules/dagster-ui/packages/ui-core/src/workspace/WorkspaceContext/WorkspaceContext.tsx:236-239 | an error entry is not removed by a pass that just advanced the previous snapshot, even when its location left |
| `Reconcile.Deliver` | js_modules/dagster-ui/packages/ui-core/src/workspace/WorkspaceContext/WorkspaceContext.tsx:179-186 | a response entry replaces key `name` and leaves every other key and value unchanged; a response without an entry changes nothing |
| `Reconcile.ApplyCompletionsAt` | js_modules/dagster-ui/packages/ui-core/src/workspace/WorkspaceContext/WorkspaceContext.tsx:220-226 | the batch's writes in resolution order (`ApplyCompletions`): after a run of fetch completions, a name holds the last entry delivered for it, or what it held before if none was |
| `Reconcile.ResponseForDelivered` | js_modules/dagster-ui/packages/ui-core/src/workspace/WorkspaceContext/WorkspaceContext.tsx:220-226 | the entry chosen for a name was delivered for it; with one completion per name it is that completion's entry |
| `Reconcile.ApplyCompletionsAnyOrder` | js_modules/dagster-ui/packages/ui-core/src/workspace/WorkspaceContext/WorkspaceContext.tsx:220-226 | the batch's fetches, one per name, leave the same store whatever order they resolve in |
| `Reconcile.SeedPrevHoldsSuccess` | js_modules/dagster-ui/packages/ui-core/src/workspace/WorkspaceContext/WorkspaceContext.tsx:146-154 | the seeded previous snapshot names only seeded locations, exactly those whose seeded entry is a success entry |
| `Reconcile.FirstPassAfterSeed` | js_modules/dagster-ui/packages/ui-core/src/workspace/WorkspaceContext/WorkspaceContext.tsx:124-160 | if the live snapshot equals the cached one, the first pass after the bootstrap fetches exactly the names whose cached entry is missing, an error, or disagrees on load status |
| `Reconcile.TwoNewLocationsScenario` | js_modules/dagster-ui/packages/ui-core/src/workspace/WorkspaceContext/WorkspaceContext.tsx:201-211 | two new loaded locations are both fetched; with matching success entries the same snapshot then fetches nothing |
| `Reconcile.VersionBumpScenario` | js_modules/dagster-ui/packages/ui-core/src/workspace/WorkspaceContext/WorkspaceContext.tsx:206 | a version bump from v1 to v2 with unchanged status fetches that location |
| `Reconcile.RemovedLocationScenario` | js_modules/dagster-ui/packages/ui-core/src/workspace/WorkspaceContext/WorkspaceContext.tsx:211-243 | when B leaves the snapshot {A, B}, the removed set is exactly {B}, both against the old previous snapshot and against the one an ungated fetch pass has already advanced to {A} |
| `RepoSort.LexLeTotal` | js_modules/dagster-ui/packages/ui-core/src/workspace/WorkspaceContext/WorkspaceContext.tsx:283 | any two sort keys are ordered one way or the other |
| `RepoSort.LexLeTransitive` | js_modules/dagster-ui/packages/ui-core/src/workspace/WorkspaceContext/WorkspaceContext.tsx:283 | the key order is transitive |
| `RepoSort.Insert` | js_modules/dagster-ui/packages/ui-core/src/workspace/WorkspaceContext/WorkspaceContext.tsx:271-284 | inserting into a sorted list keeps it sorted and adds exactly the one element |
| `RepoSort.SortByKey` | js_modules/dagster-ui/packages/ui-core/src/workspace/WorkspaceContext/WorkspaceContext.tsx:271-284 | the result is sorted by `location:repository` and is a permutation of the input |
| `WorkspaceViews.LocationEntries` | js_modules/dagster-ui/packages/ui-core/src/workspace/WorkspaceContext/WorkspaceContext.tsx:259-266 | the result holds exactly the success entries among the values, and is no longer than them; values that are all success entries come back unchanged |
| `WorkspaceViews.LocationEntriesAppend` | js_modules/dagster-ui/packages/ui-core/src/workspace/WorkspaceContext/WorkspaceContext.tsx:261-264 | the filter keeps order and multiplicity: filtering a concatenation concatenates the filtered parts |
| `WorkspaceViews.ReposOfOffers` | js_modules/dagster-ui/packages/ui-core/src/workspace/WorkspaceContext/WorkspaceContext.tsx:273-278 | an entry contributes an option iff it is a success entry of a loaded location that has that repository |
| `WorkspaceViews.CollectReposMembers` | js_modules/dagster-ui/packages/ui-core/src/workspace/WorkspaceContext/WorkspaceContext.tsx:272-280 | the reduce (`CollectRepos`) collects exactly the options some entry offers |
| `WorkspaceViews.AllReposSpec` | js_modules/dagster-ui/packages/ui-core/src/workspace/WorkspaceContext/WorkspaceContext.tsx:268-287 | `allRepos` (`AllRepos`) is sorted by `location:repository`, is a permutation of the collected options, and holds exactly the offered repositories |
| `WorkspaceViews.AllReposOfLocationEntries` | js_modules/dagster-ui/packages/ui-core/src/workspace/WorkspaceContext/WorkspaceContext.tsx:259-287 | over any sequence of entry values, `allRepos` of the success entries holds exactly the repositories offered by some value |
| `WorkspaceViews.ValuesInOrderMembers` | js_modules/dagster-ui/packages/ui-core/src/workspace/WorkspaceContext/WorkspaceContext.tsx:261 | `Object.values` of the store, in an order listing each key once, holds exactly the store's values |
| `WorkspaceViews.LocationEntriesOfStore` | js_modules/dagster-ui/packages/ui-core/src/workspace/WorkspaceContext/WorkspaceContext.tsx:259-266 | `locationEntries` of the store holds exactly its success entries |
| `WorkspaceViews.AllReposOfStore` | js_modules/dagster-ui/packages/ui-core/src/workspace/WorkspaceContext/WorkspaceContext.tsx:259-287 | `allRepos` of the store is sorted by `location:repository` and holds exactly the repositories offered by some held entry |
| `WorkspaceViews.LoadingClearsWhenAllDelivered` | js_modules/dagster-ui/packages/ui-core/src/workspace/WorkspaceContext/WorkspaceContext.tsx:305-308 | after the bootstrap, `loading` (`IsLoading`, exposed as `Workspace.Loading`) clears once every current name held or received an entry, success or error |
| `WorkspaceViews.LoadingUntilDelivered` | js_modules/dagster-ui/packages/ui-core/src/workspace/WorkspaceContext/WorkspaceContext.tsx:305-308 | conversely, a current name that neither held nor received an entry keeps `loading` (`IsLoading`) set, whatever else was delivered |
| `WorkspaceProvider.Workspace.constructor` | js_modules/dagster-ui/packages/ui-core/src/workspace/WorkspaceContext/WorkspaceContext.tsx:103-110 | empty previous snapshot and store, all flags down, the cache as persisted |
| `WorkspaceProvider.Workspace.Bootstrap` | js_modules/dagster-ui/packages/ui-core/src/workspace/WorkspaceContext/WorkspaceContext.tsx:116-163 | a second call changes nothing; the first seeds the store with every cached entry of a cached status name, seeds the previous snapshot with the rows whose cached entry is a success entry, and opens the gate |
| `WorkspaceProvider.LoadCachedEntries` | js_modules/dagster-ui/packages/ui-core/src/workspace/WorkspaceContext/WorkspaceContext.tsx:140-156 | the loop over the cached rows yields exactly the seeded store and the seeded previous snapshot |
| `WorkspaceProvider.Workspace.LocationsToFetch` | js_modules/dagster-ui/packages/ui-core/src/workspace/WorkspaceContext/WorkspaceContext.tsx:194-213 | gated (bootstrap unfinished or batch in flight): empty fetch set and the previous snapshot untouched; otherwise the stale names, and the previous snapshot becomes the current one |
| `WorkspaceProvider.Workspace.LocationsRemoved` | js_modules/dagster-ui/packages/ui-core/src/workspace/WorkspaceContext/WorkspaceContext.tsx:229-243 | the removed set avoids the current snapshot and covers the vanished previous-snapshot names |
| `WorkspaceProvider.Workspace.StartBatch` | js_modules/dagster-ui/packages/ui-core/src/workspace/WorkspaceContext/WorkspaceContext.tsx:215-219 | an empty fetch set changes nothing; a non-empty one raises the flag and makes its names pending |
| `WorkspaceProvider.Workspace.RefetchLocation` | js_modules/dagster-ui/packages/ui-core/src/workspace/WorkspaceContext/WorkspaceContext.tsx:167-190 | a response entry overwrites only key `name`, in the store and in the cache; no entry, no change |
| `WorkspaceProvider.Workspace.ResolveBatchFetch` | js_modules/dagster-ui/packages/ui-core/src/workspace/WorkspaceContext/WorkspaceContext.tsx:220-223 | a pending fetch resolves: a response entry replaces key `name` in the store and in the cache, no entry changes neither, and the name is no longer pending |
| `WorkspaceProvider.Workspace.EndBatch` | js_modules/dagster-ui/packages/ui-core/src/workspace/WorkspaceContext/WorkspaceContext.tsx:224-226 | once no fetch is pending, the flag drops |
| `WorkspaceProvider.Workspace.Evict` | js_modules/dagster-ui/packages/ui-core/src/workspace/WorkspaceContext/WorkspaceContext.tsx:245-257 | the store loses exactly the removed names and keeps every other key and value; the cache loses the removed names; the store is replaced iff a removed name was held |
| `WorkspaceProvider.DeleteKeys` | js_modules/dagster-ui/packages/ui-core/src/workspace/WorkspaceContext/WorkspaceContext.tsx:249-253 | the deletion loop leaves the copy and the cache without exactly the removed names |
| `WorkspaceProvider.KeysShrinkIffRemoved` | js_modules/dagster-ui/packages/ui-core/src/workspace/WorkspaceContext/WorkspaceContext.tsx:254-256 | the key count changes iff some removed name was a key |
| `WorkspaceProvider.Workspace.RefetchAll` | js_modules/dagster-ui/packages/ui-core/src/workspace/WorkspaceContext/WorkspaceContext.tsx:291-300 | every current name's completion is applied to the store and to the cache, in resolution order, without touching the flag or the previous snapshot |
| `WorkspaceProvider.Workspace.SuccessEntries` | js_modules/dagster-ui/packages/ui-core/src/workspace/WorkspaceContext/WorkspaceContext.tsx:259-266 | the provider's `locationEntries`: exactly the success entries the store holds |
| `WorkspaceProvider.Workspace.Repos` | js_modules/dagster-ui/packages/ui-core/src/workspace/WorkspaceContext/WorkspaceContext.tsx:268-287 | the provider's `allRepos`: sorted by `location:repository`, and exactly the repositories of the loaded locations the store holds |
| `WorkspaceProvider.Workspace.Render` | js_modules/dagster-ui/packages/ui-core/src/workspace/WorkspaceContext/WorkspaceContext.tsx:194-257 | one render: the gated or ungated fetch pass, the removed set computed against the snapshot that pass left, the batch started for a non-empty fetch set, and the removed names evicted |

## Left out

- React machinery: `useMemo`/`useLayoutEffect` dependency arrays, when a memo
  recomputes, re-render scheduling, and the provider's rendering. Each memo and
  effect is a method that the environment calls, and `Render` runs one render in
  source order.
- The Recoil status-atom mirroring and the `indexedDB.deleteDatabase` call. They are
  global side effects with no logic.
- Interval polling (every 5 s, leading). Each poll result is simply the argument of
  the next `Render`.
- Transport: the Apollo and IndexedDB calls behind `getData`, `getCachedData` and
  `clearCachedData`. Their answers are arguments, and the persistent cache is the ghost
  map `cache`, keyed by location name. The key prefix and the schema version are not
  modelled.
- RefetchLocation: persists the detail entry only when the response carries one. What
  the cache stores for a response without an entry is not modelled.
- Promise concurrency. A batch is `StartBatch`, then `ResolveBatchFetch` once per name
  in any order (other renders may come in between), then `EndBatch`. Order
  independence is proved for the pure model (`Reconcile.ApplyCompletionsAnyOrder`).
- RefetchAll: does not return the list of query results that the bulk `refetch`
  resolves to; only its effect on the store is stated.
- Bootstrap: runs as one atomic step. The asynchronous gap between raising
  `didInitiateFetchFromCache` and applying the seeded state is not modelled. A bulk
  refetch that lands in that gap is overwritten by the seed in the source.
- Location names are assumed not to be `Object.prototype` property names. The source
  keeps snapshots and the store in plain objects, so a name such as `constructor`
  reads an inherited value: `loading` would see an entry that is not there, the
  removed set would never hold that name, and a `__proto__` row would be dropped by
  `getLocations`. The model treats the objects as maps.
- EndBatch: assumes every fetch of the batch settles. In the source the flag is only
  lowered in the batch's `.then`, with no `.catch` or `.finally`, so a rejected fetch
  leaves the flag up and gates every later fetch pass; the model has no rejected fetch.
- Bootstrap: assumes the cache read succeeds. In the source a rejected cache read
  means the bootstrap never opens the gate (`didLoadStatusData` stays false); the
  model has no rejected cache read.
- The removed set deduplicates row and entry objects, not names. It is modelled as a
  set of names; deleting and clearing a name twice is the same as once.
- `useVisibleRepos` (visible/hidden repositories, toggling) is not part of this model.
  The `./util` helper `repoLocationToRepos` is not part of this model either: it is
  modelled as one option per repository of the loaded location.
- SortByKey: stability (equal keys keep their input order) is not stated, although
  the insertion sort keeps it. Keys are compared by Unicode code point, while
  JavaScript compares UTF-16 code units; the two differ only for characters outside
  the Basic Multilingual Plane.
- Property-enumeration order of `Object.values`: `Workspace.SuccessEntries` and
  `Workspace.Repos` take it as an argument `order` that lists every key of the store
  once (`WorkspaceViews.EnumeratesKeys`). JavaScript's ordering rules for integer-like
  keys are not modelled; membership and sortedness do not depend on the order.
- The Python files `fetch_instigators.py`, `decorators/executable.py` and
  `decorators/__init__.py` are not part of this model. They are GraphQL resolvers and
  decorator wrappers over code not shown, with no reconciliation logic.
