/**
 * The values the workspace context works with: rows of the code-location
 * status query, the detail entries of the location workspace query, and the
 * repository options derived from them.
 */
module WorkspaceTypes {
  import opened Wrappers

  /** Load state of a code location, as reported by the server. */
  datatype LoadStatus = Loading | Loaded

  /** One row of the status query (LocationStatusEntryFragment). */
  datatype StatusEntry = StatusEntry(name: string, loadStatus: LoadStatus, versionKey: string)

  /** The `locationStatusesOrError` union of the status query. */
  datatype StatusResult =
    | WorkspaceLocationStatusEntries(entries: seq<StatusEntry>)
    | StatusPythonError(message: string)

  /** A loaded code location, reduced to its name and the names of its repositories. */
  datatype RepositoryLocation = RepositoryLocation(name: string, repositoryNames: seq<string>)

  /** The `locationOrLoadError` union of a location entry. */
  datatype LocationOrLoadError =
    | Location(location: RepositoryLocation)
    | LocationLoadError(message: string)

  /**
   * A detail entry held per location name: the `WorkspaceLocationEntry`
   * variant (success) or the `PythonError` variant.
   */
  datatype Entry =
    | WorkspaceLocationEntry(name: string, loadStatus: LoadStatus, locationOrLoadError: Option<LocationOrLoadError>)
    | PythonError(message: string)

  /** One (location, repository) pair offered to the rest of the UI. */
  datatype RepoOption = RepoOption(locationName: string, repositoryName: string)

  /**
   * A status snapshot: location name to status row. Every snapshot the
   * provider handles is built by keying rows by their own name, so each
   * value's name is its key.
   */
  type LocationStatuses = m: map<string, StatusEntry> | forall n | n in m :: m[n].name == n
    witness map[]

  /** The entry store: location name to the last detail entry received. */
  type EntryMap = map<string, Entry>

  /** `entries` holds a success entry for `name` whose own load status is `status`. */
  predicate HoldsLoadStatus(entries: EntryMap, name: string, status: LoadStatus)
  {
    name in entries && entries[name].WorkspaceLocationEntry? && entries[name].loadStatus == status
  }

  /** Every success entry is stored under its own location name. */
  predicate SuccessKeyedByName(entries: EntryMap)
  {
    forall n | n in entries && entries[n].WorkspaceLocationEntry? :: entries[n].name == n
  }

  /** The names that hold a success entry. */
  function SuccessNames(entries: EntryMap): set<string>
  {
    set n | n in entries && entries[n].WorkspaceLocationEntry?
  }
}
