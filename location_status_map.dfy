/** `getLocations`: a status query response normalised into a status snapshot. */
module LocationStatusMap {
  import opened Wrappers
  import opened WorkspaceTypes

  /** The names occurring in a list of status rows. */
  function NamesOf(locs: seq<StatusEntry>): set<string>
  {
    set loc | loc in locs :: loc.name
  }

  /**
   * The reduce step: rows are stored under their name from left to right,
   * so a later row with the same name replaces an earlier one.
   */
  function Collect(acc: LocationStatuses, locs: seq<StatusEntry>): (r: LocationStatuses)
    ensures r.Keys == acc.Keys + NamesOf(locs)
    ensures forall n | n in acc && n !in NamesOf(locs) :: r[n] == acc[n]
    decreases |locs|
  {
    if locs == [] then acc
    else
      assert NamesOf(locs) == {locs[0].name} + NamesOf(locs[1..]);
      Collect(acc[locs[0].name := locs[0]], locs[1..])
  }

  /**
   * The snapshot of a status response: the rows of a
   * `WorkspaceLocationStatusEntries` answer, keyed by name; a missing
   * response or an error answer gives the empty snapshot.
   */
  function GetLocations(d: Option<StatusResult>): (r: LocationStatuses)
    ensures d.Some? && d.value.WorkspaceLocationStatusEntries? ==> r.Keys == NamesOf(d.value.entries)
    ensures !(d.Some? && d.value.WorkspaceLocationStatusEntries?) ==> r == map[]
  {
    var locations := if d.Some? && d.value.WorkspaceLocationStatusEntries? then d.value.entries else [];
    Collect(map[], locations)
  }

  /** After the fold, the row stored for a name is the last row with that name. */
  lemma {:induction false} CollectLast(acc: LocationStatuses, locs: seq<StatusEntry>, n: string)
    requires n in NamesOf(locs)
    ensures exists i :: 0 <= i < |locs| && locs[i].name == n && Collect(acc, locs)[n] == locs[i]
                        && forall j :: i < j < |locs| ==> locs[j].name != n
    decreases |locs|
  {
    var acc' := acc[locs[0].name := locs[0]];
    var rest := locs[1..];
    if n in NamesOf(rest) {
      CollectLast(acc', rest, n);
      var i :| 0 <= i < |rest| && rest[i].name == n && Collect(acc', rest)[n] == rest[i]
               && forall j :: i < j < |rest| ==> rest[j].name != n;
      assert locs[i + 1] == rest[i];
      forall j | i + 1 < j < |locs| ensures locs[j].name != n {
        assert locs[j] == rest[j - 1];
      }
    } else {
      assert locs[0].name == n;
      forall j | 0 < j < |locs| ensures locs[j].name != n {
        assert locs[j] in rest;
      }
    }
  }

  /**
   * `getLocations` keeps, for every name in a status answer, the last row
   * carrying that name.
   */
  lemma GetLocationsKeepsLastRow(entries: seq<StatusEntry>, n: string)
    requires n in NamesOf(entries)
    ensures n in GetLocations(Some(WorkspaceLocationStatusEntries(entries)))
    ensures exists i :: 0 <= i < |entries| && entries[i] == GetLocations(Some(WorkspaceLocationStatusEntries(entries)))[n]
                        && forall j :: i < j < |entries| ==> entries[j].name != n
  {
    CollectLast(map[], entries, n);
  }
}
