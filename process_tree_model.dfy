// ProcessTreeModel: the tree view's state (the item forest, the `_pidToRow`
// index and the flat list it last showed) and `updateData`, which builds a
// snapshot of the records and either rebuilds the view from it or brings the
// view up to date with it.

module TreeModel {
  import opened Records
  import opened DisplayForest
  import opened TreeRows
  import opened TreeBuild
  import opened TreeSync
  import opened TreeUpdate
  import opened WindowsProcessTreeBuilder

  /** A snapshot has no repeated pids and lists parents first. */
  lemma SnapshotParentsFirst(ps: seq<ProcessInfo>, flat: seq<FlatProcessNode>)
    requires IsSnapshot(ps, flat)
    ensures DistinctPids(flat) && ParentsFirst(flat)
  {
    forall i | 0 <= i < |flat|
      ensures ParentIsEarlier(flat, i)
    {
    }
  }

  /** Built from a list without repeated pids in parents-first order, the
      passes leave no entry without a row. */
  lemma BuildShowsAll(flat: seq<FlatProcessNode>, rows: map<Pid, Handle>)
    requires ParentsFirst(flat) && Stuck(flat, rows) && rows.Keys <= PidsOf(flat)
    ensures rows.Keys == PidsOf(flat)
  {
    forall p | p in PidsOf(flat)
      ensures p in rows
    {
      var i :| 0 <= i < |flat| && flat[i].info.pid == p;
      StuckPlacesAll(flat, rows, i);
    }
  }

  class ProcessTreeModel {
    /** Whether `setTreeBuilder` has been called. */
    var hasBuilder: bool
    /** The items of the view. */
    var forest: Forest
    /** `_pidToRow`: the row showing each pid. */
    var pidToRow: map<Pid, Handle>
    /** `_currentFlatTree`: the snapshot the view last showed. */
    var currentFlatTree: seq<FlatProcessNode>

    /** The index and the forest agree. */
    ghost predicate Valid()
      reads this
    {
      Consistent(forest, pidToRow)
    }

    /** A new model: no builder, no rows, no snapshot yet. */
    constructor ()
      ensures Valid() && !hasBuilder
      ensures forest.up == map[] && pidToRow == map[] && currentFlatTree == []
    {
      hasBuilder := false;
      forest := Forest(map[], map[Top := []], map[], 0);
      pidToRow := map[];
      currentFlatTree := [];
    }

    /** `setTreeBuilder`: from now on `updateData` has a builder. */
    method SetTreeBuilder()
      modifies this
      ensures hasBuilder
      ensures forest == old(forest) && pidToRow == old(pidToRow) && currentFlatTree == old(currentFlatTree)
    {
      hasBuilder := true;
    }

    /** `updateData`. Without a builder nothing changes. Otherwise the
        snapshot of `data` is stored; when no snapshot was stored before (or
        it was empty) the view is rebuilt and then shows every entry of it;
        otherwise the view is updated: the rows are those of the update,
        and the snapshot needs no top-level fallback. */
    method UpdateData(data: seq<ProcessInfo>)
      returns (ghost byPid: map<Pid, FlatProcessNode>, ghost fm: Forest, ghost rm: map<Pid, Handle>,
               ghost fb: set<Pid>, ghost doomed: set<Pid>)
      requires Valid()
      modifies this
      ensures Valid() && hasBuilder == old(hasBuilder)
      ensures !hasBuilder ==>
                forest == old(forest) && pidToRow == old(pidToRow) && currentFlatTree == old(currentFlatTree)
      ensures hasBuilder ==> IsSnapshot(data, currentFlatTree)
      ensures hasBuilder && old(currentFlatTree) == [] ==>
                pidToRow.Keys == PidsOf(currentFlatTree) && AllShown(currentFlatTree, forest, pidToRow)
      ensures hasBuilder && old(currentFlatTree) != [] ==>
                && IndexOf(currentFlatTree, byPid)
                && Inserted(currentFlatTree, old(forest), old(pidToRow), byPid, fm, rm, fb)
                && Removed(fm, rm, rm.Keys - PidsOf(currentFlatTree), forest, pidToRow, doomed)
                && fb == {}
    {
      byPid, fm, rm, fb, doomed := map[], forest, pidToRow, {}, {};
      if !hasBuilder {
        return;
      }
      var flat := Snapshot(data);
      SnapshotParentsFirst(data, flat);
      if currentFlatTree == [] {
        var f, rows := BuildView(flat, forest);
        BuildShowsAll(flat, rows);
        forest, pidToRow := f, rows;
      } else {
        var f, rows;
        f, rows, byPid, fm, rm, fb, doomed := UpdateTree(flat, forest, pidToRow);
        SnapshotNeedsNoFallback(flat, forest, pidToRow, byPid, fm, rm, fb);
        forest, pidToRow := f, rows;
      }
      currentFlatTree := flat;
    }
  }
}
