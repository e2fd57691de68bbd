// A later refresh of the tree view (ProcessTreeModel::updateTreeFromNewFlatList):
// rewrite the cells of the rows whose pids are listed again, add rows for the
// new pids, then take out the rows of the pids no longer listed together with
// everything shown below them.

module TreeUpdate {
  import opened Records
  import opened DisplayForest
  import opened TreeRows
  import opened TreeSync
  import opened TreeRemove

  /** Steps 1 and 2 took `f`/`rows` to `g`/`r`: every listed pid has a row;
      the old rows kept their handles and slots; every listed pid's row
      shows the entry its pid is indexed to; and each new pid's row sits under
      its parent's row, or at the top level for parent pid 0 and for the
      fallback `fb`, whose parent pids had no row; no row the passes placed
      sits under a fallback row. */
  ghost predicate Inserted(flat: seq<FlatProcessNode>, f: Forest, rows: map<Pid, Handle>, byPid: map<Pid, FlatProcessNode>,
                           g: Forest, r: map<Pid, Handle>, fb: set<Pid>)
  {
    && Consistent(g, r) && r.Keys == rows.Keys + PidsOf(flat)
    && (forall p :: p in rows ==> r[p] == rows[p] && rows[p] in f.up && g.up[rows[p]] == f.up[rows[p]])
    && (forall p :: p in r && p in byPid ==> g.cells[r[p]] == CellsFor(byPid[p].info))
    && fb <= PidsOf(flat) - rows.Keys
    && AllNewShown(g, r, byPid, PidsOf(flat) - rows.Keys, fb)
    && (forall p :: p in fb ==> p in byPid && byPid[p].parentPID != 0 && byPid[p].parentPID !in r.Keys - fb)
    && FallbackIsLast(byPid, PidsOf(flat) - rows.Keys, fb)
  }

  /** Step 3 took `f`/`rows` to `g`/`r`: `doomed` holds the pids of the rows
      of `gone` and of every row below them, their rows are gone, and every
      other row is untouched. */
  ghost predicate Removed(f: Forest, rows: map<Pid, Handle>, gone: set<Pid>, g: Forest, r: map<Pid, Handle>, doomed: set<Pid>)
  {
    && doomed == DoomedPids(f, rows, gone) && AllClosed(f, doomed)
    && Consistent(g, r) && r.Keys == rows.Keys - doomed
    && Survives(f, rows, g, r)
  }

  /** Step 3 as a whole: collect the rows of `rows`' pids missing from `pids`
      with their subtrees, order them deepest first and take them out. */
  method RemoveMissing(f: Forest, rows: map<Pid, Handle>, pids: set<Pid>)
    returns (f': Forest, rows': map<Pid, Handle>, doomed: set<Pid>)
    requires Consistent(f, rows)
    ensures Removed(f, rows, rows.Keys - pids, f', rows', doomed)
  {
    var missing := MissingPids(rows, pids);
    doomed := CollectDoomed(f, rows, missing);
    DoomedIndexed(f, rows, missing);
    var rs := Removals(f, rows, doomed);
    var sorted := SortByDepth(rs);
    Reordered(f, rows, rs, sorted);
    f', rows' := RemoveRows(f, rows, sorted);
  }

  /** Step 1 with what it achieves: every listed pid's old row now shows the
      entry its pid is indexed to, and no row moved. */
  method RefreshShown(f: Forest, rows: map<Pid, Handle>, byPid: map<Pid, FlatProcessNode>) returns (g: Forest)
    requires Consistent(f, rows) && forall p :: p in byPid ==> byPid[p].info.pid == p
    ensures Consistent(g, rows) && g.up == f.up
    ensures forall p :: p in rows && p in byPid ==> g.cells[rows[p]] == CellsFor(byPid[p].info)
  {
    g := RefreshRows(f, rows, byPid);
    forall p | p in rows && p in byPid
      ensures g.cells[rows[p]] == CellsFor(byPid[p].info)
    {
      CellsOfRow(f, rows, rows[p], byPid[p].info);
    }
  }

  /** Steps 1 and 2: refresh the rows of listed pids, then add the rows of
      the new ones. */
  method RefreshAndInsert(flat: seq<FlatProcessNode>, f: Forest, rows: map<Pid, Handle>, byPid: map<Pid, FlatProcessNode>)
    returns (f': Forest, rows': map<Pid, Handle>, ghost fb: set<Pid>)
    requires Consistent(f, rows) && IndexOf(flat, byPid)
    ensures Inserted(flat, f, rows, byPid, f', rows', fb)
  {
    var f1 := RefreshShown(f, rows, byPid);
    f', rows', fb := InsertNew(flat, f1, rows, byPid);
    InsertedFrom(flat, f, rows, byPid, f1, f', rows', fb);
  }

  /** The refresh and the insertion together give `Inserted`: old rows keep
      their refreshed cells, new rows are made from their entries. */
  lemma InsertedFrom(flat: seq<FlatProcessNode>, f: Forest, rows: map<Pid, Handle>, byPid: map<Pid, FlatProcessNode>,
                     f1: Forest, f2: Forest, rows2: map<Pid, Handle>, fb: set<Pid>)
    requires Consistent(f, rows) && byPid.Keys == PidsOf(flat) && (forall p :: p in byPid ==> byPid[p].info.pid == p)
    requires Consistent(f1, rows) && f1.up == f.up
    requires forall p :: p in rows && p in byPid ==> f1.cells[rows[p]] == CellsFor(byPid[p].info)
    requires Consistent(f2, rows2) && Extends(f1, rows, f2, rows2) && rows2.Keys == rows.Keys + PidsOf(flat)
    requires fb <= PidsOf(flat) - rows.Keys && AllNewShown(f2, rows2, byPid, PidsOf(flat) - rows.Keys, fb)
    requires forall p :: p in fb ==> byPid[p].parentPID != 0 && byPid[p].parentPID !in rows2.Keys - fb
    requires FallbackIsLast(byPid, PidsOf(flat) - rows.Keys, fb)
    ensures Inserted(flat, f, rows, byPid, f2, rows2, fb)
  {
    forall p | p in rows2 && p in byPid
      ensures f2.cells[rows2[p]] == CellsFor(byPid[p].info)
    {
      if p !in rows {
        assert NewShown(f2, rows2, byPid[p], fb);
      }
    }
  }

  /** `updateTreeFromNewFlatList`: the three steps in order. `byPid` is the
      index of the new list, `fm`/`rm` the view after steps 1 and 2, `fb`
      the new pids the fallback put at the top level, and `doomed` the pids
      step 3 takes out: those of the indexed pids no longer listed and of
      every row below one of them. */
  method UpdateTree(flat: seq<FlatProcessNode>, f: Forest, rows: map<Pid, Handle>)
    returns (f': Forest, rows': map<Pid, Handle>, ghost byPid: map<Pid, FlatProcessNode>,
             ghost fm: Forest, ghost rm: map<Pid, Handle>, ghost fb: set<Pid>, ghost doomed: set<Pid>)
    requires Consistent(f, rows)
    ensures IndexOf(flat, byPid)
    ensures Inserted(flat, f, rows, byPid, fm, rm, fb)
    ensures Removed(fm, rm, rm.Keys - PidsOf(flat), f', rows', doomed)
  {
    var index, pids := IndexByPid(flat);
    var f2, rows2;
    f2, rows2, fb := RefreshAndInsert(flat, f, rows, index);
    f', rows', doomed := RemoveMissing(f2, rows2, pids);
    byPid, fm, rm := index, f2, rows2;
  }

  // ---------------------------------------------------------------------
  // What an update leaves behind

  /** Only listed pids keep a row: every indexed pid no longer listed is
      taken out, and a listed pid loses its row only when it is doomed. */
  lemma OnlyListedKept(flat: seq<FlatProcessNode>, f: Forest, rows: map<Pid, Handle>, byPid: map<Pid, FlatProcessNode>,
                       fm: Forest, rm: map<Pid, Handle>, fb: set<Pid>, f': Forest, rows': map<Pid, Handle>, doomed: set<Pid>)
    requires Inserted(flat, f, rows, byPid, fm, rm, fb)
    requires Removed(fm, rm, rm.Keys - PidsOf(flat), f', rows', doomed)
    ensures rows.Keys - PidsOf(flat) <= doomed
    ensures rows'.Keys == PidsOf(flat) - doomed
  {
    MissingDoomed(fm, rm, rm.Keys - PidsOf(flat));
    KeysLeft(rows.Keys, PidsOf(flat), rm.Keys, doomed, rows'.Keys);
  }

  /** The set algebra of the update's keys. */
  lemma KeysLeft(keys: set<Pid>, listed: set<Pid>, mid: set<Pid>, doomed: set<Pid>, left: set<Pid>)
    requires mid == keys + listed && mid - listed <= doomed && left == mid - doomed
    ensures keys - listed <= doomed && left == listed - doomed
  {
  }

  /** Every row left shows the entry its pid is indexed to: the last entry
      of the new list with that pid. */
  lemma SurvivorsShowIndexed(flat: seq<FlatProcessNode>, f: Forest, rows: map<Pid, Handle>, byPid: map<Pid, FlatProcessNode>,
                             fm: Forest, rm: map<Pid, Handle>, fb: set<Pid>, f': Forest, rows': map<Pid, Handle>, doomed: set<Pid>)
    requires IndexOf(flat, byPid) && Inserted(flat, f, rows, byPid, fm, rm, fb)
    requires Removed(fm, rm, rm.Keys - PidsOf(flat), f', rows', doomed)
    ensures forall p :: p in rows' ==> p in byPid && f'.cells[rows'[p]] == CellsFor(byPid[p].info)
  {
    OnlyListedKept(flat, f, rows, byPid, fm, rm, fb, f', rows', doomed);
  }

  /** A row below a row whose pid is taken out is taken out too. */
  lemma ChildDoomed(fm: Forest, rm: map<Pid, Handle>, doomed: set<Pid>, p: Pid, q: Pid)
    requires Consistent(fm, rm) && AllClosed(fm, doomed)
    requires p in rm && q in rm && fm.up[rm[p]] == Under(rm[q]) && q in doomed
    ensures p in doomed
  {
    ChildBelow(fm, rm[q], rm[p]);
    assert rm[p] in fm.up && rm[p] in fm.cells && Descends(fm, rm[p], rm[q]);
    assert p in SubPids(fm, rm[q]);
  }

  /** A new row that is left still sits where it was put: under the row of
      its parent pid, or at the top level for parent pid 0 and for the
      fallback. */
  lemma NewRowsPlaced(flat: seq<FlatProcessNode>, f: Forest, rows: map<Pid, Handle>, byPid: map<Pid, FlatProcessNode>,
                      fm: Forest, rm: map<Pid, Handle>, fb: set<Pid>, f': Forest, rows': map<Pid, Handle>, doomed: set<Pid>)
    requires IndexOf(flat, byPid) && Inserted(flat, f, rows, byPid, fm, rm, fb)
    requires Removed(fm, rm, rm.Keys - PidsOf(flat), f', rows', doomed)
    ensures AllNewShown(f', rows', byPid, (PidsOf(flat) - rows.Keys) * rows'.Keys, fb)
  {
    NewRowsLeft(fm, rm, fb, f', rows', doomed, byPid, PidsOf(flat) - rows.Keys);
  }

  /** The new rows that are left, shown as they were put. */
  lemma NewRowsLeft(fm: Forest, rm: map<Pid, Handle>, fb: set<Pid>, f': Forest, rows': map<Pid, Handle>,
                    doomed: set<Pid>, byPid: map<Pid, FlatProcessNode>, added: set<Pid>)
    requires Consistent(fm, rm) && AllClosed(fm, doomed)
    requires Consistent(f', rows') && rows'.Keys == rm.Keys - doomed && Survives(fm, rm, f', rows')
    requires (forall p :: p in byPid ==> byPid[p].info.pid == p) && AllNewShown(fm, rm, byPid, added, fb)
    ensures AllNewShown(f', rows', byPid, added * rows'.Keys, fb)
  {
    forall p | p in added * rows'.Keys
      ensures p in byPid && NewShown(f', rows', byPid[p], fb)
    {
      NewRowLeft(fm, rm, fb, f', rows', doomed, byPid[p]);
    }
  }

  /** One new row that is left, shown as it was put. */
  lemma NewRowLeft(fm: Forest, rm: map<Pid, Handle>, fb: set<Pid>, f': Forest, rows': map<Pid, Handle>,
                   doomed: set<Pid>, n: FlatProcessNode)
    requires Consistent(fm, rm) && AllClosed(fm, doomed)
    requires Consistent(f', rows') && rows'.Keys == rm.Keys - doomed && Survives(fm, rm, f', rows')
    requires NewShown(fm, rm, n, fb) && n.info.pid in rows'
    ensures NewShown(f', rows', n, fb)
  {
    var p := n.info.pid;
    assert rows'[p] == rm[p] && rows'[p] in f'.up;
    if p !in fb && n.parentPID != 0 {
      var q := n.parentPID;
      if q in doomed {
        ChildDoomed(fm, rm, doomed, p, q);
      }
      assert rows'[q] == rm[q];
    }
  }

  /** Old rows that are left keep their handles and their slots: nothing is
      moved, whatever the new list says about their parents. */
  lemma OldRowsStay(flat: seq<FlatProcessNode>, f: Forest, rows: map<Pid, Handle>, byPid: map<Pid, FlatProcessNode>,
                    fm: Forest, rm: map<Pid, Handle>, fb: set<Pid>, f': Forest, rows': map<Pid, Handle>, doomed: set<Pid>)
    requires Inserted(flat, f, rows, byPid, fm, rm, fb)
    requires Removed(fm, rm, rm.Keys - PidsOf(flat), f', rows', doomed)
    ensures forall p :: p in rows && p in rows' ==> rows'[p] == rows[p] && rows[p] in f.up && f'.up[rows[p]] == f.up[rows[p]]
  {
  }

  /** On a list without repeated pids in which every non-zero parent pid
      names an earlier entry (what a snapshot is), the fallback places
      nothing. */
  lemma SnapshotNeedsNoFallback(flat: seq<FlatProcessNode>, f: Forest, rows: map<Pid, Handle>,
                                byPid: map<Pid, FlatProcessNode>, fm: Forest, rm: map<Pid, Handle>, fb: set<Pid>)
    requires DistinctPids(flat) && ParentsFirst(flat) && IndexOf(flat, byPid)
    requires Inserted(flat, f, rows, byPid, fm, rm, fb)
    ensures fb == {}
  {
    NoFallback(flat, byPid, rm.Keys, fb);
  }
}
