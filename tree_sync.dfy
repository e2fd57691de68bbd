// The incremental update of the tree view
// (ProcessTreeModel::updateTreeFromNewFlatList): index the new list by pid,
// rewrite the cells of rows whose pid is still listed, add rows for new pids
// (roots first, then children whose parent has a row, then whatever is left at
// the top level), and finally remove the rows of pids no longer listed
// together with everything below them, deepest first.

module TreeSync {
  import opened Records
  import opened DisplayForest
  import opened TreeRows
  import opened TreeBuild

  // ---------------------------------------------------------------------
  // Indexing the new list

  /** The pids of the first `k` entries. */
  ghost function PidsBefore(flat: seq<FlatProcessNode>, k: nat): (s: set<Pid>)
    requires k <= |flat|
    ensures forall i :: 0 <= i < k ==> flat[i].info.pid in s
  {
    set i | 0 <= i < k :: flat[i].info.pid
  }

  /** No later entry among the first `k` has the pid of entry `i`. */
  ghost predicate LastBefore(flat: seq<FlatProcessNode>, i: nat, k: nat)
    requires i < k <= |flat|
  {
    forall j :: i < j < k ==> flat[j].info.pid != flat[i].info.pid
  }

  /** `newByPid` and `newPids`: every listed pid maps to the last entry with
      that pid, and the pid set is the set of listed pids. */
  method IndexByPid(flat: seq<FlatProcessNode>) returns (byPid: map<Pid, FlatProcessNode>, pids: set<Pid>)
    ensures pids == PidsOf(flat) && IndexOf(flat, byPid)
  {
    byPid, pids := map[], {};
    for k := 0 to |flat|
      invariant IndexInv(flat, byPid, pids, k)
    {
      IndexStep(flat, byPid, pids, k);
      byPid := byPid[flat[k].info.pid := flat[k]];
      pids := pids + {flat[k].info.pid};
    }
  }

  /** The index after the first `k` entries. */
  ghost predicate IndexInv(flat: seq<FlatProcessNode>, byPid: map<Pid, FlatProcessNode>, pids: set<Pid>, k: nat)
  {
    && k <= |flat|
    && pids == byPid.Keys == PidsBefore(flat, k)
    && (forall p :: p in byPid ==> byPid[p].info.pid == p)
    && (forall i :: 0 <= i < k && LastBefore(flat, i, k) ==> byPid[flat[i].info.pid] == flat[i])
  }

  /** Entering entry `k` into the index. */
  lemma IndexStep(flat: seq<FlatProcessNode>, byPid: map<Pid, FlatProcessNode>, pids: set<Pid>, k: nat)
    requires k < |flat| && IndexInv(flat, byPid, pids, k)
    ensures IndexInv(flat, byPid[flat[k].info.pid := flat[k]], pids + {flat[k].info.pid}, k + 1)
  {
    var b := byPid[flat[k].info.pid := flat[k]];
    forall i | 0 <= i < k + 1 && LastBefore(flat, i, k + 1)
      ensures b[flat[i].info.pid] == flat[i]
    {
      if i < k {
        assert LastBefore(flat, i, k);
      }
    }
    assert PidsBefore(flat, k + 1) == PidsBefore(flat, k) + {flat[k].info.pid};
  }

  /** Without repeated pids every entry is the last of its pid. */
  lemma DistinctIsLast(flat: seq<FlatProcessNode>, i: nat)
    requires DistinctPids(flat) && i < |flat|
    ensures LastBefore(flat, i, |flat|)
  {
  }

  // ---------------------------------------------------------------------
  // 1) Refreshing the rows of listed pids

  /** The cells of the row of `p` once the refresh pass is over. */
  ghost function RefreshedCells(f: Forest, rows: map<Pid, Handle>, byPid: map<Pid, FlatProcessNode>, p: Pid): (c: Cells)
    requires p in rows && rows[p] in f.cells
  {
    if p in byPid then Refreshed(f.cells[rows[p]], byPid[p].info) else f.cells[rows[p]]
  }

  /** Step 1: for every indexed pid that is listed again, rewrite the cpu and
      memory cells, and the name when it changed. Nothing but cells changes. */
  method RefreshRows(f: Forest, rows: map<Pid, Handle>, byPid: map<Pid, FlatProcessNode>) returns (g: Forest)
    requires Consistent(f, rows)
    requires forall p :: p in byPid ==> byPid[p].info.pid == p
    ensures Consistent(g, rows)
    ensures g.up == f.up && g.lists == f.lists && g.next == f.next
    ensures forall p :: p in rows ==> g.cells[rows[p]] == RefreshedCells(f, rows, byPid, p)
  {
    g := f;
    var remaining := rows.Keys;
    while remaining != {}
      invariant RefreshInv(f, rows, byPid, g, remaining)
      decreases |remaining|
    {
      var p :| p in remaining;
      g := RefreshVisit(f, rows, byPid, g, remaining, p);
      remaining := remaining - {p};
    }
    RefreshDone(f, rows, byPid, g);
  }

  /** The refresh pass with the pids of `remaining` still to visit: only
      cells have changed, and those of the visited pids' rows are refreshed. */
  ghost predicate RefreshInv(f: Forest, rows: map<Pid, Handle>, byPid: map<Pid, FlatProcessNode>,
                             g: Forest, remaining: set<Pid>)
  {
    && remaining <= rows.Keys
    && g.up == f.up && g.lists == f.lists && g.next == f.next && g.cells.Keys == f.cells.Keys
    && CellsSoFar(f, rows, byPid, g, remaining)
  }

  /** The rows of visited pids carry their refreshed cells, the others their
      old cells. */
  ghost predicate CellsSoFar(f: Forest, rows: map<Pid, Handle>, byPid: map<Pid, FlatProcessNode>,
                             g: Forest, remaining: set<Pid>)
  {
    forall p :: p in rows && rows[p] in f.cells && rows[p] in g.cells ==>
      g.cells[rows[p]] == if p in remaining then f.cells[rows[p]] else RefreshedCells(f, rows, byPid, p)
  }

  /** Visiting one pid of the refresh pass: the row's cells are rewritten
      when the pid is listed. */
  method RefreshVisit(ghost f: Forest, rows: map<Pid, Handle>, byPid: map<Pid, FlatProcessNode>,
                      g: Forest, ghost remaining: set<Pid>, p: Pid)
    returns (g': Forest)
    requires Consistent(f, rows)
    requires RefreshInv(f, rows, byPid, g, remaining) && p in remaining
    ensures RefreshInv(f, rows, byPid, g', remaining - {p})
  {
    if p in byPid {
      RefreshStep(f, rows, byPid, g, remaining, p);
      g' := SetCells(g, rows[p], Refreshed(g.cells[rows[p]], byPid[p].info));
    } else {
      CellsSkip(f, rows, byPid, g, remaining, p);
      g' := g;
    }
  }

  /** Rows of distinct pids are distinct rows. */
  lemma RowsApart(f: Forest, rows: map<Pid, Handle>, p: Pid)
    requires IndexOk(f, rows) && p in rows
    ensures rows[p] in f.cells
    ensures forall q :: q in rows && q != p ==> rows[q] != rows[p]
  {
    forall q | q in rows && q != p
      ensures rows[q] != rows[p]
    {
      assert f.cells[rows[q]].pid == q;
    }
  }

  /** Visiting a listed pid rewrites the cells of its row. */
  lemma RefreshStep(f: Forest, rows: map<Pid, Handle>, byPid: map<Pid, FlatProcessNode>,
                    g: Forest, remaining: set<Pid>, p: Pid)
    requires Consistent(f, rows)
    requires RefreshInv(f, rows, byPid, g, remaining) && p in remaining && p in byPid
    ensures rows[p] in g.cells
    ensures RefreshInv(f, rows, byPid, SetCells(g, rows[p], Refreshed(g.cells[rows[p]], byPid[p].info)), remaining - {p})
  {
    var h := rows[p];
    RowsApart(f, rows, p);
    var g' := SetCells(g, h, Refreshed(g.cells[h], byPid[p].info));
    assert g'.cells.Keys == g.cells.Keys;
    CellsStep(f, rows, byPid, g, g', remaining, p);
  }

  /** Rewriting the row of a visited pid moves it to the refreshed side. */
  lemma CellsStep(f: Forest, rows: map<Pid, Handle>, byPid: map<Pid, FlatProcessNode>,
                  g: Forest, g': Forest, remaining: set<Pid>, p: Pid)
    requires p in remaining && p in byPid && p in rows && rows[p] in f.cells && rows[p] in g.cells
    requires forall q :: q in rows && q != p ==> rows[q] != rows[p]
    requires CellsSoFar(f, rows, byPid, g, remaining)
    requires g'.cells == g.cells[rows[p] := Refreshed(g.cells[rows[p]], byPid[p].info)]
    ensures CellsSoFar(f, rows, byPid, g', remaining - {p})
  {
    forall q | q in rows && rows[q] in f.cells && rows[q] in g'.cells
      ensures g'.cells[rows[q]] == if q in remaining - {p} then f.cells[rows[q]] else RefreshedCells(f, rows, byPid, q)
    {
      if q != p {
        assert g'.cells[rows[q]] == g.cells[rows[q]];
      }
    }
  }

  /** Passing over a pid that is not listed leaves its row's cells, which
      are its refreshed ones. */
  lemma CellsSkip(f: Forest, rows: map<Pid, Handle>, byPid: map<Pid, FlatProcessNode>,
                  g: Forest, remaining: set<Pid>, p: Pid)
    requires p !in byPid && CellsSoFar(f, rows, byPid, g, remaining)
    ensures CellsSoFar(f, rows, byPid, g, remaining - {p})
  {
  }

  /** After the refresh pass every row of an indexed pid is refreshed, and
      the index still agrees with the forest. */
  lemma RefreshDone(f: Forest, rows: map<Pid, Handle>, byPid: map<Pid, FlatProcessNode>, g: Forest)
    requires Consistent(f, rows)
    requires forall p :: p in byPid ==> byPid[p].info.pid == p
    requires RefreshInv(f, rows, byPid, g, {})
    ensures Consistent(g, rows)
    ensures g.up == f.up && g.lists == f.lists && g.next == f.next
    ensures forall p :: p in rows ==> g.cells[rows[p]] == RefreshedCells(f, rows, byPid, p)
  {
    forall p | p in rows
      ensures g.cells[rows[p]] == RefreshedCells(f, rows, byPid, p)
    {
      assert rows[p] in f.cells && rows[p] in g.cells;
    }
    SameShapeValid(f, g);
    RefreshedIndex(f, rows, byPid, g);
  }

  /** A forest whose rows keep their slots, lists and handles is well formed
      whatever its cells say. */
  lemma SameShapeValid(f: Forest, g: Forest)
    requires ForestValid(f)
    requires g.up == f.up && g.lists == f.lists && g.next == f.next && g.cells.Keys == f.cells.Keys
    ensures ForestValid(g)
  {
  }

  /** Refreshed cells keep each row's pid and pid text, so the index still
      agrees with the forest. */
  lemma RefreshedIndex(f: Forest, rows: map<Pid, Handle>, byPid: map<Pid, FlatProcessNode>, g: Forest)
    requires IndexOk(f, rows)
    requires g.up == f.up && g.cells.Keys == f.cells.Keys
    requires forall p :: p in rows ==> g.cells[rows[p]] == RefreshedCells(f, rows, byPid, p)
    ensures IndexOk(g, rows)
  {
    forall h | h in g.up
      ensures g.cells[h].pid in rows && rows[g.cells[h].pid] == h
      ensures g.cells[h].pidText == DecimalText(g.cells[h].pid)
    {
      var q := f.cells[h].pid;
      assert rows[q] == h;
    }
  }

  // ---------------------------------------------------------------------
  // 2) Adding rows for new pids

  /** `toPlace`: the listed pids without a row. */
  method NewPids(flat: seq<FlatProcessNode>, rows: map<Pid, Handle>) returns (toPlace: set<Pid>)
    ensures toPlace == PidsOf(flat) - rows.Keys
  {
    toPlace := {};
    for k := 0 to |flat|
      invariant toPlace == PidsBefore(flat, k) - rows.Keys
    {
      if flat[k].info.pid !in rows {
        toPlace := toPlace + {flat[k].info.pid};
      }
    }
  }

  /** The row of a new pid shows its entry: under its parent's row as the
      entry says, or, for a pid in `fb` (left over when no parent row could be
      found), at the top level. */
  ghost predicate NewShown(f: Forest, rows: map<Pid, Handle>, n: FlatProcessNode, fb: set<Pid>)
  {
    if n.info.pid in fb then
      var p := n.info.pid;
      p in rows && rows[p] in f.up && rows[p] in f.cells && f.cells[rows[p]] == CellsFor(n.info) && f.up[rows[p]] == Top
    else Shows(f, rows, n)
  }

  /** Every pid of `done` has a row showing its indexed entry. */
  ghost predicate AllNewShown(f: Forest, rows: map<Pid, Handle>, byPid: map<Pid, FlatProcessNode>,
                              done: set<Pid>, fb: set<Pid>)
  {
    forall p :: p in done ==> p in byPid && NewShown(f, rows, byPid[p], fb)
  }

  /** The fallback comes last: no pid of `added` placed under its parent's
      row sits under the row of a fallback pid. */
  ghost predicate FallbackIsLast(byPid: map<Pid, FlatProcessNode>, added: set<Pid>, fb: set<Pid>)
  {
    forall p :: p in added - fb && p in byPid && byPid[p].parentPID != 0 ==> byPid[p].parentPID !in fb
  }

  /** A well-formed index of the new list, and a set of its pids without rows. */
  ghost predicate ToPlaceOk(rows: map<Pid, Handle>, byPid: map<Pid, FlatProcessNode>, toPlace: set<Pid>)
  {
    && (forall p :: p in byPid ==> byPid[p].info.pid == p)
    && toPlace <= byPid.Keys && toPlace !! rows.Keys
  }

  /** A new row stays shown while the index and the forest grow. */
  lemma NewShownKept(f: Forest, rows: map<Pid, Handle>, g: Forest, r: map<Pid, Handle>,
                     n: FlatProcessNode, fb: set<Pid>)
    requires NewShown(f, rows, n, fb) && Extends(f, rows, g, r)
    ensures NewShown(g, r, n, fb)
  {
    if n.info.pid !in fb {
      ShowsKept(f, rows, g, r, n);
    }
  }

  /** All new rows stay shown while the index and the forest grow. */
  lemma AllNewShownKept(f: Forest, rows: map<Pid, Handle>, g: Forest, r: map<Pid, Handle>,
                        byPid: map<Pid, FlatProcessNode>, done: set<Pid>, fb: set<Pid>)
    requires AllNewShown(f, rows, byPid, done, fb) && Extends(f, rows, g, r)
    ensures AllNewShown(g, r, byPid, done, fb)
  {
    forall q | q in done
      ensures q in byPid && NewShown(g, r, byPid[q], fb)
    {
      NewShownKept(f, rows, g, r, byPid[q], fb);
    }
  }

  /** The slot a new pid's row goes to: the top level when `top`, otherwise
      that of its parent pid. */
  function NewSlot(rows: map<Pid, Handle>, n: FlatProcessNode, top: bool): (s: Slot)
    requires top || n.parentPID == 0 || n.parentPID in rows
  {
    if top then Top else SlotFor(rows, n)
  }

  /** Appending the row of a new pid at the top level (when `top`) or under
      its parent's row keeps the index consistent, grows it by that pid,
      keeps every new row shown, and shows the new one. */
  lemma PlaceNew(f: Forest, rows: map<Pid, Handle>, byPid: map<Pid, FlatProcessNode>,
                 done: set<Pid>, fb: set<Pid>, p: Pid, top: bool)
    requires Consistent(f, rows) && AllNewShown(f, rows, byPid, done, fb)
    requires p in byPid && byPid[p].info.pid == p && p !in rows
    requires top || byPid[p].parentPID == 0 || byPid[p].parentPID in rows
    requires top ==> byPid[p].parentPID == 0 || p in fb
    requires !top ==> p !in fb
    ensures NewSlot(rows, byPid[p], top) in f.lists
    ensures var g, r := AppendRow(f, NewSlot(rows, byPid[p], top), CellsFor(byPid[p].info)), rows[p := f.next];
            && Consistent(g, r) && Extends(f, rows, g, r) && r.Keys == rows.Keys + {p}
            && AllNewShown(g, r, byPid, done + {p}, fb)
  {
    var n := byPid[p];
    var s := NewSlot(rows, n, top);
    assert s.Under? ==> Under(rows[n.parentPID]) in f.lists;
    PlaceOk(f, rows, s, n.info);
    var g, r := AppendRow(f, s, CellsFor(n.info)), rows[p := f.next];
    AllNewShownKept(f, rows, g, r, byPid, done, fb);
    assert NewShown(g, r, n, fb);
  }

  /** The bookkeeping of the root stage after visiting all of `toPlace` but
      `remaining`: the visited pids whose parent pid is 0, and no others, are
      in `placedNow`, and exactly they were given rows. */
  ghost predicate RootsSets(rows0: map<Pid, Handle>, byPid: map<Pid, FlatProcessNode>, toPlace: set<Pid>,
                            rows: map<Pid, Handle>, remaining: set<Pid>, placedNow: set<Pid>)
  {
    && ToPlaceOk(rows0, byPid, toPlace) && remaining <= toPlace
    && placedNow <= toPlace - remaining
    && (forall p :: p in toPlace - remaining ==> (p in placedNow <==> byPid[p].parentPID == 0))
    && rows.Keys == rows0.Keys + placedNow
  }

  /** The state of the root stage: its bookkeeping, and the pids it placed
      shown by rows of a consistent, grown forest. */
  ghost predicate RootsInv(f0: Forest, rows0: map<Pid, Handle>, byPid: map<Pid, FlatProcessNode>, toPlace: set<Pid>,
                           f: Forest, rows: map<Pid, Handle>, remaining: set<Pid>, placedNow: set<Pid>)
  {
    && RootsSets(rows0, byPid, toPlace, rows, remaining, placedNow)
    && Consistent(f, rows) && Extends(f0, rows0, f, rows) && AllNewShown(f, rows, byPid, placedNow, {})
  }

  /** Visiting one pid of the root stage: a top-level row when its parent pid
      is 0. */
  method RootStep(ghost f0: Forest, ghost rows0: map<Pid, Handle>, byPid: map<Pid, FlatProcessNode>,
                  ghost toPlace: set<Pid>, f: Forest, rows: map<Pid, Handle>, ghost remaining: set<Pid>,
                  placedNow: set<Pid>, p: Pid)
    returns (f': Forest, rows': map<Pid, Handle>, placedNow': set<Pid>)
    requires RootsInv(f0, rows0, byPid, toPlace, f, rows, remaining, placedNow) && p in remaining
    ensures RootsInv(f0, rows0, byPid, toPlace, f', rows', remaining - {p}, placedNow')
  {
    if byPid[p].parentPID == 0 {
      PlaceNew(f, rows, byPid, placedNow, {}, p, false);
      f', rows' := AppendRow(f, Top, CellsFor(byPid[p].info)), rows[p := f.next];
      placedNow' := placedNow + {p};
      RootPlaced(rows0, byPid, toPlace, rows, remaining, placedNow, p, rows');
      ExtendsTrans(f0, rows0, f, rows, f', rows');
    } else {
      RootSkipped(rows0, byPid, toPlace, rows, remaining, placedNow, p);
      f', rows', placedNow' := f, rows, placedNow;
    }
  }

  /** The root stage's bookkeeping after giving pid `p` (parent pid 0) a row. */
  lemma RootPlaced(rows0: map<Pid, Handle>, byPid: map<Pid, FlatProcessNode>, toPlace: set<Pid>,
                   rows: map<Pid, Handle>, remaining: set<Pid>, placedNow: set<Pid>, p: Pid, r: map<Pid, Handle>)
    requires RootsSets(rows0, byPid, toPlace, rows, remaining, placedNow) && p in remaining
    requires byPid[p].parentPID == 0 && r.Keys == rows.Keys + {p}
    ensures RootsSets(rows0, byPid, toPlace, r, remaining - {p}, placedNow + {p})
  {
  }

  /** The root stage's bookkeeping after passing over pid `p` (parent pid not
      0). */
  lemma RootSkipped(rows0: map<Pid, Handle>, byPid: map<Pid, FlatProcessNode>, toPlace: set<Pid>,
                    rows: map<Pid, Handle>, remaining: set<Pid>, placedNow: set<Pid>, p: Pid)
    requires RootsSets(rows0, byPid, toPlace, rows, remaining, placedNow) && p in remaining
    requires byPid[p].parentPID != 0
    ensures RootsSets(rows0, byPid, toPlace, rows, remaining - {p}, placedNow)
  {
  }

  /** The loop of the root stage, over `toPlace` in any order. */
  method RootsLoop(f0: Forest, rows0: map<Pid, Handle>, byPid: map<Pid, FlatProcessNode>, toPlace: set<Pid>)
    returns (f: Forest, rows: map<Pid, Handle>, placedNow: set<Pid>)
    requires Consistent(f0, rows0) && ToPlaceOk(rows0, byPid, toPlace)
    ensures RootsSets(rows0, byPid, toPlace, rows, {}, placedNow)
    ensures Consistent(f, rows) && Extends(f0, rows0, f, rows) && AllNewShown(f, rows, byPid, placedNow, {})
  {
    f, rows := f0, rows0;
    var remaining := toPlace;
    placedNow := {};
    while remaining != {}
      invariant RootsInv(f0, rows0, byPid, toPlace, f, rows, remaining, placedNow)
      decreases |remaining|
    {
      var p :| p in remaining;
      f, rows, placedNow := RootStep(f0, rows0, byPid, toPlace, f, rows, remaining, placedNow, p);
      remaining := remaining - {p};
    }
  }

  /** At the end of the root stage, what is left to place are exactly the
      new pids whose parent pid is not 0. */
  lemma RootsDone(rows0: map<Pid, Handle>, byPid: map<Pid, FlatProcessNode>, toPlace: set<Pid>,
                  rows: map<Pid, Handle>, placedNow: set<Pid>)
    requires RootsSets(rows0, byPid, toPlace, rows, {}, placedNow)
    ensures toPlace - (toPlace - placedNow) == placedNow
    ensures forall p :: p in toPlace ==> (p in toPlace - placedNow <==> byPid[p].parentPID != 0)
  {
  }

  /** Step 2, first stage: a top-level row for every new pid whose parent pid
      is 0; those pids (kept in `placedNow`) then leave `toPlace`. */
  method PlaceNewRoots(f0: Forest, rows0: map<Pid, Handle>, byPid: map<Pid, FlatProcessNode>, toPlace: set<Pid>)
    returns (f: Forest, rows: map<Pid, Handle>, rest: set<Pid>)
    requires Consistent(f0, rows0) && ToPlaceOk(rows0, byPid, toPlace)
    ensures Consistent(f, rows) && Extends(f0, rows0, f, rows)
    ensures rest <= toPlace
    ensures forall p :: p in toPlace ==> (p in rest <==> byPid[p].parentPID != 0)
    ensures rows.Keys == rows0.Keys + (toPlace - rest)
    ensures AllNewShown(f, rows, byPid, toPlace - rest, {})
  {
    var placedNow;
    f, rows, placedNow := RootsLoop(f0, rows0, byPid, toPlace);
    rest := toPlace - placedNow;
    RootsDone(rows0, byPid, toPlace, rows, placedNow);
  }

  /** The bookkeeping of a pass of the second stage after visiting all of
      `toPlace0` but `pending`: the pids it placed left `toPlace` and were
      given rows, it placed some iff `progress`, and when it placed none, every
      visited pid's parent pid is not 0 and has no row. */
  ghost predicate ChildSets(rows0: map<Pid, Handle>, byPid: map<Pid, FlatProcessNode>, done: set<Pid>,
                            toPlace0: set<Pid>, rows: map<Pid, Handle>, toPlace: set<Pid>, pending: set<Pid>,
                            progress: bool)
  {
    && ToPlaceOk(rows, byPid, toPlace) && done !! toPlace0
    && pending <= toPlace <= toPlace0
    && rows.Keys == rows0.Keys + (toPlace0 - toPlace)
    && (progress <==> toPlace != toPlace0)
    && (!progress ==> rows == rows0)
    && (!progress ==> forall p :: p in toPlace0 - pending ==>
                        byPid[p].parentPID != 0 && byPid[p].parentPID !in rows)
  }

  /** The facts about the view a pass keeps. */
  ghost predicate ChildView(f0: Forest, rows0: map<Pid, Handle>, byPid: map<Pid, FlatProcessNode>, placed: set<Pid>,
                            f: Forest, rows: map<Pid, Handle>, progress: bool)
  {
    Consistent(f, rows) && Extends(f0, rows0, f, rows) && AllNewShown(f, rows, byPid, placed, {})
    && (!progress ==> f == f0)
  }

  /** Visiting one pid in a pass of the second stage: a row under its parent's
      (or at the top level for parent pid 0) when it can be placed. */
  method ChildStep(ghost f0: Forest, ghost rows0: map<Pid, Handle>, byPid: map<Pid, FlatProcessNode>,
                   ghost done: set<Pid>, ghost toPlace0: set<Pid>, f: Forest, rows: map<Pid, Handle>,
                   toPlace: set<Pid>, ghost pending: set<Pid>, progress: bool, p: Pid)
    returns (f': Forest, rows': map<Pid, Handle>, toPlace': set<Pid>, progress': bool)
    requires ChildSets(rows0, byPid, done, toPlace0, rows, toPlace, pending, progress) && p in pending
    requires ChildView(f0, rows0, byPid, done + (toPlace0 - toPlace), f, rows, progress)
    ensures ChildSets(rows0, byPid, done, toPlace0, rows', toPlace', pending - {p}, progress')
    ensures ChildView(f0, rows0, byPid, done + (toPlace0 - toPlace'), f', rows', progress')
  {
    if byPid[p].parentPID == 0 || byPid[p].parentPID in rows {
      ghost var placed := done + (toPlace0 - toPlace);
      PlaceNew(f, rows, byPid, placed, {}, p, false);
      f', rows' := AppendRow(f, SlotFor(rows, byPid[p]), CellsFor(byPid[p].info)), rows[p := f.next];
      toPlace', progress' := toPlace - {p}, true;
      ChildPlaced(rows0, byPid, done, toPlace0, rows, toPlace, pending, progress, p, rows');
      ExtendsTrans(f0, rows0, f, rows, f', rows');
    } else {
      ChildSkipped(rows0, byPid, done, toPlace0, rows, toPlace, pending, progress, p);
      f', rows', toPlace', progress' := f, rows, toPlace, progress;
    }
  }

  /** A pass's bookkeeping after giving pid `p` a row. */
  lemma ChildPlaced(rows0: map<Pid, Handle>, byPid: map<Pid, FlatProcessNode>, done: set<Pid>,
                    toPlace0: set<Pid>, rows: map<Pid, Handle>, toPlace: set<Pid>, pending: set<Pid>,
                    progress: bool, p: Pid, r: map<Pid, Handle>)
    requires ChildSets(rows0, byPid, done, toPlace0, rows, toPlace, pending, progress) && p in pending
    requires r.Keys == rows.Keys + {p}
    ensures ChildSets(rows0, byPid, done, toPlace0, r, toPlace - {p}, pending - {p}, true)
    ensures done + (toPlace0 - (toPlace - {p})) == done + (toPlace0 - toPlace) + {p}
  {
  }

  /** A pass's bookkeeping after passing over a pid whose parent pid is not 0
      and has no row. */
  lemma ChildSkipped(rows0: map<Pid, Handle>, byPid: map<Pid, FlatProcessNode>, done: set<Pid>,
                     toPlace0: set<Pid>, rows: map<Pid, Handle>, toPlace: set<Pid>, pending: set<Pid>,
                     progress: bool, p: Pid)
    requires ChildSets(rows0, byPid, done, toPlace0, rows, toPlace, pending, progress) && p in pending
    requires !(byPid[p].parentPID == 0 || byPid[p].parentPID in rows)
    ensures ChildSets(rows0, byPid, done, toPlace0, rows, toPlace, pending - {p}, progress)
  {
  }

  /** One pass of the second stage over a copy of `toPlace`: each pid whose
      parent pid is 0 or has a row gets a row and is erased. */
  method ChildPass(f0: Forest, rows0: map<Pid, Handle>, byPid: map<Pid, FlatProcessNode>,
                   ghost done: set<Pid>, toPlace0: set<Pid>)
    returns (f: Forest, rows: map<Pid, Handle>, toPlace: set<Pid>, progress: bool)
    requires Consistent(f0, rows0) && ToPlaceOk(rows0, byPid, toPlace0) && done !! toPlace0
    requires AllNewShown(f0, rows0, byPid, done, {})
    ensures ChildSets(rows0, byPid, done, toPlace0, rows, toPlace, {}, progress)
    ensures ChildView(f0, rows0, byPid, done + (toPlace0 - toPlace), f, rows, progress)
  {
    f, rows, toPlace, progress := f0, rows0, toPlace0, false;
    var pending := toPlace0;
    assert done + (toPlace0 - toPlace) == done;
    while pending != {}
      invariant ChildSets(rows0, byPid, done, toPlace0, rows, toPlace, pending, progress)
      invariant ChildView(f0, rows0, byPid, done + (toPlace0 - toPlace), f, rows, progress)
      decreases |pending|
    {
      var p :| p in pending;
      f, rows, toPlace, progress := ChildStep(f0, rows0, byPid, done, toPlace0, f, rows, toPlace, pending, progress, p);
      pending := pending - {p};
    }
  }

  /** A strict subset is smaller. */
  lemma Shrinks(a: set<Pid>, b: set<Pid>)
    requires a < b
    ensures |a| < |b|
  {
    var x :| x in b && x !in a;
    SubsetCard(a, b - {x});
  }

  /** The sets of the second stage after one more pass: the pids placed
      before the pass and those it placed are those gone from `toPlace0`. */
  lemma PassSets(done: set<Pid>, toPlace0: set<Pid>, before: set<Pid>, after: set<Pid>)
    requires after <= before <= toPlace0
    ensures (done + (toPlace0 - before)) + (before - after) == done + (toPlace0 - after)
    ensures (done + (toPlace0 - before)) !! before <== done !! toPlace0
  {
  }

  /** The second stage after some passes: the pids gone from `toPlace0` were
      given rows under their parents', and when the last pass placed nothing,
      what is left cannot be placed. */
  ghost predicate ChildrenInv(f0: Forest, rows0: map<Pid, Handle>, byPid: map<Pid, FlatProcessNode>,
                              done: set<Pid>, toPlace0: set<Pid>, f: Forest, rows: map<Pid, Handle>,
                              toPlace: set<Pid>, progress: bool)
  {
    && done !! toPlace0
    && Consistent(f, rows) && Extends(f0, rows0, f, rows)
    && ToPlaceOk(rows, byPid, toPlace) && toPlace <= toPlace0
    && rows.Keys == rows0.Keys + (toPlace0 - toPlace)
    && AllNewShown(f, rows, byPid, done + (toPlace0 - toPlace), {})
    && (!progress ==> forall p :: p in toPlace ==> byPid[p].parentPID != 0 && byPid[p].parentPID !in rows)
  }

  /** One more pass of the second stage; a pass that places something
      shrinks `toPlace`. */
  method ChildRound(ghost f0: Forest, ghost rows0: map<Pid, Handle>, byPid: map<Pid, FlatProcessNode>,
                    ghost done: set<Pid>, ghost toPlace0: set<Pid>, f: Forest, rows: map<Pid, Handle>,
                    toPlace: set<Pid>)
    returns (f': Forest, rows': map<Pid, Handle>, toPlace': set<Pid>, progress': bool)
    requires ChildrenInv(f0, rows0, byPid, done, toPlace0, f, rows, toPlace, true)
    ensures ChildrenInv(f0, rows0, byPid, done, toPlace0, f', rows', toPlace', progress')
    ensures progress' ==> |toPlace'| < |toPlace|
    ensures !progress' ==> toPlace' == toPlace
  {
    PassSets(done, toPlace0, toPlace, toPlace);
    f', rows', toPlace', progress' := ChildPass(f, rows, byPid, done + (toPlace0 - toPlace), toPlace);
    RoundDone(rows0, byPid, done, toPlace0, rows, toPlace, rows', toPlace', progress');
    ExtendsTrans(f0, rows0, f, rows, f', rows');
    if progress' {
      Shrinks(toPlace', toPlace);
    }
  }

  /** The bookkeeping of the second stage after one more pass. */
  lemma RoundDone(rows0: map<Pid, Handle>, byPid: map<Pid, FlatProcessNode>, done: set<Pid>, toPlace0: set<Pid>,
                  rows: map<Pid, Handle>, toPlace: set<Pid>, rows': map<Pid, Handle>, toPlace': set<Pid>,
                  progress': bool)
    requires toPlace <= toPlace0 && rows.Keys == rows0.Keys + (toPlace0 - toPlace)
    requires ChildSets(rows, byPid, done + (toPlace0 - toPlace), toPlace, rows', toPlace', {}, progress')
    ensures toPlace' <= toPlace0 && rows'.Keys == rows0.Keys + (toPlace0 - toPlace')
    ensures (done + (toPlace0 - toPlace)) + (toPlace - toPlace') == done + (toPlace0 - toPlace')
    ensures progress' ==> toPlace' < toPlace
    ensures !progress' ==> toPlace' == toPlace && forall p :: p in toPlace' ==>
              byPid[p].parentPID != 0 && byPid[p].parentPID !in rows'
  {
    PassSets(done, toPlace0, toPlace, toPlace');
  }

  /** Step 2, second stage: passes over what is left of `toPlace` until one
      places nothing or nothing is left. What remains then has a parent pid
      that is not 0 and has no row. */
  method PlaceNewChildren(f0: Forest, rows0: map<Pid, Handle>, byPid: map<Pid, FlatProcessNode>,
                          ghost done: set<Pid>, toPlace0: set<Pid>)
    returns (f: Forest, rows: map<Pid, Handle>, toPlace: set<Pid>)
    requires Consistent(f0, rows0) && ToPlaceOk(rows0, byPid, toPlace0) && done !! toPlace0
    requires AllNewShown(f0, rows0, byPid, done, {})
    ensures Consistent(f, rows) && Extends(f0, rows0, f, rows)
    ensures ToPlaceOk(rows, byPid, toPlace) && toPlace <= toPlace0
    ensures rows.Keys == rows0.Keys + (toPlace0 - toPlace)
    ensures AllNewShown(f, rows, byPid, done + (toPlace0 - toPlace), {})
    ensures forall p :: p in toPlace ==> byPid[p].parentPID != 0 && byPid[p].parentPID !in rows
  {
    f, rows, toPlace := f0, rows0, toPlace0;
    var progress := true;
    assert done + (toPlace0 - toPlace) == done;
    while progress && toPlace != {}
      invariant ChildrenInv(f0, rows0, byPid, done, toPlace0, f, rows, toPlace, progress)
      decreases |toPlace| + (if progress then 1 else 0)
    {
      f, rows, toPlace, progress := ChildRound(f0, rows0, byPid, done, toPlace0, f, rows, toPlace);
    }
  }

  /** The bookkeeping of the fallback after visiting all of `toPlace` but
      `remaining`. */
  ghost predicate FallSets(rows0: map<Pid, Handle>, byPid: map<Pid, FlatProcessNode>, toPlace: set<Pid>,
                           rows: map<Pid, Handle>, remaining: set<Pid>)
  {
    && ToPlaceOk(rows, byPid, remaining) && remaining <= toPlace
    && rows.Keys == rows0.Keys + (toPlace - remaining)
  }

  /** The fallback's bookkeeping after giving pid `p` a row. */
  lemma FallPlaced(rows0: map<Pid, Handle>, byPid: map<Pid, FlatProcessNode>, toPlace: set<Pid>,
                   rows: map<Pid, Handle>, remaining: set<Pid>, p: Pid, r: map<Pid, Handle>, done: set<Pid>)
    requires FallSets(rows0, byPid, toPlace, rows, remaining) && p in remaining
    requires r.Keys == rows.Keys + {p}
    ensures FallSets(rows0, byPid, toPlace, r, remaining - {p})
    ensures done + (toPlace - (remaining - {p})) == (done + (toPlace - remaining)) + {p}
  {
  }

  /** New rows shown at their parents' places stay shown with more pids
      allowed at the top level. */
  lemma FallbackWidens(f: Forest, rows: map<Pid, Handle>, byPid: map<Pid, FlatProcessNode>,
                       done: set<Pid>, fb: set<Pid>)
    requires AllNewShown(f, rows, byPid, done, {}) && done !! fb
    requires forall p :: p in byPid ==> byPid[p].info.pid == p
    ensures AllNewShown(f, rows, byPid, done, fb)
  {
  }

  /** Visiting one pid of the fallback: a top-level row for it. */
  method FallStep(ghost f0: Forest, ghost rows0: map<Pid, Handle>, byPid: map<Pid, FlatProcessNode>,
                  ghost done: set<Pid>, toPlace: set<Pid>, f: Forest, rows: map<Pid, Handle>,
                  ghost remaining: set<Pid>, p: Pid)
    returns (f': Forest, rows': map<Pid, Handle>)
    requires FallInv(f0, rows0, byPid, done, toPlace, f, rows, remaining) && p in remaining
    ensures FallInv(f0, rows0, byPid, done, toPlace, f', rows', remaining - {p})
  {
    PlaceNew(f, rows, byPid, done + (toPlace - remaining), toPlace, p, true);
    f', rows' := AppendRow(f, Top, CellsFor(byPid[p].info)), rows[p := f.next];
    FallPlaced(rows0, byPid, toPlace, rows, remaining, p, rows', done);
    ExtendsTrans(f0, rows0, f, rows, f', rows');
  }

  /** The state of the fallback: its bookkeeping, and the pids placed before
      it and by it shown by rows of a consistent, grown forest. */
  ghost predicate FallInv(f0: Forest, rows0: map<Pid, Handle>, byPid: map<Pid, FlatProcessNode>,
                          done: set<Pid>, toPlace: set<Pid>, f: Forest, rows: map<Pid, Handle>, remaining: set<Pid>)
  {
    && FallSets(rows0, byPid, toPlace, rows, remaining)
    && Consistent(f, rows) && Extends(f0, rows0, f, rows)
    && AllNewShown(f, rows, byPid, done + (toPlace - remaining), toPlace)
  }

  /** Step 2, fallback: a top-level row for every pid still without one. */
  method PlaceLeftovers(f0: Forest, rows0: map<Pid, Handle>, byPid: map<Pid, FlatProcessNode>,
                        ghost done: set<Pid>, toPlace: set<Pid>)
    returns (f: Forest, rows: map<Pid, Handle>)
    requires Consistent(f0, rows0) && ToPlaceOk(rows0, byPid, toPlace) && done !! toPlace
    requires AllNewShown(f0, rows0, byPid, done, {})
    ensures Consistent(f, rows) && Extends(f0, rows0, f, rows)
    ensures rows.Keys == rows0.Keys + toPlace
    ensures AllNewShown(f, rows, byPid, done + toPlace, toPlace)
  {
    f, rows := f0, rows0;
    var remaining := toPlace;
    FallbackWidens(f, rows, byPid, done, toPlace);
    assert done + (toPlace - remaining) == done;
    while remaining != {}
      invariant FallInv(f0, rows0, byPid, done, toPlace, f, rows, remaining)
      decreases |remaining|
    {
      var p :| p in remaining;
      f, rows := FallStep(f0, rows0, byPid, done, toPlace, f, rows, remaining, p);
      remaining := remaining - {p};
    }
    assert toPlace - remaining == toPlace;
  }

  /** Step 2 up to the fallback: the roots, then the passes. What is left
      has a parent pid that is not 0 and has no row. */
  method PlaceAttached(f: Forest, rows: map<Pid, Handle>, byPid: map<Pid, FlatProcessNode>, toPlace: set<Pid>)
    returns (f': Forest, rows': map<Pid, Handle>, left: set<Pid>)
    requires Consistent(f, rows) && ToPlaceOk(rows, byPid, toPlace)
    ensures Consistent(f', rows') && Extends(f, rows, f', rows')
    ensures ToPlaceOk(rows', byPid, left) && left <= toPlace
    ensures rows'.Keys == rows.Keys + (toPlace - left)
    ensures AllNewShown(f', rows', byPid, toPlace - left, {})
    ensures forall p :: p in left ==> byPid[p].parentPID != 0 && byPid[p].parentPID !in rows'
  {
    var f1, rows1, rest := PlaceNewRoots(f, rows, byPid, toPlace);
    f', rows', left := PlaceNewChildren(f1, rows1, byPid, toPlace - rest, rest);
    ExtendsTrans(f, rows, f1, rows1, f', rows');
    AttachedSets(rows.Keys, toPlace, rest, left);
  }

  /** The pids placed by the roots and by the passes. */
  lemma AttachedSets(keys: set<Pid>, toPlace: set<Pid>, rest: set<Pid>, left: set<Pid>)
    requires rest <= toPlace && left <= rest
    ensures (toPlace - rest) + (rest - left) == toPlace - left
    ensures keys + (toPlace - rest) + (rest - left) == keys + (toPlace - left)
  {
  }

  /** Step 2 as a whole: rows for the listed pids without one, under their
      parents' rows where the passes could find them, otherwise (`fb`, whose
      parent pid is not 0 and had no row) at the top level. */
  method InsertNew(flat: seq<FlatProcessNode>, f: Forest, rows: map<Pid, Handle>, byPid: map<Pid, FlatProcessNode>)
    returns (f': Forest, rows': map<Pid, Handle>, ghost fb: set<Pid>)
    requires Consistent(f, rows)
    requires byPid.Keys == PidsOf(flat) && forall p :: p in byPid ==> byPid[p].info.pid == p
    ensures Consistent(f', rows') && Extends(f, rows, f', rows')
    ensures rows'.Keys == rows.Keys + PidsOf(flat)
    ensures fb <= PidsOf(flat) - rows.Keys
    ensures AllNewShown(f', rows', byPid, PidsOf(flat) - rows.Keys, fb)
    ensures forall p :: p in fb ==> byPid[p].parentPID != 0 && byPid[p].parentPID !in rows'.Keys - fb
    ensures FallbackIsLast(byPid, PidsOf(flat) - rows.Keys, fb)
  {
    var toPlace := NewPids(flat, rows);
    f', rows', fb := InsertPids(f, rows, byPid, toPlace);
    NewPidsSets(rows.Keys, PidsOf(flat));
  }

  /** Adding the new pids to the indexed ones adds all listed pids. */
  lemma NewPidsSets(keys: set<Pid>, listed: set<Pid>)
    ensures keys + (listed - keys) == keys + listed
  {
  }

  /** Step 2 for the set `toPlace` of new pids. */
  method InsertPids(f: Forest, rows: map<Pid, Handle>, byPid: map<Pid, FlatProcessNode>, toPlace: set<Pid>)
    returns (f': Forest, rows': map<Pid, Handle>, ghost fb: set<Pid>)
    requires Consistent(f, rows) && ToPlaceOk(rows, byPid, toPlace)
    ensures Consistent(f', rows') && Extends(f, rows, f', rows')
    ensures rows'.Keys == rows.Keys + toPlace
    ensures fb <= toPlace
    ensures AllNewShown(f', rows', byPid, toPlace, fb)
    ensures forall p :: p in fb ==> byPid[p].parentPID != 0 && byPid[p].parentPID !in rows'.Keys - fb
    ensures FallbackIsLast(byPid, toPlace, fb)
  {
    var f2, rows2, left := PlaceAttached(f, rows, byPid, toPlace);
    PassesBeforeFallback(f2, rows2, byPid, toPlace, left);
    f', rows' := Fallback(f2, rows2, byPid, toPlace - left, left);
    ExtendsTrans(f, rows, f2, rows2, f', rows');
    fb := left;
    LeftoverSets(rows.Keys, toPlace, left, rows2.Keys, rows'.Keys);
  }

  /** Every pid the passes placed under a parent's row found that row before
      the fallback, and no pid left for the fallback has a row then. */
  lemma PassesBeforeFallback(f: Forest, rows: map<Pid, Handle>, byPid: map<Pid, FlatProcessNode>,
                             toPlace: set<Pid>, left: set<Pid>)
    requires AllNewShown(f, rows, byPid, toPlace - left, {}) && left !! rows.Keys
    ensures FallbackIsLast(byPid, toPlace, left)
  {
    forall p | p in toPlace - left && p in byPid && byPid[p].parentPID != 0
      ensures byPid[p].parentPID !in left
    {
      assert NewShown(f, rows, byPid[p], {});
    }
  }

  /** The fallback, when anything is left. */
  method Fallback(f: Forest, rows: map<Pid, Handle>, byPid: map<Pid, FlatProcessNode>,
                  ghost done: set<Pid>, left: set<Pid>)
    returns (f': Forest, rows': map<Pid, Handle>)
    requires Consistent(f, rows) && ToPlaceOk(rows, byPid, left) && done !! left
    requires AllNewShown(f, rows, byPid, done, {})
    ensures Consistent(f', rows') && Extends(f, rows, f', rows')
    ensures rows'.Keys == rows.Keys + left
    ensures AllNewShown(f', rows', byPid, done + left, left)
  {
    if left != {} {
      f', rows' := PlaceLeftovers(f, rows, byPid, done, left);
    } else {
      f', rows' := f, rows;
      assert done + left == done;
    }
  }

  /** The pids placed before the fallback and by it. */
  lemma LeftoverSets(keys: set<Pid>, toPlace: set<Pid>, left: set<Pid>, keys2: set<Pid>, keys3: set<Pid>)
    requires left <= toPlace && keys2 !! left
    requires keys2 == keys + (toPlace - left) && keys3 == keys2 + left
    ensures (toPlace - left) + left == toPlace && toPlace - {} == toPlace
    ensures keys3 == keys + toPlace && keys3 - left == keys2
  {
  }

  /** `newByPid` is the index of `flat`: its keys are the listed pids, and
      each maps to the last entry with that pid. */
  ghost predicate IndexOf(flat: seq<FlatProcessNode>, byPid: map<Pid, FlatProcessNode>)
  {
    && byPid.Keys == PidsOf(flat)
    && (forall p :: p in byPid ==> byPid[p].info.pid == p)
    && (forall k :: 0 <= k < |flat| && LastBefore(flat, k, |flat|) ==> byPid[flat[k].info.pid] == flat[k])
  }

  /** Under an index of a list without repeated pids, in which every
      non-zero parent pid names an earlier entry, an entry whose pid has a
      row is never one of the pids left for the top level. */
  lemma {:induction false} NotLeftOver(flat: seq<FlatProcessNode>, byPid: map<Pid, FlatProcessNode>,
                                       keys: set<Pid>, fb: set<Pid>, i: nat)
    requires DistinctPids(flat) && ParentsFirst(flat) && i < |flat|
    requires IndexOf(flat, byPid)
    requires PidsOf(flat) <= keys
    requires forall p :: p in fb ==> p in byPid && byPid[p].parentPID != 0 && byPid[p].parentPID !in keys - fb
    ensures flat[i].info.pid !in fb
    decreases i
  {
    DistinctIsLast(flat, i);
    assert ParentIsEarlier(flat, i);
    if flat[i].parentPID != 0 {
      var j :| 0 <= j < i && flat[j].info.pid == flat[i].parentPID;
      NotLeftOver(flat, byPid, keys, fb, j);
    }
  }

  /** A list in parents-first order without repeated pids needs no
      top-level fallback: every new row goes under its parent's row. */
  lemma NoFallback(flat: seq<FlatProcessNode>, byPid: map<Pid, FlatProcessNode>, keys: set<Pid>, fb: set<Pid>)
    requires DistinctPids(flat) && ParentsFirst(flat)
    requires IndexOf(flat, byPid)
    requires PidsOf(flat) <= keys && fb <= PidsOf(flat)
    requires forall p :: p in fb ==> p in byPid && byPid[p].parentPID != 0 && byPid[p].parentPID !in keys - fb
    ensures fb == {}
  {
    forall i | 0 <= i < |flat|
      ensures flat[i].info.pid !in fb
    {
      NotLeftOver(flat, byPid, keys, fb, i);
    }
  }
}
