// The full initialisation of the tree view (ProcessTreeModel::updateData,
// first branch): clear the view, put every entry whose parent pid is 0 at
// the top level, then make passes over the list, adding each entry whose
// parent already has a row, until a pass adds nothing.

module TreeBuild {
  import opened Records
  import opened DisplayForest
  import opened TreeRows

  /** The pids of the entries before index `i` whose parent pid is 0. */
  ghost function RootPids(flat: seq<FlatProcessNode>, i: nat): (s: set<Pid>)
    requires i <= |flat|
  {
    set j | 0 <= j < i && flat[j].parentPID == 0 :: flat[j].info.pid
  }

  /** No entry still without a row can be placed: its parent pid is not 0 and
      has no row either. */
  ghost predicate Stuck(flat: seq<FlatProcessNode>, rows: map<Pid, Handle>)
  {
    forall j :: 0 <= j < |flat| && flat[j].info.pid !in rows ==>
      flat[j].parentPID != 0 && flat[j].parentPID !in rows
  }

  /** The slot a placement puts an entry in: the top level for parent pid 0,
      otherwise under the row of its parent pid. */
  function SlotFor(rows: map<Pid, Handle>, n: FlatProcessNode): (s: Slot)
    requires n.parentPID == 0 || n.parentPID in rows
    ensures s == Top <==> n.parentPID == 0
  {
    if n.parentPID == 0 then Top else Under(rows[n.parentPID])
  }

  /** Placing entry `i` (whose pid has no row yet, and whose parent pid is 0
      or has a row) keeps the index consistent and every entry with a row
      shown, and grows the index by exactly that pid. */
  lemma PlaceEntry(flat: seq<FlatProcessNode>, f: Forest, rows: map<Pid, Handle>, i: nat)
    requires DistinctPids(flat) && Consistent(f, rows) && AllShown(flat, f, rows)
    requires i < |flat| && flat[i].info.pid !in rows
    requires flat[i].parentPID == 0 || flat[i].parentPID in rows
    ensures SlotFor(rows, flat[i]) in f.lists
    ensures var g, r := AppendRow(f, SlotFor(rows, flat[i]), CellsFor(flat[i].info)), rows[flat[i].info.pid := f.next];
            && Consistent(g, r) && AllShown(flat, g, r) && Extends(f, rows, g, r)
            && r.Keys == rows.Keys + {flat[i].info.pid}
  {
    var n := flat[i];
    var s := SlotFor(rows, n);
    assert s.Under? ==> Under(rows[n.parentPID]) in f.lists;
    PlaceOk(f, rows, s, n.info);
    var g, r := AppendRow(f, s, CellsFor(n.info)), rows[n.info.pid := f.next];
    forall j | 0 <= j < |flat| && flat[j].info.pid in r
      ensures Shows(g, r, flat[j])
    {
      if j != i {
        ShowsKept(f, rows, g, r, flat[j]);
      }
    }
  }

  /** Phase one: a top-level row, in list order, for every entry whose parent
      pid is 0, starting from an empty view. */
  method PlaceRoots(flat: seq<FlatProcessNode>, f0: Forest) returns (f: Forest, rows: map<Pid, Handle>)
    requires DistinctPids(flat) && Consistent(f0, map[])
    ensures Consistent(f, rows) && AllShown(flat, f, rows)
    ensures rows.Keys == RootPids(flat, |flat|)
  {
    f, rows := f0, map[];
    for i := 0 to |flat|
      invariant Consistent(f, rows) && AllShown(flat, f, rows)
      invariant rows.Keys == RootPids(flat, i)
    {
      if flat[i].parentPID == 0 {
        PlaceEntry(flat, f, rows, i);
        f, rows := AppendRow(f, Top, CellsFor(flat[i].info)), rows[flat[i].info.pid := f.next];
      }
    }
  }

  /** The `placed` set the second phase starts from: the pids of the entries
      whose parent pid is 0. */
  method RootPidSet(flat: seq<FlatProcessNode>) returns (placed: set<Pid>)
    ensures placed == RootPids(flat, |flat|)
  {
    placed := {};
    for i := 0 to |flat|
      invariant placed == RootPids(flat, i)
    {
      if flat[i].parentPID == 0 {
        placed := placed + {flat[i].info.pid};
      }
    }
  }

  /** What holds after the first `i` entries of a pass that started from
      `f0`/`rows0`: the view is consistent and shows what it holds, it only
      grew, it grew iff `progress`, and when it did not grow every entry seen
      so far is placed or stuck. */
  ghost predicate PassInv(flat: seq<FlatProcessNode>, f0: Forest, rows0: map<Pid, Handle>, f: Forest,
                          rows: map<Pid, Handle>, placed: set<Pid>, progress: bool, i: nat)
  {
    && i <= |flat|
    && Consistent(f, rows) && AllShown(flat, f, rows)
    && placed == rows.Keys && rows0.Keys <= rows.Keys <= PidsOf(flat)
    && (progress ==> rows0.Keys < rows.Keys)
    && (!progress ==> rows == rows0 && f == f0)
    && (!progress ==> forall j :: 0 <= j < i && flat[j].info.pid !in rows ==>
                        flat[j].parentPID != 0 && flat[j].parentPID !in rows)
  }

  /** The body of a pass for entry `i`: skip it when placed, place it when
      its parent pid is 0 or has a row, otherwise leave it for a later pass. */
  method PassStep(flat: seq<FlatProcessNode>, ghost f0: Forest, ghost rows0: map<Pid, Handle>, f: Forest,
                  rows: map<Pid, Handle>, placed: set<Pid>, progress: bool, i: nat)
    returns (f': Forest, rows': map<Pid, Handle>, placed': set<Pid>, progress': bool)
    requires DistinctPids(flat) && i < |flat| && PassInv(flat, f0, rows0, f, rows, placed, progress, i)
    ensures PassInv(flat, f0, rows0, f', rows', placed', progress', i + 1)
  {
    var n := flat[i];
    if n.info.pid !in placed && (n.parentPID == 0 || n.parentPID in rows) {
      f', rows', placed' := PlaceStep(flat, f0, rows0, f, rows, placed, progress, i);
      progress' := true;
    } else {
      SkipStep(flat, f0, rows0, f, rows, placed, progress, i);
      f', rows', placed', progress' := f, rows, placed, progress;
    }
  }

  /** Passing over entry `i` without placing it: it is placed already, or
      its parent pid is not 0 and has no row. */
  lemma SkipStep(flat: seq<FlatProcessNode>, f0: Forest, rows0: map<Pid, Handle>, f: Forest,
                 rows: map<Pid, Handle>, placed: set<Pid>, progress: bool, i: nat)
    requires i < |flat| && PassInv(flat, f0, rows0, f, rows, placed, progress, i)
    requires !(flat[i].info.pid !in placed && (flat[i].parentPID == 0 || flat[i].parentPID in rows))
    ensures PassInv(flat, f0, rows0, f, rows, placed, progress, i + 1)
  {
  }

  /** Placing entry `i` in a pass: the view grows by its row. */
  method PlaceStep(flat: seq<FlatProcessNode>, ghost f0: Forest, ghost rows0: map<Pid, Handle>, f: Forest,
                   rows: map<Pid, Handle>, placed: set<Pid>, progress: bool, i: nat)
    returns (f': Forest, rows': map<Pid, Handle>, placed': set<Pid>)
    requires DistinctPids(flat) && i < |flat| && PassInv(flat, f0, rows0, f, rows, placed, progress, i)
    requires flat[i].info.pid !in placed && (flat[i].parentPID == 0 || flat[i].parentPID in rows)
    ensures PassInv(flat, f0, rows0, f', rows', placed', true, i + 1)
  {
    var n := flat[i];
    PlaceEntry(flat, f, rows, i);
    f', rows' := AppendRow(f, SlotFor(rows, n), CellsFor(n.info)), rows[n.info.pid := f.next];
    placed' := placed + {n.info.pid};
    KeysGrow(rows0.Keys, rows.Keys, rows'.Keys, n.info.pid, PidsOf(flat));
  }

  /** Adding a listed pid without a row grows the pid set strictly and keeps
      it within the listed pids. */
  lemma KeysGrow(keys0: set<Pid>, keys: set<Pid>, keys': set<Pid>, p: Pid, listed: set<Pid>)
    requires keys0 <= keys <= listed && p in listed && p !in keys && keys' == keys + {p}
    ensures keys0 < keys' <= listed
  {
  }

  /** One pass of phase two: every entry not yet placed whose parent pid is 0
      or has a row gets a row under it. A pass that adds nothing leaves the
      view as it was and finds every remaining entry stuck. */
  method PlacePass(flat: seq<FlatProcessNode>, f0: Forest, rows0: map<Pid, Handle>, placed0: set<Pid>)
    returns (f: Forest, rows: map<Pid, Handle>, placed: set<Pid>, progress: bool)
    requires DistinctPids(flat) && Consistent(f0, rows0) && AllShown(flat, f0, rows0)
    requires placed0 == rows0.Keys && rows0.Keys <= PidsOf(flat)
    ensures Consistent(f, rows) && AllShown(flat, f, rows)
    ensures placed == rows.Keys && rows0.Keys <= rows.Keys <= PidsOf(flat)
    ensures progress ==> rows0.Keys < rows.Keys
    ensures !progress ==> rows == rows0 && f == f0 && Stuck(flat, rows)
  {
    f, rows, placed, progress := f0, rows0, placed0, false;
    for i := 0 to |flat|
      invariant PassInv(flat, f0, rows0, f, rows, placed, progress, i)
    {
      f, rows, placed, progress := PassStep(flat, f0, rows0, f, rows, placed, progress, i);
    }
  }

  /** Taking more out of a finite set leaves fewer behind. */
  lemma FewerLeft(u: set<Pid>, a: set<Pid>, b: set<Pid>)
    requires a < b <= u
    ensures |u - b| < |u - a|
  {
    var x :| x in b && x !in a;
    SubsetCard(u - b, (u - a) - {x});
  }

  /** A subset is no larger than its superset. */
  lemma {:induction false} SubsetCard(a: set<Pid>, b: set<Pid>)
    requires a <= b
    ensures |a| <= |b|
    decreases b
  {
    if a != {} {
      var x :| x in a;
      SubsetCard(a - {x}, b - {x});
    }
  }

  /** The full initialisation: clear the view, phase one, then passes until
      one adds nothing. Every row shows an entry of the list, and when it
      stops no remaining entry could be placed. */
  method BuildView(flat: seq<FlatProcessNode>, f0: Forest) returns (f: Forest, rows: map<Pid, Handle>)
    requires DistinctPids(flat)
    ensures Consistent(f, rows) && AllShown(flat, f, rows)
    ensures rows.Keys <= PidsOf(flat) && Stuck(flat, rows)
  {
    f := Cleared(f0);
    f, rows := PlaceRoots(flat, f);
    var placed := RootPidSet(flat);
    var progress := true;
    while progress
      invariant Consistent(f, rows) && AllShown(flat, f, rows)
      invariant placed == rows.Keys && rows.Keys <= PidsOf(flat)
      invariant !progress ==> Stuck(flat, rows)
      decreases |PidsOf(flat) - placed| + (if progress then 1 else 0)
    {
      ghost var before := placed;
      f, rows, placed, progress := PlacePass(flat, f, rows, placed);
      if progress {
        FewerLeft(PidsOf(flat), before, placed);
      }
    }
  }

  /** When every non-zero parent pid names an earlier entry, a stuck view has
      a row for every entry: the passes never give up on a list in
      parents-first order. */
  lemma {:induction false} StuckPlacesAll(flat: seq<FlatProcessNode>, rows: map<Pid, Handle>, i: nat)
    requires ParentsFirst(flat) && Stuck(flat, rows) && i < |flat|
    ensures flat[i].info.pid in rows
    decreases i
  {
    if flat[i].info.pid !in rows {
      assert flat[i].parentPID != 0 && flat[i].parentPID !in rows;
      assert ParentIsEarlier(flat, i);
      var j :| 0 <= j < i && flat[j].info.pid == flat[i].parentPID;
      StuckPlacesAll(flat, rows, j);
    }
  }

  /** An entry that names itself as its parent is never shown: a row cannot
      sit under itself. */
  lemma SelfParentNotShown(f: Forest, rows: map<Pid, Handle>, n: FlatProcessNode)
    requires Consistent(f, rows) && n.parentPID == n.info.pid && n.parentPID != 0
    ensures !Shows(f, rows, n)
  {
  }
}
