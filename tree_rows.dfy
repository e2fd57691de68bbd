// What the tree view's two halves must agree on: the item forest and the
// `_pidToRow` index from pid to the row showing it. Every step of
// ProcessTreeModel keeps them consistent, and the predicates here say what a
// row shows about a flat-list entry.

module TreeRows {
  import opened Records
  import opened DisplayForest

  /** The index and the forest agree: every indexed pid's row exists and shows
      that pid with its decimal text, and every row is the indexed row of the
      pid it shows. */
  ghost predicate Consistent(f: Forest, rows: map<Pid, Handle>)
  {
    ForestValid(f) && IndexOk(f, rows)
  }

  /** The index half of Consistent, for a forest whose rows all have cells. */
  ghost predicate IndexOk(f: Forest, rows: map<Pid, Handle>)
  {
    && f.cells.Keys == f.up.Keys
    && (forall p :: p in rows ==> rows[p] in f.up && f.cells[rows[p]].pid == p)
    && (forall h :: h in f.up ==> f.cells[h].pid in rows && rows[f.cells[h].pid] == h)
    && (forall h :: h in f.cells ==> f.cells[h].pidText == DecimalText(f.cells[h].pid))
  }

  /** `g`/`r` grows `f`/`rows`: indexed pids keep their rows, and existing
      rows keep their slots and cells. */
  ghost predicate Extends(f: Forest, rows: map<Pid, Handle>, g: Forest, r: map<Pid, Handle>)
  {
    && (forall p :: p in rows ==> p in r && r[p] == rows[p])
    && (forall h :: h in f.up && h in f.cells ==>
          h in g.up && h in g.cells && g.up[h] == f.up[h] && g.cells[h] == f.cells[h])
  }

  /** The row of an entry's pid shows the entry's record, at the top level
      when its parent pid is 0 and under the row of its parent pid otherwise. */
  ghost predicate Shows(f: Forest, rows: map<Pid, Handle>, n: FlatProcessNode)
  {
    var p := n.info.pid;
    && p in rows && rows[p] in f.up && rows[p] in f.cells
    && f.cells[rows[p]] == CellsFor(n.info)
    && (if n.parentPID == 0 then f.up[rows[p]] == Top
        else n.parentPID in rows && f.up[rows[p]] == Under(rows[n.parentPID]))
  }

  /** Every entry whose pid has a row is shown by it. */
  ghost predicate AllShown(flat: seq<FlatProcessNode>, f: Forest, rows: map<Pid, Handle>)
  {
    forall j :: 0 <= j < |flat| && flat[j].info.pid in rows ==> Shows(f, rows, flat[j])
  }

  /** A non-zero parent pid always names an earlier entry. */
  ghost predicate ParentsFirst(flat: seq<FlatProcessNode>)
  {
    forall i :: 0 <= i < |flat| ==> ParentIsEarlier(flat, i)
  }

  /** Entry `i`'s parent pid is 0 or names an entry before it. */
  ghost predicate ParentIsEarlier(flat: seq<FlatProcessNode>, i: nat)
    requires i < |flat|
  {
    flat[i].parentPID != 0 ==> exists j :: 0 <= j < i && flat[j].info.pid == flat[i].parentPID
  }

  /** The one entry of a pid in a list without repeated pids. */
  ghost function EntryFor(flat: seq<FlatProcessNode>, p: Pid): (n: FlatProcessNode)
    requires p in PidsOf(flat)
    ensures n.info.pid == p && exists i :: 0 <= i < |flat| && flat[i] == n
  {
    var i :| 0 <= i < |flat| && flat[i].info.pid == p; flat[i]
  }

  // ---------------------------------------------------------------------

  /** Two rows showing the same pid are the same row. */
  lemma RowsShowDistinctPids(f: Forest, rows: map<Pid, Handle>, x: Handle, y: Handle)
    requires Consistent(f, rows) && x in f.up && y in f.up
    ensures f.cells[x].pid == f.cells[y].pid <==> x == y
  {
  }

  /** Growing is transitive. */
  lemma ExtendsTrans(f: Forest, rows: map<Pid, Handle>, g: Forest, r: map<Pid, Handle>,
                     h: Forest, t: map<Pid, Handle>)
    requires Extends(f, rows, g, r) && Extends(g, r, h, t)
    ensures Extends(f, rows, h, t)
  {
  }

  /** A shown entry stays shown while the index and the forest grow. */
  lemma ShowsKept(f: Forest, rows: map<Pid, Handle>, g: Forest, r: map<Pid, Handle>, n: FlatProcessNode)
    requires Shows(f, rows, n) && Extends(f, rows, g, r)
    ensures Shows(g, r, n)
  {
  }

  /** The facts about one added row that the index lemmas below rely on. */
  ghost predicate OneMore(f: Forest, g: Forest, h: Handle, c: Cells)
  {
    && h !in f.up && f.cells.Keys == f.up.Keys
    && g.up.Keys == f.up.Keys + {h} && g.cells == f.cells[h := c]
    && (forall x :: x in f.up ==> g.up[x] == f.up[x])
  }

  /** Adding one row, for a pid without one, to a consistent index keeps it
      consistent and only grows it. */
  lemma IndexGrows(f: Forest, rows: map<Pid, Handle>, g: Forest, h: Handle, c: Cells)
    requires IndexOk(f, rows) && OneMore(f, g, h, c)
    requires c.pid !in rows && c.pidText == DecimalText(c.pid)
    ensures IndexOk(g, rows[c.pid := h]) && Extends(f, rows, g, rows[c.pid := h])
  {
    var r := rows[c.pid := h];
    forall p | p in r
      ensures r[p] in g.up && g.cells[r[p]].pid == p
    {
      if p != c.pid {
        assert r[p] == rows[p] && rows[p] != h;
      }
    }
    forall x | x in g.up
      ensures g.cells[x].pid in r && r[g.cells[x].pid] == x
    {
      if x != h {
        assert g.cells[x] == f.cells[x];
      }
    }
  }

  /** Appending a row for a pid without one, from its record, keeps the index
      consistent. */
  lemma PlaceConsistent(f: Forest, rows: map<Pid, Handle>, s: Slot, info: ProcessInfo)
    requires Consistent(f, rows) && s in f.lists && info.pid !in rows
    ensures Consistent(AppendRow(f, s, CellsFor(info)), rows[info.pid := f.next])
  {
    AppendRowValid(f, s, CellsFor(info));
    IndexGrows(f, rows, AppendRow(f, s, CellsFor(info)), f.next, CellsFor(info));
  }

  /** Appending a row for a pid without one, from its record, keeps the index
      consistent, grows the index by exactly that pid, and gives the new row
      the slot and the record's cells. */
  lemma PlaceOk(f: Forest, rows: map<Pid, Handle>, s: Slot, info: ProcessInfo)
    requires Consistent(f, rows) && s in f.lists && info.pid !in rows
    ensures var g, r := AppendRow(f, s, CellsFor(info)), rows[info.pid := f.next];
            && Consistent(g, r) && Extends(f, rows, g, r)
            && r.Keys == rows.Keys + {info.pid}
            && g.up[f.next] == s && g.cells[f.next] == CellsFor(info)
  {
    PlaceConsistent(f, rows, s, info);
    PlaceGrows(f, rows, s, info);
  }

  /** Appending a row for a pid without one only grows the index and the
      forest. */
  lemma PlaceGrows(f: Forest, rows: map<Pid, Handle>, s: Slot, info: ProcessInfo)
    requires s in f.lists && info.pid !in rows
    requires forall h :: h in f.up ==> h < f.next
    requires forall p :: p in rows ==> rows[p] in f.up
    ensures var g, r := AppendRow(f, s, CellsFor(info)), rows[info.pid := f.next];
            && Extends(f, rows, g, r)
            && r.Keys == rows.Keys + {info.pid}
            && g.up[f.next] == s && g.cells[f.next] == CellsFor(info)
  {
  }

  /** Rewriting a row's cells from a record of the same pid keeps the index
      consistent and changes nothing but that row's cells. */
  lemma RefreshOk(f: Forest, rows: map<Pid, Handle>, h: Handle, info: ProcessInfo)
    requires Consistent(f, rows) && h in f.up && f.cells[h].pid == info.pid
    ensures var g := SetCells(f, h, Refreshed(f.cells[h], info));
            Consistent(g, rows) && g.up == f.up && g.lists == f.lists && g.next == f.next
            && g.cells == f.cells[h := Refreshed(f.cells[h], info)]
  {
  }

  /** Refreshing a row made from an earlier record of the same pid gives the
      row a new record would have been made with: the update pass loses
      nothing and keeps nothing stale. */
  lemma RefreshedIsFresh(old_: ProcessInfo, new_: ProcessInfo)
    requires old_.pid == new_.pid
    ensures Refreshed(CellsFor(old_), new_) == CellsFor(new_)
  {
  }

  /** In a consistent forest every row's cells are those a record of its pid
      with the shown name, cpu and memory text would give. */
  lemma CellsOfRow(f: Forest, rows: map<Pid, Handle>, h: Handle, info: ProcessInfo)
    requires Consistent(f, rows) && h in f.up && f.cells[h].pid == info.pid
    ensures Refreshed(f.cells[h], info) == CellsFor(info)
  {
  }
}
