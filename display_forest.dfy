// The item forest of the process tree view (a QStandardItemModel), reduced to
// what the synchroniser observes of it: row handles, each row's slot (the top
// level or under another row), the ordered list of rows in every slot, and the
// cells each row shows. A handle stands for the row's name item; `new
// QStandardItem` takes the next unused handle, so a row is always created
// after its parent and a parent's handle is below its children's.

module DisplayForest {
  import opened Records

  type Handle = nat

  /** Where a row sits: at the top level (`parent()` is null) or under a row. */
  datatype Slot = Top | Under(row: Handle)

  /** The four cells of a row: the name item (which also stores the pid under
      UserRole + 1), the pid text, the cpu value and the memory text. */
  datatype Cells = Cells(name: string, pid: Pid, pidText: string, cpu: real, memText: string)

  /** The forest: each row's slot, each slot's rows in order, each row's
      cells, and the next unused handle. */
  datatype Forest = Forest(
    up: map<Handle, Slot>,
    lists: map<Slot, seq<Handle>>,
    cells: map<Handle, Cells>,
    next: Handle)

  /** The cells of a new row made from a record. */
  function CellsFor(info: ProcessInfo): (c: Cells)
    ensures c.pid == info.pid && c.name == info.name && c.cpu == info.cpuUsage
    ensures forall i :: 0 <= i < |c.pidText| ==> '0' <= c.pidText[i] <= '9'
    ensures DecimalValue(c.pidText) == info.pid && c.memText == MemoryText(info.memoryUsage)
  {
    DecimalRoundTrip(info.pid);
    Cells(info.name, info.pid, DecimalText(info.pid), info.cpuUsage, MemoryText(info.memoryUsage))
  }

  /** The cells after the update pass rewrites a row from a record: cpu and
      memory always, the name only when it differs; the pid cells stay. */
  function Refreshed(c: Cells, info: ProcessInfo): (r: Cells)
    ensures r.pid == c.pid && r.pidText == c.pidText
    ensures r.name == info.name && r.cpu == info.cpuUsage && r.memText == MemoryText(info.memoryUsage)
  {
    var named := if c.name != info.name then c.(name := info.name) else c;
    named.(cpu := info.cpuUsage, memText := MemoryText(info.memoryUsage))
  }

  /** No handle occurs twice. */
  predicate Distinct(s: seq<Handle>)
  {
    forall i, j :: 0 <= i < j < |s| ==> s[i] != s[j]
  }

  /** The rows of the forest. */
  function Rows(f: Forest): (r: set<Handle>)
  {
    f.up.Keys
  }

  /** The slots are the top level and one per row; every row has cells and a
      handle below `next`. */
  predicate KeysOk(f: Forest)
  {
    && f.cells.Keys == f.up.Keys
    && Top in f.lists
    && (forall h :: h in f.up ==> Under(h) in f.lists)
    && (forall s :: s in f.lists ==> s == Top || s.row in f.up)
    && (forall h :: h in f.up ==> h < f.next)
  }

  /** Every list holds distinct rows, each of which names that list's slot. */
  predicate ListsOk(f: Forest)
  {
    && (forall s :: s in f.lists ==> Distinct(f.lists[s]))
    && (forall s, i :: s in f.lists && 0 <= i < |f.lists[s]| ==>
          f.lists[s][i] in f.up && f.up[f.lists[s][i]] == s)
  }

  /** Every row is in the list of its slot, and a parent's handle is below
      its child's. */
  predicate UpOk(f: Forest)
  {
    forall h :: h in f.up ==>
      f.up[h] in f.lists && h in f.lists[f.up[h]] && (f.up[h].Under? ==> f.up[h].row < h)
  }

  /** A well-formed forest. */
  predicate ForestValid(f: Forest)
  {
    KeysOk(f) && ListsOk(f) && UpOk(f)
  }

  /** `clear()`: no rows left; handles are never reused. */
  function Cleared(f: Forest): (g: Forest)
    ensures ForestValid(g) && Rows(g) == {} && g.lists[Top] == [] && g.next == f.next
  {
    Forest(map[], map[Top := []], map[], f.next)
  }

  /** `appendRow` on slot `s`: a new row, with handle `f.next`, at the end of
      the slot's list. */
  function AppendRow(f: Forest, s: Slot, c: Cells): (g: Forest)
    requires s in f.lists
  {
    var h := f.next;
    Forest(f.up[h := s], f.lists[s := f.lists[s] + [h]][Under(h) := []], f.cells[h := c], h + 1)
  }

  /** `setText` on the cells of a row: only the cells change. */
  function SetCells(f: Forest, h: Handle, c: Cells): (g: Forest)
    requires h in f.cells
    ensures g.up == f.up && g.lists == f.lists && g.next == f.next
    ensures g.cells == f.cells[h := c]
    ensures ForestValid(f) ==> ForestValid(g)
  {
    f.(cells := f.cells[h := c])
  }

  /** `x` is `a` or lies below it. */
  predicate Descends(f: Forest, x: Handle, a: Handle)
    decreases x
  {
    x == a || (x in f.up && f.up[x].Under? && f.up[x].row < x && Descends(f, f.up[x].row, a))
  }

  /** The rows of the subtree rooted at `a`, `a` included. */
  function Subtree(f: Forest, a: Handle): (s: set<Handle>)
    ensures forall x :: x in s <==> x in f.up && Descends(f, x, a)
  {
    set x | x in f.up && Descends(f, x, a)
  }

  /** The number of parent links from a row up to the top level: what the
      `depthOf` helper counts. */
  function Depth(f: Forest, h: Handle): (d: nat)
    decreases h
  {
    if h in f.up && f.up[h].Under? && f.up[h].row < h then 1 + Depth(f, f.up[h].row) else 0
  }

  /** A list with the element at index `i` taken out. */
  function Cut(s: seq<Handle>, i: nat): (r: seq<Handle>)
    requires i < |s|
    ensures |r| == |s| - 1
    ensures forall k :: 0 <= k < i ==> r[k] == s[k]
    ensures forall k :: i <= k < |r| ==> r[k] == s[k + 1]
  {
    s[..i] + s[i + 1..]
  }

  /** `removeRow(idx)` on a slot: the row at that index leaves the slot's list,
      and it and every row below it leave the forest. */
  function RemoveAt(f: Forest, s: Slot, idx: nat): (g: Forest)
    requires s in f.lists && idx < |f.lists[s]|
  {
    var gone := Subtree(f, f.lists[s][idx]);
    Forest(
      map x | x in f.up && x !in gone :: f.up[x],
      map t | t in f.lists && !(t.Under? && t.row in gone) ::
        if t == s then Cut(f.lists[s], idx) else f.lists[t],
      map x | x in f.cells && x !in gone :: f.cells[x],
      f.next)
  }

  /** The forest after taking out a row without children. */
  function LeafRemoved(f: Forest, s: Slot, idx: nat): (g: Forest)
    requires s in f.lists && idx < |f.lists[s]|
  {
    var h := f.lists[s][idx];
    Forest(f.up - {h}, (f.lists - {Under(h)})[s := Cut(f.lists[s], idx)], f.cells - {h}, f.next)
  }

  // ---------------------------------------------------------------------
  // Appending

  /** The lists after an append hold distinct rows. */
  lemma AppendDistinct(f: Forest, s: Slot, c: Cells)
    requires ListsOk(f) && s in f.lists && f.next !in f.up && Under(f.next) !in f.lists
    ensures var g := AppendRow(f, s, c);
            forall t :: t in g.lists ==> Distinct(g.lists[t])
  {
    var g, h := AppendRow(f, s, c), f.next;
    assert forall i :: 0 <= i < |f.lists[s]| ==> f.lists[s][i] in f.up;
    assert Distinct(f.lists[s]);
    assert Distinct(g.lists[s]);
  }

  /** The rows in the lists after an append name their list's slot. */
  lemma AppendMembers(f: Forest, s: Slot, c: Cells)
    requires ListsOk(f) && s in f.lists && f.next !in f.up && Under(f.next) !in f.lists
    ensures var g := AppendRow(f, s, c);
            forall t, i :: t in g.lists && 0 <= i < |g.lists[t]| ==>
              g.lists[t][i] in g.up && g.up[g.lists[t][i]] == t
  {
    var g, h := AppendRow(f, s, c), f.next;
    forall t, i | t in g.lists && 0 <= i < |g.lists[t]|
      ensures g.lists[t][i] in g.up && g.up[g.lists[t][i]] == t
    {
      if t != Under(h) && !(t == s && i == |f.lists[s]|) {
        assert g.lists[t][i] == f.lists[t][i];
      }
    }
  }

  /** The lists after an append are well formed. */
  lemma AppendLists(f: Forest, s: Slot, c: Cells)
    requires ListsOk(f) && s in f.lists && f.next !in f.up && Under(f.next) !in f.lists
    ensures ListsOk(AppendRow(f, s, c))
  {
    AppendDistinct(f, s, c);
    AppendMembers(f, s, c);
  }

  /** Every row is in its slot's list after an append. */
  lemma AppendUp(f: Forest, s: Slot, c: Cells)
    requires ForestValid(f) && s in f.lists
    ensures UpOk(AppendRow(f, s, c))
  {
    var g, h := AppendRow(f, s, c), f.next;
    assert s != Under(h);
    assert s.Under? ==> s.row < h;
    forall x | x in g.up
      ensures g.up[x] in g.lists && x in g.lists[g.up[x]]
    {
      if x != h {
        assert g.up[x] == f.up[x] && f.up[x] != Under(h);
        assert f.up[x] == s ==> g.lists[s] == f.lists[s] + [h];
      }
    }
  }

  /** The slots and cells after an append are well formed. */
  lemma AppendKeys(f: Forest, s: Slot, c: Cells)
    requires KeysOk(f) && s in f.lists
    ensures KeysOk(AppendRow(f, s, c))
  {
    var g, h := AppendRow(f, s, c), f.next;
    assert g.cells.Keys == f.cells.Keys + {h};
    assert g.up.Keys == f.up.Keys + {h};
  }

  /** What an append changes: the new row, its empty list and its slot's
      list; nothing else. */
  lemma AppendShape(f: Forest, s: Slot, c: Cells)
    requires s in f.lists && f.next !in f.up && Under(f.next) !in f.lists && f.cells.Keys == f.up.Keys
    ensures var g := AppendRow(f, s, c);
            && Rows(g) == Rows(f) + {f.next}
            && g.up[f.next] == s && g.cells[f.next] == c && g.lists[Under(f.next)] == []
            && s in g.lists && g.lists[s] == f.lists[s] + [f.next]
            && (forall x :: x in Rows(f) ==> g.up[x] == f.up[x] && g.cells[x] == f.cells[x])
            && (forall t :: t in f.lists && t != s ==> t in g.lists && g.lists[t] == f.lists[t])
            && g.next == f.next + 1
  {
    assert s != Under(f.next);
  }

  /** Appending keeps the forest well formed, adds exactly the new row, at the
      end of its slot's list, and leaves every other row's slot, cells and
      list as they were. */
  lemma AppendRowValid(f: Forest, s: Slot, c: Cells)
    requires ForestValid(f) && s in f.lists
    ensures var g := AppendRow(f, s, c);
            && ForestValid(g)
            && f.next !in Rows(f) && Rows(g) == Rows(f) + {f.next}
            && g.up[f.next] == s && g.cells[f.next] == c && g.lists[Under(f.next)] == []
            && s in g.lists && g.lists[s] == f.lists[s] + [f.next]
            && (forall x :: x in Rows(f) ==> g.up[x] == f.up[x] && g.cells[x] == f.cells[x])
            && (forall t :: t in f.lists && t != s ==> t in g.lists && g.lists[t] == f.lists[t])
            && g.next == f.next + 1
  {
    assert f.next !in f.up && Under(f.next) !in f.lists;
    AppendKeys(f, s, c);
    AppendLists(f, s, c);
    AppendUp(f, s, c);
    AppendShape(f, s, c);
  }

  // ---------------------------------------------------------------------
  // Removing

  /** A row below `a` other than `a` itself has a higher handle. */
  lemma {:induction false} DescendsBelow(f: Forest, x: Handle, a: Handle)
    requires Descends(f, x, a)
    ensures a <= x
    decreases x
  {
    if x != a {
      DescendsBelow(f, f.up[x].row, a);
    }
  }

  /** A row strictly below `a` lies below one of `a`'s children. */
  lemma {:induction false} BelowSomeChild(f: Forest, x: Handle, a: Handle)
    requires ForestValid(f) && a in f.up
    requires Descends(f, x, a) && x != a
    ensures exists i :: 0 <= i < |f.lists[Under(a)]| && Descends(f, x, f.lists[Under(a)][i])
    decreases x
  {
    var p := f.up[x].row;
    assert f.up[x] in f.lists && x in f.lists[f.up[x]];
    if p == a {
      var i :| 0 <= i < |f.lists[Under(a)]| && f.lists[Under(a)][i] == x;
      assert Descends(f, x, f.lists[Under(a)][i]);
    } else {
      BelowSomeChild(f, p, a);
      var i :| 0 <= i < |f.lists[Under(a)]| && Descends(f, p, f.lists[Under(a)][i]);
      assert Descends(f, x, f.lists[Under(a)][i]);
    }
  }

  /** A row without children is the only row of its subtree. */
  lemma LeafSubtree(f: Forest, h: Handle)
    requires ForestValid(f) && h in f.up && f.lists[Under(h)] == []
    ensures Subtree(f, h) == {h}
  {
    forall x | x in f.up && Descends(f, x, h)
      ensures x == h
    {
      if x != h {
        BelowSomeChild(f, x, h);
      }
    }
  }

  /** Removing a row whose subtree is itself alone is the plain removal of
      that row. */
  lemma RemoveSingleIsLeafRemoved(f: Forest, s: Slot, idx: nat)
    requires s in f.lists && idx < |f.lists[s]|
    requires Subtree(f, f.lists[s][idx]) == {f.lists[s][idx]}
    requires s != Under(f.lists[s][idx])
    ensures RemoveAt(f, s, idx) == LeafRemoved(f, s, idx)
  {
    var g, l := RemoveAt(f, s, idx), LeafRemoved(f, s, idx);
    assert g.up == l.up;
    assert g.cells == l.cells;
    assert g.lists == l.lists;
  }

  /** A row is never in its own slot. */
  lemma NotOwnSlot(f: Forest, s: Slot, idx: nat)
    requires ForestValid(f) && s in f.lists && idx < |f.lists[s]|
    ensures f.up[f.lists[s][idx]] == s && s != Under(f.lists[s][idx])
  {
    var h := f.lists[s][idx];
    assert f.up[h] == s;
    if s.Under? {
      assert s.row < h;
    }
  }

  /** Removing a row without children is the plain removal of that row. */
  lemma RemoveLeafIsLeafRemoved(f: Forest, s: Slot, idx: nat)
    requires ForestValid(f) && s in f.lists && idx < |f.lists[s]|
    requires f.lists[Under(f.lists[s][idx])] == []
    ensures RemoveAt(f, s, idx) == LeafRemoved(f, s, idx)
  {
    NotOwnSlot(f, s, idx);
    LeafSubtree(f, f.lists[s][idx]);
    RemoveSingleIsLeafRemoved(f, s, idx);
  }

  /** The slots and cells after removing a row without children are well
      formed. */
  lemma LeafRemovedKeys(f: Forest, s: Slot, idx: nat)
    requires KeysOk(f) && s in f.lists && idx < |f.lists[s]| && s != Under(f.lists[s][idx])
    ensures KeysOk(LeafRemoved(f, s, idx))
  {
  }

  /** The lists after removing a row hold distinct rows. */
  lemma LeafRemovedDistinct(f: Forest, s: Slot, idx: nat)
    requires s in f.lists && idx < |f.lists[s]|
    requires forall t :: t in f.lists ==> Distinct(f.lists[t])
    ensures var g := LeafRemoved(f, s, idx);
            forall t :: t in g.lists ==> Distinct(g.lists[t])
  {
    var g := LeafRemoved(f, s, idx);
    assert Distinct(f.lists[s]);
    assert Distinct(g.lists[s]);
  }

  /** The rows in the lists after removing a row name their list's slot. */
  lemma LeafRemovedMembers(f: Forest, s: Slot, idx: nat)
    requires ListsOk(f) && s in f.lists && idx < |f.lists[s]|
    ensures var g := LeafRemoved(f, s, idx);
            forall t, i :: t in g.lists && 0 <= i < |g.lists[t]| ==>
              g.lists[t][i] in g.up && g.up[g.lists[t][i]] == t
  {
    var h, g := f.lists[s][idx], LeafRemoved(f, s, idx);
    assert f.up[h] == s;
    forall t, i | t in g.lists && 0 <= i < |g.lists[t]|
      ensures g.lists[t][i] in g.up && g.up[g.lists[t][i]] == t
    {
      if t == s {
        if i < idx {
          assert g.lists[t][i] == f.lists[s][i];
        } else {
          assert g.lists[t][i] == f.lists[s][i + 1];
        }
      } else {
        assert g.lists[t][i] == f.lists[t][i];
        assert f.up[f.lists[t][i]] == t;
      }
    }
  }

  /** The lists after removing a row are well formed. */
  lemma LeafRemovedLists(f: Forest, s: Slot, idx: nat)
    requires ListsOk(f) && s in f.lists && idx < |f.lists[s]|
    ensures ListsOk(LeafRemoved(f, s, idx))
  {
    LeafRemovedDistinct(f, s, idx);
    LeafRemovedMembers(f, s, idx);
  }

  /** Every remaining row is in its slot's list after removing a leaf. */
  lemma LeafRemovedUp(f: Forest, s: Slot, idx: nat)
    requires ForestValid(f) && s in f.lists && idx < |f.lists[s]|
    requires f.lists[Under(f.lists[s][idx])] == []
    ensures UpOk(LeafRemoved(f, s, idx))
  {
    var h, g := f.lists[s][idx], LeafRemoved(f, s, idx);
    assert f.up[h] == s;
    forall x | x in g.up
      ensures g.up[x] in g.lists && x in g.lists[g.up[x]]
    {
      var t := f.up[x];
      assert t in f.lists && x in f.lists[t];
      if t == s {
        var k :| 0 <= k < |f.lists[s]| && f.lists[s][k] == x;
        assert k != idx;
        if k < idx {
          assert g.lists[s][k] == x;
        } else {
          assert g.lists[s][k - 1] == x;
        }
      }
    }
  }

  /** What removing a row changes: the row, its slot and its place in its
      slot's list; nothing else. */
  lemma LeafRemovedShape(f: Forest, s: Slot, idx: nat)
    requires s in f.lists && idx < |f.lists[s]| && s != Under(f.lists[s][idx])
    ensures var h, g := f.lists[s][idx], LeafRemoved(f, s, idx);
            && Rows(g) == Rows(f) - {h}
            && g.up == f.up - {h} && g.cells == f.cells - {h}
            && s in g.lists && g.lists[s] == Cut(f.lists[s], idx)
            && (forall t :: t in f.lists && t != s && t != Under(h) ==> t in g.lists && g.lists[t] == f.lists[t])
            && g.next == f.next
  {
  }

  /** Removing a row without children keeps the forest well formed. */
  lemma LeafRemovedValid(f: Forest, s: Slot, idx: nat)
    requires ForestValid(f) && s in f.lists && idx < |f.lists[s]|
    requires f.lists[Under(f.lists[s][idx])] == []
    ensures ForestValid(LeafRemoved(f, s, idx))
  {
    NotOwnSlot(f, s, idx);
    LeafRemovedKeys(f, s, idx);
    LeafRemovedLists(f, s, idx);
    LeafRemovedUp(f, s, idx);
  }

  /** Removing a row without children keeps the forest well formed, removes
      exactly that row and its slot, takes it out of its slot's list, and
      leaves every other row's slot and cells as they were. */
  lemma RemoveLeafValid(f: Forest, s: Slot, idx: nat)
    requires ForestValid(f) && s in f.lists && idx < |f.lists[s]|
    requires f.lists[Under(f.lists[s][idx])] == []
    ensures var h, g := f.lists[s][idx], RemoveAt(f, s, idx);
            && ForestValid(g)
            && Rows(g) == Rows(f) - {h}
            && g.up == f.up - {h} && g.cells == f.cells - {h}
            && s in g.lists && g.lists[s] == Cut(f.lists[s], idx)
            && (forall t :: t in f.lists && t != s && t != Under(h) ==> t in g.lists && g.lists[t] == f.lists[t])
            && g.next == f.next
  {
    RemoveLeafIsLeafRemoved(f, s, idx);
    NotOwnSlot(f, s, idx);
    LeafRemovedValid(f, s, idx);
    LeafRemovedShape(f, s, idx);
  }

  // ---------------------------------------------------------------------
  // Depth

  /** The depth of a row is one more than its parent's, 0 at the top level. */
  lemma DepthStep(f: Forest, h: Handle)
    requires ForestValid(f) && h in f.up
    ensures f.up[h] == Top ==> Depth(f, h) == 0
    ensures f.up[h].Under? ==> f.up[h].row in f.up && Depth(f, h) == Depth(f, f.up[h].row) + 1
  {
    assert Under(h) in f.lists;
  }

  /** A child row is deeper than its parent. */
  lemma ChildIsDeeper(f: Forest, p: Handle, i: nat)
    requires ForestValid(f) && p in f.up && i < |f.lists[Under(p)]|
    ensures Depth(f, f.lists[Under(p)][i]) == Depth(f, p) + 1
  {
    var x := f.lists[Under(p)][i];
    assert f.up[x] == Under(p);
    DepthStep(f, x);
  }

  /** The parent of every row under another row is a row. */
  predicate ParentsIn(f: Forest)
  {
    forall h :: h in f.up && f.up[h].Under? ==> f.up[h].row in f.up
  }

  /** A well-formed forest has the parent of every row. */
  lemma ValidParentsIn(f: Forest)
    requires ForestValid(f)
    ensures ParentsIn(f)
  {
  }

  /** Depths are read off the slots alone, so a forest with the same slots for
      every row of its own has the same depths. */
  lemma {:induction false} DepthKept(f: Forest, g: Forest, h: Handle)
    requires ParentsIn(g) && h in g.up
    requires forall x :: x in g.up ==> x in f.up && g.up[x] == f.up[x]
    ensures Depth(g, h) == Depth(f, h)
    decreases h
  {
    if g.up[h].Under? && g.up[h].row < h {
      DepthKept(f, g, g.up[h].row);
    }
  }
}
