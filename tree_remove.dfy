// Step 3 of the incremental update (ProcessTreeModel::updateTreeFromNewFlatList):
// the rows of pids no longer listed are removed together with every row below
// them. The pids to remove are gathered by walking the children of each such
// row (collectChildrenPids), tagged with their depth, sorted deepest first,
// and removed one by one, so that every row is a leaf when its turn comes.

module TreeRemove {
  import opened Records
  import opened DisplayForest
  import opened TreeRows

  /** A well-formed forest whose rows all have cells and show pairwise
      different pids: what walking it by pid needs. */
  ghost predicate Tidy(f: Forest)
  {
    && ForestValid(f) && f.cells.Keys == f.up.Keys
    && (forall x, y :: x in f.cells && y in f.cells && f.cells[x].pid == f.cells[y].pid ==> x == y)
  }

  /** A consistent view is tidy. */
  lemma ConsistentIsTidy(f: Forest, rows: map<Pid, Handle>)
    requires Consistent(f, rows)
    ensures Tidy(f)
  {
  }

  /** The pids shown by row `a` and the rows below it. */
  ghost function SubPids(f: Forest, a: Handle): (s: set<Pid>)
  {
    set x | x in f.up && x in f.cells && Descends(f, x, a) :: f.cells[x].pid
  }

  /** The pids shown by the rows strictly below row `h`. */
  ghost function StrictPids(f: Forest, h: Handle): (s: set<Pid>)
    requires h in f.cells
  {
    SubPids(f, h) - {f.cells[h].pid}
  }

  /** Below-ness is transitive. */
  lemma {:induction false} DescendsTrans(f: Forest, x: Handle, y: Handle, z: Handle)
    requires Descends(f, x, y) && Descends(f, y, z)
    ensures Descends(f, x, z)
    decreases x
  {
    if x != y {
      DescendsTrans(f, f.up[x].row, y, z);
    }
  }

  /** The rows below a row below `a` are below `a`. */
  lemma SubNested(f: Forest, x: Handle, a: Handle)
    requires Descends(f, x, a)
    ensures SubPids(f, x) <= SubPids(f, a)
  {
    forall y | y in f.up && y in f.cells && Descends(f, y, x)
      ensures Descends(f, y, a)
    {
      DescendsTrans(f, y, x, a);
    }
  }

  /** A child row lies below its parent and comes after it. */
  lemma ChildBelow(f: Forest, h: Handle, c: Handle)
    requires ForestValid(f) && c in f.up && f.up[c] == Under(h)
    ensures h < c < f.next && Descends(f, c, h)
  {
    assert Descends(f, h, h);
  }

  /** The pids of the rows at and below each of `cs`. */
  ghost function ChildrenPids(f: Forest, cs: seq<Handle>): (s: set<Pid>)
    decreases |cs|
  {
    if cs == [] then {} else ChildrenPids(f, cs[..|cs| - 1]) + SubPids(f, cs[|cs| - 1])
  }

  /** A pid is among ChildrenPids iff it is at or below one of the rows. */
  lemma {:induction false} ChildrenPidsHas(f: Forest, cs: seq<Handle>, p: Pid)
    ensures p in ChildrenPids(f, cs) <==> exists i :: 0 <= i < |cs| && p in SubPids(f, cs[i])
    decreases |cs|
  {
    if cs != [] {
      var cs' := cs[..|cs| - 1];
      ChildrenPidsHas(f, cs', p);
      if exists i :: 0 <= i < |cs| && p in SubPids(f, cs[i]) {
        var i :| 0 <= i < |cs| && p in SubPids(f, cs[i]);
        if i < |cs| - 1 {
          assert cs'[i] == cs[i];
        }
      }
      if exists i :: 0 <= i < |cs'| && p in SubPids(f, cs'[i]) {
        var i :| 0 <= i < |cs'| && p in SubPids(f, cs'[i]);
        assert cs[i] == cs'[i];
      }
    }
  }

  /** What is strictly below a row is what is at or below its children. */
  lemma ChildrenCover(f: Forest, h: Handle)
    requires Tidy(f) && h in f.up
    ensures Under(h) in f.lists
    ensures ChildrenPids(f, f.lists[Under(h)]) == StrictPids(f, h)
  {
    ChildrenWithin(f, h);
    ChildrenReach(f, h);
  }

  /** The rows at and below the children of `h` are strictly below it. */
  lemma ChildrenWithin(f: Forest, h: Handle)
    requires Tidy(f) && h in f.up
    ensures Under(h) in f.lists
    ensures ChildrenPids(f, f.lists[Under(h)]) <= StrictPids(f, h)
  {
    var cs := f.lists[Under(h)];
    forall p | p in ChildrenPids(f, cs)
      ensures p in StrictPids(f, h)
    {
      ChildrenPidsHas(f, cs, p);
      var i :| 0 <= i < |cs| && p in SubPids(f, cs[i]);
      BelowChildIsStrict(f, h, cs[i], p);
    }
  }

  /** A pid at or below a child of `h` is strictly below `h`. */
  lemma BelowChildIsStrict(f: Forest, h: Handle, c: Handle, p: Pid)
    requires Tidy(f) && h in f.up && c in f.up && f.up[c] == Under(h) && p in SubPids(f, c)
    ensures p in StrictPids(f, h)
  {
    var x :| x in f.up && x in f.cells && Descends(f, x, c) && f.cells[x].pid == p;
    ChildBelow(f, h, c);
    DescendsTrans(f, x, c, h);
    DescendsBelow(f, x, c);
  }

  /** Every row strictly below `h` is at or below one of its children. */
  lemma ChildrenReach(f: Forest, h: Handle)
    requires Tidy(f) && h in f.up
    ensures Under(h) in f.lists
    ensures StrictPids(f, h) <= ChildrenPids(f, f.lists[Under(h)])
  {
    var cs := f.lists[Under(h)];
    forall p | p in StrictPids(f, h)
      ensures p in ChildrenPids(f, cs)
    {
      var x :| x in f.up && x in f.cells && Descends(f, x, h) && f.cells[x].pid == p;
      BelowSomeChild(f, x, h);
      var i :| 0 <= i < |cs| && Descends(f, x, cs[i]);
      assert p in SubPids(f, cs[i]);
      ChildrenPidsHas(f, cs, p);
    }
  }

  /** Every row strictly below `h` whose pid is already collected has its
      whole subtree collected: what lets the walk skip a collected child. */
  ghost predicate Closed(f: Forest, h: Handle, out: set<Pid>)
  {
    forall x :: x in f.up && x in f.cells && x != h && Descends(f, x, h) && f.cells[x].pid in out ==>
      SubPids(f, x) <= out
  }

  /** Entering a child not yet collected: below it, only whole subtrees are
      collected, the child's own pid included. */
  lemma ChildClosed(f: Forest, h: Handle, c: Handle, out: set<Pid>)
    requires Tidy(f) && c in f.up && f.up[c] == Under(h) && Closed(f, h, out)
    ensures Closed(f, c, out + {f.cells[c].pid})
  {
    ChildBelow(f, h, c);
    forall x | x in f.up && x in f.cells && x != c && Descends(f, x, c) && f.cells[x].pid in out + {f.cells[c].pid}
      ensures SubPids(f, x) <= out + {f.cells[c].pid}
    {
      DescendsTrans(f, x, c, h);
      DescendsBelow(f, x, c);
    }
  }

  /** Adding a child's whole subtree keeps the collection closed. */
  lemma GrowClosed(f: Forest, h: Handle, c: Handle, out: set<Pid>)
    requires Tidy(f) && c in f.up && f.up[c] == Under(h) && Closed(f, h, out)
    ensures Closed(f, h, out + SubPids(f, c))
  {
    forall x | x in f.up && x in f.cells && x != h && Descends(f, x, h) && f.cells[x].pid in out + SubPids(f, c)
      ensures SubPids(f, x) <= out + SubPids(f, c)
    {
      if f.cells[x].pid !in out {
        var y :| y in f.up && y in f.cells && Descends(f, y, c) && f.cells[y].pid == f.cells[x].pid;
        SubNested(f, y, c);
      }
    }
  }

  /** collectChildrenPids: add to `out0` the pids of every row below `h`,
      walking the children in order and not entering a child whose pid is
      already collected. */
  method CollectChildrenPids(f: Forest, h: Handle, out0: set<Pid>) returns (out: set<Pid>)
    requires Tidy(f) && h in f.up && Closed(f, h, out0)
    ensures out == out0 + StrictPids(f, h)
    decreases f.next - h, 0
  {
    ChildrenCover(f, h);
    var cs := f.lists[Under(h)];
    out := out0;
    for k := 0 to |cs|
      invariant Closed(f, h, out) && out == out0 + ChildrenPids(f, cs[..k])
    {
      assert f.up[cs[k]] == Under(h);
      out := CollectChild(f, h, cs[k], out);
      ChildrenPidsStep(f, cs, k, out0);
    }
    assert cs[..|cs|] == cs;
  }

  /** One more child adds its subtree's pids. */
  lemma ChildrenPidsStep(f: Forest, cs: seq<Handle>, k: nat, out0: set<Pid>)
    requires k < |cs|
    ensures out0 + ChildrenPids(f, cs[..k]) + SubPids(f, cs[k]) == out0 + ChildrenPids(f, cs[..k + 1])
  {
    assert cs[..k + 1][..k] == cs[..k];
  }

  /** The loop body of collectChildrenPids for child `c` of `h`. */
  method CollectChild(f: Forest, h: Handle, c: Handle, out: set<Pid>) returns (out': set<Pid>)
    requires Tidy(f) && c in f.up && f.up[c] == Under(h) && Closed(f, h, out)
    ensures out' == out + SubPids(f, c) && Closed(f, h, out')
    decreases f.next - c, 1
  {
    ChildBelow(f, h, c);
    GrowClosed(f, h, c, out);
    var p := f.cells[c].pid;
    if p !in out {
      ChildClosed(f, h, c, out);
      out' := CollectChildrenPids(f, c, out + {p});
      assert p in SubPids(f, c);
    } else {
      out' := out;
    }
  }

  // ---------------------------------------------------------------------
  // Gathering what to remove

  /** `missingPids`: the indexed pids that are not listed any more. */
  method MissingPids(rows: map<Pid, Handle>, pids: set<Pid>) returns (missing: set<Pid>)
    ensures missing == rows.Keys - pids
  {
    missing := {};
    var remaining := rows.Keys;
    while remaining != {}
      invariant remaining <= rows.Keys
      invariant missing == (rows.Keys - remaining) - pids
      decreases |remaining|
    {
      var p :| p in remaining;
      if p !in pids {
        missing := missing + {p};
      }
      remaining := remaining - {p};
    }
  }

  /** The pids of the rows of `missing` and of every row below them. */
  ghost function DoomedPids(f: Forest, rows: map<Pid, Handle>, missing: set<Pid>): (s: set<Pid>)
  {
    set m, x | m in missing && m in rows && x in f.up && x in f.cells && Descends(f, x, rows[m]) :: f.cells[x].pid
  }

  /** Every row whose pid is collected has its whole subtree collected. */
  ghost predicate AllClosed(f: Forest, out: set<Pid>)
  {
    forall x :: x in f.up && x in f.cells && f.cells[x].pid in out ==> SubPids(f, x) <= out
  }

  /** One more missing pid adds its row's subtree. */
  lemma DoomedAdd(f: Forest, rows: map<Pid, Handle>, missing: set<Pid>, m: Pid)
    requires m in rows
    ensures DoomedPids(f, rows, missing + {m}) == DoomedPids(f, rows, missing) + SubPids(f, rows[m])
  {
  }

  /** Collecting below the row of a missing pid, after inserting the pid, adds
      exactly its subtree, and keeps the collection closed. */
  lemma DoomStep(f: Forest, rows: map<Pid, Handle>, out: set<Pid>, m: Pid)
    requires Consistent(f, rows) && m in rows && AllClosed(f, out)
    ensures rows[m] in f.up && Tidy(f)
    ensures Closed(f, rows[m], out + {m})
    ensures (out + {m}) + StrictPids(f, rows[m]) == out + SubPids(f, rows[m])
    ensures AllClosed(f, out + SubPids(f, rows[m]))
  {
    ConsistentIsTidy(f, rows);
    assert Descends(f, rows[m], rows[m]);
    assert f.cells[rows[m]].pid == m;
    ClosedBelowRow(f, out, rows[m]);
    AllClosedGrows(f, out, rows[m]);
  }

  /** Below a row, a closed collection plus that row's pid is closed. */
  lemma ClosedBelowRow(f: Forest, out: set<Pid>, h: Handle)
    requires Tidy(f) && AllClosed(f, out) && h in f.cells
    ensures Closed(f, h, out + {f.cells[h].pid})
  {
    forall x | x in f.up && x in f.cells && x != h && Descends(f, x, h) && f.cells[x].pid in out + {f.cells[h].pid}
      ensures SubPids(f, x) <= out + {f.cells[h].pid}
    {
      assert f.cells[x].pid in out;
    }
  }

  /** Adding a row's whole subtree keeps a collection closed. */
  lemma AllClosedGrows(f: Forest, out: set<Pid>, h: Handle)
    requires Tidy(f) && AllClosed(f, out)
    ensures AllClosed(f, out + SubPids(f, h))
  {
    forall x | x in f.up && x in f.cells && f.cells[x].pid in out + SubPids(f, h)
      ensures SubPids(f, x) <= out + SubPids(f, h)
    {
      if f.cells[x].pid !in out {
        var y :| y in f.up && y in f.cells && Descends(f, y, h) && f.cells[y].pid == f.cells[x].pid;
        SubNested(f, y, h);
      }
    }
  }

  /** `allToRemove`: every missing pid together with the pids below its row.
      The source skips a pid without a row or without a name item; neither
      can happen, as every missing pid is indexed and every row has one. */
  method CollectDoomed(f: Forest, rows: map<Pid, Handle>, missing: set<Pid>) returns (doomed: set<Pid>)
    requires Consistent(f, rows) && missing <= rows.Keys
    ensures doomed == DoomedPids(f, rows, missing)
    ensures AllClosed(f, doomed)
  {
    doomed := {};
    var remaining := missing;
    while remaining != {}
      invariant DoomInv(f, rows, missing, remaining, doomed)
      decreases |remaining|
    {
      var m :| m in remaining;
      doomed := DoomOne(f, rows, missing, remaining, doomed, m);
      remaining := remaining - {m};
    }
    DoomDone(f, rows, missing, doomed);
  }

  /** Once every missing pid is visited, all of them are collected. */
  lemma DoomDone(f: Forest, rows: map<Pid, Handle>, missing: set<Pid>, doomed: set<Pid>)
    requires DoomInv(f, rows, missing, {}, doomed)
    ensures doomed == DoomedPids(f, rows, missing) && AllClosed(f, doomed)
  {
    assert missing - {} == missing;
  }

  /** `allToRemove` with the pids of `remaining` still to visit. */
  ghost predicate DoomInv(f: Forest, rows: map<Pid, Handle>, missing: set<Pid>, remaining: set<Pid>, doomed: set<Pid>)
  {
    && remaining <= missing
    && doomed == DoomedPids(f, rows, missing - remaining) && AllClosed(f, doomed)
  }

  /** The loop body of `allToRemove` for missing pid `m`. */
  method DoomOne(f: Forest, rows: map<Pid, Handle>, ghost missing: set<Pid>, ghost remaining: set<Pid>,
                 doomed: set<Pid>, m: Pid) returns (doomed': set<Pid>)
    requires Consistent(f, rows) && missing <= rows.Keys
    requires DoomInv(f, rows, missing, remaining, doomed) && m in remaining
    ensures DoomInv(f, rows, missing, remaining - {m}, doomed')
  {
    assert m in rows;
    DoomStep(f, rows, doomed, m);
    doomed' := CollectChildrenPids(f, rows[m], doomed + {m});
    DoomNext(f, rows, missing, remaining, doomed, m, doomed');
  }

  /** The bookkeeping of `allToRemove` after the subtree of `m`. */
  lemma DoomNext(f: Forest, rows: map<Pid, Handle>, missing: set<Pid>, remaining: set<Pid>,
                 doomed: set<Pid>, m: Pid, out: set<Pid>)
    requires DoomInv(f, rows, missing, remaining, doomed) && m in remaining && m in rows
    requires out == doomed + SubPids(f, rows[m]) && AllClosed(f, out)
    ensures DoomInv(f, rows, missing, remaining - {m}, out)
  {
    DoomedAdd(f, rows, missing - remaining, m);
    assert missing - (remaining - {m}) == (missing - remaining) + {m};
  }

  /** The collected pids all have rows. */
  lemma DoomedIndexed(f: Forest, rows: map<Pid, Handle>, missing: set<Pid>)
    requires Consistent(f, rows)
    ensures DoomedPids(f, rows, missing) <= rows.Keys
  {
  }

  /** Every unlisted pid is collected. */
  lemma MissingDoomed(f: Forest, rows: map<Pid, Handle>, missing: set<Pid>)
    requires Consistent(f, rows) && missing <= rows.Keys
    ensures missing <= DoomedPids(f, rows, missing)
  {
    forall m | m in missing
      ensures m in DoomedPids(f, rows, missing)
    {
      assert Descends(f, rows[m], rows[m]);
    }
  }

  // ---------------------------------------------------------------------
  // Depths and the order of removal

  /** `depthOf`: the number of parent steps from a row to the top level. */
  method DepthOf(f: Forest, h: Handle) returns (d: int)
    requires ForestValid(f) && h in f.up
    ensures d == Depth(f, h)
  {
    var cur := h;
    d := 0;
    while f.up[cur].Under?
      invariant cur in f.up && d + Depth(f, cur) == Depth(f, h)
      decreases cur
    {
      DepthStep(f, cur);
      ChildBelow(f, f.up[cur].row, cur);
      cur := f.up[cur].row;
      d := d + 1;
    }
    DepthStep(f, cur);
  }

  /** A pid to remove and the depth of its row, as `struct Rem`. */
  datatype Rem = Rem(pid: Pid, depth: int)

  /** The pids of a removal list. */
  function RemPids(rs: seq<Rem>): (s: set<Pid>)
    ensures forall i :: 0 <= i < |rs| ==> rs[i].pid in s
    ensures forall p :: p in s ==> exists i :: 0 <= i < |rs| && rs[i].pid == p
  {
    set i | 0 <= i < |rs| :: rs[i].pid
  }

  /** No pid twice in a removal list. */
  predicate DistinctRems(rs: seq<Rem>)
  {
    forall i, j :: 0 <= i < j < |rs| ==> rs[i].pid != rs[j].pid
  }

  /** Every entry carries the depth of its pid's row. */
  ghost predicate DepthsOk(f: Forest, rows: map<Pid, Handle>, rs: seq<Rem>)
  {
    forall i :: 0 <= i < |rs| ==> rs[i].pid in rows && rows[rs[i].pid] in f.up && rs[i].depth == Depth(f, rows[rs[i].pid])
  }

  /** `removals`: one entry per collected pid, with the depth of its row. The
      source gives depth 0 to a pid without a row; every collected pid has
      one. */
  method Removals(f: Forest, rows: map<Pid, Handle>, doomed: set<Pid>) returns (rs: seq<Rem>)
    requires Consistent(f, rows) && doomed <= rows.Keys
    ensures RemPids(rs) == doomed && |rs| == |doomed| && DistinctRems(rs)
    ensures DepthsOk(f, rows, rs)
  {
    rs := [];
    var remaining := doomed;
    while remaining != {}
      invariant RemsInv(f, rows, doomed, remaining, rs)
      decreases |remaining|
    {
      var p :| p in remaining;
      assert p in rows && rows[p] in f.up;
      var d := DepthOf(f, rows[p]);
      RemsStep(f, rows, doomed, remaining, rs, p);
      rs := rs + [Rem(p, d)];
      remaining := remaining - {p};
    }
  }

  /** `removals` with the pids of `remaining` still to visit. */
  ghost predicate RemsInv(f: Forest, rows: map<Pid, Handle>, doomed: set<Pid>, remaining: set<Pid>, rs: seq<Rem>)
  {
    && remaining <= doomed
    && RemPids(rs) == doomed - remaining && |rs| + |remaining| == |doomed| && DistinctRems(rs)
    && DepthsOk(f, rows, rs)
  }

  /** Appending the entry of pid `p`. */
  lemma RemsStep(f: Forest, rows: map<Pid, Handle>, doomed: set<Pid>, remaining: set<Pid>, rs: seq<Rem>, p: Pid)
    requires RemsInv(f, rows, doomed, remaining, rs) && p in remaining && p in rows && rows[p] in f.up
    ensures RemsInv(f, rows, doomed, remaining - {p}, rs + [Rem(p, Depth(f, rows[p]))])
  {
    var r := Rem(p, Depth(f, rows[p]));
    RemPidsAppend(rs, r);
    DistinctAppend(rs, r);
    DepthsAppend(f, rows, rs, r);
    assert |remaining - {p}| == |remaining| - 1;
  }

  /** A pid not yet in a list without repeats keeps it without repeats. */
  lemma DistinctAppend(rs: seq<Rem>, r: Rem)
    requires DistinctRems(rs) && r.pid !in RemPids(rs)
    ensures DistinctRems(rs + [r])
  {
    var t := rs + [r];
    forall i, j | 0 <= i < j < |t|
      ensures t[i].pid != t[j].pid
    {
      assert t[i] == rs[i];
      if j < |rs| {
        assert t[j] == rs[j];
      }
    }
  }

  /** An entry with its row's depth keeps every depth right. */
  lemma DepthsAppend(f: Forest, rows: map<Pid, Handle>, rs: seq<Rem>, r: Rem)
    requires DepthsOk(f, rows, rs)
    requires r.pid in rows && rows[r.pid] in f.up && r.depth == Depth(f, rows[r.pid])
    ensures DepthsOk(f, rows, rs + [r])
  {
    var t := rs + [r];
    assert forall i :: 0 <= i < |rs| ==> t[i] == rs[i];
  }

  /** The pids of a list with one more entry. */
  lemma RemPidsAppend(rs: seq<Rem>, r: Rem)
    ensures RemPids(rs + [r]) == RemPids(rs) + {r.pid}
  {
    var t := rs + [r];
    assert t[|rs|] == r;
    forall p | p in RemPids(t)
      ensures p in RemPids(rs) + {r.pid}
    {
      var i :| 0 <= i < |t| && t[i].pid == p;
      if i < |rs| {
        assert t[i] == rs[i];
      }
    }
    forall p | p in RemPids(rs)
      ensures p in RemPids(t)
    {
      var i :| 0 <= i < |rs| && rs[i].pid == p;
      assert t[i] == rs[i];
    }
  }

  /** Deepest first: depths never increase along the list. */
  predicate DeepestFirst(rs: seq<Rem>)
  {
    forall i, j :: 0 <= i < j < |rs| ==> rs[i].depth >= rs[j].depth
  }

  /** Put `r` into a deepest-first list before the first shallower entry. */
  function InsertByDepth(r: Rem, rs: seq<Rem>): (t: seq<Rem>)
    requires DeepestFirst(rs)
    ensures DeepestFirst(t) && multiset(t) == multiset(rs) + multiset{r}
    decreases |rs|
  {
    if rs == [] || rs[0].depth <= r.depth then
      [r] + rs
    else
      assert rs == [rs[0]] + rs[1..];
      var t := InsertByDepth(r, rs[1..]);
      HeadDeepest(rs[0], rs[1..], r, t);
      [rs[0]] + t
  }

  /** An entry at least as deep as every entry of a list and as `r` can head
      any rearrangement of them. */
  lemma HeadDeepest(h: Rem, rs: seq<Rem>, r: Rem, t: seq<Rem>)
    requires DeepestFirst([h] + rs) && r.depth < h.depth
    requires DeepestFirst(t) && multiset(t) == multiset(rs) + multiset{r}
    ensures DeepestFirst([h] + t)
  {
    forall k | 0 <= k < |t|
      ensures h.depth >= t[k].depth
    {
      assert t[k] in multiset(t);
      assert ([h] + rs)[0] == h;
      if t[k] != r {
        assert t[k] in multiset(rs);
        var i :| 0 <= i < |rs| && rs[i] == t[k];
        assert ([h] + rs)[i + 1] == rs[i];
      }
    }
    forall i, j | 0 <= i < j < |[h] + t|
      ensures ([h] + t)[i].depth >= ([h] + t)[j].depth
    {
      if i > 0 {
        assert ([h] + t)[i] == t[i - 1];
      }
      assert ([h] + t)[j] == t[j - 1];
    }
  }

  /** `std::sort` with `a.depth > b.depth`: a deepest-first permutation. */
  function SortByDepth(rs: seq<Rem>): (t: seq<Rem>)
    ensures DeepestFirst(t) && multiset(t) == multiset(rs)
    decreases |rs|
  {
    if rs == [] then [] else
      assert rs == [rs[0]] + rs[1..];
      InsertByDepth(rs[0], SortByDepth(rs[1..]))
  }

  /** A list without repeated pids holds each entry at most once. */
  lemma {:induction false} DistinctOnce(rs: seq<Rem>, r: Rem)
    requires DistinctRems(rs)
    ensures multiset(rs)[r] <= 1
    decreases |rs|
  {
    if rs != [] {
      assert rs == [rs[0]] + rs[1..];
      DistinctOnce(rs[1..], r);
      if r == rs[0] {
        assert r !in rs[1..] by {
          forall i | 0 <= i < |rs[1..]|
            ensures rs[1..][i] != r
          {
            assert rs[1..][i] == rs[i + 1];
          }
        }
      }
    }
  }

  /** An entry at two places is counted twice. */
  lemma TwiceCounted(t: seq<Rem>, i: nat, j: nat)
    requires i < j < |t| && t[i] == t[j]
    ensures multiset(t)[t[i]] >= 2
  {
    assert t == t[..j] + t[j..];
    assert t[..j][i] == t[i];
    assert t[j..][0] == t[j];
    assert multiset(t) == multiset(t[..j]) + multiset(t[j..]);
  }

  /** Reordering a removal list keeps its pids, their depths and their
      distinctness: the sorted list is as good as the collected one. */
  lemma Reordered(f: Forest, rows: map<Pid, Handle>, rs: seq<Rem>, t: seq<Rem>)
    requires multiset(t) == multiset(rs) && DistinctRems(rs) && DepthsOk(f, rows, rs)
    ensures RemPids(t) == RemPids(rs) && DistinctRems(t) && DepthsOk(f, rows, t)
  {
    forall i | 0 <= i < |t|
      ensures exists j :: 0 <= j < |rs| && rs[j] == t[i]
    {
      assert t[i] in multiset(rs);
    }
    forall j | 0 <= j < |rs|
      ensures exists i :: 0 <= i < |t| && t[i] == rs[j]
    {
      assert rs[j] in multiset(t);
    }
    forall i, j | 0 <= i < j < |t|
      ensures t[i].pid != t[j].pid
    {
      if t[i].pid == t[j].pid {
        assert t[i] == t[j];
        TwiceCounted(t, i, j);
        DistinctOnce(rs, t[i]);
      }
    }
  }

  // ---------------------------------------------------------------------
  // Removing, deepest first

  /** The pids of the entries from index `k` on. */
  ghost function PendingPids(rs: seq<Rem>, k: nat): (s: set<Pid>)
  {
    set j | k <= j < |rs| :: rs[j].pid
  }

  /** The pids of the entries before index `k`. */
  ghost function DonePids(rs: seq<Rem>, k: nat): (s: set<Pid>)
    requires k <= |rs|
  {
    set j | 0 <= j < k :: rs[j].pid
  }

  /** A row under a row whose pid is in `pids` has its pid in `pids` too. */
  ghost predicate ChildrenIn(f: Forest, pids: set<Pid>)
  {
    forall x ::
      (x in f.up && x in f.cells && f.up[x].Under? && f.up[x].row in f.cells && f.cells[f.up[x].row].pid in pids)
      ==> f.cells[x].pid in pids
  }

  /** The entries from index `k` on carry the depths of their pids' rows. */
  ghost predicate DepthsFrom(f: Forest, rows: map<Pid, Handle>, rs: seq<Rem>, k: nat)
  {
    forall j :: k <= j < |rs| ==> rs[j].pid in rows && rows[rs[j].pid] in f.up && rs[j].depth == Depth(f, rows[rs[j].pid])
  }

  /** `f`/`rows` is what is left of `f0`/`rows0`: surviving pids keep their
      rows, and surviving rows keep their slots and cells. */
  ghost predicate Survives(f0: Forest, rows0: map<Pid, Handle>, f: Forest, rows: map<Pid, Handle>)
  {
    && (forall p :: p in rows ==> p in rows0 && rows[p] == rows0[p])
    && (forall x :: x in f.up ==> x in f0.up && f.up[x] == f0.up[x] && x in f.cells && x in f0.cells && f.cells[x] == f0.cells[x])
  }

  /** The removal loop before entry `k`. */
  ghost predicate RemInv(f0: Forest, rows0: map<Pid, Handle>, rs: seq<Rem>, f: Forest, rows: map<Pid, Handle>, k: nat)
  {
    RemState(f0, rows0, rs, f, rows, k) && RemOrder(f, rows, rs, k)
  }

  /** The removal loop before entry `k`: the view is consistent, the pids of
      the entries before `k` are gone and the rest is untouched. */
  ghost predicate RemState(f0: Forest, rows0: map<Pid, Handle>, rs: seq<Rem>, f: Forest, rows: map<Pid, Handle>, k: nat)
  {
    && k <= |rs|
    && Consistent(f, rows)
    && rows.Keys == rows0.Keys - DonePids(rs, k)
    && Survives(f0, rows0, f, rows)
  }

  /** The removal loop before entry `k`: the entries left carry their rows'
      depths and hold the children of their rows. */
  ghost predicate RemOrder(f: Forest, rows: map<Pid, Handle>, rs: seq<Rem>, k: nat)
  {
    DepthsFrom(f, rows, rs, k) && ChildrenIn(f, PendingPids(rs, k))
  }

  /** A closed collection holds the children of its rows. */
  lemma ClosedHasChildren(f: Forest, out: set<Pid>)
    requires Tidy(f) && AllClosed(f, out)
    ensures ChildrenIn(f, out)
  {
    forall x | x in f.up && x in f.cells && f.up[x].Under? && f.up[x].row in f.cells && f.cells[f.up[x].row].pid in out
      ensures f.cells[x].pid in out
    {
      ChildBelow(f, f.up[x].row, x);
    }
  }

  /** Each indexed pid's row shows that pid. */
  ghost predicate RowsShowPids(f: Forest, rows: map<Pid, Handle>)
  {
    forall p :: p in rows ==> rows[p] in f.up && rows[p] in f.cells && f.cells[rows[p]].pid == p
  }

  /** Each row is the indexed row of the pid it shows. */
  ghost predicate RowOfPid(f: Forest, rows: map<Pid, Handle>)
  {
    forall x :: x in f.cells ==> f.cells[x].pid in rows && rows[f.cells[x].pid] == x
  }

  /** When entry `k` is reached, its row has no children left: a child would
      be one level deeper, so its entry would come before `k` and would be
      gone already. */
  lemma LeafReached(f: Forest, rows: map<Pid, Handle>, rs: seq<Rem>, k: nat)
    requires Consistent(f, rows) && DeepestFirst(rs) && DistinctRems(rs)
    requires k < |rs| && DepthsFrom(f, rows, rs, k) && ChildrenIn(f, PendingPids(rs, k))
    ensures rows[rs[k].pid] in f.up && Under(rows[rs[k].pid]) in f.lists
    ensures f.lists[Under(rows[rs[k].pid])] == []
  {
    ChildrenLater(f, rows, rs, k);
  }

  /** A child of the row of entry `k` is one level deeper, so it has an
      entry after `k` one level deeper than entry `k`. */
  lemma ChildrenLater(f: Forest, rows: map<Pid, Handle>, rs: seq<Rem>, k: nat)
    requires ForestValid(f) && RowsShowPids(f, rows) && RowOfPid(f, rows) && k < |rs| && DepthsFrom(f, rows, rs, k) && ChildrenIn(f, PendingPids(rs, k))
    ensures rows[rs[k].pid] in f.up && Under(rows[rs[k].pid]) in f.lists
    ensures f.lists[Under(rows[rs[k].pid])] != [] ==> exists j :: k < j < |rs| && rs[j].depth == rs[k].depth + 1
  {
    var h := rows[rs[k].pid];
    assert Under(h) in f.lists;
    if f.lists[Under(h)] != [] {
      var c := f.lists[Under(h)][0];
      ChildIsDeeper(f, h, 0);
      assert f.up[c] == Under(h) && c in f.cells;
      var j := ChildPending(f, rows, rs, k, c);
      assert rows[rs[j].pid] == c;
    }
  }

  /** A child of the row of entry `k` has an entry from `k` on. */
  lemma ChildPending(f: Forest, rows: map<Pid, Handle>, rs: seq<Rem>, k: nat, c: Handle) returns (j: nat)
    requires k < |rs| && RowsShowPids(f, rows) && rs[k].pid in rows && ChildrenIn(f, PendingPids(rs, k))
    requires c in f.up && c in f.cells && f.up[c] == Under(rows[rs[k].pid])
    ensures k <= j < |rs| && rs[j].pid == f.cells[c].pid
  {
    assert rs[k].pid in PendingPids(rs, k);
    assert f.cells[c].pid in PendingPids(rs, k);
    j :| k <= j < |rs| && rs[j].pid == f.cells[c].pid;
  }

  /** Taking out the row of a pid: the index without that pid still agrees
      with the forest without that row. */
  lemma IndexShrinks(f: Forest, rows: map<Pid, Handle>, p: Pid, g: Forest)
    requires IndexOk(f, rows) && p in rows
    requires g.up == f.up - {rows[p]} && g.cells == f.cells - {rows[p]}
    ensures IndexOk(g, rows - {p})
  {
    var r := rows - {p};
    forall q | q in r
      ensures r[q] in g.up && g.cells[r[q]].pid == q
    {
      assert rows[q] != rows[p];
    }
  }

  /** Depths of the remaining entries are unchanged by taking out a leaf. */
  lemma DepthsAfter(f: Forest, rows: map<Pid, Handle>, rs: seq<Rem>, k: nat, g: Forest)
    requires k < |rs| && DistinctRems(rs) && DepthsFrom(f, rows, rs, k) && RowsShowPids(f, rows)
    requires ParentsIn(g) && g.up == f.up - {rows[rs[k].pid]}
    ensures DepthsFrom(g, rows - {rs[k].pid}, rs, k + 1)
  {
    forall j | k + 1 <= j < |rs|
      ensures rows[rs[j].pid] in g.up && rs[j].depth == Depth(g, rows[rs[j].pid])
    {
      assert rs[j].pid != rs[k].pid;
      assert rows[rs[j].pid] != rows[rs[k].pid];
      DepthKept(f, g, rows[rs[j].pid]);
    }
  }

  /** What is left to remove still holds the children of its rows. */
  lemma ChildrenAfter(f: Forest, rows: map<Pid, Handle>, rs: seq<Rem>, k: nat, g: Forest)
    requires k < |rs| && RowOfPid(f, rows) && ChildrenIn(f, PendingPids(rs, k)) && rs[k].pid in rows
    requires g.up == f.up - {rows[rs[k].pid]} && g.cells == f.cells - {rows[rs[k].pid]}
    ensures ChildrenIn(g, PendingPids(rs, k + 1))
  {
    assert PendingPids(rs, k) == PendingPids(rs, k + 1) + {rs[k].pid};
    forall x | x in g.up && x in g.cells && g.up[x].Under? && g.up[x].row in g.cells &&
               g.cells[g.up[x].row].pid in PendingPids(rs, k + 1)
      ensures g.cells[x].pid in PendingPids(rs, k + 1)
    {
      assert f.cells[x].pid != rs[k].pid;
    }
  }

  /** The state of the removal loop after entry `k`, taking out its row. */
  lemma RemStateNext(f0: Forest, rows0: map<Pid, Handle>, rs: seq<Rem>, f: Forest, rows: map<Pid, Handle>, k: nat, g: Forest)
    requires RemState(f0, rows0, rs, f, rows, k) && k < |rs| && rs[k].pid in rows
    requires ForestValid(g) && g.up == f.up - {rows[rs[k].pid]} && g.cells == f.cells - {rows[rs[k].pid]}
    ensures RemState(f0, rows0, rs, g, rows - {rs[k].pid}, k + 1)
  {
    IndexShrinks(f, rows, rs[k].pid, g);
    SurvivesShrink(f0, rows0, f, rows, rs[k].pid, g);
    DoneGrows(rs, k);
  }

  /** One more entry done. */
  lemma DoneGrows(rs: seq<Rem>, k: nat)
    requires k < |rs|
    ensures DonePids(rs, k + 1) == DonePids(rs, k) + {rs[k].pid}
  {
  }

  /** Taking out one pid and its row leaves a part of the start. */
  lemma SurvivesShrink(f0: Forest, rows0: map<Pid, Handle>, f: Forest, rows: map<Pid, Handle>, p: Pid, g: Forest)
    requires Survives(f0, rows0, f, rows) && p in rows
    requires g.up == f.up - {rows[p]} && g.cells == f.cells - {rows[p]}
    ensures Survives(f0, rows0, g, rows - {p})
  {
  }

  /** The order facts of the removal loop after entry `k`. */
  lemma RemOrderNext(f: Forest, rows: map<Pid, Handle>, rs: seq<Rem>, k: nat, g: Forest)
    requires RemOrder(f, rows, rs, k) && k < |rs| && DistinctRems(rs) && rs[k].pid in rows
    requires RowsShowPids(f, rows) && RowOfPid(f, rows)
    requires ParentsIn(g) && g.up == f.up - {rows[rs[k].pid]} && g.cells == f.cells - {rows[rs[k].pid]}
    ensures RemOrder(g, rows - {rs[k].pid}, rs, k + 1)
  {
    DepthsAfter(f, rows, rs, k, g);
    ChildrenAfter(f, rows, rs, k, g);
  }

  /** The index of `h` in a slot's list, scanning from the front; -1 when it
      is not there. */
  method FindChildIndex(list: seq<Handle>, h: Handle) returns (idx: int)
    ensures idx == -1 <==> h !in list
    ensures idx != -1 ==> 0 <= idx < |list| && list[idx] == h && forall i :: 0 <= i < idx ==> list[i] != h
  {
    idx := -1;
    var i := 0;
    while i < |list|
      invariant 0 <= i <= |list|
      invariant forall j :: 0 <= j < i ==> list[j] != h
    {
      if list[i] == h {
        idx := i;
        return;
      }
      i := i + 1;
    }
  }

  /** The loop body of the removal for entry `k`: find the row's index in its
      slot (under its parent, or at the top level) and remove that row, then
      drop the pid from the index. The source skips a pid without a row, a row
      without a name item and a row not found in its slot; none can happen. */
  method RemoveOne(ghost f0: Forest, ghost rows0: map<Pid, Handle>, rs: seq<Rem>, f: Forest, rows: map<Pid, Handle>, k: nat)
    returns (f': Forest, rows': map<Pid, Handle>)
    requires RemInv(f0, rows0, rs, f, rows, k) && k < |rs| && DistinctRems(rs) && DeepestFirst(rs)
    ensures RemInv(f0, rows0, rs, f', rows', k + 1)
  {
    var p := rs[k].pid;
    assert p in rows;
    var h := rows[p];
    var s := f.up[h];
    assert s in f.lists && h in f.lists[s];
    var idx := FindChildIndex(f.lists[s], h);
    assert idx >= 0;
    LeafReached(f, rows, rs, k);
    RemoveLeafValid(f, s, idx);
    f' := RemoveAt(f, s, idx);
    rows' := rows - {p};
    RemStateNext(f0, rows0, rs, f, rows, k, f');
    ValidParentsIn(f');
    RemOrderNext(f, rows, rs, k, f');
  }

  /** The removal loop: entries in order, deepest first. Every removed row
      is a leaf when removed, and what survives is untouched. */
  method RemoveRows(f0: Forest, rows0: map<Pid, Handle>, rs: seq<Rem>) returns (f: Forest, rows: map<Pid, Handle>)
    requires Consistent(f0, rows0) && DistinctRems(rs) && DeepestFirst(rs)
    requires DepthsOk(f0, rows0, rs) && AllClosed(f0, RemPids(rs))
    ensures Consistent(f, rows) && rows.Keys == rows0.Keys - RemPids(rs)
    ensures Survives(f0, rows0, f, rows)
  {
    ConsistentIsTidy(f0, rows0);
    ClosedHasChildren(f0, RemPids(rs));
    assert PendingPids(rs, 0) == RemPids(rs);
    assert DonePids(rs, 0) == {};
    f, rows := f0, rows0;
    for k := 0 to |rs|
      invariant RemInv(f0, rows0, rs, f, rows, k)
    {
      f, rows := RemoveOne(f0, rows0, rs, f, rows, k);
    }
    assert DonePids(rs, |rs|) == RemPids(rs);
  }
}
