/** The rest of the join between the page tables in memory and the record the paging model uses: mapping a page,
    clearing a leaf entry, and freeing the tables. */
module TableJoin {
  import opened Options
  import opened Bytes
  import opened Frames
  import opened Paging
  import opened Sv39
  import F = Fault
  import P = Processes

  /** Process p of s has the page table that stands at root in m, and the same free list. */
  ghost predicate Joined(s: State, p: Pid, m: Memory, root: Pa) {
    Wf(s) && Tree(m, root) && s.procs[p].pt == Some(Abs(m.tables, root)) && s.free == m.free
  }

  // ----- mapping a page -----

  /** A leaf entry written, seen in the record. */
  lemma AbsSetLeaf(m: Memory, root: Pa, v: nat, e: Entry)
    requires Tree(m, root) && LeafSlot(m.tables, root, v).Some? && v < VPNS && e.valid
    ensures var s := LeafSlot(m.tables, root, v).value;
            && s.0 in m.tables && s.1 < ENTRIES
            && var pt := Abs(m.tables, root);
               Abs(SetEntry(m.tables, s.0, s.1, e), root) == pt.(leaf := pt.leaf[v := Pte(e.pa, e.perm)])
  {
    hide Lookup, Tree, TableAt;
    SetLeafCorrect(m, root, v, e);
    var s := LeafSlot(m.tables, root, v).value;
    var tables' := SetEntry(m.tables, s.0, s.1, e);
    forall l
      ensures TableAt(tables', root, l) == TableAt(m.tables, root, l)
    {
      SetLeafPlaces(m, root, v, e, l);
    }
    var pt, pt' := Abs(m.tables, root), Abs(tables', root);
    assert pt'.mids == pt.mids && pt'.lows == pt.lows;
    assert pt'.leaf == pt.leaf[v := Pte(e.pa, e.perm)];
  }

  /** One iteration of mappages on the tables is MapPage on the record, for a page that is not mapped. */
  lemma MapRefines(s: State, p: Pid, m: Memory, root: Pa, v: nat, pa: Pa, perm: Perm)
    requires Joined(s, p, m, root) && v < VPNS && Lookup(m.tables, root, v).None?
    ensures !Mapped(s, p, v)
    ensures var (s', ok) := F.MapPage(s, p, v, Pte(pa, perm));
            var (m', o) := MapOne(m, root, v, pa, perm);
            ok == (o == Done) && (ok || o == NoMemory) && Joined(s', p, m', root)
  {
    hide Tree, TableAt, Lookup, Walk, F.Walk;
    TreeRoot(m, root);
    WalkRefines(s, p, m, root, v);
    WalkAllocCorrect(m, root, v);
    MapOneCorrect(m, root, v, pa, perm);
    F.WalkOnly(s, p, v);
    var (m1, r) := Walk(m, root, v, true);
    var (s1, ok) := F.Walk(s, p, v);
    if ok {
      AbsSetLeaf(m1, root, v, Entry(true, pa, perm));
    }
  }

  // ----- clearing a leaf entry -----

  /** The end of uvmunmap for one page: walk without allocation, and the entry it finds is zeroed. */
  function ClearOne(m: Memory, root: Pa, v: nat): Memory
    requires root in m.tables
  {
    var (m1, r) := Walk(m, root, v, false);
    if r.None? || r.value.0 !in m1.tables then m1
    else m1.(tables := SetEntry(m1.tables, r.value.0, r.value.1, EMPTY))
  }

  /** It makes v unmapped, keeps every other lookup and every table, and on the record is ClearLeaf. */
  lemma ClearRefines(s: State, p: Pid, m: Memory, root: Pa, v: nat)
    requires Joined(s, p, m, root) && v < VPNS
    ensures root in m.tables
    ensures var m' := ClearOne(m, root, v);
            && Joined(s.(procs := ClearLeaf(s.procs, p, v)), p, m', root)
            && forall w: nat :: w < VPNS ==>
                 Lookup(m'.tables, root, w) == if w == v then None else Lookup(m.tables, root, w)
  {
    hide Tree, TableAt, Walk;
    TreeRoot(m, root);
    WalkFinds(m, root, v);
    var pt := Abs(m.tables, root);
    if LeafSlot(m.tables, root, v).Some? {
      AbsClear(m, root, v);
    } else {
      assert Lookup(m.tables, root, v).None?;
      assert pt.leaf - {v} == pt.leaf;
    }
  }

  lemma AbsClear(m: Memory, root: Pa, v: nat)
    requires Tree(m, root) && LeafSlot(m.tables, root, v).Some? && v < VPNS
    ensures var s := LeafSlot(m.tables, root, v).value;
            && s.0 in m.tables && s.1 < ENTRIES
            && var m' := m.(tables := SetEntry(m.tables, s.0, s.1, EMPTY));
               && Tree(m', root)
               && (forall w: nat :: w < VPNS ==>
                     Lookup(m'.tables, root, w) == if w == v then None else Lookup(m.tables, root, w))
               && var pt := Abs(m.tables, root); Abs(m'.tables, root) == pt.(leaf := pt.leaf - {v})
  {
    hide Lookup, Tree, TableAt;
    SetLeafCorrect(m, root, v, EMPTY);
    var s := LeafSlot(m.tables, root, v).value;
    var tables' := SetEntry(m.tables, s.0, s.1, EMPTY);
    forall l
      ensures TableAt(tables', root, l) == TableAt(m.tables, root, l)
    {
      SetLeafPlaces(m, root, v, EMPTY, l);
    }
    var pt, pt' := Abs(m.tables, root), Abs(tables', root);
    assert pt'.mids == pt.mids && pt'.lows == pt.lows;
    assert pt'.leaf == pt.leaf - {v};
  }

  // ----- freeing the tables -----

  /** The level-0 tables under root entry i, and then their level-1 table, come back in the same order. */
  lemma {:induction false} LowsFreed(s: State, m: Memory, root: Pa, i: nat, j: nat)
    requires |s.mem| == NPAGES && Tree(m, root) && i < ENTRIES && m.tables[root][i].valid && j <= ENTRIES
    ensures m.tables[root][i].pa in m.tables
    ensures P.FreeLows(s, Abs(m.tables, root), i, j).free + [m.tables[root][i].pa]
         == s.free + Freed(m.tables, m.tables[root][i].pa, 1, j)
    decreases ENTRIES - j
  {
    hide Abs;
    var mid := m.tables[root][i].pa;
    assert TableAt(m.tables, root, Mid(i)) == Some(mid);
    if j < ENTRIES {
      var pt := Abs(m.tables, root);
      AbsLow(m.tables, root, i, j);
      if m.tables[mid][j].valid {
        var low := m.tables[mid][j].pa;
        assert TableAt(m.tables, root, Low(i, j)) == Some(low);
        FreedLevel0(m.tables, low, 0);
        LowsFreed(Push(s, low), m, root, i, j + 1);
        assert s.free + [low] + Freed(m.tables, mid, 1, j + 1) == s.free + ([low] + Freed(m.tables, mid, 1, j + 1));
      } else {
        LowsFreed(s, m, root, i, j + 1);
      }
    }
  }

  lemma AbsLow(tables: map<Pa, Table>, root: Pa, i: nat, j: nat)
    requires i < ENTRIES && j < ENTRIES
    ensures var pt, at := Abs(tables, root), TableAt(tables, root, Low(i, j));
            (i * 512 + j in pt.lows <==> at.Some?) && (at.Some? ==> pt.lows[i * 512 + j] == at.value)
  {
    hide Lookup, TableAt;
    assert (i * 512 + j) / 512 == i && (i * 512 + j) % 512 == j;
  }

  lemma AbsMid(tables: map<Pa, Table>, root: Pa, i: nat)
    requires i < ENTRIES
    ensures var pt, at := Abs(tables, root), TableAt(tables, root, Mid(i));
            (i in pt.mids <==> at.Some?) && (at.Some? ==> pt.mids[i] == at.value)
  {
    hide Lookup, TableAt;
  }

  lemma {:induction false} MidsFreed(s: State, m: Memory, root: Pa, i: nat)
    requires |s.mem| == NPAGES && Tree(m, root) && i <= ENTRIES
    ensures P.FreeMids(s, Abs(m.tables, root), i).free + [root] == s.free + Freed(m.tables, root, 2, i)
    decreases ENTRIES - i
  {
    hide Abs, P.FreeLows;
    if i < ENTRIES {
      var pt := Abs(m.tables, root);
      AbsMid(m.tables, root, i);
      if m.tables[root][i].valid {
        var mid := m.tables[root][i].pa;
        assert TableAt(m.tables, root, Mid(i)) == Some(mid);
        LowsFreed(s, m, root, i, 0);
        var s1 := Push(P.FreeLows(s, pt, i, 0), mid);
        MidsFreed(s1, m, root, i + 1);
        var sub, rest := Freed(m.tables, mid, 1, 0), Freed(m.tables, root, 2, i + 1);
        assert s1.free == s.free + sub;
        assert s.free + sub + rest == s.free + (sub + rest);
      } else {
        MidsFreed(s, m, root, i + 1);
      }
    }
  }

  /** freewalk on the tables and FreeWalk on the record free the same pages in the same order. */
  lemma FreeRefines(s: State, m: Memory, root: Pa)
    requires |s.mem| == NPAGES && Tree(m, root)
    ensures P.FreeWalk(s, Abs(m.tables, root)).free == s.free + Freed(m.tables, root, 2, 0)
  {
    hide Abs, P.FreeMids;
    MidsFreed(s, m, root, 0);
    AbsRoot(m.tables, root);
  }

  lemma AbsRoot(tables: map<Pa, Table>, root: Pa)
    ensures Abs(tables, root).root == root
  {
  }
}
