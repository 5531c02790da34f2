/** fork: uvmcopy page by page, its failure path, and kfork around it. */
module Fork {
  import opened Options
  import opened Bytes
  import opened Frames
  import opened Paging
  import opened Eviction
  import opened Fault
  import opened AddressSpace
  import opened Processes
  import R = Raid

  // ----- uvmcopy -----

  /** A resident page: allocate, copy the parent's bytes, map with the parent's flags. */
  function CopyResident(s: State, parent: Pid, child: Pid, v: nat): (State, bool)
    requires Wf(s) && Live(s, child) && Mapped(s, parent, v) && !Mapped(s, child, v)
  {
    if s.free == [] then (s, false)
    else
      var e := LeafOf(s.procs, parent)[v];
      PlaceFresh(s, child, v, Pop(s, Fill(PGSIZE, 5)).mem[e.pa], e.perm)
  }

  /** The copy in page tmp goes to a free slot, which is entered for the child. */
  function StoreSwapped(s: State, child: Pid, v: nat, tmp: Pa): (State, bool)
    requires Wf(s)
  {
    var dst := FirstFreeSlot(s.swapUsed, 0);
    if dst == -1 then (Push(s, tmp), false)
    else
      var s1 := Push(s.(swapUsed := s.swapUsed[dst := true],
                        disk := R.WritePage(s.conf, s.disk, dst, s.mem[tmp])), tmp);
      var e := FirstFreeEntry(s1.swapMap, 0);
      if e == -1 then (s1.(swapUsed := s1.swapUsed[dst := false]), false)
      else (s1.(swapMap := s1.swapMap[e := SwapEntry(true, Some(child), v, dst)]), true)
  }

  /** A swapped page: read it into a temporary page, write it to a slot of the child's own. */
  function CopySwapped(s: State, child: Pid, v: nat, src: nat): (State, bool)
    requires Wf(s) && src < MAX_SWAP_PAGES
  {
    if s.free == [] then (s, false)
    else
      var s1 := Pop(s, Fill(PGSIZE, 5));
      StoreSwapped(s1.(mem := s1.mem[Top(s) := R.ReadPage(s1.conf, s1.disk, src)]), child, v, Top(s))
  }

  function CopyPage(s: State, parent: Pid, child: Pid, v: nat): (State, bool)
    requires Wf(s) && Live(s, child) && !Mapped(s, child, v)
  {
    if Mapped(s, parent, v) then CopyResident(s, parent, child, v)
    else
      var k := FindSwap(s.swapMap, parent, v, 0);
      if k == -1 then (s, true) else CopySwapped(s, child, v, s.swapMap[k].slot)
  }

  lemma CopyPageOnly(s: State, parent: Pid, child: Pid, v: nat)
    requires Wf(s) && Live(s, child) && !Mapped(s, child, v)
    ensures var s' := CopyPage(s, parent, child, v).0;
            Wf(s') && Live(s', child) && LeafOf(s'.procs, child).Keys <= LeafOf(s.procs, child).Keys + {v}
  {
    hide PlaceFresh, R.ReadPage, R.WritePage;
    if Mapped(s, parent, v) && s.free != [] {
      var e := LeafOf(s.procs, parent)[v];
      PlaceFreshOnly(s, child, v, Pop(s, Fill(PGSIZE, 5)).mem[e.pa], e.perm);
    }
  }

  /** uvmcopy from page v up to page n; on failure the child's pages below v are unmapped again. */
  function UvmCopyFrom(s: State, parent: Pid, child: Pid, v: nat, n: nat): (r: (State, bool))
    requires Wf(s) && Live(s, child) && Unmapped(s.procs, child, v, n)
    ensures Wf(r.0) && Live(r.0, child)
    decreases n - v
  {
    if v >= n then (s, true)
    else
      CopyPageOnly(s, parent, child, v);
      var (s1, ok) := CopyPage(s, parent, child, v);
      if !ok then (UnmapRange(s1, child, None, 0, v), false)
      else UvmCopyFrom(s1, parent, child, v + 1, n)
  }

  // ----- kfork -----

  function FirstUnusedProc(procs: seq<Proc>, i: nat): (r: int)
    requires i <= |procs|
    ensures r == -1 || i <= r < |procs|
    ensures r != -1 ==> procs[r].pt.None? && forall k :: i <= k < r ==> procs[k].pt.Some?
    ensures r == -1 ==> forall k :: i <= k < |procs| ==> procs[k].pt.Some?
    decreases |procs| - i
  {
    if i == |procs| then -1 else if procs[i].pt.None? then i else FirstUnusedProc(procs, i + 1)
  }

  /** The memory half of kfork. */
  function KFork(s: State, parent: Pid): (State, Option<Pid>)
    requires Wf(s) && Live(s, parent)
  {
    var c := FirstUnusedProc(s.procs, 0);
    if c == -1 then (s, None) else ForkInto(s, parent, c)
  }

  function ForkInto(s: State, parent: Pid, c: Pid): (State, Option<Pid>)
    requires Wf(s) && s.procs[c].pt.None?
  {
    var (s1, ok1) := AllocProc(s, c);
    AllocProcOnly(s, c);
    if !ok1 then (s1, None)
    else
      var (s2, ok2) := UvmCopyFrom(s1, parent, c, 0, PagesFor(s.procs[parent].sz));
      if !ok2 then (FreeProc(s2, c), None) else (SetSize(s2, c, s.procs[parent].sz), Some(c))
  }

  lemma AllocProcOnly(s: State, c: Pid)
    requires Wf(s) && s.procs[c].pt.None?
    ensures var (s', ok) := AllocProc(s, c);
            Wf(s') && (ok ==> Live(s', c) && LeafOf(s'.procs, c) == map[])
  {
    hide Walk, FreeWalk;
    if s.free != [] {
      var s1 := Pop(s, Fill(PGSIZE, 5));
      var s2 := s1.(procs := s1.procs[c := s1.procs[c].(trapframe := Some(Top(s)))]);
      if s2.free != [] {
        var s4 := WithRoot(s2, c);
        WalkOnly(s4, c, MAX_VPN - 1);
        var (s5, ok) := Walk(s4, c, MAX_VPN - 1);
        if ok { WalkOnly(s5, c, TRAPFRAME_VPN); }
      }
    }
  }

  // ----- one page -----

  /** m without the entries of c is m0. */
  predicate ErasesTo(m: seq<SwapEntry>, m0: seq<SwapEntry>, c: Pid) {
    |m| == |m0| && forall k :: 0 <= k < |m| ==> m0[k] == if m[k].used && m[k].proc == Some(c) then NO_ENTRY else m[k]
  }

  /** All but page v of the child is as before; on success the child's page v is the parent's. */
  ghost predicate Copied(s: State, parent: Pid, child: Pid, v: nat, s': State, ok: bool)
    requires Wf(s)
  {
    && Core(s', {}, {}) && Conserves(s, {}, s', {}) && SameSizes(s, s')
    && s'.frames == s.frames && s'.count == s.count && s'.hand == s.hand
    && (forall m0 :: ErasesTo(s.swapMap, m0, child) ==> ErasesTo(s'.swapMap, m0, child))
    && (forall q: Pid, w: nat :: q != child || w != v ==>
          M(s', q, w) == M(s, q, w) && Present(s', q, w) == Present(s, q, w))
    && (ok ==> M(s', child, v) == M(s, parent, v))
    && (!ok ==> M(s', child, v) == ZERO_CELL && !Present(s', child, v))
    && (forall q: Pid :: q != child ==> s'.procs[q] == s.procs[q])
  }

  lemma PlaceFreshOthers(s: State, p: Pid, v: nat, x: Page, perm: Perm)
    requires Wf(s) && Live(s, p) && !Mapped(s, p, v)
    ensures var s' := PlaceFresh(s, p, v, x, perm).0; Wf(s') && forall q: Pid :: q != p ==> s'.procs[q] == s.procs[q]
  {
    hide Walk;
    if s.free != [] {
      var s1 := Pop(s, Fill(PGSIZE, 5));
      WalkOthers(s1.(mem := s1.mem[Top(s) := x]), p, v);
      WalkOnly(s1.(mem := s1.mem[Top(s) := x]), p, v);
    }
  }

  lemma CopyResidentCorrect(s: State, parent: Pid, child: Pid, v: nat)
    requires Core(s, {}, {}) && parent != child && Live(s, child) && Mapped(s, parent, v) && !Present(s, child, v)
    requires v < TRAPFRAME_VPN
    ensures var (s', ok) := CopyResident(s, parent, child, v); Copied(s, parent, child, v, s', ok)
  {
    hide Disjoint, Everything, FramesMapped, FramesUnique, TablesClosed, NumUsed, SwapUnique, SwapExclusive,
         SwapTables, FramesClean, PlaceFresh, R.ReadPage;
    AbsentIsZero(s, child, v);
    if s.free != [] {
      var e := LeafOf(s.procs, parent)[v];
      TopNotMapped(s, parent, v);
      assert Pop(s, Fill(PGSIZE, 5)).mem[e.pa] == s.mem[e.pa];
      PlaceFreshCorrect(s, child, v, s.mem[e.pa], e.perm);
      PlaceFreshOthers(s, child, v, s.mem[e.pa], e.perm);
    }
  }

  lemma TopNotMapped(s: State, p: Pid, v: nat)
    requires Wf(s) && Disjoint(s.free, s.procs, {}) && Mapped(s, p, v) && s.free != []
    ensures LeafOf(s.procs, p)[v].pa != Top(s)
  {
    assert At(s.free, s.procs, LeafLoc(p, v)) == Some(LeafOf(s.procs, p)[v].pa);
    assert At(s.free, s.procs, FreeLoc(|s.free| - 1)) == Some(Top(s));
  }

  /** A page written to a free slot and entered for the child at the same index. */
  function Enter(s: State, child: Pid, v: nat, slot: nat, x: Page): State
    requires Wf(s) && slot < MAX_SWAP_PAGES
  {
    s.(swapUsed := s.swapUsed[slot := true], disk := R.WritePage(s.conf, s.disk, slot, x),
       swapMap := s.swapMap[slot := SwapEntry(true, Some(child), v, slot)])
  }

  lemma EnterCorrect(s: State, held: set<Pa>, child: Pid, v: nat, slot: nat, x: Page)
    requires Core(s, held, {}) && Live(s, child) && !Present(s, child, v) && slot < MAX_SWAP_PAGES && !s.swapUsed[slot]
    ensures var s' := Enter(s, child, v, slot, x);
            && Core(s', held, {}) && M(s', child, v) == Cell(x, RWU)
            && (forall q: Pid, w: nat :: q != child || w != v ==>
                  M(s', q, w) == M(s, q, w) && Present(s', q, w) == Present(s, q, w))
            && (forall m0 :: ErasesTo(s.swapMap, m0, child) ==> ErasesTo(s'.swapMap, m0, child))
  {
    hide Disjoint, FramesMapped, FramesUnique, TablesClosed, NumUsed, R.ReadPage, R.WritePage;
    var s' := Enter(s, child, v, slot, x);
    var e := SwapEntry(true, Some(child), v, slot);
    SwapInsertUnique(s.swapMap, slot, child, v, slot);
    FindUnique(s'.swapMap, child, v, slot);
    R.WritePageReads(s.conf, s.disk, slot, x, slot);
    forall q: Pid, w: nat | q != child || w != v
      ensures M(s', q, w) == M(s, q, w) && Present(s', q, w) == Present(s, q, w)
    {
      FindSwapElsewhere(s.swapMap, slot, e, q, w);
      var k := FindSwap(s.swapMap, q, w, 0);
      if k != -1 { R.WritePageReads(s.conf, s.disk, slot, x, k); }
    }
  }

  lemma CopySwappedCorrect(s: State, parent: Pid, child: Pid, v: nat, k: nat)
    requires Core(s, {}, {}) && parent != child && Live(s, child) && !Mapped(s, parent, v) && !Present(s, child, v)
    requires k < MAX_SWAP_PAGES && FindSwap(s.swapMap, parent, v, 0) == k
    ensures s.swapMap[k].slot == k
    ensures var (s', ok) := CopySwapped(s, child, v, k); Copied(s, parent, child, v, s', ok)
  {
    hide Disjoint, Everything, M, Present, FramesMapped, FramesUnique, TablesClosed, NumUsed, SwapUnique,
         SwapExclusive, FramesClean, R.ReadPage, R.WritePage;
    AbsentIsZero(s, child, v);
    if s.free != [] {
      var tmp := Top(s);
      var x := R.ReadPage(s.conf, s.disk, k);
      SwappedCell(s, parent, v, k);
      PopHeld(s, {}, x);
      var s2 := Pop(s, Fill(PGSIZE, 5)).(mem := Pop(s, Fill(PGSIZE, 5)).mem[tmp := x]);
      var dst := FirstFreeSlot(s2.swapUsed, 0);
      assert {tmp} - {tmp} == {};
      AbsentIsZero(s2, child, v);
      if dst == -1 {
        PushHeld(s2, {tmp}, {}, tmp);
      } else {
        SameFirstFree(s2.swapUsed, s2.swapMap);
        EnterCorrect(s2, {tmp}, child, v, dst, x);
        PushHeld(Enter(s2, child, v, dst, x), {tmp}, {}, tmp);
        assert CopySwapped(s, child, v, k).0 == Push(Enter(s2, child, v, dst, x), tmp);
      }
    }
  }

  lemma SwappedCell(s: State, p: Pid, v: nat, k: nat)
    requires Wf(s) && SwapTables(s.swapUsed, s.swapMap) && !Mapped(s, p, v)
    requires FindSwap(s.swapMap, p, v, 0) == k < MAX_SWAP_PAGES
    ensures M(s, p, v) == Cell(R.ReadPage(s.conf, s.disk, k), RWU)
  {
  }

  /** uvmcopy looks for a free slot and for a free entry separately; the tables agreeing, it finds the
      same index. */
  lemma SameFirstFree(used: seq<bool>, m: seq<SwapEntry>)
    requires SwapTables(used, m)
    ensures FirstFreeEntry(m, 0) == FirstFreeSlot(used, 0)
  {
  }

  lemma CopyPageCorrect(s: State, parent: Pid, child: Pid, v: nat)
    requires Core(s, {}, {}) && parent != child && Live(s, child) && !Present(s, child, v) && v < TRAPFRAME_VPN
    ensures var (s', ok) := CopyPage(s, parent, child, v); Copied(s, parent, child, v, s', ok)
  {
    hide CopyResident, CopySwapped, Disjoint, Everything, R.ReadPage;
    if Mapped(s, parent, v) {
      CopyResidentCorrect(s, parent, child, v);
    } else {
      var k := FindSwap(s.swapMap, parent, v, 0);
      if k != -1 { CopySwappedCorrect(s, parent, child, v, k); }
    }
  }

  // ----- the whole copy -----

  /** Up to page v the child has the parent's pages, from v on it has nothing. */
  ghost predicate CopiedUpTo(s0: State, s: State, parent: Pid, child: Pid, v: nat)
    requires Wf(s0) && Wf(s)
  {
    && (forall w: nat :: M(s, child, w) == if w < v then M(s0, parent, w) else ZERO_CELL)
    && (forall w: nat :: Present(s, child, w) ==> w < v)
    && (forall q: Pid, w: nat :: q != child ==> M(s, q, w) == M(s0, q, w) && Present(s, q, w) == Present(s0, q, w))
  }

  /** What does not depend on how far the copy got. */
  ghost predicate ForkFrame(s0: State, s: State, child: Pid)
    requires Wf(s0) && Wf(s)
  {
    && Conserves(s0, {}, s, {}) && SameSizes(s0, s)
    && s.frames == s0.frames && s.count == s0.count && s.hand == s0.hand
    && ErasesTo(s.swapMap, s0.swapMap, child)
    && (forall q: Pid :: q != child ==> s.procs[q] == s0.procs[q])
  }

  /** uvmcopy as a whole: on success the child has exactly the parent's pages and nobody else sees a
      change; on failure the child is left with no mapping, and the rest is untouched. */
  lemma {:induction false} UvmCopyCorrect(s0: State, s: State, parent: Pid, child: Pid, v: nat, n: nat)
    requires Core(s, {}, {}) && Wf(s0) && parent != child && Live(s, child) && v <= n <= TRAPFRAME_VPN
    requires NoFrames(s, child) && CopiedUpTo(s0, s, parent, child, v) && ForkFrame(s0, s, child)
    ensures Unmapped(s.procs, child, v, n)
    ensures var (s', ok) := UvmCopyFrom(s, parent, child, v, n);
            && Core(s', {}, {}) && ForkFrame(s0, s', child)
            && (ok ==> CopiedUpTo(s0, s', parent, child, n))
            && (!ok ==> LeafOf(s'.procs, child) == map[]
                        && forall q: Pid, w: nat :: q != child ==>
                             M(s', q, w) == M(s0, q, w) && Present(s', q, w) == Present(s0, q, w))
    decreases n - v
  {
    hide Core, Everything, M, CopyPage;
    CoreWf(s, {}, {});
    forall w | w in LeafOf(s.procs, child)
      ensures w < v
    {
      assert Present(s, child, w);
    }
    if v < n {
      CopyPageOnly(s, parent, child, v);
      CopyPageCorrect(s, parent, child, v);
      var (s1, ok) := CopyPage(s, parent, child, v);
      CoreWf(s1, {}, {});
      assert ForkFrame(s0, s1, child);
      if ok {
        CopiedStep(s0, s, s1, parent, child, v);
        UvmCopyCorrect(s0, s1, parent, child, v + 1, n);
      } else {
        CopyUndone(s0, s, s1, parent, child, v);
      }
    }
  }

  lemma CopiedStep(s0: State, s: State, s1: State, parent: Pid, child: Pid, v: nat)
    requires Wf(s0) && Wf(s) && CopiedUpTo(s0, s, parent, child, v) && parent != child
    requires Copied(s, parent, child, v, s1, true)
    ensures CopiedUpTo(s0, s1, parent, child, v + 1)
  {
    hide Core, Everything, M, Present, Conserves, SameSizes, ErasesTo;
    CoreWf(s1, {}, {});
    forall w: nat
      ensures M(s1, child, w) == if w < v + 1 then M(s0, parent, w) else ZERO_CELL
      ensures Present(s1, child, w) ==> w < v + 1
    {
    }
  }

  lemma CopyUndone(s0: State, s: State, s1: State, parent: Pid, child: Pid, v: nat)
    requires Wf(s0) && Wf(s) && CopiedUpTo(s0, s, parent, child, v) && ForkFrame(s0, s, child)
    requires Copied(s, parent, child, v, s1, false) && ForkFrame(s0, s1, child)
    requires Live(s1, child) && NoFrames(s1, child)
    ensures var s' := UnmapRange(s1, child, None, 0, v);
            && Core(s', {}, {}) && ForkFrame(s0, s', child) && LeafOf(s'.procs, child) == map[]
            && forall q: Pid, w: nat :: q != child ==>
                 M(s', q, w) == M(s0, q, w) && Present(s', q, w) == Present(s0, q, w)
  {
    hide Core, Everything, M;
    CoreWf(s1, {}, {});
    UnmapForeignRange(s1, child, 0, v);
    UnmapRangeOthers(s1, child, 0, v);
    var s' := UnmapRange(s1, child, None, 0, v);
    forall w | w in LeafOf(s1.procs, child)
      ensures w < v
    {
      assert Present(s1, child, w);
      assert w != v ==> Present(s, child, w);
    }
    assert forall w :: w !in LeafOf(s'.procs, child) by {
      forall w: nat
        ensures w !in LeafOf(s'.procs, child)
      {
        UnmappedAll(s1, s', child, v, w);
      }
    }
    forall q: Pid, w: nat | q != child
      ensures M(s', q, w) == M(s0, q, w) && Present(s', q, w) == Present(s0, q, w)
    {
      assert !InRange(q, w, child, 0, v);
    }
  }

  ghost function FreeSet(s: State): set<Pa> {
    set a | a in s.free
  }

  /** Conservation with equal page tables means equal free lists, as sets. */
  lemma SameFreeSet(s: State, s': State)
    requires Wf(s) && Wf(s') && Conserves(s, {}, s', {})
    requires Disjoint(s.free, s.procs, {}) && Disjoint(s'.free, s'.procs, {})
    requires forall l: Loc :: !l.FreeLoc? ==> At(s'.free, s'.procs, l) == At(s.free, s.procs, l)
    ensures FreeSet(s') == FreeSet(s)
  {
    forall a: Pa
      ensures a in s.free <==> a in s'.free
    {
      FreeInEverything(s, a);
      FreeInEverything(s', a);
    }
  }

  /** A free page is one that is somewhere, but in no place other than the free list. */
  lemma FreeInEverything(s: State, a: Pa)
    requires Wf(s) && Disjoint(s.free, s.procs, {})
    ensures a in s.free <==>
            && a in Everything(s.free, s.procs, {})
            && forall l: Loc :: !l.FreeLoc? ==> At(s.free, s.procs, l) != Some(a)
  {
    if a in s.free {
      var i :| 0 <= i < |s.free| && s.free[i] == a;
      assert At(s.free, s.procs, FreeLoc(i)) == Some(a);
    }
  }

  /** Swap tables are determined by the swap map. */
  lemma SameUsed(s: State, s': State)
    requires SwapTables(s.swapUsed, s.swapMap) && SwapTables(s'.swapUsed, s'.swapMap) && s'.swapMap == s.swapMap
    ensures s'.swapUsed == s.swapUsed
  {
  }

  /** A failed fork leaves no trace: the swap tables, the frame table and the set of free pages are those
      from before the fork. */
  ghost predicate NoTrace(s: State, s': State, c: Pid)
    requires Wf(s) && Wf(s')
  {
    && s'.swapMap == s.swapMap && s'.swapUsed == s.swapUsed
    && s'.frames == s.frames && s'.count == s.count && s'.hand == s.hand
    && FreeSet(s') == FreeSet(s)
    && (forall q: Pid :: q != c ==> s'.procs[q] == s.procs[q])
    && s'.procs[c].pt.None? && s'.procs[c].trapframe.None? && s'.procs[c].sz == 0
  }

  /** What a fork does. Success: a new process sees exactly the parent's pages and nobody else sees a change. Failure:
      no trace is left. */
  ghost predicate Forked(s: State, parent: Pid, s': State, r: Option<Pid>)
    requires Wf(s) && Live(s, parent)
  {
    && Wf(s') && Conserves(s, {}, s', {})
    && (forall q: Pid, v: nat :: r != Some(q) ==> M(s', q, v) == M(s, q, v))
    && (r.Some? ==> r.value != parent && s.procs[r.value].pt.None? && Live(s', r.value)
                    && s'.procs[r.value].sz == s.procs[parent].sz
                    && (forall c :: 0 <= c < r.value ==> s.procs[c].pt.Some?)
                    && (forall q: Pid :: q != r.value ==> s'.procs[q] == s.procs[q])
                    && forall v: nat :: M(s', r.value, v) == M(s, parent, v))
    && (r.None? ==> s' == s || exists c: Pid :: s.procs[c].pt.None? && NoTrace(s, s', c))
  }

  /** Main result on fork. Success: the child's pages are the parent's, resident, swapped or untouched,
      and every other process, the parent included, sees no change. Failure, at whatever page and for
      whatever reason: nobody sees a change and no resource is lost. */
  lemma ForkCorrect(s: State, parent: Pid)
    requires Inv(s) && Live(s, parent)
    ensures var (s', r) := KFork(s, parent); Inv(s') && Forked(s, parent, s', r)
  {
    hide Core, Everything, M, Present, ForkInto;
    CoreWf(s, {}, {});
    var c := FirstUnusedProc(s.procs, 0);
    if c != -1 { ForkIntoCorrect(s, parent, c); }
    CoreWf(KFork(s, parent).0, {}, {});
  }

  lemma UnusedIsStranger(s: State, c: Pid)
    requires Core(s, {}, {}) && s.procs[c].pt.None?
    ensures Stranger(s, c) && ErasesTo(s.swapMap, s.swapMap, c)
    ensures forall w: nat :: M(s, c, w) == ZERO_CELL && !Present(s, c, w)
  {
    forall w: nat
      ensures M(s, c, w) == ZERO_CELL && !Present(s, c, w)
    {
      NobodyHome(s, c, w);
    }
  }

  lemma ForkIntoCorrect(s: State, parent: Pid, c: Pid)
    requires Inv(s) && Live(s, parent) && s.procs[c].pt.None?
    ensures var (s', r) := ForkInto(s, parent, c);
            && Inv(s') && Conserves(s, {}, s', {})
            && (forall q: Pid, v: nat :: r != Some(q) ==> M(s', q, v) == M(s, q, v))
            && (r == None || r == Some(c))
            && (forall q: Pid :: q != c ==> s'.procs[q] == s.procs[q])
            && (r.Some? ==>
                  && Live(s', c) && s'.procs[c].sz == s.procs[parent].sz
                  && forall v: nat :: M(s', c, v) == M(s, parent, v))
            && (r.None? ==> NoTrace(s, s', c))
  {
    hide Core, Everything, M, Present, AllocProc, UvmCopyFrom, FreeProc;
    CoreWf(s, {}, {});
    UnusedIsStranger(s, c);
    AllocProcCorrect(s, c);
    AllocProcOnly(s, c);
    var (s1, ok1) := AllocProc(s, c);
    CoreWf(s1, {}, {});
    if ok1 {
      ForkAllocated(s, s1, parent, c);
    } else {
      FailedFork(s, s1, c);
    }
  }

  /** Failure in allocproc. */
  lemma FailedFork(s: State, s': State, c: Pid)
    requires Inv(s) && s.procs[c].pt.None? && Core(s', {}, {}) && Conserves(s, {}, s', {})
    requires forall q: Pid, w: nat :: M(s', q, w) == M(s, q, w) && Present(s', q, w) == Present(s, q, w)
    requires s'.swapMap == s.swapMap && s'.frames == s.frames && s'.count == s.count && s'.hand == s.hand
    requires forall q: Pid :: q != c ==> s'.procs[q] == s.procs[q]
    requires s'.procs[c].pt.None? && s'.procs[c].trapframe.None? && s'.procs[c].sz == 0
    ensures Inv(s') && NoTrace(s, s', c)
  {
    hide Everything, M, Present, FramesMapped, FramesUnique, TablesClosed, NumUsed, SwapUnique, SwapExclusive,
         FramesClean;
    SameUsed(s, s');
    forall l: Loc | !l.FreeLoc?
      ensures At(s'.free, s'.procs, l) == At(s.free, s.procs, l)
    {
    }
    SameFreeSet(s, s');
    forall q: Pid
      ensures Sized(s', q)
    {
      assert Sized(s, q);
    }
  }

  lemma ForkAllocated(s: State, s1: State, parent: Pid, c: Pid)
    requires Inv(s) && Live(s, parent) && s.procs[c].pt.None? && Stranger(s, c) && ErasesTo(s.swapMap, s.swapMap, c)
    requires forall w: nat :: M(s, c, w) == ZERO_CELL && !Present(s, c, w)
    requires AllocatedProc(s, c, s1, true)
    ensures Unmapped(s1.procs, c, 0, PagesFor(s.procs[parent].sz))
    ensures var (s2, ok) := UvmCopyFrom(s1, parent, c, 0, PagesFor(s.procs[parent].sz));
            var s' := if ok then s2 else FreeProc(s2, c);
            forall q: Pid :: q != c ==> s'.procs[q] == s.procs[q]
    ensures var (s2, ok) := UvmCopyFrom(s1, parent, c, 0, PagesFor(s.procs[parent].sz));
            if ok then
              var s' := SetSize(s2, c, s.procs[parent].sz);
              && Inv(s') && Conserves(s, {}, s', {}) && Live(s', c)
              && (forall q: Pid, v: nat :: q != c ==> M(s', q, v) == M(s, q, v))
              && (forall v: nat :: M(s', c, v) == M(s, parent, v))
            else
              var s' := FreeProc(s2, c);
              && Inv(s') && Conserves(s, {}, s', {}) && NoTrace(s, s', c)
              && forall q: Pid, v: nat :: M(s', q, v) == M(s, q, v)
  {
    hide Core, Everything, M, Present, UvmCopyFrom, FreeProc;
    CoreWf(s, {}, {});
    CoreWf(s1, {}, {});
    var n := PagesFor(s.procs[parent].sz);
    assert Sized(s, parent);
    UvmCopyCorrect(s1, s1, parent, c, 0, n);
    var (s2, ok) := UvmCopyFrom(s1, parent, c, 0, n);
    CoreWf(s2, {}, {});
    if ok {
      ForkDone(s, s1, s2, parent, c);
    } else {
      FreeProcCorrect(s2, c);
      var s' := FreeProc(s2, c);
      CoreWf(s', {}, {});
      assert s'.swapMap == s.swapMap;
      forall q: Pid, w: nat
        ensures M(s', q, w) == M(s, q, w) && Present(s', q, w) == Present(s, q, w)
      {
        if q == c {} else {}
      }
      FailedFork(s, s', c);
    }
  }

  lemma ForkDone(s: State, s1: State, s2: State, parent: Pid, c: Pid)
    requires Inv(s) && Live(s, parent) && s.procs[c].pt.None? && parent != c
    requires AllocatedProc(s, c, s1, true) && Core(s2, {}, {}) && Live(s2, c)
    requires ForkFrame(s1, s2, c) && CopiedUpTo(s1, s2, parent, c, PagesFor(s.procs[parent].sz))
    ensures var s' := SetSize(s2, c, s.procs[parent].sz);
            && Inv(s') && Conserves(s, {}, s', {}) && Live(s', c)
            && (forall q: Pid, v: nat :: q != c ==> M(s', q, v) == M(s, q, v))
            && (forall v: nat :: M(s', c, v) == M(s, parent, v))
  {
    hide Core, Everything, M, Present;
    CoreWf(s, {}, {});
    CoreWf(s1, {}, {});
    CoreWf(s2, {}, {});
    var n := PagesFor(s.procs[parent].sz);
    SetSizeCore(s2, c, s.procs[parent].sz);
    var s' := SetSize(s2, c, s.procs[parent].sz);
    CoreWf(s', {}, {});
    assert Sized(s, parent);
    forall v: nat
      ensures M(s', c, v) == M(s, parent, v)
    {
      assert M(s', c, v) == M(s2, c, v);
      if v >= n { AbsentIsZero(s, parent, v); }
    }
    forall q: Pid
      ensures Sized(s', q)
    {
      assert Sized(s, q);
    }
  }
}
