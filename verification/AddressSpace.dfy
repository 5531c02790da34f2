/** Unmapping, growing and shrinking, process creation and teardown. */
module AddressSpace {
  import opened Options
  import opened Bytes
  import opened Frames
  import opened Paging
  import opened Eviction
  import opened Fault
  import R = Raid

  // ----- uvmunmap with do_free, page by page -----

  /** Release the swap slot of (p, v), if it has one. */
  function ReleaseSwap(s: State, p: Pid, v: nat): State
    requires Wf(s)
  {
    var k := FindSwap(s.swapMap, p, v, 0);
    if k == -1 then s else DropSwap(s, k, s.swapMap[k].slot)
  }

  /** One page of uvmunmap on p's table. `owner` is Some(p) when that table is the running process's
      own and None otherwise, which suppresses the swap and frame clean-up. */
  function UnmapPage(s: State, p: Pid, owner: Option<Pid>, v: nat): State
    requires Wf(s) && Live(s, p)
  {
    var s1 := if owner.Some? then ReleaseSwap(s, owner.value, v) else s;
    if !Mapped(s1, p, v) then s1
    else
      var pa := LeafOf(s1.procs, p)[v].pa;
      var s2 := Push(ClearFrame(s1, owner, v), pa);
      s2.(procs := ClearLeaf(s2.procs, p, v))
  }

  function UnmapRange(s: State, p: Pid, owner: Option<Pid>, v: nat, n: nat): (r: State)
    requires Wf(s) && Live(s, p)
    ensures Wf(r) && Live(r, p)
    decreases n
  {
    if n == 0 then s else UnmapRange(UnmapPage(s, p, owner, v), p, owner, v + 1, n - 1)
  }

  lemma ReleaseSwapCore(s: State, p: Pid, v: nat)
    requires Core(s, {}, {}) && !Mapped(s, p, v)
    ensures var s' := ReleaseSwap(s, p, v);
            && Core(s', {}, {}) && s'.procs == s.procs && s'.free == s.free && !Present(s', p, v)
            && M(s', p, v) == ZERO_CELL
            && forall q: Pid, w: nat :: q != p || w != v ==>
                 M(s', q, w) == M(s, q, w) && Present(s', q, w) == Present(s, q, w)
  {
    hide Disjoint, R.ReadPage, FramesMapped, FramesUnique, TablesClosed, NumUsed;
    var s' := ReleaseSwap(s, p, v);
    var k := FindSwap(s.swapMap, p, v, 0);
    if k != -1 {
      forall q: Pid, w: nat | q != p || w != v
        ensures M(s', q, w) == M(s, q, w) && Present(s', q, w) == Present(s, q, w)
      {
        FindSwapElsewhere(s.swapMap, k, NO_ENTRY, q, w);
      }
    }
  }

  /** A mapped page leaves p's address space; its frame entry, if tracked, is dropped with it. */
  lemma UnmapMapped(s: State, p: Pid, owner: Option<Pid>, v: nat)
    requires Core(s, {}, {}) && Mapped(s, p, v)
    requires owner == Some(p) || (owner == None && Untracked(s.frames, p, v))
    ensures var s1 := Push(ClearFrame(s, owner, v), LeafOf(s.procs, p)[v].pa);
            var s' := s1.(procs := ClearLeaf(s1.procs, p, v));
            Core(s', {}, {}) && Conserves(s, {}, s', {})
  {
    hide Disjoint, Everything, FramesUnique, FramesClean, NumUsed, TablesClosed, SwapUnique, M;
    var i := FirstHolding(s.frames, owner, v, 0);
    UnmapOwners(s, p, v);
    UnmapTables(s.procs, p, v);
    UnmapSwap(s.swapMap, s.procs, p, v);
    if i == -1 {
      forall k | 0 <= k < MAX_FRAMES && s.frames[k].used
        ensures (s.frames[k].proc, s.frames[k].vpn) != (Some(p), v)
      {
        assert !Holds(s.frames[k], owner, v);
      }
      UnmapFrames(s.frames, s.procs, p, v);
    } else {
      assert owner == Some(p);
      DropFrame(s.frames, s.procs, {}, i);
      assert {} - {(p, v)} == {};
      OthersNotHere(s.frames, i);
      UnmapFrames(s.frames[i := NO_FRAME], s.procs, p, v);
    }
  }

  lemma UnmapMappedView(s: State, p: Pid, owner: Option<Pid>, v: nat, q: Pid, w: nat)
    requires Core(s, {}, {}) && Mapped(s, p, v)
    ensures var s1 := Push(ClearFrame(s, owner, v), LeafOf(s.procs, p)[v].pa);
            var s' := s1.(procs := ClearLeaf(s1.procs, p, v));
            && Wf(s')
            && (q != p || w != v ==> M(s', q, w) == M(s, q, w) && Present(s', q, w) == Present(s, q, w))
            && M(s', p, v) == ZERO_CELL && !Present(s', p, v)
  {
    hide Disjoint, R.ReadPage, FramesMapped, FramesUnique, TablesClosed, NumUsed;
    if Mapped(s, q, w) && (q != p || w != v) { MappedApart(s, {}, p, v, q, w); }
  }

  /** What is gone is gone only from (p, v). */
  ghost predicate Dropped(s: State, s': State, p: Pid, v: nat)
    requires Wf(s) && Wf(s')
  {
    && M(s', p, v) == ZERO_CELL && !Present(s', p, v)
    && forall q: Pid, w: nat :: q != p || w != v ==>
         M(s', q, w) == M(s, q, w) && Present(s', q, w) == Present(s, q, w)
  }

  /** uvmunmap of one page by its own process: that page reads as untouched afterwards, no other page of
      any process changes, and its swap slot, frame entry and physical page all return to their pools. */
  lemma UnmapOwn(s: State, p: Pid, v: nat)
    requires Core(s, {}, {}) && Live(s, p)
    ensures var s' := UnmapPage(s, p, Some(p), v);
            && Core(s', {}, {}) && Conserves(s, {}, s', {}) && SameSizes(s, s') && Dropped(s, s', p, v)
            && !Mapped(s', p, v) && FramesShrink(s, s')
  {
    hide Disjoint, Everything, M, Present, FramesMapped, FramesUnique, FramesClean, NumUsed, TablesClosed, SwapUnique;
    if Mapped(s, p, v) {
      NoSwapIfMapped(s, p, v);
      UnmapMapped(s, p, Some(p), v);
      var s' := UnmapPage(s, p, Some(p), v);
      forall q: Pid, w: nat
        ensures q != p || w != v ==> M(s', q, w) == M(s, q, w) && Present(s', q, w) == Present(s, q, w)
        ensures M(s', p, v) == ZERO_CELL && !Present(s', p, v)
      {
        UnmapMappedView(s, p, Some(p), v, q, w);
      }
    } else {
      ReleaseSwapCore(s, p, v);
    }
  }

  /** Frame entries are only ever dropped. */
  predicate FramesShrink(s: State, s': State)
    requires Wf(s) && Wf(s')
  {
    forall i :: 0 <= i < MAX_FRAMES && s'.frames[i].used ==> s'.frames[i] == s.frames[i]
  }

  /** uvmunmap of one page of a table that is not the running process's, for a page no frame tracks. */
  lemma UnmapForeign(s: State, p: Pid, v: nat)
    requires Core(s, {}, {}) && Live(s, p) && Untracked(s.frames, p, v)
    ensures var s' := UnmapPage(s, p, None, v);
            && Core(s', {}, {}) && Conserves(s, {}, s', {}) && SameSizes(s, s') && !Mapped(s', p, v)
            && s'.frames == s.frames && s'.count == s.count
            && s'.swapUsed == s.swapUsed && s'.swapMap == s.swapMap && s'.hand == s.hand
            && (forall q: Pid, w: nat :: q != p || w != v ==>
                  && M(s', q, w) == M(s, q, w) && Present(s', q, w) == Present(s, q, w)
                  && Mapped(s', q, w) == Mapped(s, q, w))
  {
    hide Disjoint, Everything, M, Present, FramesUnique, FramesClean, NumUsed, TablesClosed, SwapUnique;
    if Mapped(s, p, v) {
      UnmapMapped(s, p, None, v);
      assert FirstHolding(s.frames, None, v, 0) == -1;
      var s' := UnmapPage(s, p, None, v);
      forall q: Pid, w: nat
        ensures q != p || w != v ==> M(s', q, w) == M(s, q, w) && Present(s', q, w) == Present(s, q, w)
      {
        UnmapMappedView(s, p, None, v, q, w);
      }
    }
  }
  // ----- ranges -----

  predicate InRange(q: Pid, w: nat, p: Pid, v: nat, n: nat) {
    q == p && v <= w < v + n
  }

  /** A whole range unmapped by its own process: exactly those pages read as untouched afterwards. */
  lemma {:induction false} UnmapOwnRange(s: State, p: Pid, v: nat, n: nat)
    requires Core(s, {}, {}) && Live(s, p)
    ensures var s' := UnmapRange(s, p, Some(p), v, n);
            && Core(s', {}, {}) && Conserves(s, {}, s', {}) && SameSizes(s, s')
            && (forall q: Pid, w: nat :: M(s', q, w) == if InRange(q, w, p, v, n) then ZERO_CELL else M(s, q, w))
            && (forall q: Pid, w: nat :: Present(s', q, w) == (!InRange(q, w, p, v, n) && Present(s, q, w)))
    decreases n
  {
    hide Core, Everything, M, Present, UnmapPage;
    CoreWf(s, {}, {});
    if n > 0 {
      UnmapOwn(s, p, v);
      var s1 := UnmapPage(s, p, Some(p), v);
      CoreWf(s1, {}, {});
      UnmapOwnRange(s1, p, v + 1, n - 1);
      var s' := UnmapRange(s, p, Some(p), v, n);
      CoreWf(s', {}, {});
      forall q: Pid, w: nat
        ensures M(s', q, w) == if InRange(q, w, p, v, n) then ZERO_CELL else M(s, q, w)
        ensures Present(s', q, w) == (!InRange(q, w, p, v, n) && Present(s, q, w))
      {
        assert InRange(q, w, p, v, n) == (InRange(q, w, p, v + 1, n - 1) || (q == p && w == v));
      }
    }
  }

  predicate NoFrames(s: State, p: Pid)
    requires Wf(s)
  {
    forall k :: 0 <= k < MAX_FRAMES && s.frames[k].used ==> s.frames[k].proc != Some(p)
  }

  /** Everything but p's mappings in the range stays as it was. */
  ghost predicate ForeignUnmapped(s: State, s': State, p: Pid, v: nat, n: nat)
    requires Wf(s) && Wf(s')
  {
    && SameSizes(s, s')
    && s'.frames == s.frames && s'.count == s.count && s'.hand == s.hand
    && s'.swapUsed == s.swapUsed && s'.swapMap == s.swapMap
    && (forall q: Pid, w: nat :: !InRange(q, w, p, v, n) ==>
          M(s', q, w) == M(s, q, w) && Present(s', q, w) == Present(s, q, w) && Mapped(s', q, w) == Mapped(s, q, w))
    && (forall w: nat :: v <= w < v + n ==> !Mapped(s', p, w))
  }

  lemma {:induction false} UnmapForeignRange(s: State, p: Pid, v: nat, n: nat)
    requires Core(s, {}, {}) && Live(s, p) && NoFrames(s, p)
    ensures var s' := UnmapRange(s, p, None, v, n);
            && Core(s', {}, {}) && Conserves(s, {}, s', {}) && ForeignUnmapped(s, s', p, v, n)
    decreases n
  {
    hide Core, Everything, M, Present, UnmapPage, Mapped;
    CoreWf(s, {}, {});
    if n > 0 {
      UnmapForeign(s, p, v);
      var s1 := UnmapPage(s, p, None, v);
      CoreWf(s1, {}, {});
      UnmapForeignRange(s1, p, v + 1, n - 1);
      var s' := UnmapRange(s, p, None, v, n);
      CoreWf(s', {}, {});
      forall q: Pid, w: nat | !InRange(q, w, p, v, n)
        ensures M(s', q, w) == M(s, q, w) && Present(s', q, w) == Present(s, q, w)
        ensures Mapped(s', q, w) == Mapped(s, q, w)
      {
        assert !InRange(q, w, p, v + 1, n - 1) && (q != p || w != v);
      }
      forall w: nat | v <= w < v + n
        ensures !Mapped(s', p, w)
      {
        if w == v { assert !InRange(p, w, p, v + 1, n - 1); }
      }
    }
  }

  // ----- growproc and lazy sbrk -----

  const TRAPFRAME: nat := 274877898752   // TRAPFRAME_VPN * PGSIZE

  function SetSize(s: State, p: Pid, sz: nat): State
    requires Wf(s)
  {
    s.(procs := s.procs[p := s.procs[p].(sz := sz)])
  }

  /** No page from v up to n is mapped; mapping one again is a panic in the source. */
  predicate Unmapped(procs: seq<Proc>, p: Pid, v: nat, n: nat)
    requires |procs| == NPROC
  {
    forall w :: w in LeafOf(procs, p) ==> !(v <= w < n)
  }

  /** uvmalloc from page v up to page n, having started at page `start`. */
  function GrowFrom(s: State, p: Pid, start: nat, v: nat, n: nat): (r: (State, bool))
    requires Wf(s) && Live(s, p) && start <= v && Unmapped(s.procs, p, v, n)
    ensures Wf(r.0) && Live(r.0, p)
    decreases n - v
  {
    if v >= n then (s, true)
    else
      var (s1, ok) := PlaceFresh(s, p, v, ZERO_PAGE, RWU);
      PlaceFreshOnly(s, p, v, ZERO_PAGE, RWU);
      if !ok then (UnmapRange(s1, p, Some(p), start, v - start), false) else GrowFrom(s1, p, start, v + 1, n)
  }

  lemma PlaceFreshOnly(s: State, p: Pid, v: nat, x: Page, perm: Perm)
    requires Wf(s) && Live(s, p) && !Mapped(s, p, v)
    ensures var (s', ok) := PlaceFresh(s, p, v, x, perm);
            && Wf(s') && (forall q: Pid :: Live(s', q) == Live(s, q))
            && LeafOf(s'.procs, p).Keys == LeafOf(s.procs, p).Keys + (if ok then {v} else {})
            && (forall q: Pid :: q != p ==> LeafOf(s'.procs, q) == LeafOf(s.procs, q))
            && s'.swapUsed == s.swapUsed && s'.swapMap == s.swapMap
            && (forall q: Pid :: s'.procs[q].sz == s.procs[q].sz)
  {
    hide Walk;
    if s.free != [] {
      var s1 := Pop(s, Fill(PGSIZE, 5));
      WalkOnly(s1.(mem := s1.mem[Top(s) := x]), p, v);
    }
  }

  /** growproc(n) for n > 0. */
  function Grow(s: State, p: Pid, n: nat): (State, bool)
    requires Wf(s) && Live(s, p)
    requires Unmapped(s.procs, p, PagesFor(s.procs[p].sz), PagesFor(s.procs[p].sz + n))
  {
    var sz := s.procs[p].sz;
    if sz + n > TRAPFRAME then (s, false)
    else
      var (s1, ok) := GrowFrom(s, p, PagesFor(sz), PagesFor(sz), PagesFor(sz + n));
      if !ok then (s1, false) else (SetSize(s1, p, sz + n), true)
  }

  /** growproc(-n); a shrink below zero wraps around in the source and changes nothing. */
  function Shrink(s: State, p: Pid, n: nat): State
    requires Wf(s) && Live(s, p)
  {
    var sz := s.procs[p].sz;
    if n > sz then s
    else
      var s1 := UnmapRange(s, p, Some(p), PagesFor(sz - n), PagesFor(sz) - PagesFor(sz - n));
      SetSize(s1, p, sz - n)
  }

  /** sbrk with lazy allocation. */
  function SbrkLazy(s: State, p: Pid, n: nat): (State, bool)
    requires Wf(s)
  {
    if s.procs[p].sz + n > TRAPFRAME then (s, false) else (SetSize(s, p, s.procs[p].sz + n), true)
  }

  /** Eager growth adds pages that read as zeroes, which is what they read as before; failing half way
      it takes the new pages back. */
  lemma {:induction false} GrowFromCorrect(s: State, p: Pid, start: nat, v: nat, n: nat)
    requires Core(s, {}, {}) && Live(s, p) && start <= v && n <= TRAPFRAME_VPN
    requires Unmapped(s.procs, p, v, n)
    requires forall w: nat :: v <= w < n ==> !Present(s, p, w)
    requires forall w: nat :: start <= w < v ==> M(s, p, w) == ZERO_CELL
    ensures var (s', ok) := GrowFrom(s, p, start, v, n);
            && Core(s', {}, {}) && Conserves(s, {}, s', {}) && SameSizes(s, s') && SameView(s, s')
            && (ok ==> forall q: Pid, w: nat :: Present(s', q, w) ==> Present(s, q, w) || (q == p && v <= w < n))
            && (!ok ==> forall q: Pid, w: nat :: Present(s', q, w) ==>
                          Present(s, q, w) && !InRange(q, w, p, start, v - start))
    decreases n - v
  {
    hide Core, Everything, M, Present, PlaceFresh;
    CoreWf(s, {}, {});
    if v < n {
      PlaceFreshCorrect(s, p, v, ZERO_PAGE, RWU);
      PlaceFreshOnly(s, p, v, ZERO_PAGE, RWU);
      AbsentIsZero(s, p, v);
      var (s1, ok) := PlaceFresh(s, p, v, ZERO_PAGE, RWU);
      CoreWf(s1, {}, {});
      assert forall q: Pid, w: nat :: M(s1, q, w) == M(s, q, w);
      if ok {
        GrowFromCorrect(s1, p, start, v + 1, n);
        var (s', ok') := GrowFrom(s1, p, start, v + 1, n);
        if !ok' {
          forall q: Pid, w: nat | Present(s', q, w)
            ensures Present(s, q, w) && !InRange(q, w, p, start, v - start)
          {
            assert !InRange(q, w, p, start, v + 1 - start);
          }
        }
      } else {
        UnmapOwnRange(s1, p, start, v - start);
        assert forall w: nat :: InRange(p, w, p, start, v - start) ==> M(s1, p, w) == ZERO_CELL;
      }
    }
  }

  lemma SetSizeCore(s: State, p: Pid, sz: nat)
    requires Core(s, {}, {}) && Live(s, p)
    ensures var s' := SetSize(s, p, sz);
            Core(s', {}, {}) && Conserves(s, {}, s', {}) && SameView(s, s') && SamePresent(s, s')
  {
    hide R.ReadPage;
    var s' := SetSize(s, p, sz);
    forall l
      ensures At(s'.free, s'.procs, l) == At(s.free, s.procs, l)
    {
    }
    assert forall q: Pid :: LeafOf(s'.procs, q) == LeafOf(s.procs, q);
  }

  lemma InvFrom(s: State, s': State, p: Pid)
    requires Inv(s) && Core(s', {}, {}) && Live(s, p) && Live(s', p)
    requires forall q: Pid :: q != p ==>
               s'.procs[q].sz == s.procs[q].sz && s'.procs[q].trapframe == s.procs[q].trapframe
               && s'.procs[q].pt.Some? == s.procs[q].pt.Some?
    requires PagesFor(s'.procs[p].sz) <= TRAPFRAME_VPN
    requires forall q: Pid, w: nat :: Present(s', q, w) ==>
               if q == p then w < PagesFor(s'.procs[p].sz) else Present(s, q, w)
    ensures Inv(s')
  {
    hide Core, Present, M;
    CoreWf(s, {}, {});
    CoreWf(s', {}, {});
    forall q: Pid
      ensures Sized(s', q)
    {
      assert Sized(s, q);
    }
  }

  /** growproc upwards changes nothing anyone can see, whether it succeeds or fails. */
  lemma GrowCorrect(s: State, p: Pid, n: nat)
    requires Inv(s) && Live(s, p)
    ensures Unmapped(s.procs, p, PagesFor(s.procs[p].sz), PagesFor(s.procs[p].sz + n))
    ensures var (s', ok) := Grow(s, p, n);
            && Inv(s') && Conserves(s, {}, s', {}) && SameView(s, s')
            && s'.procs[p].sz == s.procs[p].sz + (if ok then n else 0)
            && (forall q: Pid :: q != p ==> s'.procs[q].sz == s.procs[q].sz)
  {
    hide Core, Everything, M, GrowFrom;
    CoreWf(s, {}, {});
    assert Sized(s, p);
    var a, b := PagesFor(s.procs[p].sz), PagesFor(s.procs[p].sz + n);
    forall w: nat | w in LeafOf(s.procs, p)
      ensures w < a
    {
      assert Present(s, p, w);
    }
    if s.procs[p].sz + n <= TRAPFRAME {
      GrowFromCorrect(s, p, a, a, b);
      var (s1, ok) := GrowFrom(s, p, a, a, b);
      if ok { SetSizeCore(s1, p, s.procs[p].sz + n); }
      InvFrom(s, Grow(s, p, n).0, p);
    }
  }

  /** The pages of a process of size sz are those that begin below sz. */
  lemma PagesBelow(sz: nat, w: nat)
    ensures w < PagesFor(sz) <==> w * 4096 < sz
  {
  }

  lemma {:induction false} GrowFromMaps(s: State, p: Pid, start: nat, v: nat, n: nat, w: nat)
    requires Wf(s) && Live(s, p) && start <= v && Unmapped(s.procs, p, v, n) && GrowFrom(s, p, start, v, n).1
    ensures Mapped(GrowFrom(s, p, start, v, n).0, p, w) <==> Mapped(s, p, w) || v <= w < n
    decreases n - v
  {
    hide PlaceFresh, UnmapRange;
    if v < n {
      PlaceFreshOnly(s, p, v, ZERO_PAGE, RWU);
      GrowFromMaps(PlaceFresh(s, p, v, ZERO_PAGE, RWU).0, p, start, v + 1, n, w);
    }
  }

  /** Eager growth maps exactly the pages that begin in the new range. */
  lemma GrowMaps(s: State, p: Pid, n: nat, w: nat)
    requires Inv(s) && Live(s, p) && Wf(s)
    ensures Unmapped(s.procs, p, PagesFor(s.procs[p].sz), PagesFor(s.procs[p].sz + n))
    ensures var (s', ok) := Grow(s, p, n);
            |s'.procs| == NPROC
            && (ok ==> (Mapped(s', p, w) <==> Mapped(s, p, w) || s.procs[p].sz <= w * 4096 < s.procs[p].sz + n))
  {
    hide Core, GrowFrom;
    GrowCorrect(s, p, n);
    var a, b := PagesFor(s.procs[p].sz), PagesFor(s.procs[p].sz + n);
    PagesBelow(s.procs[p].sz, w);
    PagesBelow(s.procs[p].sz + n, w);
    if Grow(s, p, n).1 { GrowFromMaps(s, p, a, a, b, w); }
  }

  /** Lazy growth only moves the size. */
  lemma SbrkLazyCorrect(s: State, p: Pid, n: nat)
    requires Inv(s) && Live(s, p)
    ensures var (s', ok) := SbrkLazy(s, p, n);
            && Inv(s') && Conserves(s, {}, s', {}) && SameView(s, s')
            && (ok <==> s.procs[p].sz + n <= TRAPFRAME) && s'.procs[p].sz == s.procs[p].sz + (if ok then n else 0)
            && (forall q: Pid :: q != p ==> s'.procs[q].sz == s.procs[q].sz)
  {
    hide Core, Everything, M;
    CoreWf(s, {}, {});
    if s.procs[p].sz + n <= TRAPFRAME {
      SetSizeCore(s, p, s.procs[p].sz + n);
      assert Sized(s, p);
      InvFrom(s, SetSize(s, p, s.procs[p].sz + n), p);
    }
  }

  /** The view after the pages from a on are cut off. */
  lemma ShrinkView(s: State, s1: State, p: Pid, a: nat, b: nat, q: Pid, w: nat)
    requires Inv(s) && Wf(s1) && a <= b && b == PagesFor(s.procs[p].sz)
    requires M(s1, q, w) == if InRange(q, w, p, a, b - a) then ZERO_CELL else M(s, q, w)
    ensures M(s1, q, w) == if q == p && a <= w then ZERO_CELL else M(s, q, w)
  {
    hide Core, M;
    CoreWf(s, {}, {});
    assert InRange(q, w, p, a, b - a) == (q == p && a <= w < b);
    if q == p && b <= w {
      assert Sized(s, p);
      AbsentIsZero(s, p, w);
    }
  }

  /** Shrinking takes exactly the pages above the new size away from p. */
  lemma ShrinkCorrect(s: State, p: Pid, n: nat)
    requires Inv(s) && Live(s, p)
    ensures var s' := Shrink(s, p, n);
            && Inv(s') && Conserves(s, {}, s', {})
            && s'.procs[p].sz == s.procs[p].sz - (if n <= s.procs[p].sz then n else 0)
            && (forall q: Pid :: q != p ==> s'.procs[q].sz == s.procs[q].sz)
            && (forall q: Pid, w: nat :: M(s', q, w) ==
                  if q == p && n <= s.procs[p].sz && PagesFor(s.procs[p].sz - n) <= w then ZERO_CELL else M(s, q, w))
  {
    hide Core, Everything, M, Present, UnmapRange;
    CoreWf(s, {}, {});
    assert Sized(s, p);
    if n <= s.procs[p].sz {
      var a, b := PagesFor(s.procs[p].sz - n), PagesFor(s.procs[p].sz);
      UnmapOwnRange(s, p, a, b - a);
      var s1 := UnmapRange(s, p, Some(p), a, b - a);
      CoreWf(s1, {}, {});
      SetSizeCore(s1, p, s.procs[p].sz - n);
      var s' := Shrink(s, p, n);
      forall q: Pid, w: nat
        ensures M(s', q, w) == if q == p && a <= w then ZERO_CELL else M(s, q, w)
      {
        ShrinkView(s, s1, p, a, b, q, w);
      }
      InvFrom(s, s', p);
    }
  }

  // ----- tearing a process down -----

  /** The swap half of free_proc_swap_slots, from entry i on. */
  function ClearSwaps(s: State, p: Pid, i: nat): (r: State)
    requires Wf(s) && i <= MAX_SWAP_PAGES
    ensures Wf(r)
    decreases |s.swapMap| - i
  {
    if i == MAX_SWAP_PAGES then s
    else
      var mine := s.swapMap[i].used && s.swapMap[i].proc == Some(p);
      ClearSwaps(if mine then DropSwap(s, i, s.swapMap[i].slot) else s, p, i + 1)
  }

  /** The frame half, from frame i on. */
  function ClearFrames(s: State, p: Pid, i: nat): (r: State)
    requires Wf(s) && i <= MAX_FRAMES
    ensures Wf(r)
    decreases |s.frames| - i
  {
    if i == MAX_FRAMES then s
    else ClearFrames(if Tracked(s.frames[i]) && s.frames[i].proc == Some(p)
                     then s.(frames := s.frames[i := NO_FRAME], count := Dec(s.count)) else s, p, i + 1)
  }

  function FreeProcSwapSlots(s: State, p: Pid): State
    requires Wf(s)
  {
    ClearFrames(ClearSwaps(s, p, 0), p, 0)
  }

  lemma DropSwapOf(s: State, p: Pid, i: nat)
    requires Core(s, {}, {}) && i < MAX_SWAP_PAGES && s.swapMap[i].used && s.swapMap[i].proc == Some(p)
    ensures var s' := DropSwap(s, i, s.swapMap[i].slot);
            && Core(s', {}, {})
            && (forall q: Pid, w: nat :: q != p ==> M(s', q, w) == M(s, q, w) && Present(s', q, w) == Present(s, q, w))
  {
    hide Disjoint, R.ReadPage, FramesMapped, FramesUnique, TablesClosed, NumUsed;
    var s' := DropSwap(s, i, s.swapMap[i].slot);
    forall q: Pid, w: nat | q != p
      ensures M(s', q, w) == M(s, q, w) && Present(s', q, w) == Present(s, q, w)
    {
      FindSwapElsewhere(s.swapMap, i, NO_ENTRY, q, w);
    }
  }

  lemma {:induction false} ClearSwapsCore(s: State, p: Pid, i: nat)
    requires Core(s, {}, {}) && i <= MAX_SWAP_PAGES
    requires forall k :: 0 <= k < i && s.swapMap[k].used ==> s.swapMap[k].proc != Some(p)
    ensures var s' := ClearSwaps(s, p, i);
            && Core(s', {}, {}) && s' == s.(swapUsed := s'.swapUsed, swapMap := s'.swapMap)
            && (forall k :: 0 <= k < MAX_SWAP_PAGES ==>
                  s'.swapMap[k] == if s.swapMap[k].used && s.swapMap[k].proc == Some(p) then NO_ENTRY else s.swapMap[k])
            && (forall q: Pid, w: nat :: q != p ==> M(s', q, w) == M(s, q, w) && Present(s', q, w) == Present(s, q, w))
    decreases |s.swapMap| - i
  {
    hide Disjoint, M, Present, FramesMapped, FramesUnique, TablesClosed, NumUsed, SwapUnique, SwapExclusive;
    if i < MAX_SWAP_PAGES {
      if s.swapMap[i].used && s.swapMap[i].proc == Some(p) {
        DropSwapOf(s, p, i);
        ClearSwapsCore(DropSwap(s, i, s.swapMap[i].slot), p, i + 1);
      } else {
        ClearSwapsCore(s, p, i + 1);
      }
    }
  }

  lemma {:induction false} ClearFramesCore(s: State, p: Pid, i: nat)
    requires Core(s, {}, {}) && i <= MAX_FRAMES
    requires forall k :: 0 <= k < i && s.frames[k].used ==> s.frames[k].proc != Some(p)
    ensures var s' := ClearFrames(s, p, i);
            && Core(s', {}, {}) && s' == s.(frames := s'.frames, count := s'.count) && NoFrames(s', p)
            && (NoFrames(s, p) ==> s' == s)
    decreases |s.frames| - i
  {
    hide Disjoint, FramesUnique, FramesClean, TablesClosed, NumUsed, SwapUnique, SwapExclusive, SwapTables;
    if i < MAX_FRAMES {
      if Tracked(s.frames[i]) && s.frames[i].proc == Some(p) {
        DropFrame(s.frames, s.procs, {}, i);
        assert {} - {(p, s.frames[i].vpn)} == {};
        ClearFramesCore(s.(frames := s.frames[i := NO_FRAME], count := Dec(s.count)), p, i + 1);
      } else {
        ClearFramesCore(s, p, i + 1);
      }
    }
  }
}
