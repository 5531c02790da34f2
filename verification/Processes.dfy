/** Page tables and processes coming and going: freewalk, freeproc, allocproc. */
module Processes {
  import opened Options
  import opened Bytes
  import opened Frames
  import opened Paging
  import opened Eviction
  import opened Fault
  import opened AddressSpace
  import R = Raid

  // ----- freewalk -----

  /** The level-0 tables under level-1 index i, from entry j on, go to the free list. */
  function FreeLows(s: State, pt: PageTable, i: nat, j: nat): (r: State)
    requires |s.mem| == NPAGES && j <= 512
    ensures |r.mem| == NPAGES && r == s.(free := r.free, mem := r.mem)
    decreases |s.mem| - j
  {
    if j == 512 then s
    else FreeLows(if i * 512 + j in pt.lows then Push(s, pt.lows[i * 512 + j]) else s, pt, i, j + 1)
  }

  /** The subtrees from root entry i on. */
  function FreeMids(s: State, pt: PageTable, i: nat): (r: State)
    requires |s.mem| == NPAGES && i <= 512
    ensures |r.mem| == NPAGES && r == s.(free := r.free, mem := r.mem)
    decreases |s.mem| - i
  {
    if i == 512 then s
    else FreeMids(if i in pt.mids then Push(FreeLows(s, pt, i, 0), pt.mids[i]) else s, pt, i + 1)
  }

  function FreeWalk(s: State, pt: PageTable): (r: State)
    requires |s.mem| == NPAGES
    ensures |r.mem| == NPAGES && r == s.(free := r.free, mem := r.mem)
  {
    Push(FreeMids(s, pt, 0), pt.root)
  }

  /** The table pages freewalk has not reached yet. */
  ghost function Remaining(pt: PageTable, i: nat, j: nat): set<Pa> {
    {pt.root} + (set k | k in pt.mids && k >= i :: pt.mids[k])
    + (set k | k in pt.lows && k >= i * 512 + j :: pt.lows[k])
  }

  /** The table pages of one page table are distinct pages. */
  ghost predicate DistinctTables(pt: PageTable) {
    && (forall k :: k in pt.mids ==> pt.mids[k] != pt.root)
    && (forall k :: k in pt.lows ==> pt.lows[k] != pt.root)
    && (forall k, l :: k in pt.mids && l in pt.lows ==> pt.mids[k] != pt.lows[l])
    && (forall k, l :: k in pt.mids && l in pt.mids && pt.mids[k] == pt.mids[l] ==> k == l)
    && (forall k, l :: k in pt.lows && l in pt.lows && pt.lows[k] == pt.lows[l] ==> k == l)
  }

  lemma RemainingLow(pt: PageTable, i: nat, j: nat)
    requires DistinctTables(pt)
    ensures if i * 512 + j in pt.lows
            then
              && Remaining(pt, i, j + 1) == Remaining(pt, i, j) - {pt.lows[i * 512 + j]}
              && pt.lows[i * 512 + j] in Remaining(pt, i, j)
            else Remaining(pt, i, j + 1) == Remaining(pt, i, j)
  {
    var n := i * 512 + j;
    var a := set k | k in pt.lows && k >= n :: pt.lows[k];
    var b := set k | k in pt.lows && k >= n + 1 :: pt.lows[k];
    if n in pt.lows {
      assert a == b + {pt.lows[n]};
    } else {
      assert a == b;
    }
  }

  lemma RemainingMid(pt: PageTable, i: nat)
    requires DistinctTables(pt) && TableClosed(pt)
    ensures i in pt.mids ==>
            && Remaining(pt, i + 1, 0) == Remaining(pt, i, 512) - {pt.mids[i]}
            && pt.mids[i] in Remaining(pt, i, 512)
    ensures i !in pt.mids ==> Remaining(pt, i + 1, 0) == Remaining(pt, i, 0)
  {
    if i in pt.mids { RemainingMidThere(pt, i); } else { RemainingMidAbsent(pt, i); }
  }

  lemma RemainingMidThere(pt: PageTable, i: nat)
    requires DistinctTables(pt) && i in pt.mids
    ensures Remaining(pt, i + 1, 0) == Remaining(pt, i, 512) - {pt.mids[i]} && pt.mids[i] in Remaining(pt, i, 512)
  {
    var a := set k | k in pt.mids && k >= i :: pt.mids[k];
    var b := set k | k in pt.mids && k >= i + 1 :: pt.mids[k];
    assert a == b + {pt.mids[i]};
    assert i * 512 + 512 == (i + 1) * 512 + 0;
  }

  lemma RemainingMidAbsent(pt: PageTable, i: nat)
    requires TableClosed(pt) && i !in pt.mids
    ensures Remaining(pt, i + 1, 0) == Remaining(pt, i, 0)
  {
    var lo := set k | k in pt.lows && k >= i * 512 + 0 :: pt.lows[k];
    var hi := set k | k in pt.lows && k >= (i + 1) * 512 + 0 :: pt.lows[k];
    var a := set k | k in pt.mids && k >= i :: pt.mids[k];
    var b := set k | k in pt.mids && k >= i + 1 :: pt.mids[k];
    assert a == b;
    assert forall k :: k in pt.lows && k >= i * 512 ==> k >= (i + 1) * 512;
    assert lo == hi;
  }

  lemma {:induction false} FreeLowsCore(s: State, pt: PageTable, i: nat, j: nat)
    requires Core(s, Remaining(pt, i, j), {}) && DistinctTables(pt) && j <= 512
    ensures var s' := FreeLows(s, pt, i, j);
            && Core(s', Remaining(pt, i, 512), {}) && SameView(s, s') && SamePresent(s, s')
            && Conserves(s, Remaining(pt, i, j), s', Remaining(pt, i, 512))
    decreases |s.mem| - j
  {
    hide Core, Everything, M, Present, Remaining;
    CoreWf(s, Remaining(pt, i, j), {});
    if j < 512 {
      RemainingLow(pt, i, j);
      var s1 := if i * 512 + j in pt.lows then Push(s, pt.lows[i * 512 + j]) else s;
      if i * 512 + j in pt.lows {
        PushHeld(s, Remaining(pt, i, j), {}, pt.lows[i * 512 + j]);
      }
      CoreWf(s1, Remaining(pt, i, j + 1), {});
      FreeLowsCore(s1, pt, i, j + 1);
    }
  }

  lemma {:induction false} FreeMidsCore(s: State, pt: PageTable, i: nat)
    requires Core(s, Remaining(pt, i, 0), {}) && DistinctTables(pt) && TableClosed(pt) && i <= 512
    ensures var s' := FreeMids(s, pt, i);
            && Core(s', Remaining(pt, 512, 0), {}) && SameView(s, s') && SamePresent(s, s')
            && Conserves(s, Remaining(pt, i, 0), s', Remaining(pt, 512, 0))
    decreases |s.mem| - i
  {
    hide Core, Everything, M, Present, Remaining;
    CoreWf(s, Remaining(pt, i, 0), {});
    if i < 512 {
      RemainingMid(pt, i);
      if i in pt.mids {
        FreeLowsCore(s, pt, i, 0);
        var s1 := FreeLows(s, pt, i, 0);
        CoreWf(s1, Remaining(pt, i, 512), {});
        PushHeld(s1, Remaining(pt, i, 512), {}, pt.mids[i]);
        var s2 := Push(s1, pt.mids[i]);
        CoreWf(s2, Remaining(pt, i + 1, 0), {});
        FreeMidsCore(s2, pt, i + 1);
      } else {
        FreeMidsCore(s, pt, i + 1);
      }
    }
  }

  /** freewalk on a table without leaves returns every table page, each exactly once. */
  lemma FreeWalkCore(s: State, pt: PageTable)
    requires Core(s, Remaining(pt, 0, 0), {}) && DistinctTables(pt) && TableClosed(pt)
    ensures var s' := FreeWalk(s, pt);
            && Core(s', {}, {}) && SameView(s, s') && SamePresent(s, s')
            && Conserves(s, Remaining(pt, 0, 0), s', {})
  {
    hide Core, Everything, M, Present;
    CoreWf(s, Remaining(pt, 0, 0), {});
    FreeMidsCore(s, pt, 0);
    var s1 := FreeMids(s, pt, 0);
    CoreWf(s1, Remaining(pt, 512, 0), {});
    assert Remaining(pt, 512, 0) == {pt.root};
    PushHeld(s1, {pt.root}, {}, pt.root);
    assert {pt.root} - {pt.root} == {};
  }

  lemma {:induction false} FreeLowsProcs(s: State, pt: PageTable, i: nat, j: nat, procs: seq<Proc>)
    requires |s.mem| == NPAGES && j <= 512
    ensures FreeLows(s.(procs := procs), pt, i, j) == FreeLows(s, pt, i, j).(procs := procs)
    decreases |s.mem| - j
  {
    if j < 512 {
      FreeLowsProcs(if i * 512 + j in pt.lows then Push(s, pt.lows[i * 512 + j]) else s, pt, i, j + 1, procs);
    }
  }

  lemma {:induction false} FreeMidsProcs(s: State, pt: PageTable, i: nat, procs: seq<Proc>)
    requires |s.mem| == NPAGES && i <= 512
    ensures FreeMids(s.(procs := procs), pt, i) == FreeMids(s, pt, i).(procs := procs)
    decreases |s.mem| - i
  {
    if i < 512 {
      FreeLowsProcs(s, pt, i, 0, procs);
      FreeMidsProcs(if i in pt.mids then Push(FreeLows(s, pt, i, 0), pt.mids[i]) else s, pt, i + 1, procs);
    }
  }

  // ----- freeproc -----

  const NO_PROC: Proc := Proc(0, None, None, 0)

  function FreeTrapframe(s: State, p: Pid): State
    requires Wf(s)
  {
    var tf := s.procs[p].trapframe;
    if tf.None? then s else Push(s, tf.value).(procs := s.procs[p := s.procs[p].(trapframe := None)])
  }

  /** The last step: the page table goes, then the fields of the process are reset. */
  function Discard(s: State, p: Pid): State
    requires Wf(s) && Live(s, p)
  {
    FreeWalk(s, s.procs[p].pt.value).(procs := s.procs[p := NO_PROC.(level := s.procs[p].level)])
  }

  lemma {:induction false} ClearSwapsProcs(s: State, p: Pid, i: nat)
    requires Wf(s) && i <= MAX_SWAP_PAGES
    ensures ClearSwaps(s, p, i).procs == s.procs
    decreases |s.swapMap| - i
  {
    if i < MAX_SWAP_PAGES {
      var mine := s.swapMap[i].used && s.swapMap[i].proc == Some(p);
      ClearSwapsProcs(if mine then DropSwap(s, i, s.swapMap[i].slot) else s, p, i + 1);
    }
  }

  lemma {:induction false} ClearFramesProcs(s: State, p: Pid, i: nat)
    requires Wf(s) && i <= MAX_FRAMES
    ensures ClearFrames(s, p, i).procs == s.procs
    decreases |s.frames| - i
  {
    if i < MAX_FRAMES {
      ClearFramesProcs(if Tracked(s.frames[i]) && s.frames[i].proc == Some(p)
                       then s.(frames := s.frames[i := NO_FRAME], count := Dec(s.count)) else s, p, i + 1);
    }
  }

  /** Trapframe, swap slots and frame entries first. */
  function Strip(s: State, p: Pid): (r: State)
    requires Wf(s) && Live(s, p)
    ensures Wf(r) && Live(r, p)
  {
    ClearSwapsProcs(FreeTrapframe(s, p), p, 0);
    ClearFramesProcs(ClearSwaps(FreeTrapframe(s, p), p, 0), p, 0);
    FreeProcSwapSlots(FreeTrapframe(s, p), p)
  }

  /** Then the n user pages and the page table. */
  function Reap(s: State, p: Pid, n: nat): State
    requires Wf(s) && Live(s, p)
  {
    Discard(UnmapRange(s, p, None, 0, n), p)
  }

  /** freeproc of a process that is not the running one. */
  function FreeProc(s: State, p: Pid): State
    requires Wf(s) && Live(s, p)
  {
    Reap(Strip(s, p), p, PagesFor(s.procs[p].sz))
  }

  lemma FreeTrapframeCore(s: State, p: Pid)
    requires Core(s, {}, {})
    ensures var s' := FreeTrapframe(s, p);
            && Core(s', {}, {}) && Conserves(s, {}, s', {}) && SameView(s, s') && SamePresent(s, s')
            && s'.procs[p].trapframe.None? && TablesKept(s, s')
  {
    hide R.ReadPage;
    var tf := s.procs[p].trapframe;
    if tf.Some? {
      var s1 := s.(procs := s.procs[p := s.procs[p].(trapframe := None)]);
      forall l | l != TrapLoc(p)
        ensures At(s1.free, s1.procs, l) == At(s.free, s.procs, l)
      {
      }
      TakeHeld(s.free, s.procs, {}, s1.free, s1.procs, TrapLoc(p));
      assert {} + {tf.value} == {tf.value} && {tf.value} - {tf.value} == {};
      assert forall q: Pid :: LeafOf(s1.procs, q) == LeafOf(s.procs, q);
      assert SameView(s, s1) && SamePresent(s, s1);
      PushHeld(s1, {tf.value}, {}, tf.value);
    }
  }

  lemma DistinctFromDisjoint(s: State, p: Pid)
    requires Wf(s) && Live(s, p) && Disjoint(s.free, s.procs, {})
    ensures DistinctTables(s.procs[p].pt.value)
  {
    var pt := s.procs[p].pt.value;
    assert At(s.free, s.procs, RootLoc(p)) == Some(pt.root);
    assert forall k: nat :: k in pt.mids ==> At(s.free, s.procs, MidLoc(p, k)) == Some(pt.mids[k]);
    assert forall k: nat :: k in pt.lows ==> At(s.free, s.procs, LowLoc(p, k)) == Some(pt.lows[k]);
  }

  /** Cutting an empty page table loose leaves its table pages in hand. */
  lemma DetachCore(s: State, p: Pid)
    requires Core(s, {}, {}) && Live(s, p)
    requires LeafOf(s.procs, p) == map[] && NoFrames(s, p)
    requires forall k :: 0 <= k < MAX_SWAP_PAGES && s.swapMap[k].used ==> s.swapMap[k].proc != Some(p)
    ensures var pt := s.procs[p].pt.value;
            var s' := s.(procs := s.procs[p := s.procs[p].(pt := None, sz := 0)]);
            && Core(s', Remaining(pt, 0, 0), {}) && Conserves(s, {}, s', Remaining(pt, 0, 0))
            && SameView(s, s') && SamePresent(s, s')
  {
    hide R.ReadPage;
    var pt := s.procs[p].pt.value;
    var s' := s.(procs := s.procs[p := s.procs[p].(pt := None, sz := 0)]);
    var held := Remaining(pt, 0, 0);
    assert forall q: Pid :: LeafOf(s'.procs, q) == LeafOf(s.procs, q);
    assert SameView(s, s') && SamePresent(s, s');
    DetachOwners(s, p, s'.procs);
  }

  lemma DetachOwners(s: State, p: Pid, procs': seq<Proc>)
    requires Wf(s) && Disjoint(s.free, s.procs, {}) && Live(s, p)
    requires LeafOf(s.procs, p) == map[] && procs' == s.procs[p := s.procs[p].(pt := None, sz := 0)]
    ensures var held := Remaining(s.procs[p].pt.value, 0, 0);
            Disjoint(s.free, procs', held) && Everything(s.free, procs', held) == Everything(s.free, s.procs, {})
  {
    var pt := s.procs[p].pt.value;
    var held := Remaining(pt, 0, 0);
    forall l | At(s.free, procs', l).Some?
      ensures At(s.free, s.procs, l) == At(s.free, procs', l) && At(s.free, procs', l).value !in held
    {
      assert At(s.free, s.procs, l) == At(s.free, procs', l);
      assert l != RootLoc(p) && (l.MidLoc? ==> l.p != p) && (l.LowLoc? ==> l.p != p);
      assert At(s.free, s.procs, RootLoc(p)) == Some(pt.root);
      assert forall k: nat :: k in pt.mids ==> At(s.free, s.procs, MidLoc(p, k)) == Some(pt.mids[k]);
      assert forall k: nat :: k in pt.lows ==> At(s.free, s.procs, LowLoc(p, k)) == Some(pt.lows[k]);
    }
    DetachEverything(s, p, procs');
  }

  lemma DetachEverything(s: State, p: Pid, procs': seq<Proc>)
    requires Wf(s) && Live(s, p)
    requires LeafOf(s.procs, p) == map[] && procs' == s.procs[p := s.procs[p].(pt := None, sz := 0)]
    ensures Everything(s.free, procs', Remaining(s.procs[p].pt.value, 0, 0)) == Everything(s.free, s.procs, {})
  {
    var pt := s.procs[p].pt.value;
    var held := Remaining(pt, 0, 0);
    forall a: nat | a < NPAGES
      ensures a in Everything(s.free, procs', held) <==> a in Everything(s.free, s.procs, {})
    {
      if a in held {
        if a == pt.root {
          assert At(s.free, s.procs, RootLoc(p)) == Some(a);
        } else if k :| k in pt.mids && pt.mids[k] == a {
          assert At(s.free, s.procs, MidLoc(p, k)) == Some(a);
        } else {
          var k :| k in pt.lows && pt.lows[k] == a;
          assert At(s.free, s.procs, LowLoc(p, k)) == Some(a);
        }
      }
      forall l | At(s.free, s.procs, l) == Some(a)
        ensures At(s.free, procs', l) == Some(a) || a in held
      {
      }
      forall l | At(s.free, procs', l) == Some(a)
        ensures At(s.free, s.procs, l) == Some(a)
      {
      }
    }
  }

  lemma DiscardCore(s: State, p: Pid)
    requires Core(s, {}, {}) && Live(s, p) && s.procs[p].trapframe.None?
    requires LeafOf(s.procs, p) == map[] && NoFrames(s, p)
    requires forall k :: 0 <= k < MAX_SWAP_PAGES && s.swapMap[k].used ==> s.swapMap[k].proc != Some(p)
    ensures var s' := Discard(s, p);
            && Core(s', {}, {}) && Conserves(s, {}, s', {}) && SameView(s, s') && SamePresent(s, s')
            && s'.procs == s.procs[p := NO_PROC.(level := s.procs[p].level)] && TablesKept(s, s')
  {
    hide Everything, M, Present, Remaining, FreeWalk, Disjoint, DistinctTables;
    var pt := s.procs[p].pt.value;
    var procs' := s.procs[p := NO_PROC.(level := s.procs[p].level)];
    assert procs' == s.procs[p := s.procs[p].(pt := None, sz := 0)];
    DetachCore(s, p);
    DistinctFromDisjoint(s, p);
    FreeWalkCore(s.(procs := procs'), pt);
    FreeWalkProcs(s, pt, procs');
  }

  lemma FreeWalkProcs(s: State, pt: PageTable, procs: seq<Proc>)
    requires |s.mem| == NPAGES
    ensures FreeWalk(s.(procs := procs), pt) == FreeWalk(s, pt).(procs := procs)
  {
    FreeMidsProcs(s, pt, 0, procs);
  }

  /** The swap tables without the entries of p. */
  ghost predicate SwapWithout(s: State, s': State, p: Pid)
    requires Wf(s) && Wf(s')
  {
    forall k :: 0 <= k < MAX_SWAP_PAGES ==>
      s'.swapMap[k] == if s.swapMap[k].used && s.swapMap[k].proc == Some(p) then NO_ENTRY else s.swapMap[k]
  }

  lemma StripCore(s: State, p: Pid)
    requires Core(s, {}, {}) && Live(s, p)
    ensures var s' := Strip(s, p);
            && Core(s', {}, {}) && Conserves(s, {}, s', {}) && NoFrames(s', p) && SwapWithout(s, s', p)
            && s'.procs == s.procs[p := s.procs[p].(trapframe := None)]
            && (NoFrames(s, p) ==> s'.frames == s.frames && s'.count == s.count)
            && s'.hand == s.hand && s'.conf == s.conf && s'.disk == s.disk
            && (forall q: Pid, w: nat :: q != p ==> M(s', q, w) == M(s, q, w) && Present(s', q, w) == Present(s, q, w))
  {
    hide Core, Everything, M, Present, ClearSwaps, ClearFrames;
    CoreWf(s, {}, {});
    FreeTrapframeCore(s, p);
    var s1 := FreeTrapframe(s, p);
    CoreWf(s1, {}, {});
    ClearSwapsCore(s1, p, 0);
    var s2 := ClearSwaps(s1, p, 0);
    CoreWf(s2, {}, {});
    ClearFramesCore(s2, p, 0);
    FramesUnseen(s2, ClearFrames(s2, p, 0));
  }

  /** freeproc under the invariant: p's pages, slots, frames, trapframe and tables all return to their
      pools; p's address space is empty and nobody else sees a change. */
  lemma FreeProcCorrect(s: State, p: Pid)
    requires Core(s, {}, {}) && Live(s, p)
    requires forall v :: v in LeafOf(s.procs, p) ==> v < PagesFor(s.procs[p].sz)
    ensures var s' := FreeProc(s, p);
            && Core(s', {}, {}) && Conserves(s, {}, s', {}) && SwapWithout(s, s', p)
            && (NoFrames(s, p) ==> s'.frames == s.frames && s'.count == s.count && s'.hand == s.hand)
            && s'.procs[p] == NO_PROC.(level := s.procs[p].level)
            && (forall q: Pid :: q != p ==> s'.procs[q] == s.procs[q])
            && (forall q: Pid, w: nat :: q != p ==> M(s', q, w) == M(s, q, w) && Present(s', q, w) == Present(s, q, w))
            && (forall w: nat :: M(s', p, w) == ZERO_CELL && !Present(s', p, w))
  {
    hide Everything, M, Present, Disjoint, FramesMapped, FramesUnique, TablesClosed, NumUsed, SwapUnique, Strip,
         UnmapRange;
    StripCore(s, p);
    var s1 := Strip(s, p);
    var n := PagesFor(s.procs[p].sz);
    assert LeafOf(s1.procs, p) == LeafOf(s.procs, p);
    UnmapForeignRange(s1, p, 0, n);
    var s2 := UnmapRange(s1, p, None, 0, n);
    UnmapRangeOthers(s1, p, 0, n);
    assert LeafOf(s2.procs, p) == map[] by {
      forall v: nat | v in LeafOf(s2.procs, p)
        ensures false
      {
        UnmappedAll(s1, s2, p, n, v);
      }
      assert LeafOf(s2.procs, p).Keys == {};
    }
    DiscardCore(s2, p);
    var s' := Discard(s2, p);
    forall w: nat
      ensures M(s', p, w) == ZERO_CELL && !Present(s', p, w)
    {
      NobodyHome(s', p, w);
    }
  }

  lemma UnmappedAll(s1: State, s2: State, p: Pid, n: nat, v: nat)
    requires Wf(s1) && Wf(s2) && ForeignUnmapped(s1, s2, p, 0, n)
    requires forall w :: w in LeafOf(s1.procs, p) ==> w < n
    ensures v !in LeafOf(s2.procs, p)
  {
    hide M, Present;
    if v < n {
      assert !Mapped(s2, p, v);
    } else {
      assert !InRange(p, v, p, 0, n);
      assert Mapped(s2, p, v) == Mapped(s1, p, v);
    }
  }

  lemma NobodyHome(s: State, p: Pid, w: nat)
    requires Wf(s) && s.procs[p].pt.None? && SwapTables(s.swapUsed, s.swapMap) && SwapExclusive(s.swapMap, s.procs)
    ensures M(s, p, w) == ZERO_CELL && !Present(s, p, w)
  {
  }

  lemma {:induction false} UnmapRangeOthers(s: State, p: Pid, v: nat, n: nat)
    requires Wf(s) && Live(s, p)
    ensures var s' := UnmapRange(s, p, None, v, n);
            && (forall q: Pid :: q != p ==> s'.procs[q] == s.procs[q])
            && s'.procs[p].trapframe == s.procs[p].trapframe && s'.procs[p].level == s.procs[p].level
    decreases n
  {
    if n > 0 { UnmapRangeOthers(UnmapPage(s, p, None, v), p, v + 1, n - 1); }
  }

  // ----- allocproc -----

  /** allocproc on the unused process c: a trapframe, a root table, and the table pages that map the
      trampoline and the trapframe at the top of the address space. Failing, it gives all of it back. */
  function AllocProc(s: State, c: Pid): (State, bool)
    requires Wf(s) && s.procs[c].pt.None?
  {
    if s.free == [] then (s, false)
    else
      var tf := Top(s);
      var s1 := Pop(s, Fill(PGSIZE, 5));
      var s2 := s1.(procs := s1.procs[c := s1.procs[c].(trapframe := Some(tf))]);
      if s2.free == [] then (FreeTrapframe(s2, c), false)
      else
        WithTop(WithRoot(s2, c), c)
  }

  /** The tables that trampoline and trapframe need, or nothing. */
  function WithTop(s: State, c: Pid): (State, bool)
    requires Wf(s) && Live(s, c)
  {
    var (s5, ok) := Walk(s, c, MAX_VPN - 1);
    WalkOnly(s, c, MAX_VPN - 1);
    if !ok then (GiveUp(s5, c), false)
    else
      var (s6, ok6) := Walk(s5, c, TRAPFRAME_VPN);
      WalkOnly(s5, c, TRAPFRAME_VPN);
      if !ok6 then (GiveUp(s6, c), false)
      else (s6.(procs := s6.procs[c := s6.procs[c].(level := 0)]), true)
  }

  /** uvmcreate: a zeroed root page. */
  function WithRoot(s: State, c: Pid): State
    requires Wf(s) && s.free != []
  {
    var s1 := Pop(s, Fill(PGSIZE, 5));
    s1.(mem := s1.mem[Top(s) := ZERO_PAGE],
        procs := s1.procs[c := s1.procs[c].(pt := Some(PageTable(Top(s), map[], map[], map[])))])
  }

  /** The failure path: uvmfree on the new table, then freeproc, which only has the trapframe to free. */
  function GiveUp(s: State, c: Pid): State
    requires Wf(s) && Live(s, c)
  {
    var s1 := FreeWalk(s, s.procs[c].pt.value);
    FreeTrapframe(s1.(procs := s1.procs[c := s1.procs[c].(pt := None, sz := 0)]), c)
  }

  lemma GiveUpCore(s: State, c: Pid)
    requires Core(s, {}, {}) && Live(s, c) && LeafOf(s.procs, c) == map[] && NoFrames(s, c)
    requires forall k :: 0 <= k < MAX_SWAP_PAGES && s.swapMap[k].used ==> s.swapMap[k].proc != Some(c)
    ensures var s' := GiveUp(s, c);
            && Core(s', {}, {}) && Conserves(s, {}, s', {})
            && SameView(s, s') && SamePresent(s, s') && TablesKept(s, s')
            && s'.procs == s.procs[c := s.procs[c].(pt := None, sz := 0, trapframe := None)]
  {
    hide Everything, M, Present, Remaining, FreeWalk, Disjoint, DistinctTables;
    var pt := s.procs[c].pt.value;
    var procs' := s.procs[c := s.procs[c].(pt := None, sz := 0)];
    DetachCore(s, c);
    DistinctFromDisjoint(s, c);
    FreeWalkCore(s.(procs := procs'), pt);
    FreeWalkProcs(s, pt, procs');
    var s1 := FreeWalk(s, pt).(procs := procs');
    FreeTrapframeCore(s1, c);
    assert FreeTrapframe(s1, c) == GiveUp(s, c);
  }

  /** The first two pages of a new process find their places. */
  lemma TrapframeCore(s: State, c: Pid)
    requires Core(s, {}, {}) && s.free != [] && s.procs[c].trapframe.None?
    ensures var s1 := Pop(s, Fill(PGSIZE, 5));
            var s' := s1.(procs := s1.procs[c := s1.procs[c].(trapframe := Some(Top(s)))]);
            && Core(s', {}, {}) && Conserves(s, {}, s', {})
            && SameView(s, s') && SamePresent(s, s') && TablesKept(s, s')
  {
    hide M, R.ReadPage, Disjoint, Everything;
    PopHeld(s, {}, Fill(PGSIZE, 5));
    var s1 := Pop(s, Fill(PGSIZE, 5));
    assert s1.mem == s1.mem[Top(s) := Fill(PGSIZE, 5)];
    var s' := s1.(procs := s1.procs[c := s1.procs[c].(trapframe := Some(Top(s)))]);
    assert OthersStay(s1.free, s1.procs, s1.free, s'.procs, TrapLoc(c));
    PlaceHeld(s1.free, s1.procs, {Top(s)}, s1.free, s'.procs, TrapLoc(c), Top(s));
    assert {Top(s)} - {Top(s)} == {};
    assert forall q: Pid :: LeafOf(s'.procs, q) == LeafOf(s.procs, q);
    LeavesUnseen(s1, s');
  }

  /** Two states that agree on leaves, memory, swap map and disk look alike. */
  lemma LeavesUnseen(s: State, s': State)
    requires Wf(s) && Wf(s') && s'.mem == s.mem && s'.swapMap == s.swapMap && s'.conf == s.conf && s'.disk == s.disk
    requires forall q: Pid :: LeafOf(s'.procs, q) == LeafOf(s.procs, q)
    ensures SameView(s, s') && SamePresent(s, s')
  {
    hide R.ReadPage;
  }

  lemma WithRootCore(s: State, c: Pid)
    requires Core(s, {}, {}) && s.free != [] && s.procs[c].pt.None?
    requires NoFrames(s, c) && forall k :: 0 <= k < MAX_SWAP_PAGES && s.swapMap[k].used ==> s.swapMap[k].proc != Some(c)
    ensures var s' := WithRoot(s, c);
            && Core(s', {}, {}) && Conserves(s, {}, s', {})
            && SameView(s, s') && SamePresent(s, s') && TablesKept(s, s')
  {
    hide M, R.ReadPage, Disjoint, Everything;
    PopHeld(s, {}, ZERO_PAGE);
    var s1 := Pop(s, Fill(PGSIZE, 5)).(mem := Pop(s, Fill(PGSIZE, 5)).mem[Top(s) := ZERO_PAGE]);
    var s' := WithRoot(s, c);
    assert OthersStay(s1.free, s1.procs, s1.free, s'.procs, RootLoc(c));
    PlaceHeld(s1.free, s1.procs, {Top(s)}, s1.free, s'.procs, RootLoc(c), Top(s));
    assert {Top(s)} - {Top(s)} == {};
    assert forall q: Pid :: LeafOf(s'.procs, q) == LeafOf(s.procs, q);
    LeavesUnseen(s1, s');
  }

  /** Nothing in the tables belongs to c. */
  predicate Stranger(s: State, c: Pid)
    requires Wf(s)
  {
    NoFrames(s, c) && forall k :: 0 <= k < MAX_SWAP_PAGES && s.swapMap[k].used ==> s.swapMap[k].proc != Some(c)
  }

  /** The new process is there with an empty address space, or everything is as it was. */
  ghost predicate AllocatedProc(s: State, c: Pid, s': State, ok: bool)
    requires Wf(s)
  {
    && Core(s', {}, {}) && Conserves(s, {}, s', {}) && SameView(s, s') && SamePresent(s, s') && TablesKept(s, s')
    && (forall q: Pid :: q != c ==> s'.procs[q] == s.procs[q])
    && s'.procs[c].sz == 0 && LeafOf(s'.procs, c) == map[] && s'.procs[c].pt.Some? == ok
    && (ok ==> s'.procs[c].trapframe.Some? && s'.procs[c].level == 0)
    && (!ok ==> s'.procs[c] == s.procs[c])
  }

  lemma AllocProcCorrect(s: State, c: Pid)
    requires Core(s, {}, {}) && s.procs[c].pt.None? && s.procs[c].trapframe.None?
    requires s.procs[c].sz == 0 && Stranger(s, c)
    ensures var (s', ok) := AllocProc(s, c); AllocatedProc(s, c, s', ok)
  {
    hide M, Present, Everything, Disjoint, FramesMapped, FramesUnique, TablesClosed, NumUsed, SwapUnique,
         SwapExclusive, SwapTables, FramesClean, Walk, FreeWalk;
    if s.free != [] {
      var s1 := Pop(s, Fill(PGSIZE, 5));
      TrapframeCore(s, c);
      var s2 := s1.(procs := s1.procs[c := s1.procs[c].(trapframe := Some(Top(s)))]);
      if s2.free == [] {
        FreeTrapframeCore(s2, c);
      } else {
        WithRootCore(s2, c);
        AllocTables(s, s2, c);
      }
    }
  }

  lemma AllocTables(s: State, s2: State, c: Pid)
    requires Core(s, {}, {}) && s.procs[c].pt.None? && s.procs[c].trapframe.None?
    requires s.procs[c].sz == 0 && Stranger(s, c)
    requires Core(s2, {}, {}) && s2.free != [] && SameView(s, s2)
    requires SamePresent(s, s2) && TablesKept(s, s2) && Conserves(s, {}, s2, {})
    requires forall q: Pid :: q != c ==> s2.procs[q] == s.procs[q]
    requires s2.procs[c] == s.procs[c].(trapframe := s2.procs[c].trapframe) && s2.procs[c].trapframe.Some?
    requires Core(WithRoot(s2, c), {}, {}) && Conserves(s2, {}, WithRoot(s2, c), {}) && SameView(s2, WithRoot(s2, c))
    requires SamePresent(s2, WithRoot(s2, c)) && TablesKept(s2, WithRoot(s2, c))
    ensures var s4 := WithRoot(s2, c);
            var (s5, ok5) := Walk(s4, c, MAX_VPN - 1);
            && Wf(s5) && Live(s5, c)
            && (!ok5 ==> AllocatedProc(s, c, GiveUp(s5, c), false))
            && (ok5 ==> var (s6, ok6) := Walk(s5, c, TRAPFRAME_VPN);
                        Wf(s6) && Live(s6, c)
                        && if ok6 then AllocatedProc(s, c, s6.(procs := s6.procs[c := s6.procs[c].(level := 0)]), true)
                           else AllocatedProc(s, c, GiveUp(s6, c), false))
  {
    hide M, Present, Everything, Disjoint, FramesMapped, FramesUnique, TablesClosed, NumUsed, SwapUnique,
         SwapExclusive, SwapTables, FramesClean, Walk, FreeWalk, GiveUp, KeepsPages;
    var s4 := WithRoot(s2, c);
    WalkCore(s4, {}, {}, c, MAX_VPN - 1);
    var (s5, ok5) := Walk(s4, c, MAX_VPN - 1);
    GrewView(s4, s5, {});
    WalkOthers(s4, c, MAX_VPN - 1);
    if !ok5 {
      GiveUpCore(s5, c);
    } else {
      WalkCore(s5, {}, {}, c, TRAPFRAME_VPN);
      var (s6, ok6) := Walk(s5, c, TRAPFRAME_VPN);
      GrewView(s5, s6, {});
      WalkOthers(s5, c, TRAPFRAME_VPN);
      if !ok6 {
        GiveUpCore(s6, c);
      } else {
        SetLevelCore(s6, c, 0);
      }
    }
  }

  lemma WalkOthers(s: State, p: Pid, v: nat)
    requires Wf(s) && Live(s, p)
    ensures var s' := Walk(s, p, v).0; Wf(s') && forall q: Pid :: q != p ==> s'.procs[q] == s.procs[q]
  {
  }

  /** Scheduling levels are invisible to memory. */
  lemma SetLevelCore(s: State, p: Pid, level: int)
    requires Core(s, {}, {})
    ensures var s' := s.(procs := s.procs[p := s.procs[p].(level := level)]);
            && Core(s', {}, {}) && Conserves(s, {}, s', {}) && SameView(s, s') && SamePresent(s, s')
            && (forall q: Pid :: LeafOf(s'.procs, q) == LeafOf(s.procs, q))
  {
    hide M, R.ReadPage;
    var s' := s.(procs := s.procs[p := s.procs[p].(level := level)]);
    forall l
      ensures At(s'.free, s'.procs, l) == At(s.free, s.procs, l)
    {
    }
    assert forall q: Pid :: LeafOf(s'.procs, q) == LeafOf(s.procs, q);
    LeavesUnseen(s, s');
  }
}
