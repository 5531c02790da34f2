/** Page-table walks that allocate, mappings, and the page-fault handler. */
module Fault {
  import opened Options
  import opened Bytes
  import opened Frames
  import opened Paging
  import opened Eviction
  import R = Raid

  // ----- walk with allocation, and mappages on one page -----

  /** Make the level-1 table for index k exist: a fresh zeroed page if it does not. */
  function EnsureMid(s: State, p: Pid, k: nat): (State, bool)
    requires Wf(s) && Live(s, p)
  {
    var pt := s.procs[p].pt.value;
    if k in pt.mids then (s, true)
    else
      var (s1, r) := Kalloc(s);
      match r
      case None => (s1, false)
      case Some(pa) =>
        (s1.(mem := s1.mem[pa := ZERO_PAGE], procs := SetPt(s1.procs, p, pt.(mids := pt.mids[k := pa]))), true)
  }

  function EnsureLow(s: State, p: Pid, k: nat): (State, bool)
    requires Wf(s) && Live(s, p)
  {
    var pt := s.procs[p].pt.value;
    if k in pt.lows then (s, true)
    else
      var (s1, r) := Kalloc(s);
      match r
      case None => (s1, false)
      case Some(pa) =>
        (s1.(mem := s1.mem[pa := ZERO_PAGE], procs := SetPt(s1.procs, p, pt.(lows := pt.lows[k := pa]))), true)
  }

  function Walk(s: State, p: Pid, v: nat): (State, bool)
    requires Wf(s) && Live(s, p)
  {
    var (s1, ok) := EnsureMid(s, p, v / 262144);
    if !ok then (s1, false) else EnsureLow(s1, p, v / 512)
  }

  /** A walk adds table pages and nothing else, from any state. */
  lemma WalkOnly(s: State, p: Pid, v: nat)
    requires Wf(s) && Live(s, p)
    ensures var s' := Walk(s, p, v).0; Wf(s') && TablesGrew(s, s')
  {
    hide EnsureMid, EnsureLow;
    MidOnly(s, p, v / 262144);
    var (s1, ok) := EnsureMid(s, p, v / 262144);
    if ok { LowOnly(s1, p, v / 512); }
  }

  lemma MidOnly(s: State, p: Pid, k: nat)
    requires Wf(s) && Live(s, p)
    ensures var s' := EnsureMid(s, p, k).0; Wf(s') && Live(s', p) && TablesGrew(s, s')
  {
  }

  lemma LowOnly(s: State, p: Pid, k: nat)
    requires Wf(s) && Live(s, p)
    ensures var s' := EnsureLow(s, p, k).0; Wf(s') && Live(s', p) && TablesGrew(s, s')
  {
  }

  /** mappages for one page that is not mapped yet. */
  function MapPage(s: State, p: Pid, v: nat, e: Pte): (State, bool)
    requires Wf(s) && Live(s, p) && !Mapped(s, p, v)
  {
    var (s1, ok) := Walk(s, p, v);
    if !ok then (s1, false) else (s1.(procs := SetLeaf(s1.procs, p, v, e)), true)
  }

  /** Only table pages have been added. */
  ghost predicate TablesGrew(s: State, s': State)
    requires Wf(s) && Wf(s')
  {
    && s'.frames == s.frames && s'.hand == s.hand && s'.count == s.count
    && s'.swapUsed == s.swapUsed && s'.swapMap == s.swapMap && s'.conf == s.conf && s'.disk == s.disk
    && (forall q: Pid ::
          && s'.procs[q].sz == s.procs[q].sz && s'.procs[q].level == s.procs[q].level
          && s'.procs[q].trapframe == s.procs[q].trapframe && s'.procs[q].pt.Some? == s.procs[q].pt.Some?
          && LeafOf(s'.procs, q) == LeafOf(s.procs, q))
  }

  /** Pages in hand or mapped keep their contents. */
  ghost predicate KeepsPages(s: State, s': State, held: set<Pa>)
    requires Wf(s) && Wf(s')
  {
    && (forall pa: Pa :: pa in held ==> s'.mem[pa] == s.mem[pa])
    && (forall q: Pid, w: nat :: Mapped(s, q, w) ==>
          s'.mem[LeafOf(s.procs, q)[w].pa] == s.mem[LeafOf(s.procs, q)[w].pa])
  }

  lemma FreshTable(s: State, held: set<Pa>, pending: set<(Pid, nat)>, p: Pid, pt': PageTable, l: Loc)
    requires Core(s, held, pending) && Live(s, p) && s.free != []
    requires TableClosed(pt') && pt'.leaf == s.procs[p].pt.value.leaf
    requires At(s.free, s.procs, l).None? && At(s.free, SetPt(s.procs, p, pt'), l) == Some(Top(s))
    requires OthersStay(s.free, s.procs, s.free, SetPt(s.procs, p, pt'), l)
    ensures var s1 := Pop(s, Fill(PGSIZE, 5));
            var s' := s1.(mem := s1.mem[Top(s) := ZERO_PAGE], procs := SetPt(s1.procs, p, pt'));
            Core(s', held, pending) && TablesGrew(s, s') && KeepsPages(s, s', held) && Conserves(s, held, s', held)
  {
    hide NumUsed, FramesUnique, FramesClean, SwapTables, SwapUnique;
    var s1 := Pop(s, Fill(PGSIZE, 5));
    var s' := s1.(mem := s1.mem[Top(s) := ZERO_PAGE], procs := SetPt(s1.procs, p, pt'));
    PopDisjoint(s, held, Fill(PGSIZE, 5));
    forall m | m != l
      ensures At(s1.free, s'.procs, m) == At(s1.free, s1.procs, m)
    {
      assert At(s.free, SetPt(s.procs, p, pt'), m) == At(s.free, s.procs, m);
    }
    PlaceHeld(s1.free, s1.procs, held + {Top(s)}, s1.free, s'.procs, l, Top(s));
    assert held + {Top(s)} - {Top(s)} == held;
    assert At(s.free, s.procs, FreeLoc(|s.free| - 1)) == Some(Top(s));
    forall q: Pid, w: nat | Mapped(s, q, w)
      ensures s'.mem[LeafOf(s.procs, q)[w].pa] == s.mem[LeafOf(s.procs, q)[w].pa]
    {
      assert At(s.free, s.procs, LeafLoc(q, w)) == Some(LeafOf(s.procs, q)[w].pa);
    }
    assert forall q: Pid :: LeafOf(s'.procs, q) == LeafOf(s.procs, q);
    forall q: Pid | s'.procs[q].pt.Some?
      ensures TableClosed(s'.procs[q].pt.value)
    {
    }
  }

  lemma EnsureMidCore(s: State, held: set<Pa>, pending: set<(Pid, nat)>, p: Pid, k: nat)
    requires Core(s, held, pending) && Live(s, p) && k < 256
    ensures var (s', ok) := EnsureMid(s, p, k);
            && Core(s', held, pending) && TablesGrew(s, s') && KeepsPages(s, s', held) && Conserves(s, held, s', held)
            && ok == (k in s.procs[p].pt.value.mids || s.free != [])
            && |s'.free| == |s.free| - (if k !in s.procs[p].pt.value.mids && ok then 1 else 0)
            && (ok ==> k in s'.procs[p].pt.value.mids)
            && s'.procs[p].pt.value.lows == s.procs[p].pt.value.lows
  {
    var pt := s.procs[p].pt.value;
    if k !in pt.mids && s.free != [] {
      FreshTable(s, held, pending, p, pt.(mids := pt.mids[k := Top(s)]), MidLoc(p, k));
    }
  }

  lemma EnsureLowCore(s: State, held: set<Pa>, pending: set<(Pid, nat)>, p: Pid, k: nat)
    requires Core(s, held, pending) && Live(s, p) && k < 131072 && k / 512 in s.procs[p].pt.value.mids
    ensures var (s', ok) := EnsureLow(s, p, k);
            && Core(s', held, pending) && TablesGrew(s, s') && KeepsPages(s, s', held) && Conserves(s, held, s', held)
            && ok == (k in s.procs[p].pt.value.lows || s.free != [])
            && |s'.free| == |s.free| - (if k !in s.procs[p].pt.value.lows && ok then 1 else 0)
            && (ok ==> k in s'.procs[p].pt.value.lows)
  {
    var pt := s.procs[p].pt.value;
    if k !in pt.lows && s.free != [] {
      FreshTable(s, held, pending, p, pt.(lows := pt.lows[k := Top(s)]), LowLoc(p, k));
    }
  }

  /** Table pages that a mapping of page v would have to allocate. */
  function TablesNeeded(pt: PageTable, v: nat): nat {
    (if v / 262144 in pt.mids then 0 else 1) + (if v / 512 in pt.lows then 0 else 1)
  }

  lemma WalkCore(s: State, held: set<Pa>, pending: set<(Pid, nat)>, p: Pid, v: nat)
    requires Core(s, held, pending) && Live(s, p) && v < MAX_VPN
    ensures var (s', ok) := Walk(s, p, v);
            && Core(s', held, pending) && TablesGrew(s, s') && KeepsPages(s, s', held) && Conserves(s, held, s', held)
            && ok == (|s.free| >= TablesNeeded(s.procs[p].pt.value, v))
            && (ok ==> v / 512 in s'.procs[p].pt.value.lows)
  {
    hide Core, Everything, EnsureMid, EnsureLow, M;
    assert Wf(s) by { CoreWf(s, held, pending); }
    EnsureMidCore(s, held, pending, p, v / 262144);
    var (s1, ok1) := EnsureMid(s, p, v / 262144);
    assert Wf(s1) by { CoreWf(s1, held, pending); }
    if ok1 {
      assert v / 512 / 512 == v / 262144;
      EnsureLowCore(s1, held, pending, p, v / 512);
      var (s2, ok2) := EnsureLow(s1, p, v / 512);
      assert Wf(s2) by { CoreWf(s2, held, pending); }
      GrewCompose(s, s1, s2, held);
    }
  }

  lemma GrewCompose(s: State, s1: State, s2: State, held: set<Pa>)
    requires Wf(s) && Wf(s1) && Wf(s2)
    requires TablesGrew(s, s1) && TablesGrew(s1, s2) && KeepsPages(s, s1, held) && KeepsPages(s1, s2, held)
    ensures TablesGrew(s, s2) && KeepsPages(s, s2, held)
  {
    forall q: Pid, w: nat | Mapped(s, q, w)
      ensures s2.mem[LeafOf(s.procs, q)[w].pa] == s.mem[LeafOf(s.procs, q)[w].pa]
    {
      assert Mapped(s1, q, w);
    }
  }

  lemma GrewView(s: State, s': State, held: set<Pa>)
    requires Wf(s) && Wf(s') && TablesGrew(s, s') && KeepsPages(s, s', held)
    ensures SameView(s, s') && forall q: Pid, w: nat :: Present(s', q, w) == Present(s, q, w)
  {
    hide R.ReadPage;
    forall q: Pid, w: nat
      ensures M(s', q, w) == M(s, q, w)
    {
      assert LeafOf(s'.procs, q) == LeafOf(s.procs, q);
      if Mapped(s, q, w) {}
    }
  }

  /** Mapping a held page at v: p finds its contents there, nothing else changes for anyone; it fails
      exactly when the free list cannot cover the table pages needed, and then nothing changes. */
  lemma MapPageCorrect(s: State, held: set<Pa>, pending: set<(Pid, nat)>, p: Pid, v: nat, e: Pte)
    requires Core(s, held, pending) && Live(s, p) && v < TRAPFRAME_VPN && !Mapped(s, p, v) && e.pa in held
    ensures var (s', ok) := MapPage(s, p, v, e);
            && Wf(s') && TablesKept(s, s')
            && ok == (|s.free| >= TablesNeeded(s.procs[p].pt.value, v))
            && (!ok ==> Core(s', held, pending) && SameView(s, s') && SameSizes(s, s')
                        && (forall q: Pid :: LeafOf(s'.procs, q) == LeafOf(s.procs, q))
                        && Conserves(s, held, s', held)
                        && forall q: Pid, w: nat :: Present(s', q, w) == Present(s, q, w))
            && (ok ==> MappedIn(s, s', held, p, v, e))
  {
    hide Walk, Disjoint, Everything, M, Present;
    WalkCore(s, held, pending, p, v);
    var (s1, ok) := Walk(s, p, v);
    GrewView(s, s1, held);
    assert SameSizes(s, s1);
    assert Mapped(s1, p, v) == Mapped(s, p, v);
    if ok {
      LeafPut(s1, held, p, v, e);
    }
  }

  /** The leaf write alone. */
  lemma LeafPut(s: State, held: set<Pa>, p: Pid, v: nat, e: Pte)
    requires Wf(s) && Live(s, p) && TablesClosed(s.procs) && Disjoint(s.free, s.procs, held)
    requires v < TRAPFRAME_VPN && !Mapped(s, p, v) && e.pa in held && v / 512 in s.procs[p].pt.value.lows
    ensures var s' := s.(procs := SetLeaf(s.procs, p, v, e));
            Wf(s') && MappedIn(s, s', held, p, v, e)
  {
    hide Disjoint, R.ReadPage;
    var s' := s.(procs := SetLeaf(s.procs, p, v, e));
    SetLeafDisjoint(s.free, s.procs, held, p, v, e);
    assert LeafOf(s'.procs, p) == LeafOf(s.procs, p)[v := e];
    assert forall q: Pid :: q != p ==> LeafOf(s'.procs, q) == LeafOf(s.procs, q);
  }

  ghost predicate SameSizes(s: State, s': State)
    requires Wf(s) && Wf(s')
  {
    forall q: Pid :: s'.procs[q].sz == s.procs[q].sz && s'.procs[q].trapframe == s.procs[q].trapframe
                     && s'.procs[q].pt.Some? == s.procs[q].pt.Some? && s'.procs[q].level == s.procs[q].level
  }

  /** The state after page e.pa was put at (p, v), before swap and frame tables are brought in line. */
  ghost predicate MappedIn(s: State, s': State, held: set<Pa>, p: Pid, v: nat, e: Pte)
    requires Wf(s) && Wf(s')
  {
    && LeafOf(s'.procs, p) == LeafOf(s.procs, p)[v := e]
    && (forall q: Pid :: q != p ==> LeafOf(s'.procs, q) == LeafOf(s.procs, q))
    && s'.mem[e.pa] == s.mem[e.pa] && Conserves(s, held, s', held - {e.pa})
    && SameSizes(s, s') && TablesClosed(s'.procs) && Disjoint(s'.free, s'.procs, held - {e.pa})
    && (forall q: Pid, w: nat :: q != p || w != v ==>
          M(s', q, w) == M(s, q, w) && Present(s', q, w) == Present(s, q, w))
  }
  // ----- vmfault -----

  /** Drop the first tracked frame of (p, v), if any. */
  function ClearFrame(s: State, p: Option<Pid>, v: nat): State
    requires Wf(s)
  {
    var i := FirstHolding(s.frames, p, v, 0);
    if i == -1 then s else s.(frames := s.frames[i := NO_FRAME], count := Dec(s.count))
  }

  function FreeUserFrame(s: State, p: Pid, v: nat, pa: Pa): State
    requires Wf(s)
  {
    Push(ClearFrame(s, Some(p), v), pa)
  }

  function SetRef(s: State, p: Pid, v: nat): State
    requires Wf(s)
  {
    var i := FirstUsedBy(s.frames, p, v, 0);
    if i == -1 then s else s.(frames := s.frames[i := s.frames[i].(refBit := true)])
  }

  /** walkaddr: the physical page of a valid user mapping. */
  function WalkAddr(s: State, p: Pid, v: nat): Option<Pa>
    requires Wf(s)
  {
    if v < MAX_VPN && Mapped(s, p, v) && LeafOf(s.procs, p)[v].perm.u then Some(LeafOf(s.procs, p)[v].pa) else None
  }

  lemma InstallWf(s: State, p: Pid, v: nat, pa: Pa)
    requires Wf(s) && Live(s, p) && !Mapped(s, p, v)
    ensures Wf(Install(s, p, v, pa).0)
  {
    hide Walk;
    WalkOnly(s, p, v);
  }

  /** From the allocated page on: map it, roll back if that fails, else mark it referenced. */
  function Install(s: State, p: Pid, v: nat, pa: Pa): (State, bool)
    requires Wf(s) && Live(s, p) && !Mapped(s, p, v)
  {
    var (s1, ok) := MapPage(s, p, v, Pte(pa, RWU));
    if !ok then (FreeUserFrame(s1, p, v, pa), false) else (SetRef(s1, p, v), true)
  }

  function DropSwap(s: State, k: nat, slot: nat): State
    requires Wf(s) && k < MAX_SWAP_PAGES && slot < MAX_SWAP_PAGES
  {
    s.(swapUsed := s.swapUsed[slot := false], swapMap := s.swapMap[k := NO_ENTRY])
  }

  lemma {:induction false} KallocUserKeepsUnmapped(s: State, p: Pid, v: nat, q: Pid, w: nat, attempt: nat)
    requires Wf(s) && Live(s, q) && !Mapped(s, q, w)
    ensures var s' := KallocUserFrom(s, p, v, attempt).0; Wf(s') && Live(s', q) && !Mapped(s', q, w)
    decreases 2 - attempt
  {
    if attempt < 2 {
      hide Evict, EvictFrom, FirstUnused, M;
      EvictedUnmapped(s, q, w);
      var needEvict := s.count >= MAX_FRAMES || FirstUnused(s.frames, 0) == -1;
      var (s1, ok1) := if needEvict then Evict(s) else (s, true);
      assert Wf(s1) && Live(s1, q) && !Mapped(s1, q, w);
      if ok1 && s1.free == [] && s1.count != 0 {
        EvictedUnmapped(s1, q, w);
        KallocUserKeepsUnmapped(Evict(s1).0, p, v, q, w, attempt + 1);
      } else if ok1 && s1.free != [] && FirstUnused(s1.frames, 0) == -1 {
        var s3 := Push(Pop(s1, ZERO_PAGE), Top(s1));
        EvictedUnmapped(s3, q, w);
        KallocUserKeepsUnmapped(Evict(s3).0, p, v, q, w, attempt + 1);
      }
    }
  }

  lemma EvictedUnmapped(s: State, q: Pid, w: nat)
    requires Wf(s) && Live(s, q) && !Mapped(s, q, w)
    ensures var s' := Evict(s).0; Wf(s') && Live(s', q) && !Mapped(s', q, w)
  {
    EvictKeepsUnmapped(s, q, w, 0);
  }

  lemma {:induction false} EvictKeepsUnmapped(s: State, q: Pid, w: nat, attempts: nat)
    requires Wf(s) && Live(s, q) && !Mapped(s, q, w)
    ensures var s' := EvictFrom(s, attempts).0; Wf(s') && Live(s', q) && !Mapped(s', q, w)
    decreases |s.frames| - attempts
  {
    EvictWf(s, attempts);
    if attempts < MAX_FRAMES {
      AttemptWf(s);
      var (s', o) := EvictAttempt(s);
      if o == Retry { EvictKeepsUnmapped(s', q, w, attempts + 1); }
    }
  }

  /** Bring page v in on the page pa just allocated: from swap entry k, or as zeroes if k is -1. */
  function PageIn(s: State, p: Pid, v: nat, pa: Pa, k: int, slot: int): (State, Option<Pa>)
    requires Wf(s) && Live(s, p) && !Mapped(s, p, v)
    requires k != -1 ==> 0 <= k < MAX_SWAP_PAGES && 0 <= slot < MAX_SWAP_PAGES
  {
    var x := if k == -1 then ZERO_PAGE else R.ReadPage(s.conf, s.disk, slot);
    InstallWf(s.(mem := s.mem[pa := x]), p, v, pa);
    var (s', ok) := Install(s.(mem := s.mem[pa := x]), p, v, pa);
    if !ok then (s', None)
    else if k == -1 then (s', Some(pa))
    else (DropSwap(s', k, slot), Some(pa))
  }

  function FaultMissing(s: State, p: Pid, v: nat): (State, Option<Pa>)
    requires Wf(s) && Live(s, p) && !Mapped(s, p, v)
  {
    var k := FindSwap(s.swapMap, p, v, 0);
    KallocUserKeepsUnmapped(s, p, v, p, v, 0);
    var (s1, r) := KallocUserFrom(s, p, v, 0);
    if r.None? then (s1, None)
    else PageIn(s1, p, v, r.value, k, if k == -1 then -1 else s.swapMap[k].slot)
  }

  /** The fault handler, for the running process p and a byte address va. */
  function VmFault(s: State, p: Pid, va: nat): (State, Option<Pa>)
    requires Wf(s) && Live(s, p)
  {
    if va >= s.procs[p].sz then (s, None)
    else
      var v := va / 4096;
      if Mapped(s, p, v) then (SetRef(s, p, v), WalkAddr(s, p, v)) else FaultMissing(s, p, v)
  }

  /** Writing a held page disturbs no one. */
  lemma FillHeld(s: State, held: set<Pa>, pending: set<(Pid, nat)>, pa: Pa, x: Page)
    requires Core(s, held, pending) && pa in held
    ensures var s' := s.(mem := s.mem[pa := x]);
            Core(s', held, pending) && SameView(s, s') && forall q: Pid, w: nat :: Present(s', q, w) == Present(s, q, w)
  {
    hide R.ReadPage;
    var s' := s.(mem := s.mem[pa := x]);
    forall q: Pid, w: nat
      ensures M(s', q, w) == M(s, q, w)
    {
      if Mapped(s, q, w) {
        assert At(s.free, s.procs, LeafLoc(q, w)) == Some(LeafOf(s.procs, q)[w].pa);
      }
    }
  }

  ghost predicate SamePresent(s: State, s': State)
    requires Wf(s) && Wf(s')
  {
    forall q: Pid, w: nat :: Present(s', q, w) == Present(s, q, w)
  }

  /** Freeing a held page disturbs no one. */
  lemma PushHeld(s: State, held: set<Pa>, pending: set<(Pid, nat)>, pa: Pa)
    requires Core(s, held, pending) && pa in held
    ensures var s' := Push(s, pa);
            && Core(s', held - {pa}, pending) && SameView(s, s') && SamePresent(s, s')
            && Conserves(s, held, s', held - {pa})
  {
    hide R.ReadPage;
    var s' := Push(s, pa);
    PushDisjoint(s, held, pa);
    forall q: Pid, w: nat
      ensures M(s', q, w) == M(s, q, w)
    {
      if Mapped(s, q, w) {
        assert At(s.free, s.procs, LeafLoc(q, w)) == Some(LeafOf(s.procs, q)[w].pa);
      }
    }
  }

  /** Giving up the pending frame. */
  lemma ClearPending(s: State, held: set<Pa>, p: Pid, v: nat)
    requires Core(s, held, {(p, v)}) && FirstUsedBy(s.frames, p, v, 0) != -1
    ensures var s' := ClearFrame(s, Some(p), v);
            Core(s', held, {}) && s' == s.(frames := s'.frames, count := s'.count)
  {
    var j := FirstUsedBy(s.frames, p, v, 0);
    assert Holds(s.frames[j], Some(p), v);
    hide Disjoint, FramesUnique, FramesClean, NumUsed, SwapTables, SwapUnique, SwapExclusive, TablesClosed;
    var i := FirstHolding(s.frames, Some(p), v, 0);
    DropFrame(s.frames, s.procs, {(p, v)}, i);
    assert {(p, v)} - {(p, v)} == {};
  }

  /** A page in hand may be written before it is placed: allocate, fill, and nobody notices. */
  lemma PopHeld(s: State, pending: set<(Pid, nat)>, x: Page)
    requires Core(s, {}, {}) && s.free != []
    ensures var s' := Pop(s, Fill(PGSIZE, 5));
            var s'' := s'.(mem := s'.mem[Top(s) := x]);
            && Core(s'', {Top(s)}, pending) && SameView(s, s'') && SamePresent(s, s'')
            && Conserves(s, {}, s'', {Top(s)})
            && TablesKept(s, s'') && s''.procs == s.procs && s''.mem[Top(s)] == x
  {
    hide R.ReadPage;
    var s' := Pop(s, Fill(PGSIZE, 5));
    var s'' := s'.(mem := s'.mem[Top(s) := x]);
    PopDisjoint(s, {}, Fill(PGSIZE, 5));
    assert {} + {Top(s)} == {Top(s)};
    forall q: Pid, w: nat
      ensures M(s'', q, w) == M(s, q, w)
    {
      if Mapped(s, q, w) {
        assert At(s.free, s.procs, LeafLoc(q, w)) == Some(LeafOf(s.procs, q)[w].pa);
        assert At(s.free, s.procs, FreeLoc(|s.free| - 1)) == Some(Top(s));
      }
    }
  }

  /** A kernel allocation filled with x and mapped at the absent page v (uvmalloc, uvmcopy); on failure
      the page goes straight back. */
  function PlaceFresh(s: State, p: Pid, v: nat, x: Page, perm: Perm): (State, bool)
    requires Wf(s) && Live(s, p) && !Mapped(s, p, v)
  {
    if s.free == [] then (s, false)
    else
      var pa := Top(s);
      var s1 := Pop(s, Fill(PGSIZE, 5));
      var (s2, ok) := MapPage(s1.(mem := s1.mem[pa := x]), p, v, Pte(pa, perm));
      if !ok then (Push(s2, pa), false) else (s2, true)
  }

  /** The page v of p appeared with contents x; everything else is as it was. */
  ghost predicate Placed(s: State, s': State, p: Pid, v: nat, x: Page, perm: Perm)
    requires Wf(s)
  {
    && Core(s', {}, {}) && Conserves(s, {}, s', {}) && SameSizes(s, s') && TablesKept(s, s')
    && OthersAlike(s, s', p, v)
    && Mapped(s', p, v) && M(s', p, v) == Cell(x, perm)
  }

  ghost predicate OthersAlike(s: State, s': State, p: Pid, v: nat)
    requires Wf(s) && Wf(s')
  {
    forall q: Pid, w: nat :: q != p || w != v ==>
      M(s', q, w) == M(s, q, w) && Present(s', q, w) == Present(s, q, w) && Mapped(s', q, w) == Mapped(s, q, w)
  }

  lemma PlaceFreshCorrect(s: State, p: Pid, v: nat, x: Page, perm: Perm)
    requires Core(s, {}, {}) && Live(s, p) && v < TRAPFRAME_VPN && !Present(s, p, v)
    ensures var (s', ok) := PlaceFresh(s, p, v, x, perm);
            if ok then Placed(s, s', p, v, x, perm)
            else
              && Core(s', {}, {}) && Conserves(s, {}, s', {}) && SameSizes(s, s') && TablesKept(s, s')
              && SameView(s, s') && SamePresent(s, s') && OthersAlike(s, s', p, v) && !Mapped(s', p, v)
  {
    hide M, Disjoint, Everything, MapPage, FramesMapped, FramesUnique, FramesClean, NumUsed, TablesClosed,
         SwapTables, SwapUnique, SwapExclusive;
    if s.free != [] {
      var pa := Top(s);
      var e := Pte(pa, perm);
      PopHeld(s, {(p, v)}, x);
      var s1 := Pop(s, Fill(PGSIZE, 5)).(mem := Pop(s, Fill(PGSIZE, 5)).mem[pa := x]);
      MapPageCorrect(s1, {pa}, {(p, v)}, p, v, e);
      var (s2, ok) := MapPage(s1, p, v, e);
      if ok {
        PlacedCorrect(s, s1, s2, p, v, x, e);
      } else {
        PopHeld(s, {}, x);
        MapPageCorrect(s1, {pa}, {}, p, v, e);
        assert {pa} - {pa} == {};
        PushHeld(s2, {pa}, {}, pa);
      }
    }
  }

  lemma PlacedCorrect(s: State, s1: State, s2: State, p: Pid, v: nat, x: Page, e: Pte)
    requires Core(s, {}, {}) && v < TRAPFRAME_VPN && !Present(s, p, v)
    requires Core(s1, {e.pa}, {(p, v)}) && SameView(s, s1) && SamePresent(s, s1) && Conserves(s, {}, s1, {e.pa})
    requires TablesKept(s, s1) && s1.procs == s.procs && s1.mem[e.pa] == x
    requires Wf(s2) && TablesKept(s1, s2) && MappedIn(s1, s2, {e.pa}, p, v, e)
    ensures Placed(s, s2, p, v, x, e.perm)
  {
    AbsentUntracked(s, p, v);
    hide M, Disjoint, Everything, FramesMapped, FramesUnique, FramesClean, NumUsed, TablesClosed, SwapTables,
         SwapExclusive, Untracked;
    assert {e.pa} - {e.pa} == {};
    SettleCore(s1, s2, p, v, e, -1);
    SettleView(s1, s2, p, v, e, -1);
    forall q: Pid, w: nat | q != p || w != v
      ensures M(s2, q, w) == M(s, q, w) && Present(s2, q, w) == Present(s, q, w) && Mapped(s2, q, w) == Mapped(s, q, w)
    {
      assert M(s2, q, w) == M(s1, q, w) && Present(s2, q, w) == Present(s1, q, w);
    }
  }

  lemma AbsentUntracked(s: State, p: Pid, v: nat)
    requires Wf(s) && FramesMapped(s.frames, s.procs, {}) && !Mapped(s, p, v)
    ensures Untracked(s.frames, p, v)
  {
  }

  lemma AbsentIsZero(s: State, p: Pid, v: nat)
    requires Wf(s) && !Present(s, p, v)
    ensures M(s, p, v) == ZERO_CELL
  {
  }

  /** The roll-back: the registered frame and the page are given back. */
  lemma RollBack(s: State, p: Pid, v: nat, pa: Pa)
    requires Core(s, {pa}, {(p, v)}) && FirstUsedBy(s.frames, p, v, 0) != -1
    ensures var s' := FreeUserFrame(s, p, v, pa);
            Core(s', {}, {}) && SameView(s, s') && SameSizes(s, s') && SamePresent(s, s') && Conserves(s, {pa}, s', {})
  {
    hide Core, Everything, M, Present;
    CoreWf(s, {pa}, {(p, v)});
    ClearPending(s, {pa}, p, v);
    var s1 := ClearFrame(s, Some(p), v);
    CoreWf(s1, {pa}, {});
    FramesUnseen(s, s1);
    PushHeld(s1, {pa}, {}, pa);
    assert {pa} - {pa} == {};
    CoreWf(Push(s1, pa), {}, {});
  }

  /** What processes see does not depend on the frame table. */
  lemma FramesUnseen(s: State, s': State)
    requires Wf(s) && Wf(s') && s' == s.(frames := s'.frames, count := s'.count, hand := s'.hand)
    ensures SameView(s, s') && SamePresent(s, s')
  {
  }

  lemma SetRefCore(s: State, held: set<Pa>, pending: set<(Pid, nat)>, p: Pid, v: nat)
    requires Core(s, held, pending)
    ensures var s' := SetRef(s, p, v);
            Core(s', held, pending) && SameView(s, s') && SameSizes(s, s') && SamePresent(s, s')
  {
    RefsIrrelevant(s, SetRef(s, p, v).frames, s.hand, held, pending);
  }

  lemma SettleFrames(fs: seq<Frame>, procs: seq<Proc>, procs': seq<Proc>, p: Pid, v: nat, e: Pte)
    requires |procs| == NPROC && |procs'| == NPROC && FramesMapped(fs, procs, {(p, v)})
    requires e.perm == RWU || Untracked(fs, p, v)
    requires LeafOf(procs', p) == LeafOf(procs, p)[v := e]
    requires forall q: Pid :: q != p ==> LeafOf(procs', q) == LeafOf(procs, q)
    ensures FramesMapped(fs, procs', {})
  {
  }

  /** No frame entry speaks of (p, v). */
  predicate Untracked(fs: seq<Frame>, p: Pid, v: nat) {
    forall k :: 0 <= k < |fs| && fs[k].used ==> (fs[k].proc, fs[k].vpn) != (Some(p), v)
  }

  lemma SettleSwap(used: seq<bool>, m: seq<SwapEntry>, procs: seq<Proc>, procs': seq<Proc>, p: Pid, v: nat, e: Pte,
                   k: int)
    requires |procs| == NPROC && |procs'| == NPROC
    requires SwapTables(used, m) && SwapUnique(m) && SwapExclusive(m, procs)
    requires LeafOf(procs', p) == LeafOf(procs, p)[v := e]
    requires forall q: Pid :: procs'[q].pt.Some? == procs[q].pt.Some?
    requires forall q: Pid :: q != p ==> LeafOf(procs', q) == LeafOf(procs, q)
    requires k == FindSwap(m, p, v, 0)
    ensures var m', used' := if k == -1 then m else m[k := NO_ENTRY], if k == -1 then used else used[k := false];
            SwapTables(used', m') && SwapUnique(m') && SwapExclusive(m', procs')
  {
    var m' := if k == -1 then m else m[k := NO_ENTRY];
    forall i | 0 <= i < |m'| && m'[i].used && m'[i].proc.Some?
      ensures m'[i] == m[i] && (m'[i].proc, m'[i].vpn) != (Some(p), v)
    {
      assert m'[i] == m[i] && !Matches(m[i], p, v);
    }
  }

  /** Two states with the same tables apart from page tables and memory. */
  predicate TablesKept(s: State, s': State) {
    && s'.frames == s.frames && s'.count == s.count && s'.hand == s.hand && s'.swapUsed == s.swapUsed
    && s'.swapMap == s.swapMap && s'.conf == s.conf && s'.disk == s.disk
  }

  /** After the mapping is in place the frame is no longer pending; with its swap entry dropped (if it
      had one) the page is in exactly one place again. */
  lemma SettleCore(s: State, s1: State, p: Pid, v: nat, e: Pte, k: int)
    requires Core(s, {e.pa}, {(p, v)}) && !Mapped(s, p, v) && v < TRAPFRAME_VPN
    requires e.perm == RWU || Untracked(s.frames, p, v)
    requires Wf(s1) && TablesKept(s, s1) && MappedIn(s, s1, {e.pa}, p, v, e) && k == FindSwap(s.swapMap, p, v, 0)
    ensures Core(if k == -1 then s1 else DropSwap(s1, k, k), {}, {})
  {
    hide Disjoint, Everything, M, Present, FramesMapped, FramesUnique, SwapTables, SwapUnique, SwapExclusive,
         TablesClosed, NumUsed, Untracked;
    assert {e.pa} - {e.pa} == {};
    SettleFrames(s.frames, s.procs, s1.procs, p, v, e);
    SettleSwap(s.swapUsed, s.swapMap, s.procs, s1.procs, p, v, e, k);
  }

  lemma SettleView(s: State, s1: State, p: Pid, v: nat, e: Pte, k: int)
    requires Wf(s) && SwapUnique(s.swapMap) && Wf(s1) && s1.swapMap == s.swapMap
    requires MappedIn(s, s1, {e.pa}, p, v, e) && k == FindSwap(s.swapMap, p, v, 0)
    ensures var s' := if k == -1 then s1 else DropSwap(s1, k, k);
            && Wf(s') && SameSizes(s, s') && Mapped(s', p, v) && LeafOf(s'.procs, p)[v] == e
            && M(s', p, v) == Cell(s.mem[e.pa], e.perm)
            && (forall q: Pid, w: nat :: q != p || w != v ==>
                  M(s', q, w) == M(s, q, w) && Present(s', q, w) == Present(s, q, w))
  {
    hide R.ReadPage, Disjoint, Everything;
    var s' := if k == -1 then s1 else DropSwap(s1, k, k);
    forall q: Pid, w: nat | q != p || w != v
      ensures M(s', q, w) == M(s, q, w) && Present(s', q, w) == Present(s, q, w)
    {
      assert M(s1, q, w) == M(s, q, w) && Present(s1, q, w) == Present(s, q, w);
      if k != -1 { FindSwapElsewhere(s.swapMap, k, NO_ENTRY, q, w); }
    }
  }

  ghost predicate FaultDone(s: State, p: Pid, v: nat, s': State, r: Option<Pa>)
    requires Wf(s)
  {
    && Core(s', {}, {}) && SameView(s, s') && SameSizes(s, s') && Conserves(s, {}, s', {})
    && (forall q: Pid, w: nat :: Present(s', q, w) ==> Present(s, q, w) || (q == p && w == v))
    && (r.Some? ==> Mapped(s', p, v) && LeafOf(s'.procs, p)[v].perm.u
                    && LeafOf(s'.procs, p)[v].pa == r.value && s'.mem[r.value] == M(s, p, v).data)
  }

  /** From an allocated page whose contents are already what p should find at v. */
  lemma InstallCorrect(s: State, s1: State, p: Pid, v: nat, pa: Pa, k: int)
    requires Core(s, {}, {}) && Live(s, p) && v < TRAPFRAME_VPN && !Mapped(s, p, v)
    requires Core(s1, {pa}, {(p, v)}) && SameView(s, s1) && SameSizes(s, s1) && !Mapped(s1, p, v)
    requires SamePresent(s, s1) && Conserves(s, {}, s1, {pa})
    requires FirstUsedBy(s1.frames, p, v, 0) != -1 && k == FindSwap(s1.swapMap, p, v, 0)
    requires M(s, p, v) == Cell(s1.mem[pa], RWU)
    ensures var (s2, ok) := Install(s1, p, v, pa);
            && Wf(s2)
            && FaultDone(s, p, v, if ok && k != -1 then DropSwap(s2, k, k) else s2, if ok then Some(pa) else None)
            && ok == (|s1.free| >= TablesNeeded(s1.procs[p].pt.value, v))
  {
    hide M, Present, Everything, Disjoint, MapPage;
    MapPageCorrect(s1, {pa}, {(p, v)}, p, v, Pte(pa, RWU));
    var (m, ok) := MapPage(s1, p, v, Pte(pa, RWU));
    if !ok {
      RollBack(m, p, v, pa);
    } else {
      InstalledCorrect(s, s1, m, p, v, pa, k);
    }
  }

  lemma InstalledCorrect(s: State, s1: State, m: State, p: Pid, v: nat, pa: Pa, k: int)
    requires Wf(s) && v < TRAPFRAME_VPN
    requires Core(s1, {pa}, {(p, v)}) && SameView(s, s1) && SameSizes(s, s1) && !Mapped(s1, p, v) && SamePresent(s, s1)
    requires Conserves(s, {}, s1, {pa})
    requires k == FindSwap(s1.swapMap, p, v, 0) && M(s, p, v) == Cell(s1.mem[pa], RWU)
    requires Wf(m) && TablesKept(s1, m)
    requires MappedIn(s1, m, {pa}, p, v, Pte(pa, RWU))
    ensures var s2 := SetRef(m, p, v);
            FaultDone(s, p, v, if k != -1 then DropSwap(s2, k, k) else s2, Some(pa))
  {
    hide M, Present, Everything, Disjoint, FramesMapped, FramesUnique, SwapUnique, SwapExclusive, SwapTables, NumUsed,
         FramesClean, TablesClosed;
    assert {pa} - {pa} == {};
    SettleCore(s1, m, p, v, Pte(pa, RWU), k);
    SettleView(s1, m, p, v, Pte(pa, RWU), k);
    var d := if k == -1 then m else DropSwap(m, k, k);
    SetRefCore(d, {}, {}, p, v);
    assert SetRef(d, p, v) == if k == -1 then SetRef(m, p, v) else DropSwap(SetRef(m, p, v), k, k);
    assert LeafOf(SetRef(d, p, v).procs, p) == LeafOf(d.procs, p);
    forall q: Pid, w: nat
      ensures M(SetRef(d, p, v), q, w) == M(s, q, w)
    {
      assert M(d, q, w) == M(s1, q, w) || (q == p && w == v);
    }
  }

  /** Main result on faults. Under the invariant, whatever process faults wherever, and whether the
      fault succeeds or fails, no process sees any page change (including pages that the nested
      eviction moved to swap); a success returns a mapped page that holds exactly what the process
      should find there. It fails exactly when the address is beyond the process size, the page is
      mapped without user access, no frame can be had, or no page is left for the page table. */
  lemma FaultCorrect(s: State, p: Pid, va: nat)
    requires Inv(s) && Live(s, p)
    ensures var (s', r) := VmFault(s, p, va);
            && Inv(s') && FaultDone(s, p, va / 4096, s', r)
            && (r.Some? <==> FaultPossible(s, p, va))
  {
    var v := va / 4096;
    var (s', r) := VmFault(s, p, va);
    if va < s.procs[p].sz {
      assert v < PagesFor(s.procs[p].sz) <= TRAPFRAME_VPN by { assert Sized(s, p); }
      if Mapped(s, p, v) {
        SetRefCore(s, {}, {}, p, v);
      } else {
        FaultAbsent(s, p, va);
      }
      InvAfterFault(s, p, v, s', r);
    }
  }

  predicate FaultPossible(s: State, p: Pid, va: nat)
    requires Wf(s) && Live(s, p)
  {
    var v := va / 4096;
    va < s.procs[p].sz
    && if Mapped(s, p, v) then LeafOf(s.procs, p)[v].perm.u
       else (Ready(s) || CanEvict(s))
            && |s.free| - (if Ready(s) then 1 else 0) >= TablesNeeded(s.procs[p].pt.value, v)
  }

  lemma FaultAbsent(s: State, p: Pid, va: nat)
    requires Core(s, {}, {}) && Live(s, p) && va < s.procs[p].sz
    requires va / 4096 < TRAPFRAME_VPN && !Mapped(s, p, va / 4096)
    ensures var (s', r) := VmFault(s, p, va);
            FaultDone(s, p, va / 4096, s', r) && (r.Some? <==> FaultPossible(s, p, va))
  {
    hide KallocUserFrom, Everything, CanEvict, Ready, Disjoint, Install, FramesMapped, FramesUnique, FramesClean,
         TablesClosed, NumUsed, SwapExclusive, R.ReadPage;
    var v := va / 4096;
    var k := FindSwap(s.swapMap, p, v, 0);
    KallocUserCorrect(s, p, v);
    KallocUserKeepsUnmapped(s, p, v, p, v, 0);
    var (s1, r) := KallocUserFrom(s, p, v, 0);
    assert SameSizes(s, s1);
    if r.Some? {
      var pa := r.value;
      SameSearch(s, s1, p, v);
      var x := if k == -1 then ZERO_PAGE else R.ReadPage(s1.conf, s1.disk, s.swapMap[k].slot);
      FillHeld(s1, {pa}, {(p, v)}, pa, x);
      assert M(s, p, v) == Cell(x, RWU);
      InstallCorrect(s, s1.(mem := s1.mem[pa := x]), p, v, pa, k);
      assert SameTables(s.procs[p].pt.value, s1.procs[p].pt.value);
    }
  }

  /** The swap entry being faulted in survives the nested eviction, in its place. */
  lemma SameSearch(s: State, s1: State, p: Pid, v: nat)
    requires Wf(s) && Wf(s1) && SwapUnique(s1.swapMap) && SwapKept(s, s1) && !Mapped(s, p, v) && !Mapped(s1, p, v)
    ensures FindSwap(s1.swapMap, p, v, 0) == FindSwap(s.swapMap, p, v, 0)
  {
    hide R.ReadPage;
    var k := FindSwap(s.swapMap, p, v, 0);
    if k != -1 {
      assert Matches(s1.swapMap[k], p, v);
      FindUnique(s1.swapMap, p, v, k);
    } else {
      assert Present(s1, p, v) == Present(s, p, v);
    }
  }

  lemma InvAfterFault(s: State, p: Pid, v: nat, s': State, r: Option<Pa>)
    requires Inv(s) && v < PagesFor(s.procs[p].sz) && FaultDone(s, p, v, s', r)
    ensures Inv(s')
  {
    hide Present, M;
    forall q: Pid
      ensures Sized(s', q)
    {
      assert Sized(s, q);
      assert s'.procs[q].sz == s.procs[q].sz;
    }
  }
}
