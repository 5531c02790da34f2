/** What paging does to the RAID array under it: nothing but page writes, so an array that can lose a disk stays one
    that can. And what it does to the levels of processes: nothing, but that a new process starts at 0. */
module Storage {
  import opened Options
  import opened Bytes
  import opened Frames
  import opened Paging
  import opened Eviction
  import opened Fault
  import opened AddressSpace
  import opened Processes
  import opened Fork
  import opened UserCopy
  import R = Raid

  /** The swap area as an array of disks. */
  function ArrayOf(s: State): R.Array {
    R.Array(s.conf, s.disk)
  }

  /** Processes keep their level, or start at level 0. */
  predicate LevelsKept(s: State, s': State) {
    |s'.procs| == |s.procs|
    && forall p :: 0 <= p < |s.procs| ==> s'.procs[p].level == s.procs[p].level || s'.procs[p].level == 0
  }

  predicate SameArray(s: State, s': State) {
    s'.conf == s.conf && s'.disk == s.disk && LevelsKept(s, s')
  }

  /** The array is still configured as it was, and if one disk could be lost before, one can be lost now. */
  predicate KeepsSound(s: State, s': State) {
    s'.conf == s.conf && (R.Sound(ArrayOf(s)) ==> R.Sound(ArrayOf(s'))) && LevelsKept(s, s')
  }

  lemma WriteKeepsSound(a: R.Array, slot: nat, page: Page)
    requires slot < R.MAX_SWAP_PAGES && R.Sound(a)
    ensures R.Sound(a.(store := R.WritePage(a.config, a.store, slot, page)))
  {
    hide R.WritePage, R.Redundant;
    R.StepReads(a, R.Write(slot, page), 0);
  }

  // ----- eviction and faults -----

  lemma AttemptArray(s: State)
    requires Wf(s)
    ensures KeepsSound(s, EvictAttempt(s).0)
  {
    hide R.WritePage, SelectVictim, R.Sound;
    SelectFrame(s.frames, Levels(s), s.hand);
    var s1, victim := Chosen(s), Victim(s);
    var slot := FirstFreeSlot(s1.swapUsed, 0);
    if victim >= 0 && slot != -1 && R.Sound(ArrayOf(s)) {
      var f := s1.frames[victim];
      if !Stale(s1, f) { WriteKeepsSound(ArrayOf(s), slot, s1.mem[LeafOf(s1.procs, f.proc.value)[f.vpn].pa]); }
    }
  }

  lemma {:induction false} EvictArray(s: State, attempts: nat)
    requires Wf(s)
    ensures KeepsSound(s, EvictFrom(s, attempts).0)
    decreases |s.frames| - attempts
  {
    hide EvictAttempt, R.Sound;
    if attempts < MAX_FRAMES {
      AttemptWf(s);
      AttemptArray(s);
      var (s', o) := EvictAttempt(s);
      if o == Retry { EvictArray(s', attempts + 1); }
    }
  }

  lemma {:induction false} KallocArray(s: State, p: Pid, v: nat, attempt: nat)
    requires Wf(s)
    ensures KeepsSound(s, KallocUserFrom(s, p, v, attempt).0)
    decreases 2 - attempt
  {
    hide EvictFrom, R.Sound;
    if attempt < 2 {
      EvictWf(s, 0);
      EvictArray(s, 0);
      var needEvict := s.count >= MAX_FRAMES || FirstUnused(s.frames, 0) == -1;
      var (s1, ok1) := if needEvict then Evict(s) else (s, true);
      if ok1 {
        var s2 := if s1.free == [] then s1 else Push(Pop(s1, ZERO_PAGE), Top(s1));
        EvictWf(s2, 0);
        EvictArray(s2, 0);
        KallocArray(Evict(s2).0, p, v, attempt + 1);
      }
    }
  }

  lemma FaultArray(s: State, p: Pid, va: nat)
    requires Wf(s) && Live(s, p)
    ensures KeepsSound(s, VmFault(s, p, va).0)
  {
    hide KallocUserFrom, Walk, R.Sound, R.ReadPage;
    var v := va / 4096;
    if va < s.procs[p].sz && !Mapped(s, p, v) {
      var k := FindSwap(s.swapMap, p, v, 0);
      KallocArray(s, p, v, 0);
      KallocUserKeepsUnmapped(s, p, v, p, v, 0);
      var (s1, r) := KallocUserFrom(s, p, v, 0);
      if r.Some? {
        var x := if k == -1 then ZERO_PAGE else R.ReadPage(s1.conf, s1.disk, s.swapMap[k].slot);
        WalkOnly(s1.(mem := s1.mem[r.value := x]), p, v);
      }
    }
  }

  lemma TouchArray(s: State, p: Pid, v: nat)
    requires Wf(s) && Live(s, p)
    ensures KeepsSound(s, Touch(s, p, v).0)
  {
    hide VmFault, R.Sound;
    FaultArray(s, p, v * 4096);
  }

  lemma {:induction false} CopyInArray(s: State, p: Pid, a: nat, len: nat)
    requires Wf(s) && Live(s, p)
    ensures KeepsSound(s, CopyIn(s, p, a, len).state)
    decreases len
  {
    hide Touch, R.Sound;
    if len > 0 {
      var v := a / 4096;
      TouchWf(s, p, v);
      TouchArray(s, p, v);
      var (s1, t) := Touch(s, p, v);
      if t.Some? { CopyInArray(s1, p, (v + 1) * 4096, len - Chunk(a, len)); }
    }
  }

  lemma {:induction false} CopyOutArray(s: State, p: Pid, dst: nat, src: seq<bv8>)
    requires Wf(s) && Live(s, p)
    ensures KeepsSound(s, CopyOut(s, p, dst, src).state)
    decreases |src|
  {
    hide Touch, R.Sound;
    if src != [] {
      var v := dst / 4096;
      TouchWf(s, p, v);
      TouchArray(s, p, v);
      var (s1, t) := Touch(s, p, v);
      if v < MAX_VPN && t.Some? && Mapped(s1, p, v) && LeafOf(s1.procs, p)[v].perm.w {
        var n := Chunk(dst, |src|);
        var s2 := s1.(mem := s1.mem[t.value := Splice(s1.mem[t.value], dst % 4096, src[..n])]);
        CopyOutArray(s2, p, (v + 1) * 4096, src[n..]);
      }
    }
  }

  // ----- address spaces and processes -----

  lemma {:induction false} UnmapArray(s: State, p: Pid, owner: Option<Pid>, v: nat, n: nat)
    requires Wf(s) && Live(s, p)
    ensures SameArray(s, UnmapRange(s, p, owner, v, n))
    decreases n
  {
    hide UnmapPage;
    if n > 0 {
      UnmapPageArray(s, p, owner, v);
      UnmapArray(UnmapPage(s, p, owner, v), p, owner, v + 1, n - 1);
    }
  }

  lemma UnmapPageArray(s: State, p: Pid, owner: Option<Pid>, v: nat)
    requires Wf(s) && Live(s, p)
    ensures var s' := UnmapPage(s, p, owner, v); Wf(s') && Live(s', p) && SameArray(s, s')
  {
  }

  lemma PlaceArray(s: State, p: Pid, v: nat, x: Page, perm: Perm)
    requires Wf(s) && Live(s, p) && !Mapped(s, p, v)
    ensures SameArray(s, PlaceFresh(s, p, v, x, perm).0)
  {
    hide Walk;
    if s.free != [] {
      WalkOnly(Pop(s, Fill(PGSIZE, 5)).(mem := Pop(s, Fill(PGSIZE, 5)).mem[Top(s) := x]), p, v);
    }
  }

  lemma {:induction false} GrowArray(s: State, p: Pid, start: nat, v: nat, n: nat)
    requires Wf(s) && Live(s, p) && start <= v && Unmapped(s.procs, p, v, n)
    ensures SameArray(s, GrowFrom(s, p, start, v, n).0)
    decreases n - v
  {
    hide PlaceFresh, UnmapRange;
    if v < n {
      PlaceArray(s, p, v, ZERO_PAGE, RWU);
      PlaceFreshOnly(s, p, v, ZERO_PAGE, RWU);
      var (s1, ok) := PlaceFresh(s, p, v, ZERO_PAGE, RWU);
      if ok { GrowArray(s1, p, start, v + 1, n); } else { UnmapArray(s1, p, Some(p), start, v - start); }
    }
  }

  lemma {:induction false} ClearSwapsArray(s: State, p: Pid, i: nat)
    requires Wf(s) && i <= MAX_SWAP_PAGES
    ensures SameArray(s, ClearSwaps(s, p, i))
    decreases |s.swapMap| - i
  {
    if i < MAX_SWAP_PAGES {
      ClearSwapsArray(if s.swapMap[i].used && s.swapMap[i].proc == Some(p)
                      then DropSwap(s, i, s.swapMap[i].slot) else s, p, i + 1);
    }
  }

  lemma {:induction false} ClearFramesArray(s: State, p: Pid, i: nat)
    requires Wf(s) && i <= MAX_FRAMES
    ensures SameArray(s, ClearFrames(s, p, i))
    decreases |s.frames| - i
  {
    if i < MAX_FRAMES {
      ClearFramesArray(if Tracked(s.frames[i]) && s.frames[i].proc == Some(p)
                       then s.(frames := s.frames[i := NO_FRAME], count := Dec(s.count)) else s, p, i + 1);
    }
  }

  lemma FreeArray(s: State, p: Pid)
    requires Wf(s) && Live(s, p)
    ensures SameArray(s, FreeProc(s, p))
  {
    hide UnmapRange, ClearSwaps, ClearFrames, FreeMids;
    var s1 := FreeTrapframe(s, p);
    ClearSwapsArray(s1, p, 0);
    ClearFramesArray(ClearSwaps(s1, p, 0), p, 0);
    var s2 := Strip(s, p);
    UnmapArray(s2, p, None, 0, PagesFor(s.procs[p].sz));
  }

  lemma AllocArray(s: State, c: Pid)
    requires Wf(s) && s.procs[c].pt.None?
    ensures SameArray(s, AllocProc(s, c).0) && (AllocProc(s, c).1 ==> AllocProc(s, c).0.procs[c].level == 0)
  {
    hide Walk, FreeWalk;
    if |s.free| >= 2 {
      var s1 := Pop(s, Fill(PGSIZE, 5));
      var s2 := s1.(procs := s1.procs[c := s1.procs[c].(trapframe := Some(Top(s)))]);
      var s4 := WithRoot(s2, c);
      WalkOnly(s4, c, MAX_VPN - 1);
      var (s5, ok) := Walk(s4, c, MAX_VPN - 1);
      if ok { WalkOnly(s5, c, TRAPFRAME_VPN); }
    }
  }

  // ----- fork -----

  lemma CopyPageArray(s: State, parent: Pid, child: Pid, v: nat)
    requires Wf(s) && Live(s, child) && !Mapped(s, child, v)
    ensures KeepsSound(s, CopyPage(s, parent, child, v).0)
  {
    hide PlaceFresh, R.Sound, R.ReadPage, R.WritePage;
    if s.free != [] {
      if Mapped(s, parent, v) {
        var e := LeafOf(s.procs, parent)[v];
        PlaceArray(s, child, v, Pop(s, Fill(PGSIZE, 5)).mem[e.pa], e.perm);
      } else {
        var k := FindSwap(s.swapMap, parent, v, 0);
        var dst := FirstFreeSlot(s.swapUsed, 0);
        if k != -1 && dst != -1 && R.Sound(ArrayOf(s)) {
          WriteKeepsSound(ArrayOf(s), dst, R.ReadPage(s.conf, s.disk, s.swapMap[k].slot));
        }
      }
    }
  }

  lemma {:induction false} UvmCopyArray(s: State, parent: Pid, child: Pid, v: nat, n: nat)
    requires Wf(s) && Live(s, child) && Unmapped(s.procs, child, v, n)
    ensures KeepsSound(s, UvmCopyFrom(s, parent, child, v, n).0)
    decreases n - v
  {
    hide CopyPage, R.Sound, UnmapRange;
    if v < n {
      CopyPageOnly(s, parent, child, v);
      CopyPageArray(s, parent, child, v);
      var (s1, ok) := CopyPage(s, parent, child, v);
      if ok { UvmCopyArray(s1, parent, child, v + 1, n); } else { UnmapArray(s1, child, None, 0, v); }
    }
  }

  /** The child starts at level 0. */
  lemma ForkArray(s: State, parent: Pid)
    requires Wf(s) && Live(s, parent)
    ensures KeepsSound(s, KFork(s, parent).0)
    ensures KFork(s, parent).1.Some? ==> KFork(s, parent).0.procs[KFork(s, parent).1.value].level == 0
  {
    hide AllocProc, UvmCopyFrom, FreeProc, R.Sound;
    var c := FirstUnusedProc(s.procs, 0);
    if c != -1 {
      AllocArray(s, c);
      AllocProcOnly(s, c);
      var (s1, ok) := AllocProc(s, c);
      if ok {
        UvmCopyArray(s1, parent, c, 0, PagesFor(s.procs[parent].sz));
        var (s2, ok2) := UvmCopyFrom(s1, parent, c, 0, PagesFor(s.procs[parent].sz));
        if !ok2 { FreeArray(s2, c); }
      }
    }
  }
}
