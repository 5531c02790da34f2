/** kalloc.c and vm.c as they run: global arrays updated in place by loops. Every method is proved equal
    to the value-level function that the theorems are about, from any well-formed state. */
module Kernel {
  import opened Options
  import opened Bytes
  import opened Frames
  import opened Paging
  import opened Eviction
  import opened Fault
  import opened SwapDriver
  import opened AddressSpace
  import opened Processes
  import opened Fork
  import opened UserCopy
  import opened CopyLimits
  import FM = FlatMemory
  import R = Raid

  /** The physical pages a, a + 1, ..., b - 1. */
  function Pages(a: nat, b: nat): (r: seq<Pa>)
    requires a <= b <= NPAGES
    ensures |r| == b - a && forall i :: 0 <= i < b - a ==> r[i] == a + i
  {
    seq(b - a, i requires 0 <= i < b - a => a + i)
  }

  class Kernel {
    const frameTable: array<Frame>
    const swapUsed: array<bool>
    const swapMap: array<SwapEntry>
    const mem: array<Page>
    const procs: array<Proc>
    const swap: Driver
    var clockHand: nat
    var userFrameCount: nat
    var freelist: seq<Pa>

    ghost function Footprint(): set<object> {
      {this, frameTable, swapUsed, swapMap, mem, procs, swap} + swap.Scratch()
    }

    /** The whole state as a value. */
    ghost function Snap(): State
      reads this, frameTable, swapUsed, swapMap, mem, procs, swap
    {
      State(frameTable[..], clockHand, userFrameCount, swapUsed[..], swapMap[..],
            freelist, mem[..], procs[..], swap.Conf(), swap.blocks)
    }

    ghost predicate Valid()
      reads this, frameTable, swapUsed, swapMap, mem, procs, swap
    {
      Wf(Snap()) && swap.Valid()
    }

    /** kinit: empty tables, and every page from `first` on pushed on the free list in address order. */
    constructor (first: nat, mode: R.Mode, image: R.Store)
      requires first <= NPAGES
      ensures Valid() && Inv(Snap())
      ensures freelist == Pages(first, NPAGES)
    {
      frameTable := new Frame[MAX_FRAMES](_ => NO_FRAME);
      swapUsed := new bool[MAX_SWAP_PAGES](_ => false);
      swapMap := new SwapEntry[MAX_SWAP_PAGES](_ => NO_ENTRY);
      mem := new Page[NPAGES](_ => ZERO_PAGE);
      procs := new Proc[NPROC](_ => NO_PROC);
      swap := new Driver(mode, image);
      clockHand, userFrameCount, freelist := 0, 0, [];
      new;
      hide Inv;
      FreeRange(first);
      assert Snap() == FM.Boot(freelist, mem[..], swap.Conf(), swap.blocks);
      FM.BootInv(freelist, mem[..], swap.Conf(), swap.blocks);
    }

    /** freerange: push the pages from `first` on, in address order. */
    method FreeRange(first: nat)
      requires first <= NPAGES && mem.Length == NPAGES && freelist == []
      modifies this`freelist, mem
      ensures freelist == Pages(first, NPAGES)
    {
      for a := first to NPAGES
        invariant freelist == Pages(first, a)
      {
        mem[a] := Fill(PGSIZE, 1);
        freelist := freelist + [a];
      }
    }

    // ----- kalloc.c -----

    method HasFreeFrameSlot() returns (b: bool)
      requires Valid()
      ensures b <==> FirstUnused(frameTable[..], 0) != -1
    {
      for i := 0 to MAX_FRAMES
        invariant FirstUnused(frameTable[..], 0) == FirstUnused(frameTable[..], i)
      {
        if !frameTable[i].used { return true; }
      }
      return false;
    }

    method RegisterUserFrame(p: Pid, v: nat) returns (ok: bool)
      requires Valid()
      modifies this`userFrameCount, frameTable
      ensures Valid()
      ensures var i := FirstUnused(old(frameTable[..]), 0);
              ok == (i != -1) && Snap() == if ok then Register(old(Snap()), i, p, v) else old(Snap())
    {
      for i := 0 to MAX_FRAMES
        invariant Snap() == old(Snap())
        invariant FirstUnused(frameTable[..], 0) == FirstUnused(frameTable[..], i)
      {
        if !frameTable[i].used {
          frameTable[i] := Frame(true, true, Some(p), v, true);
          userFrameCount := userFrameCount + 1;
          return true;
        }
      }
      return false;
    }

    /** One step of the clock; `lv` holds the owners' levels and k counts the steps before this one. */
    method Tick(best: int, bestLevel: int, ghost lv: seq<int>, ghost k: nat)
      returns (best': int, bestLevel': int, stop: bool)
      requires Valid() && lv == Levels(Snap()) && k < 2 * MAX_FRAMES
      modifies this`clockHand, frameTable
      ensures Valid() && Levels(Snap()) == lv
      ensures Scan(old(frameTable[..]), lv, old(clockHand), k, best, bestLevel)
           == if stop then Choice(frameTable[..], clockHand, best')
              else Scan(frameTable[..], lv, clockHand, k + 1, best', bestLevel')
    {
      var idx := clockHand;
      var f := frameTable[idx];
      ghost var here := Snap();
      best', bestLevel', stop := best, bestLevel, false;
      clockHand := (clockHand + 1) % MAX_FRAMES;
      if !f.used || !f.userFrame {
        return;
      }
      if f.refBit {
        frameTable[idx] := f.(refBit := false);
        assert frameTable[..] == here.frames[idx := f.(refBit := false)];
        return;
      }
      var level := match f.proc case None => 0 case Some(q) => procs[q].level;
      assert level == lv[idx];
      if level > bestLevel {
        best', bestLevel' := idx, level;
      }
      stop := bestLevel' == 3;
    }

    /** The two laps of the clock. */
    method ScanClock() returns (best: int)
      requires Valid()
      modifies this`clockHand, frameTable
      ensures Valid()
      ensures Choice(frameTable[..], clockHand, best)
           == Scan(old(frameTable[..]), Levels(old(Snap())), old(clockHand), 0, -1, -1)
    {
      ghost var lv := Levels(Snap());
      hide Levels;
      best := -1;
      var bestLevel := -1;
      var scanned := 0;
      while scanned < 2 * MAX_FRAMES
        invariant scanned <= 2 * MAX_FRAMES && Valid() && Levels(Snap()) == lv
        invariant Scan(frameTable[..], lv, clockHand, scanned, best, bestLevel)
               == Scan(old(frameTable[..]), lv, old(clockHand), 0, -1, -1)
      {
        var stop;
        best, bestLevel, stop := Tick(best, bestLevel, lv, scanned);
        if stop {
          return;
        }
        scanned := scanned + 1;
      }
    }

    method SelectVictimFrame() returns (best: int)
      requires Valid()
      modifies this`clockHand, frameTable
      ensures Valid()
      ensures var s := old(Snap()); Snap() == Chosen(s) && best == Victim(s)
      ensures -1 <= best < MAX_FRAMES && (best >= 0 ==> Tracked(frameTable[best]))
    {
      SelectFrame(frameTable[..], Levels(Snap()), clockHand);
      best := ScanClock();
      if best == -1 {
        for i := 0 to MAX_FRAMES
          invariant FirstTracked(frameTable[..], 0) == FirstTracked(frameTable[..], i)
        {
          if Tracked(frameTable[i]) {
            best := i;
            break;
          }
        }
      }
    }

    /** Find and reserve the first free swap slot. */
    method ReserveSlot() returns (slot: int)
      requires Valid()
      modifies swapUsed
      ensures Valid() && slot == FirstFreeSlot(old(swapUsed[..]), 0)
      ensures Snap() == if slot == -1 then old(Snap()) else old(Snap()).(swapUsed := old(swapUsed[..])[slot := true])
    {
      for i := 0 to MAX_SWAP_PAGES
        invariant swapUsed[..] == old(swapUsed[..])
        invariant FirstFreeSlot(swapUsed[..], 0) == FirstFreeSlot(swapUsed[..], i)
      {
        if !swapUsed[i] {
          swapUsed[i] := true;
          return i;
        }
      }
      return -1;
    }

    method DecrementCount()
      modifies this`userFrameCount
      ensures userFrameCount == Dec(old(userFrameCount))
    {
      if userFrameCount > 0 {
        userFrameCount := userFrameCount - 1;
      }
    }

    method Kfree(pa: Pa)
      requires Valid()
      modifies this`freelist, mem
      ensures Valid() && Snap() == Push(old(Snap()), pa)
    {
      mem[pa] := Fill(PGSIZE, 1);
      freelist := freelist + [pa];
    }

    method Kalloc() returns (r: Option<Pa>)
      requires Valid()
      modifies this`freelist, mem
      ensures Valid() && (Snap(), r) == Paging.Kalloc(old(Snap()))
    {
      if freelist == [] {
        return None;
      }
      r := Some(freelist[|freelist| - 1]);
      TakePage(Fill(PGSIZE, 5));
    }

    /** The write-out of a chosen victim with a valid mapping: its swap slot is already reserved and its
        frame entry already marked as leaving. */
    method WriteOut(victim: nat, p: Pid, v: nat, slot: nat, ghost s: State)
      requires Valid() && Wf(s) && victim < MAX_FRAMES && slot < MAX_SWAP_PAGES && Live(s, p) && Mapped(s, p, v)
      requires Snap() == s.(frames := s.frames[victim := Frame(true, false, None, 0, false)],
                            swapUsed := s.swapUsed[slot := true])
      modifies this`userFrameCount, frameTable, swapMap, procs, swap`blocks, swap.Scratch()
      ensures Valid() && Snap() == WrittenOut(s, victim, p, v, slot)
    {
      hide R.WritePage;
      var pt := procs[p].pt.value;
      procs[p] := procs[p].(pt := Some(pt.(leaf := pt.leaf - {v})));
      assert procs[..] == ClearLeaf(s.procs, p, v);
      swap.SwapDiskWrite(slot, mem[pt.leaf[v].pa]);
      swapMap[slot] := SwapEntry(true, Some(p), v, slot);
      frameTable[victim] := frameTable[victim].(used := false);
      DecrementCount();
      assert frameTable[..] == s.frames[victim := NO_FRAME];
      assert swapMap[..] == s.swapMap[slot := SwapEntry(true, Some(p), v, slot)];
    }

    /** restore_victim_frame: no swap slot was free. */
    method RestoreVictimFrame(victim: nat, f: Frame, ghost s: State)
      requires Valid() && Wf(s) && victim < MAX_FRAMES
      requires Snap() == s.(frames := s.frames[victim := Frame(true, false, None, 0, false)])
      modifies frameTable
      ensures Valid() && Snap() == s.(frames := s.frames[victim := Frame(true, true, f.proc, f.vpn, true)])
    {
      frameTable[victim] := Frame(true, true, f.proc, f.vpn, true);
      assert frameTable[..] == s.frames[victim := Frame(true, true, f.proc, f.vpn, true)];
    }

    /** The victim has no mapping: the slot is released and the frame entry dropped. */
    method DropStale(victim: nat, slot: nat, ghost s: State)
      requires Valid() && Wf(s) && victim < MAX_FRAMES && slot < MAX_SWAP_PAGES && !s.swapUsed[slot]
      requires Snap() == s.(frames := s.frames[victim := Frame(true, false, None, 0, false)],
                            swapUsed := s.swapUsed[slot := true])
      modifies this`userFrameCount, frameTable, swapUsed
      ensures Valid() && Snap() == s.(frames := s.frames[victim := NO_FRAME], count := Dec(s.count))
    {
      swapUsed[slot] := false;
      frameTable[victim] := NO_FRAME;
      DecrementCount();
      assert frameTable[..] == s.frames[victim := NO_FRAME];
      assert swapUsed[..] == s.swapUsed;
    }

    /** One attempt of evict_one_user_frame. */
    method TryEvict() returns (o: Outcome)
      requires Valid()
      modifies Footprint()
      ensures Valid() && (Snap(), o) == EvictAttempt(old(Snap()))
    {
      hide SelectVictim, R.WritePage;
      ghost var s0 := Snap();
      SelectFrame(s0.frames, Levels(s0), s0.hand);
      var victim := SelectVictimFrame();
      if victim < 0 {
        return Failed;
      }
      ghost var s := Snap();
      var f := frameTable[victim];
      frameTable[victim] := f.(userFrame := false, proc := None, vpn := 0, refBit := false);
      var slot := ReserveSlot();
      if slot == -1 {
        RestoreVictimFrame(victim, f, s);
        return Failed;
      }
      if f.proc.None? || procs[f.proc.value].pt.None? || f.vpn !in procs[f.proc.value].pt.value.leaf {
        DropStale(victim, slot, s);
        return Retry;
      }
      var pa := procs[f.proc.value].pt.value.leaf[f.vpn].pa;
      WriteOut(victim, f.proc.value, f.vpn, slot, s);
      Kfree(pa);
      return Evicted;
    }

    method EvictOneUserFrame() returns (ok: bool)
      requires Valid()
      modifies Footprint()
      ensures Valid() && (Snap(), ok) == Evict(old(Snap()))
    {
      hide EvictAttempt;
      for attempts := 0 to MAX_FRAMES
        invariant Valid() && EvictFrom(Snap(), attempts) == Evict(old(Snap()))
      {
        var o := TryEvict();
        if o == Failed {
          return false;
        }
        if o == Evicted {
          return true;
        }
      }
      return false;
    }

    /** One attempt of kalloc_user: an answer, or one more attempt. */
    method TryKallocUser(p: Pid, v: nat, ghost attempt: nat) returns (r: Option<Pa>, again: bool)
      requires Valid() && attempt < 2
      modifies Footprint()
      ensures Valid()
      ensures KallocUserFrom(old(Snap()), p, v, attempt)
           == if again then KallocUserFrom(Snap(), p, v, attempt + 1) else (Snap(), r)
    {
      hide Evict;
      r, again := None, false;
      var slot := HasFreeFrameSlot();
      if userFrameCount >= MAX_FRAMES || !slot {
        var ok := EvictOneUserFrame();
        if !ok {
          return;
        }
      }
      if freelist == [] {
        if userFrameCount > 0 {
          again := EvictOneUserFrame();
        }
        return;
      }
      r := ClaimPage(p, v);
      if r.None? {
        again := EvictOneUserFrame();
      }
    }

    /** Take a zeroed page and a frame for it; without a frame the page goes back. */
    method ClaimPage(p: Pid, v: nat) returns (r: Option<Pa>)
      requires Valid() && freelist != []
      modifies this`freelist, this`userFrameCount, mem, frameTable
      ensures Valid()
      ensures var s := Pop(old(Snap()), ZERO_PAGE);
              var i := FirstUnused(s.frames, 0);
              if i != -1 then r == Some(Top(old(Snap()))) && Snap() == Register(s, i, p, v)
              else r == None && Snap() == Push(s, Top(old(Snap())))
    {
      var pa := freelist[|freelist| - 1];
      TakePage(ZERO_PAGE);
      var registered := RegisterUserFrame(p, v);
      if registered {
        return Some(pa);
      }
      Kfree(pa);
      return None;
    }

    /** Take the head of the free list and fill it. */
    method TakePage(fill: Page)
      requires Valid() && freelist != []
      modifies this`freelist, mem
      ensures Valid() && Snap() == Pop(old(Snap()), fill)
    {
      var pa := freelist[|freelist| - 1];
      freelist := freelist[..|freelist| - 1];
      mem[pa] := fill;
    }

    method KallocUser(p: Pid, v: nat) returns (r: Option<Pa>)
      requires Valid()
      modifies Footprint()
      ensures Valid() && (Snap(), r) == Eviction.KallocUser(old(Snap()), p, v)
    {
      hide Evict;
      for attempts := 0 to 2
        invariant Valid() && KallocUserFrom(Snap(), p, v, attempts) == Eviction.KallocUser(old(Snap()), p, v)
      {
        var again;
        r, again := TryKallocUser(p, v, attempts);
        if !again {
          return;
        }
      }
      return None;
    }

    method FreeUserFrame(p: Pid, v: nat, pa: Pa)
      requires Valid()
      modifies this, frameTable, mem
      ensures Valid() && Snap() == Fault.FreeUserFrame(old(Snap()), p, v, pa)
    {
      DropFrameOf(Some(p), v);
      Kfree(pa);
    }

    /** The loop shared by free_user_frame and uvmunmap: drop the first tracked frame of (p, v). */
    method DropFrameOf(p: Option<Pid>, v: nat)
      requires Valid()
      modifies this`userFrameCount, frameTable
      ensures Valid() && Snap() == ClearFrame(old(Snap()), p, v)
    {
      for i := 0 to MAX_FRAMES
        invariant Snap() == old(Snap())
        invariant FirstHolding(frameTable[..], p, v, 0) == FirstHolding(frameTable[..], p, v, i)
      {
        if frameTable[i].used && frameTable[i].userFrame && frameTable[i].proc == p && frameTable[i].vpn == v {
          frameTable[i] := NO_FRAME;
          DecrementCount();
          return;
        }
      }
    }

    // ----- vm.c: walking, mapping, faulting -----

    /** A zeroed page for a page table. */
    method TablePage() returns (r: Option<Pa>)
      requires Valid()
      modifies this`freelist, mem
      ensures Valid()
      ensures var (s1, r1) := Paging.Kalloc(old(Snap()));
              r == r1 && Snap() == if r.None? then s1 else s1.(mem := s1.mem[r.value := ZERO_PAGE])
    {
      r := Kalloc();
      if r.Some? {
        mem[r.value] := ZERO_PAGE;
      }
    }

    method WalkAlloc(p: Pid, v: nat) returns (ok: bool)
      requires Valid() && Live(Snap(), p)
      modifies this`freelist, mem, procs
      ensures Valid() && Live(Snap(), p) && (Snap(), ok) == Walk(old(Snap()), p, v)
    {
      ghost var s := Snap();
      var pt := procs[p].pt.value;
      if v / 262144 !in pt.mids {
        var r := TablePage();
        if r.None? {
          return false;
        }
        procs[p] := procs[p].(pt := Some(pt.(mids := pt.mids[v / 262144 := r.value])));
      }
      assert (Snap(), true) == EnsureMid(s, p, v / 262144);
      pt := procs[p].pt.value;
      if v / 512 !in pt.lows {
        var r := TablePage();
        if r.None? {
          return false;
        }
        procs[p] := procs[p].(pt := Some(pt.(lows := pt.lows[v / 512 := r.value])));
      }
      return true;
    }

    method MapPage(p: Pid, v: nat, e: Pte) returns (ok: bool)
      requires Valid() && Live(Snap(), p) && !Mapped(Snap(), p, v)
      modifies this`freelist, mem, procs
      ensures Valid() && Live(Snap(), p) && (Snap(), ok) == Fault.MapPage(old(Snap()), p, v, e)
    {
      hide Walk;
      ok := WalkAlloc(p, v);
      if ok {
        var pt := procs[p].pt.value;
        procs[p] := procs[p].(pt := Some(pt.(leaf := pt.leaf[v := e])));
      }
    }

    method FindSwapEntry(p: Pid, v: nat) returns (k: int)
      requires Valid()
      ensures k == FindSwap(swapMap[..], p, v, 0)
    {
      for i := 0 to MAX_SWAP_PAGES
        invariant FindSwap(swapMap[..], p, v, 0) == FindSwap(swapMap[..], p, v, i)
      {
        if swapMap[i].used && swapMap[i].proc == Some(p) && swapMap[i].vpn == v {
          return i;
        }
      }
      return -1;
    }

    method SetRefBit(p: Pid, v: nat)
      requires Valid()
      modifies frameTable
      ensures Valid() && Snap() == SetRef(old(Snap()), p, v)
    {
      for i := 0 to MAX_FRAMES
        invariant frameTable[..] == old(frameTable[..])
        invariant FirstUsedBy(frameTable[..], p, v, 0) == FirstUsedBy(frameTable[..], p, v, i)
      {
        if frameTable[i].used && frameTable[i].proc == Some(p) && frameTable[i].vpn == v {
          frameTable[i] := frameTable[i].(refBit := true);
          return;
        }
      }
    }

    method ReleaseEntry(k: nat, slot: nat)
      requires Valid() && k < MAX_SWAP_PAGES && slot < MAX_SWAP_PAGES
      modifies swapUsed, swapMap
      ensures Valid() && Snap() == DropSwap(old(Snap()), k, slot)
    {
      swapUsed[slot] := false;
      swapMap[k] := NO_ENTRY;
    }

    /** From the allocated page on: fill it, map it or roll back, and release the swap slot. */
    method BringIn(p: Pid, v: nat, pa: Pa, k: int, slot: int) returns (r: Option<Pa>)
      requires Valid() && Live(Snap(), p) && !Mapped(Snap(), p, v)
      requires k != -1 ==> 0 <= k < MAX_SWAP_PAGES && 0 <= slot < MAX_SWAP_PAGES
      modifies Footprint()
      ensures Valid() && (Snap(), r) == PageIn(old(Snap()), p, v, pa, k, slot)
    {
      hide Fault.MapPage, R.ReadPage, Fault.FreeUserFrame, SetRef;
      ghost var s := Snap();
      if k == -1 {
        mem[pa] := ZERO_PAGE;
      } else {
        ReadSlot(slot, pa);
      }
      assert Snap() == s.(mem := s.mem[pa := if k == -1 then ZERO_PAGE else R.ReadPage(s.conf, s.disk, slot)]);
      var ok := MapPage(p, v, Pte(pa, RWU));
      if !ok {
        FreeUserFrame(p, v, pa);
        return None;
      }
      SetRefBit(p, v);
      if k != -1 {
        ReleaseEntry(k, slot);
      }
      return Some(pa);
    }

    method VmFault(p: Pid, va: nat) returns (r: Option<Pa>)
      requires Valid() && Live(Snap(), p)
      modifies Footprint()
      ensures Valid() && (Snap(), r) == Fault.VmFault(old(Snap()), p, va)
      ensures Inv(old(Snap())) ==> Inv(Snap()) && FaultDone(old(Snap()), p, va / 4096, Snap(), r)
      ensures Inv(old(Snap())) ==> (r.Some? <==> FaultPossible(old(Snap()), p, va))
    {
      hide KallocUserFrom, PageIn, Inv, FaultDone, FaultPossible;
      if Inv(Snap()) { FaultCorrect(Snap(), p, va); }
      if va >= procs[p].sz {
        return None;
      }
      var v := va / 4096;
      var leaf := procs[p].pt.value.leaf;
      if v in leaf {
        SetRefBit(p, v);
        return if v < MAX_VPN && leaf[v].perm.u then Some(leaf[v].pa) else None;
      }
      ghost var s := Snap();
      var k := FindSwapEntry(p, v);
      var slot := if k == -1 then -1 else swapMap[k].slot;
      KallocUserKeepsUnmapped(s, p, v, p, v, 0);
      var pa := KallocUser(p, v);
      if pa.None? {
        return None;
      }
      r := BringIn(p, v, pa.value, k, slot);
    }

    // ----- vm.c: unmapping, growing, copying address spaces -----

    method UnmapOne(p: Pid, owner: Option<Pid>, v: nat)
      requires Valid() && Live(Snap(), p)
      modifies Footprint()
      ensures Valid() && Live(Snap(), p) && Snap() == UnmapPage(old(Snap()), p, owner, v)
    {
      hide ClearFrame;
      if owner.Some? {
        var k := FindSwapEntry(owner.value, v);
        if k != -1 {
          ReleaseEntry(k, swapMap[k].slot);
        }
      }
      var pt := procs[p].pt.value;
      if v in pt.leaf {
        DropFrameOf(owner, v);
        Kfree(pt.leaf[v].pa);
        procs[p] := procs[p].(pt := Some(pt.(leaf := pt.leaf - {v})));
      }
    }

    /** uvmunmap with do_free; the clean-up of swap slots and frames is suppressed unless the table is the
        running process's own. */
    method UvmUnmap(current: Option<Pid>, p: Pid, v: nat, npages: nat)
      requires Valid() && Live(Snap(), p)
      modifies Footprint()
      ensures Valid() && Live(Snap(), p)
      ensures Snap() == UnmapRange(old(Snap()), p, if current == Some(p) then current else None, v, npages)
    {
      hide UnmapPage;
      var owner := if current == Some(p) then current else None;
      var a := v;
      while a < v + npages
        invariant v <= a <= v + npages && Valid() && Live(Snap(), p)
        invariant UnmapRange(Snap(), p, owner, a, v + npages - a) == UnmapRange(old(Snap()), p, owner, v, npages)
      {
        UnmapOne(p, owner, a);
        a := a + 1;
      }
    }

    /** kalloc, fill, mappages, and kfree if that fails. */
    method PlacePage(p: Pid, v: nat, x: Page, perm: Perm) returns (ok: bool)
      requires Valid() && Live(Snap(), p) && !Mapped(Snap(), p, v)
      modifies this`freelist, mem, procs
      ensures Valid() && Live(Snap(), p) && (Snap(), ok) == PlaceFresh(old(Snap()), p, v, x, perm)
    {
      hide Fault.MapPage;
      var r := Kalloc();
      if r.None? {
        return false;
      }
      mem[r.value] := x;
      ok := MapPage(p, v, Pte(r.value, perm));
      if !ok {
        Kfree(r.value);
      }
    }

    /** uvmalloc by the running process p, from page `start` up to page n. */
    method UvmAlloc(p: Pid, start: nat, n: nat) returns (ok: bool)
      requires Valid() && Live(Snap(), p) && Unmapped(procs[..], p, start, n)
      modifies Footprint()
      ensures Valid() && Live(Snap(), p) && (Snap(), ok) == GrowFrom(old(Snap()), p, start, start, n)
    {
      hide PlaceFresh, UnmapRange;
      var a := start;
      while a < n
        invariant start <= a && Valid() && Live(Snap(), p) && Unmapped(procs[..], p, a, n)
        invariant GrowFrom(Snap(), p, start, a, n) == GrowFrom(old(Snap()), p, start, start, n)
      {
        PlaceFreshOnly(Snap(), p, a, ZERO_PAGE, RWU);
        ok := PlacePage(p, a, ZERO_PAGE, RWU);
        if !ok {
          UvmUnmap(Some(p), p, start, a - start);
          return;
        }
        a := a + 1;
      }
      return true;
    }

    method GrowProc(p: Pid, n: nat) returns (ok: bool)
      requires Valid() && Live(Snap(), p)
      requires Unmapped(procs[..], p, PagesFor(procs[p].sz), PagesFor(procs[p].sz + n))
      modifies Footprint()
      ensures Valid() && (Snap(), ok) == Grow(old(Snap()), p, n)
    {
      hide GrowFrom;
      var sz := procs[p].sz;
      if sz + n > TRAPFRAME {
        return false;
      }
      ok := UvmAlloc(p, PagesFor(sz), PagesFor(sz + n));
      if ok {
        procs[p] := procs[p].(sz := sz + n);
      }
    }

    method ShrinkProc(p: Pid, n: nat)
      requires Valid() && Live(Snap(), p)
      modifies Footprint()
      ensures Valid() && Snap() == Shrink(old(Snap()), p, n)
    {
      hide UnmapRange;
      var sz := procs[p].sz;
      if n > sz {
        return;
      }
      UvmUnmap(Some(p), p, PagesFor(sz - n), PagesFor(sz) - PagesFor(sz - n));
      procs[p] := procs[p].(sz := sz - n);
    }

    /** The swapped half of one uvmcopy iteration. */
    method CopySwap(child: Pid, v: nat, src: nat) returns (ok: bool)
      requires Valid() && src < MAX_SWAP_PAGES
      modifies Footprint()
      ensures Valid() && (Snap(), ok) == CopySwapped(old(Snap()), child, v, src)
    {
      hide R.ReadPage, StoreSwapped;
      var tmp := Kalloc();
      if tmp.None? {
        return false;
      }
      ReadSlot(src, tmp.value);
      ok := StoreCopy(child, v, tmp.value);
    }

    method StoreCopy(child: Pid, v: nat, tmp: Pa) returns (ok: bool)
      requires Valid()
      modifies Footprint()
      ensures Valid() && (Snap(), ok) == StoreSwapped(old(Snap()), child, v, tmp)
    {
      hide R.WritePage;
      var dst := ReserveSlot();
      if dst == -1 {
        Kfree(tmp);
        return false;
      }
      WriteSlot(dst, tmp);
      Kfree(tmp);
      ok := InsertEntry(child, v, dst);
      if !ok {
        FreeSlot(dst);
      }
    }

    method FreeSlot(slot: nat)
      requires Valid() && slot < MAX_SWAP_PAGES
      modifies swapUsed
      ensures Valid() && Snap() == old(Snap()).(swapUsed := old(swapUsed[..])[slot := false])
    {
      swapUsed[slot] := false;
    }

    method ReadSlot(slot: nat, pa: Pa)
      requires Valid() && slot < MAX_SWAP_PAGES
      modifies mem, swap.Scratch()
      ensures Valid()
      ensures Snap() == old(Snap()).(mem := old(mem[..])[pa := R.ReadPage(swap.Conf(), swap.blocks, slot)])
    {
      hide R.ReadPage;
      var x := swap.SwapDiskRead(slot);
      mem[pa] := x;
    }

    method WriteSlot(slot: nat, pa: Pa)
      requires Valid() && slot < MAX_SWAP_PAGES
      modifies swap`blocks, swap.Scratch()
      ensures Valid()
      ensures Snap() == old(Snap()).(disk := R.WritePage(swap.Conf(), old(swap.blocks), slot, mem[pa]))
    {
      hide R.WritePage;
      swap.SwapDiskWrite(slot, mem[pa]);
    }

    /** Enter (p, v) in the first unused swap entry. */
    method InsertEntry(p: Pid, v: nat, slot: nat) returns (inserted: bool)
      requires Valid() && slot < MAX_SWAP_PAGES
      modifies swapMap
      ensures Valid()
      ensures var e := FirstFreeEntry(old(swapMap[..]), 0);
              inserted == (e != -1)
              && Snap() == if e == -1 then old(Snap())
                           else old(Snap()).(swapMap := old(swapMap[..])[e := SwapEntry(true, Some(p), v, slot)])
    {
      for i := 0 to MAX_SWAP_PAGES
        invariant swapMap[..] == old(swapMap[..])
        invariant FirstFreeEntry(swapMap[..], 0) == FirstFreeEntry(swapMap[..], i)
      {
        if !swapMap[i].used {
          swapMap[i] := SwapEntry(true, Some(p), v, slot);
          return true;
        }
      }
      return false;
    }

    method CopyOne(parent: Pid, child: Pid, v: nat) returns (ok: bool)
      requires Valid() && Live(Snap(), child) && !Mapped(Snap(), child, v)
      modifies Footprint()
      ensures Valid() && (Snap(), ok) == CopyPage(old(Snap()), parent, child, v)
    {
      hide Fault.MapPage, CopySwapped;
      if procs[parent].pt.Some? && v in procs[parent].pt.value.leaf {
        var e := procs[parent].pt.value.leaf[v];
        var r := Kalloc();
        if r.None? {
          return false;
        }
        mem[r.value] := mem[e.pa];
        ok := MapPage(child, v, Pte(r.value, e.perm));
        if !ok {
          Kfree(r.value);
        }
      } else {
        var k := FindSwapEntry(parent, v);
        if k == -1 {
          return true;
        }
        ok := CopySwap(child, v, swapMap[k].slot);
      }
    }

    /** uvmcopy by the running process `parent` of its n pages into `child`. */
    method UvmCopy(parent: Pid, child: Pid, n: nat) returns (ok: bool)
      requires Valid() && parent != child && Live(Snap(), child) && Unmapped(procs[..], child, 0, n)
      modifies Footprint()
      ensures Valid() && Live(Snap(), child) && (Snap(), ok) == UvmCopyFrom(old(Snap()), parent, child, 0, n)
    {
      hide CopyPage, UnmapRange;
      var i := 0;
      while i < n
        invariant i <= n && Valid() && Live(Snap(), child) && Unmapped(procs[..], child, i, n)
        invariant UvmCopyFrom(Snap(), parent, child, i, n) == UvmCopyFrom(old(Snap()), parent, child, 0, n)
      {
        CopyPageOnly(Snap(), parent, child, i);
        ok := CopyOne(parent, child, i);
        if !ok {
          UvmUnmap(Some(parent), child, 0, i);
          return;
        }
        i := i + 1;
      }
      return true;
    }

    // ----- proc.c -----

    method FreeProcSwapSlots(p: Pid)
      requires Valid()
      modifies this`userFrameCount, frameTable, swapUsed, swapMap
      ensures Valid() && Snap() == AddressSpace.FreeProcSwapSlots(old(Snap()), p)
    {
      ClearSwapLoop(p);
      ClearFrameLoop(p);
    }

    method ClearFrameLoop(p: Pid)
      requires Valid()
      modifies this`userFrameCount, frameTable
      ensures Valid() && Snap() == ClearFrames(old(Snap()), p, 0)
    {
      for i := 0 to MAX_FRAMES
        invariant Valid() && ClearFrames(Snap(), p, i) == ClearFrames(old(Snap()), p, 0)
      {
        if frameTable[i].used && frameTable[i].userFrame && frameTable[i].proc == Some(p) {
          frameTable[i] := NO_FRAME;
          DecrementCount();
        }
      }
    }

    method ClearSwapLoop(p: Pid)
      requires Valid()
      modifies swapUsed, swapMap
      ensures Valid() && Snap() == ClearSwaps(old(Snap()), p, 0)
    {
      for i := 0 to MAX_SWAP_PAGES
        invariant Valid() && ClearSwaps(Snap(), p, i) == ClearSwaps(old(Snap()), p, 0)
      {
        if swapMap[i].used && swapMap[i].proc == Some(p) {
          ReleaseEntry(i, swapMap[i].slot);
        }
      }
    }

    /** freewalk on the table pt, which has no leaves left. */
    method FreeTables(pt: PageTable)
      requires Valid()
      modifies this`freelist, mem
      ensures Valid() && Snap() == FreeWalk(old(Snap()), pt)
    {
      for i := 0 to 512
        invariant Valid() && FreeMids(Snap(), pt, i) == FreeMids(old(Snap()), pt, 0)
      {
        if i in pt.mids {
          FreeLevel0(pt, i);
          Kfree(pt.mids[i]);
        }
      }
      Kfree(pt.root);
    }

    method FreeLevel0(pt: PageTable, i: nat)
      requires Valid()
      modifies this`freelist, mem
      ensures Valid() && Snap() == FreeLows(old(Snap()), pt, i, 0)
    {
      hide Push;
      for j := 0 to 512
        invariant Valid() && FreeLows(Snap(), pt, i, j) == FreeLows(old(Snap()), pt, i, 0)
      {
        FreeIfPresent(pt.lows, i * 512 + j);
      }
    }

    method FreeIfPresent(tables: map<nat, Pa>, k: nat)
      requires Valid()
      modifies this`freelist, mem
      ensures Valid() && Snap() == if k in tables then Push(old(Snap()), tables[k]) else old(Snap())
    {
      if k in tables {
        Kfree(tables[k]);
      }
    }

    method DropTrapframe(p: Pid)
      requires Valid()
      modifies this`freelist, mem, procs
      ensures Valid() && Snap() == FreeTrapframe(old(Snap()), p)
    {
      var tf := procs[p].trapframe;
      if tf.Some? {
        Kfree(tf.value);
        procs[p] := procs[p].(trapframe := None);
      }
    }

    /** freeproc, called by another process: a parent in wait or in a fork that failed. */
    method FreeProc(current: Pid, p: Pid)
      requires Valid() && Live(Snap(), p) && current != p
      modifies Footprint()
      ensures Valid() && Snap() == Processes.FreeProc(old(Snap()), p)
    {
      hide FreeTrapframe, AddressSpace.FreeProcSwapSlots, UnmapRange, FreeWalk;
      ghost var s := Snap();
      var sz := procs[p].sz;
      DropTrapframe(p);
      FreeProcSwapSlots(p);
      assert Snap() == Strip(s, p);
      UvmUnmap(Some(current), p, 0, PagesFor(sz));
      FreeTables(procs[p].pt.value);
      procs[p] := NO_PROC.(level := procs[p].level);
    }

    method AbandonProc(c: Pid)
      requires Valid() && Live(Snap(), c)
      modifies this`freelist, mem, procs
      ensures Valid() && Snap() == GiveUp(old(Snap()), c)
    {
      hide FreeWalk;
      FreeTables(procs[c].pt.value);
      procs[c] := procs[c].(pt := None, sz := 0);
      DropTrapframe(c);
    }

    method AllocProc(c: Pid) returns (ok: bool)
      requires Valid() && procs[c].pt.None?
      modifies this`freelist, mem, procs
      ensures Valid() && (Snap(), ok) == Processes.AllocProc(old(Snap()), c)
    {
      hide Walk, GiveUp, FreeTrapframe;
      var tf := Kalloc();
      if tf.None? {
        return false;
      }
      procs[c] := procs[c].(trapframe := tf);
      ghost var s2 := Snap();
      var root := TablePage();
      if root.None? {
        DropTrapframe(c);
        return false;
      }
      procs[c] := procs[c].(pt := Some(PageTable(root.value, map[], map[], map[])));
      assert Snap() == WithRoot(s2, c);
      ok := MapTop(c);
    }

    /** proc_pagetable past the root: the tables for trampoline and trapframe, or all is given up. */
    method MapTop(c: Pid) returns (ok: bool)
      requires Valid() && Live(Snap(), c)
      modifies this`freelist, mem, procs
      ensures Valid() && (Snap(), ok) == WithTop(old(Snap()), c)
    {
      hide Walk, GiveUp;
      ok := WalkAlloc(c, MAX_VPN - 1);
      if ok {
        ok := WalkAlloc(c, TRAPFRAME_VPN);
      }
      if !ok {
        AbandonProc(c);
        return;
      }
      procs[c] := procs[c].(level := 0);
    }

    /** The memory half of kfork: the child's process slot and address space, or nothing at all. */
    method KFork(parent: Pid) returns (r: Option<Pid>)
      requires Valid() && Live(Snap(), parent)
      modifies Footprint()
      ensures Valid() && (Snap(), r) == Fork.KFork(old(Snap()), parent)
      ensures Inv(old(Snap())) ==> Inv(Snap()) && Forked(old(Snap()), parent, Snap(), r)
    {
      hide Processes.AllocProc, UvmCopyFrom, Processes.FreeProc, Inv, Forked;
      if Inv(Snap()) { ForkCorrect(Snap(), parent); }
      var c := 0;
      while c < NPROC && procs[c].pt.Some?
        invariant c <= NPROC && Snap() == old(Snap()) && Valid()
        invariant FirstUnusedProc(procs[..], 0) == FirstUnusedProc(procs[..], c)
      {
        c := c + 1;
      }
      if c == NPROC {
        return None;
      }
      var sz := procs[parent].sz;
      AllocProcOnly(Snap(), c);
      var ok := AllocProc(c);
      if !ok {
        return None;
      }
      ok := UvmCopy(parent, c, PagesFor(sz));
      if !ok {
        FreeProc(parent, c);
        return None;
      }
      procs[c] := procs[c].(sz := sz);
      return Some(c);
    }

    // ----- copyout and copyin -----

    method TouchPage(p: Pid, v: nat) returns (pa: Option<Pa>)
      requires Valid() && Live(Snap(), p)
      modifies Footprint()
      ensures Valid() && Live(Snap(), p) && (Snap(), pa) == Touch(old(Snap()), p, v)
    {
      hide Fault.VmFault;
      TouchWf(Snap(), p, v);
      var leaf := procs[p].pt.value.leaf;
      if v < MAX_VPN && v in leaf && leaf[v].perm.u {
        return Some(leaf[v].pa);
      }
      pa := VmFault(p, v * 4096);
    }

    /** One iteration of copyout: n bytes of src go to the page of dstva, or the copy fails. */
    method CopyChunkOut(p: Pid, dstva: nat, src: seq<bv8>) returns (n: nat, ok: bool)
      requires Valid() && Live(Snap(), p) && src != []
      modifies Footprint()
      ensures Valid() && Live(Snap(), p) && n <= |src| && (ok ==> n > 0)
      ensures var goal := UserCopy.CopyOut(old(Snap()), p, dstva, src);
              if ok then
                var rest := UserCopy.CopyOut(Snap(), p, (dstva / 4096 + 1) * 4096, src[n..]);
                goal == Out(rest.state, n + rest.written, rest.ok)
              else goal == Out(Snap(), 0, false)
    {
      hide Touch, Splice;
      var v := dstva / 4096;
      if v >= MAX_VPN {
        return 0, false;
      }
      TouchWf(Snap(), p, v);
      var pa := TouchPage(p, v);
      if pa.None? {
        return 0, false;
      }
      var leaf := procs[p].pt.value.leaf;
      if v !in leaf || !leaf[v].perm.w {
        return 0, false;
      }
      n := Chunk(dstva, |src|);
      mem[pa.value] := Splice(mem[pa.value], dstva % 4096, src[..n]);
      return n, true;
    }

    method CopyOut(p: Pid, dst: nat, src: seq<bv8>) returns (written: nat, ok: bool)
      requires Valid() && Live(Snap(), p)
      modifies Footprint()
      ensures Valid() && Out(Snap(), written, ok) == UserCopy.CopyOut(old(Snap()), p, dst, src)
      ensures Inv(old(Snap())) ==> Inv(Snap()) && written <= |src| && (ok ==> written == |src|)
      ensures Inv(old(Snap())) ==> Stored(old(Snap()), Snap(), p, dst, src[..written])
      ensures Inv(old(Snap())) ==> OutLimits(old(Snap()), p, dst, src, written, ok)
    {
      hide UserCopy.CopyOut, Inv, Stored, Conserves, OutLimits;
      if Inv(Snap()) {
        CopyOutCorrect(Snap(), p, dst, src);
        CopyOutLimits(Snap(), p, dst, src);
      }
      var dstva: nat := dst;
      written := 0;
      ghost var goal := UserCopy.CopyOut(old(Snap()), p, dst, src);
      assert src[0..] == src;
      while written < |src|
        invariant written <= |src| && Valid() && Live(Snap(), p)
        invariant var rest := UserCopy.CopyOut(Snap(), p, dstva, src[written..]);
                  goal == Out(rest.state, written + rest.written, rest.ok)
        decreases |src| - written
      {
        var n;
        ghost var here := src[written..];
        n, ok := CopyChunkOut(p, dstva, src[written..]);
        if !ok {
          return;
        }
        assert here[n..] == src[written + n..];
        written := written + n;
        dstva := (dstva / 4096 + 1) * 4096;
      }
      EmptyOut(Snap(), p, dstva);
      return written, true;
    }

    /** One iteration of copyin. */
    method CopyChunkIn(p: Pid, a: nat, left: nat) returns (chunk: seq<bv8>, ok: bool)
      requires Valid() && Live(Snap(), p) && left > 0
      modifies Footprint()
      ensures Valid() && Live(Snap(), p) && |chunk| <= left && (ok ==> |chunk| > 0)
      ensures var goal := UserCopy.CopyIn(old(Snap()), p, a, left);
              if ok then
                var rest := UserCopy.CopyIn(Snap(), p, (a / 4096 + 1) * 4096, left - |chunk|);
                goal == In(rest.state, chunk + rest.bytes, rest.ok)
              else goal == In(Snap(), [], false)
    {
      hide Touch;
      var v := a / 4096;
      TouchWf(Snap(), p, v);
      var pa := TouchPage(p, v);
      if pa.None? {
        return [], false;
      }
      var n := Chunk(a, left);
      return mem[pa.value][a % 4096..a % 4096 + n], true;
    }

    method CopyIn(p: Pid, srcva: nat, len: nat) returns (dst: seq<bv8>, ok: bool)
      requires Valid() && Live(Snap(), p)
      modifies Footprint()
      ensures Valid() && In(Snap(), dst, ok) == UserCopy.CopyIn(old(Snap()), p, srcva, len)
      ensures Inv(old(Snap())) ==> Inv(Snap()) && SameView(old(Snap()), Snap()) && (ok ==> |dst| == len)
      ensures Inv(old(Snap())) ==> dst == BytesAt(old(Snap()), p, srcva, |dst|)
      ensures Inv(old(Snap())) ==> InLimits(old(Snap()), p, srcva, len, |dst|, ok)
    {
      hide UserCopy.CopyIn, Inv, SameView, Conserves, BytesAt, InLimits;
      if Inv(Snap()) {
        CopyInCorrect(Snap(), p, srcva, len);
        CopyInLimits(Snap(), p, srcva, len);
      }
      var a: nat := srcva;
      var left: nat := len;
      dst := [];
      ghost var goal := UserCopy.CopyIn(Snap(), p, srcva, len);
      assert goal.bytes == [] + goal.bytes;
      while left > 0
        invariant Valid() && Live(Snap(), p)
        invariant var rest := UserCopy.CopyIn(Snap(), p, a, left);
                  goal == In(rest.state, dst + rest.bytes, rest.ok)
        decreases left
      {
        var chunk;
        chunk, ok := CopyChunkIn(p, a, left);
        if !ok {
          assert dst + [] == dst;
          return;
        }
        ghost var rest := UserCopy.CopyIn(Snap(), p, (a / 4096 + 1) * 4096, left - |chunk|);
        assert dst + (chunk + rest.bytes) == dst + chunk + rest.bytes;
        dst := dst + chunk;
        left := left - |chunk|;
        a := (a / 4096 + 1) * 4096;
      }
      EmptyIn(Snap(), p, a);
      assert dst + [] == dst;
      return dst, true;
    }
  }
}
