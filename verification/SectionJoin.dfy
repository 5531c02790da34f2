/** The sections of FrameLock, run back to back by one process, are the atomic operations of the paging model. */
module SectionJoin {
  import opened Options
  import opened Bytes
  import opened Frames
  import opened Paging
  import E = Eviction
  import F = Fault
  import A = AddressSpace
  import Fork
  import L = FrameLock
  import R = Raid

  /** The tables under frame_lock, with no operation in flight. */
  function TablesOf(s: State): L.Tables {
    L.Tables(s.frames, s.hand, s.count, s.swapUsed, s.swapMap, map[])
  }

  lemma TablesSizes(s: State)
    requires Wf(s)
    ensures L.Sizes(TablesOf(s))
  {
  }

  /** The sections of an eviction that finds a victim and a slot: the choice, and its end. */
  function EvictSections(s: State, e: Pid): seq<L.Section>
    requires Wf(s)
  {
    var begin := L.EvictBegin(e, E.Levels(s));
    if E.Victim(s) < 0 || FirstFreeSlot(s.swapUsed, 0) == -1 then [begin]
    else if E.Victim(s) < MAX_FRAMES && E.Stale(s, s.frames[E.Victim(s)]) then [begin, L.EvictStale(e)]
    else [begin, L.EvictDone(e)]
  }

  /** One attempt of evict_one_user_frame. */
  lemma EvictJoin(s: State, e: Pid)
    requires Wf(s)
    ensures L.IsRun(TablesOf(s), EvictSections(s, e), TablesOf(E.EvictAttempt(s).0))
  {
    hide SelectVictim, R.WritePage, E.Levels;
    TablesSizes(s);
    SelectFrame(s.frames, E.Levels(s), s.hand);
    var t, cs := TablesOf(s), EvictSections(s, e);
    var t1 := L.Step(t, cs[0]);
    var victim, slot := E.Victim(s), FirstFreeSlot(s.swapUsed, 0);
    if victim >= 0 && slot != -1 {
      var f := E.Chosen(s).frames[victim];
      assert t1.holds == map[e := L.Evicting(victim, slot, f.proc, f.vpn)];
      assert E.Stale(E.Chosen(s), f) == E.Stale(s, s.frames[victim]);
      var t2 := L.Step(t1, cs[1]);
      assert t1.holds - {e} == map[];
      assert t2.frames == E.EvictAttempt(s).0.frames;
      assert t2.swapUsed == E.EvictAttempt(s).0.swapUsed;
      assert t2 == TablesOf(E.EvictAttempt(s).0);
      TwoSections(t, cs[0], t1, cs[1], t2);
      assert cs == [cs[0], cs[1]];
    } else {
      assert t1 == TablesOf(E.EvictAttempt(s).0);
      OneSection(t, cs[0], t1);
      assert cs == [cs[0]];
    }
  }

  /** If the write to swap fails the eviction is undone: the victim is a referenced frame of its owner again, the slot
      is free, and only the scan has left its mark. */
  lemma FailJoin(s: State, e: Pid)
    requires Wf(s) && 0 <= E.Victim(s) && FirstFreeSlot(s.swapUsed, 0) != -1
    ensures E.Victim(s) < MAX_FRAMES
    ensures var c, i := E.Chosen(s), E.Victim(s);
            && TableSize(c.frames)
            && L.IsRun(TablesOf(s), [L.EvictBegin(e, E.Levels(s)), L.EvictFail(e)],
                       TablesOf(s.(frames := c.frames[i := s.frames[i].(refBit := true)], hand := c.hand)))
  {
    hide SelectVictim, E.Levels;
    TablesSizes(s);
    SelectFrame(s.frames, E.Levels(s), s.hand);
    var t, begin := TablesOf(s), L.EvictBegin(e, E.Levels(s));
    var t1 := L.Step(t, begin);
    var i, c := E.Victim(s), E.Chosen(s);
    var t2 := L.Step(t1, L.EvictFail(e));
    assert t1.holds - {e} == map[];
    assert t2.swapUsed == s.swapUsed;
    assert t2.frames == c.frames[i := s.frames[i].(refBit := true)];
    TwoSections(t, begin, t1, L.EvictFail(e), t2);
  }

  lemma OneSection(t: L.Tables, c: L.Section, t1: L.Tables)
    requires L.Sizes(t) && L.Enabled(t, c) && t1 == L.Step(t, c) && L.Sizes(t1)
    ensures L.IsRun(t, [c], t1)
  {
    hide L.Step, L.Sizes, L.Enabled;
    assert [c][1..] == [];
  }

  lemma TwoSections(t: L.Tables, c: L.Section, t1: L.Tables, c': L.Section, t2: L.Tables)
    requires L.Sizes(t) && L.Enabled(t, c) && t1 == L.Step(t, c)
    requires L.Sizes(t1) && L.Enabled(t1, c') && t2 == L.Step(t1, c') && L.Sizes(t2)
    ensures L.IsRun(t, [c, c'], t2)
  {
    hide L.Step, L.Sizes, L.Enabled;
    OneSection(t1, c', t2);
    assert [c, c'][1..] == [c'];
  }

  /** register_user_frame. */
  lemma RegisterJoin(s: State, p: Pid, v: nat)
    requires Wf(s)
    ensures L.Sizes(TablesOf(s))
    ensures var i := FirstUnused(s.frames, 0);
            L.Step(TablesOf(s), L.Register(p, v)) == TablesOf(if i == -1 then s else E.Register(s, i, p, v))
  {
  }

  /** free_user_frame and uvmunmap drop a frame; vmfault marks one; uvmunmap releases a swap entry. */
  lemma ClearJoin(s: State, p: Option<Pid>, q: Pid, v: nat)
    requires Wf(s)
    ensures L.Sizes(TablesOf(s))
    ensures L.Step(TablesOf(s), L.FreeFrame(p, v)) == TablesOf(F.ClearFrame(s, p, v))
    ensures L.Step(TablesOf(s), L.MarkRef(q, v)) == TablesOf(F.SetRef(s, q, v))
    ensures L.Step(TablesOf(s), L.ReleaseSwap(q, v)) == TablesOf(A.ReleaseSwap(s, q, v))
  {
  }

  lemma {:induction false} EntriesJoin(s: State, p: Pid, i: nat)
    requires Wf(s) && i <= MAX_SWAP_PAGES
    ensures L.Sizes(TablesOf(s)) && L.DropEntries(TablesOf(s), p, i) == TablesOf(A.ClearSwaps(s, p, i))
    decreases |s.swapMap| - i
  {
    if i < MAX_SWAP_PAGES {
      var mine := s.swapMap[i].used && s.swapMap[i].proc == Some(p);
      EntriesJoin(if mine then F.DropSwap(s, i, s.swapMap[i].slot) else s, p, i + 1);
    }
  }

  lemma {:induction false} FramesJoin(s: State, p: Pid, i: nat)
    requires Wf(s) && i <= MAX_FRAMES
    ensures L.Sizes(TablesOf(s)) && L.DropFrames(TablesOf(s), p, i) == TablesOf(A.ClearFrames(s, p, i))
    decreases |s.frames| - i
  {
    if i < MAX_FRAMES {
      var mine := Tracked(s.frames[i]) && s.frames[i].proc == Some(p);
      FramesJoin(if mine then s.(frames := s.frames[i := NO_FRAME], count := E.Dec(s.count)) else s, p, i + 1);
    }
  }

  /** free_proc_swap_slots. */
  lemma FreeProcessJoin(s: State, p: Pid)
    requires Wf(s)
    ensures L.Sizes(TablesOf(s))
    ensures L.Step(TablesOf(s), L.FreeProcess(p)) == TablesOf(A.FreeProcSwapSlots(s, p))
  {
    hide A.ClearSwaps, A.ClearFrames, L.DropEntries, L.DropFrames;
    EntriesJoin(s, p, 0);
    FramesJoin(A.ClearSwaps(s, p, 0), p, 0);
  }

  /** uvmcopy of a page the parent has swapped out. */
  lemma ForkJoin(s: State, parent: Pid, child: Pid, v: nat)
    requires Wf(s) && FindSwap(s.swapMap, parent, v, 0) != -1 && s.free != []
    ensures var k := FindSwap(s.swapMap, parent, v, 0);
            var cs := if FirstFreeSlot(s.swapUsed, 0) == -1 then [L.ForkReserve(parent, v)]
                      else [L.ForkReserve(parent, v), L.ForkInsert(parent, child)];
            L.IsRun(TablesOf(s), cs, TablesOf(Fork.CopySwapped(s, child, v, s.swapMap[k].slot).0))
  {
    hide R.WritePage, R.ReadPage;
    TablesSizes(s);
    var t, dst := TablesOf(s), FirstFreeSlot(s.swapUsed, 0);
    var s' := Fork.CopySwapped(s, child, v, s.swapMap[FindSwap(s.swapMap, parent, v, 0)].slot).0;
    var t1 := L.Step(t, L.ForkReserve(parent, v));
    if dst == -1 {
      OneSection(t, L.ForkReserve(parent, v), t1);
    } else {
      var t2 := L.Step(t1, L.ForkInsert(parent, child));
      assert t1.holds - {parent} == map[];
      assert t2 == TablesOf(s');
      TwoSections(t, L.ForkReserve(parent, v), t1, L.ForkInsert(parent, child), t2);
    }
  }
}
