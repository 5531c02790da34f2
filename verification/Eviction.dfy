/** Eviction of one user frame to swap and the allocation of user frames on top of it. */
module Eviction {
  import opened Options
  import opened Bytes
  import opened Frames
  import opened Paging
  import R = Raid

  function OwnerLevel(procs: seq<Proc>, f: Frame): int
    requires |procs| == NPROC
  {
    match f.proc
    case None => 0
    case Some(p) => procs[p].level
  }

  function Levels(s: State): (r: seq<int>)
    requires Wf(s)
    ensures |r| == MAX_FRAMES
  {
    seq(MAX_FRAMES, i requires 0 <= i < MAX_FRAMES => OwnerLevel(s.procs, s.frames[i]))
  }

  function Dec(n: nat): nat {
    if n > 0 then n - 1 else n
  }

  // ----- one attempt of evict_one_user_frame -----

  datatype Outcome = Evicted | Failed | Retry

  /** The state once the victim is chosen: only the hand and reference bits have moved. */
  function Chosen(s: State): State
    requires Wf(s)
  {
    var c := SelectVictim(s.frames, Levels(s), s.hand);
    s.(frames := c.frames, hand := c.hand)
  }

  function Victim(s: State): int
    requires Wf(s)
  {
    SelectVictim(s.frames, Levels(s), s.hand).victim
  }

  /** The frame points at no valid mapping: its process is gone or its entry was removed. */
  predicate Stale(s: State, f: Frame)
    requires Wf(s)
  {
    f.proc.None? || !Live(s, f.proc.value) || !Mapped(s, f.proc.value, f.vpn)
  }

  /** The victim's page goes to `slot` and its entry is cleared. */
  function WrittenOut(s: State, victim: nat, p: Pid, v: nat, slot: nat): State
    requires Wf(s) && victim < MAX_FRAMES && slot < MAX_SWAP_PAGES && Live(s, p) && Mapped(s, p, v)
  {
    s.(procs := ClearLeaf(s.procs, p, v),
       disk := R.WritePage(s.conf, s.disk, slot, s.mem[LeafOf(s.procs, p)[v].pa]),
       swapUsed := s.swapUsed[slot := true],
       swapMap := s.swapMap[slot := SwapEntry(true, Some(p), v, slot)],
       frames := s.frames[victim := NO_FRAME],
       count := Dec(s.count))
  }

  /** Then its page is freed. */
  function SwapOut(s: State, victim: nat, p: Pid, v: nat, slot: nat): State
    requires Wf(s) && victim < MAX_FRAMES && slot < MAX_SWAP_PAGES && Live(s, p) && Mapped(s, p, v)
  {
    Push(WrittenOut(s, victim, p, v, slot), LeafOf(s.procs, p)[v].pa)
  }

  function EvictAttempt(s0: State): (State, Outcome)
    requires Wf(s0)
  {
    SelectFrame(s0.frames, Levels(s0), s0.hand);
    var s := Chosen(s0);
    var victim := Victim(s0);
    if victim < 0 then (s, Failed)
    else
      var f := s.frames[victim];
      var slot := FirstFreeSlot(s.swapUsed, 0);
      if slot == -1 then
        (s.(frames := s.frames[victim := Frame(true, true, f.proc, f.vpn, true)]), Failed)
      else if Stale(s, f) then
        (s.(frames := s.frames[victim := NO_FRAME], count := Dec(s.count)), Retry)
      else (SwapOut(s, victim, f.proc.value, f.vpn, slot), Evicted)
  }

  lemma AttemptWf(s: State)
    requires Wf(s)
    ensures Wf(EvictAttempt(s).0)
  {
    SelectFrame(s.frames, Levels(s), s.hand);
  }

  function EvictFrom(s: State, attempts: nat): (State, bool)
    requires Wf(s)
    decreases |s.frames| - attempts
  {
    if attempts >= MAX_FRAMES then (s, false)
    else
      AttemptWf(s);
      var (s', o) := EvictAttempt(s);
      match o
      case Evicted => (s', true)
      case Failed => (s', false)
      case Retry => EvictFrom(s', attempts + 1)
  }

  function Evict(s: State): (State, bool)
    requires Wf(s)
  {
    EvictFrom(s, 0)
  }

  // ----- eviction under the invariant -----

  predicate HasTracked(s: State)
    requires Wf(s)
  {
    exists i :: 0 <= i < MAX_FRAMES && Tracked(s.frames[i])
  }

  predicate HasSlot(s: State)
    requires Wf(s)
  {
    exists i :: 0 <= i < MAX_SWAP_PAGES && !s.swapUsed[i]
  }

  predicate CanEvict(s: State)
    requires Wf(s)
  {
    HasTracked(s) && HasSlot(s)
  }

  /** Two tables alike up to reference bits satisfy the same frame invariants. */
  lemma RefsIrrelevant(s: State, fs: seq<Frame>, hand: nat, held: set<Pa>, pending: set<(Pid, nat)>)
    requires Core(s, held, pending) && hand < MAX_FRAMES && TableSize(fs)
    requires forall k :: 0 <= k < MAX_FRAMES ==> fs[k] == s.frames[k].(refBit := fs[k].refBit)
    requires forall k :: 0 <= k < MAX_FRAMES && !fs[k].used ==> !fs[k].refBit
    ensures Core(s.(frames := fs, hand := hand), held, pending)
  {
    NumUsedCongruent(s.frames, fs);
  }

  lemma ChosenCore(s: State, held: set<Pa>, pending: set<(Pid, nat)>)
    requires Core(s, held, pending)
    ensures Core(Chosen(s), held, pending)
    ensures -1 <= Victim(s) < MAX_FRAMES && (Victim(s) == -1 <==> !HasTracked(s))
    ensures Victim(s) != -1 ==> Tracked(Chosen(s).frames[Victim(s)])
  {
    SelectFrame(s.frames, Levels(s), s.hand);
    RefsIrrelevant(s, Chosen(s).frames, Chosen(s).hand, held, pending);
  }

  lemma SwapOutView(s: State, victim: nat, p: Pid, v: nat, slot: nat, q: Pid, w: nat)
    requires Core(s, {}, {}) && victim < MAX_FRAMES && slot < MAX_SWAP_PAGES && !s.swapUsed[slot]
    requires s.frames[victim].used && s.frames[victim].proc == Some(p) && s.frames[victim].vpn == v
    requires Mapped(s, p, v)
    ensures var s' := SwapOut(s, victim, p, v, slot);
            Wf(s') && M(s', q, w) == M(s, q, w) && Present(s', q, w) == Present(s, q, w)
  {
    hide Disjoint, TablesClosed, FramesUnique, FramesClean, R.WritePage, R.ReadPage;
    var s' := SwapOut(s, victim, p, v, slot);
    var pa := LeafOf(s.procs, p)[v].pa;
    var e := SwapEntry(true, Some(p), v, slot);
    if q == p && w == v {
      assert Matches(s'.swapMap[slot], p, v);
      SwapInsertUnique(s.swapMap, slot, p, v, slot);
      FindUnique(s'.swapMap, p, v, slot);
      R.WritePageReads(s.conf, s.disk, slot, s.mem[pa], slot);
    } else {
      if Mapped(s, q, w) {
        MappedApart(s, {}, p, v, q, w);
      }
      FindSwapElsewhere(s.swapMap, slot, e, q, w);
      var k := FindSwap(s.swapMap, q, w, 0);
      if k != -1 {
        R.WritePageReads(s.conf, s.disk, slot, s.mem[pa], k);
      }
    }
  }

  lemma MappedApart(s: State, held: set<Pa>, p: Pid, v: nat, q: Pid, w: nat)
    requires Wf(s) && Disjoint(s.free, s.procs, held) && Mapped(s, p, v) && Mapped(s, q, w)
    requires p != q || v != w
    ensures LeafOf(s.procs, p)[v].pa != LeafOf(s.procs, q)[w].pa
  {
    assert At(s.free, s.procs, LeafLoc(p, v)) == Some(LeafOf(s.procs, p)[v].pa);
    assert At(s.free, s.procs, LeafLoc(q, w)) == Some(LeafOf(s.procs, q)[w].pa);
  }

  lemma SwapInsertUnique(m: seq<SwapEntry>, k: nat, p: Pid, v: nat, slot: int)
    requires SwapUnique(m) && k < |m| && !m[k].used
    requires forall i :: 0 <= i < |m| ==> !Matches(m[i], p, v)
    ensures SwapUnique(m[k := SwapEntry(true, Some(p), v, slot)])
  {
  }

  /** A new entry for an unmapped page of a live process, at the index of a free slot. */
  lemma SwapInsert(used: seq<bool>, m: seq<SwapEntry>, procs: seq<Proc>, k: nat, p: Pid, v: nat)
    requires |procs| == NPROC && SwapTables(used, m) && SwapExclusive(m, procs) && k < MAX_SWAP_PAGES && !used[k]
    requires procs[p].pt.Some? && v !in LeafOf(procs, p)
    ensures SwapTables(used[k := true], m[k := SwapEntry(true, Some(p), v, k)])
    ensures SwapExclusive(m[k := SwapEntry(true, Some(p), v, k)], procs)
  {
  }

  lemma SwapOutCore(s: State, victim: nat, p: Pid, v: nat, slot: nat)
    requires Core(s, {}, {}) && victim < MAX_FRAMES && slot < MAX_SWAP_PAGES && !s.swapUsed[slot]
    requires s.frames[victim].used && s.frames[victim].proc == Some(p) && s.frames[victim].vpn == v
    requires Mapped(s, p, v)
    ensures Core(SwapOut(s, victim, p, v, slot), {}, {})
    ensures Conserves(s, {}, SwapOut(s, victim, p, v, slot), {})
    ensures SwapOut(s, victim, p, v, slot).count + 1 == s.count
  {
    NoSwapIfMapped(s, p, v);
    assert FramesMapped(s.frames, s.procs, {});
    hide Disjoint, Everything, FramesMapped, FramesUnique, FramesClean, NumUsed, TablesClosed, SwapUnique,
         SwapTables, SwapExclusive, M, R.WritePage;
    var fs := s.frames[victim := NO_FRAME];
    UnmapOwners(s, p, v);
    DropFrame(s.frames, s.procs, {}, victim);
    assert {} - {(p, v)} == {};
    OthersNotHere(s.frames, victim);
    UnmapFrames(fs, s.procs, p, v);
    UnmapTables(s.procs, p, v);
    UnmapSwap(s.swapMap, s.procs, p, v);
    UnusedEntry(s, slot);
    SwapInsertUnique(s.swapMap, slot, p, v, slot);
    SwapInsert(s.swapUsed, s.swapMap, ClearLeaf(s.procs, p, v), slot, p, v);
  }

  lemma UnusedEntry(s: State, slot: nat)
    requires SwapTables(s.swapUsed, s.swapMap) && slot < MAX_SWAP_PAGES && !s.swapUsed[slot]
    ensures !s.swapMap[slot].used
  {
  }

  lemma NoSwapIfMapped(s: State, p: Pid, v: nat)
    requires Wf(s) && SwapTables(s.swapUsed, s.swapMap) && SwapExclusive(s.swapMap, s.procs) && Mapped(s, p, v)
    ensures FindSwap(s.swapMap, p, v, 0) == -1
  {
  }

  lemma OthersNotHere(fs: seq<Frame>, i: nat)
    requires i < |fs| && fs[i].used && FramesUnique(fs)
    ensures var gs := fs[i := NO_FRAME];
            forall k :: 0 <= k < |gs| && gs[k].used ==> (gs[k].proc, gs[k].vpn) != (fs[i].proc, fs[i].vpn)
  {
  }

  /** Swap entries in use keep their place and their page, and no mapping appears. */
  ghost predicate SwapKept(s: State, s': State)
    requires Wf(s) && Wf(s')
  {
    && s'.conf == s.conf
    && (forall i :: 0 <= i < MAX_SWAP_PAGES && s.swapMap[i].used ==>
          s'.swapMap[i] == s.swapMap[i]
          && R.ReadPage(s.conf, s'.disk, s.swapMap[i].slot) == R.ReadPage(s.conf, s.disk, s.swapMap[i].slot))
    && (forall p: Pid :: LeafOf(s'.procs, p).Keys <= LeafOf(s.procs, p).Keys)
    && (forall p: Pid, v: nat :: Present(s', p, v) == Present(s, p, v))
    && SameShape(s, s')
  }

  /** Sizes, levels, trapframes and table pages of all processes are unchanged. */
  ghost predicate SameShape(s: State, s': State)
    requires Wf(s) && Wf(s')
  {
    forall p: Pid ::
      && s'.procs[p].sz == s.procs[p].sz && s'.procs[p].level == s.procs[p].level
      && s'.procs[p].trapframe == s.procs[p].trapframe && s'.procs[p].pt.Some? == s.procs[p].pt.Some?
      && (s.procs[p].pt.Some? ==> SameTables(s.procs[p].pt.value, s'.procs[p].pt.value))
  }

  predicate SameTables(t: PageTable, t': PageTable) {
    t'.root == t.root && t'.mids == t.mids && t'.lows == t.lows
  }

  /** Eviction under the invariant. It succeeds exactly when there is a tracked frame and a free swap
      slot, whether or not it succeeds no process sees a page change, a success frees one frame and one
      page, and no swap entry in use is disturbed. */
  lemma EvictCorrect(s: State)
    requires Core(s, {}, {})
    ensures var (s', ok) := Evict(s);
            && ok == CanEvict(s)
            && Core(s', {}, {}) && SameView(s, s') && SwapKept(s, s') && Conserves(s, {}, s', {})
            && s'.count == (if ok then s.count - 1 else s.count)
            && |s'.free| == (if ok then |s.free| + 1 else |s.free|)
  {
    AttemptCorrect(s);
    AttemptWf(s);
  }

  /** Under the invariant no frame is stale, so the first attempt decides. */
  lemma AttemptCorrect(s: State)
    requires Core(s, {}, {})
    ensures var (s', o) := EvictAttempt(s);
            && o == (if CanEvict(s) then Evicted else Failed)
            && Core(s', {}, {}) && SameView(s, s') && SwapKept(s, s') && Conserves(s, {}, s', {})
            && s'.count == (if CanEvict(s) then s.count - 1 else s.count)
            && |s'.free| == (if CanEvict(s) then |s.free| + 1 else |s.free|)
  {
    hide Disjoint, Everything, FramesUnique, FramesClean, NumUsed, TablesClosed, SwapUnique, SwapTables,
         SwapExclusive, R.ReadPage, SwapOut;
    ChosenCore(s, {}, {});
    var c := Chosen(s);
    var victim := Victim(s);
    var slot := FirstFreeSlot(s.swapUsed, 0);
    var (s', o) := EvictAttempt(s);
    if victim != -1 {
      var f := c.frames[victim];
      assert !Stale(c, f);
      if slot == -1 {
        CleanRef(c.frames, victim);
        RefsIrrelevant(c, s'.frames, c.hand, {}, {});
      } else {
        EvictedCorrect(c, victim, f.proc.value, f.vpn, slot);
      }
    }
  }

  lemma CleanRef(fs: seq<Frame>, victim: nat)
    requires FramesClean(fs) && victim < |fs|
    ensures forall k :: 0 <= k < |fs| && !fs[k].used ==> !fs[k].refBit
  {
  }

  lemma EvictedCorrect(s: State, victim: nat, p: Pid, v: nat, slot: nat)
    requires Core(s, {}, {}) && victim < MAX_FRAMES && slot < MAX_SWAP_PAGES && !s.swapUsed[slot]
    requires s.frames[victim].used && s.frames[victim].proc == Some(p) && s.frames[victim].vpn == v
    requires Mapped(s, p, v)
    ensures var s' := SwapOut(s, victim, p, v, slot);
            && Core(s', {}, {}) && SameView(s, s') && SwapKept(s, s') && Conserves(s, {}, s', {})
            && s'.count + 1 == s.count && |s'.free| == |s.free| + 1
  {
    hide M, Present, Everything, R.ReadPage, R.WritePage;
    var s' := SwapOut(s, victim, p, v, slot);
    SwapOutCore(s, victim, p, v, slot);
    forall q: Pid, w: nat
      ensures M(s', q, w) == M(s, q, w) && Present(s', q, w) == Present(s, q, w)
    {
      SwapOutView(s, victim, p, v, slot, q, w);
    }
    var pa := LeafOf(s.procs, p)[v].pa;
    forall i | 0 <= i < MAX_SWAP_PAGES && s.swapMap[i].used
      ensures R.ReadPage(s.conf, s'.disk, i) == R.ReadPage(s.conf, s.disk, i)
    {
      R.WritePageReads(s.conf, s.disk, slot, s.mem[pa], i);
    }
  }
  // ----- kalloc_user -----

  function Register(s: State, i: nat, p: Pid, v: nat): State
    requires Wf(s) && i < MAX_FRAMES
  {
    s.(frames := s.frames[i := Frame(true, true, Some(p), v, true)], count := s.count + 1)
  }

  lemma EvictWf(s: State, attempts: nat)
    requires Wf(s)
    ensures Wf(EvictFrom(s, attempts).0)
    decreases |s.frames| - attempts
  {
    if attempts < MAX_FRAMES {
      AttemptWf(s);
      var (s', o) := EvictAttempt(s);
      if o == Retry { EvictWf(s', attempts + 1); }
    }
  }

  function KallocUserFrom(s: State, p: Pid, v: nat, attempt: nat): (State, Option<Pa>)
    requires Wf(s)
    decreases 2 - attempt
  {
    if attempt >= 2 then (s, None)
    else
      EvictWf(s, 0);
      var needEvict := s.count >= MAX_FRAMES || FirstUnused(s.frames, 0) == -1;
      var (s1, ok1) := if needEvict then Evict(s) else (s, true);
      if !ok1 then (s1, None)
      else if s1.free == [] then
        if s1.count == 0 then (s1, None)
        else
          EvictWf(s1, 0);
          var (s2, ok2) := Evict(s1);
          if !ok2 then (s2, None) else KallocUserFrom(s2, p, v, attempt + 1)
      else
        var pa := Top(s1);
        var s2 := Pop(s1, ZERO_PAGE);
        var i := FirstUnused(s2.frames, 0);
        if i != -1 then (Register(s2, i, p, v), Some(pa))
        else
          var s3 := Push(s2, pa);
          EvictWf(s3, 0);
          var (s4, ok4) := Evict(s3);
          if !ok4 then (s4, None) else KallocUserFrom(s4, p, v, attempt + 1)
  }

  function KallocUser(s: State, p: Pid, v: nat): (State, Option<Pa>)
    requires Wf(s)
  {
    KallocUserFrom(s, p, v, 0)
  }

  lemma {:induction false} KallocUserWf(s: State, p: Pid, v: nat, attempt: nat)
    requires Wf(s)
    ensures Wf(KallocUserFrom(s, p, v, attempt).0)
    decreases 2 - attempt
  {
    if attempt < 2 {
      hide Evict;
      EvictWf(s, 0);
      var needEvict := s.count >= MAX_FRAMES || FirstUnused(s.frames, 0) == -1;
      var (s1, ok1) := if needEvict then Evict(s) else (s, true);
      assert Wf(s1);
      if ok1 && s1.free == [] && s1.count != 0 {
        EvictWf(s1, 0);
        KallocUserWf(Evict(s1).0, p, v, attempt + 1);
      } else if ok1 && s1.free != [] && FirstUnused(s1.frames, 0) == -1 {
        var s3 := Push(Pop(s1, ZERO_PAGE), Top(s1));
        EvictWf(s3, 0);
        KallocUserWf(Evict(s3).0, p, v, attempt + 1);
      }
    }
  }

  predicate HasFrameSlot(s: State)
    requires Wf(s)
  {
    exists i :: 0 <= i < MAX_FRAMES && !s.frames[i].used
  }

  predicate Ready(s: State)
    requires Wf(s)
  {
    HasFrameSlot(s) && s.free != []
  }

  /** A page taken from the free list and a frame registered for (p, v), on top of an intact state. */
  lemma RegisteredCore(s: State, p: Pid, v: nat, i: nat)
    requires Core(s, {}, {}) && s.free != [] && i < MAX_FRAMES && !s.frames[i].used && !Mapped(s, p, v)
    ensures var s' := Register(Pop(s, ZERO_PAGE), i, p, v);
            && Core(s', {Top(s)}, {(p, v)}) && SameView(s, s') && SwapKept(s, s') && Conserves(s, {}, s', {Top(s)})
            && |s'.free| == |s.free| - 1
            && s'.mem[Top(s)] == ZERO_PAGE && FirstUsedBy(s'.frames, p, v, 0) == i
            && s'.frames[i] == Frame(true, true, Some(p), v, true)
  {
    var s' := Register(Pop(s, ZERO_PAGE), i, p, v);
    PopDisjoint(s, {}, ZERO_PAGE);
    assert {} + {Top(s)} == {Top(s)};
    NumUsedUpdate(s.frames, i, Frame(true, true, Some(p), v, true));
    forall q: Pid, w: nat
      ensures M(s', q, w) == M(s, q, w)
    {
      if Mapped(s, q, w) {
        assert At(s.free, s.procs, LeafLoc(q, w)) == Some(LeafOf(s.procs, q)[w].pa);
        assert At(s.free, s.procs, FreeLoc(|s.free| - 1)) == Some(Top(s));
      }
    }
    assert UsedBy(s'.frames[i], p, v);
  }

  /** What kalloc_user leaves behind, given that (p, v) is not mapped. */
  ghost predicate Allocated(s: State, p: Pid, v: nat, s': State, r: Option<Pa>)
    requires Wf(s)
  {
    match r
    case None => Core(s', {}, {}) && SameView(s, s') && SwapKept(s, s') && Conserves(s, {}, s', {})
    case Some(pa) =>
      && Core(s', {pa}, {(p, v)}) && SameView(s, s') && SwapKept(s, s') && Conserves(s, {}, s', {pa})
      && s'.mem[pa] == ZERO_PAGE && FirstUsedBy(s'.frames, p, v, 0) != -1
      && s'.frames[FirstUsedBy(s'.frames, p, v, 0)] == Frame(true, true, Some(p), v, true)
  }

  lemma AllocatedCompose(s: State, s1: State, p: Pid, v: nat, s': State, r: Option<Pa>)
    requires Wf(s) && Wf(s1) && SameView(s, s1) && SwapKept(s, s1)
    requires Conserves(s, {}, s1, {}) && Allocated(s1, p, v, s', r)
    ensures Allocated(s, p, v, s', r)
  {
    hide M, Present, Everything, R.ReadPage;
    forall q: Pid
      ensures LeafOf(s'.procs, q).Keys <= LeafOf(s.procs, q).Keys
    {
      assert LeafOf(s'.procs, q).Keys <= LeafOf(s1.procs, q).Keys <= LeafOf(s.procs, q).Keys;
    }
  }

  /** The common tail: with a frame slot and a free page, the first attempt succeeds. */
  lemma KallocReady(s: State, p: Pid, v: nat, attempt: nat)
    requires Core(s, {}, {}) && attempt < 2 && s.free != [] && HasFrameSlot(s) && !Mapped(s, p, v)
    ensures var (s', r) := KallocUserFrom(s, p, v, attempt);
            r == Some(Top(s)) && Allocated(s, p, v, s', r) && |s'.free| == |s.free| - 1
  {
    hide M, Present, Everything, R.ReadPage, Evict, Disjoint;
    NumUsedBounds(s.frames);
    EvictWf(s, 0);
    RegisteredCore(s, p, v, FirstUnused(s.frames, 0));
  }

  /** No frame slot: an eviction first. */
  lemma KallocNoFrame(s: State, p: Pid, v: nat)
    requires Core(s, {}, {}) && !Mapped(s, p, v) && !HasFrameSlot(s)
    ensures var (s', r) := KallocUser(s, p, v);
            (r.None? <==> !CanEvict(s)) && Allocated(s, p, v, s', r) && (r.Some? ==> |s'.free| == |s.free|)
  {
    hide M, Present, Everything, R.ReadPage, EvictFrom, Disjoint, FramesMapped, FramesUnique, TablesClosed, SwapUnique,
         SwapExclusive, SwapTables, FramesClean;
    NumUsedBounds(s.frames);
    EvictWf(s, 0);
    EvictCorrect(s);
    var (s1, ok) := Evict(s);
    if ok {
      NumUsedBounds(s1.frames);
      KallocReady(s1, p, v, 0);
      AllocatedCompose(s, s1, p, v, KallocUserFrom(s1, p, v, 0).0, KallocUserFrom(s1, p, v, 0).1);
    }
  }

  /** A frame slot but no free page: an eviction, and a second attempt. */
  lemma KallocNoPage(s: State, p: Pid, v: nat)
    requires Core(s, {}, {}) && !Mapped(s, p, v) && HasFrameSlot(s) && s.free == []
    ensures var (s', r) := KallocUser(s, p, v);
            (r.None? <==> !CanEvict(s)) && Allocated(s, p, v, s', r) && (r.Some? ==> |s'.free| == |s.free|)
  {
    hide M, Present, Everything, R.ReadPage, EvictFrom, Disjoint, FramesMapped, FramesUnique, TablesClosed, SwapUnique,
         SwapExclusive, SwapTables, FramesClean;
    NumUsedBounds(s.frames);
    EvictWf(s, 0);
    EvictCorrect(s);
    var (s1, ok) := Evict(s);
    if ok {
      NumUsedBounds(s1.frames);
      KallocReady(s1, p, v, 1);
      AllocatedCompose(s, s1, p, v, KallocUserFrom(s1, p, v, 1).0, KallocUserFrom(s1, p, v, 1).1);
    }
  }

  /** kalloc_user under the invariant: whether it succeeds or not no process sees a page change; it
      fails exactly when a frame slot or a free page is missing and eviction cannot provide it. */
  lemma KallocUserCorrect(s: State, p: Pid, v: nat)
    requires Core(s, {}, {}) && !Mapped(s, p, v)
    ensures var (s', r) := KallocUser(s, p, v);
            && (r.None? <==> !Ready(s) && !CanEvict(s))
            && Allocated(s, p, v, s', r)
            && (r.Some? ==> |s'.free| == |s.free| - (if Ready(s) then 1 else 0))
  {
    hide Core, KallocUserFrom, Allocated, HasFrameSlot, CanEvict;
    CoreWf(s, {}, {});
    if !HasFrameSlot(s) {
      KallocNoFrame(s, p, v);
    } else if s.free == [] {
      KallocNoPage(s, p, v);
    } else {
      KallocReady(s, p, v, 0);
    }
  }
}
