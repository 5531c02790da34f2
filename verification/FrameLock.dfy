/** The frame and swap tables under every interleaving of frame_lock sections. Each section is one step;
    between the sections of an eviction or of a fork any other section may run. */
module FrameLock {
  import opened Options
  import opened Frames
  import opened Paging
  import opened Eviction

  /** What a process carries from one of its sections to the next. */
  datatype Hold = Evicting(victim: nat, slot: nat, proc: Option<Pid>, vpn: nat) | Forking(slot: nat, v: nat)

  datatype Tables = Tables(frames: seq<Frame>, hand: nat, count: nat, swapUsed: seq<bool>, swapMap: seq<SwapEntry>,
                           holds: map<Pid, Hold>)

  /** One section of frame_lock. `levels` are the owners' levels at that moment. */
  datatype Section =
    | Register(p: Pid, v: nat)                       // register_user_frame
    | EvictBegin(e: Pid, levels: seq<int>)           // choose a victim, reserve a slot
    | EvictDone(e: Pid)                              // the page is on disk
    | EvictStale(e: Pid)                             // the victim had no mapping
    | EvictFail(e: Pid)                              // the write failed
    | FreeFrame(owner: Option<Pid>, v: nat)          // free_user_frame, uvmunmap
    | MarkRef(p: Pid, v: nat)                        // vmfault
    | ReleaseSwap(p: Pid, v: nat)                    // uvmunmap; the end of vmfault, for the entry it found
    | FreeProcess(p: Pid)                            // free_proc_swap_slots
    | ForkReserve(e: Pid, v: nat)                    // uvmcopy of a swapped page: destination slot
    | ForkInsert(e: Pid, child: Pid)                 // uvmcopy of a swapped page: map entry

  predicate Sizes(t: Tables) {
    && TableSize(t.frames) && t.hand < MAX_FRAMES
    && |t.swapUsed| == MAX_SWAP_PAGES && |t.swapMap| == MAX_SWAP_PAGES
    && (forall i :: 0 <= i < MAX_SWAP_PAGES && t.swapMap[i].used ==> 0 <= t.swapMap[i].slot < MAX_SWAP_PAGES)
    && (forall e :: e in t.holds ==> t.holds[e].slot < MAX_SWAP_PAGES)
    && (forall e :: e in t.holds && t.holds[e].Evicting? ==> t.holds[e].victim < MAX_FRAMES)
  }

  const LEAVING: Frame := Frame(true, false, None, 0, false)

  /** When a section can run: the second section of an eviction or fork follows its first, and a fork reserves a
      slot only for a page of its own that is swapped out. */
  predicate Enabled(t: Tables, c: Section) {
    match c
    case EvictBegin(e, levels) => e !in t.holds && |levels| == MAX_FRAMES
    case ForkReserve(e, v) => e !in t.holds && FindSwap(t.swapMap, e, v, 0) != -1
    case EvictDone(e) => e in t.holds && t.holds[e].Evicting?
    case EvictStale(e) => e in t.holds && t.holds[e].Evicting?
    case EvictFail(e) => e in t.holds && t.holds[e].Evicting?
    case ForkInsert(e, _) => e in t.holds && t.holds[e].Forking?
    case _ => true
  }

  function Begin(t: Tables, e: Pid, levels: seq<int>): Tables
    requires Sizes(t) && |levels| == MAX_FRAMES
  {
    SelectFrame(t.frames, levels, t.hand);
    var c := SelectVictim(t.frames, levels, t.hand);
    var t1 := t.(frames := c.frames, hand := c.hand);
    if c.victim < 0 then t1
    else
      var f := c.frames[c.victim];
      var slot := FirstFreeSlot(t.swapUsed, 0);
      if slot == -1 then t1.(frames := c.frames[c.victim := Frame(true, true, f.proc, f.vpn, true)])
      else t1.(frames := c.frames[c.victim := LEAVING], swapUsed := t.swapUsed[slot := true],
               holds := t.holds[e := Evicting(c.victim, slot, f.proc, f.vpn)])
  }

  function DropEntry(t: Tables, k: nat): Tables
    requires Sizes(t) && k < MAX_SWAP_PAGES && t.swapMap[k].used
  {
    t.(swapUsed := t.swapUsed[t.swapMap[k].slot := false], swapMap := t.swapMap[k := NO_ENTRY])
  }

  function DropFrames(t: Tables, p: Pid, i: nat): (r: Tables)
    requires Sizes(t) && i <= MAX_FRAMES
    ensures Sizes(r)
    decreases |t.frames| - i
  {
    if i == MAX_FRAMES then t
    else DropFrames(if Tracked(t.frames[i]) && t.frames[i].proc == Some(p)
                    then t.(frames := t.frames[i := NO_FRAME], count := Dec(t.count)) else t, p, i + 1)
  }

  function DropEntries(t: Tables, p: Pid, i: nat): (r: Tables)
    requires Sizes(t) && i <= MAX_SWAP_PAGES
    ensures Sizes(r)
    decreases |t.swapMap| - i
  {
    if i == MAX_SWAP_PAGES then t
    else DropEntries(if t.swapMap[i].used && t.swapMap[i].proc == Some(p) then DropEntry(t, i) else t, p, i + 1)
  }

  function Step(t: Tables, c: Section): Tables
    requires Sizes(t) && Enabled(t, c)
  {
    match c
    case Register(p, v) =>
      var i := FirstUnused(t.frames, 0);
      if i == -1 then t else t.(frames := t.frames[i := Frame(true, true, Some(p), v, true)], count := t.count + 1)
    case EvictBegin(e, levels) => Begin(t, e, levels)
    case EvictDone(e) =>
      var h := t.holds[e];
      t.(swapMap := t.swapMap[h.slot := SwapEntry(true, h.proc, h.vpn, h.slot)],
         frames := t.frames[h.victim := t.frames[h.victim].(used := false)], count := Dec(t.count),
         holds := t.holds - {e})
    case EvictStale(e) =>
      var h := t.holds[e];
      t.(swapUsed := t.swapUsed[h.slot := false],
         frames := t.frames[h.victim := NO_FRAME], count := Dec(t.count), holds := t.holds - {e})
    case EvictFail(e) =>
      var h := t.holds[e];
      t.(swapUsed := t.swapUsed[h.slot := false],
         frames := t.frames[h.victim := Frame(true, true, h.proc, h.vpn, true)], holds := t.holds - {e})
    case FreeFrame(p, v) =>
      var i := FirstHolding(t.frames, p, v, 0);
      if i == -1 then t else t.(frames := t.frames[i := NO_FRAME], count := Dec(t.count))
    case MarkRef(p, v) =>
      var i := FirstUsedBy(t.frames, p, v, 0);
      if i == -1 then t else t.(frames := t.frames[i := t.frames[i].(refBit := true)])
    case ReleaseSwap(p, v) =>
      var k := FindSwap(t.swapMap, p, v, 0);
      if k == -1 then t else DropEntry(t, k)
    case FreeProcess(p) => DropFrames(DropEntries(t, p, 0), p, 0)
    case ForkReserve(e, v) =>
      var slot := FirstFreeSlot(t.swapUsed, 0);
      if slot == -1 then t else t.(swapUsed := t.swapUsed[slot := true], holds := t.holds[e := Forking(slot, v)])
    case ForkInsert(e, child) =>
      var slot := t.holds[e].slot;
      var k := FirstFreeEntry(t.swapMap, 0);
      if k == -1 then t.(swapUsed := t.swapUsed[slot := false], holds := t.holds - {e})
      else t.(swapMap := t.swapMap[k := SwapEntry(true, Some(child), t.holds[e].v, slot)], holds := t.holds - {e})
  }

  // ----- frames -----

  /** A frame on its way out is marked as such and belongs to one evictor. */
  predicate Victims(fs: seq<Frame>, holds: map<Pid, Hold>) {
    && (forall e :: e in holds && holds[e].Evicting? ==>
          holds[e].victim < |fs| && fs[holds[e].victim] == LEAVING && holds[e].proc.Some?)
    && (forall e, f :: (e in holds && f in holds && holds[e].Evicting? && holds[f].Evicting?
                        && holds[e].victim == holds[f].victim) ==> e == f)
  }

  /** User frames in use have an owner. */
  predicate Owned(fs: seq<Frame>) {
    forall i :: 0 <= i < |fs| && Tracked(fs[i]) ==> fs[i].proc.Some?
  }

  /** The counter counts the entries in use, and evictions in flight own their victims. */
  predicate FramesSound(t: Tables) {
    Sizes(t) && t.count == NumUsed(t.frames) && Victims(t.frames, t.holds) && Owned(t.frames)
  }

  /** A change to a frame that is not on its way out is no concern of any eviction. */
  lemma VictimsElsewhere(fs: seq<Frame>, holds: map<Pid, Hold>, i: nat, f: Frame)
    requires Victims(fs, holds) && i < |fs| && (fs[i] != LEAVING || f == LEAVING)
    ensures Victims(fs[i := f], holds)
  {
  }

  lemma RefsSound(t: Tables, gs: seq<Frame>, hand: nat)
    requires FramesSound(t) && OnlyRefsCleared(t.frames, gs) && hand < MAX_FRAMES
    ensures FramesSound(t.(frames := gs, hand := hand))
    ensures forall e :: e in t.holds && t.holds[e].Evicting? ==> gs[t.holds[e].victim] == LEAVING
  {
    NumUsedCongruent(t.frames, gs);
    assert forall i :: 0 <= i < |gs| ==> Tracked(gs[i]) == Tracked(t.frames[i]);
  }

  lemma NewVictim(fs: seq<Frame>, holds: map<Pid, Hold>, e: Pid, h: Hold)
    requires Victims(fs, holds) && e !in holds && h.Evicting?
    requires h.victim < |fs| && Tracked(fs[h.victim]) && h.proc.Some?
    ensures Victims(fs[h.victim := LEAVING], holds[e := h])
  {
    VictimsElsewhere(fs, holds, h.victim, LEAVING);
    var hs := holds[e := h];
    forall f | f in hs && hs[f].Evicting? && f != e
      ensures hs[f].victim != h.victim
    {
      assert f in holds && fs[holds[f].victim] == LEAVING;
    }
  }

  lemma BeginSound(t: Tables, e: Pid, levels: seq<int>)
    requires FramesSound(t) && e !in t.holds && |levels| == MAX_FRAMES
    ensures FramesSound(Begin(t, e, levels))
    ensures forall f :: f in t.holds && t.holds[f].Evicting? ==>
              Begin(t, e, levels).frames[t.holds[f].victim] == LEAVING && f in Begin(t, e, levels).holds
              && Begin(t, e, levels).holds[f] == t.holds[f]
  {
    hide SelectVictim, NumUsed;
    SelectFrame(t.frames, levels, t.hand);
    var c := SelectVictim(t.frames, levels, t.hand);
    RefsSound(t, c.frames, c.hand);
    var slot := FirstFreeSlot(t.swapUsed, 0);
    if c.victim >= 0 {
      var f := c.frames[c.victim];
      if slot == -1 {
        var g := Frame(true, true, f.proc, f.vpn, true);
        VictimsElsewhere(c.frames, t.holds, c.victim, g);
        NumUsedUpdate(c.frames, c.victim, g);
      } else {
        NewVictim(c.frames, t.holds, e, Evicting(c.victim, slot, f.proc, f.vpn));
        NumUsedUpdate(c.frames, c.victim, LEAVING);
      }
    }
  }

  lemma {:induction false} DropFramesSound(t: Tables, p: Pid, i: nat)
    requires FramesSound(t) && i <= MAX_FRAMES
    ensures var r := DropFrames(t, p, i);
            FramesSound(r) && r.holds == t.holds && r.swapUsed == t.swapUsed && r.swapMap == t.swapMap
    decreases |t.frames| - i
  {
    if i < MAX_FRAMES {
      if Tracked(t.frames[i]) && t.frames[i].proc == Some(p) {
        NumUsedUpdate(t.frames, i, NO_FRAME);
        NumUsedBounds(t.frames);
        DropFramesSound(t.(frames := t.frames[i := NO_FRAME], count := Dec(t.count)), p, i + 1);
      } else {
        DropFramesSound(t, p, i + 1);
      }
    }
  }

  lemma {:induction false} DropEntriesFrames(t: Tables, p: Pid, i: nat)
    requires Sizes(t) && i <= MAX_SWAP_PAGES
    ensures var r := DropEntries(t, p, i);
            r.frames == t.frames && r.count == t.count && r.holds == t.holds && r.hand == t.hand
    decreases |t.swapMap| - i
  {
    if i < MAX_SWAP_PAGES {
      DropEntriesFrames(if t.swapMap[i].used && t.swapMap[i].proc == Some(p) then DropEntry(t, i) else t, p, i + 1);
    }
  }

  /** The process that runs a section, if the section belongs to an eviction or fork. */
  function Actor(c: Section): Option<Pid> {
    match c
    case EvictBegin(e, _) => Some(e)
    case EvictDone(e) => Some(e)
    case EvictStale(e) => Some(e)
    case EvictFail(e) => Some(e)
    case ForkReserve(e, _) => Some(e)
    case ForkInsert(e, _) => Some(e)
    case _ => None
  }

  lemma FrameSectionSound(t: Tables, c: Section)
    requires FramesSound(t) && Enabled(t, c) && (c.Register? || c.FreeFrame? || c.MarkRef?)
    ensures FramesSound(Step(t, c))
  {
    hide NumUsed, Victims, Owned;
    match c
    case Register(p, v) =>
      var i := FirstUnused(t.frames, 0);
      if i != -1 { FrameSet(t, i, Frame(true, true, Some(p), v, true)); }
    case FreeFrame(p, v) =>
      var i := FirstHolding(t.frames, p, v, 0);
      if i != -1 { FrameSet(t, i, NO_FRAME); }
    case MarkRef(p, v) =>
      var i := FirstUsedBy(t.frames, p, v, 0);
      if i != -1 {
        OwnedAt(t.frames, i);
        FrameSet(t, i, t.frames[i].(refBit := true));
      }
  }

  lemma OwnedAt(fs: seq<Frame>, i: nat)
    requires Owned(fs) && i < |fs|
    ensures Tracked(fs[i]) ==> fs[i].proc.Some?
  {
  }

  lemma EvictSectionSound(t: Tables, c: Section)
    requires FramesSound(t) && Enabled(t, c) && (c.EvictDone? || c.EvictStale? || c.EvictFail?)
    ensures FramesSound(Step(t, c))
  {
    hide NumUsed, Owned;
    match c
    case EvictDone(e) => EvictEndSound(t, e, LEAVING.(used := false), Step(t, c).swapUsed, Step(t, c).swapMap);
    case EvictStale(e) => EvictEndSound(t, e, NO_FRAME, Step(t, c).swapUsed, t.swapMap);
    case EvictFail(e) =>
      EvictEndSound(t, e, Frame(true, true, t.holds[e].proc, t.holds[e].vpn, true), Step(t, c).swapUsed, t.swapMap);
  }

  lemma SwapSectionSound(t: Tables, c: Section)
    requires FramesSound(t) && Enabled(t, c) && (c.ReleaseSwap? || c.ForkReserve? || c.ForkInsert?)
    ensures FramesSound(Step(t, c))
  {
    hide NumUsed, Owned;
  }

  /** Every section keeps the frame invariant, whatever evictions are in flight. */
  lemma StepSound(t: Tables, c: Section)
    requires FramesSound(t) && Enabled(t, c)
    ensures FramesSound(Step(t, c))
  {
    hide Begin, DropFrames, DropEntries, NumUsed, Victims, Owned;
    match c
    case EvictBegin(e, levels) => BeginSound(t, e, levels);
    case FreeProcess(p) =>
      DropEntriesFrames(t, p, 0);
      DropFramesSound(DropEntries(t, p, 0), p, 0);
    case Register(_, _) => FrameSectionSound(t, c);
    case FreeFrame(_, _) => FrameSectionSound(t, c);
    case MarkRef(_, _) => FrameSectionSound(t, c);
    case EvictDone(_) => EvictSectionSound(t, c);
    case EvictStale(_) => EvictSectionSound(t, c);
    case EvictFail(_) => EvictSectionSound(t, c);
    case ReleaseSwap(_, _) => SwapSectionSound(t, c);
    case ForkReserve(_, _) => SwapSectionSound(t, c);
    case ForkInsert(_, _) => SwapSectionSound(t, c);
  }

  lemma FrameSet(t: Tables, i: nat, f: Frame)
    requires FramesSound(t) && i < MAX_FRAMES && t.frames[i] != LEAVING && (Tracked(f) ==> f.proc.Some?)
    ensures FramesSound(t.(frames := t.frames[i := f],
                           count := if f.used == t.frames[i].used then t.count
                                    else if f.used then t.count + 1 else Dec(t.count)))
  {
    VictimsElsewhere(t.frames, t.holds, i, f);
    NumUsedUpdate(t.frames, i, f);
    NumUsedBounds(t.frames);
  }

  lemma EvictEndSound(t: Tables, e: Pid, f: Frame, used: seq<bool>, m: seq<SwapEntry>)
    requires FramesSound(t) && e in t.holds && t.holds[e].Evicting?
    requires Tracked(f) ==> f.proc.Some?
    requires |used| == MAX_SWAP_PAGES && |m| == MAX_SWAP_PAGES
    requires forall i :: 0 <= i < MAX_SWAP_PAGES && m[i].used ==> 0 <= m[i].slot < MAX_SWAP_PAGES
    ensures FramesSound(Tables(t.frames[t.holds[e].victim := f], t.hand, if f.used then t.count else Dec(t.count),
                               used, m, t.holds - {e}))
  {
    NumUsedUpdate(t.frames, t.holds[e].victim, f);
    NumUsedBounds(t.frames);
    VictimGone(t.frames, t.holds, e, f);
  }

  lemma VictimGone(fs: seq<Frame>, holds: map<Pid, Hold>, e: Pid, f: Frame)
    requires Victims(fs, holds) && e in holds && holds[e].Evicting?
    ensures Victims(fs[holds[e].victim := f], holds - {e})
  {
  }

  /** A victim under eviction is touched by its evictor only. */
  lemma VictimExclusive(t: Tables, c: Section, f: Pid)
    requires FramesSound(t) && Enabled(t, c) && f in t.holds && t.holds[f].Evicting? && Actor(c) != Some(f)
    ensures var t' := Step(t, c);
            f in t'.holds && t'.holds[f] == t.holds[f] && Sizes(t')
            && t'.frames[t.holds[f].victim] == t.frames[t.holds[f].victim]
  {
    StepSound(t, c);
    match c
    case EvictBegin(e, levels) => BeginSound(t, e, levels);
    case FreeProcess(p) =>
      DropEntriesFrames(t, p, 0);
      DropFramesSound(DropEntries(t, p, 0), p, 0);
    case _ =>
  }

  // ----- swap slots -----

  /** Entry i in use names slot i, which is marked used. */
  predicate EntriesAligned(used: seq<bool>, m: seq<SwapEntry>) {
    |used| == |m| && forall i :: 0 <= i < |m| && m[i].used ==> m[i].slot == i && used[i]
  }

  /** Every reserved slot is marked used, has no entry, and one process that reserved it. */
  predicate Reservations(used: seq<bool>, m: seq<SwapEntry>, holds: map<Pid, Hold>) {
    && (forall e :: e in holds ==>
          holds[e].slot < |used| && holds[e].slot < |m| && used[holds[e].slot] && !m[holds[e].slot].used)
    && (forall e, f :: e in holds && f in holds && holds[e].slot == holds[f].slot ==> e == f)
  }

  ghost predicate Reserved(holds: map<Pid, Hold>, i: nat) {
    exists e :: e in holds && holds[e].slot == i
  }

  /** A slot marked used has an entry or a process that reserved it. */
  ghost predicate NoLeak(used: seq<bool>, m: seq<SwapEntry>, holds: map<Pid, Hold>) {
    |used| == |m| && forall i :: 0 <= i < |used| && used[i] ==> m[i].used || Reserved(holds, i)
  }

  ghost predicate SwapSound(t: Tables) {
    Sizes(t) && EntriesAligned(t.swapUsed, t.swapMap) && Reservations(t.swapUsed, t.swapMap, t.holds)
    && NoLeak(t.swapUsed, t.swapMap, t.holds)
  }

  lemma DropEntrySound(t: Tables, k: nat)
    requires SwapSound(t) && k < MAX_SWAP_PAGES && t.swapMap[k].used
    ensures SwapSound(DropEntry(t, k))
  {
  }

  lemma {:induction false} DropEntriesSound(t: Tables, p: Pid, i: nat)
    requires SwapSound(t) && i <= MAX_SWAP_PAGES
    ensures SwapSound(DropEntries(t, p, i))
    decreases |t.swapMap| - i
  {
    if i < MAX_SWAP_PAGES {
      if t.swapMap[i].used && t.swapMap[i].proc == Some(p) {
        DropEntrySound(t, i);
        DropEntriesSound(DropEntry(t, i), p, i + 1);
      } else {
        DropEntriesSound(t, p, i + 1);
      }
    }
  }

  /** Reserving a slot. */
  lemma ReserveSlots(used: seq<bool>, m: seq<SwapEntry>, holds: map<Pid, Hold>, e: Pid, h: Hold)
    requires EntriesAligned(used, m) && Reservations(used, m, holds) && NoLeak(used, m, holds)
    requires e !in holds && h.slot < |used| && !used[h.slot]
    ensures var u, hs := used[h.slot := true], holds[e := h];
            EntriesAligned(u, m) && Reservations(u, m, hs) && NoLeak(u, m, hs)
  {
    hide NoLeak;
    ReserveNoLeak(used, m, holds, e, h);
  }

  lemma ReserveNoLeak(used: seq<bool>, m: seq<SwapEntry>, holds: map<Pid, Hold>, e: Pid, h: Hold)
    requires NoLeak(used, m, holds) && e !in holds && h.slot < |used|
    ensures NoLeak(used[h.slot := true], m, holds[e := h])
  {
    hide Reserved;
    forall i | 0 <= i < |used| && (i == h.slot || Reserved(holds, i))
      ensures Reserved(holds[e := h], i)
    {
      ReserveKeeps(holds, e, h, i);
    }
  }

  lemma ReserveKeeps(holds: map<Pid, Hold>, e: Pid, h: Hold, i: nat)
    requires e !in holds && (i == h.slot || Reserved(holds, i))
    ensures Reserved(holds[e := h], i)
  {
    var hs := holds[e := h];
    if i == h.slot {
      assert e in hs && hs[e].slot == i;
    } else {
      var f :| f in holds && holds[f].slot == i;
      assert f in hs && hs[f].slot == i;
    }
  }

  /** Giving a reservation up. */
  lemma ReleaseSlots(used: seq<bool>, m: seq<SwapEntry>, holds: map<Pid, Hold>, e: Pid)
    requires EntriesAligned(used, m) && Reservations(used, m, holds) && NoLeak(used, m, holds) && e in holds
    ensures var u, hs := used[holds[e].slot := false], holds - {e};
            EntriesAligned(u, m) && Reservations(u, m, hs) && NoLeak(u, m, hs)
  {
    var u, hs := used[holds[e].slot := false], holds - {e};
    forall i | 0 <= i < |u| && u[i]
      ensures m[i].used || Reserved(hs, i)
    {
      if !m[i].used {
        var f :| f in holds && holds[f].slot == i;
        assert f in hs && hs[f].slot == i;
      }
    }
  }

  /** Turning a reservation into the entry of the same index. */
  lemma EnterSlots(used: seq<bool>, m: seq<SwapEntry>, holds: map<Pid, Hold>, e: Pid, entry: SwapEntry)
    requires EntriesAligned(used, m) && Reservations(used, m, holds) && NoLeak(used, m, holds) && e in holds
    requires entry.used && entry.slot == holds[e].slot
    ensures var n, hs := m[holds[e].slot := entry], holds - {e};
            EntriesAligned(used, n) && Reservations(used, n, hs) && NoLeak(used, n, hs)
  {
    var n, hs := m[holds[e].slot := entry], holds - {e};
    forall i | 0 <= i < |used| && used[i]
      ensures n[i].used || Reserved(hs, i)
    {
      if !n[i].used {
        var f :| f in holds && holds[f].slot == i;
        assert f in hs && hs[f].slot == i;
      }
    }
  }

  /** Whether the insertion of uvmcopy takes the entry with the index of its slot. */
  predicate InsertAligned(t: Tables, c: Section)
    requires Sizes(t) && Enabled(t, c)
  {
    c.ForkInsert? ==> forall j :: 0 <= j < t.holds[c.e].slot ==> t.swapMap[j].used
  }

  /** Every section keeps the swap tables sound, but for the insertion of uvmcopy, which looks for a free
      entry without regard to its slot. That one keeps them sound exactly when every entry below its slot
      is in use, which the interleaving does not guarantee. */
  lemma StepSwapSoundIff(t: Tables, c: Section)
    requires SwapSound(t) && Enabled(t, c)
    ensures SwapSound(Step(t, c)) <==> InsertAligned(t, c)
  {
    if c.ForkInsert? {
      ForkInsertIff(t, c);
    } else {
      StepSwapSound(t, c);
    }
  }

  lemma ForkInsertIff(t: Tables, c: Section)
    requires SwapSound(t) && Enabled(t, c) && c.ForkInsert?
    ensures SwapSound(Step(t, c)) <==> InsertAligned(t, c)
  {
    var slot := t.holds[c.e].slot;
    var k := FirstFreeEntry(t.swapMap, 0);
    assert k != -1 && k <= slot;
    if k == slot {
      EnterSlots(t.swapUsed, t.swapMap, t.holds, c.e, SwapEntry(true, Some(c.child), t.holds[c.e].v, slot));
    } else {
      assert Step(t, c).swapMap[k].slot == slot != k;
    }
  }

  lemma StepSwapSound(t: Tables, c: Section)
    requires SwapSound(t) && Enabled(t, c) && !c.ForkInsert?
    ensures SwapSound(Step(t, c))
  {
    hide EntriesAligned, Reservations, NoLeak, SelectVictim, DropFrames, DropEntries;
    match c
    case EvictBegin(e, levels) =>
      SelectFrame(t.frames, levels, t.hand);
      var r := SelectVictim(t.frames, levels, t.hand);
      var slot := FirstFreeSlot(t.swapUsed, 0);
      if r.victim >= 0 && slot != -1 {
        var f := r.frames[r.victim];
        ReserveSlots(t.swapUsed, t.swapMap, t.holds, e, Evicting(r.victim, slot, f.proc, f.vpn));
      }
    case EvictDone(e) =>
      EnterSlots(t.swapUsed, t.swapMap, t.holds, e, SwapEntry(true, t.holds[e].proc, t.holds[e].vpn, t.holds[e].slot));
    case EvictStale(e) => ReleaseSlots(t.swapUsed, t.swapMap, t.holds, e);
    case EvictFail(e) => ReleaseSlots(t.swapUsed, t.swapMap, t.holds, e);
    case ReleaseSwap(p, v) =>
      var k := FindSwap(t.swapMap, p, v, 0);
      if k != -1 { DropEntrySound(t, k); }
    case FreeProcess(p) =>
      DropEntriesSound(t, p, 0);
      DropFramesKeepSwap(DropEntries(t, p, 0), p, 0);
    case ForkReserve(e, v) =>
      var slot := FirstFreeSlot(t.swapUsed, 0);
      if slot != -1 { ReserveSlots(t.swapUsed, t.swapMap, t.holds, e, Forking(slot, v)); }
    case Register(p, v) =>
    case FreeFrame(p, v) =>
    case MarkRef(p, v) =>
  }

  lemma {:induction false} DropFramesKeepSwap(t: Tables, p: Pid, i: nat)
    requires Sizes(t) && i <= MAX_FRAMES
    ensures var r := DropFrames(t, p, i); r.swapUsed == t.swapUsed && r.swapMap == t.swapMap && r.holds == t.holds
    decreases |t.frames| - i
  {
    if i < MAX_FRAMES {
      DropFramesKeepSwap(if Tracked(t.frames[i]) && t.frames[i].proc == Some(p)
                         then t.(frames := t.frames[i := NO_FRAME], count := Dec(t.count)) else t, p, i + 1);
    }
  }

  // ----- runs -----

  ghost predicate IsRun(t: Tables, cs: seq<Section>, t': Tables)
    decreases |cs|
  {
    Sizes(t)
    && if cs == [] then t' == t
       else Enabled(t, cs[0]) && Sizes(Step(t, cs[0])) && IsRun(Step(t, cs[0]), cs[1..], t')
  }

  /** Under every interleaving of frame_lock sections user_frame_count is the number of frame entries in
      use, and no two evictions share a victim. */
  lemma {:induction false} CountOverRuns(t: Tables, cs: seq<Section>, t': Tables)
    requires FramesSound(t) && IsRun(t, cs, t')
    ensures FramesSound(t') && t'.count == NumUsed(t'.frames)
    decreases |cs|
  {
    hide Step, NumUsed, Victims, Owned;
    if cs != [] {
      StepSound(t, cs[0]);
      CountOverRuns(Step(t, cs[0]), cs[1..], t');
    }
  }

  /** The tables kinit leaves. */
  function Boot(): Tables {
    Tables(seq(MAX_FRAMES, _ => NO_FRAME), 0, 0, seq(MAX_SWAP_PAGES, _ => false), seq(MAX_SWAP_PAGES, _ => NO_ENTRY),
           map[])
  }

  lemma BootSound()
    ensures FramesSound(Boot()) && SwapSound(Boot()) && ForksClear(Boot())
  {
    NumUsedBounds(Boot().frames);
  }

  // ----- schedules that leave forks alone -----

  /** No fork in flight has its slot above k. */
  predicate NoForkAbove(holds: map<Pid, Hold>, k: nat) {
    forall e :: e in holds && holds[e].Forking? ==> holds[e].slot <= k
  }

  /** The schedule leaves forks alone at this section: a fork reserves its slot while nobody else has one reserved
      below it, and no entry below the slot of a fork in flight is released. */
  predicate Calm(t: Tables, c: Section)
    requires Sizes(t)
  {
    match c
    case ForkReserve(_, _) =>
      var slot := FirstFreeSlot(t.swapUsed, 0); slot != -1 ==> forall e :: e in t.holds ==> slot < t.holds[e].slot
    case ReleaseSwap(p, v) => var k := FindSwap(t.swapMap, p, v, 0); k != -1 ==> NoForkAbove(t.holds, k)
    case FreeProcess(p) =>
      forall k :: 0 <= k < MAX_SWAP_PAGES && t.swapMap[k].used && t.swapMap[k].proc == Some(p) ==>
        NoForkAbove(t.holds, k)
    case _ => true
  }

  ghost predicate CalmRun(t: Tables, cs: seq<Section>)
    decreases |cs|
  {
    && Sizes(t)
    && (cs != [] ==>
          Enabled(t, cs[0]) && Calm(t, cs[0]) && Sizes(Step(t, cs[0])) && CalmRun(Step(t, cs[0]), cs[1..]))
  }

  /** Every entry below the slot of a fork in flight is in use. */
  predicate EntriesBelow(m: seq<SwapEntry>, holds: map<Pid, Hold>) {
    forall e, j :: e in holds && holds[e].Forking? && 0 <= j < holds[e].slot && j < |m| ==> m[j].used
  }

  predicate ForksClear(t: Tables) {
    EntriesBelow(t.swapMap, t.holds)
  }

  lemma {:induction false} DropEntriesMap(t: Tables, p: Pid, i: nat)
    requires Sizes(t) && i <= MAX_SWAP_PAGES
    ensures var r := DropEntries(t, p, i);
            forall k :: 0 <= k < MAX_SWAP_PAGES && !(t.swapMap[k].used && t.swapMap[k].proc == Some(p)) ==>
              r.swapMap[k] == t.swapMap[k]
    decreases |t.swapMap| - i
  {
    if i < MAX_SWAP_PAGES {
      DropEntriesMap(if t.swapMap[i].used && t.swapMap[i].proc == Some(p) then DropEntry(t, i) else t, p, i + 1);
    }
  }

  lemma ReserveClear(t: Tables, e: Pid, v: nat)
    requires SwapSound(t) && ForksClear(t) && Calm(t, ForkReserve(e, v)) && e !in t.holds
    requires FirstFreeSlot(t.swapUsed, 0) != -1
    ensures EntriesBelow(t.swapMap, t.holds[e := Forking(FirstFreeSlot(t.swapUsed, 0), v)])
  {
    var slot := FirstFreeSlot(t.swapUsed, 0);
    forall j | 0 <= j < slot
      ensures t.swapMap[j].used
    {
      assert t.swapUsed[j];
      assert !Reserved(t.holds, j);
    }
  }

  lemma DropClear(t: Tables, m': seq<SwapEntry>)
    requires Sizes(t) && ForksClear(t) && |m'| == MAX_SWAP_PAGES
    requires forall k: nat :: k < MAX_SWAP_PAGES && t.swapMap[k].used && !m'[k].used ==> NoForkAbove(t.holds, k)
    ensures EntriesBelow(m', t.holds)
  {
    forall e, j: nat | e in t.holds && t.holds[e].Forking? && j < t.holds[e].slot && j < |m'|
      ensures m'[j].used
    {
      assert t.swapMap[j].used && !NoForkAbove(t.holds, j);
    }
  }

  /** Such a section keeps what forks in flight need. */
  lemma StepClear(t: Tables, c: Section)
    requires SwapSound(t) && ForksClear(t) && Enabled(t, c) && Calm(t, c)
    ensures InsertAligned(t, c) && ForksClear(Step(t, c))
  {
    hide SelectVictim, DropFrames, DropEntries, EntriesAligned, Reservations, NoLeak;
    match c
    case ForkReserve(e, v) => if FirstFreeSlot(t.swapUsed, 0) != -1 { ReserveClear(t, e, v); }
    case ReleaseSwap(p, v) => DropClear(t, Step(t, c).swapMap);
    case FreeProcess(p) =>
      DropEntriesMap(t, p, 0);
      DropEntriesFrames(t, p, 0);
      DropFramesKeepSwap(DropEntries(t, p, 0), p, 0);
      DropClear(t, DropEntries(t, p, 0).swapMap);
    case _ =>
  }

  /** All insertions of uvmcopy along the run are aligned. */
  ghost predicate AlignedRun(t: Tables, cs: seq<Section>)
    decreases |cs|
  {
    && Sizes(t)
    && (cs != [] ==>
          Enabled(t, cs[0]) && InsertAligned(t, cs[0]) && Sizes(Step(t, cs[0])) && AlignedRun(Step(t, cs[0]), cs[1..]))
  }

  /** Under a schedule that leaves forks alone every insertion of uvmcopy is aligned, and the swap tables agree
      throughout. */
  lemma {:induction false} SwapOverRuns(t: Tables, cs: seq<Section>, t': Tables)
    requires SwapSound(t) && ForksClear(t) && IsRun(t, cs, t') && CalmRun(t, cs)
    ensures SwapSound(t') && ForksClear(t') && AlignedRun(t, cs)
    decreases |cs|
  {
    hide SwapSound, ForksClear, Step, InsertAligned, Calm;
    if cs != [] {
      StepClear(t, cs[0]);
      StepSwapSoundIff(t, cs[0]);
      SwapOverRuns(Step(t, cs[0]), cs[1..], t');
    }
  }

  // ----- runs in which a fork loses a page -----

  lemma {:induction false} RunAppend(t: Tables, cs: seq<Section>, t1: Tables, ds: seq<Section>, t2: Tables)
    requires IsRun(t, cs, t1) && IsRun(t1, ds, t2)
    ensures IsRun(t, cs + ds, t2)
    decreases |cs|
  {
    hide Step, Enabled;
    if cs == [] {
      assert cs + ds == ds;
    } else {
      RunAppend(Step(t, cs[0]), cs[1..], t1, ds, t2);
      assert (cs + ds)[1..] == cs[1..] + ds;
    }
  }

  /** No frame is in use and nothing is in flight. */
  predicate AtRest(t: Tables) {
    Sizes(t) && t.holds == map[] && forall i :: 0 <= i < MAX_FRAMES ==> !t.frames[i].used
  }

  function Flat(): seq<int> {
    seq(MAX_FRAMES, _ => 0)
  }

  function Out(p: Pid, v: nat, k: nat): SwapEntry {
    SwapEntry(true, Some(p), v, k)
  }

  /** A page of p is registered, and its eviction by e begins: it takes the first free slot. */
  lemma BeginOut(t: Tables, p: Pid, v: nat, e: Pid, k: nat) returns (t': Tables)
    requires AtRest(t) && FirstFreeSlot(t.swapUsed, 0) == k
    ensures IsRun(t, [Register(p, v), EvictBegin(e, Flat())], t') && Sizes(t')
    ensures t'.holds == map[e := Evicting(0, k, Some(p), v)]
    ensures t'.swapUsed == t.swapUsed[k := true] && t'.swapMap == t.swapMap
    ensures forall i :: 0 < i < MAX_FRAMES ==> !t'.frames[i].used
  {
    hide SelectVictim, FirstFreeSlot;
    var t1 := Step(t, Register(p, v));
    assert FirstUnused(t.frames, 0) == 0;
    SelectFrame(t1.frames, Flat(), t1.hand);
    var c := SelectVictim(t1.frames, Flat(), t1.hand);
    assert Tracked(t1.frames[0]);
    assert c.victim == 0;
    t' := Step(t1, EvictBegin(e, Flat()));
    assert IsRun(t', [], t');
    RunOne(t1, EvictBegin(e, Flat()));
    RunOne(t, Register(p, v));
    RunAppend(t, [Register(p, v)], t1, [EvictBegin(e, Flat())], t');
    assert [Register(p, v)] + [EvictBegin(e, Flat())] == [Register(p, v), EvictBegin(e, Flat())];
  }

  lemma RunOne(t: Tables, c: Section)
    requires Sizes(t) && Enabled(t, c) && Sizes(Step(t, c))
    ensures IsRun(t, [c], Step(t, c))
  {
    assert [c][1..] == [];
  }

  /** A page of p goes out to slot k. */
  lemma PageOut(t: Tables, p: Pid, v: nat, e: Pid, k: nat) returns (cs: seq<Section>, t': Tables)
    requires AtRest(t) && FirstFreeSlot(t.swapUsed, 0) == k
    ensures IsRun(t, cs, t') && AtRest(t')
    ensures t'.swapUsed == t.swapUsed[k := true] && t'.swapMap == t.swapMap[k := Out(p, v, k)]
  {
    hide FirstFreeSlot;
    var t1 := BeginOut(t, p, v, e, k);
    t' := Step(t1, EvictDone(e));
    RunOne(t1, EvictDone(e));
    cs := [Register(p, v), EvictBegin(e, Flat())] + [EvictDone(e)];
    RunAppend(t, [Register(p, v), EvictBegin(e, Flat())], t1, [EvictDone(e)], t');
  }

  lemma FirstSlotIs(used: seq<bool>, k: nat)
    requires k < |used| && !used[k] && forall j :: 0 <= j < k ==> used[j]
    ensures FirstFreeSlot(used, 0) == k
  {
  }

  lemma FirstEntryIs(m: seq<SwapEntry>, k: nat)
    requires k < |m| && !m[k].used && forall j :: 0 <= j < k ==> m[j].used
    ensures FirstFreeEntry(m, 0) == k
  {
  }

  lemma FoundAt(m: seq<SwapEntry>, p: Pid, v: nat, k: nat)
    requires k < |m| && Matches(m[k], p, v) && forall j :: 0 <= j < |m| && j != k ==> !Matches(m[j], p, v)
    ensures FindSwap(m, p, v, 0) == k
  {
  }

  /** Swap tables in which only the entries 0, 1 and 2 may be in use. */
  predicate Low3(t: Tables, e0: SwapEntry, e1: SwapEntry, e2: SwapEntry, u0: bool, u1: bool, u2: bool) {
    && Sizes(t)
    && t.swapMap[0] == e0 && t.swapMap[1] == e1 && t.swapMap[2] == e2
    && t.swapUsed[0] == u0 && t.swapUsed[1] == u1 && t.swapUsed[2] == u2
    && (forall i :: 3 <= i < MAX_SWAP_PAGES ==> t.swapMap[i] == NO_ENTRY && !t.swapUsed[i])
  }

  /** From boot: two pages of `other` go out to slots 0 and 1, one of the parent to slot 2. */
  lemma ThreeOut(other: Pid, parent: Pid, v: nat) returns (cs: seq<Section>, t: Tables)
    ensures IsRun(Boot(), cs, t) && AtRest(t)
    ensures Low3(t, Out(other, 0, 0), Out(other, 1, 1), Out(parent, v, 2), true, true, true)
  {
    hide FirstFreeSlot, IsRun, Step;
    FirstSlotIs(Boot().swapUsed, 0);
    var cs0, t0 := PageOut(Boot(), other, 0, other, 0);
    FirstSlotIs(t0.swapUsed, 1);
    var cs1, t1 := PageOut(t0, other, 1, other, 1);
    FirstSlotIs(t1.swapUsed, 2);
    var cs2, t2 := PageOut(t1, parent, v, other, 2);
    RunAppend(Boot(), cs0, t0, cs1, t1);
    RunAppend(Boot(), cs0 + cs1, t1, cs2, t2);
    cs, t := cs0 + cs1 + cs2, t2;
  }

  /** A process faults its page back in: entry k and its slot are released. */
  lemma BackIn(t: Tables, p: Pid, v: nat, k: nat)
    requires Sizes(t) && k < MAX_SWAP_PAGES && FindSwap(t.swapMap, p, v, 0) == k && t.swapMap[k].slot == k
    ensures var t' := Step(t, ReleaseSwap(p, v));
            && IsRun(t, [ReleaseSwap(p, v)], t')
            && t' == t.(swapUsed := t.swapUsed[k := false], swapMap := t.swapMap[k := NO_ENTRY])
            && Sizes(t')
  {
    hide FindSwap;
    RunOne(t, ReleaseSwap(p, v));
  }

  /** A fork finds its page swapped out and reserves slot k. */
  lemma Reserves(t: Tables, e: Pid, v: nat, k: nat)
    requires Sizes(t) && e !in t.holds && FindSwap(t.swapMap, e, v, 0) != -1 && FirstFreeSlot(t.swapUsed, 0) == k
    ensures var t' := t.(swapUsed := t.swapUsed[k := true], holds := t.holds[e := Forking(k, v)]);
            IsRun(t, [ForkReserve(e, v)], t') && Sizes(t')
  {
    hide FindSwap, FirstFreeSlot;
    RunOne(t, ForkReserve(e, v));
  }

  /** It enters its slot at the first free index i. */
  lemma Inserts(t: Tables, e: Pid, child: Pid, i: nat)
    requires Sizes(t) && e in t.holds && t.holds[e].Forking? && FirstFreeEntry(t.swapMap, 0) == i
    ensures var t' := t.(swapMap := t.swapMap[i := Out(child, t.holds[e].v, t.holds[e].slot)], holds := t.holds - {e});
            i < MAX_SWAP_PAGES && IsRun(t, [ForkInsert(e, child)], t') && Sizes(t')
  {
    hide FirstFreeEntry;
    RunOne(t, ForkInsert(e, child));
  }

  /** Alignment can fail while an eviction is in flight. From boot: an eviction has slot 0, a fork whose page is
      swapped out is given slot 1, enters it at index 0, and the end of the eviction overwrites the entry. The
      child has no entry although the copy was made, and slot 1 stays marked used with no entry and no holder. */
  lemma EntryLost(other: Pid, parent: Pid, child: Pid, v: nat) returns (cs: seq<Section>, t: Tables)
    requires other != parent && child != parent && child != other
    ensures IsRun(Boot(), cs, t) && t.holds == map[] && ForkInsert(parent, child) in cs
    ensures forall i, w :: 0 <= i < |t.swapMap| ==> !Matches(t.swapMap[i], child, w)
    ensures |t.swapUsed| == |t.swapMap| == MAX_SWAP_PAGES && t.swapUsed[1]
    ensures forall i :: 0 <= i < |t.swapMap| && t.swapMap[i].used ==> t.swapMap[i].slot != 1
  {
    hide FirstFreeSlot, FirstFreeEntry, FindSwap, IsRun, Step;
    var cs0, t0 := ThreeOut(other, parent, v);
    var cs1, t1 := TwoBack(t0, other, parent, v);
    FirstSlotIs(t1.swapUsed, 0);
    var t2 := BeginOut(t1, other, 3, other, 0);
    var cs2 := [Register(other, 3), EvictBegin(other, Flat())];
    var cs3, t3 := Overwritten(t2, other, parent, child, v);
    RunAppend(Boot(), cs0, t0, cs1, t1);
    RunAppend(Boot(), cs0 + cs1, t1, cs2, t2);
    RunAppend(Boot(), cs0 + cs1 + cs2, t2, cs3, t3);
    cs, t := cs0 + cs1 + cs2 + cs3, t3;
  }

  /** Both pages of `other` come back in. */
  lemma TwoBack(t: Tables, other: Pid, parent: Pid, v: nat) returns (cs: seq<Section>, t': Tables)
    requires AtRest(t) && other != parent
    requires Low3(t, Out(other, 0, 0), Out(other, 1, 1), Out(parent, v, 2), true, true, true)
    ensures IsRun(t, cs, t') && AtRest(t') && Low3(t', NO_ENTRY, NO_ENTRY, Out(parent, v, 2), false, false, true)
  {
    hide FindSwap, IsRun, Step;
    FoundAt(t.swapMap, other, 0, 0);
    BackIn(t, other, 0, 0);
    var t1 := Step(t, ReleaseSwap(other, 0));
    FoundAt(t1.swapMap, other, 1, 1);
    BackIn(t1, other, 1, 1);
    t' := Step(t1, ReleaseSwap(other, 1));
    cs := [ReleaseSwap(other, 0)] + [ReleaseSwap(other, 1)];
    RunAppend(t, [ReleaseSwap(other, 0)], t1, [ReleaseSwap(other, 1)], t');
  }

  /** The overlap itself. */
  lemma Overwritten(t: Tables, other: Pid, parent: Pid, child: Pid, v: nat) returns (cs: seq<Section>, t': Tables)
    requires other != parent && child != parent && child != other
    requires Low3(t, NO_ENTRY, NO_ENTRY, Out(parent, v, 2), true, false, true)
    requires t.holds == map[other := Evicting(0, 0, Some(other), 3)]
    ensures IsRun(t, cs, t') && ForkInsert(parent, child) in cs && t'.holds == map[]
    ensures Low3(t', Out(other, 3, 0), NO_ENTRY, Out(parent, v, 2), true, true, true)
  {
    hide FirstFreeSlot, FirstFreeEntry, FindSwap, IsRun;
    FoundAt(t.swapMap, parent, v, 2);
    FirstSlotIs(t.swapUsed, 1);
    Reserves(t, parent, v, 1);
    var t1 := t.(swapUsed := t.swapUsed[1 := true], holds := t.holds[parent := Forking(1, v)]);
    FirstEntryIs(t1.swapMap, 0);
    Inserts(t1, parent, child, 0);
    var t2 := t1.(swapMap := t1.swapMap[0 := Out(child, v, 1)], holds := t1.holds - {parent});
    t' := Step(t2, EvictDone(other));
    RunOne(t2, EvictDone(other));
    cs := [ForkReserve(parent, v)] + [ForkInsert(parent, child)] + [EvictDone(other)];
    RunAppend(t, [ForkReserve(parent, v)], t1, [ForkInsert(parent, child)], t2);
    RunAppend(t, [ForkReserve(parent, v)] + [ForkInsert(parent, child)], t2, [EvictDone(other)], t');
  }

  /** Alignment can fail with no eviction in flight. From boot: a fork is given slot 1, a process faults in the page
      of entry 0, and the fork enters slot 1 at index 0, whose own slot is free. */
  lemma EntryMisplaced(other: Pid, parent: Pid, child: Pid, v: nat) returns (cs: seq<Section>, t: Tables)
    requires other != parent && child != parent && child != other
    ensures IsRun(Boot(), cs, t) && AtRest(t) && ForkInsert(parent, child) in cs
    ensures Low3(t, Out(child, v, 1), NO_ENTRY, Out(parent, v, 2), false, true, true)
  {
    hide FirstFreeSlot, FirstFreeEntry, FindSwap, IsRun, Step;
    var cs0, t0 := ThreeOut(other, parent, v);
    var cs1, t1 := Misplaced(t0, other, parent, child, v);
    RunAppend(Boot(), cs0, t0, cs1, t1);
    cs, t := cs0 + cs1, t1;
  }

  lemma Misplaced(t: Tables, other: Pid, parent: Pid, child: Pid, v: nat) returns (cs: seq<Section>, t': Tables)
    requires other != parent && child != parent && child != other && AtRest(t)
    requires Low3(t, Out(other, 0, 0), Out(other, 1, 1), Out(parent, v, 2), true, true, true)
    ensures IsRun(t, cs, t') && AtRest(t') && ForkInsert(parent, child) in cs
    ensures Low3(t', Out(child, v, 1), NO_ENTRY, Out(parent, v, 2), false, true, true)
  {
    hide FirstFreeSlot, FirstFreeEntry, FindSwap, IsRun, Step;
    FoundAt(t.swapMap, other, 1, 1);
    BackIn(t, other, 1, 1);
    var t1 := Step(t, ReleaseSwap(other, 1));
    FoundAt(t1.swapMap, parent, v, 2);
    FirstSlotIs(t1.swapUsed, 1);
    Reserves(t1, parent, v, 1);
    var t2 := t1.(swapUsed := t1.swapUsed[1 := true], holds := t1.holds[parent := Forking(1, v)]);
    FoundAt(t2.swapMap, other, 0, 0);
    BackIn(t2, other, 0, 0);
    var t3 := Step(t2, ReleaseSwap(other, 0));
    FirstEntryIs(t3.swapMap, 0);
    Inserts(t3, parent, child, 0);
    t' := t3.(swapMap := t3.swapMap[0 := Out(child, v, 1)], holds := t3.holds - {parent});
    var a := [ReleaseSwap(other, 1)] + [ForkReserve(parent, v)];
    var b := [ReleaseSwap(other, 0)] + [ForkInsert(parent, child)];
    RunAppend(t, [ReleaseSwap(other, 1)], t1, [ForkReserve(parent, v)], t2);
    RunAppend(t2, [ReleaseSwap(other, 0)], t3, [ForkInsert(parent, child)], t');
    RunAppend(t, a, t2, b, t');
    cs := a + b;
  }

  /** The next eviction, though it overlaps nothing, takes slot 0 and with it the child's entry. */
  lemma MisplacedEntryLost(other: Pid, parent: Pid, child: Pid, v: nat) returns (cs: seq<Section>, t: Tables)
    requires other != parent && child != parent && child != other
    ensures IsRun(Boot(), cs, t) && AtRest(t) && ForkInsert(parent, child) in cs
    ensures forall i, w :: 0 <= i < |t.swapMap| ==> !Matches(t.swapMap[i], child, w)
  {
    hide FirstFreeSlot, FirstFreeEntry, FindSwap, IsRun, Step;
    var cs0, t0 := EntryMisplaced(other, parent, child, v);
    FirstSlotIs(t0.swapUsed, 0);
    var ds, t1 := PageOut(t0, other, 3, other, 0);
    RunAppend(Boot(), cs0, t0, ds, t1);
    cs, t := cs0 + ds, t1;
  }
}
