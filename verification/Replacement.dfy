/** Which page an eviction takes, and the tables it leaves: in terms of the levels of the owning processes. */
module Replacement {
  import opened Options
  import opened Bytes
  import opened Frames
  import opened Paging
  import opened Eviction
  import opened Fault
  import R = Raid

  /** The levels MLFQ gives. */
  predicate LevelsOk(s: State) {
    forall p :: 0 <= p < |s.procs| ==> 0 <= s.procs[p].level <= 3
  }

  /** Frame i goes before frame j: its owner has the higher level number; or the same, and only i is without its
      reference bit; or that too is the same, and the hand, moving up, reaches i first. */
  predicate GoesBefore(s: State, i: nat, j: nat)
    requires Wf(s) && i < MAX_FRAMES && j < MAX_FRAMES && s.frames[i].proc.Some? && s.frames[j].proc.Some?
  {
    var a, b := s.procs[s.frames[i].proc.value].level, s.procs[s.frames[j].proc.value].level;
    || a > b
    || (a == b && !s.frames[i].refBit && s.frames[j].refBit)
    || (a == b && s.frames[i].refBit == s.frames[j].refBit && (i + 20 - s.hand) % 20 < (j + 20 - s.hand) % 20)
  }

  /** Frame i is a user frame that goes before every other. */
  predicate GoesFirst(s: State, i: nat)
    requires Wf(s)
  {
    && i < MAX_FRAMES && Tracked(s.frames[i]) && s.frames[i].proc.Some?
    && forall j :: 0 <= j < MAX_FRAMES && j != i && Tracked(s.frames[j]) ==>
         s.frames[j].proc.Some? && GoesBefore(s, i, j)
  }

  /** Only the mapping of page v of p is gone. */
  ghost predicate OneGone(s: State, s': State, p: Pid, v: nat)
    requires Wf(s) && Wf(s')
  {
    && Mapped(s, p, v)
    && forall q: Pid, w: nat :: Mapped(s', q, w) <==> Mapped(s, q, w) && !(q == p && w == v)
  }

  /** The steps the hand makes when frame i goes: to i, a lap more if i is referenced, if i is of level 3, and two
      laps otherwise. */
  function HandSteps(s: State, i: nat): nat
    requires Wf(s) && i < MAX_FRAMES && s.frames[i].proc.Some?
  {
    if s.procs[s.frames[i].proc.value].level == 3
    then (i + 20 - s.hand) % 20 + (if s.frames[i].refBit then 21 else 1)
    else 40
  }

  /** Frame j once the hand has made n steps: a user frame it passed has lost its bit. */
  function AfterHand(s: State, n: nat, j: nat): Frame
    requires Wf(s) && j < MAX_FRAMES
  {
    if Tracked(s.frames[j]) && (j + 20 - s.hand) % 20 < n then s.frames[j].(refBit := false) else s.frames[j]
  }

  lemma FramesOwned(s: State, j: nat)
    requires Core(s, {}, {}) && j < MAX_FRAMES && s.frames[j].used
    ensures s.frames[j].proc.Some? && Mapped(s, s.frames[j].proc.value, s.frames[j].vpn)
  {
    hide Disjoint, Everything, TablesClosed, SwapTables, SwapUnique, SwapExclusive, NumUsed;
  }

  lemma OwnersLevel(s: State, j: nat)
    requires Core(s, {}, {}) && j < MAX_FRAMES && Tracked(s.frames[j])
    ensures s.frames[j].proc.Some? && Levels(s)[j] == s.procs[s.frames[j].proc.value].level
  {
    hide Core;
    CoreWf(s, {}, {});
    FramesOwned(s, j);
  }

  lemma HandDistance(hand: nat, j: nat)
    requires hand < MAX_FRAMES && j < MAX_FRAMES
    ensures Distance(hand, j) == (j + 20 - hand) % 20
  {
  }

  /** The victim, without the scan. */
  lemma VictimGoesFirst(s: State)
    requires Core(s, {}, {}) && LevelsOk(s) && HasTracked(s)
    ensures 0 <= Victim(s) && GoesFirst(s, Victim(s))
  {
    hide Core, SelectVictim, Levels, Distance;
    CoreWf(s, {}, {});
    LevelsInRange(s);
    ChosenCore(s, {}, {});
    VictimCharacterised(s.frames, Levels(s), s.hand);
    var i := Victim(s);
    OwnersLevel(s, i);
    forall j | 0 <= j < MAX_FRAMES && j != i && Tracked(s.frames[j])
      ensures s.frames[j].proc.Some? && GoesBefore(s, i, j)
    {
      OwnersLevel(s, j);
      HandDistance(s.hand, i);
      HandDistance(s.hand, j);
      assert Preferred(s.frames, Levels(s), s.hand, i, j);
    }
  }

  lemma LevelsInRange(s: State)
    requires Wf(s) && LevelsOk(s)
    ensures forall i :: 0 <= i < MAX_FRAMES ==> 0 <= Levels(s)[i] <= 3
  {
  }

  /** The table and the hand once the victim is chosen. */
  lemma ScanLeaves(s: State)
    requires Core(s, {}, {}) && LevelsOk(s) && HasTracked(s)
    ensures 0 <= Victim(s) && GoesFirst(s, Victim(s)) && TableSize(Chosen(s).frames)
    ensures Chosen(s).hand == (s.hand + HandSteps(s, Victim(s))) % 20
    ensures forall j :: 0 <= j < MAX_FRAMES ==> Chosen(s).frames[j] == AfterHand(s, HandSteps(s, Victim(s)), j)
  {
    VictimGoesFirst(s);
    hide Core, SelectVictim, Levels, Distance, GoesFirst;
    CoreWf(s, {}, {});
    LevelsInRange(s);
    SelectStops(s.frames, Levels(s), s.hand);
    OwnersLevel(s, Victim(s));
    HandDistance(s.hand, Victim(s));
    forall j | 0 <= j < MAX_FRAMES
      ensures Chosen(s).frames[j] == AfterHand(s, HandSteps(s, Victim(s)), j)
    {
      HandDistance(s.hand, j);
    }
  }

  /** One user frame goes before every other, if there is any; it is the victim. */
  lemma OneGoesFirst(s: State)
    requires Core(s, {}, {}) && LevelsOk(s)
    ensures (exists i: nat :: GoesFirst(s, i)) <==> exists j :: 0 <= j < MAX_FRAMES && Tracked(s.frames[j])
    ensures forall i: nat, j: nat :: GoesFirst(s, i) && GoesFirst(s, j) ==> i == j
    ensures forall i: nat :: GoesFirst(s, i) ==> Victim(s) == i
  {
    hide Core, Chosen, Victim, GoesBefore;
    CoreWf(s, {}, {});
    forall i: nat, j: nat | GoesFirst(s, i) && GoesFirst(s, j)
      ensures i == j
    {
      if i != j { NotBoth(s, i, j); }
    }
    if HasTracked(s) { VictimGoesFirst(s); }
  }

  lemma NotBoth(s: State, i: nat, j: nat)
    requires Wf(s) && i < MAX_FRAMES && j < MAX_FRAMES && s.frames[i].proc.Some? && s.frames[j].proc.Some?
    ensures !(GoesBefore(s, i, j) && GoesBefore(s, j, i))
  {
  }

  /** Main result on replacement: a successful eviction takes exactly one mapping, that of the user frame which goes
      before every other; the page is entered at the lowest free slot, its frame entry cleared and its physical page
      put on the free list without its contents; the hand and the other bits are as the scan leaves them. */
  lemma EvictTakes(s: State, i: nat, slot: nat)
    requires Core(s, {}, {}) && LevelsOk(s) && GoesFirst(s, i)
    requires slot < MAX_SWAP_PAGES && !s.swapUsed[slot] && forall k :: 0 <= k < slot ==> s.swapUsed[k]
    ensures var (s', ok) := Evict(s);
            var p, v := s.frames[i].proc.value, s.frames[i].vpn;
            && ok && Wf(s') && OneGone(s, s', p, v)
            && s'.swapMap == s.swapMap[slot := SwapEntry(true, Some(p), v, slot)]
            && s'.swapUsed == s.swapUsed[slot := true]
            && s'.free == s.free + [LeafOf(s.procs, p)[v].pa]
            && (forall k :: 0 <= k < 4096 ==> s'.mem[LeafOf(s.procs, p)[v].pa][k] == 1)
            && s'.hand == (s.hand + HandSteps(s, i)) % 20
            && (forall j :: 0 <= j < MAX_FRAMES ==>
                  s'.frames[j] == if j == i then NO_FRAME else AfterHand(s, HandSteps(s, i), j))
  {
    hide Core, SelectVictim, R.WritePage;
    CoreWf(s, {}, {});
    OneGoesFirst(s);
    AttemptCorrect(s);
    AttemptWf(s);
    ScanLeaves(s);
    FramesOwned(s, i);
    assert slot == FirstFreeSlot(s.swapUsed, 0);
    assert Evict(s).0.frames == Chosen(s).frames[i := NO_FRAME];
  }

  /** A failed eviction: without a free slot only the hand and the bits change, and the frame that would have gone is
      marked referenced. */
  lemma EvictRefuses(s: State, i: nat)
    requires Core(s, {}, {}) && LevelsOk(s) && GoesFirst(s, i)
    requires forall k :: 0 <= k < MAX_SWAP_PAGES ==> s.swapUsed[k]
    ensures var (s', ok) := Evict(s);
            && !ok && TableSize(s'.frames)
            && s' == s.(frames := s'.frames, hand := (s.hand + HandSteps(s, i)) % 20)
            && forall j :: 0 <= j < MAX_FRAMES ==>
                 s'.frames[j] == if j == i then s.frames[j].(refBit := true) else AfterHand(s, HandSteps(s, i), j)
  {
    hide Core, SelectVictim, R.WritePage;
    CoreWf(s, {}, {});
    OneGoesFirst(s);
    AttemptCorrect(s);
    AttemptWf(s);
    ScanLeaves(s);
    FramesOwned(s, i);
    var f := Chosen(s).frames[i];
    assert Evict(s).0.frames == Chosen(s).frames[i := Frame(true, true, f.proc, f.vpn, true)];
  }

  /** Without user frames nothing changes at all. */
  lemma NothingToEvict(s: State)
    requires Core(s, {}, {}) && LevelsOk(s)
    requires forall j :: 0 <= j < MAX_FRAMES ==> !Tracked(s.frames[j])
    ensures Evict(s) == (s, false)
  {
    hide Core, SelectVictim, R.WritePage;
    CoreWf(s, {}, {});
    AttemptWf(s);
    ChosenCore(s, {}, {});
    IdleScan(s);
  }

  lemma IdleScan(s: State)
    requires Core(s, {}, {}) && LevelsOk(s) && !HasTracked(s)
    ensures Chosen(s) == s
  {
    hide Core, SelectVictim;
    CoreWf(s, {}, {});
    VictimCharacterised(s.frames, Levels(s), s.hand);
    SelectStops(s.frames, Levels(s), s.hand);
  }

  // ----- what a fault does to the bits -----

  /** The frame of page v of p, if there is one, is marked referenced. */
  predicate Referenced(fs: seq<Frame>, p: Pid, v: nat) {
    forall i :: 0 <= i < |fs| && UsedBy(fs[i], p, v) ==> fs[i].refBit
  }

  lemma SetRefMarks(s: State, p: Pid, v: nat)
    requires Wf(s) && FramesUnique(s.frames)
    ensures Referenced(SetRef(s, p, v).frames, p, v)
    ensures forall i :: 0 <= i < MAX_FRAMES && UsedBy(s.frames[i], p, v) ==> UsedBy(SetRef(s, p, v).frames[i], p, v)
  {
  }

  /** After a successful fault the frame of the page is marked referenced; if the page was not mapped it has one now,
      so that it can be evicted again. */
  lemma FaultReferences(s: State, p: Pid, va: nat)
    requires Inv(s) && Live(s, p) && Wf(s)
    ensures var (s', r) := VmFault(s, p, va);
            r.Some? ==>
              && Referenced(s'.frames, p, va / 4096)
              && (!Mapped(s, p, va / 4096) ==>
                    && Mapped(s', p, va / 4096)
                    && LeafOf(s'.procs, p)[va / 4096].perm == Perm(true, true, false, true)
                    && exists i :: 0 <= i < |s'.frames| && Tracked(s'.frames[i]) && UsedBy(s'.frames[i], p, va / 4096))
  {
    FaultMapped(s, p, va);
    hide FaultMissing, Disjoint, Everything, SwapTables, SwapUnique, SwapExclusive, TablesClosed, NumUsed, Present;
    var v := va / 4096;
    if va < s.procs[p].sz {
      if Mapped(s, p, v) { SetRefMarks(s, p, v); } else { MissingReferences(s, p, v); }
    }
  }

  /** A page a fault brings in is readable and writable for the user. */
  lemma FaultMapped(s: State, p: Pid, va: nat)
    requires Inv(s) && Live(s, p) && Wf(s)
    ensures var (s', r) := VmFault(s, p, va);
            && Wf(s')
            && (r.Some? && !Mapped(s, p, va / 4096) ==>
                  && Mapped(s', p, va / 4096)
                  && LeafOf(s'.procs, p)[va / 4096].perm == Perm(true, true, false, true))
  {
    hide VmFault, Core, Everything, R.ReadPage;
    FaultCorrect(s, p, va);
    var (s', r) := VmFault(s, p, va);
    CoreWf(s', {}, {});
    if r.Some? && !Mapped(s, p, va / 4096) {
      assert M(s', p, va / 4096) == M(s, p, va / 4096);
    }
  }

  lemma MissingReferences(s: State, p: Pid, v: nat)
    requires Core(s, {}, {}) && Live(s, p) && Wf(s) && !Mapped(s, p, v)
    ensures var (s', r) := FaultMissing(s, p, v);
            r.Some? ==>
              && Referenced(s'.frames, p, v)
              && exists i :: 0 <= i < |s'.frames| && Tracked(s'.frames[i]) && UsedBy(s'.frames[i], p, v)
  {
    hide KallocUserFrom, Walk, Core, R.ReadPage, SetRef, M;
    KallocUserKeepsUnmapped(s, p, v, p, v, 0);
    KallocUserCorrect(s, p, v);
    var k := FindSwap(s.swapMap, p, v, 0);
    var (s1, r) := KallocUserFrom(s, p, v, 0);
    if r.Some? {
      FramesOf(s1, {r.value}, {(p, v)});
      var x := if k == -1 then ZERO_PAGE else R.ReadPage(s1.conf, s1.disk, s.swapMap[k].slot);
      var s2 := s1.(mem := s1.mem[r.value := x]);
      WalkOnly(s2, p, v);
      var m := MapPage(s2, p, v, Pte(r.value, RWU)).0;
      assert m.frames == s1.frames;
      SetRefMarks(m, p, v);
      var i := FirstUsedBy(s1.frames, p, v, 0);
      SetRefTracks(m, p, v, i);
    }
  }

  lemma FramesOf(s: State, held: set<Pa>, pending: set<(Pid, nat)>)
    requires Core(s, held, pending)
    ensures Wf(s) && FramesUnique(s.frames)
    ensures forall i :: 0 <= i < MAX_FRAMES && s.frames[i].used ==> Tracked(s.frames[i])
  {
  }

  lemma SetRefTracks(s: State, p: Pid, v: nat, i: nat)
    requires Wf(s) && i < MAX_FRAMES && Tracked(s.frames[i]) && UsedBy(s.frames[i], p, v)
    ensures var fs := SetRef(s, p, v).frames; |fs| == MAX_FRAMES && Tracked(fs[i]) && UsedBy(fs[i], p, v)
  {
  }
}
