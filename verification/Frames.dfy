/** The frame table and the clock that picks a victim in it. */
module Frames {
  import opened Options

  const MAX_FRAMES: nat := 20
  const NPROC: nat := 64

  type Pid = p: nat | p < NPROC

  datatype Frame = Frame(used: bool, userFrame: bool, proc: Option<Pid>, vpn: nat, refBit: bool)

  const NO_FRAME: Frame := Frame(false, false, None, 0, false)

  predicate Tracked(f: Frame) {
    f.used && f.userFrame
  }

  predicate TableSize(fs: seq<Frame>) {
    |fs| == MAX_FRAMES
  }

  // ----- searches, each the first index from `i` on, or -1 -----

  function FirstUnused(fs: seq<Frame>, i: nat): (r: int)
    requires i <= |fs|
    ensures r == -1 || i <= r < |fs|
    ensures r == -1 ==> forall k :: i <= k < |fs| ==> fs[k].used
    ensures r != -1 ==> !fs[r].used && forall k :: i <= k < r ==> fs[k].used
    decreases |fs| - i
  {
    if i == |fs| then -1 else if !fs[i].used then i else FirstUnused(fs, i + 1)
  }

  predicate Holds(f: Frame, p: Option<Pid>, v: nat) {
    Tracked(f) && f.proc == p && f.vpn == v
  }

  function FirstHolding(fs: seq<Frame>, p: Option<Pid>, v: nat, i: nat): (r: int)
    requires i <= |fs|
    ensures r == -1 || i <= r < |fs|
    ensures r == -1 ==> forall k :: i <= k < |fs| ==> !Holds(fs[k], p, v)
    ensures r != -1 ==> Holds(fs[r], p, v) && forall k :: i <= k < r ==> !Holds(fs[k], p, v)
    decreases |fs| - i
  {
    if i == |fs| then -1 else if Holds(fs[i], p, v) then i else FirstHolding(fs, p, v, i + 1)
  }

  // vmfault looks a frame up without asking for user_frame.
  predicate UsedBy(f: Frame, p: Pid, v: nat) {
    f.used && f.proc == Some(p) && f.vpn == v
  }

  function FirstUsedBy(fs: seq<Frame>, p: Pid, v: nat, i: nat): (r: int)
    requires i <= |fs|
    ensures r == -1 || i <= r < |fs|
    ensures r == -1 ==> forall k :: i <= k < |fs| ==> !UsedBy(fs[k], p, v)
    ensures r != -1 ==> UsedBy(fs[r], p, v)
    decreases |fs| - i
  {
    if i == |fs| then -1 else if UsedBy(fs[i], p, v) then i else FirstUsedBy(fs, p, v, i + 1)
  }

  function FirstTracked(fs: seq<Frame>, i: nat): (r: int)
    requires i <= |fs|
    ensures r == -1 || i <= r < |fs|
    ensures r == -1 ==> forall k :: i <= k < |fs| ==> !Tracked(fs[k])
    ensures r != -1 ==> Tracked(fs[r])
    decreases |fs| - i
  {
    if i == |fs| then -1 else if Tracked(fs[i]) then i else FirstTracked(fs, i + 1)
  }

  function NumUsed(fs: seq<Frame>): nat {
    if fs == [] then 0 else (if fs[|fs| - 1].used then 1 else 0) + NumUsed(fs[..|fs| - 1])
  }

  lemma {:induction false} NumUsedUpdate(fs: seq<Frame>, i: nat, f: Frame)
    requires i < |fs|
    ensures NumUsed(fs[i := f]) == NumUsed(fs) - (if fs[i].used then 1 else 0) + (if f.used then 1 else 0)
  {
    var n := |fs| - 1;
    if i == n {
      assert fs[i := f][..n] == fs[..n];
    } else {
      assert fs[i := f][..n] == fs[..n][i := f];
      NumUsedUpdate(fs[..n], i, f);
    }
  }

  lemma {:induction false} NumUsedBounds(fs: seq<Frame>)
    ensures NumUsed(fs) <= |fs|
    ensures NumUsed(fs) == |fs| <==> forall k :: 0 <= k < |fs| ==> fs[k].used
    ensures NumUsed(fs) == 0 <==> forall k :: 0 <= k < |fs| ==> !fs[k].used
  {
    if fs != [] {
      var n := |fs| - 1;
      NumUsedBounds(fs[..n]);
      assert forall k :: 0 <= k < n ==> fs[..n][k] == fs[k];
    }
  }

  lemma {:induction false} NumUsedCongruent(fs: seq<Frame>, gs: seq<Frame>)
    requires |fs| == |gs| && forall k :: 0 <= k < |fs| ==> fs[k].used == gs[k].used
    ensures NumUsed(fs) == NumUsed(gs)
  {
    if fs != [] {
      NumUsedCongruent(fs[..|fs| - 1], gs[..|fs| - 1]);
    }
  }

  // ----- the clock -----

  datatype Choice = Choice(frames: seq<Frame>, hand: nat, victim: int)

  function NextHand(hand: nat): nat {
    (hand + 1) % MAX_FRAMES
  }

  /** The two-lap scan from step `k`; `levels[i]` is the level of the owner of frame i. */
  function Scan(fs: seq<Frame>, levels: seq<int>, hand: nat, k: nat, best: int, bestLevel: int): (c: Choice)
    requires TableSize(fs) && |levels| == MAX_FRAMES && hand < MAX_FRAMES
    decreases 2 * |fs| - k
  {
    if k >= 2 * MAX_FRAMES then Choice(fs, hand, best)
    else if !Tracked(fs[hand]) then Scan(fs, levels, NextHand(hand), k + 1, best, bestLevel)
    else if fs[hand].refBit then
      Scan(fs[hand := fs[hand].(refBit := false)], levels, NextHand(hand), k + 1, best, bestLevel)
    else
      var take := levels[hand] > bestLevel;
      var best' := if take then hand else best;
      var bestLevel' := if take then levels[hand] else bestLevel;
      if bestLevel' == 3 then Choice(fs, NextHand(hand), best')
      else Scan(fs, levels, NextHand(hand), k + 1, best', bestLevel')
  }

  function SelectVictim(fs: seq<Frame>, levels: seq<int>, hand: nat): (c: Choice)
    requires TableSize(fs) && |levels| == MAX_FRAMES && hand < MAX_FRAMES
  {
    var c := Scan(fs, levels, hand, 0, -1, -1);
    if c.victim == -1 then c.(victim := FirstTracked(c.frames, 0)) else c
  }

  /** The two tables agree on everything but reference bits, which are only ever cleared. */
  predicate OnlyRefsCleared(fs: seq<Frame>, gs: seq<Frame>) {
    |fs| == |gs|
    && forall k :: 0 <= k < |fs| ==> gs[k] == fs[k] || gs[k] == fs[k].(refBit := false)
  }

  lemma {:induction false} ScanFrame(fs: seq<Frame>, levels: seq<int>, hand: nat, k: nat, best: int, bestLevel: int)
    requires TableSize(fs) && |levels| == MAX_FRAMES && hand < MAX_FRAMES
    requires best == -1 || (0 <= best < MAX_FRAMES && Tracked(fs[best]))
    ensures var c := Scan(fs, levels, hand, k, best, bestLevel);
            OnlyRefsCleared(fs, c.frames) && c.hand < MAX_FRAMES
            && (c.victim == -1 || (0 <= c.victim < MAX_FRAMES && Tracked(c.frames[c.victim])))
    decreases 2 * |fs| - k
  {
    if k < 2 * MAX_FRAMES {
      if !Tracked(fs[hand]) {
        ScanFrame(fs, levels, NextHand(hand), k + 1, best, bestLevel);
      } else if fs[hand].refBit {
        ScanFrame(fs[hand := fs[hand].(refBit := false)], levels, NextHand(hand), k + 1, best, bestLevel);
      } else {
        var take := levels[hand] > bestLevel;
        ScanFrame(fs, levels, NextHand(hand), k + 1, if take then hand else best,
                  if take then levels[hand] else bestLevel);
      }
    }
  }

  /** Selection changes nothing but reference bits, and answers -1 only when no user frame exists. */
  lemma SelectFrame(fs: seq<Frame>, levels: seq<int>, hand: nat)
    requires TableSize(fs) && |levels| == MAX_FRAMES && hand < MAX_FRAMES
    ensures var c := SelectVictim(fs, levels, hand);
            OnlyRefsCleared(fs, c.frames) && c.hand < MAX_FRAMES && -1 <= c.victim < MAX_FRAMES
            && (c.victim == -1 <==> forall k :: 0 <= k < MAX_FRAMES ==> !Tracked(fs[k]))
            && (c.victim != -1 ==> Tracked(c.frames[c.victim]))
  {
    ScanFrame(fs, levels, hand, 0, -1, -1);
    var c := Scan(fs, levels, hand, 0, -1, -1);
    assert forall k :: 0 <= k < MAX_FRAMES ==> Tracked(c.frames[k]) == Tracked(fs[k]);
  }

  // ----- what the choice is, without the scan -----

  /** Clockwise distance of frame i from the hand. */
  function Distance(hand: nat, i: nat): nat
    requires hand < MAX_FRAMES && i < MAX_FRAMES
  {
    if i >= hand then i - hand else i + MAX_FRAMES - hand
  }

  /** Frame i is evicted in preference to frame j: higher level number first, then a clear reference
      bit, then the smaller clockwise distance. */
  predicate Preferred(fs: seq<Frame>, levels: seq<int>, hand: nat, i: nat, j: nat)
    requires TableSize(fs) && |levels| == MAX_FRAMES && hand < MAX_FRAMES && i < MAX_FRAMES && j < MAX_FRAMES
  {
    levels[i] > levels[j]
    || (levels[i] == levels[j]
        && ((!fs[i].refBit && fs[j].refBit)
            || (fs[i].refBit == fs[j].refBit && Distance(hand, i) < Distance(hand, j))))
  }

  /** The step of the scan at which frame i first counts as a candidate. */
  function Turn(fs: seq<Frame>, hand: nat, i: nat): nat
    requires TableSize(fs) && hand < MAX_FRAMES && i < MAX_FRAMES
  {
    Distance(hand, i) + if fs[i].refBit then MAX_FRAMES else 0
  }

  /** `best` leads the candidates whose turn came before step k. */
  predicate Leads(fs: seq<Frame>, levels: seq<int>, hand: nat, k: nat, best: int, bestLevel: int)
    requires TableSize(fs) && |levels| == MAX_FRAMES && hand < MAX_FRAMES
  {
    if best == -1 then
      bestLevel == -1 && forall i: nat :: i < MAX_FRAMES && Tracked(fs[i]) ==> k <= Turn(fs, hand, i)
    else
      && 0 <= best < MAX_FRAMES && Tracked(fs[best]) && bestLevel == levels[best] && Turn(fs, hand, best) < k
      && forall i: nat :: i < MAX_FRAMES && Tracked(fs[i]) && Turn(fs, hand, i) < k ==>
           levels[i] < bestLevel || (levels[i] == bestLevel && Turn(fs, hand, best) <= Turn(fs, hand, i))
  }

  /** The table at step k: the bits of user frames already passed are clear. */
  predicate Passed(fs0: seq<Frame>, fs: seq<Frame>, hand0: nat, k: nat)
    requires TableSize(fs0) && TableSize(fs) && hand0 < MAX_FRAMES
  {
    forall i: nat :: i < MAX_FRAMES ==>
      fs[i] == if Tracked(fs0[i]) && Distance(hand0, i) < k then fs0[i].(refBit := false) else fs0[i]
  }

  predicate BestOverall(fs: seq<Frame>, levels: seq<int>, hand: nat, best: int)
    requires TableSize(fs) && |levels| == MAX_FRAMES && hand < MAX_FRAMES
  {
    if best == -1 then forall i: nat :: i < MAX_FRAMES ==> !Tracked(fs[i])
    else
      && 0 <= best < MAX_FRAMES && Tracked(fs[best])
      && forall i: nat :: i < MAX_FRAMES && Tracked(fs[i]) && i != best ==> Preferred(fs, levels, hand, best, i)
  }

  predicate AtStep(hand0: nat, hand: nat, k: nat) {
    hand0 < MAX_FRAMES && hand < MAX_FRAMES && k <= 2 * MAX_FRAMES
    && Distance(hand0, hand) == if k < 20 then k else if k < 40 then k - 20 else 0
  }

  lemma HandAdvances(hand0: nat, hand: nat, k: nat)
    requires AtStep(hand0, hand, k) && k < 2 * MAX_FRAMES
    ensures AtStep(hand0, NextHand(hand), k + 1)
  {
  }

  lemma TurnUnderHand(fs: seq<Frame>, hand0: nat, hand: nat, k: nat, i: nat)
    requires TableSize(fs) && AtStep(hand0, hand, k) && k < 2 * MAX_FRAMES && i < MAX_FRAMES
    ensures Turn(fs, hand0, i) == k ==> i == hand
  {
  }

  /** When no frame becomes a candidate at step k, the leader stays. */
  lemma LeadsIdle(fs: seq<Frame>, levels: seq<int>, hand0: nat, hand: nat, k: nat, best: int, bestLevel: int)
    requires TableSize(fs) && |levels| == MAX_FRAMES && AtStep(hand0, hand, k) && k < 2 * MAX_FRAMES
    requires Leads(fs, levels, hand0, k, best, bestLevel)
    requires Tracked(fs[hand]) ==> Turn(fs, hand0, hand) != k
    ensures Leads(fs, levels, hand0, k + 1, best, bestLevel)
  {
    forall i: nat | i < MAX_FRAMES && Tracked(fs[i])
      ensures Turn(fs, hand0, i) < k + 1 ==> Turn(fs, hand0, i) < k
    {
      TurnUnderHand(fs, hand0, hand, k, i);
    }
  }

  /** When the frame under the hand becomes a candidate, the strict comparison keeps the leader right. */
  lemma LeadsTake(fs: seq<Frame>, levels: seq<int>, hand0: nat, hand: nat, k: nat, best: int, bestLevel: int)
    requires TableSize(fs) && |levels| == MAX_FRAMES && AtStep(hand0, hand, k) && k < 2 * MAX_FRAMES
    requires Leads(fs, levels, hand0, k, best, bestLevel) && 0 <= levels[hand]
    requires Tracked(fs[hand]) && Turn(fs, hand0, hand) <= k
    ensures var take := levels[hand] > bestLevel;
            Leads(fs, levels, hand0, k + 1, if take then hand else best, if take then levels[hand] else bestLevel)
  {
    forall i: nat | i < MAX_FRAMES && Tracked(fs[i])
      ensures Turn(fs, hand0, i) < k + 1 ==> Turn(fs, hand0, i) < k || i == hand
    {
      TurnUnderHand(fs, hand0, hand, k, i);
    }
  }

  lemma LeadsEnd(fs: seq<Frame>, levels: seq<int>, hand0: nat, k: nat, best: int, bestLevel: int)
    requires TableSize(fs) && |levels| == MAX_FRAMES && hand0 < MAX_FRAMES
    requires forall i :: 0 <= i < MAX_FRAMES ==> 0 <= levels[i] <= 3
    requires Leads(fs, levels, hand0, k, best, bestLevel) && (k == 2 * MAX_FRAMES || bestLevel == 3)
    ensures BestOverall(fs, levels, hand0, best)
  {
  }

  /** The number of steps of the scan: it stops at a frame of level 3, and otherwise after two laps. */
  function Steps(fs: seq<Frame>, levels: seq<int>, hand: nat, victim: int): nat
    requires TableSize(fs) && |levels| == MAX_FRAMES && hand < MAX_FRAMES && victim < MAX_FRAMES
  {
    if victim >= 0 && levels[victim] == 3 then Turn(fs, hand, victim) + 1 else 40
  }

  /** The hand is past the last frame looked at, and the reference bits of exactly the user frames passed are clear. */
  predicate Stopped(fs: seq<Frame>, levels: seq<int>, hand: nat, c: Choice)
    requires TableSize(fs) && |levels| == MAX_FRAMES && hand < MAX_FRAMES
  {
    TableSize(c.frames) && c.victim < MAX_FRAMES
    && var k := Steps(fs, levels, hand, c.victim);
       c.hand == (hand + k) % 20 && Passed(fs, c.frames, hand, k)
  }

  lemma HandAt(hand0: nat, hand: nat, k: nat)
    requires AtStep(hand0, hand, k)
    ensures hand == (hand0 + k) % 20
  {
  }

  /** The frame that ends the scan early is looked at for the first time without its bit. */
  lemma StopsAtTurn(fs0: seq<Frame>, fs: seq<Frame>, levels: seq<int>, hand0: nat, hand: nat, k: nat, best: int,
                    bestLevel: int)
    requires TableSize(fs0) && TableSize(fs) && |levels| == MAX_FRAMES && AtStep(hand0, hand, k) && k < 40
    requires Passed(fs0, fs, hand0, k) && Leads(fs0, levels, hand0, k, best, bestLevel)
    requires Tracked(fs[hand]) && !fs[hand].refBit && levels[hand] > bestLevel
    ensures Turn(fs0, hand0, hand) == k && Passed(fs0, fs, hand0, k + 1)
  {
  }

  lemma StopsHere(fs0: seq<Frame>, fs: seq<Frame>, levels: seq<int>, hand0: nat, hand: nat, k: nat)
    requires TableSize(fs0) && TableSize(fs) && |levels| == MAX_FRAMES && AtStep(hand0, hand, k) && k < 40
    requires Turn(fs0, hand0, hand) == k && Passed(fs0, fs, hand0, k + 1) && levels[hand] == 3
    ensures Stopped(fs0, levels, hand0, Choice(fs, NextHand(hand), hand))
  {
    HandAdvances(hand0, hand, k);
    HandAt(hand0, NextHand(hand), k + 1);
  }

  /** What step k of the scan does to the bits and to the turns still to come. */
  lemma StepOfScan(fs0: seq<Frame>, fs: seq<Frame>, hand0: nat, hand: nat, k: nat)
    requires TableSize(fs0) && TableSize(fs) && AtStep(hand0, hand, k) && k < 2 * MAX_FRAMES
    requires Passed(fs0, fs, hand0, k)
    ensures Tracked(fs0[hand]) == Tracked(fs[hand]) && AtStep(hand0, NextHand(hand), k + 1)
    ensures Tracked(fs[hand]) && fs[hand].refBit ==>
              Turn(fs0, hand0, hand) != k && Passed(fs0, fs[hand := fs[hand].(refBit := false)], hand0, k + 1)
    ensures !Tracked(fs[hand]) || !fs[hand].refBit ==> Passed(fs0, fs, hand0, k + 1)
    ensures Tracked(fs[hand]) && !fs[hand].refBit ==> Turn(fs0, hand0, hand) <= k
  {
    HandAdvances(hand0, hand, k);
  }

  /** The whole scan: it finds the best frame, and stops where `Stopped` says. */
  lemma {:induction false} ScanLeads(fs0: seq<Frame>, fs: seq<Frame>, levels: seq<int>, hand0: nat, hand: nat,
                                     k: nat, best: int, bestLevel: int)
    requires TableSize(fs0) && TableSize(fs) && |levels| == MAX_FRAMES && AtStep(hand0, hand, k)
    requires forall i :: 0 <= i < MAX_FRAMES ==> 0 <= levels[i] <= 3
    requires Passed(fs0, fs, hand0, k) && Leads(fs0, levels, hand0, k, best, bestLevel) && bestLevel < 3
    ensures var c := Scan(fs, levels, hand, k, best, bestLevel);
            BestOverall(fs0, levels, hand0, c.victim) && Stopped(fs0, levels, hand0, c)
    decreases 2 * |fs| - k
  {
    if k == 2 * MAX_FRAMES {
      hide BestOverall;
      HandAt(hand0, hand, k);
      LeadsEnd(fs0, levels, hand0, k, best, bestLevel);
    } else {
      StepOfScan(fs0, fs, hand0, hand, k);
      hide Leads, BestOverall, Stopped, Passed, Turn, AtStep;
      if !Tracked(fs[hand]) {
        LeadsIdle(fs0, levels, hand0, hand, k, best, bestLevel);
        ScanLeads(fs0, fs, levels, hand0, NextHand(hand), k + 1, best, bestLevel);
      } else if fs[hand].refBit {
        LeadsIdle(fs0, levels, hand0, hand, k, best, bestLevel);
        ScanLeads(fs0, fs[hand := fs[hand].(refBit := false)], levels, hand0, NextHand(hand), k + 1, best, bestLevel);
      } else {
        LeadsTake(fs0, levels, hand0, hand, k, best, bestLevel);
        var take := levels[hand] > bestLevel;
        var best' := if take then hand else best;
        var bestLevel' := if take then levels[hand] else bestLevel;
        if bestLevel' == 3 {
          LeadsEnd(fs0, levels, hand0, k + 1, best', bestLevel');
          StopsAtTurn(fs0, fs, levels, hand0, hand, k, best, bestLevel);
          StopsHere(fs0, fs, levels, hand0, hand, k);
        } else {
          ScanLeads(fs0, fs, levels, hand0, NextHand(hand), k + 1, best', bestLevel');
        }
      }
    }
  }

  /** Main result on replacement: with owner levels in 0..3 the victim is the user frame preferred to
      every other, and -1 is answered exactly when there is none; the fallback loop never decides. */
  lemma VictimCharacterised(fs: seq<Frame>, levels: seq<int>, hand: nat)
    requires TableSize(fs) && |levels| == MAX_FRAMES && hand < MAX_FRAMES
    requires forall i :: 0 <= i < MAX_FRAMES ==> 0 <= levels[i] <= 3
    ensures BestOverall(fs, levels, hand, SelectVictim(fs, levels, hand).victim)
    ensures SelectVictim(fs, levels, hand) == Scan(fs, levels, hand, 0, -1, -1)
  {
    ScanLeads(fs, fs, levels, hand, hand, 0, -1, -1);
    ScanFrame(fs, levels, hand, 0, -1, -1);
    SelectFrame(fs, levels, hand);
  }

  /** Where the hand stops and which reference bits the scan clears. */
  lemma SelectStops(fs: seq<Frame>, levels: seq<int>, hand: nat)
    requires TableSize(fs) && |levels| == MAX_FRAMES && hand < MAX_FRAMES
    requires forall i :: 0 <= i < MAX_FRAMES ==> 0 <= levels[i] <= 3
    ensures Stopped(fs, levels, hand, SelectVictim(fs, levels, hand))
  {
    VictimCharacterised(fs, levels, hand);
    ScanLeads(fs, fs, levels, hand, hand, 0, -1, -1);
  }

  /** The preference is total on frames, so the victim is determined. */
  lemma PreferenceTotal(fs: seq<Frame>, levels: seq<int>, hand: nat, i: nat, j: nat)
    requires TableSize(fs) && |levels| == MAX_FRAMES && hand < MAX_FRAMES && i < MAX_FRAMES && j < MAX_FRAMES
    ensures i != j ==> (Preferred(fs, levels, hand, i, j) <==> !Preferred(fs, levels, hand, j, i))
  {
  }
}
