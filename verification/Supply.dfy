/** Exactly when growth, process creation and fork succeed: counting free pages, missing table pages and free
    swap slots instead of following the code. */
module Supply {
  import opened Options
  import opened Bytes
  import opened Frames
  import opened Paging
  import opened Eviction
  import opened Fault
  import opened AddressSpace
  import opened Processes
  import opened Fork
  import opened UserCopy
  import R = Raid

  /** Which level-1 and level-0 tables a page table has. */
  datatype Shape = Shape(mids: set<nat>, lows: set<nat>)

  function ShapeOf(s: State, p: Pid): Shape
    requires Live(s, p)
  {
    Shape(s.procs[p].pt.value.mids.Keys, s.procs[p].pt.value.lows.Keys)
  }

  function Missing(sh: Shape, v: nat): nat {
    (if v / 262144 in sh.mids then 0 else 1) + (if v / 512 in sh.lows then 0 else 1)
  }

  function With(sh: Shape, v: nat): Shape {
    Shape(sh.mids + {v / 262144}, sh.lows + {v / 512})
  }

  /** Physical pages that mapping the pages from v up to n takes, tables included. */
  function PagesNeeded(sh: Shape, v: nat, n: nat): nat
    decreases n - v
  {
    if v >= n then 0 else 1 + Missing(sh, v) + PagesNeeded(With(sh, v), v + 1, n)
  }

  /** At least the pages themselves. */
  lemma {:induction false} PagesAtLeast(sh: Shape, v: nat, n: nat)
    requires v <= n
    ensures PagesNeeded(sh, v, n) >= n - v
    decreases n - v
  {
    if v < n { PagesAtLeast(With(sh, v), v + 1, n); }
  }

  lemma WalkCount(s: State, p: Pid, v: nat)
    requires Wf(s) && Live(s, p)
    ensures var (s', ok) := Walk(s, p, v);
            && Live(s', p)
            && (ok <==> |s.free| >= Missing(ShapeOf(s, p), v))
            && (ok ==> |s'.free| == |s.free| - Missing(ShapeOf(s, p), v) && ShapeOf(s', p) == With(ShapeOf(s, p), v))
  {
    hide EnsureMid, EnsureLow;
    MidCount(s, p, v / 262144);
    var (s1, ok) := EnsureMid(s, p, v / 262144);
    if ok { LowCount(s1, p, v / 512); }
  }

  lemma MidCount(s: State, p: Pid, k: nat)
    requires Wf(s) && Live(s, p)
    ensures var (s', ok) := EnsureMid(s, p, k);
            && Wf(s') && Live(s', p) && (ok <==> k in ShapeOf(s, p).mids || s.free != [])
            && (ok ==> |s'.free| == |s.free| - (if k in ShapeOf(s, p).mids then 0 else 1)
                       && ShapeOf(s', p) == Shape(ShapeOf(s, p).mids + {k}, ShapeOf(s, p).lows))
  {
  }

  lemma LowCount(s: State, p: Pid, k: nat)
    requires Wf(s) && Live(s, p)
    ensures var (s', ok) := EnsureLow(s, p, k);
            && Wf(s') && Live(s', p) && (ok <==> k in ShapeOf(s, p).lows || s.free != [])
            && (ok ==> |s'.free| == |s.free| - (if k in ShapeOf(s, p).lows then 0 else 1)
                       && ShapeOf(s', p) == Shape(ShapeOf(s, p).mids, ShapeOf(s, p).lows + {k}))
  {
  }

  /** Placing one page takes it and its missing tables, and succeeds exactly if they are there. */
  lemma PlaceCount(s: State, p: Pid, v: nat, x: Page, perm: Perm)
    requires Wf(s) && Live(s, p) && !Mapped(s, p, v)
    ensures var (s', ok) := PlaceFresh(s, p, v, x, perm);
            && Live(s', p)
            && (ok <==> |s.free| >= 1 + Missing(ShapeOf(s, p), v))
            && (ok ==>
                  && |s'.free| == |s.free| - 1 - Missing(ShapeOf(s, p), v)
                  && ShapeOf(s', p) == With(ShapeOf(s, p), v))
  {
    hide Walk;
    if s.free != [] {
      var s1 := Pop(s, Fill(PGSIZE, 5)).(mem := Pop(s, Fill(PGSIZE, 5)).mem[Top(s) := x]);
      WalkCount(s1, p, v);
      WalkOnly(s1, p, v);
    }
  }

  /** uvmalloc succeeds exactly if the free list covers the pages and the tables. */
  lemma {:induction false} GrowFromIff(s: State, p: Pid, start: nat, v: nat, n: nat)
    requires Wf(s) && Live(s, p) && start <= v && Unmapped(s.procs, p, v, n)
    ensures GrowFrom(s, p, start, v, n).1 <==> |s.free| >= PagesNeeded(ShapeOf(s, p), v, n)
    decreases n - v
  {
    hide PlaceFresh;
    if v < n {
      PlaceCount(s, p, v, ZERO_PAGE, RWU);
      PlaceFreshOnly(s, p, v, ZERO_PAGE, RWU);
      var (s1, ok) := PlaceFresh(s, p, v, ZERO_PAGE, RWU);
      if ok { GrowFromIff(s1, p, start, v + 1, n); }
    }
  }

  /** growproc upwards. */
  lemma GrowIff(s: State, p: Pid, n: nat)
    requires Inv(s) && Live(s, p)
    ensures var sz := s.procs[p].sz;
            && Wf(s) && Unmapped(s.procs, p, PagesFor(sz), PagesFor(sz + n))
            && (Grow(s, p, n).1 <==>
                sz + n <= TRAPFRAME && |s.free| >= PagesNeeded(ShapeOf(s, p), PagesFor(sz), PagesFor(sz + n)))
  {
    hide Core, GrowFrom, PagesNeeded;
    CoreWf(s, {}, {});
    GrowCorrect(s, p, n);
    var sz := s.procs[p].sz;
    GrowFromIff(s, p, PagesFor(sz), PagesFor(sz), PagesFor(sz + n));
  }

  // ----- process creation -----

  /** The tables that trampoline and trapframe need. */
  const TOP: Shape := Shape({255}, {131071})

  /** allocproc takes a trapframe, a root and two tables, and succeeds exactly if four pages are free. */
  lemma AllocProcIff(s: State, c: Pid)
    requires Wf(s) && s.procs[c].pt.None?
    ensures var (s', ok) := AllocProc(s, c);
            && (ok <==> |s.free| >= 4)
            && (ok ==> Live(s', c) && |s'.free| == |s.free| - 4 && ShapeOf(s', c) == TOP)
  {
    hide Walk, FreeWalk;
    if |s.free| >= 2 {
      var s1 := Pop(s, Fill(PGSIZE, 5));
      var s2 := s1.(procs := s1.procs[c := s1.procs[c].(trapframe := Some(Top(s)))]);
      var s4 := WithRoot(s2, c);
      WalkCount(s4, c, MAX_VPN - 1);
      WalkOnly(s4, c, MAX_VPN - 1);
      var (s5, ok) := Walk(s4, c, MAX_VPN - 1);
      assert ShapeOf(s4, c) == Shape({}, {});
      if ok {
        assert ShapeOf(s5, c) == TOP;
        WalkCount(s5, c, TRAPFRAME_VPN);
        assert With(TOP, TRAPFRAME_VPN) == TOP;
      }
    }
  }

  // ----- fork -----

  datatype Kind = Resident | Swapped | Untouched

  function KindOf(s: State, p: Pid, v: nat): Kind
    requires Wf(s)
  {
    if Mapped(s, p, v) then Resident else if FindSwap(s.swapMap, p, v, 0) != -1 then Swapped else Untouched
  }

  function Kinds(s: State, p: Pid, n: nat): (ks: seq<Kind>)
    requires Wf(s)
    ensures |ks| == n
  {
    seq(n, v requires 0 <= v < n => KindOf(s, p, v))
  }

  /** Whether the pages from v on can be copied: a resident page takes a page and missing tables, a swapped one
      borrows a page and takes a swap slot and a map entry. */
  predicate CanCopy(ks: seq<Kind>, sh: Shape, free: nat, slots: nat, entries: nat, v: nat)
    decreases |ks| - v
  {
    v >= |ks| ||
    match ks[v]
    case Resident =>
      free >= 1 + Missing(sh, v) && CanCopy(ks, With(sh, v), free - 1 - Missing(sh, v), slots, entries, v + 1)
    case Swapped => free >= 1 && slots >= 1 && entries >= 1 && CanCopy(ks, sh, free, slots - 1, entries - 1, v + 1)
    case Untouched => CanCopy(ks, sh, free, slots, entries, v + 1)
  }

  function FreeSlots(used: seq<bool>, n: nat): nat
    requires n <= |used|
  {
    if n == 0 then 0 else FreeSlots(used, n - 1) + if used[n - 1] then 0 else 1
  }

  function FreeEntries(m: seq<SwapEntry>, n: nat): nat
    requires n <= |m|
  {
    if n == 0 then 0 else FreeEntries(m, n - 1) + if m[n - 1].used then 0 else 1
  }

  lemma {:induction false} SlotTaken(used: seq<bool>, n: nat, i: nat)
    requires n <= |used| && i < |used| && !used[i]
    ensures FreeSlots(used[i := true], n) == FreeSlots(used, n) - (if i < n then 1 else 0)
  {
    if n > 0 { SlotTaken(used, n - 1, i); }
  }

  lemma {:induction false} EntryTaken(m: seq<SwapEntry>, n: nat, i: nat, e: SwapEntry)
    requires n <= |m| && i < |m| && !m[i].used && e.used
    ensures FreeEntries(m[i := e], n) == FreeEntries(m, n) - (if i < n then 1 else 0)
  {
    if n > 0 { EntryTaken(m, n - 1, i, e); }
  }

  lemma {:induction false} NoSlots(used: seq<bool>, n: nat)
    requires n <= |used|
    ensures FreeSlots(used, n) == 0 <==> forall k :: 0 <= k < n ==> used[k]
  {
    if n > 0 { NoSlots(used, n - 1); }
  }

  lemma {:induction false} NoEntries(m: seq<SwapEntry>, n: nat)
    requires n <= |m|
    ensures FreeEntries(m, n) == 0 <==> forall k :: 0 <= k < n ==> m[k].used
  {
    if n > 0 { NoEntries(m, n - 1); }
  }

  lemma {:induction false} SlotsAreEntries(used: seq<bool>, m: seq<SwapEntry>, n: nat)
    requires |used| == |m| && n <= |m| && forall i :: 0 <= i < |m| ==> used[i] == m[i].used
    ensures FreeSlots(used, n) == FreeEntries(m, n)
  {
    if n > 0 { SlotsAreEntries(used, m, n - 1); }
  }

  function Slots(s: State): nat
    requires Wf(s)
  {
    FreeSlots(s.swapUsed, MAX_SWAP_PAGES)
  }

  function Entries(s: State): nat
    requires Wf(s)
  {
    FreeEntries(s.swapMap, MAX_SWAP_PAGES)
  }

  /** What one page costs. */
  ghost predicate Paid(s: State, s': State, parent: Pid, child: Pid, v: nat, ok: bool)
    requires Wf(s) && Live(s, child)
  {
    && Wf(s') && Live(s', child)
    && match KindOf(s, parent, v)
       case Resident =>
         && (ok <==> |s.free| >= 1 + Missing(ShapeOf(s, child), v))
         && (ok ==> |s'.free| == |s.free| - 1 - Missing(ShapeOf(s, child), v)
                    && ShapeOf(s', child) == With(ShapeOf(s, child), v)
                    && Slots(s') == Slots(s) && Entries(s') == Entries(s))
       case Swapped =>
         && (ok <==> |s.free| >= 1 && Slots(s) >= 1 && Entries(s) >= 1)
         && (ok ==> |s'.free| == |s.free| && ShapeOf(s', child) == ShapeOf(s, child)
                    && Slots(s') == Slots(s) - 1 && Entries(s') == Entries(s) - 1)
       case Untouched => ok && s' == s
  }

  lemma SwappedPaid(s: State, parent: Pid, child: Pid, v: nat)
    requires Wf(s) && Live(s, child) && KindOf(s, parent, v) == Swapped
    ensures var k := FindSwap(s.swapMap, parent, v, 0);
            var (s', ok) := CopySwapped(s, child, v, s.swapMap[k].slot); Paid(s, s', parent, child, v, ok)
  {
    hide R.ReadPage, R.WritePage, FreeSlots, FreeEntries;
    NoSlots(s.swapUsed, MAX_SWAP_PAGES);
    NoEntries(s.swapMap, MAX_SWAP_PAGES);
    var dst, e := FirstFreeSlot(s.swapUsed, 0), FirstFreeEntry(s.swapMap, 0);
    if dst != -1 {
      SlotTaken(s.swapUsed, MAX_SWAP_PAGES, dst);
      if e != -1 { EntryTaken(s.swapMap, MAX_SWAP_PAGES, e, SwapEntry(true, Some(child), v, dst)); }
    }
  }

  lemma CopyPaid(s: State, parent: Pid, child: Pid, v: nat)
    requires Wf(s) && Live(s, child) && !Mapped(s, child, v)
    ensures var (s', ok) := CopyPage(s, parent, child, v); Paid(s, s', parent, child, v, ok)
  {
    hide PlaceFresh, CopySwapped, FreeSlots, FreeEntries;
    CopyPageOnly(s, parent, child, v);
    match KindOf(s, parent, v)
    case Resident =>
      if s.free != [] {
        var e := LeafOf(s.procs, parent)[v];
        var x := Pop(s, Fill(PGSIZE, 5)).mem[e.pa];
        PlaceCount(s, child, v, x, e.perm);
        PlaceKeepsSwap(s, child, v, x, e.perm);
      }
    case Swapped => SwappedPaid(s, parent, child, v);
    case Untouched =>
  }

  lemma PlaceKeepsSwap(s: State, p: Pid, v: nat, x: Page, perm: Perm)
    requires Wf(s) && Live(s, p) && !Mapped(s, p, v)
    ensures var s' := PlaceFresh(s, p, v, x, perm).0; s'.swapUsed == s.swapUsed && s'.swapMap == s.swapMap
  {
    hide Walk;
    if s.free != [] {
      var s1 := Pop(s, Fill(PGSIZE, 5)).(mem := Pop(s, Fill(PGSIZE, 5)).mem[Top(s) := x]);
      WalkOnly(s1, p, v);
    }
  }

  /** Copying a page does not change what kind any page of the parent is. */
  lemma KindsKept(s: State, parent: Pid, child: Pid, v: nat, w: nat)
    requires Wf(s) && Live(s, child) && !Mapped(s, child, v) && parent != child
    ensures var s' := CopyPage(s, parent, child, v).0; Wf(s') && KindOf(s', parent, w) == KindOf(s, parent, w)
  {
    hide PlaceFresh, R.ReadPage, R.WritePage;
    CopyPageOnly(s, parent, child, v);
    if Mapped(s, parent, v) && s.free != [] {
      var e := LeafOf(s.procs, parent)[v];
      PlaceFreshOthers(s, child, v, Pop(s, Fill(PGSIZE, 5)).mem[e.pa], e.perm);
      PlaceKeepsSwap(s, child, v, Pop(s, Fill(PGSIZE, 5)).mem[e.pa], e.perm);
    }
    SameFound(s.swapMap, CopyPage(s, parent, child, v).0.swapMap, parent, child, w);
  }

  lemma SameFound(m: seq<SwapEntry>, m': seq<SwapEntry>, parent: Pid, child: Pid, w: nat)
    requires |m'| == |m| && parent != child
    requires forall k :: 0 <= k < |m| ==> m'[k] == m[k] || (!m[k].used && m'[k].proc == Some(child))
    ensures FindSwap(m', parent, w, 0) == -1 <==> FindSwap(m, parent, w, 0) == -1
  {
    hide FindSwap;
    var k, k' := FindSwap(m, parent, w, 0), FindSwap(m', parent, w, 0);
    if k != -1 { assert Matches(m'[k], parent, w); }
    if k' != -1 { assert Matches(m[k'], parent, w); }
  }

  /** uvmcopy succeeds exactly if pages, tables, slots and entries suffice, page by page. */
  lemma {:induction false} UvmCopyIff(s: State, parent: Pid, child: Pid, ks: seq<Kind>, v: nat)
    requires Wf(s) && Live(s, child) && parent != child && Unmapped(s.procs, child, v, |ks|)
    requires forall w :: v <= w < |ks| ==> ks[w] == KindOf(s, parent, w)
    ensures UvmCopyFrom(s, parent, child, v, |ks|).1 <==>
            CanCopy(ks, ShapeOf(s, child), |s.free|, Slots(s), Entries(s), v)
    decreases |ks| - v
  {
    hide CopyPage, KindOf, Missing, FreeSlots, FreeEntries;
    if v < |ks| {
      CopyPageOnly(s, parent, child, v);
      CopyPaid(s, parent, child, v);
      var (s1, ok) := CopyPage(s, parent, child, v);
      if ok {
        forall w | v <= w < |ks|
          ensures ks[w] == KindOf(s1, parent, w)
        {
          KindsKept(s, parent, child, v, w);
        }
        UvmCopyIff(s1, parent, child, ks, v + 1);
      }
    }
  }

  /** kfork gets a child exactly if a process slot and four pages are there and the copy can be paid for. */
  lemma ForkIff(s: State, parent: Pid)
    requires Inv(s) && Live(s, parent)
    ensures Wf(s)
    ensures KFork(s, parent).1.Some? <==>
            && (exists c: Pid :: s.procs[c].pt.None?)
            && |s.free| >= 4
            && CanCopy(Kinds(s, parent, PagesFor(s.procs[parent].sz)), TOP, |s.free| - 4, Slots(s), Slots(s), 0)
  {
    hide Core, AllocProc, UvmCopyFrom, CanCopy, FreeSlots, FreeEntries, FreeProc;
    CoreWf(s, {}, {});
    var c := FirstUnusedProc(s.procs, 0);
    if c != -1 {
      var child: Pid := c;
      assert s.procs[child].pt.None?;
      ForkIntoIff(s, parent, child);
    }
  }

  lemma ForkIntoIff(s: State, parent: Pid, c: Pid)
    requires Inv(s) && Live(s, parent) && s.procs[c].pt.None?
    ensures Wf(s)
    ensures ForkInto(s, parent, c).1.Some? <==>
            && |s.free| >= 4
            && CanCopy(Kinds(s, parent, PagesFor(s.procs[parent].sz)), TOP, |s.free| - 4, Slots(s), Slots(s), 0)
  {
    hide Core, AllocProc, UvmCopyFrom, CanCopy, FreeSlots, FreeEntries, FreeProc, M, Present, Everything;
    CoreWf(s, {}, {});
    AllocProcIff(s, c);
    AllocProcOnly(s, c);
    UnusedIsStranger(s, c);
    AllocProcCorrect(s, c);
    var (s1, ok) := AllocProc(s, c);
    if ok {
      var ks := Kinds(s, parent, PagesFor(s.procs[parent].sz));
      forall w | 0 <= w < |ks|
        ensures ks[w] == KindOf(s1, parent, w)
      {
        assert LeafOf(s1.procs, parent) == LeafOf(s.procs, parent);
      }
      UvmCopyIff(s1, parent, c, ks, 0);
      SwapCounts(s);
    }
  }

  lemma SwapCounts(s: State)
    requires Core(s, {}, {})
    ensures Wf(s) && Slots(s) == Entries(s)
  {
    SlotsAreEntries(s.swapUsed, s.swapMap, MAX_SWAP_PAGES);
  }

  // ----- user copies -----

  /** A user access to page v of p needs no fault. */
  predicate Accessible(s: State, p: Pid, v: nat, write: bool)
    requires Wf(s)
  {
    v < MAX_VPN && Mapped(s, p, v) && LeafOf(s.procs, p)[v].perm.u && (write ==> LeafOf(s.procs, p)[v].perm.w)
  }

  /** Every page of the range is. */
  ghost predicate RangeAccessible(s: State, p: Pid, a: nat, len: nat, write: bool)
    requires Wf(s)
  {
    forall v: nat :: a / 4096 <= v && v * 4096 < a + len ==> Accessible(s, p, v, write)
  }

  lemma RestAccessible(s: State, p: Pid, a: nat, len: nat, write: bool)
    requires Wf(s) && len > 0 && RangeAccessible(s, p, a, len, write)
    ensures Accessible(s, p, a / 4096, write)
    ensures RangeAccessible(s, p, (a / 4096 + 1) * 4096, len - Chunk(a, len), write)
  {
    var v, n := a / 4096, Chunk(a, len);
    assert v * 4096 < a + len;
    forall w: nat | v + 1 <= w && w * 4096 < (v + 1) * 4096 + (len - n)
      ensures Accessible(s, p, w, write)
    {
      if n == len { assert false; }
    }
  }

  /** copyin of a range that needs no fault succeeds and changes nothing. */
  lemma {:induction false} CopyInResident(s: State, p: Pid, a: nat, len: nat)
    requires Wf(s) && Live(s, p) && RangeAccessible(s, p, a, len, false)
    ensures CopyIn(s, p, a, len).ok && CopyIn(s, p, a, len).state == s
    decreases len
  {
    hide VmFault;
    if len > 0 {
      RestAccessible(s, p, a, len, false);
      CopyInResident(s, p, (a / 4096 + 1) * 4096, len - Chunk(a, len));
    }
  }

  /** copyout to such a range, if the pages can be written, succeeds and touches no table. */
  lemma {:induction false} CopyOutResident(s: State, p: Pid, dst: nat, src: seq<bv8>)
    requires Wf(s) && Live(s, p) && RangeAccessible(s, p, dst, |src|, true)
    ensures var r := CopyOut(s, p, dst, src); r.ok && r.state == s.(mem := r.state.mem)
    decreases |src|
  {
    hide VmFault;
    if src != [] {
      RestAccessible(s, p, dst, |src|, true);
      var v, n := dst / 4096, Chunk(dst, |src|);
      var pa := LeafOf(s.procs, p)[v].pa;
      var s2 := s.(mem := s.mem[pa := Splice(s.mem[pa], dst % 4096, src[..n])]);
      assert RangeAccessible(s2, p, (v + 1) * 4096, |src[n..]|, true) by {
        forall w: nat | v + 1 <= w && w * 4096 < (v + 1) * 4096 + |src[n..]|
          ensures Accessible(s2, p, w, true)
        {
          assert Accessible(s, p, w, true);
        }
      }
      CopyOutResident(s2, p, (v + 1) * 4096, src[n..]);
    }
  }
}
