/** The paging state, the primitive steps on it, and the ownership of physical pages.
    Addresses are page numbers: virtual page numbers (`vpn`) and physical page numbers (`Pa`). */
module Paging {
  import opened Options
  import opened Bytes
  import opened Frames
  import R = Raid

  const MAX_SWAP_PAGES: nat := R.MAX_SWAP_PAGES
  const NPAGES: nat := 32768             // pages between `end` and PHYSTOP
  const MAX_VPN: nat := 67108864         // MAXVA / PGSIZE
  const TRAPFRAME_VPN: nat := 67108862   // TRAPFRAME / PGSIZE

  type Pa = a: nat | a < NPAGES

  datatype Perm = Perm(r: bool, w: bool, x: bool, u: bool)

  const RWU: Perm := Perm(true, true, false, true)

  datatype Pte = Pte(pa: Pa, perm: Perm)

  datatype SwapEntry = SwapEntry(used: bool, proc: Option<Pid>, vpn: nat, slot: int)

  const NO_ENTRY: SwapEntry := SwapEntry(false, None, 0, -1)

  /** A page table: its root page, the level-1 and level-0 table pages that exist (by the index bits
      above them) and the valid user leaf entries. */
  datatype PageTable = PageTable(root: Pa, mids: map<nat, Pa>, lows: map<nat, Pa>, leaf: map<nat, Pte>)

  datatype Proc = Proc(sz: nat, pt: Option<PageTable>, trapframe: Option<Pa>, level: int)

  // The free list is written with its head last, so that pushing and popping keep indices.
  datatype State = State(frames: seq<Frame>, hand: nat, count: nat,
                         swapUsed: seq<bool>, swapMap: seq<SwapEntry>,
                         free: seq<Pa>, mem: seq<Page>, procs: seq<Proc>,
                         conf: R.Config, disk: R.Store)

  /** Array sizes and index ranges: what the code needs in order not to index out of its arrays. */
  predicate Wf(s: State) {
    && TableSize(s.frames) && s.hand < MAX_FRAMES
    && |s.swapUsed| == MAX_SWAP_PAGES && |s.swapMap| == MAX_SWAP_PAGES
    && |s.mem| == NPAGES && |s.procs| == NPROC
    && forall i :: 0 <= i < MAX_SWAP_PAGES && s.swapMap[i].used ==> 0 <= s.swapMap[i].slot < MAX_SWAP_PAGES
  }

  predicate Live(s: State, p: Pid) {
    |s.procs| == NPROC && s.procs[p].pt.Some?
  }

  function LeafOf(procs: seq<Proc>, p: Pid): map<nat, Pte>
    requires |procs| == NPROC
  {
    match procs[p].pt
    case None => map[]
    case Some(pt) => pt.leaf
  }

  predicate Mapped(s: State, p: Pid, v: nat)
    requires |s.procs| == NPROC
  {
    v in LeafOf(s.procs, p)
  }

  function PagesFor(sz: nat): nat {
    (sz + 4095) / 4096
  }

  // ----- searches in the swap tables -----

  predicate Matches(e: SwapEntry, p: Pid, v: nat) {
    e.used && e.proc == Some(p) && e.vpn == v
  }

  function FindSwap(m: seq<SwapEntry>, p: Pid, v: nat, i: nat): (r: int)
    requires i <= |m|
    ensures r == -1 || i <= r < |m|
    ensures r == -1 ==> forall k :: i <= k < |m| ==> !Matches(m[k], p, v)
    ensures r != -1 ==> Matches(m[r], p, v) && forall k :: i <= k < r ==> !Matches(m[k], p, v)
    decreases |m| - i
  {
    if i == |m| then -1 else if Matches(m[i], p, v) then i else FindSwap(m, p, v, i + 1)
  }

  function FirstFreeSlot(used: seq<bool>, i: nat): (r: int)
    requires i <= |used|
    ensures r == -1 || i <= r < |used|
    ensures r == -1 ==> forall k :: i <= k < |used| ==> used[k]
    ensures r != -1 ==> !used[r] && forall k :: i <= k < r ==> used[k]
    decreases |used| - i
  {
    if i == |used| then -1 else if !used[i] then i else FirstFreeSlot(used, i + 1)
  }

  function FirstFreeEntry(m: seq<SwapEntry>, i: nat): (r: int)
    requires i <= |m|
    ensures r == -1 || i <= r < |m|
    ensures r == -1 ==> forall k :: i <= k < |m| ==> m[k].used
    ensures r != -1 ==> !m[r].used && forall k :: i <= k < r ==> m[k].used
    decreases |m| - i
  {
    if i == |m| then -1 else if !m[i].used then i else FirstFreeEntry(m, i + 1)
  }

  // ----- the flat view -----

  datatype Cell = Cell(data: Page, perm: Perm)

  const ZERO_CELL: Cell := Cell(ZERO_PAGE, RWU)

  /** What process p finds in page v: the mapped page if resident, the page rebuilt from the RAID
      array if swapped out, and zeroes if it was never touched. */
  function M(s: State, p: Pid, v: nat): Cell
    requires Wf(s)
  {
    var leaf := LeafOf(s.procs, p);
    if v in leaf then Cell(s.mem[leaf[v].pa], leaf[v].perm)
    else
      var k := FindSwap(s.swapMap, p, v, 0);
      if k == -1 then ZERO_CELL else Cell(R.ReadPage(s.conf, s.disk, s.swapMap[k].slot), RWU)
  }

  /** No process sees any page change. */
  ghost predicate SameView(s: State, s': State)
    requires Wf(s) && Wf(s')
  {
    forall p: Pid, v: nat :: M(s', p, v) == M(s, p, v)
  }

  /** Page v of p exists somewhere: in memory or in swap. */
  predicate Present(s: State, p: Pid, v: nat)
    requires Wf(s)
  {
    Mapped(s, p, v) || FindSwap(s.swapMap, p, v, 0) != -1
  }

  // ----- primitive steps -----

  function SetPt(procs: seq<Proc>, p: Pid, pt: PageTable): (r: seq<Proc>)
    requires |procs| == NPROC
    ensures |r| == NPROC
  {
    procs[p := procs[p].(pt := Some(pt))]
  }

  function SetLeaf(procs: seq<Proc>, p: Pid, v: nat, e: Pte): (r: seq<Proc>)
    requires |procs| == NPROC && procs[p].pt.Some?
    ensures |r| == NPROC
  {
    var pt := procs[p].pt.value;
    SetPt(procs, p, pt.(leaf := pt.leaf[v := e]))
  }

  function ClearLeaf(procs: seq<Proc>, p: Pid, v: nat): (r: seq<Proc>)
    requires |procs| == NPROC && procs[p].pt.Some?
    ensures |r| == NPROC
  {
    var pt := procs[p].pt.value;
    SetPt(procs, p, pt.(leaf := pt.leaf - {v}))
  }

  function Push(s: State, pa: Pa): State
    requires |s.mem| == NPAGES
  {
    s.(free := s.free + [pa], mem := s.mem[pa := Fill(PGSIZE, 1)])
  }

  /** A freed page keeps none of its bytes, and no other page changes. */
  lemma FreedPage(s: State, pa: Pa)
    requires |s.mem| == NPAGES
    ensures forall i :: 0 <= i < 4096 ==> Push(s, pa).mem[pa][i] == 1
    ensures forall a: Pa :: a != pa ==> Push(s, pa).mem[a] == s.mem[a]
  {
  }

  function Top(s: State): Pa
    requires s.free != []
  {
    s.free[|s.free| - 1]
  }

  function Pop(s: State, fill: Page): State
    requires |s.mem| == NPAGES && s.free != []
  {
    s.(free := s.free[..|s.free| - 1], mem := s.mem[Top(s) := fill])
  }

  /** kalloc: the head of the free list, filled with 5s. */
  function Kalloc(s: State): (State, Option<Pa>)
    requires |s.mem| == NPAGES
  {
    if s.free == [] then (s, None) else (Pop(s, Fill(PGSIZE, 5)), Some(Top(s)))
  }

  // ----- who owns a physical page -----

  datatype Loc =
    | FreeLoc(i: nat)
    | LeafLoc(p: Pid, v: nat)
    | RootLoc(p: Pid)
    | MidLoc(p: Pid, k: nat)
    | LowLoc(p: Pid, k: nat)
    | TrapLoc(p: Pid)

  function At(free: seq<Pa>, procs: seq<Proc>, l: Loc): Option<Pa>
    requires |procs| == NPROC
  {
    match l
    case FreeLoc(i) => if i < |free| then Some(free[i]) else None
    case TrapLoc(p) => procs[p].trapframe
    case RootLoc(p) => if procs[p].pt.Some? then Some(procs[p].pt.value.root) else None
    case MidLoc(p, k) =>
      if procs[p].pt.Some? && k in procs[p].pt.value.mids then Some(procs[p].pt.value.mids[k]) else None
    case LowLoc(p, k) =>
      if procs[p].pt.Some? && k in procs[p].pt.value.lows then Some(procs[p].pt.value.lows[k]) else None
    case LeafLoc(p, v) =>
      if procs[p].pt.Some? && v in procs[p].pt.value.leaf then Some(procs[p].pt.value.leaf[v].pa) else None
  }

  /** No page is in two places: not mapped twice, not both mapped and free, not a table page and a data
      page; and the pages in `held` (allocated, not yet placed) are in none. */
  ghost predicate Disjoint(free: seq<Pa>, procs: seq<Proc>, held: set<Pa>)
    requires |procs| == NPROC
  {
    && (forall l :: At(free, procs, l).Some? ==> At(free, procs, l).value !in held)
    && (forall l, l' :: At(free, procs, l).Some? && At(free, procs, l) == At(free, procs, l') ==> l == l')
  }

  /** Every page that is somewhere, or held. */
  ghost function Everything(free: seq<Pa>, procs: seq<Proc>, held: set<Pa>): set<Pa>
    requires |procs| == NPROC
  {
    set a: nat | a < NPAGES && (a in held || exists l :: At(free, procs, l) == Some(a)) :: a
  }

  /** No page is lost and none is invented. */
  ghost predicate Conserves(s: State, held: set<Pa>, s': State, held': set<Pa>)
    requires |s.procs| == NPROC && |s'.procs| == NPROC
  {
    Everything(s'.free, s'.procs, held') == Everything(s.free, s.procs, held)
  }

  /** Every place but `l` keeps its page. */
  ghost predicate OthersStay(free: seq<Pa>, procs: seq<Proc>, free': seq<Pa>, procs': seq<Proc>, l: Loc)
    requires |procs| == NPROC && |procs'| == NPROC
  {
    forall m :: m != l ==> At(free', procs', m) == At(free, procs, m)
  }

  lemma PlaceHeld(free: seq<Pa>, procs: seq<Proc>, held: set<Pa>, free': seq<Pa>, procs': seq<Proc>, l: Loc, pa: Pa)
    requires |procs| == NPROC && |procs'| == NPROC
    requires Disjoint(free, procs, held) && pa in held
    requires OthersStay(free, procs, free', procs', l)
    requires At(free, procs, l).None? && At(free', procs', l) == Some(pa)
    ensures Disjoint(free', procs', held - {pa})
    ensures Everything(free', procs', held - {pa}) == Everything(free, procs, held)
  {
    forall a: nat | a < NPAGES
      ensures a in Everything(free', procs', held - {pa}) <==> a in Everything(free, procs, held)
    {
      forall m | At(free, procs, m) == Some(a)
        ensures At(free', procs', m) == Some(a)
      {
      }
      forall m | At(free', procs', m) == Some(a)
        ensures At(free, procs, m) == Some(a) || a == pa
      {
      }
    }
  }

  lemma TakeHeld(free: seq<Pa>, procs: seq<Proc>, held: set<Pa>, free': seq<Pa>, procs': seq<Proc>, l: Loc)
    requires |procs| == NPROC && |procs'| == NPROC
    requires Disjoint(free, procs, held)
    requires OthersStay(free, procs, free', procs', l)
    requires At(free, procs, l).Some? && At(free', procs', l).None?
    ensures Disjoint(free', procs', held + {At(free, procs, l).value})
    ensures Everything(free', procs', held + {At(free, procs, l).value}) == Everything(free, procs, held)
  {
    var pa := At(free, procs, l).value;
    forall a: nat | a < NPAGES
      ensures a in Everything(free', procs', held + {pa}) <==> a in Everything(free, procs, held)
    {
      forall m | At(free, procs, m) == Some(a)
        ensures At(free', procs', m) == Some(a) || a == pa
      {
      }
      forall m | At(free', procs', m) == Some(a)
        ensures At(free, procs, m) == Some(a)
      {
      }
    }
  }

  lemma PopDisjoint(s: State, held: set<Pa>, fill: Page)
    requires Wf(s) && s.free != [] && Disjoint(s.free, s.procs, held)
    ensures Disjoint(Pop(s, fill).free, s.procs, held + {Top(s)}) && Top(s) !in held
    ensures Conserves(s, held, Pop(s, fill), held + {Top(s)})
  {
    TakeHeld(s.free, s.procs, held, Pop(s, fill).free, s.procs, FreeLoc(|s.free| - 1));
  }

  lemma PushDisjoint(s: State, held: set<Pa>, pa: Pa)
    requires Wf(s) && Disjoint(s.free, s.procs, held) && pa in held
    ensures Disjoint(Push(s, pa).free, s.procs, held - {pa})
    ensures Conserves(s, held, Push(s, pa), held - {pa})
  {
    PlaceHeld(s.free, s.procs, held, Push(s, pa).free, s.procs, FreeLoc(|s.free|), pa);
  }

  lemma SetLeafDisjoint(free: seq<Pa>, procs: seq<Proc>, held: set<Pa>, p: Pid, v: nat, e: Pte)
    requires |procs| == NPROC && procs[p].pt.Some? && v !in LeafOf(procs, p)
    requires Disjoint(free, procs, held) && e.pa in held
    ensures Disjoint(free, SetLeaf(procs, p, v, e), held - {e.pa})
    ensures Everything(free, SetLeaf(procs, p, v, e), held - {e.pa}) == Everything(free, procs, held)
  {
    PlaceHeld(free, procs, held, free, SetLeaf(procs, p, v, e), LeafLoc(p, v), e.pa);
  }

  lemma ClearLeafDisjoint(free: seq<Pa>, procs: seq<Proc>, held: set<Pa>, p: Pid, v: nat)
    requires |procs| == NPROC && v in LeafOf(procs, p)
    requires Disjoint(free, procs, held)
    ensures Disjoint(free, ClearLeaf(procs, p, v), held + {LeafOf(procs, p)[v].pa})
    ensures Everything(free, ClearLeaf(procs, p, v), held + {LeafOf(procs, p)[v].pa}) == Everything(free, procs, held)
  {
    TakeHeld(free, procs, held, free, ClearLeaf(procs, p, v), LeafLoc(p, v));
  }

  // ----- invariants -----

  /** swap_used[i] holds exactly when swap_map[i] is in use, and then swap_map[i] names slot i. */
  predicate SwapTables(used: seq<bool>, m: seq<SwapEntry>) {
    && |used| == |m| == MAX_SWAP_PAGES
    && forall i :: 0 <= i < MAX_SWAP_PAGES ==>
         && used[i] == m[i].used
         && (if m[i].used then m[i].slot == i && m[i].proc.Some? else m[i] == NO_ENTRY)
  }

  /** A (process, page) pair has at most one swap entry. */
  predicate SwapUnique(m: seq<SwapEntry>) {
    forall i, j ::
      (0 <= i < |m| && 0 <= j < |m| && m[i].used && m[j].used && m[i].proc == m[j].proc && m[i].vpn == m[j].vpn)
      ==> i == j
  }

  /** A swapped page belongs to a live process and is not mapped as well. */
  predicate SwapExclusive(m: seq<SwapEntry>, procs: seq<Proc>)
    requires |procs| == NPROC
  {
    forall i :: 0 <= i < |m| && m[i].used && m[i].proc.Some? ==>
                  procs[m[i].proc.value].pt.Some? && m[i].vpn !in LeafOf(procs, m[i].proc.value)
  }

  /** Every frame in use is a user frame with a valid, writable user mapping; the frames of the pairs
      in `pending` have been registered and wait for theirs. */
  predicate FramesMapped(fs: seq<Frame>, procs: seq<Proc>, pending: set<(Pid, nat)>)
    requires |procs| == NPROC
  {
    forall i :: 0 <= i < |fs| && fs[i].used ==>
      && fs[i].userFrame && fs[i].proc.Some?
      && ((fs[i].proc.value, fs[i].vpn) in pending
          || (fs[i].vpn in LeafOf(procs, fs[i].proc.value) && LeafOf(procs, fs[i].proc.value)[fs[i].vpn].perm == RWU))
  }

  predicate FramesUnique(fs: seq<Frame>) {
    forall i, j ::
      (0 <= i < |fs| && 0 <= j < |fs| && fs[i].used && fs[j].used && fs[i].proc == fs[j].proc && fs[i].vpn == fs[j].vpn)
      ==> i == j
  }

  predicate FramesClean(fs: seq<Frame>) {
    forall i :: 0 <= i < |fs| && !fs[i].used ==> fs[i] == NO_FRAME
  }

  /** A leaf has its level-0 table, a level-0 table its level-1 table. */
  predicate TablesClosed(procs: seq<Proc>) {
    forall p :: 0 <= p < |procs| && procs[p].pt.Some? ==> TableClosed(procs[p].pt.value)
  }

  predicate TableClosed(pt: PageTable) {
    && (forall v :: v in pt.leaf ==> v < TRAPFRAME_VPN && v / 512 in pt.lows)
    && (forall k :: k in pt.lows ==> k < 131072 && k / 512 in pt.mids)
    && (forall k :: k in pt.mids ==> k < 256)
  }

  /** User pages, resident or swapped, lie below the process size, rounded up. */
  ghost predicate Sized(s: State, p: Pid)
    requires Wf(s)
  {
    && PagesFor(s.procs[p].sz) <= TRAPFRAME_VPN
    && forall v: nat :: Present(s, p, v) ==> v < PagesFor(s.procs[p].sz)
  }

  /** A process slot without a page table is unused. */
  predicate UnusedClean(procs: seq<Proc>) {
    forall p :: 0 <= p < |procs| && procs[p].pt.None? ==> procs[p].trapframe.None? && procs[p].sz == 0
  }

  /** The invariant inside an operation, with `held` pages in hand and `pending` frames unmapped. */
  ghost predicate Core(s: State, held: set<Pa>, pending: set<(Pid, nat)>) {
    && Wf(s)
    && SwapTables(s.swapUsed, s.swapMap) && SwapUnique(s.swapMap) && SwapExclusive(s.swapMap, s.procs)
    && FramesMapped(s.frames, s.procs, pending) && FramesUnique(s.frames) && FramesClean(s.frames)
    && s.count == NumUsed(s.frames)
    && TablesClosed(s.procs)
    && Disjoint(s.free, s.procs, held)
  }

  lemma CoreWf(s: State, held: set<Pa>, pending: set<(Pid, nat)>)
    requires Core(s, held, pending)
    ensures Wf(s)
  {
  }

  /** The invariant at operation boundaries. */
  ghost predicate Inv(s: State) {
    && Core(s, {}, {})
    && UnusedClean(s.procs)
    && forall p: Pid :: Sized(s, p)
  }

  lemma FindUnique(m: seq<SwapEntry>, p: Pid, v: nat, i: nat)
    requires SwapUnique(m) && i < |m| && Matches(m[i], p, v)
    ensures FindSwap(m, p, v, 0) == i
  {
  }

  /** The lookup for one page is untouched by changing an entry that neither was nor becomes its own. */
  lemma FindSwapElsewhere(m: seq<SwapEntry>, k: nat, e: SwapEntry, p: Pid, v: nat)
    requires SwapUnique(m) && k < |m| && !Matches(m[k], p, v) && !Matches(e, p, v)
    ensures FindSwap(m[k := e], p, v, 0) == FindSwap(m, p, v, 0)
  {
    var r := FindSwap(m, p, v, 0);
    var r' := FindSwap(m[k := e], p, v, 0);
    if r != -1 { assert Matches(m[k := e][r], p, v); }
    if r' != -1 { assert Matches(m[r'], p, v); }
  }

  /** Dropping one frame entry; if it was the pending one, none is pending afterwards. */
  lemma DropFrame(fs: seq<Frame>, procs: seq<Proc>, pending: set<(Pid, nat)>, i: nat)
    requires |procs| == NPROC && i < |fs| && fs[i].used
    requires FramesMapped(fs, procs, pending) && FramesUnique(fs) && FramesClean(fs)
    ensures var gs := fs[i := NO_FRAME];
            && FramesMapped(gs, procs, pending - {(fs[i].proc.value, fs[i].vpn)})
            && FramesUnique(gs) && FramesClean(gs) && NumUsed(gs) + 1 == NumUsed(fs)
  {
    NumUsedUpdate(fs, i, NO_FRAME);
    var gs := fs[i := NO_FRAME];
    var pair := (fs[i].proc.value, fs[i].vpn);
    forall k | 0 <= k < |gs| && gs[k].used
      ensures gs[k] == fs[k] && fs[k].used && (fs[k].proc.value, fs[k].vpn) != pair
    {
      assert k != i;
    }
  }

  /** Unmapping (p, v) leaves the frames of all other pages mapped. */
  lemma UnmapFrames(fs: seq<Frame>, procs: seq<Proc>, p: Pid, v: nat)
    requires |procs| == NPROC && procs[p].pt.Some? && FramesMapped(fs, procs, {})
    requires forall i :: 0 <= i < |fs| && fs[i].used ==> (fs[i].proc, fs[i].vpn) != (Some(p), v)
    ensures FramesMapped(fs, ClearLeaf(procs, p, v), {})
  {
  }

  lemma UnmapTables(procs: seq<Proc>, p: Pid, v: nat)
    requires |procs| == NPROC && procs[p].pt.Some? && TablesClosed(procs)
    ensures TablesClosed(ClearLeaf(procs, p, v))
  {
  }

  lemma UnmapSwap(m: seq<SwapEntry>, procs: seq<Proc>, p: Pid, v: nat)
    requires |procs| == NPROC && procs[p].pt.Some? && SwapExclusive(m, procs)
    ensures SwapExclusive(m, ClearLeaf(procs, p, v))
  {
  }

  /** The page unmapped from (p, v) goes to the free list: ownership stays exclusive, no page is lost. */
  lemma UnmapOwners(s: State, p: Pid, v: nat)
    requires Wf(s) && Disjoint(s.free, s.procs, {}) && Mapped(s, p, v)
    ensures var procs', free' := ClearLeaf(s.procs, p, v), s.free + [LeafOf(s.procs, p)[v].pa];
            Disjoint(free', procs', {}) && Everything(free', procs', {}) == Everything(s.free, s.procs, {})
  {
    hide Disjoint, Everything;
    var pa := LeafOf(s.procs, p)[v].pa;
    ClearLeafDisjoint(s.free, s.procs, {}, p, v);
    assert {pa} - {pa} == {} && {} + {pa} == {pa};
    PushDisjoint(s.(procs := ClearLeaf(s.procs, p, v)), {pa}, pa);
  }
}
