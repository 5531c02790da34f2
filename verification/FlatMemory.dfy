/** Runs. Frames, swap slots, page tables and the RAID array together behave as one flat memory per
    process, over every run of faults, stores, loads, growth, shrinking, fork and exit, and across the loss of a
    disk where the array is mirrored or has parity. */
module FlatMemory {
  import opened Options
  import opened Bytes
  import opened Frames
  import opened Paging
  import opened Eviction
  import opened Fault
  import opened AddressSpace
  import opened Processes
  import opened Fork
  import opened UserCopy
  import opened Storage
  import opened Replacement
  import R = Raid

  datatype Op =
    | DoFault(p: Pid, va: nat)
    | DoStore(p: Pid, a: nat, bytes: seq<bv8>)
    | DoLoad(p: Pid, a: nat, len: nat)
    | DoSbrk(p: Pid, n: nat)
    | DoGrow(p: Pid, n: nat)
    | DoShrink(p: Pid, n: nat)
    | DoFork(p: Pid)
    | DoExit(p: Pid)
    | DoLevel(p: Pid, level: int)
    | DoInit(p: Pid)                          // userinit: the process slot p gets an empty address space
    | DoLose(disk: nat, junk: seq<Block>)     // a disk of the swap array is lost
    | DoDecay(junk: seq<Block>)               // what the lost disk holds changes again

  // ----- the reference: a cell for every process and page -----

  type Flat = (Pid, nat) -> Cell

  /** What an operation did, in terms of flat memory only. */
  datatype Event =
    | Quiet
    | Wrote(p: Pid, a: nat, bytes: seq<bv8>)
    | Read(p: Pid, a: nat, bytes: seq<bv8>)
    | Cut(p: Pid, from: nat)
    | Copied(parent: Pid, child: Pid)

  function FlatByte(f: Flat, p: Pid, a: nat): bv8 {
    f(p, a / 4096).data[a % 4096]
  }

  function WrittenByte(f: Flat, p: Pid, a: nat, bytes: seq<bv8>, x: nat): bv8 {
    if a <= x < a + |bytes| then bytes[x - a] else FlatByte(f, p, x)
  }

  /** Page v of p after `bytes` are stored at address a. */
  function WrittenPage(f: Flat, p: Pid, a: nat, bytes: seq<bv8>, v: nat): Page {
    seq(PGSIZE, i requires 0 <= i < PGSIZE => WrittenByte(f, p, a, bytes, v * 4096 + i))
  }

  function FlatStep(f: Flat, e: Event): Flat {
    match e
    case Quiet => f
    case Read(_, _, _) => f
    case Wrote(p, a, bytes) =>
      (q: Pid, v: nat) => if q == p then Cell(WrittenPage(f, p, a, bytes, v), f(q, v).perm) else f(q, v)
    case Cut(p, from) => (q: Pid, v: nat) => if q == p && from <= v then ZERO_CELL else f(q, v)
    case Copied(parent, child) => (q: Pid, v: nat) => if q == child then f(parent, v) else f(q, v)
  }

  /** A load returns what the flat memory holds. */
  predicate Allows(f: Flat, e: Event) {
    e.Read? ==> forall i :: 0 <= i < |e.bytes| ==> e.bytes[i] == FlatByte(f, e.p, e.a + i)
  }

  /** Every load along the events does. */
  predicate Explains(f: Flat, es: seq<Event>) {
    es == [] || (Allows(f, es[0]) && Explains(FlatStep(f, es[0]), es[1..]))
  }

  function FlatRun(f: Flat, es: seq<Event>): Flat {
    if es == [] then f else FlatRun(FlatStep(f, es[0]), es[1..])
  }

  // ----- the system -----

  /** The event of the array, for the operations that are one. */
  function LossOf(op: Op): R.Op
    requires op.DoLose? || op.DoDecay?
  {
    if op.DoLose? then R.Fail(op.disk, op.junk) else R.Decay(op.junk)
  }

  /** The process exists; for DoInit, its slot is unused. */
  predicate Enabled(s: State, op: Op) {
    if op.DoLose? || op.DoDecay? then R.OpOk(LossOf(op))
    else if op.DoInit? then |s.procs| == NPROC && s.procs[op.p].pt.None?
    else Live(s, op.p)
  }

  /** Where an operation is defined: eager growth finds the new pages unmapped, or mappages would panic. */
  predicate Defined(s: State, op: Op) {
    && Wf(s)
    && (op.DoGrow? && Enabled(s, op) ==>
          Unmapped(s.procs, op.p, PagesFor(s.procs[op.p].sz), PagesFor(s.procs[op.p].sz + op.n)))
  }

  /** One operation: the new state and its meaning in flat memory. An operation that is not enabled is no
      step. */
  function Step(s: State, op: Op): (State, Event)
    requires Defined(s, op)
  {
    if !Enabled(s, op) then (s, Quiet)
    else
      match op
      case DoFault(p, va) => (VmFault(s, p, va).0, Quiet)
      case DoStore(p, a, bytes) => var r := CopyOut(s, p, a, bytes); (r.state, Wrote(p, a, bytes[..r.written]))
      case DoLoad(p, a, len) => var r := CopyIn(s, p, a, len); (r.state, Read(p, a, r.bytes))
      case DoSbrk(p, n) => (SbrkLazy(s, p, n).0, Quiet)
      case DoGrow(p, n) => (Grow(s, p, n).0, Quiet)
      case DoShrink(p, n) =>
        (Shrink(s, p, n), if n <= s.procs[p].sz then Cut(p, PagesFor(s.procs[p].sz - n)) else Quiet)
      case DoFork(p) =>
        var (s', r) := KFork(s, p);
        (s', if r.Some? then Event.Copied(p, r.value) else Quiet)
      case DoExit(p) => (FreeProc(s, p), Cut(p, 0))
      case DoLevel(p, level) => (s.(procs := s.procs[p := s.procs[p].(level := level)]), Quiet)
      case DoInit(p) => (AllocProc(s, p).0, Quiet)
      case DoLose(_, _) => (Lost(s, LossOf(op)), Quiet)
      case DoDecay(_) => (Lost(s, LossOf(op)), Quiet)
  }

  /** The array takes a loss; paging is not told. */
  function Lost(s: State, loss: R.Op): State
    requires R.OpOk(loss)
  {
    var a := R.Step(ArrayOf(s), loss);
    s.(conf := a.config, disk := a.store)
  }

  /** The flat memory says exactly what every process finds. */
  ghost predicate Agrees(f: Flat, s: State)
    requires Wf(s)
  {
    forall p: Pid, v: nat :: f(p, v) == M(s, p, v)
  }

  lemma StepDefined(s: State, op: Op)
    requires Inv(s)
    ensures Defined(s, op)
  {
    hide M, Core;
    CoreWf(s, {}, {});
    if op.DoGrow? && Enabled(s, op) { GrowCorrect(s, op.p, op.n); }
  }

  /** A store, seen through flat memory. */
  lemma StoredAgrees(f: Flat, s: State, s': State, p: Pid, a: nat, bytes: seq<bv8>)
    requires Wf(s) && Wf(s') && Agrees(f, s) && Stored(s, s', p, a, bytes)
    ensures Agrees(FlatStep(f, Wrote(p, a, bytes)), s')
  {
    hide M;
    var f' := FlatStep(f, Wrote(p, a, bytes));
    forall q: Pid, v: nat
      ensures f'(q, v) == M(s', q, v)
    {
      assert f(q, v) == M(s, q, v);
      var page := M(s', q, v).data;
      forall i | 0 <= i < PGSIZE
        ensures page[i] == f'(q, v).data[i]
      {
        var x := v * 4096 + i;
        assert x / 4096 == v && x % 4096 == i;
        assert page[i] == ByteAt(s', q, x);
        assert ByteAt(s, q, x) == FlatByte(f, q, x);
        assert Within(q, x, p, a, |bytes|) == (q == p && a <= x < a + |bytes|);
        if q == p {
          assert f'(q, v).data[i] == WrittenByte(f, p, a, bytes, x);
        } else {
          assert f'(q, v).data[i] == FlatByte(f, q, x);
        }
      }
      assert page == f'(q, v).data;
    }
  }

  /** The operation loses nothing, or the array can lose a disk. */
  predicate Safe(s: State, op: Op) {
    op.DoLose? || op.DoDecay? ==> R.Sound(ArrayOf(s))
  }

  /** One step: the invariant is kept, no physical page is lost, and the flat memory follows. */
  lemma StepRefines(f: Flat, s: State, op: Op)
    requires Inv(s) && Wf(s) && Agrees(f, s) && Safe(s, op)
    ensures Defined(s, op)
    ensures var (s', e) := Step(s, op);
            && Inv(s') && Wf(s') && Conserves(s, {}, s', {}) && Allows(f, e) && Agrees(FlatStep(f, e), s')
            && (R.Sound(ArrayOf(s)) ==> R.Sound(ArrayOf(s')))
  {
    hide Core, Everything, M, Step, R.Sound;
    StepDefined(s, op);
    if op.DoLose? || op.DoDecay? {
      LossStep(f, s, op);
    } else {
      MemoryStep(f, s, op);
      StorageStep(s, op);
    }
    CoreWf(Step(s, op).0, {}, {});
  }

  lemma MemoryStep(f: Flat, s: State, op: Op)
    requires Defined(s, op) && Inv(s) && Agrees(f, s) && !op.DoLose? && !op.DoDecay?
    ensures var (s', e) := Step(s, op);
            && Inv(s') && Wf(s') && Conserves(s, {}, s', {}) && Allows(f, e) && Agrees(FlatStep(f, e), s')
  {
    hide Core, Everything, M, AllocProc, VmFault, CopyOut, CopyIn, KFork, FreeProc, Grow, Shrink, SbrkLazy, Stored;
    CoreWf(s, {}, {});
    if Enabled(s, op) {
      match op
      case DoFault(p, va) => FaultCorrect(s, p, va);
      case DoStore(p, a, bytes) =>
        CopyOutCorrect(s, p, a, bytes);
        var r := CopyOut(s, p, a, bytes);
        StoredAgrees(f, s, r.state, p, a, bytes[..r.written]);
      case DoLoad(p, a, len) => LoadRefines(f, s, p, a, len);
      case DoSbrk(p, n) => SbrkLazyCorrect(s, p, n);
      case DoGrow(p, n) => GrowCorrect(s, p, n);
      case DoShrink(p, n) => ShrinkCorrect(s, p, n);
      case DoFork(p) => ForkRefines(f, s, p);
      case DoExit(p) => ExitRefines(f, s, p);
      case DoLevel(p, level) => LevelRefines(f, s, p, level);
      case DoInit(p) => InitRefines(f, s, p);
    }
    CoreWf(Step(s, op).0, {}, {});
  }

  /** No operation on memory costs the array its redundancy, and none but a change of level changes levels. */
  lemma StorageStep(s: State, op: Op)
    requires Defined(s, op) && !op.DoLose? && !op.DoDecay?
    ensures var s' := Step(s, op).0;
            && s'.conf == s.conf && (R.Sound(ArrayOf(s)) ==> R.Sound(ArrayOf(s')))
            && (!op.DoLevel? ==> LevelsKept(s, s'))
  {
    hide AllocProc, VmFault, CopyOut, CopyIn, KFork, FreeProc, GrowFrom, UnmapRange, R.Sound;
    if Enabled(s, op) {
      match op
      case DoFault(p, va) => FaultArray(s, p, va);
      case DoStore(p, a, bytes) => CopyOutArray(s, p, a, bytes);
      case DoLoad(p, a, len) => CopyInArray(s, p, a, len);
      case DoGrow(p, n) =>
        GrowArray(s, p, PagesFor(s.procs[p].sz), PagesFor(s.procs[p].sz), PagesFor(s.procs[p].sz + n));
      case DoShrink(p, n) =>
        if n <= s.procs[p].sz {
          var a := PagesFor(s.procs[p].sz - n);
          UnmapArray(s, p, Some(p), a, PagesFor(s.procs[p].sz) - a);
        }
      case DoFork(p) => ForkArray(s, p);
      case DoExit(p) => FreeArray(s, p);
      case DoInit(p) => AllocArray(s, p);
      case _ =>
    }
  }

  /** Losing a disk of a sound array changes no page of any process. */
  lemma LossStep(f: Flat, s: State, op: Op)
    requires Defined(s, op) && Inv(s) && Agrees(f, s) && (op.DoLose? || op.DoDecay?) && R.Sound(ArrayOf(s))
    ensures var (s', e) := Step(s, op);
            && Inv(s') && Wf(s') && Conserves(s, {}, s', {}) && Allows(f, e) && Agrees(FlatStep(f, e), s')
            && R.Sound(ArrayOf(s'))
  {
    hide R.Sound, R.Step, Everything;
    if Enabled(s, op) {
      var s' := Lost(s, LossOf(op));
      forall slot: nat | slot < MAX_SWAP_PAGES
        ensures R.ReadPage(s'.conf, s'.disk, slot) == R.ReadPage(s.conf, s.disk, slot)
      {
        R.StepReads(ArrayOf(s), LossOf(op), slot);
      }
      R.StepReads(ArrayOf(s), LossOf(op), 0);
      LostView(s, s');
      LostCore(s, s');
    }
  }

  lemma LostView(s: State, s': State)
    requires Wf(s) && s' == s.(conf := s'.conf, disk := s'.disk)
    requires forall slot: nat :: slot < MAX_SWAP_PAGES ==>
               R.ReadPage(s'.conf, s'.disk, slot) == R.ReadPage(s.conf, s.disk, slot)
    ensures SameView(s, s') && SamePresent(s, s')
  {
    hide R.ReadPage;
  }

  lemma LostCore(s: State, s': State)
    requires Inv(s) && s' == s.(conf := s'.conf, disk := s'.disk)
    ensures Inv(s') && Wf(s') && Conserves(s, {}, s', {})
  {
    hide Disjoint, FramesMapped, FramesUnique, TablesClosed, NumUsed, SwapUnique, SwapExclusive, SwapTables,
         FramesClean;
    forall p: Pid
      ensures Sized(s', p)
    {
      assert Sized(s, p);
      assert forall v: nat :: Present(s', p, v) == Present(s, p, v);
    }
  }

  lemma LoadRefines(f: Flat, s: State, p: Pid, a: nat, len: nat)
    requires Inv(s) && Agrees(f, s) && Live(s, p)
    ensures var r := CopyIn(s, p, a, len);
            Inv(r.state) && Conserves(s, {}, r.state, {}) && Agrees(f, r.state) && Allows(f, Read(p, a, r.bytes))
  {
    hide Core, Everything, M, CopyIn;
    CoreWf(s, {}, {});
    CopyInCorrect(s, p, a, len);
    var r := CopyIn(s, p, a, len);
    CoreWf(r.state, {}, {});
    forall i | 0 <= i < |r.bytes|
      ensures r.bytes[i] == FlatByte(f, p, a + i)
    {
      assert r.bytes[i] == ByteAt(s, p, a + i);
    }
  }

  lemma InitRefines(f: Flat, s: State, p: Pid)
    requires Inv(s) && Agrees(f, s) && s.procs[p].pt.None?
    ensures var s' := AllocProc(s, p).0; Inv(s') && Conserves(s, {}, s', {}) && Agrees(f, s')
  {
    hide Core, Everything, M, Present, AllocProc;
    CoreWf(s, {}, {});
    UnusedIsStranger(s, p);
    AllocProcCorrect(s, p);
    var s' := AllocProc(s, p).0;
    CoreWf(s', {}, {});
    forall q: Pid
      ensures Sized(s', q)
    {
      assert Sized(s, q);
    }
  }

  lemma ForkRefines(f: Flat, s: State, p: Pid)
    requires Inv(s) && Agrees(f, s) && Live(s, p)
    ensures var (s', r) := KFork(s, p);
            Inv(s') && Conserves(s, {}, s', {})
            && Agrees(FlatStep(f, if r.Some? then Event.Copied(p, r.value) else Quiet), s')
  {
    hide Core, Everything, M, KFork;
    CoreWf(s, {}, {});
    ForkCorrect(s, p);
  }

  lemma ExitRefines(f: Flat, s: State, p: Pid)
    requires Inv(s) && Agrees(f, s) && Live(s, p)
    ensures var s' := FreeProc(s, p);
            Inv(s') && Conserves(s, {}, s', {}) && Agrees(FlatStep(f, Cut(p, 0)), s')
  {
    hide Core, Everything, M, FreeProc;
    CoreWf(s, {}, {});
    forall v | v in LeafOf(s.procs, p)
      ensures v < PagesFor(s.procs[p].sz)
    {
      assert Sized(s, p) && Present(s, p, v);
    }
    FreeProcCorrect(s, p);
    var s' := FreeProc(s, p);
    CoreWf(s', {}, {});
    forall q: Pid
      ensures Sized(s', q)
    {
      assert Sized(s, q);
    }
  }

  lemma LevelRefines(f: Flat, s: State, p: Pid, level: int)
    requires Inv(s) && Agrees(f, s)
    ensures var s' := s.(procs := s.procs[p := s.procs[p].(level := level)]);
            Inv(s') && Conserves(s, {}, s', {}) && Agrees(f, s')
  {
    hide Core, Everything, M, Present;
    CoreWf(s, {}, {});
    SetLevelCore(s, p, level);
    var s' := s.(procs := s.procs[p := s.procs[p].(level := level)]);
    forall q: Pid
      ensures Sized(s', q)
    {
      assert Sized(s, q);
    }
  }

  // ----- runs -----

  /** The states and events of a run, as a relation: es[i] is the event of ops[i]. */
  ghost predicate IsRun(s: State, ops: seq<Op>, es: seq<Event>, s': State)
    decreases |ops|
  {
    |es| == |ops|
    && if ops == [] then s' == s
       else
         Defined(s, ops[0]) && Step(s, ops[0]).1 == es[0] && IsRun(Step(s, ops[0]).0, ops[1..], es[1..], s')
  }

  /** The operations lose no disk, or the array can lose one. */
  ghost predicate SafeRun(s: State, ops: seq<Op>) {
    R.Sound(ArrayOf(s)) || forall i :: 0 <= i < |ops| ==> !ops[i].DoLose? && !ops[i].DoDecay?
  }

  /** From a state that satisfies the invariant every sequence of operations runs. */
  lemma {:induction false} RunExists(s: State, ops: seq<Op>) returns (es: seq<Event>, s': State)
    requires Inv(s) && SafeRun(s, ops)
    ensures IsRun(s, ops, es, s')
    decreases |ops|
  {
    hide Core, M, Step, R.Sound;
    CoreWf(s, {}, {});
    if ops == [] {
      es, s' := [], s;
    } else {
      StepRefines((p: Pid, v: nat) => M(s, p, v), s, ops[0]);
      var rest;
      rest, s' := RunExists(Step(s, ops[0]).0, ops[1..]);
      es := [Step(s, ops[0]).1] + rest;
      assert es[1..] == rest;
    }
  }

  /** Main result on paging: over every run from a state that satisfies the invariant, every load returns
      what a flat memory per process would; what each process finds in each page at the end is what that
      memory holds after the same events; the invariant holds; and no physical page is lost or invented. The run may
      lose a disk if the swap array is mirrored or has parity, and is redundant at the start. */
  lemma {:induction false} RunRefinesFlat(f: Flat, s: State, ops: seq<Op>, es: seq<Event>, s': State)
    requires Inv(s) && Wf(s) && Agrees(f, s) && IsRun(s, ops, es, s') && SafeRun(s, ops)
    ensures Inv(s') && Wf(s') && Conserves(s, {}, s', {}) && Explains(f, es) && Agrees(FlatRun(f, es), s')
    decreases |ops|
  {
    hide Core, M, Step, Everything, R.Sound;
    if ops != [] {
      StepRefines(f, s, ops[0]);
      RunRefinesFlat(FlatStep(f, es[0]), Step(s, ops[0]).0, ops[1..], es[1..], s');
    }
  }

  /** Levels stay in the range MLFQ gives them, so `Replacement.EvictTakes` applies along the run. */
  lemma {:induction false} LevelsOverRuns(s: State, ops: seq<Op>, es: seq<Event>, s': State)
    requires LevelsOk(s) && IsRun(s, ops, es, s')
    requires forall i :: 0 <= i < |ops| && ops[i].DoLevel? ==> 0 <= ops[i].level <= 3
    ensures LevelsOk(s')
    decreases |ops|
  {
    hide Step, R.Sound;
    if ops != [] {
      LevelsStep(s, ops[0]);
      LevelsOverRuns(Step(s, ops[0]).0, ops[1..], es[1..], s');
    }
  }

  lemma LevelsStep(s: State, op: Op)
    requires Defined(s, op) && LevelsOk(s) && (op.DoLevel? ==> 0 <= op.level <= 3)
    ensures LevelsOk(Step(s, op).0)
  {
    hide AllocProc, VmFault, CopyOut, CopyIn, KFork, FreeProc, Grow, Shrink, R.Sound, R.Step;
    if !op.DoLose? && !op.DoDecay? { StorageStep(s, op); }
  }

  // ----- a copy and the run after it -----

  /** The event touches some of the n bytes of p at address a. */
  predicate Disturbs(e: Event, p: Pid, a: nat, n: nat) {
    match e
    case Wrote(q, b, bytes) => q == p && b < a + n && a < b + |bytes|
    case Cut(q, from) => q == p && from * 4096 < a + n
    case Copied(_, child) => child == p
    case _ => false
  }

  lemma StepKeepsByte(f: Flat, e: Event, p: Pid, a: nat, n: nat, x: nat)
    requires !Disturbs(e, p, a, n) && a <= x < a + n
    ensures FlatByte(FlatStep(f, e), p, x) == FlatByte(f, p, x)
  {
    var v, i := x / 4096, x % 4096;
    assert v * 4096 + i == x;
    if e.Wrote? && e.p == p {
      assert FlatStep(f, e)(p, v).data == WrittenPage(f, p, e.a, e.bytes, v);
      assert WrittenPage(f, p, e.a, e.bytes, v)[i] == WrittenByte(f, p, e.a, e.bytes, x);
    } else if e.Cut? && e.p == p {
      assert v < e.from;
    }
  }

  lemma {:induction false} RunKeepsByte(f: Flat, es: seq<Event>, p: Pid, a: nat, n: nat, x: nat)
    requires (forall i :: 0 <= i < |es| ==> !Disturbs(es[i], p, a, n)) && a <= x < a + n
    ensures FlatByte(FlatRun(f, es), p, x) == FlatByte(f, p, x)
  {
    hide FlatStep, FlatByte;
    if es != [] {
      StepKeepsByte(f, es[0], p, a, n, x);
      RunKeepsByte(FlatStep(f, es[0]), es[1..], p, a, n, x);
    }
  }

  lemma RunKeepsByteAt(f: Flat, s1: State, es: seq<Event>, s': State, p: Pid, a: nat, n: nat, x: nat)
    requires Wf(s1) && Wf(s') && Agrees(f, s1) && Agrees(FlatRun(f, es), s') && a <= x < a + n
    requires forall i :: 0 <= i < |es| ==> !Disturbs(es[i], p, a, n)
    ensures ByteAt(s', p, x) == ByteAt(s1, p, x)
  {
    hide M, FlatRun, Disturbs;
    RunKeepsByte(f, es, p, a, n, x);
    assert FlatByte(FlatRun(f, es), p, x) == ByteAt(s', p, x);
  }

  lemma RunKeepsBytes(f: Flat, s1: State, es: seq<Event>, s': State, p: Pid, a: nat, n: nat)
    requires Wf(s1) && Wf(s') && Agrees(f, s1) && Agrees(FlatRun(f, es), s')
    requires forall i :: 0 <= i < |es| ==> !Disturbs(es[i], p, a, n)
    ensures BytesAt(s', p, a, n) == BytesAt(s1, p, a, n)
  {
    hide M, FlatRun, Disturbs, Agrees, ByteAt;
    var b, b' := BytesAt(s1, p, a, n), BytesAt(s', p, a, n);
    forall i | 0 <= i < n
      ensures b'[i] == b[i]
    {
      RunKeepsByteAt(f, s1, es, s', p, a, n, a + i);
    }
  }

  /** Main result on user copies: what a successful copyout wrote, a successful copyin of the same range returns after
      any run in which nobody stores to the range, cuts it off or replaces it, whatever is paged in and out and
      whichever disk is lost meanwhile. */
  lemma CopyThenRun(s: State, p: Pid, a: nat, src: seq<bv8>, ops: seq<Op>, es: seq<Event>, s': State)
    requires Inv(s) && Live(s, p) && Wf(s) && CopyOut(s, p, a, src).ok
    requires IsRun(CopyOut(s, p, a, src).state, ops, es, s') && SafeRun(CopyOut(s, p, a, src).state, ops)
    requires forall i :: 0 <= i < |es| ==> !Disturbs(es[i], p, a, |src|)
    requires Wf(s') && Live(s', p) && CopyIn(s', p, a, |src|).ok
    ensures CopyIn(s', p, a, |src|).bytes == src
  {
    hide Core, M, Everything, CopyOut, CopyIn, IsRun, SafeRun, FlatRun, Stored;
    CopyOutCorrect(s, p, a, src);
    var s1 := CopyOut(s, p, a, src).state;
    CoreWf(s1, {}, {});
    var f: Flat := (q: Pid, v: nat) requires Wf(s1) => M(s1, q, v);
    RunRefinesFlat(f, s1, ops, es, s');
    RunKeepsBytes(f, s1, es, s', p, a, |src|);
    CopyRoundTrip(s, p, a, src, s');
  }

  // ----- the beginning -----

  /** The state kinit leaves: empty tables and the given pages on the free list. */
  function Boot(free: seq<Pa>, mem: seq<Page>, conf: R.Config, disk: R.Store): State {
    State(seq(MAX_FRAMES, _ => NO_FRAME), 0, 0, seq(MAX_SWAP_PAGES, _ => false), seq(MAX_SWAP_PAGES, _ => NO_ENTRY),
          free, mem, seq(NPROC, _ => NO_PROC), conf, disk)
  }

  lemma BootInv(free: seq<Pa>, mem: seq<Page>, conf: R.Config, disk: R.Store)
    requires |mem| == NPAGES
    requires forall i, j :: 0 <= i < |free| && 0 <= j < |free| && free[i] == free[j] ==> i == j
    ensures Inv(Boot(free, mem, conf, disk)) && LevelsOk(Boot(free, mem, conf, disk))
  {
    var s := Boot(free, mem, conf, disk);
    NumUsedBounds(s.frames);
    forall l: Loc, l': Loc | At(s.free, s.procs, l).Some? && At(s.free, s.procs, l) == At(s.free, s.procs, l')
      ensures l == l'
    {
      assert l.FreeLoc? && l'.FreeLoc?;
    }
    forall p: Pid
      ensures Sized(s, p)
    {
      assert forall v: nat :: !Present(s, p, v);
    }
  }
}
