/** bread, bwrite, brelse, bpin and bunpin by many processes over the dispatcher and the disk. One step is one
    critical section of bcache.lock or of a buffer's sleep lock, one action of a process that holds a buffer,
    or one step of the dispatcher; the transfer itself happens in the dispatcher's Move step. */
module BlockIo {
  import opened Options
  import opened Bytes
  import opened Frames
  import opened BufferCache
  import D = Dispatcher

  const ROOTDEV: nat := 1

  /** The contents of the one device, block by block. */
  type Disk = m: imap<nat, Block> | forall n: nat :: n in m ghost witness imap n: nat :: seq(BSIZE, _ => 0 as bv8)

  /** What a process is doing: b is the buffer, n the block number its bread asked for. */
  datatype Phase =
    | Ready
    | Waiting(b: nat, n: nat)   // in bget, with a reference, about to acquire the sleep lock
    | Checking(b: nat, n: nat)  // in bread, with the lock, about to test valid
    | Reading(b: nat, n: nat)   // in bread, in submit_disk_request
    | Writing(b: nat)           // in bwrite, in submit_disk_request
    | Dropping(b: nat)          // in brelse, lock released, reference not yet

  // `pins` counts bpin calls not undone, `latest` is the flat block store, `moves` the moves to the front of
  // the list; nothing reads them.
  datatype Sys = Sys(c: Cache, pins: seq<nat>, phases: seq<Phase>, d: D.Disp, disk: Disk, latest: Disk, moves: seq<nat>)

  datatype Step =
    | Get(p: Pid, n: nat)
    | Acquire(p: Pid)
    | Check(p: Pid)
    | FetchDone(p: Pid)
    | Modify(p: Pid, b: nat, data: Block)
    | Write(p: Pid, b: nat)
    | WriteDone(p: Pid)
    | Unlock(p: Pid, b: nat)
    | DropRef(p: Pid)
    | Pin(p: Pid, b: nat)
    | Unpin(b: nat)
    | Queue(c: D.Step)

  ghost predicate Wf(s: Sys) {
    && Shape(s.c) && |s.pins| == NBUF && |s.phases| == NPROC && D.Sizes(s.d)
  }

  ghost predicate Owns(bufs: seq<Buf>, p: Pid, b: nat) {
    b < |bufs| && bufs[b].lock == Some(p)
  }

  /** When a step can be taken. Modify, Unlock, Pin and Unpin carry the discipline of the callers: data changes
      only under the sleep lock, and a changed buffer is written, or pinned, before it is let go. */
  ghost predicate Possible(s: Sys, e: Step)
    requires Wf(s)
  {
    var bufs := s.c.bufs;
    match e
    case Get(p, _) => s.phases[p].Ready?
    case Acquire(p) => s.phases[p].Waiting? && s.phases[p].b < NBUF && bufs[s.phases[p].b].lock.None?
    case Check(p) =>
      && s.phases[p].Checking? && s.phases[p].b < NBUF
      && (!bufs[s.phases[p].b].valid ==> D.Enabled(s.d, Request(bufs, p, s.phases[p].b, false)))
    case FetchDone(p) => s.phases[p].Reading? && s.phases[p].b < NBUF && s.d.threads[p].Idle?
    case Modify(p, b, _) => s.phases[p].Ready? && Owns(bufs, p, b)
    case Write(p, b) => s.phases[p].Ready? && b < NBUF && D.Enabled(s.d, Request(bufs, p, b, true))
    case WriteDone(p) => s.phases[p].Writing? && s.d.threads[p].Idle?
    case Unlock(p, b) => s.phases[p].Ready? && b < NBUF && (bufs[b].dirty ==> s.pins[b] > 0)
    case DropRef(p) => s.phases[p].Dropping? && s.phases[p].b < NBUF && bufs[s.phases[p].b].refcnt > 0
    case Pin(p, b) => s.phases[p].Ready? && Owns(bufs, p, b)
    case Unpin(b) =>
      && b < NBUF && s.pins[b] > 0 && bufs[b].refcnt > 0
      && (bufs[b].dirty ==> s.pins[b] > 1 || bufs[b].lock.Some?)
    case Queue(c) =>
      && !c.Submit? && D.Enabled(s.d, c)
      && (c.Move? ==> s.d.threads[c.p].r < D.MAX_DISK_REQS && s.d.pool[s.d.threads[c.p].r].buf < NBUF)
  }

  function Request(bufs: seq<Buf>, p: Pid, b: nat, write: bool): D.Step
    requires b < |bufs|
  {
    D.Submit(p, b, bufs[b].block, write)
  }

  /** bget without a free buffer; bwrite and brelse without the lock; the request pool exhausted. */
  ghost predicate Panics(s: Sys, e: Step)
    requires Wf(s) && Possible(s, e)
  {
    match e
    case Get(p, n) => Bget(s.c, ROOTDEV, n).1.None?
    case Check(p) => !s.c.bufs[s.phases[p].b].valid && D.Panics(s.d, Request(s.c.bufs, p, s.phases[p].b, false))
    case Write(p, b) => !Owns(s.c.bufs, p, b) || D.Panics(s.d, Request(s.c.bufs, p, b, true))
    case Unlock(p, b) => !Owns(s.c.bufs, p, b)
    case Queue(c) => D.Panics(s.d, c)
    case _ => false
  }

  /** virtio_disk_rw on the buffer: it takes the block number from the buffer, not from the request. */
  ghost function Transfer(bufs: seq<Buf>, disk: Disk, b: nat, write: bool): (r: (seq<Buf>, Disk))
    requires b < |bufs|
    ensures |r.0| == |bufs|
  {
    if write then (bufs[b := bufs[b].(dirty := false)], disk[bufs[b].block := bufs[b].data])
    else (bufs[b := bufs[b].(data := disk[bufs[b].block])], disk)
  }

  ghost function Do(s: Sys, e: Step): Sys
    requires Wf(s) && Possible(s, e) && !Panics(s, e)
  {
    var bufs := s.c.bufs;
    match e
    case Get(p, n) =>
      var (c', r) := Bget(s.c, ROOTDEV, n);
      s.(c := c', phases := s.phases[p := Waiting(r.value, n)])
    case Acquire(p) =>
      var b := s.phases[p].b;
      s.(c := SetBuf(s.c, b, bufs[b].(lock := Some(p))), phases := s.phases[p := Checking(b, s.phases[p].n)])
    case Check(p) =>
      var b := s.phases[p].b;
      if bufs[b].valid then s.(phases := s.phases[p := Ready])
      else s.(d := D.Do(s.d, Request(bufs, p, b, false)), phases := s.phases[p := Reading(b, s.phases[p].n)])
    case FetchDone(p) =>
      var b := s.phases[p].b;
      s.(c := SetBuf(s.c, b, bufs[b].(valid := true)), phases := s.phases[p := Ready])
    case Modify(p, b, data) =>
      s.(c := SetBuf(s.c, b, bufs[b].(data := data, dirty := true)), latest := s.latest[bufs[b].block := data])
    case Write(p, b) =>
      s.(d := D.Do(s.d, Request(bufs, p, b, true)), phases := s.phases[p := Writing(b)])
    case WriteDone(p) => s.(phases := s.phases[p := Ready])
    case Unlock(p, b) => s.(c := SetBuf(s.c, b, bufs[b].(lock := None)), phases := s.phases[p := Dropping(b)])
    case DropRef(p) =>
      var b := s.phases[p].b;
      s.(c := Unref(s.c, b), phases := s.phases[p := Ready],
         moves := if bufs[b].refcnt == 1 then s.moves + [b] else s.moves)
    case Pin(p, b) =>
      s.(c := SetBuf(s.c, b, bufs[b].(refcnt := bufs[b].refcnt + 1)), pins := s.pins[b := s.pins[b] + 1])
    case Unpin(b) =>
      s.(c := SetBuf(s.c, b, bufs[b].(refcnt := bufs[b].refcnt - 1)), pins := s.pins[b := s.pins[b] - 1])
    case Queue(c) =>
      if c.Move? then
        var slot := s.d.pool[s.d.threads[c.p].r];
        var (bufs', disk') := Transfer(bufs, s.disk, slot.buf, slot.write);
        s.(d := D.Do(s.d, c), c := s.c.(bufs := bufs'), disk := disk')
      else s.(d := D.Do(s.d, c))
  }

  /** What a caller sees: bread returning data, or a holder changing data. */
  datatype Event = Quiet | Got(n: nat, data: Block) | Changed(n: nat, data: Block)

  ghost function Seen(s: Sys, e: Step): Event
    requires Wf(s) && Possible(s, e)
  {
    match e
    case Check(p) =>
      if s.c.bufs[s.phases[p].b].valid then Got(s.phases[p].n, s.c.bufs[s.phases[p].b].data) else Quiet
    case FetchDone(p) => Got(s.phases[p].n, s.c.bufs[s.phases[p].b].data)
    case Modify(p, b, data) => Changed(s.c.bufs[b].block, data)
    case _ => Quiet
  }

  // ----- the invariant -----

  /** The list holds every buffer once, most recently moved to the front first. */
  ghost predicate ListOk(c: Cache, moves: seq<nat>) {
    Shape(c) && InOrder(c.order, moves) && forall b :: 0 <= b < NBUF ==> b in c.order
  }

  predicate SameBlock(x: Buf, y: Buf) {
    x.dev == ROOTDEV && y.dev == ROOTDEV && x.block == y.block
  }

  /** At most one buffer caches a block of the device; buffers that cache none are not in use. */
  ghost predicate Unique(bufs: seq<Buf>) {
    && |bufs| == NBUF
    && (forall b :: 0 <= b < NBUF ==>
          bufs[b].dev == ROOTDEV || (bufs[b].dev == 0 && !bufs[b].valid && bufs[b].refcnt == 0))
    && (forall i, j :: 0 <= i < NBUF && 0 <= j < NBUF && SameBlock(bufs[i], bufs[j]) ==> i == j)
  }

  predicate Refers(ph: Phase, b: nat) {
    (ph.Waiting? || ph.Dropping?) && ph.b == b
  }

  /** Processes among the first n that hold a reference to b without its lock. */
  function Referrers(phases: seq<Phase>, b: nat, n: nat): nat
    requires n <= |phases|
  {
    if n == 0 then 0 else Referrers(phases, b, n - 1) + if Refers(phases[n - 1], b) then 1 else 0
  }

  /** A reference count is the number of references held; changed data is pinned or locked. */
  ghost predicate RefOk(x: Buf, referrers: nat, pins: nat) {
    x.refcnt == referrers + pins + (if x.lock.Some? then 1 else 0) && (x.dirty ==> pins > 0 || x.lock.Some?)
  }

  ghost predicate Refs(bufs: seq<Buf>, phases: seq<Phase>, pins: seq<nat>)
    requires |bufs| == |pins| == NBUF && |phases| == NPROC
  {
    forall b :: 0 <= b < NBUF ==> RefOk(bufs[b], Referrers(phases, b, NPROC), pins[b])
  }

  /** A process in bread or bwrite is at a buffer that caches its block and, past bget, is locked by it. */
  ghost predicate HeldOk(bufs: seq<Buf>, p: Pid, ph: Phase) {
    && (!ph.Ready? ==> ph.b < |bufs|)
    && (ph.Waiting? || ph.Checking? || ph.Reading? ==> Caches(bufs[ph.b], ROOTDEV, ph.n))
    && (ph.Checking? || ph.Reading? || ph.Writing? ==> bufs[ph.b].lock == Some(p))
    && (ph.Reading? ==> !bufs[ph.b].valid)
  }

  predicate Fetches(ph: Phase, b: nat) {
    (ph.Checking? || ph.Reading?) && ph.b == b
  }

  ghost predicate Held(bufs: seq<Buf>, phases: seq<Phase>)
    requires |bufs| == NBUF && |phases| == NPROC
  {
    && (forall p: Pid :: HeldOk(bufs, p, phases[p]))
    && (forall b :: 0 <= b < NBUF && bufs[b].lock.Some? ==> bufs[b].valid || Fetches(phases[bufs[b].lock.value], b))
  }

  /** The request of a process in submit_disk_request names the buffer it holds and its block. */
  ghost predicate Asks(bufs: seq<Buf>, ph: Phase, slot: D.Slot) {
    && (ph.Reading? || ph.Writing?) && ph.b < |bufs|
    && slot.buf == ph.b && slot.block == bufs[ph.b].block && slot.write == ph.Writing?
  }

  ghost predicate Requests(bufs: seq<Buf>, phases: seq<Phase>, pool: seq<D.Slot>, threads: seq<D.Thread>)
    requires |phases| == |threads| == NPROC
  {
    forall p: Pid :: !threads[p].Idle? ==> threads[p].own < |pool| && Asks(bufs, phases[p], pool[threads[p].own])
  }

  ghost predicate Holds(x: Buf, n: nat) {
    x.dev == ROOTDEV && x.valid && x.block == n
  }

  /** A valid buffer holds the latest contents; a block no changed buffer holds is up to date on the disk. */
  ghost predicate Data(bufs: seq<Buf>, disk: Disk, latest: Disk) {
    && (forall b :: 0 <= b < |bufs| && bufs[b].dev == ROOTDEV && bufs[b].valid ==>
          bufs[b].data == latest[bufs[b].block])
    && (forall n: nat :: (forall b :: 0 <= b < |bufs| ==> !(Holds(bufs[b], n) && bufs[b].dirty)) ==>
          latest[n] == disk[n])
  }

  /** The transfer for the process's request has taken place. */
  ghost predicate Moved(d: D.Disp, p: Pid)
    requires D.Sizes(d)
  {
    || d.threads[p].Idle?
    || (d.threads[p].own < D.MAX_DISK_REQS && d.pool[d.threads[p].own].completed)
    || (d.dispatcher.Some? && var t := d.threads[d.dispatcher.value]; t.Finishing? && t.r == d.threads[p].own)
  }

  ghost predicate SettledOk(bufs: seq<Buf>, ph: Phase, disk: Disk) {
    && ((ph.Reading? || ph.Writing?) && ph.b < |bufs| ==>
         if ph.Reading? then bufs[ph.b].data == disk[bufs[ph.b].block] else !bufs[ph.b].dirty)
  }

  /** After the transfer of a read the buffer holds the block; after that of a write nothing is left to write. */
  ghost predicate Settled(bufs: seq<Buf>, phases: seq<Phase>, disk: Disk, d: D.Disp)
    requires |phases| == NPROC && D.Sizes(d)
  {
    forall p: Pid :: Moved(d, p) ==> SettledOk(bufs, phases[p], disk)
  }

  ghost predicate Inv(s: Sys) {
    && Wf(s) && D.Inv(s.d)
    && ListOk(s.c, s.moves)
    && Unique(s.c.bufs)
    && Refs(s.c.bufs, s.phases, s.pins)
    && Held(s.c.bufs, s.phases)
    && Requests(s.c.bufs, s.phases, s.d.pool, s.d.threads)
    && Data(s.c.bufs, s.disk, s.latest)
    && Settled(s.c.bufs, s.phases, s.disk, s.d)
  }

  // ----- references -----

  lemma {:induction false} ReferrersSet(phases: seq<Phase>, b: nat, n: nat, p: Pid, x: Phase)
    requires |phases| == NPROC && n <= NPROC
    ensures Referrers(phases[p := x], b, n) ==
            Referrers(phases, b, n) - (if p < n && Refers(phases[p], b) then 1 else 0)
                                    + (if p < n && Refers(x, b) then 1 else 0)
  {
    if n > 0 { ReferrersSet(phases, b, n - 1, p, x); }
  }

  lemma {:induction false} ReferrersPositive(phases: seq<Phase>, b: nat, n: nat, p: Pid)
    requires |phases| == NPROC && p < n <= NPROC && Refers(phases[p], b)
    ensures Referrers(phases, b, n) > 0
  {
    if n - 1 != p { ReferrersPositive(phases, b, n - 1, p); }
  }

  predicate RefersOnly(ph: Phase, b: nat) {
    ph.Waiting? || ph.Dropping? ==> ph.b == b
  }

  /** One process and one buffer change, and the buffer's count with them. */
  lemma RefsSet(bufs: seq<Buf>, phases: seq<Phase>, pins: seq<nat>, p: Pid, ph: Phase, b: nat, x: Buf)
    requires |bufs| == |pins| == NBUF && |phases| == NPROC && Refs(bufs, phases, pins) && b < NBUF
    requires RefersOnly(phases[p], b) && RefersOnly(ph, b)
    requires RefOk(x, Referrers(phases[p := ph], b, NPROC), pins[b])
    ensures Refs(bufs[b := x], phases[p := ph], pins)
  {
    forall k | 0 <= k < NBUF
      ensures RefOk(bufs[b := x][k], Referrers(phases[p := ph], k, NPROC), pins[k])
    {
      ReferrersSet(phases, k, NPROC, p, ph);
    }
  }

  /** Only the process changes, and it holds no bare reference before or after. */
  lemma RefsSame(bufs: seq<Buf>, phases: seq<Phase>, pins: seq<nat>, p: Pid, ph: Phase)
    requires |bufs| == |pins| == NBUF && |phases| == NPROC && Refs(bufs, phases, pins)
    requires !phases[p].Waiting? && !phases[p].Dropping? && !ph.Waiting? && !ph.Dropping?
    ensures Refs(bufs, phases[p := ph], pins)
  {
    forall k | 0 <= k < NBUF
      ensures RefOk(bufs[k], Referrers(phases[p := ph], k, NPROC), pins[k])
    {
      ReferrersSet(phases, k, NPROC, p, ph);
    }
  }

  // ----- one buffer and one process change -----

  predicate Transfers(ph: Phase, b: nat) {
    (ph.Reading? || ph.Writing?) && ph.b == b
  }

  /** No process has a request out for b. */
  ghost predicate Quiescent(phases: seq<Phase>, b: nat) {
    forall p: Pid :: p < |phases| ==> !Transfers(phases[p], b)
  }

  lemma UnlockedQuiescent(bufs: seq<Buf>, phases: seq<Phase>, b: nat)
    requires |bufs| == NBUF && |phases| == NPROC && Held(bufs, phases) && b < NBUF
    requires bufs[b].lock.Some? ==> !Transfers(phases[bufs[b].lock.value], b)
    ensures Quiescent(phases, b)
  {
    forall p: Pid
      ensures !Transfers(phases[p], b)
    {
      assert HeldOk(bufs, p, phases[p]);
    }
  }

  lemma RequestsSet(bufs: seq<Buf>, phases: seq<Phase>, pool: seq<D.Slot>, threads: seq<D.Thread>, p: Pid, ph: Phase,
                    b: nat, x: Buf)
    requires |phases| == |threads| == NPROC && Requests(bufs, phases, pool, threads) && b < |bufs|
    requires threads[p].Idle? && (Quiescent(phases, b) || x.block == bufs[b].block)
    ensures Requests(bufs[b := x], phases[p := ph], pool, threads)
  {
  }

  lemma SettledSet(bufs: seq<Buf>, phases: seq<Phase>, disk: Disk, d: D.Disp, p: Pid, ph: Phase, b: nat, x: Buf)
    requires |phases| == NPROC && D.Sizes(d) && Settled(bufs, phases, disk, d) && b < |bufs|
    requires !ph.Reading? && !ph.Writing?
    requires Quiescent(phases, b) || x == bufs[b].(refcnt := x.refcnt)
    ensures Settled(bufs[b := x], phases[p := ph], disk, d)
  {
    forall q: Pid | Moved(d, q)
      ensures SettledOk(bufs[b := x], phases[p := ph][q], disk)
    {
      assert SettledOk(bufs, phases[q], disk);
    }
  }

  /** Changing a count or a lock leaves the contents alone. */
  lemma DataSame(bufs: seq<Buf>, disk: Disk, latest: Disk, b: nat, x: Buf)
    requires Data(bufs, disk, latest) && b < |bufs| && x == bufs[b].(refcnt := x.refcnt, lock := x.lock)
    ensures Data(bufs[b := x], disk, latest)
  {
    var bufs' := bufs[b := x];
    forall n: nat | forall k :: 0 <= k < |bufs'| ==> !(Holds(bufs'[k], n) && bufs'[k].dirty)
      ensures latest[n] == disk[n]
    {
      forall k | 0 <= k < |bufs|
        ensures !(Holds(bufs[k], n) && bufs[k].dirty)
      {
        assert !(Holds(bufs'[k], n) && bufs'[k].dirty);
      }
    }
  }

  lemma UniqueSame(bufs: seq<Buf>, b: nat, x: Buf)
    requires Unique(bufs) && b < NBUF && bufs[b].dev == ROOTDEV && x.dev == ROOTDEV && x.block == bufs[b].block
    ensures Unique(bufs[b := x])
  {
    var bufs' := bufs[b := x];
    assert forall k :: 0 <= k < NBUF ==> bufs'[k].dev == bufs[k].dev && bufs'[k].block == bufs[k].block;
  }

  /** A buffer with references caches a block of the device. */
  lemma InUse(bufs: seq<Buf>, phases: seq<Phase>, pins: seq<nat>, b: nat)
    requires Unique(bufs) && |pins| == NBUF && |phases| == NPROC && Refs(bufs, phases, pins) && b < NBUF
    requires bufs[b].lock.Some? || pins[b] > 0 || exists p: Pid :: Refers(phases[p], b)
    ensures bufs[b].refcnt > 0 && bufs[b].dev == ROOTDEV
  {
    assert RefOk(bufs[b], Referrers(phases, b, NPROC), pins[b]);
    if p: Pid :| Refers(phases[p], b) { ReferrersPositive(phases, b, NPROC, p); }
  }

  // ----- every step keeps the invariant -----

  lemma NobodyAt(bufs: seq<Buf>, phases: seq<Phase>, pins: seq<nat>, b: nat)
    requires |bufs| == |pins| == NBUF && |phases| == NPROC && Refs(bufs, phases, pins) && Held(bufs, phases)
    requires b < NBUF && bufs[b].refcnt == 0
    ensures bufs[b].lock.None? && !bufs[b].dirty && forall p: Pid :: !phases[p].Ready? ==> phases[p].b != b
  {
    assert RefOk(bufs[b], Referrers(phases, b, NPROC), pins[b]);
    forall p: Pid | !phases[p].Ready?
      ensures phases[p].b != b
    {
      assert HeldOk(bufs, p, phases[p]);
      if Refers(phases[p], b) { ReferrersPositive(phases, b, NPROC, p); }
    }
  }

  /** Process p moves on and buffer b changes, both seen only by the holder of b's lock. */
  lemma HeldSet(bufs: seq<Buf>, phases: seq<Phase>, p: Pid, ph: Phase, b: nat, x: Buf)
    requires |bufs| == NBUF && |phases| == NPROC && Held(bufs, phases) && b < NBUF
    requires x.dev == bufs[b].dev && x.block == bufs[b].block && HeldOk(bufs[b := x], p, ph)
    requires bufs[b].lock.Some? && bufs[b].lock != Some(p) ==> x.lock == bufs[b].lock && x.valid == bufs[b].valid
    requires x.lock.Some? ==> x.valid || Fetches(phases[p := ph][x.lock.value], b)
    requires (phases[p].Checking? || phases[p].Reading?) ==> phases[p].b == b
    ensures Held(bufs[b := x], phases[p := ph])
  {
    var phases' := phases[p := ph];
    forall q: Pid
      ensures HeldOk(bufs[b := x], q, phases'[q])
    {
      assert HeldOk(bufs, q, phases[q]);
    }
  }

  lemma HitInv(s: Sys, p: Pid, n: nat, b: nat)
    requires Inv(s) && s.phases[p].Ready? && b < NBUF && Caches(s.c.bufs[b], ROOTDEV, n)
    ensures var x := s.c.bufs[b].(refcnt := s.c.bufs[b].refcnt + 1);
            Inv(s.(c := SetBuf(s.c, b, x), phases := s.phases[p := Waiting(b, n)]))
  {
    hide D.Inv, InOrder, Unique, Refs, Held, Requests, Data, Settled, Referrers;
    var x := s.c.bufs[b].(refcnt := s.c.bufs[b].refcnt + 1);
    var ph := Waiting(b, n);
    ReferrersSet(s.phases, b, NPROC, p, ph);
    RefOf(s.c.bufs, s.phases, s.pins, b);
    RefsSet(s.c.bufs, s.phases, s.pins, p, ph, b, x);
    HeldHere(s.c.bufs, s.phases, b);
    HeldSet(s.c.bufs, s.phases, p, ph, b, x);
    ReadyIdle(s, p);
    RequestsSet(s.c.bufs, s.phases, s.d.pool, s.d.threads, p, ph, b, x);
    SettledSet(s.c.bufs, s.phases, s.disk, s.d, p, ph, b, x);
    DataSame(s.c.bufs, s.disk, s.latest, b, x);
    UniqueSame(s.c.bufs, b, x);
  }

  lemma RefOf(bufs: seq<Buf>, phases: seq<Phase>, pins: seq<nat>, b: nat)
    requires |bufs| == |pins| == NBUF && |phases| == NPROC && Refs(bufs, phases, pins) && b < NBUF
    ensures RefOk(bufs[b], Referrers(phases, b, NPROC), pins[b])
  {
  }

  lemma HeldHere(bufs: seq<Buf>, phases: seq<Phase>, b: nat)
    requires |bufs| == NBUF && |phases| == NPROC && Held(bufs, phases) && b < NBUF
    ensures bufs[b].lock.Some? ==> bufs[b].valid || Fetches(phases[bufs[b].lock.value], b)
  {
  }

  lemma HeldAt(bufs: seq<Buf>, phases: seq<Phase>, p: Pid)
    requires |bufs| == NBUF && |phases| == NPROC && Held(bufs, phases)
    ensures HeldOk(bufs, p, phases[p])
  {
  }

  lemma ReadyIdle(s: Sys, p: Pid)
    requires Inv(s) && !s.phases[p].Reading? && !s.phases[p].Writing?
    ensures s.d.threads[p].Idle?
  {
  }

  lemma RecycleHeld(bufs: seq<Buf>, phases: seq<Phase>, p: Pid, b: nat, n: nat, x: Buf)
    requires |bufs| == NBUF && |phases| == NPROC && Held(bufs, phases) && b < NBUF && phases[p].Ready?
    requires x.lock.None? && Caches(x, ROOTDEV, n) && forall q: Pid :: !phases[q].Ready? ==> phases[q].b != b
    ensures Held(bufs[b := x], phases[p := Waiting(b, n)])
  {
    var phases' := phases[p := Waiting(b, n)];
    forall q: Pid
      ensures HeldOk(bufs[b := x], q, phases'[q])
    {
      assert HeldOk(bufs, q, phases[q]);
    }
  }

  lemma RecycleData(bufs: seq<Buf>, disk: Disk, latest: Disk, b: nat, x: Buf)
    requires Data(bufs, disk, latest) && b < |bufs| && !bufs[b].dirty && !x.valid
    ensures Data(bufs[b := x], disk, latest)
  {
    var bufs' := bufs[b := x];
    forall n: nat | forall k :: 0 <= k < |bufs'| ==> !(Holds(bufs'[k], n) && bufs'[k].dirty)
      ensures latest[n] == disk[n]
    {
      forall k | 0 <= k < |bufs|
        ensures !(Holds(bufs[k], n) && bufs[k].dirty)
      {
        assert !(Holds(bufs'[k], n) && bufs'[k].dirty);
      }
    }
  }

  /** A missed block is cached nowhere, so the recycled buffer is its only one. */
  lemma RecycleUnique(c: Cache, moves: seq<nat>, n: nat, b: nat, x: Buf)
    requires ListOk(c, moves) && Unique(c.bufs) && FindHit(c, ROOTDEV, n, 0) == -1 && b < NBUF && Caches(x, ROOTDEV, n)
    ensures Unique(c.bufs[b := x])
  {
    forall k | 0 <= k < NBUF
      ensures !Caches(c.bufs[k], ROOTDEV, n)
    {
      assert k in c.order;
      var i :| 0 <= i < NBUF && c.order[i] == k;
      assert !Caches(c.bufs[c.order[i]], ROOTDEV, n);
    }
  }

  lemma RecycleInv(s: Sys, p: Pid, n: nat, b: nat)
    requires Inv(s) && s.phases[p].Ready? && b < NBUF && FindHit(s.c, ROOTDEV, n, 0) == -1 && s.c.bufs[b].refcnt == 0
    ensures var x := s.c.bufs[b].(dev := ROOTDEV, block := n, valid := false, refcnt := 1, dirty := false);
            Inv(s.(c := SetBuf(s.c, b, x), phases := s.phases[p := Waiting(b, n)]))
  {
    hide D.Inv, InOrder, Unique, Refs, Held, Requests, Data, Settled, Referrers, FindHit;
    var x := s.c.bufs[b].(dev := ROOTDEV, block := n, valid := false, refcnt := 1, dirty := false);
    var ph := Waiting(b, n);
    NobodyAt(s.c.bufs, s.phases, s.pins, b);
    ReferrersSet(s.phases, b, NPROC, p, ph);
    RefOf(s.c.bufs, s.phases, s.pins, b);
    RefsSet(s.c.bufs, s.phases, s.pins, p, ph, b, x);
    RecycleHeld(s.c.bufs, s.phases, p, b, n, x);
    ReadyIdle(s, p);
    RequestsSet(s.c.bufs, s.phases, s.d.pool, s.d.threads, p, ph, b, x);
    SettledSet(s.c.bufs, s.phases, s.disk, s.d, p, ph, b, x);
    RecycleData(s.c.bufs, s.disk, s.latest, b, x);
    RecycleUnique(s.c, s.moves, n, b, x);
  }

  lemma GetInv(s: Sys, e: Step)
    requires Inv(s) && e.Get? && Possible(s, e) && !Panics(s, e)
    ensures Inv(Do(s, e))
  {
    hide FindHit, FindUnused, Inv;
    InvWf(s);
    if FindHit(s.c, ROOTDEV, e.n, 0) != -1 {
      HitInv(s, e.p, e.n, s.c.order[FindHit(s.c, ROOTDEV, e.n, 0)]);
    } else {
      RecycleInv(s, e.p, e.n, s.c.order[FindUnused(s.c, NBUF)]);
    }
  }

  lemma InvWf(s: Sys)
    requires Inv(s)
    ensures Wf(s)
  {
  }

  lemma AcquireInv(s: Sys, e: Step)
    requires Inv(s) && e.Acquire? && Possible(s, e) && !Panics(s, e)
    ensures Inv(Do(s, e))
  {
    hide D.Inv, InOrder, Unique, Refs, Held, Requests, Data, Settled, Referrers;
    var b, p := s.phases[e.p].b, e.p;
    var x, ph := s.c.bufs[b].(lock := Some(p)), Checking(b, s.phases[p].n);
    HeldAt(s.c.bufs, s.phases, p);
    InUse(s.c.bufs, s.phases, s.pins, b);
    ReferrersSet(s.phases, b, NPROC, p, ph);
    RefOf(s.c.bufs, s.phases, s.pins, b);
    RefsSet(s.c.bufs, s.phases, s.pins, p, ph, b, x);
    HeldSet(s.c.bufs, s.phases, p, ph, b, x);
    ReadyIdle(s, p);
    UnlockedQuiescent(s.c.bufs, s.phases, b);
    RequestsSet(s.c.bufs, s.phases, s.d.pool, s.d.threads, p, ph, b, x);
    SettledSet(s.c.bufs, s.phases, s.disk, s.d, p, ph, b, x);
    DataSame(s.c.bufs, s.disk, s.latest, b, x);
    UniqueSame(s.c.bufs, b, x);
  }

  /** The process returns from bread or bwrite, holding the buffer. */
  lemma ReturnInv(s: Sys, p: Pid)
    requires Inv(s) && s.d.threads[p].Idle?
    requires s.phases[p].Writing? || (s.phases[p].Checking? && s.phases[p].b < NBUF && s.c.bufs[s.phases[p].b].valid)
    ensures Inv(s.(phases := s.phases[p := Ready]))
  {
    hide D.Inv, InOrder, Unique, Refs, Held, Requests, Data, Settled, Referrers;
    HeldAt(s.c.bufs, s.phases, p);
    var b := s.phases[p].b;
    var x := s.c.bufs[b];
    assert s.c.bufs[b := x] == s.c.bufs;
    HeldHere(s.c.bufs, s.phases, b);
    RefsSame(s.c.bufs, s.phases, s.pins, p, Ready);
    HeldSet(s.c.bufs, s.phases, p, Ready, b, x);
    RequestsSet(s.c.bufs, s.phases, s.d.pool, s.d.threads, p, Ready, b, x);
    SettledSet(s.c.bufs, s.phases, s.disk, s.d, p, Ready, b, x);
  }

  lemma FetchData(bufs: seq<Buf>, disk: Disk, latest: Disk, b: nat, x: Buf)
    requires Unique(bufs) && Data(bufs, disk, latest) && b < |bufs| && bufs[b].dev == ROOTDEV && !bufs[b].valid
    requires x == bufs[b].(valid := true) && x.data == disk[x.block]
    ensures Data(bufs[b := x], disk, latest) && x.data == latest[x.block]
  {
    forall k | 0 <= k < |bufs|
      ensures !Holds(bufs[k], x.block)
    {
      if k != b { assert !SameBlock(bufs[k], bufs[b]); }
    }
    var bufs' := bufs[b := x];
    forall n: nat | forall k :: 0 <= k < |bufs'| ==> !(Holds(bufs'[k], n) && bufs'[k].dirty)
      ensures latest[n] == disk[n]
    {
      forall k | 0 <= k < |bufs|
        ensures !(Holds(bufs[k], n) && bufs[k].dirty)
      {
        assert !(Holds(bufs'[k], n) && bufs'[k].dirty);
      }
    }
  }

  lemma SettledHere(bufs: seq<Buf>, phases: seq<Phase>, disk: Disk, d: D.Disp, p: Pid)
    requires |phases| == NPROC && D.Sizes(d) && Settled(bufs, phases, disk, d) && d.threads[p].Idle?
    ensures SettledOk(bufs, phases[p], disk)
  {
    assert Moved(d, p);
  }

  lemma FetchDoneInv(s: Sys, e: Step)
    requires Inv(s) && e.FetchDone? && Possible(s, e) && !Panics(s, e)
    ensures Inv(Do(s, e))
  {
    hide D.Inv, InOrder, Unique, Refs, Held, Requests, Data, Settled, Referrers;
    var b, p := s.phases[e.p].b, e.p;
    var x := s.c.bufs[b].(valid := true);
    HeldAt(s.c.bufs, s.phases, p);
    InUse(s.c.bufs, s.phases, s.pins, b);
    SettledHere(s.c.bufs, s.phases, s.disk, s.d, p);
    ReferrersSet(s.phases, b, NPROC, p, Ready);
    RefOf(s.c.bufs, s.phases, s.pins, b);
    RefsSet(s.c.bufs, s.phases, s.pins, p, Ready, b, x);
    HeldSet(s.c.bufs, s.phases, p, Ready, b, x);
    RequestsSet(s.c.bufs, s.phases, s.d.pool, s.d.threads, p, Ready, b, x);
    FetchSettled(s.c.bufs, s.phases, s.disk, s.d, p, b, x);
    FetchData(s.c.bufs, s.disk, s.latest, b, x);
    UniqueSame(s.c.bufs, b, x);
  }

  /** Only the holder has a request out for b. */
  lemma FetchSettled(bufs: seq<Buf>, phases: seq<Phase>, disk: Disk, d: D.Disp, p: Pid, b: nat, x: Buf)
    requires |bufs| == NBUF && |phases| == NPROC && D.Sizes(d) && Settled(bufs, phases, disk, d) && Held(bufs, phases)
    requires b < NBUF && bufs[b].lock == Some(p)
    ensures Settled(bufs[b := x], phases[p := Ready], disk, d)
  {
    var phases' := phases[p := Ready];
    forall q: Pid | Moved(d, q)
      ensures SettledOk(bufs[b := x], phases'[q], disk)
    {
      assert SettledOk(bufs, phases[q], disk) && HeldOk(bufs, q, phases[q]);
    }
  }

  lemma ModifyData(bufs: seq<Buf>, disk: Disk, latest: Disk, b: nat, x: Buf)
    requires Unique(bufs) && Data(bufs, disk, latest) && b < |bufs| && bufs[b].dev == ROOTDEV && bufs[b].valid
    requires x == bufs[b].(data := x.data, dirty := true)
    ensures Data(bufs[b := x], disk, latest[x.block := x.data])
  {
    forall k | 0 <= k < |bufs| && k != b
      ensures !Holds(bufs[k], x.block)
    {
      assert !SameBlock(bufs[k], bufs[b]);
    }
    var bufs' := bufs[b := x];
    forall n: nat | forall k :: 0 <= k < |bufs'| ==> !(Holds(bufs'[k], n) && bufs'[k].dirty)
      ensures latest[x.block := x.data][n] == disk[n]
    {
      assert !Holds(bufs'[b], n);
      forall k | 0 <= k < |bufs|
        ensures !(Holds(bufs[k], n) && bufs[k].dirty)
      {
        assert !(Holds(bufs'[k], n) && bufs'[k].dirty);
      }
    }
  }

  lemma ModifyInv(s: Sys, e: Step)
    requires Inv(s) && e.Modify? && Possible(s, e) && !Panics(s, e)
    ensures Inv(Do(s, e))
  {
    hide D.Inv, InOrder, Unique, Refs, Held, Requests, Data, Settled, Referrers;
    var b, p := e.b, e.p;
    var x := s.c.bufs[b].(data := e.data, dirty := true);
    assert s.phases[p := Ready] == s.phases;
    HeldAt(s.c.bufs, s.phases, p);
    HeldHere(s.c.bufs, s.phases, b);
    InUse(s.c.bufs, s.phases, s.pins, b);
    RefOf(s.c.bufs, s.phases, s.pins, b);
    RefsSet(s.c.bufs, s.phases, s.pins, p, Ready, b, x);
    HeldSet(s.c.bufs, s.phases, p, Ready, b, x);
    ReadyIdle(s, p);
    RequestsSet(s.c.bufs, s.phases, s.d.pool, s.d.threads, p, Ready, b, x);
    UnlockedQuiescent(s.c.bufs, s.phases, b);
    SettledSet(s.c.bufs, s.phases, s.disk, s.d, p, Ready, b, x);
    ModifyData(s.c.bufs, s.disk, s.latest, b, x);
    UniqueSame(s.c.bufs, b, x);
  }

  lemma UnlockInv(s: Sys, e: Step)
    requires Inv(s) && e.Unlock? && Possible(s, e) && !Panics(s, e)
    ensures Inv(Do(s, e))
  {
    hide D.Inv, InOrder, Unique, Refs, Held, Requests, Data, Settled, Referrers;
    var b, p := e.b, e.p;
    var x, ph := s.c.bufs[b].(lock := None), Dropping(b);
    InUse(s.c.bufs, s.phases, s.pins, b);
    ReferrersSet(s.phases, b, NPROC, p, ph);
    RefOf(s.c.bufs, s.phases, s.pins, b);
    RefsSet(s.c.bufs, s.phases, s.pins, p, ph, b, x);
    HeldSet(s.c.bufs, s.phases, p, ph, b, x);
    ReadyIdle(s, p);
    RequestsSet(s.c.bufs, s.phases, s.d.pool, s.d.threads, p, ph, b, x);
    UnlockedQuiescent(s.c.bufs, s.phases, b);
    SettledSet(s.c.bufs, s.phases, s.disk, s.d, p, ph, b, x);
    DataSame(s.c.bufs, s.disk, s.latest, b, x);
    UniqueSame(s.c.bufs, b, x);
  }

  lemma UnrefList(c: Cache, moves: seq<nat>, b: nat)
    requires ListOk(c, moves) && b < NBUF && c.bufs[b].refcnt > 0
    ensures ListOk(Unref(c, b), if c.bufs[b].refcnt == 1 then moves + [b] else moves)
    ensures Unref(c, b).bufs == c.bufs[b := c.bufs[b].(refcnt := c.bufs[b].refcnt - 1)]
  {
    hide InOrder;
    UnrefOrder(c, b, moves);
  }

  lemma DropRefInv(s: Sys, e: Step)
    requires Inv(s) && e.DropRef? && Possible(s, e) && !Panics(s, e)
    ensures Inv(Do(s, e))
  {
    hide D.Inv, InOrder, Unique, Refs, Held, Requests, Data, Settled, Referrers, Unref;
    var b, p := s.phases[e.p].b, e.p;
    var x := s.c.bufs[b].(refcnt := s.c.bufs[b].refcnt - 1);
    UnrefList(s.c, s.moves, b);
    HeldHere(s.c.bufs, s.phases, b);
    InUse(s.c.bufs, s.phases, s.pins, b);
    ReferrersSet(s.phases, b, NPROC, p, Ready);
    RefOf(s.c.bufs, s.phases, s.pins, b);
    RefsSet(s.c.bufs, s.phases, s.pins, p, Ready, b, x);
    HeldSet(s.c.bufs, s.phases, p, Ready, b, x);
    ReadyIdle(s, p);
    RequestsSet(s.c.bufs, s.phases, s.d.pool, s.d.threads, p, Ready, b, x);
    SettledSet(s.c.bufs, s.phases, s.disk, s.d, p, Ready, b, x);
    DataSame(s.c.bufs, s.disk, s.latest, b, x);
    UniqueSame(s.c.bufs, b, x);
  }

  lemma RefsPin(bufs: seq<Buf>, phases: seq<Phase>, pins: seq<nat>, b: nat, x: Buf, n: nat)
    requires |bufs| == |pins| == NBUF && |phases| == NPROC && Refs(bufs, phases, pins) && b < NBUF
    requires RefOk(x, Referrers(phases, b, NPROC), n)
    ensures Refs(bufs[b := x], phases, pins[b := n])
  {
  }

  /** bpin and bunpin: a count changes, and nothing any process holds. */
  lemma PinInv(s: Sys, b: nat, x: Buf, n: nat)
    requires Inv(s) && b < NBUF && x == s.c.bufs[b].(refcnt := x.refcnt) && RefOk(x, Referrers(s.phases, b, NPROC), n)
    requires s.c.bufs[b].dev == ROOTDEV
    ensures Inv(s.(c := SetBuf(s.c, b, x), pins := s.pins[b := n]))
  {
    hide D.Inv, InOrder, Unique, Refs, Held, Requests, Data, Settled, Referrers;
    RefsPin(s.c.bufs, s.phases, s.pins, b, x, n);
    PinHeld(s.c.bufs, s.phases, s.d.pool, s.d.threads, b, x);
    PinSettled(s.c.bufs, s.phases, s.disk, s.d, b, x);
    DataSame(s.c.bufs, s.disk, s.latest, b, x);
    UniqueSame(s.c.bufs, b, x);
  }

  lemma PinHeld(bufs: seq<Buf>, phases: seq<Phase>, pool: seq<D.Slot>, threads: seq<D.Thread>, b: nat, x: Buf)
    requires |bufs| == NBUF && |phases| == |threads| == NPROC
    requires Held(bufs, phases) && Requests(bufs, phases, pool, threads)
    requires b < NBUF && x == bufs[b].(refcnt := x.refcnt)
    ensures Held(bufs[b := x], phases) && Requests(bufs[b := x], phases, pool, threads)
  {
    forall p: Pid
      ensures HeldOk(bufs[b := x], p, phases[p])
    {
      assert HeldOk(bufs, p, phases[p]);
    }
  }

  lemma PinSettled(bufs: seq<Buf>, phases: seq<Phase>, disk: Disk, d: D.Disp, b: nat, x: Buf)
    requires |phases| == NPROC && D.Sizes(d) && Settled(bufs, phases, disk, d)
    requires b < |bufs| && x == bufs[b].(refcnt := x.refcnt)
    ensures Settled(bufs[b := x], phases, disk, d)
  {
    forall p: Pid | Moved(d, p)
      ensures SettledOk(bufs[b := x], phases[p], disk)
    {
      assert SettledOk(bufs, phases[p], disk);
    }
  }

  lemma PinStepInv(s: Sys, e: Step)
    requires Inv(s) && e.Pin? && Possible(s, e) && !Panics(s, e)
    ensures Inv(Do(s, e))
  {
    hide D.Inv, InOrder, Unique, Refs, Held, Requests, Data, Settled, Referrers;
    RefOf(s.c.bufs, s.phases, s.pins, e.b);
    InUse(s.c.bufs, s.phases, s.pins, e.b);
    var x := s.c.bufs[e.b];
    PinInv(s, e.b, x.(refcnt := x.refcnt + 1), s.pins[e.b] + 1);
  }

  lemma UnpinStepInv(s: Sys, e: Step)
    requires Inv(s) && e.Unpin? && Possible(s, e) && !Panics(s, e)
    ensures Inv(Do(s, e))
  {
    hide D.Inv, InOrder, Unique, Refs, Held, Requests, Data, Settled, Referrers;
    RefOf(s.c.bufs, s.phases, s.pins, e.b);
    InUse(s.c.bufs, s.phases, s.pins, e.b);
    var x := s.c.bufs[e.b];
    PinInv(s, e.b, x.(refcnt := x.refcnt - 1), s.pins[e.b] - 1);
  }

  // ----- requests -----

  predicate SameRequest(a: D.Slot, b: D.Slot) {
    a.block == b.block && a.write == b.write && a.buf == b.buf
  }

  /** A new request is the caller's, is not transferred yet, and disturbs no other. */
  lemma SubmitKeeps(d: D.Disp, c: D.Step, q: Pid)
    requires D.Inv(d) && c.Submit? && D.Enabled(d, c) && !D.Panics(d, c)
    ensures var d' := D.Do(d, c);
            && D.Sizes(d') && (q != c.p ==> d'.threads[q] == d.threads[q] && (Moved(d', q) ==> Moved(d, q)))
            && (!d'.threads[q].Idle? ==>
                 && d'.threads[q].own < D.MAX_DISK_REQS
                 && (q == c.p ==> d'.pool[d'.threads[q].own] == D.Slot(true, false, c.block, c.write, c.buf, c.p))
                 && (q != c.p ==> d'.pool[d'.threads[q].own] == d.pool[d.threads[q].own]))
            && !Moved(d', c.p)
  {
    hide D.StatsOk, D.QueueOk, D.Pending, D.NoLostWakeup, D.LockOk, D.MeasureOk;
    D.FlightUsed(d.queue, d.pool, d.threads, D.FirstFreeReq(d.pool, 0));
  }

  /** What a step of the dispatcher does to the request of process q. */
  ghost predicate Keeps(d: D.Disp, d': D.Disp, q: Pid)
    requires D.Sizes(d) && D.Sizes(d')
  {
    !d'.threads[q].Idle? ==>
      && !d.threads[q].Idle? && d'.threads[q].own == d.threads[q].own < D.MAX_DISK_REQS
      && SameRequest(d'.pool[d'.threads[q].own], d.pool[d.threads[q].own])
  }

  lemma AdvanceKeeps(d: D.Disp, c: D.Step, q: Pid)
    requires D.Inv(d) && D.Enabled(d, c) && (c.FallAsleep? || c.ReadHead? || c.Account? || c.Kill? || c.SetPolicy?)
    ensures D.Sizes(D.Do(d, c)) && Keeps(d, D.Do(d, c), q) && (Moved(D.Do(d, c), q) ==> Moved(d, q))
  {
    hide D.StatsOk, D.QueueOk, D.FlightOk, D.Pending, D.NoLostWakeup, D.MeasureOk, D.LockOk;
  }

  lemma TakeKeeps(d: D.Disp, c: D.Step, q: Pid)
    requires D.Inv(d) && D.Enabled(d, c) && c.TakeNext?
    ensures D.Sizes(D.Do(d, c)) && Keeps(d, D.Do(d, c), q) && (Moved(D.Do(d, c), q) ==> Moved(d, q))
  {
    hide D.StatsOk, D.QueueOk, D.FlightOk, D.Pending, D.NoLostWakeup, D.MeasureOk, D.LockOk, D.Q.Select;
  }

  lemma MoveKeeps(d: D.Disp, c: D.Step, q: Pid)
    requires D.Inv(d) && D.Enabled(d, c) && c.Move?
    ensures D.Sizes(D.Do(d, c)) && Keeps(d, D.Do(d, c), q)
    ensures Moved(D.Do(d, c), q) ==> Moved(d, q) || d.threads[c.p].r == d.threads[q].own
  {
    hide D.StatsOk, D.QueueOk, D.FlightOk, D.Pending, D.NoLostWakeup, D.MeasureOk, D.LockOk;
  }

  lemma CompleteKeeps(d: D.Disp, c: D.Step, q: Pid)
    requires D.Inv(d) && D.Enabled(d, c) && c.Complete?
    ensures D.Sizes(D.Do(d, c)) && Keeps(d, D.Do(d, c), q) && (Moved(D.Do(d, c), q) ==> Moved(d, q))
  {
    hide D.StatsOk, D.QueueOk, D.FlightOk, D.Pending, D.NoLostWakeup, D.MeasureOk, D.LockOk;
  }

  lemma WakeKeeps(d: D.Disp, c: D.Step, q: Pid)
    requires D.Inv(d) && D.Enabled(d, c) && c.WakeOne?
    ensures D.Sizes(D.Do(d, c)) && Keeps(d, D.Do(d, c), q) && (Moved(D.Do(d, c), q) ==> Moved(d, q))
  {
    hide D.StatsOk, D.QueueOk, D.FlightOk, D.Pending, D.NoLostWakeup, D.MeasureOk, D.LockOk;
  }

  lemma RecheckKeeps(d: D.Disp, c: D.Step, q: Pid)
    requires D.Inv(d) && D.Enabled(d, c) && c.Recheck?
    ensures D.Sizes(D.Do(d, c)) && Keeps(d, D.Do(d, c), q) && (Moved(D.Do(d, c), q) ==> Moved(d, q))
  {
    hide D.StatsOk, D.QueueOk, D.FlightOk, D.Pending, D.NoLostWakeup, D.MeasureOk, D.LockOk;
  }

  /** Any step but Submit keeps every request; only Move transfers one. */
  lemma QueueKeeps(d: D.Disp, c: D.Step, q: Pid)
    requires D.Inv(d) && !c.Submit? && D.Enabled(d, c)
    ensures D.Sizes(D.Do(d, c)) && Keeps(d, D.Do(d, c), q)
    ensures Moved(D.Do(d, c), q) ==> Moved(d, q) || (c.Move? && d.threads[c.p].r == d.threads[q].own)
  {
    hide D.Inv, D.Do, Keeps;
    match c
    case TakeNext(_, _) => TakeKeeps(d, c, q);
    case Move(_) => MoveKeeps(d, c, q);
    case Complete(_) => CompleteKeeps(d, c, q);
    case WakeOne(_) => WakeKeeps(d, c, q);
    case Recheck(_) => RecheckKeeps(d, c, q);
    case _ => AdvanceKeeps(d, c, q);
  }

  /** The holder of b asks for a transfer. */
  lemma SubmitInv(s: Sys, p: Pid, b: nat, ph: Phase)
    requires Inv(s) && b < NBUF && Owns(s.c.bufs, p, b)
    requires (s.phases[p].Ready? && ph == Writing(b) && s.c.bufs[b].valid) ||
             (s.phases[p].Checking? && s.phases[p].b == b && ph == Reading(b, s.phases[p].n) && !s.c.bufs[b].valid)
    requires D.Enabled(s.d, Request(s.c.bufs, p, b, ph.Writing?))
    requires !D.Panics(s.d, Request(s.c.bufs, p, b, ph.Writing?))
    ensures Inv(s.(d := D.Do(s.d, Request(s.c.bufs, p, b, ph.Writing?)), phases := s.phases[p := ph]))
  {
    hide D.Inv, D.Do, InOrder, Unique, Refs, Held, Requests, Data, Settled, Referrers;
    var c := Request(s.c.bufs, p, b, ph.Writing?);
    D.StepInv(s.d, c);
    SubmitKeeps(s.d, c, p);
    RefsSame(s.c.bufs, s.phases, s.pins, p, ph);
    assert s.c.bufs[b := s.c.bufs[b]] == s.c.bufs;
    HeldAt(s.c.bufs, s.phases, p);
    HeldSet(s.c.bufs, s.phases, p, ph, b, s.c.bufs[b]);
    SubmitRequests(s.c.bufs, s.phases, s.d, c, p, b, ph);
    SubmitSettled(s.c.bufs, s.phases, s.disk, s.d, c, p, ph);
  }

  lemma SubmitRequests(bufs: seq<Buf>, phases: seq<Phase>, d: D.Disp, c: D.Step, p: Pid, b: nat, ph: Phase)
    requires |bufs| == NBUF && |phases| == NPROC && D.Inv(d) && Requests(bufs, phases, d.pool, d.threads) && b < NBUF
    requires (ph.Writing? || ph.Reading?) && ph.b == b && c == Request(bufs, p, b, ph.Writing?)
    requires D.Enabled(d, c) && !D.Panics(d, c)
    ensures |D.Do(d, c).threads| == NPROC && Requests(bufs, phases[p := ph], D.Do(d, c).pool, D.Do(d, c).threads)
  {
    hide D.Inv, D.Do;
    D.InvSizes(d);
    var d' := D.Do(d, c);
    SubmitKeeps(d, c, p);
    forall q: Pid | !d'.threads[q].Idle?
      ensures d'.threads[q].own < |d'.pool| && Asks(bufs, phases[p := ph][q], d'.pool[d'.threads[q].own])
    {
      SubmitKeeps(d, c, q);
    }
  }

  lemma SubmitSettled(bufs: seq<Buf>, phases: seq<Phase>, disk: Disk, d: D.Disp, c: D.Step, p: Pid, ph: Phase)
    requires |phases| == NPROC && D.Inv(d) && Settled(bufs, phases, disk, d) && c.Submit? && c.p == p
    requires D.Enabled(d, c) && !D.Panics(d, c)
    ensures D.Sizes(D.Do(d, c)) && Settled(bufs, phases[p := ph], disk, D.Do(d, c))
  {
    hide D.Inv, D.Do, Moved;
    D.InvSizes(d);
    var d' := D.Do(d, c);
    SubmitKeeps(d, c, p);
    forall q: Pid | Moved(d', q)
      ensures SettledOk(bufs, phases[p := ph][q], disk)
    {
      SubmitKeeps(d, c, q);
    }
  }

  lemma CheckInv(s: Sys, e: Step)
    requires Inv(s) && e.Check? && Possible(s, e) && !Panics(s, e)
    ensures Inv(Do(s, e))
  {
    hide D.Inv, D.Do, InOrder, Unique, Refs, Held, Requests, Data, Settled, Referrers;
    var b := s.phases[e.p].b;
    HeldAt(s.c.bufs, s.phases, e.p);
    ReadyIdle(s, e.p);
    if s.c.bufs[b].valid {
      ReturnInv(s, e.p);
    } else {
      SubmitInv(s, e.p, b, Reading(b, s.phases[e.p].n));
    }
  }

  lemma WriteInv(s: Sys, e: Step)
    requires Inv(s) && e.Write? && Possible(s, e) && !Panics(s, e)
    ensures Inv(Do(s, e))
  {
    hide D.Inv, D.Do, InOrder, Unique, Refs, Held, Requests, Data, Settled, Referrers;
    HeldHere(s.c.bufs, s.phases, e.b);
    SubmitInv(s, e.p, e.b, Writing(e.b));
  }

  lemma QueueRequests(bufs: seq<Buf>, bufs': seq<Buf>, phases: seq<Phase>, d: D.Disp, c: D.Step)
    requires |phases| == NPROC && D.Inv(d) && Requests(bufs, phases, d.pool, d.threads)
    requires !c.Submit? && D.Enabled(d, c)
    requires |bufs'| == |bufs| && forall b :: 0 <= b < |bufs| ==> bufs'[b].block == bufs[b].block
    ensures |D.Do(d, c).threads| == NPROC && Requests(bufs', phases, D.Do(d, c).pool, D.Do(d, c).threads)
  {
    hide D.Inv, D.Do;
    D.InvSizes(d);
    var d' := D.Do(d, c);
    QueueKeeps(d, c, 0);
    forall q: Pid | !d'.threads[q].Idle?
      ensures d'.threads[q].own < |d'.pool| && Asks(bufs', phases[q], d'.pool[d'.threads[q].own])
    {
      QueueKeeps(d, c, q);
    }
  }

  lemma QueueSettled(bufs: seq<Buf>, phases: seq<Phase>, disk: Disk, d: D.Disp, c: D.Step)
    requires |phases| == NPROC && D.Inv(d) && Settled(bufs, phases, disk, d)
    requires !c.Submit? && !c.Move? && D.Enabled(d, c)
    ensures D.Sizes(D.Do(d, c)) && Settled(bufs, phases, disk, D.Do(d, c))
  {
    hide D.Inv, D.Do, Moved;
    D.InvSizes(d);
    var d' := D.Do(d, c);
    QueueKeeps(d, c, 0);
    forall q: Pid | Moved(d', q)
      ensures SettledOk(bufs, phases[q], disk)
    {
      QueueKeeps(d, c, q);
    }
  }

  lemma QueueInv(s: Sys, e: Step)
    requires Inv(s) && e.Queue? && !e.c.Move? && Possible(s, e) && !Panics(s, e)
    ensures Inv(Do(s, e))
  {
    hide D.Inv, D.Do, InOrder, Unique, Refs, Held, Requests, Data, Settled, Referrers;
    D.StepInv(s.d, e.c);
    QueueKeeps(s.d, e.c, 0);
    QueueRequests(s.c.bufs, s.c.bufs, s.phases, s.d, e.c);
    QueueSettled(s.c.bufs, s.phases, s.disk, s.d, e.c);
  }

  /** The request being moved belongs to a process that holds its buffer. */
  lemma MovingRequest(s: Sys, p: Pid) returns (q: Pid)
    requires Inv(s) && s.d.threads[p].Moving?
    ensures s.d.threads[p].r < D.MAX_DISK_REQS && !s.d.threads[q].Idle? && s.d.threads[q].own == s.d.threads[p].r
    ensures Asks(s.c.bufs, s.phases[q], s.d.pool[s.d.threads[p].r])
    ensures s.c.bufs[s.phases[q].b].lock == Some(q) && HeldOk(s.c.bufs, q, s.phases[q])
    ensures forall x: Pid :: !s.d.threads[x].Idle? && s.d.threads[x].own == s.d.threads[p].r ==> x == q
  {
    hide ListOk, Unique, Refs, Data, Settled, D.StatsOk, D.QueueOk, D.Pending, D.NoLostWakeup, D.MeasureOk, D.LockOk;
    q := s.d.pool[s.d.threads[p].r].owner;
    HeldAt(s.c.bufs, s.phases, q);
  }

  lemma MoveData(bufs: seq<Buf>, disk: Disk, latest: Disk, b: nat, write: bool)
    requires Data(bufs, disk, latest) && b < |bufs| && bufs[b].dev == ROOTDEV && bufs[b].valid == write
    ensures var (bufs', disk') := Transfer(bufs, disk, b, write); Data(bufs', disk', latest)
  {
    var (bufs', disk') := Transfer(bufs, disk, b, write);
    forall n: nat | forall k :: 0 <= k < |bufs'| ==> !(Holds(bufs'[k], n) && bufs'[k].dirty)
      ensures latest[n] == disk'[n]
    {
      if !write || n != bufs[b].block {
        forall k | 0 <= k < |bufs|
          ensures !(Holds(bufs[k], n) && bufs[k].dirty)
        {
          assert !(Holds(bufs'[k], n) && bufs'[k].dirty);
        }
      }
    }
  }

  lemma MoveHeld(bufs: seq<Buf>, phases: seq<Phase>, pins: seq<nat>, disk: Disk, b: nat, write: bool)
    requires Unique(bufs) && |pins| == NBUF && |phases| == NPROC
    requires Refs(bufs, phases, pins) && Held(bufs, phases) && b < NBUF
    ensures var bufs' := Transfer(bufs, disk, b, write).0;
            Unique(bufs') && Refs(bufs', phases, pins) && Held(bufs', phases)
  {
    hide Referrers;
    var bufs' := Transfer(bufs, disk, b, write).0;
    forall k | 0 <= k < NBUF
      ensures RefOk(bufs'[k], Referrers(phases, k, NPROC), pins[k])
    {
      assert RefOk(bufs[k], Referrers(phases, k, NPROC), pins[k]);
    }
    forall p: Pid
      ensures HeldOk(bufs', p, phases[p])
    {
      assert HeldOk(bufs, p, phases[p]);
    }
    assert forall i, j :: 0 <= i < NBUF && 0 <= j < NBUF ==>
             SameBlock(bufs'[i], bufs'[j]) == SameBlock(bufs[i], bufs[j]);
  }

  /** A transfer settles its own request and leaves every other process's buffer and block alone. */
  lemma MoveSettled(bufs: seq<Buf>, phases: seq<Phase>, pins: seq<nat>, disk: Disk, d: D.Disp, c: D.Step, q: Pid,
                    b: nat, write: bool)
    requires |bufs| == |pins| == NBUF && |phases| == NPROC && Unique(bufs)
    requires Refs(bufs, phases, pins) && Held(bufs, phases)
    requires D.Inv(d) && Settled(bufs, phases, disk, d) && c.Move? && D.Enabled(d, c)
    requires Transfers(phases[q], b) && b < NBUF && bufs[b].lock == Some(q) && write == phases[q].Writing?
    requires forall x: Pid :: !d.threads[x].Idle? && d.threads[x].own == d.threads[c.p].r ==> x == q
    ensures D.Sizes(D.Do(d, c))
    ensures var (bufs', disk') := Transfer(bufs, disk, b, write); Settled(bufs', phases, disk', D.Do(d, c))
  {
    hide D.Inv, D.Do, Refs, Unique;
    D.InvSizes(d);
    var (bufs', disk') := Transfer(bufs, disk, b, write);
    QueueKeeps(d, c, 0);
    forall x: Pid | Moved(D.Do(d, c), x)
      ensures SettledOk(bufs', phases[x], disk')
    {
      if x != q {
        QueueKeeps(d, c, x);
        assert HeldOk(bufs, x, phases[x]);
        assert SettledOk(bufs, phases[x], disk);
        if phases[x].Reading? {
          InUse(bufs, phases, pins, b);
          InUse(bufs, phases, pins, phases[x].b);
          BlocksDiffer(bufs, b, phases[x].b);
        }
      }
    }
  }

  lemma BlocksDiffer(bufs: seq<Buf>, i: nat, j: nat)
    requires Unique(bufs) && i < NBUF && j < NBUF && i != j && bufs[i].dev == ROOTDEV && bufs[j].dev == ROOTDEV
    ensures bufs[i].block != bufs[j].block
  {
    assert !SameBlock(bufs[i], bufs[j]);
  }

  /** The state after the transfer for a request whose owner holds buffer b. */
  lemma TransferInv(s: Sys, c: D.Step, q: Pid, b: nat, write: bool)
    requires Wf(s) && c.Move? && D.Enabled(s.d, c) && !D.Panics(s.d, c)
    requires Transfers(s.phases[q], b) && b < NBUF && s.c.bufs[b].lock == Some(q) && write == s.phases[q].Writing?
    requires s.phases[q].Reading? ==> !s.c.bufs[b].valid
    requires forall x: Pid :: !s.d.threads[x].Idle? && s.d.threads[x].own == s.d.threads[c.p].r ==> x == q
    requires Inv(s)
    ensures var (bufs', disk') := Transfer(s.c.bufs, s.disk, b, write);
            Inv(s.(d := D.Do(s.d, c), c := s.c.(bufs := bufs'), disk := disk'))
  {
    hide D.Inv, D.Do, InOrder, Unique, Refs, Held, Requests, Data, Settled, Referrers;
    D.StepInv(s.d, c);
    QueueKeeps(s.d, c, 0);
    InUse(s.c.bufs, s.phases, s.pins, b);
    HeldHere(s.c.bufs, s.phases, b);
    var (bufs', disk') := Transfer(s.c.bufs, s.disk, b, write);
    QueueRequests(s.c.bufs, bufs', s.phases, s.d, c);
    MoveHeld(s.c.bufs, s.phases, s.pins, s.disk, b, write);
    MoveData(s.c.bufs, s.disk, s.latest, b, write);
    MoveSettled(s.c.bufs, s.phases, s.pins, s.disk, s.d, c, q, b, write);
  }

  lemma MoveInv(s: Sys, e: Step)
    requires Inv(s) && e.Queue? && e.c.Move? && Possible(s, e) && !Panics(s, e)
    ensures Inv(Do(s, e))
  {
    hide Inv, D.Do, Transfer;
    InvWf(s);
    var q := MovingRequest(s, e.c.p);
    TransferInv(s, e.c, q, s.phases[q].b, s.phases[q].Writing?);
  }

  /** Every step of every process and of the dispatcher keeps the invariant. */
  lemma StepInv(s: Sys, e: Step)
    requires Inv(s) && Possible(s, e) && !Panics(s, e)
    ensures Inv(Do(s, e))
  {
    hide Inv, Do;
    InvWf(s);
    match e
    case Get(_, _) => GetInv(s, e);
    case Acquire(_) => AcquireInv(s, e);
    case Check(_) => CheckInv(s, e);
    case FetchDone(_) => FetchDoneInv(s, e);
    case Modify(_, _, _) => ModifyInv(s, e);
    case Write(_, _) => WriteInv(s, e);
    case WriteDone(_) => WriteDoneInv(s, e);
    case Unlock(_, _) => UnlockInv(s, e);
    case DropRef(_) => DropRefInv(s, e);
    case Pin(_, _) => PinStepInv(s, e);
    case Unpin(_) => UnpinStepInv(s, e);
    case Queue(c) => if c.Move? { MoveInv(s, e); } else { QueueInv(s, e); }
  }

  lemma WriteDoneInv(s: Sys, e: Step)
    requires Inv(s) && e.WriteDone? && Possible(s, e) && !Panics(s, e)
    ensures Inv(Do(s, e))
  {
    hide D.Inv, D.Do, InOrder, Unique, Refs, Held, Requests, Data, Settled, Referrers;
    ReturnInv(s, e.p);
  }

  // ----- the cache is a flat block store -----

  /** What the callers see is what one array of blocks would show them. */
  ghost predicate Accepts(store: Disk, events: seq<Event>)
    decreases |events|
  {
    events == [] ||
    match events[0]
    case Quiet => Accepts(store, events[1..])
    case Got(n, data) => data == store[n] && Accepts(store, events[1..])
    case Changed(n, data) => Accepts(store[n := data], events[1..])
  }

  ghost predicate IsRun(s: Sys, es: seq<Step>, s': Sys)
    decreases |es|
  {
    Wf(s)
    && if es == [] then s' == s
       else Possible(s, es[0]) && !Panics(s, es[0]) && IsRun(Do(s, es[0]), es[1..], s')
  }

  ghost function Trace(s: Sys, es: seq<Step>, s': Sys): seq<Event>
    requires IsRun(s, es, s')
    decreases |es|
  {
    if es == [] then [] else [Seen(s, es[0])] + Trace(Do(s, es[0]), es[1..], s')
  }

  lemma LatestKept(s: Sys, e: Step)
    requires Wf(s) && Possible(s, e) && !Panics(s, e)
    ensures Do(s, e).latest == if e.Modify? then s.latest[s.c.bufs[e.b].block := e.data] else s.latest
  {
    hide Wf, Possible, Panics;
    if e.Queue? { LatestQueue(s, e); } else if e.Modify? { LatestModify(s, e); } else { LatestOther(s, e); }
  }

  lemma LatestQueue(s: Sys, e: Step)
    requires Wf(s) && Possible(s, e) && !Panics(s, e) && e.Queue?
    ensures Do(s, e).latest == s.latest
  {
    hide Wf, Possible, Panics, D.Do, Transfer;
  }

  lemma LatestModify(s: Sys, e: Step)
    requires Wf(s) && Possible(s, e) && !Panics(s, e) && e.Modify?
    ensures Do(s, e).latest == s.latest[s.c.bufs[e.b].block := e.data]
  {
    hide Wf, Possible, Panics, SetBuf;
  }

  lemma LatestOther(s: Sys, e: Step)
    requires Wf(s) && Possible(s, e) && !Panics(s, e) && !e.Queue? && !e.Modify?
    ensures Do(s, e).latest == s.latest
  {
    hide Wf, Possible, Panics, Do;
    if e.Get? || e.Acquire? || e.Check? || e.FetchDone? { LatestRead(s, e); } else { LatestRest(s, e); }
  }

  lemma LatestRead(s: Sys, e: Step)
    requires Wf(s) && Possible(s, e) && !Panics(s, e) && (e.Get? || e.Acquire? || e.Check? || e.FetchDone?)
    ensures Do(s, e).latest == s.latest
  {
    hide Wf, Possible, Panics, D.Do, Bget, SetBuf, Request;
  }

  lemma LatestRest(s: Sys, e: Step)
    requires Wf(s) && Possible(s, e) && !Panics(s, e)
    requires !e.Queue? && !e.Modify? && !e.Get? && !e.Acquire? && !e.Check? && !e.FetchDone?
    ensures Do(s, e).latest == s.latest
  {
    hide Wf, Possible, Panics, D.Do, Bget, Unref, SetBuf, Transfer, Request;
  }

  lemma CheckLatest(s: Sys, p: Pid)
    requires Inv(s) && s.phases[p].Checking?
    ensures var ph := s.phases[p]; ph.b < NBUF && (s.c.bufs[ph.b].valid ==> s.c.bufs[ph.b].data == s.latest[ph.n])
  {
    hide D.Inv, ListOk, Unique, Refs, Held, Requests, Settled;
    HeldAt(s.c.bufs, s.phases, p);
  }

  /** bread returns the latest contents of the block it was asked for; only Modify changes them. */
  lemma SeenLatest(s: Sys, e: Step)
    requires Inv(s) && Possible(s, e) && !Panics(s, e)
    ensures var s' := Do(s, e);
            match Seen(s, e)
            case Quiet => s'.latest == s.latest
            case Got(n, data) => data == s.latest[n] && s'.latest == s.latest
            case Changed(n, data) => s'.latest == s.latest[n := data]
  {
    hide Inv, Do, Panics;
    InvWf(s);
    LatestKept(s, e);
    match e
    case Check(p) => CheckLatest(s, p);
    case FetchDone(p) => FetchLatest(s, p);
    case _ =>
  }

  lemma FetchLatest(s: Sys, p: Pid)
    requires Inv(s) && s.phases[p].Reading? && s.d.threads[p].Idle?
    ensures s.phases[p].b < NBUF && s.c.bufs[s.phases[p].b].data == s.latest[s.phases[p].n]
  {
    hide D.Inv, ListOk, Unique, Refs, Held, Requests, Data, Settled, Referrers;
    HeldAt(s.c.bufs, s.phases, p);
    var b := s.phases[p].b;
    InUse(s.c.bufs, s.phases, s.pins, b);
    SettledHere(s.c.bufs, s.phases, s.disk, s.d, p);
    FetchData(s.c.bufs, s.disk, s.latest, b, s.c.bufs[b].(valid := true));
  }

  /** Main result on the cache: under every interleaving of any number of processes with the dispatcher, and
      whatever the scheduling policy, callers see one flat array of blocks. */
  lemma {:induction false} RunRefinesStore(s: Sys, es: seq<Step>, s': Sys)
    requires Inv(s) && IsRun(s, es, s')
    ensures Inv(s') && Accepts(s.latest, Trace(s, es, s'))
    decreases |es|
  {
    hide Inv, Do, Possible, Panics;
    if es != [] {
      var s1 := Do(s, es[0]);
      StepInv(s, es[0]);
      SeenLatest(s, es[0]);
      RunRefinesStore(s1, es[1..], s');
      var rest := Trace(s1, es[1..], s');
      assert ([Seen(s, es[0])] + rest)[1..] == rest;
    }
  }

  /** When bwrite returns, the disk holds the caller's data. */
  lemma WriteReachesDisk(s: Sys, p: Pid)
    requires Inv(s) && s.phases[p].Writing? && s.d.threads[p].Idle?
    ensures var b := s.phases[p].b;
            && b < NBUF && s.c.bufs[b].lock == Some(p)
            && s.disk[s.c.bufs[b].block] == s.c.bufs[b].data == s.latest[s.c.bufs[b].block]
  {
    hide D.Inv, ListOk, Unique, Refs, Held, Requests, Settled, Referrers;
    HeldAt(s.c.bufs, s.phases, p);
    var bufs, b := s.c.bufs, s.phases[p].b;
    InUse(bufs, s.phases, s.pins, b);
    HeldHere(bufs, s.phases, b);
    SettledHere(bufs, s.phases, s.disk, s.d, p);
    forall k | 0 <= k < |bufs|
      ensures !(Holds(bufs[k], bufs[b].block) && bufs[k].dirty)
    {
      if k != b && Holds(bufs[k], bufs[b].block) { BlocksDiffer(bufs, k, b); }
    }
  }

  // ----- requests out at the same time -----

  /** Two requests out at the same time are for different buffers and different blocks. */
  lemma OutstandingDistinct(s: Sys, j: nat, k: nat)
    requires Inv(s) && j < k < D.MAX_DISK_REQS && s.d.pool[j].used && s.d.pool[k].used
    ensures s.d.pool[j].buf < NBUF && s.d.pool[k].buf < NBUF
    ensures s.d.pool[j].buf != s.d.pool[k].buf && s.d.pool[j].block != s.d.pool[k].block
  {
    hide ListOk, Unique, Refs, Data, Settled, Held, D.StatsOk, D.QueueOk, D.Pending, D.NoLostWakeup, D.MeasureOk,
         D.LockOk, D.FlightOk;
    var p, q := s.d.pool[j].owner, s.d.pool[k].owner;
    HeldAt(s.c.bufs, s.phases, p);
    HeldAt(s.c.bufs, s.phases, q);
    InUse(s.c.bufs, s.phases, s.pins, s.phases[p].b);
    InUse(s.c.bufs, s.phases, s.pins, s.phases[q].b);
    BlocksDiffer(s.c.bufs, s.phases[p].b, s.phases[q].b);
  }

  /** Serving a list of requests, one after the other. */
  ghost function Serve(bufs: seq<Buf>, disk: Disk, pool: seq<D.Slot>, ks: seq<nat>): (r: (seq<Buf>, Disk))
    requires forall i :: 0 <= i < |ks| ==> ks[i] < |pool| && pool[ks[i]].buf < |bufs|
    ensures |r.0| == |bufs|
    decreases |ks|
  {
    if ks == [] then (bufs, disk)
    else
      var (bufs', disk') := Transfer(bufs, disk, pool[ks[0]].buf, pool[ks[0]].write);
      Serve(bufs', disk', pool, ks[1..])
  }

  /** The requests listed are for different buffers and blocks. */
  ghost predicate Apart(bufs: seq<Buf>, pool: seq<D.Slot>, ks: seq<nat>) {
    && (forall i :: 0 <= i < |ks| ==> ks[i] < |pool| && pool[ks[i]].buf < |bufs|)
    && (forall i, j :: 0 <= i < j < |ks| ==>
          pool[ks[i]].buf != pool[ks[j]].buf && bufs[pool[ks[i]].buf].block != bufs[pool[ks[j]].buf].block)
  }

  function Served(x: Buf, here: Block, write: bool): Buf {
    if write then x.(dirty := false) else x.(data := here)
  }

  /** The request at place i has its own effect, whatever the others are. */
  ghost predicate EffectAt(bufs: seq<Buf>, disk: Disk, pool: seq<D.Slot>, ks: seq<nat>, i: nat,
                           bufs': seq<Buf>, disk': Disk)
    requires Apart(bufs, pool, ks) && i < |ks| && |bufs'| == |bufs|
  {
    var r := pool[ks[i]];
    var x := bufs[r.buf];
    bufs'[r.buf] == Served(x, disk[x.block], r.write) && disk'[x.block] == if r.write then x.data else disk[x.block]
  }

  lemma {:induction false} ServeEach(bufs: seq<Buf>, disk: Disk, pool: seq<D.Slot>, ks: seq<nat>, i: nat)
    requires Apart(bufs, pool, ks) && i < |ks|
    ensures var (bufs', disk') := Serve(bufs, disk, pool, ks); EffectAt(bufs, disk, pool, ks, i, bufs', disk')
    decreases |ks|
  {
    hide Transfer;
    TailApart(bufs, disk, pool, ks);
    if i == 0 {
      ServeFirst(bufs, disk, pool, ks);
    } else {
      var r := pool[ks[0]];
      var (bufs1, disk1) := Transfer(bufs, disk, r.buf, r.write);
      ServeEach(bufs1, disk1, pool, ks[1..], i - 1);
      LaterUntouched(bufs, disk, pool, ks, i);
    }
  }

  lemma ServeFirst(bufs: seq<Buf>, disk: Disk, pool: seq<D.Slot>, ks: seq<nat>)
    requires Apart(bufs, pool, ks) && ks != []
    ensures var (bufs', disk') := Serve(bufs, disk, pool, ks); EffectAt(bufs, disk, pool, ks, 0, bufs', disk')
  {
    var r := pool[ks[0]];
    var (bufs1, disk1) := Transfer(bufs, disk, r.buf, r.write);
    TailApart(bufs, disk, pool, ks);
    assert forall j :: 0 <= j < |ks[1..]| ==> ks[1..][j] == ks[j + 1];
    ServeOthers(bufs1, disk1, pool, ks[1..], r.buf, bufs1[r.buf].block);
  }

  /** Serving the first request leaves what a later one reads. */
  lemma LaterUntouched(bufs: seq<Buf>, disk: Disk, pool: seq<D.Slot>, ks: seq<nat>, i: nat)
    requires Apart(bufs, pool, ks) && 0 < i < |ks|
    ensures var (bufs1, disk1) := Transfer(bufs, disk, pool[ks[0]].buf, pool[ks[0]].write);
            var b := pool[ks[i]].buf;
            ks[1..][i - 1] == ks[i] && bufs1[b] == bufs[b] && disk1[bufs[b].block] == disk[bufs[b].block]
  {
  }

  lemma TailApart(bufs: seq<Buf>, disk: Disk, pool: seq<D.Slot>, ks: seq<nat>)
    requires Apart(bufs, pool, ks) && ks != []
    ensures Apart(Transfer(bufs, disk, pool[ks[0]].buf, pool[ks[0]].write).0, pool, ks[1..])
  {
    assert forall j :: 0 <= j < |ks[1..]| ==> ks[1..][j] == ks[j + 1];
  }

  /** What no request names is left alone. */
  lemma {:induction false} ServeOthers(bufs: seq<Buf>, disk: Disk, pool: seq<D.Slot>, ks: seq<nat>, b: nat, n: nat)
    requires Apart(bufs, pool, ks) && b < |bufs|
    ensures var (bufs', disk') := Serve(bufs, disk, pool, ks);
            && ((forall i :: 0 <= i < |ks| ==> pool[ks[i]].buf != b) ==> bufs'[b] == bufs[b])
            && ((forall i :: 0 <= i < |ks| ==> bufs[pool[ks[i]].buf].block != n) ==> disk'[n] == disk[n])
    decreases |ks|
  {
    if ks != [] {
      var r := pool[ks[0]];
      var (bufs1, disk1) := Transfer(bufs, disk, r.buf, r.write);
      TailApart(bufs, disk, pool, ks);
      assert forall j :: 0 <= j < |ks[1..]| ==> ks[1..][j] == ks[j + 1];
      ServeOthers(bufs1, disk1, pool, ks[1..], b, n);
    }
  }

  lemma OutstandingApart(s: Sys, ks: seq<nat>)
    requires Inv(s)
    requires forall i :: 0 <= i < |ks| ==> ks[i] < D.MAX_DISK_REQS && s.d.pool[ks[i]].used
    requires forall i, j :: 0 <= i < j < |ks| ==> ks[i] != ks[j]
    ensures Apart(s.c.bufs, s.d.pool, ks)
  {
    forall i | 0 <= i < |ks|
      ensures s.d.pool[ks[i]].buf < |s.c.bufs| && s.d.pool[ks[i]].block == s.c.bufs[s.d.pool[ks[i]].buf].block
    {
      assert Asks(s.c.bufs, s.phases[s.d.pool[ks[i]].owner], s.d.pool[ks[i]]);
    }
    forall i, j | 0 <= i < j < |ks|
      ensures s.d.pool[ks[i]].buf != s.d.pool[ks[j]].buf && s.d.pool[ks[i]].block != s.d.pool[ks[j]].block
    {
      if ks[i] < ks[j] { OutstandingDistinct(s, ks[i], ks[j]); } else { OutstandingDistinct(s, ks[j], ks[i]); }
    }
  }

  /** Scheduling cannot change data: any two orders of serving the same requests leave the same buffers and disk. */
  lemma ServiceOrder(s: Sys, ks: seq<nat>, ks': seq<nat>)
    requires Inv(s)
    requires forall i :: 0 <= i < |ks| ==> ks[i] < D.MAX_DISK_REQS && s.d.pool[ks[i]].used
    requires (forall i, j :: 0 <= i < j < |ks| ==> ks[i] != ks[j])
    requires (forall i, j :: 0 <= i < j < |ks'| ==> ks'[i] != ks'[j])
    requires forall k :: k in ks <==> k in ks'
    ensures Apart(s.c.bufs, s.d.pool, ks) && Apart(s.c.bufs, s.d.pool, ks')
    ensures Serve(s.c.bufs, s.disk, s.d.pool, ks) == Serve(s.c.bufs, s.disk, s.d.pool, ks')
  {
    forall i | 0 <= i < |ks'|
      ensures ks'[i] < D.MAX_DISK_REQS && s.d.pool[ks'[i]].used
    {
      assert ks'[i] in ks;
    }
    OutstandingApart(s, ks);
    OutstandingApart(s, ks');
    SameServe(s.c.bufs, s.disk, s.d.pool, ks, ks');
  }

  lemma SameServe(bufs: seq<Buf>, disk: Disk, pool: seq<D.Slot>, ks: seq<nat>, ks': seq<nat>)
    requires Apart(bufs, pool, ks) && Apart(bufs, pool, ks') && (forall k :: k in ks <==> k in ks') && bufs != []
    ensures Serve(bufs, disk, pool, ks) == Serve(bufs, disk, pool, ks')
  {
    hide Serve;
    var a, a' := Serve(bufs, disk, pool, ks), Serve(bufs, disk, pool, ks');
    forall b | 0 <= b < |bufs|
      ensures a.0[b] == a'.0[b]
    {
      SameAt(bufs, disk, pool, ks, ks', b, 0);
    }
    forall n: nat
      ensures a.1[n] == a'.1[n]
    {
      SameAt(bufs, disk, pool, ks, ks', 0, n);
    }
    assert a.0 == a'.0 && a.1 == a'.1;
  }

  lemma SameAt(bufs: seq<Buf>, disk: Disk, pool: seq<D.Slot>, ks: seq<nat>, ks': seq<nat>, b: nat, n: nat)
    requires Apart(bufs, pool, ks) && Apart(bufs, pool, ks') && (forall k :: k in ks <==> k in ks') && b < |bufs|
    ensures Serve(bufs, disk, pool, ks).0[b] == Serve(bufs, disk, pool, ks').0[b]
    ensures Serve(bufs, disk, pool, ks).1[n] == Serve(bufs, disk, pool, ks').1[n]
  {
    hide Serve;
    ServeOthers(bufs, disk, pool, ks, b, n);
    ServeOthers(bufs, disk, pool, ks', b, n);
    assert forall j :: 0 <= j < |ks'| ==> ks'[j] in ks;
    if i :| 0 <= i < |ks| && pool[ks[i]].buf == b { SameEffect(bufs, disk, pool, ks, ks', i); }
    if i :| 0 <= i < |ks| && bufs[pool[ks[i]].buf].block == n { SameEffect(bufs, disk, pool, ks, ks', i); }
  }

  /** A request in both lists has the same effect in both. */
  lemma SameEffect(bufs: seq<Buf>, disk: Disk, pool: seq<D.Slot>, ks: seq<nat>, ks': seq<nat>, i: nat)
    requires Apart(bufs, pool, ks) && Apart(bufs, pool, ks') && (forall k :: k in ks <==> k in ks') && i < |ks|
    ensures var b := pool[ks[i]].buf;
            && Serve(bufs, disk, pool, ks).0[b] == Serve(bufs, disk, pool, ks').0[b]
            && Serve(bufs, disk, pool, ks).1[bufs[b].block] == Serve(bufs, disk, pool, ks').1[bufs[b].block]
  {
    hide Serve;
    assert ks[i] in ks';
    var j :| 0 <= j < |ks'| && ks'[j] == ks[i];
    ServeEach(bufs, disk, pool, ks, i);
    ServeEach(bufs, disk, pool, ks', j);
  }

  // ----- panics, counts, boot -----

  /** The pool never runs out; bwrite and brelse panic exactly for a caller that does not hold the buffer, and
      bget exactly when every buffer is referenced and none caches the block. */
  lemma PanicsIff(s: Sys, e: Step)
    requires Inv(s) && Possible(s, e)
    ensures Panics(s, e) <==>
            || (e.Get? && forall b :: 0 <= b < NBUF ==> s.c.bufs[b].refcnt > 0 && !Caches(s.c.bufs[b], ROOTDEV, e.n))
            || ((e.Write? || e.Unlock?) && !Owns(s.c.bufs, e.p, e.b))
  {
    hide D.Inv, Unique, Refs, Held, Requests, Data, Settled, Referrers, InOrder, D.Panics;
    match e
    case Check(p) =>
      if !s.c.bufs[s.phases[p].b].valid { D.PoolNeverExhausted(s.d, Request(s.c.bufs, p, s.phases[p].b, false)); }
    case Write(p, b) => D.PoolNeverExhausted(s.d, Request(s.c.bufs, p, b, true));
    case Queue(c) => D.PoolNeverExhausted(s.d, c);
    case Get(p, n) => GetPanicsIff(s.c, s.moves, n);
    case _ =>
  }

  lemma GetPanicsIff(c: Cache, moves: seq<nat>, n: nat)
    requires ListOk(c, moves)
    ensures Bget(c, ROOTDEV, n).1.None? <==>
            forall b :: 0 <= b < NBUF ==> c.bufs[b].refcnt > 0 && !Caches(c.bufs[b], ROOTDEV, n)
  {
    hide InOrder;
    if Bget(c, ROOTDEV, n).1.None? {
      forall b | 0 <= b < NBUF
        ensures c.bufs[b].refcnt > 0 && !Caches(c.bufs[b], ROOTDEV, n)
      {
        assert b in c.order;
        var i :| 0 <= i < NBUF && c.order[i] == b;
      }
    }
  }

  /** A reference is never dropped twice, and a buffer in use is never recycled. */
  lemma CountsPositive(s: Sys, p: Pid)
    requires Inv(s) && !s.phases[p].Ready?
    ensures s.phases[p].b < NBUF && s.c.bufs[s.phases[p].b].refcnt > 0
  {
    hide D.Inv, ListOk, Unique, Refs, Held, Requests, Data, Settled, Referrers;
    HeldAt(s.c.bufs, s.phases, p);
    InUse(s.c.bufs, s.phases, s.pins, s.phases[p].b);
  }

  /** What binit leaves: every buffer was put at the front in turn. */
  ghost function Boot(pool: seq<D.Slot>, disk: Disk, data: Block): Sys {
    Sys(EmptyCache(data), seq(NBUF, _ => 0), seq(NPROC, _ => Ready), D.Boot(pool), disk, disk, seq(NBUF, i => i))
  }

  lemma {:induction false} BootMoves(n: nat, b: nat)
    requires b < n
    ensures LastMove(seq(n, i => i), b) == b
  {
    var moves := seq(n, i => i);
    if b < n - 1 {
      assert moves[..n - 1] == seq(n - 1, i => i);
      BootMoves(n - 1, b);
    }
  }

  lemma {:induction false} BootReferrers(b: nat, n: nat)
    requires n <= NPROC
    ensures Referrers(seq(NPROC, _ => Ready), b, n) == 0
  {
    if n > 0 { BootReferrers(b, n - 1); }
  }

  lemma BootInv(pool: seq<D.Slot>, disk: Disk, data: Block)
    requires |pool| == D.MAX_DISK_REQS && forall k :: 0 <= k < |pool| ==> !pool[k].used
    ensures Inv(Boot(pool, disk, data))
  {
    hide D.Inv, LastMove, Referrers;
    var s := Boot(pool, disk, data);
    D.BootInv(pool);
    forall i, j | 0 <= i < j < NBUF
      ensures LastMove(s.moves, s.c.order[i]) > LastMove(s.moves, s.c.order[j])
    {
      BootMoves(NBUF, s.c.order[i]);
      BootMoves(NBUF, s.c.order[j]);
    }
    forall b | 0 <= b < NBUF
      ensures b in s.c.order && RefOk(s.c.bufs[b], Referrers(s.phases, b, NPROC), s.pins[b])
    {
      assert s.c.order[NBUF - 1 - b] == b;
      BootReferrers(b, NPROC);
    }
  }
}
