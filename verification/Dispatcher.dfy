/** submit_disk_request and run_disk_dispatcher under every interleaving. One step is one critical section
    of disk_queue.lock, one unlocked action, or one process visited by wakeup; sleep and wakeup meet on the
    sleeper's own lock, as in proc.c. */
module Dispatcher {
  import opened Options
  import opened Frames
  import Q = DiskQueue

  const MAX_DISK_REQS: nat := 64
  const DISK_LATENCY_C: int := 5
  const WRAP: int := 0x1_0000_0000_0000_0000  // the counters are 64 bits wide

  /** A slot of req_pool. */
  datatype Slot = Slot(used: bool, completed: bool, block: int, write: bool, buf: nat, owner: Pid)

  /** Where a process is. `own` is the slot of its own request, r the one it dispatches. */
  datatype Thread =
    | Idle
    | Taking(own: nat)                            // about to dequeue
    | Measuring(own: nat, r: nat)                 // about to read the head position, unlocked
    | Accounting(own: nat, r: nat, latency: int)  // about to update head and statistics
    | Moving(own: nat, r: nat)                    // in virtio_disk_rw
    | Finishing(own: nat, r: nat)                 // about to mark r completed
    | Waking(own: nat, r: nat, i: nat)            // in wakeup(r), holding disk_queue.lock, next process i
    | Rechecking(own: nat)                        // about to test own.completed under the lock
    | Falling(own: nat)                           // in sleep: has its own lock, released disk_queue.lock
    | Asleep(own: nat)                            // SLEEPING on its request

  /** A request serviced: its block, and whether it was a write. */
  datatype Service = Service(block: int, write: bool)

  datatype Stats = Stats(diskReads: nat, diskWrites: nat, latency: int, count: nat)

  // `dispatcher` records who found the queue idle; nothing reads it.
  datatype Disp = Disp(pool: seq<Slot>, queue: seq<nat>, busy: bool, policy: Q.Policy, head: int,
                       lock: Option<Pid>, threads: seq<Thread>, stats: Stats, served: seq<Service>,
                       dispatcher: Option<Pid>)

  datatype Step =
    | Submit(p: Pid, buf: nat, block: int, write: bool)
    | FallAsleep(p: Pid)
    | TakeNext(p: Pid, levels: seq<int>)
    | ReadHead(p: Pid)
    | Account(p: Pid)
    | Move(p: Pid)
    | Complete(p: Pid)
    | WakeOne(p: Pid)
    | Recheck(p: Pid)
    | Kill(p: Pid)
    | SetPolicy(policy: Q.Policy)

  predicate Sizes(d: Disp) {
    |d.pool| == MAX_DISK_REQS && |d.threads| == NPROC && forall i :: 0 <= i < |d.queue| ==> d.queue[i] < MAX_DISK_REQS
  }

  function FirstFreeReq(pool: seq<Slot>, i: nat): (r: int)
    requires i <= |pool|
    ensures r == -1 || i <= r < |pool|
    ensures r == -1 ==> forall k :: i <= k < |pool| ==> pool[k].used
    ensures r != -1 ==> !pool[r].used
    decreases |pool| - i
  {
    if i == |pool| then -1 else if !pool[i].used then i else FirstFreeReq(pool, i + 1)
  }

  function Distance(a: int, b: int): int {
    if a - b < 0 then b - a else a - b
  }

  function KeysOf(d: Disp, levels: seq<int>): (ks: seq<Q.Key>)
    requires Sizes(d) && |levels| == NPROC
    ensures |ks| == |d.queue|
  {
    seq(|d.queue|, i requires 0 <= i < |d.queue| =>
      Q.Key(d.pool[d.queue[i]].block, levels[d.pool[d.queue[i]].owner]))
  }

  function HasR(t: Thread): bool {
    t.Measuring? || t.Accounting? || t.Moving? || t.Finishing? || t.Waking?
  }

  /** When a step can be taken: the process is at that point, and the locks it needs are free. */
  predicate Enabled(d: Disp, c: Step)
    requires Sizes(d)
  {
    match c
    case Submit(p, _, _, _) => d.threads[p].Idle? && d.lock.None?
    case FallAsleep(p) => d.threads[p].Falling?
    case TakeNext(p, levels) => d.threads[p].Taking? && d.lock.None? && |levels| == NPROC
    case ReadHead(p) => d.threads[p].Measuring? && d.threads[p].r < MAX_DISK_REQS
    case Account(p) => d.threads[p].Accounting? && d.lock.None? && d.threads[p].r < MAX_DISK_REQS
    case Move(p) => d.threads[p].Moving?
    case Complete(p) => d.threads[p].Finishing? && d.lock.None? && d.threads[p].r < MAX_DISK_REQS
    case WakeOne(p) =>
      d.threads[p].Waking? && (d.threads[p].i < NPROC && d.threads[p].i != p ==> !d.threads[d.threads[p].i].Falling?)
    case Recheck(p) => d.threads[p].Rechecking? && d.lock.None? && d.threads[p].own < MAX_DISK_REQS
    case Kill(p) => d.threads[p].Asleep?
    case SetPolicy(_) => d.lock.None?
  }

  /** submit_disk_request panics: no free slot in the request pool. */
  predicate Panics(d: Disp, c: Step)
    requires Sizes(d)
  {
    c.Submit? && FirstFreeReq(d.pool, 0) == -1
  }

  function Set(d: Disp, p: Pid, t: Thread): Disp
    requires |d.threads| == NPROC
  {
    d.(threads := d.threads[p := t])
  }

  function Do(d: Disp, c: Step): Disp
    requires Sizes(d) && Enabled(d, c) && !Panics(d, c)
  {
    match c
    case Submit(p, buf, block, write) =>
      var k := FirstFreeReq(d.pool, 0);
      var d1 := d.(pool := d.pool[k := Slot(true, false, block, write, buf, p)], queue := d.queue + [k]);
      if !d.busy then Set(d1.(busy := true, dispatcher := Some(p)), p, Taking(k)) else Set(d1, p, Falling(k))
    case FallAsleep(p) => Set(d, p, Asleep(d.threads[p].own))
    case TakeNext(p, levels) =>
      if d.queue == [] then Set(d.(busy := false, dispatcher := None), p, Rechecking(d.threads[p].own))
      else
        var i := Q.Select(KeysOf(d, levels), d.policy, d.head);
        Set(d.(queue := Q.Without(d.queue, i)), p, Measuring(d.threads[p].own, d.queue[i]))
    case ReadHead(p) =>
      var t := d.threads[p];
      Set(d, p, Accounting(t.own, t.r, Distance(d.pool[t.r].block, d.head) + DISK_LATENCY_C))
    case Account(p) =>
      var t := d.threads[p];
      var s := d.stats;
      var b := d.pool[t.r].block;
      Set(d.(head := b, served := d.served + [Service(b, d.pool[t.r].write)],
             stats := Stats(if d.pool[t.r].write then s.diskReads else (s.diskReads + 1) % WRAP,
                            if d.pool[t.r].write then (s.diskWrites + 1) % WRAP else s.diskWrites,
                            (s.latency + t.latency) % WRAP, (s.count + 1) % WRAP)), p, Moving(t.own, t.r))
    case Move(p) => Set(d, p, Finishing(d.threads[p].own, d.threads[p].r))
    case Complete(p) =>
      var t := d.threads[p];
      Set(d.(pool := d.pool[t.r := d.pool[t.r].(completed := true)], lock := Some(p)), p, Waking(t.own, t.r, 0))
    case WakeOne(p) =>
      var t := d.threads[p];
      if t.i >= NPROC then Set(d.(lock := None), p, Taking(t.own))
      else
        var d1 := if t.i != p && d.threads[t.i] == Asleep(t.r) then Set(d, t.i, Rechecking(t.r)) else d;
        Set(d1, p, Waking(t.own, t.r, t.i + 1))
    case Recheck(p) =>
      var k := d.threads[p].own;
      if d.pool[k].completed then Set(d.(pool := d.pool[k := d.pool[k].(used := false, completed := false)]), p, Idle)
      else Set(d, p, Falling(k))
    case Kill(p) => Set(d, p, Rechecking(d.threads[p].own))
    case SetPolicy(policy) => d.(policy := policy)
  }

  // ----- the invariant -----

  predicate Dispatching(t: Thread) {
    t.Taking? || HasR(t)
  }

  /** The request this thread has dequeued and not completed. */
  predicate Carries(t: Thread, k: nat) {
    HasR(t) && !t.Waking? && t.r == k
  }

  /** Slots in use and processes inside submit correspond one to one. */
  predicate Owners(pool: seq<Slot>, threads: seq<Thread>)
    requires |pool| == MAX_DISK_REQS && |threads| == NPROC
  {
    && (forall p :: 0 <= p < NPROC && !threads[p].Idle? ==>
          threads[p].own < MAX_DISK_REQS && pool[threads[p].own].used && pool[threads[p].own].owner == p)
    && (forall k :: 0 <= k < MAX_DISK_REQS && pool[k].used ==>
          !threads[pool[k].owner].Idle? && threads[pool[k].owner].own == k)
  }

  /** busy is set exactly while one process dispatches. */
  predicate OneDispatcher(busy: bool, dispatcher: Option<Pid>, threads: seq<Thread>)
    requires |threads| == NPROC
  {
    busy == dispatcher.Some? && forall p: Pid :: Dispatching(threads[p]) == (dispatcher == Some(p))
  }

  /** The queue holds distinct requests in use and not completed; if it holds any, someone dispatches. */
  predicate QueueOk(queue: seq<nat>, pool: seq<Slot>, busy: bool)
    requires |pool| == MAX_DISK_REQS
  {
    && (forall i, j :: 0 <= i < |queue| && 0 <= j < |queue| && queue[i] == queue[j] ==> i == j)
    && (forall k :: k in queue ==> k < MAX_DISK_REQS && pool[k].used && !pool[k].completed)
    && (queue != [] ==> busy)
  }

  /** The request in flight is in use, out of the queue, and completed only once wakeup runs for it. */
  predicate FlightOk(queue: seq<nat>, pool: seq<Slot>, threads: seq<Thread>)
    requires |pool| == MAX_DISK_REQS && |threads| == NPROC
  {
    forall p :: 0 <= p < NPROC && HasR(threads[p]) ==>
      && threads[p].r < MAX_DISK_REQS && pool[threads[p].r].used && threads[p].r !in queue
      && pool[threads[p].r].completed == threads[p].Waking?
  }

  /** A request not completed is queued or in the hands of the dispatcher. */
  predicate Pending(queue: seq<nat>, pool: seq<Slot>, threads: seq<Thread>, dispatcher: Option<Pid>)
    requires |pool| == MAX_DISK_REQS && |threads| == NPROC
  {
    forall k :: 0 <= k < MAX_DISK_REQS && pool[k].used && !pool[k].completed ==>
      k in queue || (dispatcher.Some? && Carries(threads[dispatcher.value], k))
  }

  predicate Sleeps(t: Thread) {
    t.Falling? || t.Asleep?
  }

  /** A process on its way to sleep or asleep waits for a request that is not completed, or is still
      ahead of the wakeup that is running for it. */
  predicate NoLostWakeup(pool: seq<Slot>, threads: seq<Thread>, dispatcher: Option<Pid>)
    requires |pool| == MAX_DISK_REQS && |threads| == NPROC
  {
    forall p ::
      0 <= p < NPROC && Sleeps(threads[p]) && threads[p].own < MAX_DISK_REQS && pool[threads[p].own].completed ==>
      dispatcher.Some? && var t := threads[dispatcher.value]; t.Waking? && t.r == threads[p].own && t.i <= p
  }

  predicate LockOk(lock: Option<Pid>, threads: seq<Thread>)
    requires |threads| == NPROC
  {
    forall p: Pid :: threads[p].Waking? == (lock == Some(p))
  }

  /** The latency was measured from the head position that is still current. */
  predicate MeasureOk(pool: seq<Slot>, threads: seq<Thread>, head: int)
    requires |pool| == MAX_DISK_REQS && |threads| == NPROC
  {
    forall p :: 0 <= p < NPROC && threads[p].Accounting? && threads[p].r < MAX_DISK_REQS ==>
      threads[p].latency == Distance(pool[threads[p].r].block, head) + DISK_LATENCY_C
  }

  /** Sum of |b - previous| + 5 along the serviced sequence, from head position `from`. */
  function TotalLatency(served: seq<Service>, from: int): int {
    if served == [] then 0
    else
      var n := |served| - 1;
      TotalLatency(served[..n], from) + Distance(served[n].block, HeadAfter(served[..n], from)) + 5
  }

  function HeadAfter(served: seq<Service>, from: int): int {
    if served == [] then from else served[|served| - 1].block
  }

  /** How many of the serviced requests are writes, or reads. */
  function Count(served: seq<Service>, write: bool): nat {
    if served == [] then 0
    else Count(served[..|served| - 1], write) + if served[|served| - 1].write == write then 1 else 0
  }

  predicate StatsOk(head: int, served: seq<Service>, stats: Stats) {
    && head == HeadAfter(served, 0)
    && stats.latency == TotalLatency(served, 0) % WRAP
    && stats.count == |served| % WRAP
    && stats.diskReads == Count(served, false) % WRAP
    && stats.diskWrites == Count(served, true) % WRAP
  }

  predicate Inv(d: Disp) {
    && Sizes(d)
    && Owners(d.pool, d.threads)
    && OneDispatcher(d.busy, d.dispatcher, d.threads)
    && QueueOk(d.queue, d.pool, d.busy)
    && FlightOk(d.queue, d.pool, d.threads)
    && Pending(d.queue, d.pool, d.threads, d.dispatcher)
    && NoLostWakeup(d.pool, d.threads, d.dispatcher)
    && LockOk(d.lock, d.threads)
    && MeasureOk(d.pool, d.threads, d.head)
    && StatsOk(d.head, d.served, d.stats)
  }

  /** The state binit leaves. */
  function Boot(pool: seq<Slot>): Disp {
    Disp(pool, [], false, Q.Fcfs, 0, None, seq(NPROC, _ => Idle), Stats(0, 0, 0, 0), [], None)
  }

  lemma BootInv(pool: seq<Slot>)
    requires |pool| == MAX_DISK_REQS && forall k :: 0 <= k < |pool| ==> !pool[k].used
    ensures Inv(Boot(pool)) && BlocksOk(Boot(pool))
  {
  }

  // ----- every step keeps it -----

  lemma SubmitOwners(pool: seq<Slot>, threads: seq<Thread>, k: nat, s: Slot, p: Pid, t: Thread)
    requires |pool| == MAX_DISK_REQS && |threads| == NPROC && Owners(pool, threads)
    requires k < MAX_DISK_REQS && !pool[k].used && threads[p].Idle? && s.used && s.owner == p && !t.Idle? && t.own == k
    ensures Owners(pool[k := s], threads[p := t])
  {
  }

  lemma SubmitQueue(queue: seq<nat>, pool: seq<Slot>, busy: bool, k: nat, s: Slot)
    requires |pool| == MAX_DISK_REQS && QueueOk(queue, pool, busy)
    requires k < MAX_DISK_REQS && !pool[k].used && s.used && !s.completed
    ensures QueueOk(queue + [k], pool[k := s], true)
  {
  }

  lemma SubmitFlight(queue: seq<nat>, pool: seq<Slot>, threads: seq<Thread>, k: nat, s: Slot, p: Pid, t: Thread)
    requires |pool| == MAX_DISK_REQS && |threads| == NPROC && FlightOk(queue, pool, threads)
    requires k < MAX_DISK_REQS && !pool[k].used && !HasR(t)
    ensures FlightOk(queue + [k], pool[k := s], threads[p := t])
  {
  }

  lemma SubmitPending(queue: seq<nat>, pool: seq<Slot>, threads: seq<Thread>, d: Option<Pid>, d': Option<Pid>,
                      k: nat, s: Slot, p: Pid, t: Thread)
    requires |pool| == MAX_DISK_REQS && |threads| == NPROC && Pending(queue, pool, threads, d)
    requires k < MAX_DISK_REQS && threads[p].Idle? && (d.Some? ==> d' == d)
    ensures Pending(queue + [k], pool[k := s], threads[p := t], d')
  {
  }

  lemma SubmitWakeup(pool: seq<Slot>, threads: seq<Thread>, d: Option<Pid>, d': Option<Pid>, k: nat, s: Slot, p: Pid,
                     t: Thread)
    requires |pool| == MAX_DISK_REQS && |threads| == NPROC && NoLostWakeup(pool, threads, d) && Owners(pool, threads)
    requires k < MAX_DISK_REQS && !pool[k].used && threads[p].Idle? && !s.completed && !t.Idle? && t.own == k
    requires d.Some? ==> d' == d
    ensures NoLostWakeup(pool[k := s], threads[p := t], d')
  {
  }

  lemma SubmitInv(d: Disp, c: Step)
    requires Inv(d) && c.Submit? && Enabled(d, c) && !Panics(d, c)
    ensures Inv(Do(d, c))
  {
    hide StatsOk, Owners, QueueOk, FlightOk, Pending, NoLostWakeup;
    var k := FirstFreeReq(d.pool, 0);
    var s := Slot(true, false, c.block, c.write, c.buf, c.p);
    var d' := Do(d, c);
    var t := d'.threads[c.p];
    SubmitOwners(d.pool, d.threads, k, s, c.p, t);
    SubmitQueue(d.queue, d.pool, d.busy, k, s);
    SubmitFlight(d.queue, d.pool, d.threads, k, s, c.p, t);
    SubmitPending(d.queue, d.pool, d.threads, d.dispatcher, d'.dispatcher, k, s, c.p, t);
    SubmitWakeup(d.pool, d.threads, d.dispatcher, d'.dispatcher, k, s, c.p, t);
    FlightUsed(d.queue, d.pool, d.threads, k);
  }

  lemma FlightUsed(queue: seq<nat>, pool: seq<Slot>, threads: seq<Thread>, k: nat)
    requires |pool| == MAX_DISK_REQS && |threads| == NPROC && FlightOk(queue, pool, threads)
    requires k < MAX_DISK_REQS && !pool[k].used
    ensures forall p :: 0 <= p < NPROC && HasR(threads[p]) ==> threads[p].r != k
  {
  }

  /** A process that neither was nor becomes a dispatcher moves on with the same request. */
  lemma BystanderInv(d: Disp, p: Pid, t: Thread)
    requires Inv(d) && !d.threads[p].Idle? && !t.Idle? && t.own == d.threads[p].own
    requires !Dispatching(d.threads[p]) && !Dispatching(t)
    requires Sleeps(t) ==> Sleeps(d.threads[p]) || !d.pool[t.own].completed
    ensures Inv(Set(d, p, t))
  {
    hide StatsOk, QueueOk, Owners, FlightOk, Pending, NoLostWakeup;
    BystanderOwners(d.pool, d.threads, p, t);
    BystanderFlight(d.queue, d.pool, d.threads, p, t);
    BystanderPending(d.queue, d.pool, d.threads, d.dispatcher, p, t);
    BystanderWakeup(d.pool, d.threads, d.dispatcher, p, t);
  }

  lemma BystanderOwners(pool: seq<Slot>, threads: seq<Thread>, p: Pid, t: Thread)
    requires |pool| == MAX_DISK_REQS && |threads| == NPROC && Owners(pool, threads)
    requires !threads[p].Idle? && !t.Idle? && t.own == threads[p].own
    ensures Owners(pool, threads[p := t]) && t.own < MAX_DISK_REQS
  {
  }

  lemma BystanderFlight(queue: seq<nat>, pool: seq<Slot>, threads: seq<Thread>, p: Pid, t: Thread)
    requires |pool| == MAX_DISK_REQS && |threads| == NPROC && FlightOk(queue, pool, threads) && !HasR(t)
    ensures FlightOk(queue, pool, threads[p := t])
  {
  }

  lemma BystanderPending(queue: seq<nat>, pool: seq<Slot>, threads: seq<Thread>, d: Option<Pid>, p: Pid, t: Thread)
    requires |pool| == MAX_DISK_REQS && |threads| == NPROC && Pending(queue, pool, threads, d) && d != Some(p)
    ensures Pending(queue, pool, threads[p := t], d)
  {
  }

  lemma BystanderWakeup(pool: seq<Slot>, threads: seq<Thread>, d: Option<Pid>, p: Pid, t: Thread)
    requires |pool| == MAX_DISK_REQS && |threads| == NPROC && NoLostWakeup(pool, threads, d) && d != Some(p)
    requires !threads[p].Idle? && !t.Idle? && t.own == threads[p].own && t.own < MAX_DISK_REQS
    requires Sleeps(t) ==> Sleeps(threads[p]) || !pool[t.own].completed
    ensures NoLostWakeup(pool, threads[p := t], d)
  {
  }

  lemma TakeNextInv(d: Disp, c: Step)
    requires Inv(d) && c.TakeNext? && Enabled(d, c)
    ensures Inv(Do(d, c))
  {
    if d.queue == [] {
      StopInv(d, c);
    } else {
      PickInv(d, c);
    }
  }

  lemma StopInv(d: Disp, c: Step)
    requires Inv(d) && c.TakeNext? && Enabled(d, c) && d.queue == []
    ensures Inv(Do(d, c))
  {
    NothingInFlight(d.queue, d.pool, d.threads, d.dispatcher, c.p);
    hide Q.Select, StatsOk, Owners, Pending;
    BystanderOwners(d.pool, d.threads, c.p, Rechecking(d.threads[c.p].own));
    AllDone(d.pool, Do(d, c).threads);
  }

  lemma NothingInFlight(queue: seq<nat>, pool: seq<Slot>, threads: seq<Thread>, d: Option<Pid>, p: Pid)
    requires |pool| == MAX_DISK_REQS && |threads| == NPROC && Pending(queue, pool, threads, d)
    requires queue == [] && d == Some(p) && threads[p].Taking?
    ensures forall k :: 0 <= k < MAX_DISK_REQS && pool[k].used ==> pool[k].completed
  {
  }

  lemma AllDone(pool: seq<Slot>, threads: seq<Thread>)
    requires |pool| == MAX_DISK_REQS && |threads| == NPROC
    requires forall k :: 0 <= k < MAX_DISK_REQS && pool[k].used ==> pool[k].completed
    ensures Pending([], pool, threads, None)
  {
  }

  lemma PickInv(d: Disp, c: Step)
    requires Inv(d) && c.TakeNext? && Enabled(d, c) && d.queue != []
    ensures Inv(Do(d, c))
  {
    hide Q.Select, StatsOk, Owners, QueueOk, FlightOk, Pending, NoLostWakeup;
    var i := Q.Select(KeysOf(d, c.levels), d.policy, d.head);
    var t := Measuring(d.threads[c.p].own, d.queue[i]);
    BystanderOwners(d.pool, d.threads, c.p, t);
    PickQueue(d.queue, d.pool, d.threads, d.busy, i, c.p, t);
    PickPending(d.queue, d.pool, d.threads, d.dispatcher, i, c.p, t);
    PickWakeup(d.pool, d.threads, d.dispatcher, c.p, t);
  }

  lemma PickQueue(queue: seq<nat>, pool: seq<Slot>, threads: seq<Thread>, busy: bool, i: nat, p: Pid, t: Thread)
    requires |pool| == MAX_DISK_REQS && |threads| == NPROC
    requires QueueOk(queue, pool, busy) && FlightOk(queue, pool, threads)
    requires i < |queue| && t.Measuring? && t.r == queue[i]
    ensures QueueOk(Q.Without(queue, i), pool, busy) && FlightOk(Q.Without(queue, i), pool, threads[p := t])
    ensures forall j :: 0 <= j < |Q.Without(queue, i)| ==> Q.Without(queue, i)[j] in queue
  {
    var q := Q.Without(queue, i);
    forall k | k in q
      ensures k in queue && k != queue[i]
    {
      var j :| 0 <= j < |q| && q[j] == k;
      assert k == queue[if j < i then j else j + 1];
    }
    assert queue[i] in queue;
    var th := threads[p := t];
    forall x | 0 <= x < NPROC && HasR(th[x])
      ensures th[x].r !in q
    {
      if x != p { assert threads[x].r !in queue; }
    }
  }

  lemma PickPending(queue: seq<nat>, pool: seq<Slot>, threads: seq<Thread>, d: Option<Pid>, i: nat, p: Pid, t: Thread)
    requires |pool| == MAX_DISK_REQS && |threads| == NPROC && Pending(queue, pool, threads, d)
    requires i < |queue| && d == Some(p) && threads[p].Taking? && t.Measuring? && t.r == queue[i]
    ensures Pending(Q.Without(queue, i), pool, threads[p := t], d)
  {
    var q := Q.Without(queue, i);
    forall k | k in queue && k != queue[i]
      ensures k in q
    {
      var j :| 0 <= j < |queue| && queue[j] == k;
      assert q[if j < i then j else j - 1] == k;
    }
  }

  lemma PickWakeup(pool: seq<Slot>, threads: seq<Thread>, d: Option<Pid>, p: Pid, t: Thread)
    requires |pool| == MAX_DISK_REQS && |threads| == NPROC && NoLostWakeup(pool, threads, d)
    requires d == Some(p) && threads[p].Taking? && t.Measuring?
    ensures NoLostWakeup(pool, threads[p := t], d)
  {
  }

  lemma AccountInv(d: Disp, c: Step)
    requires Inv(d) && c.Account? && Enabled(d, c)
    ensures Inv(Do(d, c))
  {
    hide StatsOk, QueueOk;
    var t := d.threads[c.p];
    StatsStep(d.head, d.served, d.stats, d.pool[t.r].block, d.pool[t.r].write, t.latency);
  }

  lemma StatsStep(head: int, served: seq<Service>, s: Stats, b: int, write: bool, latency: int)
    requires StatsOk(head, served, s) && latency == Distance(b, head) + DISK_LATENCY_C
    ensures StatsOk(b, served + [Service(b, write)],
                    Stats(if write then s.diskReads else (s.diskReads + 1) % WRAP,
                          if write then (s.diskWrites + 1) % WRAP else s.diskWrites,
                          (s.latency + latency) % WRAP, (s.count + 1) % WRAP))
  {
    assert (served + [Service(b, write)])[..|served|] == served;
    AddWraps(TotalLatency(served, 0), latency);
    AddWraps(|served|, 1);
    AddWraps(Count(served, write), 1);
  }

  lemma AddWraps(a: int, b: int)
    ensures (a % WRAP + b) % WRAP == (a + b) % WRAP
  {
    var q := a / WRAP;
    assert a == q * WRAP + a % WRAP;
    assert a + b == q * WRAP + (a % WRAP + b);
  }

  lemma CompleteInv(d: Disp, c: Step)
    requires Inv(d) && c.Complete? && Enabled(d, c)
    ensures Inv(Do(d, c))
  {
    hide StatsOk;
  }

  lemma WakeOneInv(d: Disp, c: Step)
    requires Inv(d) && c.WakeOne? && Enabled(d, c)
    ensures Inv(Do(d, c))
  {
    hide StatsOk, Owners, QueueOk, FlightOk, Pending, NoLostWakeup;
    var t := d.threads[c.p];
    if t.i >= NPROC {
      WakeEndInv(d, c);
    } else if t.i != c.p && d.threads[t.i] == Asleep(t.r) {
      BystanderInv(d, t.i, Rechecking(t.r));
      AdvanceInv(Set(d, t.i, Rechecking(t.r)), c.p);
    } else {
      AdvanceInv(d, c.p);
    }
  }

  /** The end of the scan: disk_queue.lock is released. */
  lemma WakeEndInv(d: Disp, c: Step)
    requires Inv(d) && c.WakeOne? && Enabled(d, c) && d.threads[c.p].i >= NPROC
    ensures Inv(Do(d, c))
  {
    hide StatsOk, Owners, QueueOk, FlightOk, Pending;
    var t := Taking(d.threads[c.p].own);
    BystanderOwners(d.pool, d.threads, c.p, t);
    BystanderFlight(d.queue, d.pool, d.threads, c.p, t);
    WakingPending(d.queue, d.pool, d.threads, d.dispatcher, c.p, t);
  }

  lemma WakingPending(queue: seq<nat>, pool: seq<Slot>, threads: seq<Thread>, d: Option<Pid>, p: Pid, t: Thread)
    requires |pool| == MAX_DISK_REQS && |threads| == NPROC && Pending(queue, pool, threads, d) && threads[p].Waking?
    ensures Pending(queue, pool, threads[p := t], d)
  {
  }

  /** The scan moves past process i, which does not sleep on the completed request. */
  lemma AdvanceInv(d: Disp, p: Pid)
    requires Inv(d) && d.threads[p].Waking? && d.threads[p].i < NPROC
    requires !(Sleeps(d.threads[d.threads[p].i]) && d.threads[d.threads[p].i].own == d.threads[p].r)
    ensures var t := d.threads[p]; Inv(Set(d, p, Waking(t.own, t.r, t.i + 1)))
  {
    hide StatsOk, Owners, QueueOk, Pending;
    var t := d.threads[p];
    BystanderOwners(d.pool, d.threads, p, Waking(t.own, t.r, t.i + 1));
    WakingPending(d.queue, d.pool, d.threads, d.dispatcher, p, Waking(t.own, t.r, t.i + 1));
  }

  lemma RecheckInv(d: Disp, c: Step)
    requires Inv(d) && c.Recheck? && Enabled(d, c)
    ensures Inv(Do(d, c))
  {
    var k := d.threads[c.p].own;
    if d.pool[k].completed {
      LeaveInv(d, c);
    } else {
      BystanderInv(d, c.p, Falling(k));
    }
  }

  /** The request is done: its slot is freed and the process leaves. */
  lemma LeaveInv(d: Disp, c: Step)
    requires Inv(d) && c.Recheck? && Enabled(d, c) && d.pool[d.threads[c.p].own].completed
    ensures Inv(Do(d, c))
  {
    hide StatsOk, Owners, QueueOk, FlightOk, Pending, NoLostWakeup;
    var k := d.threads[c.p].own;
    var s := d.pool[k].(used := false, completed := false);
    LeaveOwners(d.pool, d.threads, k, s, c.p);
    LeaveQueue(d.queue, d.pool, d.threads, d.busy, k, s, c.p);
    LeavePending(d.queue, d.pool, d.threads, d.dispatcher, k, s, c.p);
    LeaveWakeup(d.pool, d.threads, d.dispatcher, k, s, c.p);
  }

  lemma LeaveOwners(pool: seq<Slot>, threads: seq<Thread>, k: nat, s: Slot, p: Pid)
    requires |pool| == MAX_DISK_REQS && |threads| == NPROC && Owners(pool, threads)
    requires !threads[p].Idle? && threads[p].own == k < MAX_DISK_REQS && !s.used
    ensures Owners(pool[k := s], threads[p := Idle])
  {
  }

  lemma LeaveQueue(queue: seq<nat>, pool: seq<Slot>, threads: seq<Thread>, busy: bool, k: nat, s: Slot, p: Pid)
    requires |pool| == MAX_DISK_REQS && |threads| == NPROC
    requires QueueOk(queue, pool, busy) && FlightOk(queue, pool, threads)
    requires k < MAX_DISK_REQS && pool[k].completed && forall q :: 0 <= q < NPROC ==> !threads[q].Waking?
    ensures QueueOk(queue, pool[k := s], busy) && FlightOk(queue, pool[k := s], threads[p := Idle])
    ensures forall q :: 0 <= q < NPROC && HasR(threads[q]) ==> threads[q].r != k
  {
  }

  lemma LeavePending(queue: seq<nat>, pool: seq<Slot>, threads: seq<Thread>, d: Option<Pid>, k: nat, s: Slot, p: Pid)
    requires |pool| == MAX_DISK_REQS && |threads| == NPROC && Pending(queue, pool, threads, d)
    requires k < MAX_DISK_REQS && !s.used && d != Some(p)
    ensures Pending(queue, pool[k := s], threads[p := Idle], d)
  {
  }

  lemma LeaveWakeup(pool: seq<Slot>, threads: seq<Thread>, d: Option<Pid>, k: nat, s: Slot, p: Pid)
    requires |pool| == MAX_DISK_REQS && |threads| == NPROC && NoLostWakeup(pool, threads, d)
    requires k < MAX_DISK_REQS && !s.completed && d != Some(p)
    ensures NoLostWakeup(pool[k := s], threads[p := Idle], d)
  {
  }

  lemma SleepInv(d: Disp, c: Step)
    requires Inv(d) && Enabled(d, c) && (c.FallAsleep? || c.Kill?)
    ensures Inv(Do(d, c))
  {
    BystanderInv(d, c.p, if c.FallAsleep? then Asleep(d.threads[c.p].own) else Rechecking(d.threads[c.p].own));
  }

  lemma ReadHeadInv(d: Disp, c: Step)
    requires Inv(d) && Enabled(d, c) && c.ReadHead?
    ensures Inv(Do(d, c))
  {
    hide StatsOk, QueueOk;
  }

  lemma MoveInv(d: Disp, c: Step)
    requires Inv(d) && Enabled(d, c) && c.Move?
    ensures Inv(Do(d, c))
  {
    hide StatsOk, QueueOk;
  }

  /** The pool never runs out: 64 slots, and each of the other 63 processes owns at most one. */
  lemma PoolNeverExhausted(d: Disp, c: Step)
    requires Inv(d) && Enabled(d, c)
    ensures !Panics(d, c)
  {
    if c.Submit? && FirstFreeReq(d.pool, 0) == -1 {
      OwnersCover(d.pool, d.threads);
      assert false;
    }
  }

  /** The numbers below n. */
  ghost function Below(n: nat): (r: set<nat>)
    ensures forall p: nat :: p in r <==> p < n
    ensures |r| == n
  {
    if n == 0 then {} else Below(n - 1) + {n - 1}
  }

  /** The owners of the first n slots. */
  ghost function FirstOwners(pool: seq<Slot>, n: nat): set<nat>
    requires n <= |pool|
  {
    if n == 0 then {} else FirstOwners(pool, n - 1) + {pool[n - 1].owner as nat}
  }

  lemma {:induction false} OwnerIndex(pool: seq<Slot>, n: nat, p: nat) returns (k: nat)
    requires n <= |pool| && p in FirstOwners(pool, n)
    ensures k < n && pool[k].owner as nat == p
  {
    if pool[n - 1].owner as nat == p { k := n - 1; } else { k := OwnerIndex(pool, n - 1, p); }
  }

  lemma {:induction false} FirstOwnersSize(pool: seq<Slot>, n: nat)
    requires n <= |pool|
    requires forall j, k :: 0 <= j < |pool| && 0 <= k < |pool| && pool[j].owner == pool[k].owner ==> j == k
    ensures |FirstOwners(pool, n)| == n && forall x :: x in FirstOwners(pool, n) ==> x < NPROC
  {
    if n > 0 {
      FirstOwnersSize(pool, n - 1);
      if pool[n - 1].owner as nat in FirstOwners(pool, n - 1) {
        var k := OwnerIndex(pool, n - 1, pool[n - 1].owner);
      }
    }
  }

  /** If all slots were in use, their owners would be all processes. */
  lemma OwnersCover(pool: seq<Slot>, threads: seq<Thread>)
    requires |pool| == MAX_DISK_REQS && |threads| == NPROC && Owners(pool, threads)
    requires forall k :: 0 <= k < MAX_DISK_REQS ==> pool[k].used
    ensures forall p :: 0 <= p < NPROC ==> !threads[p].Idle?
  {
    var all, owners := Below(NPROC), FirstOwners(pool, MAX_DISK_REQS);
    FirstOwnersSize(pool, MAX_DISK_REQS);
    assert owners <= all;
    SubsetFull(owners, all);
    forall p | 0 <= p < NPROC
      ensures !threads[p].Idle?
    {
      var k := OwnerIndex(pool, MAX_DISK_REQS, p);
      assert pool[k].used;
    }
  }

  lemma SubsetFull(a: set<nat>, b: set<nat>)
    requires a <= b && |a| == |b|
    ensures a == b
  {
    if a != b {
      var x :| x in b && x !in a;
      assert a <= b - {x};
      SubsetSize(a, b - {x});
    }
  }

  lemma {:induction false} SubsetSize(a: set<nat>, b: set<nat>)
    requires a <= b
    ensures |a| <= |b|
    decreases |a|
  {
    if a != {} {
      var x :| x in a;
      SubsetSize(a - {x}, b - {x});
    }
  }

  /** Every step of every process keeps the invariant, and none panics. */
  lemma StepInv(d: Disp, c: Step)
    requires Inv(d) && Enabled(d, c)
    ensures !Panics(d, c) && Inv(Do(d, c))
  {
    hide Inv, Do;
    InvSizes(d);
    PoolNeverExhausted(d, c);
    match c
    case Submit(_, _, _, _) => SubmitInv(d, c);
    case FallAsleep(_) => SleepInv(d, c);
    case TakeNext(_, _) => TakeNextInv(d, c);
    case ReadHead(_) => ReadHeadInv(d, c);
    case Account(_) => AccountInv(d, c);
    case Move(_) => MoveInv(d, c);
    case Complete(_) => CompleteInv(d, c);
    case WakeOne(_) => WakeOneInv(d, c);
    case Recheck(_) => RecheckInv(d, c);
    case Kill(_) => SleepInv(d, c);
    case SetPolicy(_) => SetPolicyInv(d, c);
  }

  lemma SetPolicyInv(d: Disp, c: Step)
    requires Inv(d) && Enabled(d, c) && c.SetPolicy?
    ensures Inv(Do(d, c))
  {
    hide StatsOk, Owners, QueueOk, FlightOk, Pending, NoLostWakeup, OneDispatcher, LockOk, MeasureOk;
  }

  lemma InvSizes(d: Disp)
    requires Inv(d)
    ensures Sizes(d)
  {
  }

  // ----- runs -----

  predicate IsRun(d: Disp, cs: seq<Step>, d': Disp)
    decreases |cs|
  {
    Sizes(d)
    && if cs == [] then d' == d
       else Enabled(d, cs[0]) && !Panics(d, cs[0]) && IsRun(Do(d, cs[0]), cs[1..], d')
  }

  /** Main result on dispatching: the invariant holds after every interleaving. */
  lemma {:induction false} InvOverRuns(d: Disp, cs: seq<Step>, d': Disp)
    requires Inv(d) && IsRun(d, cs, d')
    ensures Inv(d')
    decreases |cs|
  {
    hide Inv, Do;
    if cs != [] {
      StepInv(d, cs[0]);
      InvOverRuns(Do(d, cs[0]), cs[1..], d');
    }
  }

  // ----- FCFS over runs -----

  /** The slots of req_pool in the order in which dispatchers take them from the queue along a run. */
  ghost function Taken(d: Disp, cs: seq<Step>, d': Disp): seq<nat>
    requires IsRun(d, cs, d')
    decreases |cs|
  {
    if cs == [] then []
    else
      var d1 := Do(d, cs[0]);
      (if cs[0].TakeNext? && d.queue != [] then [d1.threads[cs[0].p].r] else []) + Taken(d1, cs[1..], d')
  }

  /** The slots in the order in which requests are submitted. */
  ghost function Submitted(d: Disp, cs: seq<Step>, d': Disp): seq<nat>
    requires IsRun(d, cs, d')
    decreases |cs|
  {
    if cs == [] then []
    else (if cs[0].Submit? then [FirstFreeReq(d.pool, 0)] else []) + Submitted(Do(d, cs[0]), cs[1..], d')
  }

  /** What one step does to the queue under FCFS: the head leaves, or a request joins at the end. */
  lemma FcfsStep(d: Disp, c: Step)
    requires Sizes(d) && Enabled(d, c) && !Panics(d, c) && d.policy == Q.Fcfs && !c.SetPolicy?
    ensures var d' := Do(d, c);
            && d'.policy == Q.Fcfs
            && (c.TakeNext? && d.queue != [] ==>
                  HasR(d'.threads[c.p]) && d.queue == [d'.threads[c.p].r] + d'.queue)
            && (c.Submit? ==> d'.queue == d.queue + [FirstFreeReq(d.pool, 0)])
            && (!c.Submit? && !(c.TakeNext? && d.queue != []) ==> d'.queue == d.queue)
  {
    if c.TakeNext? && d.queue != [] {
      assert d.queue == [d.queue[0]] + Q.Without(d.queue, 0);
    }
  }

  /** Under FCFS, along every interleaving: the requests taken, followed by those still queued, are those queued at
      first followed by those submitted, in order. */
  lemma {:induction false} FcfsOverRuns(d: Disp, cs: seq<Step>, d': Disp)
    requires IsRun(d, cs, d') && d.policy == Q.Fcfs && forall i :: 0 <= i < |cs| ==> !cs[i].SetPolicy?
    ensures Taken(d, cs, d') + d'.queue == d.queue + Submitted(d, cs, d')
    decreases |cs|
  {
    hide Do, Enabled;
    if cs != [] {
      var c, rest := cs[0], cs[1..];
      FcfsStep(d, c);
      var d1 := Do(d, c);
      FcfsOverRuns(d1, rest, d');
      var x := if c.TakeNext? && d.queue != [] then [d1.threads[c.p].r] else [];
      var y: seq<nat> := if c.Submit? then [FirstFreeReq(d.pool, 0)] else [];
      assert x + d1.queue == d.queue + y;
      Splice(x, Taken(d1, rest, d'), d'.queue, d1.queue, Submitted(d1, rest, d'), d.queue, y);
    }
  }

  lemma Splice(x: seq<nat>, t: seq<nat>, q': seq<nat>, q1: seq<nat>, s: seq<nat>, q: seq<nat>, y: seq<nat>)
    requires t + q' == q1 + s && x + q1 == q + y
    ensures (x + t) + q' == q + (y + s)
  {
    assert (x + t) + q' == x + (t + q');
    assert x + (q1 + s) == (x + q1) + s;
    assert (q + y) + s == q + (y + s);
  }

  /** So the request at position k is the (k+1)-th to be dispatched, whatever is submitted later and whoever
      dispatches. */
  lemma FcfsPosition(d: Disp, cs: seq<Step>, d': Disp, k: nat)
    requires IsRun(d, cs, d') && d.policy == Q.Fcfs && forall i :: 0 <= i < |cs| ==> !cs[i].SetPolicy?
    requires k < |d.queue| && k < |Taken(d, cs, d')|
    ensures Taken(d, cs, d')[k] == d.queue[k]
  {
    FcfsOverRuns(d, cs, d');
    assert (Taken(d, cs, d') + d'.queue)[k] == (d.queue + Submitted(d, cs, d'))[k];
  }

  // ----- the order of service over runs -----

  /** The request at position k of the queue is nearest to the head; among the nearest its owner has the lowest level
      number; among those it was queued first. */
  predicate FirstNearest(d: Disp, levels: seq<int>, k: nat)
    requires Sizes(d) && |levels| == NPROC
  {
    k < |d.queue| && forall j :: 0 <= j < |d.queue| && j != k ==> Before(d, levels, k, j)
  }

  predicate Before(d: Disp, levels: seq<int>, k: nat, j: nat)
    requires Sizes(d) && |levels| == NPROC && k < |d.queue| && j < |d.queue|
  {
    var a, b := d.pool[d.queue[k]], d.pool[d.queue[j]];
    || Distance(a.block, d.head) < Distance(b.block, d.head)
    || (Distance(a.block, d.head) == Distance(b.block, d.head)
        && (levels[a.owner] < levels[b.owner] || (levels[a.owner] == levels[b.owner] && k < j)))
  }

  /** The step takes the request at position k, and that is the one the policy asks for. */
  predicate TakesAt(d: Disp, c: Step, d': Disp, k: nat)
    requires Sizes(d) && c.TakeNext? && |c.levels| == NPROC && |d'.threads| == NPROC
  {
    && k < |d.queue| && d'.queue == d.queue[..k] + d.queue[k + 1..]
    && d'.threads[c.p].Measuring? && d'.threads[c.p].r == d.queue[k]
    && (d.policy == Q.Fcfs ==> k == 0)
    && (d.policy == Q.Sstf ==> FirstNearest(d, c.levels, k))
  }

  /** Block numbers in the pool and the head position fit an int. */
  predicate BlocksOk(d: Disp) {
    Q.BlockOk(d.head) && forall k :: 0 <= k < |d.pool| && d.pool[k].used ==> Q.BlockOk(d.pool[k].block)
  }

  lemma TakesByPolicy(d: Disp, c: Step) returns (k: nat)
    requires Inv(d) && BlocksOk(d) && c.TakeNext? && Enabled(d, c) && d.queue != []
    ensures TakesAt(d, c, Do(d, c), k)
  {
    hide StatsOk, Owners, FlightOk, Pending, NoLostWakeup, OneDispatcher, Q.Select;
    var ks := KeysOf(d, c.levels);
    forall j | 0 <= j < |ks|
      ensures Q.BlockOk(ks[j].block)
    {
      assert d.queue[j] in d.queue;
    }
    Q.SelectCorrect(ks, d.policy, d.head);
    k := Q.Select(ks, d.policy, d.head);
    if d.policy == Q.Sstf { NearestKey(d, c.levels, ks, k); }
  }

  lemma NearestKey(d: Disp, levels: seq<int>, ks: seq<Q.Key>, k: nat)
    requires Sizes(d) && |levels| == NPROC && ks == KeysOf(d, levels) && Q.EarliestBest(ks, d.head, |ks|, k)
    ensures FirstNearest(d, levels, k)
  {
    forall j | 0 <= j < |d.queue| && j != k
      ensures Before(d, levels, k, j)
    {
      assert !Q.Better(d.head, ks[j], ks[k]) && (j < k ==> Q.Better(d.head, ks[k], ks[j]));
    }
  }

  /** Along the run every request is taken by the policy in force at that moment. */
  ghost predicate ByPolicy(d: Disp, cs: seq<Step>, d': Disp)
    requires IsRun(d, cs, d')
    decreases |cs|
  {
    cs == [] ||
    (&& (cs[0].TakeNext? && d.queue != [] ==> exists k :: TakesAt(d, cs[0], Do(d, cs[0]), k))
     && ByPolicy(Do(d, cs[0]), cs[1..], d'))
  }

  lemma BlocksStep(d: Disp, c: Step)
    requires Inv(d) && BlocksOk(d) && Enabled(d, c) && !Panics(d, c) && (c.Submit? ==> Q.BlockOk(c.block))
    ensures BlocksOk(Do(d, c))
  {
    hide StatsOk, QueueOk, Pending, NoLostWakeup, OneDispatcher, Owners, Q.Select;
    if c.Account? { assert HasR(d.threads[c.p]) && d.pool[d.threads[c.p].r].used; }
  }

  /** Main result on the order of service: over every interleaving, with the policy changing at any point, FCFS takes
      the oldest request and SSTF the nearest, then the one of the lowest level number, then the oldest. */
  lemma {:induction false} ServiceByPolicy(d: Disp, cs: seq<Step>, d': Disp)
    requires Inv(d) && BlocksOk(d) && IsRun(d, cs, d')
    requires forall i :: 0 <= i < |cs| && cs[i].Submit? ==> Q.BlockOk(cs[i].block)
    ensures ByPolicy(d, cs, d')
    decreases |cs|
  {
    hide Inv, Do, BlocksOk, TakesAt;
    if cs != [] {
      StepInv(d, cs[0]);
      BlocksStep(d, cs[0]);
      if cs[0].TakeNext? && d.queue != [] { var k := TakesByPolicy(d, cs[0]); }
      ServiceByPolicy(Do(d, cs[0]), cs[1..], d');
    }
  }

  // ----- what it means -----

  /** busy is set if and only if some process is dispatching, and never two are. */
  lemma BusyMeansOneDispatcher(d: Disp)
    requires Inv(d)
    ensures d.busy <==> exists p: Pid :: Dispatching(d.threads[p])
    ensures forall p: Pid, q: Pid :: Dispatching(d.threads[p]) && Dispatching(d.threads[q]) ==> p == q
    ensures d.queue != [] ==> d.busy
  {
    if d.busy { assert Dispatching(d.threads[d.dispatcher.value]); }
  }

  /** Whenever disk_queue.lock is free, no process sleeps, or is about to, on a completed request. */
  lemma NobodySleepsOnCompleted(d: Disp, p: Pid)
    requires Inv(d) && d.lock.None? && Sleeps(d.threads[p])
    ensures d.threads[p].own < MAX_DISK_REQS && !d.pool[d.threads[p].own].completed
  {
  }

  /** When the dispatcher finds the queue empty and stops, its own request is already completed, so it
      never has to sleep for it. */
  lemma DispatcherReturnsCompleted(d: Disp, c: Step)
    requires Inv(d) && c.TakeNext? && Enabled(d, c) && d.queue == []
    ensures d.threads[c.p].own < MAX_DISK_REQS && d.pool[d.threads[c.p].own].used
    ensures d.pool[d.threads[c.p].own].completed
  {
  }

  /** No step frees or reuses the slot of a request that is queued or in flight. */
  lemma SlotsKept(d: Disp, c: Step, k: nat)
    requires Inv(d) && Enabled(d, c) && k < MAX_DISK_REQS && d.pool[k].used && !d.pool[k].completed
    ensures !Panics(d, c)
    ensures var s, s' := d.pool[k], Do(d, c).pool[k];
            s'.used && s'.owner == s.owner && s'.block == s.block && s'.write == s.write && s'.buf == s.buf
  {
    PoolNeverExhausted(d, c);
  }

  lemma {:induction false} LatencyBound(served: seq<Service>, from: int)
    ensures TotalLatency(served, from) >= 5 * |served| + Distance(HeadAfter(served, from), from)
  {
    if served != [] { LatencyBound(served[..|served| - 1], from); }
  }

  lemma {:induction false} CountsAdd(served: seq<Service>)
    ensures Count(served, false) + Count(served, true) == |served|
  {
    if served != [] { CountsAdd(served[..|served| - 1]); }
  }

  /** The statistics: the 64-bit counters hold, modulo 2^64, the sum over the serviced sequence from head position 0,
      the number of requests, of reads and of writes; the sum is at least 5 per request plus the final head position;
      and until the sum reaches 2^64 no counter has wrapped, and the count is reads plus writes. */
  lemma StatisticsExact(d: Disp)
    requires Inv(d)
    ensures var total := TotalLatency(d.served, 0);
            && d.stats.latency == total % WRAP
            && d.stats.count == |d.served| % WRAP
            && d.stats.diskReads == Count(d.served, false) % WRAP
            && d.stats.diskWrites == Count(d.served, true) % WRAP
            && total >= 5 * |d.served| + d.head
            && (total < WRAP && d.head >= 0 ==>
                  && d.stats.latency == total && d.stats.count == |d.served|
                  && d.stats.count == d.stats.diskReads + d.stats.diskWrites)
  {
    LatencyBound(d.served, 0);
    CountsAdd(d.served);
  }

  /** The request accounted for is the one transferred next. */
  lemma AccountsForTheMoved(d: Disp, c: Step)
    requires Inv(d) && c.Account? && Enabled(d, c)
    ensures var d' := Do(d, c);
            && d'.threads[c.p].Moving? && d'.threads[c.p].r < MAX_DISK_REQS
            && var x := d'.pool[d'.threads[c.p].r]; d'.served == d.served + [Service(x.block, x.write)]
  {
  }
}
