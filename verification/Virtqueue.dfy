/** The descriptor ring of the virtio disk: allocation, chains, the two rings and the interrupt handler, with
    any number of callers and a device that completes requests in any order. Driver steps are the sections of
    vdisk_lock between two sleeps. */
module Virtqueue {
  import opened Options
  import opened Bytes
  import opened Frames
  import BufferCache

  const NUM: nat := 8
  const WRAP: nat := 65536
  const HEADER_LEN: nat := 16
  const SECTORS_PER_BLOCK: nat := 2
  const UINT_MAX: nat := 0xffff_ffff
  const DEVICE_BYTES: nat := 0x200_0000_0000  // 2^32 sectors

  /** The product is one of unsigned ints, and is widened only afterwards. */
  function Sector(block: nat): nat {
    block * SECTORS_PER_BLOCK % (UINT_MAX + 1)
  }

  /** What a descriptor points at: a request header, the data of a buffer, a status byte. */
  datatype Addr = Nowhere | Header(i: nat) | Data(b: nat) | Status(i: nat)

  /** `write` is VRING_DESC_F_WRITE (the device writes), `chained` is VRING_DESC_F_NEXT. */
  datatype Desc = Desc(addr: Addr, len: nat, write: bool, chained: bool, next: nat)

  const CLEARED: Desc := Desc(Nowhere, 0, false, false, 0)

  datatype Op = Op(write: bool, sector: nat)

  datatype Info = Info(b: Option<nat>, status: nat)

  /** The memory driver and device share, and the driver's own fields. */
  datatype Vq = Vq(free: seq<bool>, desc: seq<Desc>, ops: seq<Op>, info: seq<Info>,
                   ring: seq<nat>, availIdx: nat, usedRing: seq<nat>, usedIdx: nat, seenIdx: nat)

  predicate Wf(v: Vq) {
    |v.free| == NUM && |v.desc| == NUM && |v.ops| == NUM && |v.info| == NUM && |v.ring| == NUM && |v.usedRing| == NUM
  }

  // ----- allocation -----

  function FirstFree(free: seq<bool>, i: nat): (r: int)
    requires i <= |free|
    ensures r == -1 || (i <= r < |free| && free[r])
    ensures forall k :: i <= k < (if r == -1 then |free| else r) ==> !free[k]
    decreases |free| - i
  {
    if i == |free| then -1 else if free[i] then i else FirstFree(free, i + 1)
  }

  function AllocDesc(v: Vq): (Vq, int)
    requires Wf(v)
  {
    var i := FirstFree(v.free, 0);
    if i == -1 then (v, -1) else (v.(free := v.free[i := false]), i)
  }

  /** None is a panic: not a descriptor, or free already. */
  function FreeDesc(v: Vq, i: nat): (r: Option<Vq>)
    requires Wf(v)
    ensures r.Some? ==> Wf(r.value) && i < NUM && !v.free[i] && r.value.free == v.free[i := true]
  {
    if i >= NUM || v.free[i] then None
    else Some(v.(desc := v.desc[i := CLEARED], free := v.free[i := true]))
  }

  function NumFree(free: seq<bool>, n: nat): (r: nat)
    requires n <= |free|
    ensures r <= n
  {
    if n == 0 then 0 else NumFree(free, n - 1) + if free[n - 1] then 1 else 0
  }

  lemma {:induction false} NumFreeSet(free: seq<bool>, n: nat, i: nat, x: bool)
    requires n <= |free| && i < |free|
    ensures NumFree(free[i := x], n) ==
            NumFree(free, n) - (if i < n && free[i] then 1 else 0) + (if i < n && x then 1 else 0)
  {
    if n > 0 { NumFreeSet(free, n - 1, i, x); }
  }

  /** Follows the chain, whatever the memory holds: each turn frees a descriptor or panics. */
  function FreeChain(v: Vq, i: nat): Option<Vq>
    requires Wf(v)
    decreases NUM - NumFree(v.free, NUM)
  {
    var r := FreeDesc(v, i);
    if r.None? then None
    else
      var d := v.desc[i];
      NumFreeSet(v.free, NUM, i, true);
      if d.chained then FreeChain(r.value, d.next) else r
  }

  /** alloc3_desc: three descriptors, or the ones obtained are given back. */
  function Alloc3(v: Vq): (Vq, Option<(nat, nat, nat)>)
    requires Wf(v)
  {
    var (v0, i0) := AllocDesc(v);
    if i0 < 0 then (v, None)
    else
      var (v1, i1) := AllocDesc(v0);
      if i1 < 0 then (Give(v0, i0), None)
      else
        var (v2, i2) := AllocDesc(v1);
        if i2 < 0 then (Give(Give(v1, i0), i1), None)
        else (v2, Some((i0, i1, i2)))
  }

  /** free_desc on a descriptor that is not free. */
  function Give(v: Vq, i: nat): (r: Vq)
    requires Wf(v) && i < NUM && !v.free[i]
    ensures Wf(r) && FreeDesc(v, i) == Some(r)
  {
    v.(desc := v.desc[i := CLEARED], free := v.free[i := true])
  }

  /** A descriptor that is free is cleared. */
  predicate FreeCleared(free: seq<bool>, desc: seq<Desc>)
    requires |free| == |desc|
  {
    forall i :: 0 <= i < |free| && free[i] ==> desc[i] == CLEARED
  }

  /** All or nothing: it succeeds exactly if three descriptors are free, takes three different free ones, and
      otherwise leaves everything as it was. */
  lemma Alloc3Correct(v: Vq)
    requires Wf(v) && FreeCleared(v.free, v.desc)
    ensures var (v', r) := Alloc3(v);
            && (r.Some? <==> NumFree(v.free, NUM) >= 3)
            && (r.None? ==> v' == v)
            && (r.Some? ==>
                  var (i0, i1, i2) := r.value;
                  && i0 < i1 < i2 < NUM && v.free[i0] && v.free[i1] && v.free[i2]
                  && v' == v.(free := v.free[i0 := false][i1 := false][i2 := false])
                  && NumFree(v'.free, NUM) == NumFree(v.free, NUM) - 3)
  {
    var i0 := FirstFree(v.free, 0);
    NoneFree(v.free, NUM);
    if i0 >= 0 {
      var f0 := v.free[i0 := false];
      var i1 := FirstFree(f0, 0);
      NumFreeSet(v.free, NUM, i0, false);
      NoneFree(f0, NUM);
      if i1 >= 0 {
        var f1 := f0[i1 := false];
        var i2 := FirstFree(f1, 0);
        NumFreeSet(f0, NUM, i1, false);
        NoneFree(f1, NUM);
        if i2 >= 0 {
          NumFreeSet(f1, NUM, i2, false);
        } else {
          assert Alloc3(v).0.free == v.free && Alloc3(v).0.desc == v.desc;
        }
      } else {
        assert Alloc3(v).0.free == v.free && Alloc3(v).0.desc == v.desc;
      }
    }
  }

  lemma {:induction false} NoneFree(free: seq<bool>, n: nat)
    requires n <= |free|
    ensures NumFree(free, n) == 0 <==> forall k :: 0 <= k < n ==> !free[k]
  {
    if n > 0 { NoneFree(free, n - 1); }
  }

  /** The three descriptors i0, i1, i2 are linked and end there. */
  predicate Linked3(v: Vq, i0: nat, i1: nat, i2: nat)
    requires Wf(v)
  {
    && i0 < NUM && i1 < NUM && i2 < NUM && i0 != i1 && i1 != i2 && i0 != i2
    && !v.free[i0] && !v.free[i1] && !v.free[i2]
    && v.desc[i0].chained && v.desc[i0].next == i1
    && v.desc[i1].chained && v.desc[i1].next == i2
    && !v.desc[i2].chained
  }

  /** free_chain returns exactly its three descriptors, and no free_desc panics. */
  lemma FreeChainExact(v: Vq, i0: nat, i1: nat, i2: nat)
    requires Wf(v) && Linked3(v, i0, i1, i2)
    ensures FreeChain(v, i0) == Some(v.(free := v.free[i0 := true][i1 := true][i2 := true],
                                        desc := v.desc[i0 := CLEARED][i1 := CLEARED][i2 := CLEARED]))
    ensures NumFree(FreeChain(v, i0).value.free, NUM) == NumFree(v.free, NUM) + 3
  {
    var v0 := Give(v, i0);
    var v1 := Give(v0, i1);
    var v2 := Give(v1, i2);
    NumFreeSet(v.free, NUM, i0, true);
    NumFreeSet(v0.free, NUM, i1, true);
    NumFreeSet(v1.free, NUM, i2, true);
    assert FreeChain(v1, i2) == Some(v2);
    assert FreeChain(v0, i1) == FreeChain(v1, i2);
    assert FreeChain(v, i0) == FreeChain(v0, i1);
  }

  // ----- callers, device and interrupt handler -----

  /** virtio_disk_rw once it has its descriptors: fill them in and offer the first to the device. */
  function Post(v: Vq, b: nat, block: nat, write: bool, i0: nat, i1: nat, i2: nat): Vq
    requires Wf(v) && i0 < NUM && i1 < NUM && i2 < NUM
  {
    v.(ops := v.ops[i0 := Op(write, Sector(block))],
       desc := v.desc[i0 := Desc(Header(i0), HEADER_LEN, false, true, i1)]
                     [i1 := Desc(Data(b), BSIZE, !write, true, i2)]
                     [i2 := Desc(Status(i0), 1, true, false, 0)],
       info := v.info[i0 := Info(Some(b), 0xff)],
       ring := v.ring[v.availIdx % NUM := i0],
       availIdx := (v.availIdx + 1) % WRAP)
  }

  /** A transfer of the bytes of the device from `at` on, and a buffer. */
  datatype Request = Request(at: nat, len: nat, b: nat, write: bool)

  /** How the device reads a chain: a header of type, reserved word and sector, data in the direction of the
      header, status byte. Sectors have 512 bytes. The number is where the status goes. */
  function Interpret(v: Vq, h: nat): Option<(Request, nat)>
    requires Wf(v)
  {
    if h >= NUM then None
    else
      var d0 := v.desc[h];
      if !(d0.addr.Header? && d0.addr.i < NUM && d0.len == 4 + 4 + 8 && !d0.write && d0.chained && d0.next < NUM)
      then None
      else
        var op, d1 := v.ops[d0.addr.i], v.desc[d0.next];
        if !(d1.addr.Data? && d1.write == !op.write && d1.chained && d1.next < NUM) then None
        else
          var d2 := v.desc[d1.next];
          if !(d2.addr.Status? && d2.addr.i < NUM && d2.len == 1 && d2.write && !d2.chained) then None
          else Some((Request(op.sector * 512, d1.len, d1.addr.b, op.write), d2.addr.i))
  }

  /** One turn of virtio_disk_intr: a used entry is taken and its buffer reported done. None is a panic. */
  function ReapOne(v: Vq, disk: seq<bool>): (r: Option<(Vq, seq<bool>)>)
    requires Wf(v)
    ensures r.Some? ==> Wf(r.value.0) && |r.value.1| == |disk| && r.value.0 == v.(seenIdx := (v.seenIdx + 1) % WRAP)
  {
    var id := v.usedRing[v.seenIdx % NUM];
    if id >= NUM || v.info[id].status != 0 || v.info[id].b.None? || v.info[id].b.value >= |disk| then None
    else Some((v.(seenIdx := (v.seenIdx + 1) % WRAP), disk[v.info[id].b.value := false]))
  }

  /** The buffer a turn of virtio_disk_intr reports done. */
  function Reported(v: Vq, disk: seq<bool>): nat
    requires Wf(v) && ReapOne(v, disk).Some?
  {
    v.info[v.usedRing[v.seenIdx % NUM]].b.value
  }

  datatype Thread =
    | Out
    | Trying(b: nat, block: nat, write: bool)   // about to call alloc3_desc
    | Napping(b: nat, block: nat, write: bool)  // asleep on disk.free
    | Await(b: nat, block: nat, write: bool, i0: nat, i1: nat, i2: nat, asleep: bool)  // in the loop on b->disk

  /** The transfer a call asks for: the 1024 bytes of its block, at the place 32-bit sector numbers leave for it. */
  function Wanted(t: Thread): Request
    requires !t.Out?
  {
    Request(t.block * 1024 % DEVICE_BYTES, 1024, t.b, t.write)
  }

  /** The sector of a block is where its bytes begin. */
  lemma SectorBytes(block: nat)
    ensures Sector(block) * 512 == block * 1024 % DEVICE_BYTES
    ensures block <= 0x7fff_ffff ==> Sector(block) * 512 == block * 1024
  {
    var q := block * 2 / 0x1_0000_0000;
    assert block * 2 == q * 0x1_0000_0000 + Sector(block);
  }

  predicate Overlap(x: Request, y: Request) {
    x.at < y.at + y.len && y.at < x.at + x.len
  }

  /** The transfers of two block numbers (of 32 bits) overlap on the device if and only if the numbers are equal in
      their lower 31 bits; so below 2^31 different blocks are apart. */
  lemma OverlapIff(t: Thread, u: Thread)
    requires !t.Out? && !u.Out? && t.block <= UINT_MAX && u.block <= UINT_MAX
    ensures Overlap(Wanted(t), Wanted(u)) <==> t.block % 0x8000_0000 == u.block % 0x8000_0000
    ensures t.block != u.block && t.block <= 0x7fff_ffff && u.block <= 0x7fff_ffff ==> !Overlap(Wanted(t), Wanted(u))
  {
    PlaceOf(t.block);
    PlaceOf(u.block);
  }

  lemma PlaceOf(block: nat)
    requires block <= UINT_MAX
    ensures block * 1024 % DEVICE_BYTES == block % 0x8000_0000 * 1024
  {
    if block >= 0x8000_0000 {
      assert block * 1024 == (block - 0x8000_0000) * 1024 + DEVICE_BYTES;
    }
  }

  // `disk` is the flag b->disk of each buffer. The last eight fields are a record that nothing reads: how far
  // the device has read the first ring and the driver the second, without wrap-around; the heads offered, in
  // the device and finished; who owns each descriptor; the transfers made for each process in its current call.
  datatype Sys = Sys(v: Vq, threads: seq<Thread>, disk: seq<bool>,
                     fetched: nat, seen: nat, offered: seq<nat>, taken: set<nat>, finished: seq<nat>,
                     owner: seq<Option<Pid>>, got: seq<seq<Request>>)

  datatype Step =
    | Enter(p: Pid, b: nat, block: nat, write: bool)
    | Start(p: Pid)
    | Fetch
    | Finish(h: nat, status: nat)  // the device makes the transfer and reports 0, or gives up and reports an error
    | Interrupt
    | Doze(p: Pid)  // sleep on the buffer
    | Leave(p: Pid)
    | Stir(p: Pid)  // a process is woken for another reason

  predicate Sizes(s: Sys) {
    Wf(s.v) && |s.threads| == NPROC && |s.disk| == BufferCache.NBUF && |s.owner| == NUM && |s.got| == NPROC
  }

  /** Awake, about to test b->disk. */
  predicate Looping(t: Thread) {
    t.Await? && !t.asleep && t.b < BufferCache.NBUF
  }

  /** Callers hold the sleep lock of their buffer, so no two are at the same one. */
  predicate Enabled(s: Sys, e: Step)
    requires Sizes(s)
  {
    match e
    case Enter(p, b, _, _) =>
      && s.threads[p].Out? && b < BufferCache.NBUF
      && forall q: Pid :: !s.threads[q].Out? ==> s.threads[q].b != b
    case Start(p) => s.threads[p].Trying? && s.threads[p].b < BufferCache.NBUF
    case Fetch => s.v.availIdx != s.fetched % 0x1_0000
    case Finish(h, _) => h in s.taken && h < NUM
    case Interrupt => s.v.seenIdx != s.v.usedIdx
    case Doze(p) => Looping(s.threads[p]) && s.disk[s.threads[p].b]
    case Leave(p) => Looping(s.threads[p]) && !s.disk[s.threads[p].b] && s.threads[p].i0 < NUM
    case Stir(p) => s.threads[p].Napping? || (s.threads[p].Await? && s.threads[p].asleep)
  }

  /** free_desc panics; a used entry that names no request or whose status is not 0; a chain the device
      cannot read. */
  predicate Panics(s: Sys, e: Step)
    requires Sizes(s) && Enabled(s, e)
  {
    match e
    case Finish(h, _) => Interpret(s.v, h).None?
    case Interrupt => ReapOne(s.v, s.disk).None?
    case Leave(p) => FreeChain(s.v, s.threads[p].i0).None?
    case _ => false
  }

  /** wakeup on disk.free. */
  function Woken(threads: seq<Thread>): (r: seq<Thread>)
    ensures |r| == |threads|
    ensures forall p :: 0 <= p < |r| ==> r[p] == if threads[p].Napping? then Stirred(threads[p]) else threads[p]
  {
    seq(|threads|, p requires 0 <= p < |threads| => if threads[p].Napping? then Stirred(threads[p]) else threads[p])
  }

  function Stirred(t: Thread): Thread {
    if t.Napping? then Trying(t.b, t.block, t.write) else if t.Await? then t.(asleep := false) else t
  }

  /** wakeup on a buffer. */
  function WokenAt(threads: seq<Thread>, b: nat): (r: seq<Thread>)
    ensures |r| == |threads|
    ensures forall p :: 0 <= p < |r| ==> r[p] == RousedAt(threads[p], b)
  {
    seq(|threads|, p requires 0 <= p < |threads| => RousedAt(threads[p], b))
  }

  function RousedAt(t: Thread, b: nat): Thread {
    if t.Await? && t.b == b then t.(asleep := false) else t
  }

  function Do(s: Sys, e: Step): Sys
    requires Sizes(s) && Enabled(s, e) && !Panics(s, e)
  {
    match e
    case Enter(p, b, block, write) => s.(threads := s.threads[p := Trying(b, block, write)], got := s.got[p := []])
    case Start(p) =>
      var t := s.threads[p];
      var (v', r) := Alloc3(s.v);
      if r.None? then
        // giving descriptors back wakes the sleepers; with none free, nothing was given back
        var threads := if NumFree(s.v.free, NUM) > 0 then Woken(s.threads) else s.threads;
        s.(v := v', threads := threads[p := Napping(t.b, t.block, t.write)])
      else
        var (i0, i1, i2) := r.value;
        s.(v := Post(v', t.b, t.block, t.write, i0, i1, i2), disk := s.disk[t.b := true],
           threads := s.threads[p := Await(t.b, t.block, t.write, i0, i1, i2, false)],
           offered := s.offered + [i0], owner := s.owner[i0 := Some(p)][i1 := Some(p)][i2 := Some(p)])
    case Fetch =>
      s.(fetched := s.fetched + 1, offered := Tail(s.offered), taken := s.taken + {s.v.ring[s.fetched % NUM]})
    case Finish(h, status) =>
      var (req, k) := Interpret(s.v, h).value;
      s.(v := s.v.(info := s.v.info[k := s.v.info[k].(status := status)],
                   usedRing := s.v.usedRing[s.v.usedIdx % NUM := h], usedIdx := (s.v.usedIdx + 1) % 0x1_0000),
         taken := s.taken - {h}, finished := s.finished + [h],
         got := if status == 0 && s.owner[h].Some?
                then s.got[s.owner[h].value := s.got[s.owner[h].value] + [req]] else s.got)
    case Interrupt =>
      var (v', disk') := ReapOne(s.v, s.disk).value;
      s.(v := v', disk := disk', seen := s.seen + 1, finished := Tail(s.finished),
         threads := WokenAt(s.threads, Reported(s.v, s.disk)))
    case Doze(p) => s.(threads := s.threads[p := s.threads[p].(asleep := true)])
    case Leave(p) =>
      var t := s.threads[p];
      var v' := FreeChain(s.v, t.i0).value;
      s.(v := v'.(info := s.v.info[t.i0 := s.v.info[t.i0].(b := None)]),
         threads := Woken(s.threads)[p := Out], owner := Disown(s.owner, p))
    case Stir(p) => s.(threads := s.threads[p := Stirred(s.threads[p])])
  }

  function Tail(q: seq<nat>): seq<nat> {
    if q == [] then [] else q[1..]
  }

  function Disown(owner: seq<Option<Pid>>, p: Pid): (r: seq<Option<Pid>>)
    ensures |r| == |owner| && forall i :: 0 <= i < |r| ==> r[i] == if owner[i] == Some(p) then None else owner[i]
  {
    seq(|owner|, i requires 0 <= i < |owner| => if owner[i] == Some(p) then None else owner[i])
  }

  // ----- the invariant -----

  predicate InChain(t: Thread, i: nat) {
    t.Await? && (i == t.i0 || i == t.i1 || i == t.i2)
  }

  /** The descriptors that are not free are owned, and owned by being in the chain of a process. */
  predicate Partition(free: seq<bool>, owner: seq<Option<Pid>>, threads: seq<Thread>)
    requires |free| == |owner| == NUM && |threads| == NPROC
  {
    && (forall i :: 0 <= i < NUM ==> free[i] == owner[i].None?)
    && (forall i :: 0 <= i < NUM && owner[i].Some? ==> InChain(threads[owner[i].value], i))
  }

  /** The chain of a waiting process says what the process asked for. */
  predicate ChainOk(desc: seq<Desc>, ops: seq<Op>, info: seq<Info>, owner: seq<Option<Pid>>, p: Pid, t: Thread)
    requires |desc| == |ops| == |info| == |owner| == NUM
  {
    t.Await? ==>
      && t.i0 < NUM && t.i1 < NUM && t.i2 < NUM && t.i0 != t.i1 && t.i1 != t.i2 && t.i0 != t.i2
      && owner[t.i0] == Some(p) && owner[t.i1] == Some(p) && owner[t.i2] == Some(p)
      && ops[t.i0] == Op(t.write, Sector(t.block))
      && desc[t.i0] == Desc(Header(t.i0), HEADER_LEN, false, true, t.i1)
      && desc[t.i1] == Desc(Data(t.b), BSIZE, !t.write, true, t.i2)
      && desc[t.i2] == Desc(Status(t.i0), 1, true, false, 0)
      && info[t.i0].b == Some(t.b)
  }

  predicate Chains(desc: seq<Desc>, ops: seq<Op>, info: seq<Info>, owner: seq<Option<Pid>>, threads: seq<Thread>)
    requires |desc| == |ops| == |info| == |owner| == NUM && |threads| == NPROC
  {
    forall p: Pid :: ChainOk(desc, ops, info, owner, p, threads[p])
  }

  predicate OneEach(threads: seq<Thread>)
    requires |threads| == NPROC
  {
    && (forall p: Pid :: !threads[p].Out? ==> threads[p].b < BufferCache.NBUF)
    && (forall p: Pid, q: Pid :: !threads[p].Out? && !threads[q].Out? && threads[p].b == threads[q].b ==> p == q)
  }

  /** Entries from `start` on of a ring hold the list q. */
  predicate RingHolds(ring: seq<nat>, start: nat, q: seq<nat>)
    requires |ring| == NUM
  {
    |q| <= NUM && forall j :: 0 <= j < |q| ==> ring[(start + j) % NUM] == q[j]
  }

  predicate Rings(s: Sys)
    requires Sizes(s)
  {
    && RingHolds(s.v.ring, s.fetched, s.offered) && s.v.availIdx == (s.fetched + |s.offered|) % WRAP
    && RingHolds(s.v.usedRing, s.seen, s.finished) && s.v.usedIdx == (s.seen + |s.finished|) % WRAP
    && s.v.seenIdx == s.seen % WRAP
  }

  /** h is the head of the chain of a process whose request is not reported back yet. */
  predicate Live(owner: seq<Option<Pid>>, threads: seq<Thread>, disk: seq<bool>, h: nat)
    requires |owner| == NUM && |threads| == NPROC && |disk| == BufferCache.NBUF
  {
    h < NUM && owner[h].Some?
    && var t := threads[owner[h].value]; t.Await? && t.i0 == h && t.b < BufferCache.NBUF && disk[t.b]
  }

  predicate Distinct(q: seq<nat>) {
    forall i, j :: 0 <= i < j < |q| ==> q[i] != q[j]
  }

  predicate InFlight(offered: seq<nat>, taken: set<nat>, finished: seq<nat>, h: nat) {
    h in offered || h in taken || h in finished
  }

  /** The heads with the device, in one of three places each, are those of the requests not reported back. */
  ghost predicate Heads(offered: seq<nat>, taken: set<nat>, finished: seq<nat>, owner: seq<Option<Pid>>,
                        threads: seq<Thread>, disk: seq<bool>)
    requires |owner| == NUM && |threads| == NPROC && |disk| == BufferCache.NBUF
  {
    && Distinct(offered) && Distinct(finished)
    && (forall h :: h in offered ==> h !in taken && h !in finished)
    && (forall h :: h in taken ==> h !in finished)
    && (forall h: nat :: InFlight(offered, taken, finished, h) <==> Live(owner, threads, disk, h))
  }

  /** A process has got exactly the transfer it asked for once the device has finished it without error, and
      none before. */
  predicate GotOk(info: seq<Info>, finished: seq<nat>, disk: seq<bool>, t: Thread, got: seq<Request>)
    requires |info| == NUM && |disk| == BufferCache.NBUF
  {
    && (t.Trying? || t.Napping? ==> got == [])
    && (t.Await? && t.b < BufferCache.NBUF && t.i0 < NUM ==>
          got == if (t.i0 in finished && info[t.i0].status == 0) || !disk[t.b]
                 then [Wanted(t)] else [])
  }

  predicate Gots(info: seq<Info>, finished: seq<nat>, disk: seq<bool>, threads: seq<Thread>, got: seq<seq<Request>>)
    requires |info| == NUM && |disk| == BufferCache.NBUF && |threads| == |got| == NPROC
  {
    forall p: Pid :: GotOk(info, finished, disk, threads[p], got[p])
  }

  /** Nobody sleeps on a buffer that was reported done. */
  predicate NoLostDoze(threads: seq<Thread>, disk: seq<bool>)
    requires |threads| == NPROC && |disk| == BufferCache.NBUF
  {
    forall p: Pid :: threads[p].Await? && threads[p].b < BufferCache.NBUF && threads[p].asleep ==> disk[threads[p].b]
  }

  /** Nobody sleeps while there are descriptors for a request. */
  predicate NoLostNap(free: seq<bool>, threads: seq<Thread>)
    requires |free| == NUM && |threads| == NPROC
  {
    forall p: Pid :: threads[p].Napping? ==> NumFree(free, NUM) < 3
  }

  ghost predicate Inv(s: Sys) {
    && Sizes(s)
    && FreeCleared(s.v.free, s.v.desc)
    && Partition(s.v.free, s.owner, s.threads)
    && Chains(s.v.desc, s.v.ops, s.v.info, s.owner, s.threads)
    && OneEach(s.threads)
    && Rings(s)
    && Heads(s.offered, s.taken, s.finished, s.owner, s.threads, s.disk)
    && Gots(s.v.info, s.finished, s.disk, s.threads, s.got)
    && NoLostNap(s.v.free, s.threads)
    && NoLostDoze(s.threads, s.disk)
  }

  // ----- every step keeps it -----

  /** A list of different numbers below n has at most n of them. */
  lemma {:induction false} Pigeonhole(q: seq<nat>, n: nat)
    requires Distinct(q) && forall i :: 0 <= i < |q| ==> q[i] < n
    ensures |q| <= n
    decreases n
  {
    if |q| > 0 {
      assert q[0] < n;
      if k :| 0 <= k < |q| && q[k] == n - 1 {
        var r := q[..k] + q[k + 1..];
        assert forall i :: 0 <= i < |r| ==> r[i] == q[if i < k then i else i + 1];
        Pigeonhole(r, n - 1);
      } else {
        Pigeonhole(q, n - 1);
      }
    }
  }

  /** The same request is waited for, if any. */
  predicate Alike(a: Thread, b: Thread) {
    if a.Await? then b.Await? && b == a.(asleep := b.asleep) else !b.Await?
  }

  /** Processes move between states outside the wait for the device, or fall asleep or wake in it. */
  predicate OutsideOnly(a: seq<Thread>, b: seq<Thread>)
    requires |a| == |b| == NPROC
  {
    forall p: Pid :: Alike(a[p], b[p])
  }

  lemma OutsideInv(s: Sys, threads: seq<Thread>, got: seq<seq<Request>>)
    requires Inv(s) && |threads| == |got| == NPROC && OutsideOnly(s.threads, threads) && OneEach(threads)
    requires Gots(s.v.info, s.finished, s.disk, threads, got) && NoLostNap(s.v.free, threads)
    requires NoLostDoze(threads, s.disk)
    ensures Inv(s.(threads := threads, got := got))
  {
    hide FreeCleared, RingHolds, NumFree, OneEach, Gots, NoLostNap, NoLostDoze;
    forall h: nat
      ensures Live(s.owner, threads, s.disk, h) == Live(s.owner, s.threads, s.disk, h)
    {
    }
    forall p: Pid
      ensures ChainOk(s.v.desc, s.v.ops, s.v.info, s.owner, p, threads[p])
    {
      assert ChainOk(s.v.desc, s.v.ops, s.v.info, s.owner, p, s.threads[p]);
    }
  }

  lemma EnterInv(s: Sys, e: Step)
    requires Inv(s) && e.Enter? && Enabled(s, e)
    ensures Inv(Do(s, e))
  {
    hide FreeCleared, NumFree, Partition, Chains, Rings, Heads;
    var s' := Do(s, e);
    OutsideInv(s, s'.threads, s'.got);
  }

  lemma StirInv(s: Sys, e: Step)
    requires Inv(s) && e.Stir? && Enabled(s, e)
    ensures Inv(Do(s, e))
  {
    hide FreeCleared, NumFree, Partition, Chains, Rings, Heads;
    var s' := Do(s, e);
    OutsideInv(s, s'.threads, s'.got);
  }

  lemma DozeInv(s: Sys, e: Step)
    requires Inv(s) && e.Doze? && Enabled(s, e)
    ensures Inv(Do(s, e))
  {
    hide FreeCleared, NumFree, Partition, Chains, Rings, Heads;
    var s' := Do(s, e);
    OutsideInv(s, s'.threads, s'.got);
  }

  /** wakeup on a buffer. */
  lemma RouseInv(s: Sys, b: nat)
    requires Inv(s)
    ensures Inv(s.(threads := WokenAt(s.threads, b)))
  {
    hide FreeCleared, NumFree, Partition, Chains, Rings, Heads;
    OutsideInv(s, WokenAt(s.threads, b), s.got);
  }

  lemma WokenInv(s: Sys)
    requires Inv(s)
    ensures Inv(s.(threads := Woken(s.threads)))
  {
    hide FreeCleared, NumFree, Partition, Chains, Rings, Heads;
    var threads := Woken(s.threads);
    assert OneEach(threads) by {
      assert forall p: Pid ::
               threads[p].Out? == s.threads[p].Out? && (!threads[p].Out? ==> threads[p].b == s.threads[p].b);
    }
    OutsideInv(s, threads, s.got);
  }

  /** alloc3_desc failed: the process sleeps, with fewer than three descriptors free. */
  lemma NapInv(s: Sys, e: Step)
    requires Inv(s) && e.Start? && Enabled(s, e) && Alloc3(s.v).1.None?
    ensures Inv(Do(s, e))
  {
    hide FreeCleared, NumFree, Partition, Chains, Rings, Heads, Alloc3, Woken;
    Alloc3Correct(s.v);
    WokenInv(s);
    var s1 := if NumFree(s.v.free, NUM) > 0 then s.(threads := Woken(s.threads)) else s;
    var t := s.threads[e.p];
    assert s1.threads[e.p] == t;
    var threads := s1.threads[e.p := Napping(t.b, t.block, t.write)];
    OutsideInv(s1, threads, s1.got);
    assert Do(s, e) == s1.(threads := threads);
  }

  lemma RingPush(ring: seq<nat>, start: nat, q: seq<nat>, h: nat)
    requires |ring| == NUM && RingHolds(ring, start, q) && |q| < NUM
    ensures RingHolds(ring[(start + |q|) % NUM := h], start, q + [h])
  {
    var ring' := ring[(start + |q|) % NUM := h];
    forall j | 0 <= j < |q|
      ensures ring'[(start + j) % NUM] == q[j]
    {
      assert (start + j) % NUM != (start + |q|) % NUM;
    }
  }

  lemma RingPop(ring: seq<nat>, start: nat, q: seq<nat>)
    requires |ring| == NUM && RingHolds(ring, start, q) && q != []
    ensures ring[start % NUM] == q[0] && RingHolds(ring, start + 1, q[1..])
  {
    assert ring[(start + 0) % NUM] == q[0];
    var r := q[1..];
    forall j | 0 <= j < |r|
      ensures ring[(start + 1 + j) % NUM] == r[j]
    {
      assert ring[(start + (j + 1)) % NUM] == q[j + 1];
    }
  }

  lemma WrapIndex(n: nat)
    ensures (n % WRAP) % NUM == n % NUM && ((n % WRAP) + 1) % WRAP == (n + 1) % WRAP
  {
    assert n == WRAP * (n / WRAP) + n % WRAP;
  }

  lemma LiveHead(s: Sys, h: nat) returns (p: Pid)
    requires Inv(s) && InFlight(s.offered, s.taken, s.finished, h)
    ensures h < NUM && s.owner[h] == Some(p) && s.threads[p].Await? && s.threads[p].i0 == h
    ensures s.threads[p].b < BufferCache.NBUF && s.disk[s.threads[p].b]
    ensures ChainOk(s.v.desc, s.v.ops, s.v.info, s.owner, p, s.threads[p])
  {
    hide FreeCleared, NumFree, Partition, Chains, Rings, OneEach, Gots, NoLostNap, NoLostDoze;
    assert Live(s.owner, s.threads, s.disk, h);
    p := s.owner[h].value;
    ChainAt(s.v.desc, s.v.ops, s.v.info, s.owner, s.threads, p);
  }

  lemma HeadOwner(desc: seq<Desc>, ops: seq<Op>, info: seq<Info>, owner: seq<Option<Pid>>, threads: seq<Thread>,
                  p: Pid, h: nat)
    requires |desc| == |ops| == |info| == |owner| == NUM
    requires |threads| == NPROC && Chains(desc, ops, info, owner, threads)
    requires h < NUM && owner[h] == Some(p)
    ensures forall q: Pid :: threads[q].Await? && q != p ==> threads[q].i0 != h
  {
    forall q: Pid | threads[q].Await? && q != p
      ensures threads[q].i0 != h
    {
      assert ChainOk(desc, ops, info, owner, q, threads[q]);
    }
  }

  lemma ChainAt(desc: seq<Desc>, ops: seq<Op>, info: seq<Info>, owner: seq<Option<Pid>>, threads: seq<Thread>, p: Pid)
    requires |desc| == |ops| == |info| == |owner| == NUM
    requires |threads| == NPROC && Chains(desc, ops, info, owner, threads)
    ensures ChainOk(desc, ops, info, owner, p, threads[p])
  {
  }

  /** Neither ring overruns: another head fits. */
  lemma RoomFor(s: Sys, q: seq<nat>, h: nat)
    requires Inv(s) && (q == s.offered || q == s.finished) && h < NUM && h !in q
    ensures |q| < NUM
  {
    hide FreeCleared, NumFree, Partition, Chains, Rings, OneEach, Gots, NoLostNap, NoLostDoze;
    forall i | 0 <= i < |q|
      ensures q[i] < NUM && q[i] != h
    {
      assert q[i] in q && InFlight(s.offered, s.taken, s.finished, q[i]);
    }
    Pigeonhole(q + [h], NUM);
  }

  lemma FetchInv(s: Sys, e: Step)
    requires Inv(s) && e.Fetch? && Enabled(s, e)
    ensures Inv(Do(s, e))
  {
    hide FreeCleared, NumFree, Partition, Chains, OneEach, Gots, NoLostNap, NoLostDoze, RingHolds, Live;
    assert s.offered != [];
    RingPop(s.v.ring, s.fetched, s.offered);
    var h, rest := s.offered[0], s.offered[1..];
    assert s.offered == [h] + rest;
    forall x: nat
      ensures InFlight(rest, s.taken + {h}, s.finished, x) == InFlight(s.offered, s.taken, s.finished, x)
    {
    }
  }

  /** The device can read the chain, and sees the request its owner made. */
  lemma ReadsRequest(s: Sys, h: nat) returns (p: Pid)
    requires Inv(s) && InFlight(s.offered, s.taken, s.finished, h)
    ensures h < NUM && s.owner[h] == Some(p) && s.threads[p].Await? && s.threads[p].i0 == h
    ensures s.threads[p].b < BufferCache.NBUF && s.disk[s.threads[p].b]
    ensures var t := s.threads[p]; Interpret(s.v, h) == Some((Wanted(t), h))
  {
    hide FreeCleared, NumFree, Partition, Chains, Rings, Heads, OneEach, Gots, NoLostNap, NoLostDoze;
    p := LiveHead(s, h);
    SectorBytes(s.threads[p].block);
  }

  lemma FinishInv(s: Sys, e: Step)
    requires Inv(s) && e.Finish? && Enabled(s, e) && !Panics(s, e)
    ensures Inv(Do(s, e))
  {
    hide FreeCleared, NumFree, Partition, Chains, OneEach, Gots, NoLostNap, NoLostDoze, RingHolds, Live, Interpret;
    var h := e.h;
    var p := ReadsRequest(s, h);
    var t := s.threads[p];
    RoomFor(s, s.finished, h);
    RingPush(s.v.usedRing, s.seen, s.finished, h);
    WrapIndex(s.seen + |s.finished|);
    FinishHeads(s.offered, s.taken, s.finished, h);
    FinishInfo(s.v.desc, s.v.ops, s.v.info, s.owner, s.threads, h, e.status);
    HeadOwner(s.v.desc, s.v.ops, s.v.info, s.owner, s.threads, p, h);
    FinishGots(s.v.info, s.finished, s.disk, s.owner, s.threads, s.got, p, h, e.status);
    assert s.got[p] + [] == s.got[p];
    assert s.got[p := s.got[p]] == s.got;
  }

  lemma FinishHeads(offered: seq<nat>, taken: set<nat>, finished: seq<nat>, h: nat)
    requires h in taken && h !in finished && Distinct(finished)
    ensures Distinct(finished + [h])
    ensures forall x: nat :: InFlight(offered, taken - {h}, finished + [h], x) == InFlight(offered, taken, finished, x)
  {
  }

  lemma FinishInfo(desc: seq<Desc>, ops: seq<Op>, info: seq<Info>, owner: seq<Option<Pid>>, threads: seq<Thread>,
                   h: nat, status: nat)
    requires |desc| == |ops| == |info| == |owner| == NUM && |threads| == NPROC && h < NUM
    requires Chains(desc, ops, info, owner, threads)
    ensures Chains(desc, ops, info[h := info[h].(status := status)], owner, threads)
  {
    var info' := info[h := info[h].(status := status)];
    forall p: Pid
      ensures ChainOk(desc, ops, info', owner, p, threads[p])
    {
      assert ChainOk(desc, ops, info, owner, p, threads[p]);
    }
  }

  lemma FinishGots(info: seq<Info>, finished: seq<nat>, disk: seq<bool>, owner: seq<Option<Pid>>, threads: seq<Thread>,
                   got: seq<seq<Request>>, p: Pid, h: nat, status: nat)
    requires |info| == NUM && |disk| == BufferCache.NBUF && |threads| == |got| == NPROC && |owner| == NUM
    requires Gots(info, finished, disk, threads, got)
    requires h < NUM && owner[h] == Some(p) && threads[p].Await? && threads[p].i0 == h && h !in finished
    requires threads[p].b < BufferCache.NBUF && disk[threads[p].b]
    requires forall q: Pid :: threads[q].Await? && q != p ==> threads[q].i0 != h
    ensures var t := threads[p];
            var made := if status == 0 then [Wanted(t)] else [];
            Gots(info[h := info[h].(status := status)], finished + [h], disk, threads, got[p := got[p] + made])
  {
    var t, info' := threads[p], info[h := info[h].(status := status)];
    var got' := got[p := got[p] + if status == 0 then [Wanted(t)] else []];
    forall q: Pid
      ensures GotOk(info', finished + [h], disk, threads[q], got'[q])
    {
      assert GotOk(info, finished, disk, threads[q], got[q]);
    }
  }

  /** A used entry that is reported names a finished request and its buffer. */
  lemma ReportedRequest(s: Sys) returns (p: Pid)
    requires Inv(s) && s.v.seenIdx != s.v.usedIdx
    ensures s.finished != [] && s.v.usedRing[s.v.seenIdx % NUM] == s.finished[0]
    ensures var h, t := s.finished[0], s.threads[p];
            && h < NUM && s.owner[h] == Some(p) && t.Await? && t.i0 == h && t.b < BufferCache.NBUF && s.disk[t.b]
            && s.v.info[h].b == Some(t.b)
  {
    hide FreeCleared, NumFree, Partition, Chains, OneEach, Gots, NoLostNap, NoLostDoze, RingHolds, Heads;
    RingPop(s.v.usedRing, s.seen, s.finished);
    WrapIndex(s.seen);
    assert s.finished[0] in s.finished;
    p := LiveHead(s, s.finished[0]);
  }

  lemma InterruptInv(s: Sys, e: Step)
    requires Inv(s) && e.Interrupt? && Enabled(s, e) && !Panics(s, e)
    ensures Inv(Do(s, e))
  {
    hide FreeCleared, NumFree, Partition, Chains, OneEach, Gots, NoLostNap, NoLostDoze, RingHolds, Heads;
    var b := Reported(s.v, s.disk);
    RouseInv(s, b);
    var s1 := s.(threads := WokenAt(s.threads, b));
    var p := ReportedRequest(s1);
    ReportInv(s1, p);
    assert Do(s, e) == ReportedTo(s1, p);
  }

  /** The turn of virtio_disk_intr once the sleepers are awake. */
  function ReportedTo(s: Sys, p: Pid): Sys
    requires Sizes(s) && s.threads[p].Await? && s.threads[p].b < BufferCache.NBUF
  {
    s.(v := s.v.(seenIdx := (s.v.seenIdx + 1) % WRAP), disk := s.disk[s.threads[p].b := false], seen := s.seen + 1,
       finished := Tail(s.finished))
  }

  lemma ReportInv(s: Sys, p: Pid)
    requires Inv(s) && s.v.seenIdx != s.v.usedIdx && s.finished != [] && s.finished[0] < NUM
    requires s.owner[s.finished[0]] == Some(p) && s.threads[p].Await? && s.threads[p].i0 == s.finished[0]
    requires s.threads[p].b < BufferCache.NBUF && s.v.info[s.finished[0]].status == 0
    requires forall q: Pid :: s.threads[q].Await? && s.threads[q].b == s.threads[p].b ==> !s.threads[q].asleep
    ensures Inv(ReportedTo(s, p))
  {
    hide FreeCleared, NumFree, Partition, Chains, OneEach, Gots, NoLostNap, RingHolds, Heads;
    var h, rest := s.finished[0], s.finished[1..];
    RingPop(s.v.usedRing, s.seen, s.finished);
    WrapIndex(s.seen);
    assert s.finished == [h] + rest;
    HeadOwner(s.v.desc, s.v.ops, s.v.info, s.owner, s.threads, p, h);
    ReportHeads(s.offered, s.taken, s.finished, s.owner, s.threads, s.disk, p);
    ReportGots(s.v.info, s.finished, s.threads, s.disk, s.got, p);
  }

  lemma ReportHeads(offered: seq<nat>, taken: set<nat>, finished: seq<nat>, owner: seq<Option<Pid>>,
                    threads: seq<Thread>, disk: seq<bool>, p: Pid)
    requires |owner| == NUM && |threads| == NPROC && |disk| == BufferCache.NBUF && OneEach(threads)
    requires Heads(offered, taken, finished, owner, threads, disk) && finished != []
    requires finished[0] < NUM && owner[finished[0]] == Some(p) && threads[p].Await? && threads[p].i0 == finished[0]
    requires threads[p].b < BufferCache.NBUF
    ensures Heads(offered, taken, finished[1..], owner, threads, disk[threads[p].b := false])
  {
    var h, rest, t := finished[0], finished[1..], threads[p];
    assert finished == [h] + rest;
    assert h !in rest;
    var disk' := disk[t.b := false];
    forall x: nat
      ensures InFlight(offered, taken, rest, x) <==> Live(owner, threads, disk', x)
    {
      assert InFlight(offered, taken, rest, x) <==> InFlight(offered, taken, finished, x) && x != h;
      assert Live(owner, threads, disk', x) <==> Live(owner, threads, disk, x) && x != h;
    }
  }

  lemma ReportGots(info: seq<Info>, finished: seq<nat>, threads: seq<Thread>, disk: seq<bool>,
                   got: seq<seq<Request>>, p: Pid)
    requires |info| == NUM && |disk| == BufferCache.NBUF && |threads| == |got| == NPROC && OneEach(threads)
    requires Gots(info, finished, disk, threads, got)
    requires finished != [] && threads[p].Await? && threads[p].i0 == finished[0] < NUM && info[finished[0]].status == 0
    requires forall q: Pid :: threads[q].Await? && q != p ==> threads[q].i0 != finished[0]
    ensures threads[p].b < BufferCache.NBUF && Gots(info, finished[1..], disk[threads[p].b := false], threads, got)
  {
    var h, rest, t := finished[0], finished[1..], threads[p];
    assert finished == [h] + rest;
    forall q: Pid
      ensures GotOk(info, rest, disk[t.b := false], threads[q], got[q])
    {
      assert GotOk(info, finished, disk, threads[q], got[q]);
    }
  }

  /** alloc3_desc succeeded: the chain is filled in and offered. */
  lemma PostInv(s: Sys, e: Step)
    requires Inv(s) && e.Start? && Enabled(s, e) && Alloc3(s.v).1.Some?
    ensures Inv(Do(s, e))
  {
    hide FreeCleared, NumFree, Partition, Chains, OneEach, Gots, NoLostNap, NoLostDoze, RingHolds, Heads, Alloc3;
    Alloc3Correct(s.v);
    var (i0, i1, i2) := Alloc3(s.v).1.value;
    var p, t := e.p, s.threads[e.p];
    var t' := Await(t.b, t.block, t.write, i0, i1, i2, false);
    NotLive(s, i0);
    RoomFor(s, s.offered, i0);
    RingPush(s.v.ring, s.fetched, s.offered, i0);
    WrapIndex(s.fetched + |s.offered|);
    PostPartition(s.v.free, s.v.desc, s.owner, s.threads, p, t', Do(s, e).v.desc);
    PostChains(s.v, s.owner, s.threads, p, t');
    PostHeads(s.offered, s.taken, s.finished, s.v.free, s.owner, s.threads, s.disk, p, t');
    FreshHead(s, i0);
    PostGots(s.v.info, s.finished, s.disk, s.threads, s.got, p, t');
    PostRest(s, e, t');
  }

  lemma NotLive(s: Sys, i: nat)
    requires Inv(s) && i < NUM && s.v.free[i]
    ensures !InFlight(s.offered, s.taken, s.finished, i)
  {
    hide FreeCleared, NumFree, Chains, OneEach, Gots, NoLostNap, NoLostDoze, Rings;
    assert !Live(s.owner, s.threads, s.disk, i);
  }

  predicate Takes(free: seq<bool>, t: Thread)
    requires |free| == NUM
  {
    && t.Await? && t.i0 < NUM && t.i1 < NUM && t.i2 < NUM && t.i0 != t.i1 && t.i1 != t.i2 && t.i0 != t.i2
    && free[t.i0] && free[t.i1] && free[t.i2]
  }

  lemma PostPartition(free: seq<bool>, desc: seq<Desc>, owner: seq<Option<Pid>>, threads: seq<Thread>, p: Pid,
                      t: Thread, desc': seq<Desc>)
    requires |free| == |owner| == |desc| == |desc'| == NUM && |threads| == NPROC && Partition(free, owner, threads)
    requires FreeCleared(free, desc) && Takes(free, t) && !threads[p].Await?
    requires forall i :: 0 <= i < NUM && i != t.i0 && i != t.i1 && i != t.i2 ==> desc'[i] == desc[i]
    ensures var free' := free[t.i0 := false][t.i1 := false][t.i2 := false];
            && Partition(free', owner[t.i0 := Some(p)][t.i1 := Some(p)][t.i2 := Some(p)], threads[p := t])
            && FreeCleared(free', desc')
  {
  }

  lemma PostChains(v: Vq, owner: seq<Option<Pid>>, threads: seq<Thread>, p: Pid, t: Thread)
    requires Wf(v) && |owner| == NUM && |threads| == NPROC && Partition(v.free, owner, threads)
    requires Chains(v.desc, v.ops, v.info, owner, threads) && Takes(v.free, t)
    ensures var v' := Post(v, t.b, t.block, t.write, t.i0, t.i1, t.i2);
            Chains(v'.desc, v'.ops, v'.info, owner[t.i0 := Some(p)][t.i1 := Some(p)][t.i2 := Some(p)], threads[p := t])
  {
    var v' := Post(v, t.b, t.block, t.write, t.i0, t.i1, t.i2);
    var owner', threads' := owner[t.i0 := Some(p)][t.i1 := Some(p)][t.i2 := Some(p)], threads[p := t];
    forall q: Pid
      ensures ChainOk(v'.desc, v'.ops, v'.info, owner', q, threads'[q])
    {
      assert ChainOk(v.desc, v.ops, v.info, owner, q, threads[q]);
    }
  }

  lemma PostHeads(offered: seq<nat>, taken: set<nat>, finished: seq<nat>, free: seq<bool>, owner: seq<Option<Pid>>,
                  threads: seq<Thread>, disk: seq<bool>, p: Pid, t: Thread)
    requires |free| == |owner| == NUM && |threads| == NPROC && |disk| == BufferCache.NBUF && OneEach(threads)
    requires Partition(free, owner, threads) && Heads(offered, taken, finished, owner, threads, disk)
    requires Takes(free, t) && threads[p].Trying? && threads[p].b == t.b < BufferCache.NBUF
    ensures Heads(offered + [t.i0], taken, finished, owner[t.i0 := Some(p)][t.i1 := Some(p)][t.i2 := Some(p)],
                  threads[p := t], disk[t.b := true])
  {
    var owner' := owner[t.i0 := Some(p)][t.i1 := Some(p)][t.i2 := Some(p)];
    var threads', disk' := threads[p := t], disk[t.b := true];
    forall x: nat
      ensures InFlight(offered + [t.i0], taken, finished, x) <==> Live(owner', threads', disk', x)
    {
      assert InFlight(offered + [t.i0], taken, finished, x) <==> InFlight(offered, taken, finished, x) || x == t.i0;
      assert Live(owner', threads', disk', x) <==> Live(owner, threads, disk, x) || x == t.i0;
    }
    assert !Live(owner, threads, disk, t.i0);
    assert !InFlight(offered, taken, finished, t.i0);
  }

  lemma FreshHead(s: Sys, i: nat)
    requires Inv(s) && i < NUM && s.v.free[i]
    ensures forall q: Pid :: s.threads[q].Await? ==> s.threads[q].i0 != i
  {
    hide FreeCleared, NumFree, OneEach, Gots, NoLostNap, NoLostDoze, Rings, Heads;
    forall q: Pid | s.threads[q].Await?
      ensures s.threads[q].i0 != i
    {
      ChainAt(s.v.desc, s.v.ops, s.v.info, s.owner, s.threads, q);
    }
  }

  lemma PostGots(info: seq<Info>, finished: seq<nat>, disk: seq<bool>, threads: seq<Thread>,
                 got: seq<seq<Request>>, p: Pid, t: Thread)
    requires |info| == NUM && |disk| == BufferCache.NBUF && |threads| == |got| == NPROC && OneEach(threads)
    requires Gots(info, finished, disk, threads, got)
    requires t.Await? && threads[p].Trying? && threads[p].b == t.b < BufferCache.NBUF && t.i0 !in finished
    requires t.i0 < NUM && forall q: Pid :: threads[q].Await? ==> threads[q].i0 != t.i0
    ensures Gots(info[t.i0 := Info(Some(t.b), 0xff)], finished, disk[t.b := true], threads[p := t], got)
  {
    var info', threads' := info[t.i0 := Info(Some(t.b), 0xff)], threads[p := t];
    forall q: Pid
      ensures GotOk(info', finished, disk[t.b := true], threads'[q], got[q])
    {
      assert GotOk(info, finished, disk, threads[q], got[q]);
    }
  }

  lemma PostRest(s: Sys, e: Step, t: Thread)
    requires Inv(s) && e.Start? && Enabled(s, e) && Alloc3(s.v).1.Some? && t == Do(s, e).threads[e.p] && t.Await?
    ensures var s' := Do(s, e);
            && Sizes(s') && OneEach(s'.threads)
            && NoLostNap(s'.v.free, s'.threads) && NoLostDoze(s'.threads, s'.disk)
  {
    hide FreeCleared, NumFree, Partition, Chains, Gots, RingHolds, Heads, Alloc3;
    Alloc3Correct(s.v);
  }

  lemma LeaveInv(s: Sys, e: Step)
    requires Inv(s) && e.Leave? && Enabled(s, e) && !Panics(s, e)
    ensures Inv(Do(s, e))
  {
    hide FreeCleared, NumFree, Partition, Chains, OneEach, Gots, NoLostNap, NoLostDoze, RingHolds, Heads, FreeChain;
    WokenInv(s);
    var p, t, threads := e.p, s.threads[e.p], Woken(s.threads);
    LeaveChain(s, p);
    LeavePartition(s.v.free, s.v.desc, s.v.ops, s.v.info, s.owner, threads, p);
    LeaveHeads(s.offered, s.taken, s.finished, s.owner, threads, s.disk, p);
    LeaveGots(s.v.info, s.finished, s.disk, threads, s.got, p, t.i0);
    LeaveThreads(s.threads, threads, Do(s, e).v.free, s.disk, p);
  }

  lemma LeaveChain(s: Sys, p: Pid)
    requires Inv(s) && s.threads[p].Await?
    ensures var t := s.threads[p]; Linked3(s.v, t.i0, t.i1, t.i2)
    ensures var t := s.threads[p];
            FreeChain(s.v, t.i0) == Some(s.v.(free := s.v.free[t.i0 := true][t.i1 := true][t.i2 := true],
                                              desc := s.v.desc[t.i0 := CLEARED][t.i1 := CLEARED][t.i2 := CLEARED]))
  {
    hide FreeCleared, NumFree, OneEach, Gots, NoLostNap, NoLostDoze, Rings, Heads, Chains, FreeChain;
    ChainAt(s.v.desc, s.v.ops, s.v.info, s.owner, s.threads, p);
    var t := s.threads[p];
    FreeChainExact(s.v, t.i0, t.i1, t.i2);
  }

  lemma LeavePartition(free: seq<bool>, desc: seq<Desc>, ops: seq<Op>, info: seq<Info>, owner: seq<Option<Pid>>,
                       threads: seq<Thread>, p: Pid)
    requires |free| == |desc| == |ops| == |info| == |owner| == NUM && |threads| == NPROC
    requires Partition(free, owner, threads) && FreeCleared(free, desc) && Chains(desc, ops, info, owner, threads)
    requires threads[p].Await?
    ensures var t := threads[p];
            && t.i0 < NUM && t.i1 < NUM && t.i2 < NUM
            && var free' := free[t.i0 := true][t.i1 := true][t.i2 := true];
               var desc' := desc[t.i0 := CLEARED][t.i1 := CLEARED][t.i2 := CLEARED];
            && Partition(free', Disown(owner, p), threads[p := Out]) && FreeCleared(free', desc')
            && Chains(desc', ops, info[t.i0 := info[t.i0].(b := None)], Disown(owner, p), threads[p := Out])
  {
    var t, owner', threads' := threads[p], Disown(owner, p), threads[p := Out];
    assert ChainOk(desc, ops, info, owner, p, t);
    var desc', info' := desc[t.i0 := CLEARED][t.i1 := CLEARED][t.i2 := CLEARED], info[t.i0 := info[t.i0].(b := None)];
    forall q: Pid
      ensures ChainOk(desc', ops, info', owner', q, threads'[q])
    {
      assert ChainOk(desc, ops, info, owner, q, threads[q]);
    }
  }

  lemma LeaveHeads(offered: seq<nat>, taken: set<nat>, finished: seq<nat>, owner: seq<Option<Pid>>,
                   threads: seq<Thread>, disk: seq<bool>, p: Pid)
    requires |owner| == NUM && |threads| == NPROC && |disk| == BufferCache.NBUF
    requires Heads(offered, taken, finished, owner, threads, disk)
    requires threads[p].Await? && threads[p].b < BufferCache.NBUF && !disk[threads[p].b]
    ensures Heads(offered, taken, finished, Disown(owner, p), threads[p := Out], disk)
  {
    forall x: nat
      ensures Live(Disown(owner, p), threads[p := Out], disk, x) == Live(owner, threads, disk, x)
    {
    }
  }

  lemma LeaveGots(info: seq<Info>, finished: seq<nat>, disk: seq<bool>, threads: seq<Thread>,
                  got: seq<seq<Request>>, p: Pid, i: nat)
    requires |info| == NUM && |disk| == BufferCache.NBUF && |threads| == |got| == NPROC && i < NUM
    requires Gots(info, finished, disk, threads, got)
    ensures Gots(info[i := info[i].(b := None)], finished, disk, threads[p := Out], got)
  {
    var info', threads' := info[i := info[i].(b := None)], threads[p := Out];
    forall q: Pid
      ensures GotOk(info', finished, disk, threads'[q], got[q])
    {
      assert GotOk(info, finished, disk, threads[q], got[q]);
    }
  }

  lemma LeaveThreads(was: seq<Thread>, threads: seq<Thread>, free: seq<bool>, disk: seq<bool>, p: Pid)
    requires |was| == |threads| == NPROC && |free| == NUM && |disk| == BufferCache.NBUF
    requires OneEach(threads) && threads == Woken(was) && NoLostDoze(threads, disk)
    ensures OneEach(threads[p := Out]) && NoLostNap(free, threads[p := Out]) && NoLostDoze(threads[p := Out], disk)
  {
  }

  /** Every step keeps the invariant, for any order of completion by the device and with or without errors. */
  lemma StepInv(s: Sys, e: Step)
    requires Inv(s) && Enabled(s, e) && !Panics(s, e)
    ensures Inv(Do(s, e))
  {
    hide Inv, Do, Alloc3, FreeChain, Interpret;
    InvSizes(s);
    match e
    case Enter(_, _, _, _) => EnterInv(s, e);
    case Start(_) => if Alloc3(s.v).1.None? { NapInv(s, e); } else { PostInv(s, e); }
    case Fetch => FetchInv(s, e);
    case Finish(_, _) => FinishInv(s, e);
    case Interrupt => InterruptInv(s, e);
    case Doze(_) => DozeInv(s, e);
    case Leave(_) => LeaveInv(s, e);
    case Stir(_) => StirInv(s, e);
  }

  lemma InvSizes(s: Sys)
    requires Inv(s)
    ensures Sizes(s)
  {
  }

  /** The one panic there is: the device gave up on the request the interrupt handler is about to report. */
  lemma PanicsIff(s: Sys, e: Step)
    requires Inv(s) && Enabled(s, e)
    ensures Panics(s, e) <==>
            && e.Interrupt? && s.finished != [] && s.finished[0] < NUM && s.v.info[s.finished[0]].status != 0
  {
    hide FreeCleared, NumFree, Partition, Chains, OneEach, Gots, NoLostNap, NoLostDoze, Rings, Heads, FreeChain,
         Interpret;
    match e
    case Finish(h, _) => var _ := ReadsRequest(s, h);
    case Interrupt => var _ := ReportedRequest(s);
    case Leave(p) => LeaveChain(s, p);
    case _ =>
  }

  /** No error waits to be reported. */
  predicate Clean(s: Sys)
    requires Sizes(s)
  {
    forall h :: h in s.finished && h < NUM ==> s.v.info[h].status == 0
  }

  lemma CleanStep(s: Sys, e: Step)
    requires Inv(s) && Clean(s) && Enabled(s, e) && (e.Finish? ==> e.status == 0)
    ensures !Panics(s, e) && Sizes(Do(s, e)) && Clean(Do(s, e))
  {
    hide Inv, Panics, Alloc3, Woken, WokenAt;
    InvSizes(s);
    PanicsIff(s, e);
    StepInv(s, e);
    InvSizes(Do(s, e));
    match e
    case Start(_) => CleanPost(s, e);
    case Finish(h, _) => var _ := ReadsRequest(s, h);
    case Interrupt => var _ := ReportedRequest(s);
    case _ =>
  }

  lemma CleanPost(s: Sys, e: Step)
    requires Inv(s) && Clean(s) && e.Start? && Enabled(s, e)
    ensures Sizes(Do(s, e)) && Clean(Do(s, e))
  {
    hide FreeCleared, NumFree, Partition, Chains, OneEach, Gots, NoLostNap, NoLostDoze, Rings, Heads, Alloc3, Woken;
    Alloc3Correct(s.v);
    if Alloc3(s.v).1.Some? { NotLive(s, Alloc3(s.v).1.value.0); }
  }

  predicate IsRun(s: Sys, es: seq<Step>, s': Sys)
    decreases |es|
  {
    Sizes(s)
    && if es == [] then s' == s
       else Enabled(s, es[0]) && !Panics(s, es[0]) && IsRun(Do(s, es[0]), es[1..], s')
  }

  lemma ChainOwned(s: Sys, p: Pid, i: nat)
    requires Inv(s) && InChain(s.threads[p], i)
    ensures i < NUM && s.owner[i] == Some(p)
  {
    hide FreeCleared, NumFree, OneEach, Gots, NoLostNap, NoLostDoze, Rings, Heads, Partition, Chains;
    ChainAt(s.v.desc, s.v.ops, s.v.info, s.owner, s.threads, p);
  }

  /** The descriptors that are not free are those in the chain of a waiting process, each in exactly one. */
  lemma DescriptorsConserved(s: Sys, i: nat)
    requires Inv(s) && i < NUM
    ensures !s.v.free[i] <==> exists p: Pid :: InChain(s.threads[p], i)
    ensures forall p: Pid, q: Pid :: InChain(s.threads[p], i) && InChain(s.threads[q], i) ==> p == q
  {
    hide FreeCleared, NumFree, OneEach, Gots, NoLostNap, NoLostDoze, Rings, Heads, Chains;
    if s.owner[i].Some? { assert InChain(s.threads[s.owner[i].value], i); }
    forall p: Pid | InChain(s.threads[p], i)
      ensures s.owner[i] == Some(p)
    {
      ChainOwned(s, p, i);
    }
  }

  /** Main result on the descriptors: after every interleaving the invariant holds, and the descriptors that are
      not free are those in the chains of the waiting processes. */
  lemma {:induction false} InvOverRuns(s: Sys, es: seq<Step>, s': Sys)
    requires Inv(s) && IsRun(s, es, s')
    ensures Inv(s') && Sizes(s')
    ensures forall i :: 0 <= i < NUM ==> (!s'.v.free[i] <==> exists p: Pid :: InChain(s'.threads[p], i))
    decreases |es|
  {
    hide Inv, Do;
    InvSizes(s);
    if es == [] {
      forall i | 0 <= i < NUM
        ensures !s.v.free[i] <==> exists p: Pid :: InChain(s.threads[p], i)
      {
        DescriptorsConserved(s, i);
      }
    } else {
      StepInv(s, es[0]);
      InvOverRuns(Do(s, es[0]), es[1..], s');
    }
  }

  predicate NoErrors(es: seq<Step>) {
    forall k :: 0 <= k < |es| && es[k].Finish? ==> es[k].status == 0
  }

  /** With a device that reports no error, nothing in virtio_disk.c panics, whatever the interleaving. */
  lemma {:induction false} NeverPanics(s: Sys, es: seq<Step>, s': Sys, e: Step)
    requires Inv(s) && Clean(s) && IsRun(s, es, s') && NoErrors(es) && Sizes(s') && Enabled(s', e)
    requires e.Finish? ==> e.status == 0
    ensures !Panics(s', e)
    decreases |es|
  {
    hide Inv, Do, Panics, Enabled, Clean;
    InvSizes(s);
    if es == [] {
      CleanStep(s, e);
    } else {
      StepInv(s, es[0]);
      assert es[0].Finish? ==> es[0].status == 0;
      CleanStep(s, es[0]);
      NeverPanics(Do(s, es[0]), es[1..], s', e);
    }
  }

  /** When virtio_disk_rw returns, the device has made exactly one transfer for it: between its buffer and the
      bytes of its block, in the direction asked for. */
  lemma TransfersOnce(s: Sys, p: Pid)
    requires Inv(s) && Enabled(s, Leave(p))
    ensures var t := s.threads[p]; s.got[p] == [Wanted(t)]
    ensures var t := s.threads[p];
            t.block <= 0x7fff_ffff ==> s.got[p] == [Request(t.block * 1024, 1024, t.b, t.write)]
  {
    hide FreeCleared, NumFree, OneEach, NoLostNap, NoLostDoze, Rings, Heads, Partition, Chains;
    assert GotOk(s.v.info, s.finished, s.disk, s.threads[p], s.got[p]);
  }

  /** Nobody sleeps for descriptors while alloc3_desc would succeed. */
  lemma SleepersCannotStart(s: Sys, p: Pid)
    requires Inv(s) && s.threads[p].Napping?
    ensures Alloc3(s.v) == (s.v, None)
  {
    hide Partition, Chains, OneEach, Gots, Rings, Heads, Alloc3;
    Alloc3Correct(s.v);
  }

  /** Nobody sleeps on a buffer whose request was reported done: the wakeup is not lost. */
  lemma DozersWait(s: Sys, p: Pid)
    requires Inv(s) && s.threads[p].Await? && s.threads[p].asleep
    ensures s.threads[p].b < BufferCache.NBUF && s.disk[s.threads[p].b]
    ensures InFlight(s.offered, s.taken, s.finished, s.threads[p].i0)
  {
    hide FreeCleared, NumFree, Rings, Gots, NoLostNap, Chains, Partition;
    ChainAt(s.v.desc, s.v.ops, s.v.info, s.owner, s.threads, p);
    assert Live(s.owner, s.threads, s.disk, s.threads[p].i0);
  }

  /** What virtio_disk_init leaves. */
  function Boot(v: Vq, disk: seq<bool>): Sys {
    Sys(v, seq(NPROC, _ => Out), disk, 0, 0, [], {}, [], seq(NUM, _ => None), seq(NPROC, _ => []))
  }

  lemma BootInv(v: Vq, disk: seq<bool>)
    requires Wf(v) && |disk| == BufferCache.NBUF && v.availIdx == v.usedIdx == v.seenIdx == 0
    requires forall i :: 0 <= i < NUM ==> v.free[i] && v.desc[i] == CLEARED
    ensures Inv(Boot(v, disk)) && Clean(Boot(v, disk))
  {
    hide NumFree;
  }

  // ----- the interrupt handler as a whole -----

  /** The whole of virtio_disk_intr: every used entry in turn. */
  function Reap(v: Vq, disk: seq<bool>): Option<(Vq, seq<bool>)>
    requires Wf(v) && v.usedIdx < WRAP && v.seenIdx < WRAP
    decreases (v.usedIdx + WRAP - v.seenIdx) % WRAP
  {
    if v.seenIdx == v.usedIdx then Some((v, disk))
    else
      var r := ReapOne(v, disk);
      if r.None? then None else ReapLeft(v); Reap(r.value.0, r.value.1)
  }

  lemma ReapLeft(v: Vq)
    requires v.usedIdx < WRAP && v.seenIdx < WRAP && v.seenIdx != v.usedIdx
    ensures (v.usedIdx + WRAP - (v.seenIdx + 1) % WRAP) % WRAP < (v.usedIdx + WRAP - v.seenIdx) % WRAP
  {
  }
}
