/** virtio_disk.c's descriptor code on the driver's own arrays, each method against its function in Virtqueue. */
module VirtioDriver {
  import opened Options
  import opened Bytes
  import opened V = Virtqueue
  import BufferCache

  class VirtioDisk {
    const free: array<bool>
    const desc: array<Desc>
    const ops: array<Op>
    const info: array<Info>
    const ring: array<nat>
    const usedRing: array<nat>
    const disk: array<bool>
    var availIdx: nat
    var usedIdx: nat
    var seenIdx: nat

    ghost predicate Valid()
      reads this
    {
      && free.Length == desc.Length == ops.Length == info.Length == ring.Length == usedRing.Length == NUM
      && disk.Length == BufferCache.NBUF && free != disk && ring != usedRing
      && availIdx < WRAP && usedIdx < WRAP && seenIdx < WRAP
    }

    ghost function Snap(): (v: Vq)
      requires Valid()
      reads this, free, desc, ops, info, ring, usedRing
      ensures Wf(v)
    {
      Vq(free[..], desc[..], ops[..], info[..], ring[..], availIdx, usedRing[..], usedIdx, seenIdx)
    }

    /** virtio_disk_init, after the device is set up. */
    constructor ()
      ensures Valid() && fresh(free) && fresh(desc) && fresh(disk)
      ensures forall i :: 0 <= i < NUM ==> Snap().free[i] && Snap().desc[i] == CLEARED
      ensures Snap().availIdx == Snap().usedIdx == Snap().seenIdx == 0
    {
      free := new bool[NUM](_ => true);
      desc := new Desc[NUM](_ => CLEARED);
      ops := new Op[NUM](_ => Op(false, 0));
      info := new Info[NUM](_ => Info(None, 0));
      ring := new nat[NUM](_ => 0);
      usedRing := new nat[NUM](_ => 0);
      disk := new bool[BufferCache.NBUF](_ => false);
      availIdx, usedIdx, seenIdx := 0, 0, 0;
    }

    method AllocDesc() returns (r: int)
      requires Valid()
      modifies free
      ensures Valid() && (Snap(), r) == V.AllocDesc(old(Snap()))
    {
      var i := 0;
      while i < NUM
        invariant 0 <= i <= NUM && free[..] == old(free[..])
        invariant FirstFree(old(free[..]), i) == FirstFree(old(free[..]), 0)
      {
        if free[i] {
          free[i] := false;
          assert free[..] == old(free[..])[i := false];
          return i;
        }
        i := i + 1;
      }
      return -1;
    }

    /** False is a panic. */
    method FreeDesc(i: nat) returns (ok: bool)
      requires Valid()
      modifies free, desc
      ensures Valid()
      ensures var r := V.FreeDesc(old(Snap()), i); ok == r.Some? && (ok ==> Snap() == r.value)
    {
      if i >= NUM || free[i] {
        return false;
      }
      desc[i] := CLEARED;
      free[i] := true;
      assert free[..] == old(free[..])[i := true] && desc[..] == old(desc[..])[i := CLEARED];
      return true;
    }

    method FreeChain(first: nat) returns (ok: bool)
      requires Valid()
      modifies free, desc
      ensures Valid()
      ensures var r := V.FreeChain(old(Snap()), first); ok == r.Some? && (ok ==> Snap() == r.value)
    {
      var i: nat, more := first, true;
      ok := true;
      while more
        invariant Valid()
        invariant more ==> V.FreeChain(Snap(), i) == V.FreeChain(old(Snap()), first)
        invariant !more ==> V.FreeChain(old(Snap()), first) == Some(Snap())
        decreases NUM - NumFree(free[..], NUM), more
      {
        if i >= NUM {
          return false;
        }
        var d := desc[i];
        ghost var v := Snap();
        ok := FreeDesc(i);
        if !ok {
          return;
        }
        NumFreeSet(v.free, NUM, i, true);
        if d.chained { i := d.next; } else { more := false; }
      }
    }

    /** idx holds the descriptors obtained so far; on failure they are freed again. */
    method Alloc3Desc() returns (ok: bool, idx: seq<nat>)
      requires Valid()
      modifies free, desc
      ensures Valid()
      ensures var (v, r) := Alloc3(old(Snap()));
              Snap() == v && ok == r.Some? && (ok ==> |idx| == 3 && r.value == (idx[0], idx[1], idx[2]))
    {
      ghost var v := Snap();
      idx := [];
      while |idx| < 3
        invariant Valid() && |idx| <= 3
        invariant |idx| == 0 ==> Snap() == v
        invariant |idx| > 0 ==> V.AllocDesc(v).1 == idx[0] && (|idx| == 1 ==> Snap() == V.AllocDesc(v).0)
        invariant |idx| > 1 ==> V.AllocDesc(V.AllocDesc(v).0).1 == idx[1]
        invariant |idx| == 2 ==> Snap() == V.AllocDesc(V.AllocDesc(v).0).0
        invariant |idx| == 3 ==> Alloc3(v) == (Snap(), Some((idx[0], idx[1], idx[2])))
      {
        var x := AllocDesc();
        if x < 0 {
          ghost var taken := Snap();
          var j := 0;
          while j < |idx|
            invariant Valid() && 0 <= j <= |idx| && (forall i :: j <= i < |idx| ==> !free[idx[i]])
            invariant j == 0 ==> Snap() == taken
            invariant j == 1 ==> !taken.free[idx[0]] && Snap() == Give(taken, idx[0])
            invariant j == 2 ==> Snap() == Alloc3(v).0
          {
            var _ := FreeDesc(idx[j]);
            j := j + 1;
          }
          return false, idx;
        }
        idx := idx + [x];
      }
      return true, idx;
    }

    /** virtio_disk_rw from the allocation to the notification of the device. */
    method Post(b: nat, block: nat, write: bool, i0: nat, i1: nat, i2: nat)
      requires Valid() && b < BufferCache.NBUF && i0 < NUM && i1 < NUM && i2 < NUM
      modifies this, desc, ops, info, ring, disk
      ensures Valid() && Snap() == V.Post(old(Snap()), b, block, write, i0, i1, i2)
      ensures disk[..] == old(disk[..])[b := true]
    {
      ops[i0] := Op(write, Sector(block));
      desc[i0] := Desc(Header(i0), HEADER_LEN, false, true, i1);
      desc[i1] := Desc(Data(b), BSIZE, !write, true, i2);
      desc[i2] := Desc(Status(i0), 1, true, false, 0);
      info[i0] := Info(Some(b), 0xff);
      disk[b] := true;
      ring[availIdx % NUM] := i0;
      availIdx := (availIdx + 1) % WRAP;
    }

    /** virtio_disk_intr; false is a panic. */
    method Interrupt() returns (ok: bool)
      requires Valid()
      modifies this`seenIdx, disk
      ensures Valid()
      ensures var r := Reap(old(Snap()), old(disk[..])); ok == r.Some? && (ok ==> (Snap(), disk[..]) == r.value)
    {
      while seenIdx != usedIdx
        invariant Valid() && Reap(Snap(), disk[..]) == Reap(old(Snap()), old(disk[..]))
        decreases (usedIdx + WRAP - seenIdx) % WRAP
      {
        ghost var v, d := Snap(), disk[..];
        var id := usedRing[seenIdx % NUM];
        if id >= NUM || info[id].status != 0 || info[id].b.None? || info[id].b.value >= disk.Length {
          return false;
        }
        disk[info[id].b.value] := false;
        seenIdx := (seenIdx + 1) % WRAP;
        assert ReapOne(v, d) == Some((Snap(), disk[..]));
        ReapLeft(v);
      }
      return true;
    }
  }
}
