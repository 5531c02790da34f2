/** The pending disk requests: a linked list with FCFS or SSTF removal. */
module DiskQueue {

  datatype Policy = Fcfs | Sstf

  /** What the scheduler looks at: the block, and the level of the requesting process (3 if none). */
  datatype Key = Key(block: int, level: int)

  /** Block numbers and head positions are non-negative ints. */
  predicate BlockOk(b: int) {
    0 <= b <= 0x7fff_ffff
  }

  function Seek(head: int, k: Key): int {
    if k.block - head < 0 then head - k.block else k.block - head
  }

  /** The SSTF scan from position i, with the candidate `sel` and its distance so far. */
  function ScanFrom(q: seq<Key>, head: int, i: nat, sel: nat, minDist: int): (r: nat)
    requires sel < |q| && i <= |q|
    ensures r < |q|
    decreases |q| - i
  {
    if i == |q| then sel
    else
      var dist := Seek(head, q[i]);
      if dist < minDist || (dist == minDist && q[i].level < q[sel].level)
      then ScanFrom(q, head, i + 1, i, dist)
      else ScanFrom(q, head, i + 1, sel, minDist)
  }

  /** The position dequeued. */
  function Select(q: seq<Key>, policy: Policy, head: int): (r: nat)
    requires q != []
    ensures r < |q|
  {
    if policy == Sstf then ScanFrom(q, head, 0, 0, 0x7fff_ffff) else 0
  }

  function Without<T>(q: seq<T>, k: nat): seq<T>
    requires k < |q|
  {
    q[..k] + q[k + 1..]
  }

  /** Request a is served before request b by SSTF, positions aside: nearer, or as near and of a lower
      level number. */
  predicate Better(head: int, a: Key, b: Key) {
    Seek(head, a) < Seek(head, b) || (Seek(head, a) == Seek(head, b) && a.level < b.level)
  }

  /** r is the earliest of the best among the first n. */
  predicate EarliestBest(q: seq<Key>, head: int, n: nat, r: nat)
    requires n <= |q|
  {
    r < n
    && (forall j :: 0 <= j < n ==> !Better(head, q[j], q[r]))
    && (forall j :: 0 <= j < r ==> Better(head, q[r], q[j]))
  }

  lemma {:induction false} ScanBest(q: seq<Key>, head: int, i: nat, sel: nat)
    requires 0 < i <= |q| && EarliestBest(q, head, i, sel)
    ensures EarliestBest(q, head, |q|, ScanFrom(q, head, i, sel, Seek(head, q[sel])))
    decreases |q| - i
  {
    if i < |q| {
      var sel' := if Better(head, q[i], q[sel]) then i else sel;
      assert EarliestBest(q, head, i + 1, sel');
      ScanBest(q, head, i + 1, sel');
    }
  }

  /** SSTF takes the earliest queued among the requests with the least (seek distance, level), for every
      queue of int block numbers; FCFS takes the head of the queue. */
  lemma SelectCorrect(q: seq<Key>, policy: Policy, head: int)
    requires q != [] && BlockOk(head) && forall j :: 0 <= j < |q| ==> BlockOk(q[j].block)
    ensures policy == Fcfs ==> Select(q, policy, head) == 0
    ensures policy == Sstf ==> EarliestBest(q, head, |q|, Select(q, policy, head))
  {
    if policy == Sstf {
      assert EarliestBest(q, head, 1, 0);
      ScanBest(q, head, 1, 0);
      assert ScanFrom(q, head, 0, 0, 0x7fff_ffff) == ScanFrom(q, head, 1, 0, Seek(head, q[0]));
    }
  }

  /** The earliest best is one request. */
  lemma EarliestBestUnique(q: seq<Key>, head: int, a: nat, b: nat)
    requires EarliestBest(q, head, |q|, a) && EarliestBest(q, head, |q|, b)
    ensures a == b
  {
    assert !Better(head, q[a], q[b]) && !Better(head, q[b], q[a]);
  }

  // ----- the linked list -----

  class Request {
    var key: Key
    var next: Request?

    constructor (k: Key)
      ensures key == k && next == null
    {
      key, next := k, null;
    }
  }

  function Keys(chain: seq<Request>): (ks: seq<Key>)
    reads chain
    ensures |ks| == |chain| && forall i :: 0 <= i < |chain| ==> ks[i] == chain[i].key
  {
    seq(|chain|, i requires 0 <= i < |chain| reads chain => chain[i].key)
  }

  /** The request at position i, null past the end. */
  function Nth(chain: seq<Request>, i: nat): Request? {
    if i < |chain| then chain[i] else null
  }

  class Queue {
    var head: Request?
    ghost var chain: seq<Request>

    ghost predicate Valid()
      reads this, chain
    {
      && (forall i, j :: 0 <= i < |chain| && 0 <= j < |chain| && chain[i] == chain[j] ==> i == j)
      && head == Nth(chain, 0)
      && (forall i {:trigger chain[i].next} :: 0 <= i < |chain| ==> chain[i].next == Nth(chain, i + 1))
    }

    constructor ()
      ensures Valid() && chain == []
    {
      head, chain := null, [];
    }

    /** enqueue_disk_request_locked. */
    method Enqueue(req: Request)
      requires Valid() && req !in chain
      modifies this, chain, req`next
      ensures Valid() && chain == old(chain) + [req]
      ensures forall r :: r in chain ==> r.key == old(r.key)
    {
      req.next := null;
      if head == null {
        head := req;
      } else {
        var cur := head;
        ghost var i := 0;
        while cur.next != null
          invariant 0 <= i < |chain| && cur == chain[i]
          invariant Valid()
          decreases |chain| - i
        {
          cur := cur.next;
          i := i + 1;
        }
        cur.next := req;
      }
      chain := chain + [req];
    }

    /** dequeue_disk_request_locked. */
    method Dequeue(policy: Policy, position: int) returns (r: Request?)
      requires Valid()
      modifies this, chain
      ensures Valid()
      ensures old(chain) == [] ==> r == null && chain == []
      ensures old(chain) != [] ==>
                var k := Select(old(Keys(chain)), policy, position);
                r == old(chain)[k] && r.next == null && chain == Without(old(chain), k)
      ensures forall x :: x in old(chain) ==> x.key == old(x.key)
    {
      hide Select;
      if head == null {
        return null;
      }
      var prev: Request?;
      ghost var k;
      r, prev, k := Choose(policy, position);
      Unlink(r, prev, k);
    }

    /** Take the request at position k, whose predecessor is prev, out of the list. */
    method Unlink(r: Request, prev: Request?, ghost k: nat)
      requires Valid() && k < |chain| && r == chain[k] && prev == if k == 0 then null else chain[k - 1]
      modifies this, chain`next
      ensures Valid() && chain == Without(old(chain), k) && r.next == null
    {
      if prev == null {
        head := r.next;
      } else {
        prev.next := r.next;
      }
      r.next := null;
      chain := Without(chain, k);
      forall i | 0 <= i < |chain|
        ensures chain[i].next == Nth(chain, i + 1)
      {
        var j := if i < k then i else i + 1;
        assert chain[i] == old(chain)[j];
        assert old(chain[j].next) == Nth(old(chain), j + 1);
      }
    }

    /** The scan: the selected request and its predecessor. */
    method Choose(policy: Policy, position: int) returns (sel: Request, selPrev: Request?, ghost k: nat)
      requires Valid() && head != null
      ensures k == Select(Keys(chain), policy, position) && k < |chain| && sel == chain[k]
      ensures selPrev == if k == 0 then null else chain[k - 1]
    {
      sel, selPrev, k := head, null, 0;
      if policy == Sstf {
        var cur := head;
        var prev: Request? := null;
        var minDist := 0x7fff_ffff;
        ghost var i := 0;
        ghost var keys := Keys(chain);
        while cur != null
          invariant 0 <= i <= |chain| && k < |chain|
          invariant cur == Nth(chain, i)
          invariant prev == (if i == 0 then null else chain[i - 1])
          invariant sel == chain[k] && selPrev == (if k == 0 then null else chain[k - 1])
          invariant ScanFrom(keys, position, 0, 0, 0x7fff_ffff) == ScanFrom(keys, position, i, k, minDist)
          decreases |chain| - i
        {
          var dist := cur.key.block - position;
          if dist < 0 {
            dist := -dist;
          }
          if dist < minDist || (dist == minDist && cur.key.level < sel.key.level) {
            minDist := dist;
            sel, selPrev, k := cur, prev, i;
          }
          prev := cur;
          cur := cur.next;
          i := i + 1;
        }
      }
    }
  }
}
