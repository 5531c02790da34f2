/** The buffer cache: lookup, recycling and the circular list kept in order of last release. */
module BufferCache {
  import opened Options
  import opened Frames
  import opened Bytes

  const NBUF: nat := 30

  // `dirty` marks data that differs from what was last read or written; the source has no such field.
  datatype Buf = Buf(dev: nat, block: nat, valid: bool, refcnt: nat, lock: Option<Pid>, data: Block, dirty: bool)

  // `order` lists the buffers from head.next to head.prev.
  datatype Cache = Cache(bufs: seq<Buf>, order: seq<nat>)

  predicate Shape(c: Cache) {
    && |c.bufs| == NBUF && |c.order| == NBUF
    && (forall i :: 0 <= i < NBUF ==> c.order[i] < NBUF)
    && (forall i, j :: 0 <= i < NBUF && 0 <= j < NBUF && c.order[i] == c.order[j] ==> i == j)
  }

  predicate Caches(b: Buf, dev: nat, block: nat) {
    b.dev == dev && b.block == block
  }

  /** The first position from i on that caches the block, or -1. */
  function FindHit(c: Cache, dev: nat, block: nat, i: nat): (r: int)
    requires Shape(c) && i <= NBUF
    ensures r == -1 || i <= r < NBUF
    ensures r == -1 ==> forall k :: i <= k < NBUF ==> !Caches(c.bufs[c.order[k]], dev, block)
    ensures r != -1 ==>
            && Caches(c.bufs[c.order[r]], dev, block)
            && forall k :: i <= k < r ==> !Caches(c.bufs[c.order[k]], dev, block)
    decreases |c.order| - i
  {
    if i == NBUF then -1 else if Caches(c.bufs[c.order[i]], dev, block) then i else FindHit(c, dev, block, i + 1)
  }

  /** The last position before n with no references, or -1. */
  function FindUnused(c: Cache, n: nat): (r: int)
    requires Shape(c) && n <= NBUF
    ensures r == -1 || 0 <= r < n
    ensures r == -1 ==> forall k :: 0 <= k < n ==> c.bufs[c.order[k]].refcnt > 0
    ensures r != -1 ==> c.bufs[c.order[r]].refcnt == 0 && forall k :: r < k < n ==> c.bufs[c.order[k]].refcnt > 0
  {
    if n == 0 then -1 else if c.bufs[c.order[n - 1]].refcnt == 0 then n - 1 else FindUnused(c, n - 1)
  }

  function SetBuf(c: Cache, b: nat, x: Buf): Cache
    requires b < |c.bufs|
  {
    c.(bufs := c.bufs[b := x])
  }

  /** The list half of bget: a hit takes a reference, a miss recycles; None is the panic "no buffers". */
  function Bget(c: Cache, dev: nat, block: nat): (Cache, Option<nat>)
    requires Shape(c)
  {
    var h := FindHit(c, dev, block, 0);
    if h != -1 then
      var b := c.order[h];
      (SetBuf(c, b, c.bufs[b].(refcnt := c.bufs[b].refcnt + 1)), Some(b))
    else
      var u := FindUnused(c, NBUF);
      if u == -1 then (c, None)
      else
        var b := c.order[u];
        (SetBuf(c, b, c.bufs[b].(dev := dev, block := block, valid := false, refcnt := 1, dirty := false)), Some(b))
  }

  function Drop<T(==)>(s: seq<T>, x: T): seq<T> {
    if s == [] then [] else if s[0] == x then s[1..] else [s[0]] + Drop(s[1..], x)
  }

  /** The second half of brelse: give the reference up; the last one moves the buffer to the front. */
  function Unref(c: Cache, b: nat): Cache
    requires b < |c.bufs| && c.bufs[b].refcnt > 0
  {
    var x := c.bufs[b].(refcnt := c.bufs[b].refcnt - 1);
    var c1 := SetBuf(c, b, x);
    if x.refcnt == 0 then c1.(order := [b] + Drop(c.order, b)) else c1
  }

  // ----- order of release -----

  /** The position of the last move of b to the front. */
  function LastMove(moves: seq<nat>, b: nat): int {
    if moves == [] then -1 else if moves[|moves| - 1] == b then |moves| - 1 else LastMove(moves[..|moves| - 1], b)
  }

  /** The list holds every buffer once, most recently moved first. */
  predicate InOrder(order: seq<nat>, moves: seq<nat>) {
    forall i, j :: 0 <= i < j < |order| ==> LastMove(moves, order[i]) > LastMove(moves, order[j])
  }

  lemma {:induction false} DropLaws(s: seq<nat>, x: nat)
    requires x in s && forall i, j :: 0 <= i < |s| && 0 <= j < |s| && s[i] == s[j] ==> i == j
    ensures var d := Drop(s, x);
            && |d| == |s| - 1 && x !in d
            && (forall y :: y in s && y != x ==> y in d)
            && (forall y :: y in d ==> y in s)
            && (forall i, j :: 0 <= i < |d| && 0 <= j < |d| && d[i] == d[j] ==> i == j)
  {
    var rest := s[1..];
    assert forall i :: 0 <= i < |rest| ==> rest[i] == s[i + 1];
    assert s[0] !in rest;
    assert forall y :: y in s <==> y == s[0] || y in rest;
    if s[0] != x {
      DropLaws(rest, x);
      var d := Drop(rest, x);
      assert s[0] !in d;
      assert Drop(s, x) == [s[0]] + d;
      assert forall y :: y in [s[0]] + d <==> y == s[0] || y in d;
    }
  }

  lemma {:induction false} DropInOrder(s: seq<nat>, x: nat, moves: seq<nat>)
    requires InOrder(s, moves)
    ensures InOrder(Drop(s, x), moves) && forall y :: y in Drop(s, x) ==> y in s
  {
    hide LastMove;
    if s != [] {
      var rest := s[1..];
      assert forall i :: 0 <= i < |rest| ==> rest[i] == s[i + 1];
      if s[0] != x {
        DropInOrder(rest, x, moves);
        var d := Drop(rest, x);
        forall j | 0 <= j < |d|
          ensures LastMove(moves, s[0]) > LastMove(moves, d[j])
        {
          assert d[j] in rest;
          var k :| 0 <= k < |rest| && rest[k] == d[j];
          assert LastMove(moves, s[0]) > LastMove(moves, s[k + 1]);
        }
        assert Drop(s, x) == [s[0]] + d;
      }
    }
  }

  lemma LastMoveAfter(moves: seq<nat>, b: nat, y: nat)
    ensures LastMove(moves + [b], y) == if y == b then |moves| else LastMove(moves, y)
    ensures LastMove(moves, y) < |moves|
  {
    assert (moves + [b])[..|moves|] == moves;
    LastMoveBound(moves, y);
  }

  lemma {:induction false} LastMoveBound(moves: seq<nat>, y: nat)
    ensures LastMove(moves, y) < |moves|
  {
    if moves != [] { LastMoveBound(moves[..|moves| - 1], y); }
  }

  /** Releasing keeps the list a list of all buffers in order of last move. */
  lemma UnrefOrder(c: Cache, b: nat, moves: seq<nat>)
    requires Shape(c) && InOrder(c.order, moves) && b in c.order && c.bufs[b].refcnt > 0
    ensures var c' := Unref(c, b);
            && Shape(c')
            && InOrder(c'.order, if c.bufs[b].refcnt == 1 then moves + [b] else moves)
            && forall y :: y in c.order <==> y in c'.order
  {
    hide LastMove, Drop;
    UnrefShape(c, b);
    if c.bufs[b].refcnt == 1 {
      FrontInOrder(c.order, b, moves);
    }
  }

  lemma UnrefShape(c: Cache, b: nat)
    requires Shape(c) && b in c.order && c.bufs[b].refcnt > 0
    ensures Shape(Unref(c, b)) && forall y :: y in c.order <==> y in Unref(c, b).order
  {
    hide Drop;
    if c.bufs[b].refcnt == 1 {
      FrontShape(c.order, b);
      var o := [b] + Drop(c.order, b);
      assert forall i :: 0 <= i < |o| ==> o[i] in o && o[i] in c.order;
    }
  }

  lemma FrontShape(order: seq<nat>, b: nat)
    requires b in order && forall i, j :: 0 <= i < |order| && 0 <= j < |order| && order[i] == order[j] ==> i == j
    ensures var o := [b] + Drop(order, b);
            && |o| == |order| && (forall y :: y in order <==> y in o)
            && (forall i, j :: 0 <= i < |o| && 0 <= j < |o| && o[i] == o[j] ==> i == j)
  {
    hide Drop;
    DropLaws(order, b);
    var d := Drop(order, b);
    var o := [b] + d;
    assert forall y :: y in o <==> y == b || y in d;
    forall i, j | 0 <= i < |o| && 0 <= j < |o| && o[i] == o[j]
      ensures i == j
    {
      if i > 0 { assert o[i] == d[i - 1] && o[i] in d; }
      if j > 0 { assert o[j] == d[j - 1] && o[j] in d; }
    }
  }

  lemma FrontInOrder(order: seq<nat>, b: nat, moves: seq<nat>)
    requires InOrder(order, moves) && b in order
    requires forall i, j :: 0 <= i < |order| && 0 <= j < |order| && order[i] == order[j] ==> i == j
    ensures InOrder([b] + Drop(order, b), moves + [b])
  {
    hide LastMove, Drop;
    DropLaws(order, b);
    DropInOrder(order, b, moves);
    var d := Drop(order, b);
    var o := [b] + d;
    forall i, j | 0 <= i < j < |o|
      ensures LastMove(moves + [b], o[i]) > LastMove(moves + [b], o[j])
    {
      LastMoveAfter(moves, b, o[i]);
      LastMoveAfter(moves, b, o[j]);
      assert o[j] == d[j - 1] && o[j] in d;
      if i > 0 { assert o[i] == d[i - 1] && o[i] in d; }
    }
  }

  /** Recycling takes the unreferenced buffer that was moved to the front the longest ago. */
  lemma RecyclesOldest(c: Cache, dev: nat, block: nat, moves: seq<nat>)
    requires Shape(c) && InOrder(c.order, moves) && FindHit(c, dev, block, 0) == -1
    ensures var (c', r) := Bget(c, dev, block);
            if r.None? then forall k :: 0 <= k < NBUF ==> c.bufs[c.order[k]].refcnt > 0
            else
              && r.value < NBUF && c.bufs[r.value].refcnt == 0
              && (forall k :: 0 <= k < NBUF && c.order[k] != r.value && c.bufs[c.order[k]].refcnt == 0 ==>
                    LastMove(moves, r.value) < LastMove(moves, c.order[k]))
  {
  }

  // ----- the circular list -----

  class Buffer {
    var dev: nat
    var blockno: nat
    var valid: bool
    var refcnt: nat
    var prev: Buffer?
    var next: Buffer?

    constructor ()
      ensures dev == 0 && blockno == 0 && !valid && refcnt == 0
    {
      dev, blockno, valid, refcnt, prev, next := 0, 0, false, 0, null, null;
    }
  }

  /** The sentinel at both ends of a list of buffers. */
  function Around(h: Buffer, order: seq<Buffer>): (r: seq<Buffer>)
    ensures |r| == |order| + 2 && r[0] == h && r[|order| + 1] == h
    ensures forall i :: 0 <= i < |order| ==> r[i + 1] == order[i]
    ensures forall i :: 0 <= i < |r| ==> r[i] == h || (0 < i <= |order| && r[i] == order[i - 1])
  {
    [h] + order + [h]
  }

  /** Around a list with the element at k taken out, position i. */
  lemma RingBefore(h: Buffer, order: seq<Buffer>, k: nat, i: nat)
    requires k < |order| && i <= k
    ensures Around(h, order[..k] + order[k + 1..])[i] == Around(h, order)[i]
  {
    hide Around;
    var d := order[..k] + order[k + 1..];
    if i > 0 { assert Around(h, d)[(i - 1) + 1] == d[i - 1] == order[i - 1] == Around(h, order)[(i - 1) + 1]; }
  }

  lemma RingAfter(h: Buffer, order: seq<Buffer>, k: nat, i: nat)
    requires k < |order| && k < i <= |order|
    ensures Around(h, order[..k] + order[k + 1..])[i] == Around(h, order)[i + 1]
  {
    hide Around;
    var d := order[..k] + order[k + 1..];
    if i < |order| { assert Around(h, d)[(i - 1) + 1] == d[i - 1] == order[i] == Around(h, order)[i + 1]; }
  }

  lemma RingWithout(h: Buffer, order: seq<Buffer>, k: nat)
    requires k < |order|
    ensures var r, r' := Around(h, order), Around(h, order[..k] + order[k + 1..]);
            (forall i :: 0 <= i <= k ==> r'[i] == r[i]) && (forall i :: k < i < |r'| ==> r'[i] == r[i + 1])
  {
    hide Around;
    var r, r' := Around(h, order), Around(h, order[..k] + order[k + 1..]);
    forall i | 0 <= i <= k
      ensures r'[i] == r[i]
    {
      RingBefore(h, order, k, i);
    }
    forall i | k < i < |r'|
      ensures r'[i] == r[i + 1]
    {
      RingAfter(h, order, k, i);
    }
  }

  lemma RingPush(h: Buffer, order: seq<Buffer>, b: Buffer)
    ensures var r, r' := Around(h, order), Around(h, [b] + order);
            r'[0] == h && r'[1] == b && forall i :: 1 < i < |r'| ==> r'[i] == r[i - 1]
  {
    var r, r' := Around(h, order), Around(h, [b] + order);
    forall i | 1 < i < |r'|
      ensures r'[i] == r[i - 1]
    {
      if i <= |order| + 1 { assert r'[i] == ([b] + order)[i - 1] == order[i - 2]; }
    }
  }

  lemma RingDistinct(h: Buffer, order: seq<Buffer>)
    requires h !in order && forall i, j :: 0 <= i < |order| && 0 <= j < |order| && order[i] == order[j] ==> i == j
    ensures var r := Around(h, order);
            (forall i, j :: 0 <= i < j < |r| - 1 ==> r[i] != r[j]) && (forall i, j :: 0 < i < j < |r| ==> r[i] != r[j])
  {
    var r := Around(h, order);
    assert forall i :: 0 < i < |r| - 1 ==> r[i] == order[i - 1] && r[i] in order;
  }

  ghost predicate SameBuf(b: Buffer, x: Buf)
    reads b`dev, b`blockno, b`valid, b`refcnt
  {
    b.dev == x.dev && b.blockno == x.block && b.valid == x.valid && b.refcnt == x.refcnt
  }

  lemma {:induction false} DropAt(s: seq<nat>, k: nat)
    requires k < |s| && forall i, j :: 0 <= i < |s| && 0 <= j < |s| && s[i] == s[j] ==> i == j
    ensures Drop(s, s[k]) == s[..k] + s[k + 1..]
  {
    if k > 0 {
      var rest := s[1..];
      assert forall i :: 0 <= i < |rest| ==> rest[i] == s[i + 1];
      DropAt(rest, k - 1);
      assert s[..k] + s[k + 1..] == [s[0]] + (rest[..k - 1] + rest[k..]);
    }
  }

  /** The element at k moved to the front. */
  function ToFront<T>(s: seq<T>, k: nat): (r: seq<T>)
    requires k < |s|
    ensures |r| == |s| && r[0] == s[k]
    ensures forall i :: 0 < i <= k ==> r[i] == s[i - 1]
    ensures forall i :: k < i < |s| ==> r[i] == s[i]
  {
    [s[k]] + (s[..k] + s[k + 1..])
  }

  lemma ToFrontIs<T>(s: seq<T>, k: nat)
    requires k < |s|
    ensures ToFront(s, k) == [s[k]] + (s[..k] + s[k + 1..])
  {
  }

  lemma ToFrontKeeps<T>(s: seq<T>, k: nat)
    requires k < |s|
    ensures forall x :: x in s ==> x in ToFront(s, k)
  {
    forall x | x in s
      ensures x in ToFront(s, k)
    {
      var i :| 0 <= i < |s| && s[i] == x;
      assert x == ToFront(s, k)[if i == k then 0 else if i < k then i + 1 else i];
    }
  }

  lemma TakenOut<T>(s: seq<T>, k: nat)
    requires k < |s| && forall i, j :: 0 <= i < |s| && 0 <= j < |s| && s[i] == s[j] ==> i == j
    ensures s[k] !in s[..k] + s[k + 1..] && forall x :: x in s[..k] + s[k + 1..] ==> x in s
  {
  }

  class BufList {
    const head: Buffer
    const bufs: seq<Buffer>
    ghost var order: seq<Buffer>

    /** The list with the sentinel at both ends. */
    ghost function Ring(): seq<Buffer>
      reads this
    {
      Around(head, order)
    }

    ghost predicate Valid()
      reads this, head`next, head`prev, order`next, order`prev
    {
      && head !in order
      && (forall i, j :: 0 <= i < |order| && 0 <= j < |order| && order[i] == order[j] ==> i == j)
      && Linked(Ring())
    }

    static ghost predicate Linked(r: seq<Buffer>)
      reads r`next, r`prev
    {
      && (forall i {:trigger r[i].next} :: 0 <= i < |r| - 1 ==> r[i].next == r[i + 1])
      && (forall i {:trigger r[i].prev} :: 0 < i < |r| ==> r[i].prev == r[i - 1])
    }

    /** The list and its buffers are the cache c. */
    ghost predicate Shows(c: Cache)
      reads this`order, bufs`dev, bufs`blockno, bufs`valid, bufs`refcnt
    {
      && Shape(c) && |bufs| == NBUF && |order| == NBUF
      && (forall i, j :: 0 <= i < NBUF && 0 <= j < NBUF && bufs[i] == bufs[j] ==> i == j)
      && (forall i :: 0 <= i < NBUF ==> order[i] == bufs[c.order[i]])
      && (forall i :: 0 <= i < NBUF ==> bufs[i] in order && SameBuf(bufs[i], c.bufs[i]))
    }

    lemma ShowsOrder(c: Cache)
      requires Shows(c)
      ensures forall i {:trigger order[i]} :: 0 <= i < NBUF ==> SameBuf(order[i], c.bufs[c.order[i]])
    {
    }

    /** The sentinel alone, and the buffers of bcache.buf. */
    constructor (bufs: seq<Buffer>)
      ensures Valid() && order == [] && fresh(head) && this.bufs == bufs
    {
      var h := new Buffer();
      h.prev, h.next := h, h;
      head := h;
      this.bufs := bufs;
      order := [];
    }

    /** binit and the end of brelse: b becomes the first of the list. */
    method PushFront(b: Buffer)
      requires Valid() && b !in order && b != head
      modifies this`order, head`prev, head`next, order`prev, order`next, b`prev, b`next
      ensures Valid() && order == [b] + old(order)
    {
      hide Around;
      ghost var r := Ring();
      var first := head.next;
      assert first == r[1];
      b.next := first;
      b.prev := head;
      first.prev := b;
      head.next := b;
      order := [b] + order;
      ghost var r' := Ring();
      RingPush(head, old(order), b);
      RingDistinct(head, old(order));
      forall i | 0 <= i < |r'| - 1
        ensures r'[i].next == r'[i + 1]
      {
        if i > 1 { assert old(r[i - 1].next) == r[i]; }
      }
      forall i | 0 < i < |r'|
        ensures r'[i].prev == r'[i - 1]
      {
        if i > 2 { assert old(r[i - 1].prev) == r[i - 2]; }
      }
    }

    /** Take the buffer at position k out of the list. */
    method Unlink(b: Buffer, ghost k: nat)
      requires Valid() && k < |order| && order[k] == b
      modifies this`order, head`prev, head`next, order`prev, order`next
      ensures Valid() && order == old(order)[..k] + old(order)[k + 1..]
    {
      hide Around;
      ghost var r := Ring();
      assert r[k + 1] == b && b.next == r[k + 2] && b.prev == r[k];
      b.next.prev := b.prev;
      b.prev.next := b.next;
      assert r[k].next == r[k + 2] && r[k + 2].prev == r[k];
      order := order[..k] + order[k + 1..];
      ghost var r' := Ring();
      RingWithout(head, old(order), k);
      RingDistinct(head, old(order));
      forall i | 0 <= i < |r'| - 1
        ensures r'[i].next == r'[i + 1]
      {
        if i < k {
          assert r'[i] == r[i] && r'[i + 1] == r[i + 1];
          assert r[i] != r[k] && r[i].next == r[i + 1];
        } else if i > k {
          assert r'[i] == r[i + 1] && r'[i + 1] == r[i + 2];
          assert r[i + 1] != r[k] && r[i + 1].next == r[i + 2];
        } else {
          assert r'[k] == r[k] && r'[k + 1] == r[k + 2];
        }
      }
      forall i | 0 < i < |r'|
        ensures r'[i].prev == r'[i - 1]
      {
        if i <= k {
          assert r[i] != r[k + 2] && r[i].prev == r[i - 1];
        } else if i > k + 1 {
          assert r[i + 1] != r[k + 2] && r[i + 1].prev == r[i];
        }
      }
    }

    /** Drop a reference; the last one moves b to the front. */
    method GiveBack(b: Buffer, ghost k: nat)
      requires Valid() && k < |order| && order[k] == b && b.refcnt > 0
      modifies this`order, head`prev, head`next, order
      ensures Valid() && b.refcnt == old(b.refcnt) - 1
      ensures order == if b.refcnt == 0 then ToFront(old(order), k) else old(order)
      ensures forall x :: x in old(order) && x != b ==> x.refcnt == old(x.refcnt)
      ensures forall x :: x in old(order) ==>
                x.dev == old(x.dev) && x.blockno == old(x.blockno) && x.valid == old(x.valid)
    {
      hide Around, Linked, ToFront;
      TakenOut(order, k);
      ToFrontIs(order, k);
      b.refcnt := b.refcnt - 1;
      if b.refcnt == 0 {
        Unlink(b, k);
        PushFront(b);
      }
    }

    /** The forward scan of bget. */
    method FindCached(dev: nat, blockno: nat) returns (b: Buffer?, ghost k: nat)
      requires Valid()
      ensures b == null ==> forall i :: 0 <= i < |order| ==> !(order[i].dev == dev && order[i].blockno == blockno)
      ensures b != null ==>
                && k < |order| && b == order[k] && b.dev == dev && b.blockno == blockno
                && forall i :: 0 <= i < k ==> !(order[i].dev == dev && order[i].blockno == blockno)
    {
      ghost var r := Ring();
      k := 0;
      assert head.next == r[1];
      var cur := head.next;
      while cur != head
        invariant k <= |order| && cur == r[k + 1]
        invariant forall i :: 0 <= i < k ==> !(order[i].dev == dev && order[i].blockno == blockno)
        decreases |order| - k
      {
        assert k < |order| && cur == order[k];
        if cur.dev == dev && cur.blockno == blockno {
          return cur, k;
        }
        assert r[k + 1].next == r[k + 2];
        cur := cur.next;
        k := k + 1;
      }
      assert k == |order|;
      return null, k;
    }

    /** The backward scan of bget. */
    method FindFree() returns (b: Buffer?, ghost k: nat)
      requires Valid()
      ensures b == null ==> forall i :: 0 <= i < |order| ==> order[i].refcnt > 0
      ensures b != null ==>
                && k < |order| && b == order[k] && b.refcnt == 0
                && forall i :: k < i < |order| ==> order[i].refcnt > 0
    {
      ghost var r := Ring();
      ghost var n := |order|;
      k := 0;
      assert r[n + 1].prev == r[n];
      var cur := head.prev;
      while cur != head
        invariant 0 <= n <= |order| && cur == r[n]
        invariant forall i :: n <= i < |order| ==> order[i].refcnt > 0
        decreases n
      {
        assert n > 0 && cur == order[n - 1];
        if cur.refcnt == 0 {
          k := n - 1;
          return cur, k;
        }
        assert r[n].prev == r[n - 1];
        cur := cur.prev;
        n := n - 1;
      }
      assert n == 0;
      return null, k;
    }

    /** Changing what a buffer caches does not touch the list. */
    method Assign(b: Buffer, dev: nat, blockno: nat, valid: bool, refcnt: nat)
      requires Valid() && b in order
      modifies b`dev, b`blockno, b`valid, b`refcnt
      ensures Valid()
      ensures b.dev == dev && b.blockno == blockno && b.valid == valid && b.refcnt == refcnt
    {
      hide Around, Linked;
      b.dev, b.blockno, b.valid, b.refcnt := dev, blockno, valid, refcnt;
    }

    /** bget up to its sleep lock, against Bget; null is the panic "no buffers". */
    method Get(dev: nat, blockno: nat, ghost c: Cache) returns (b: Buffer?)
      requires Valid() && Shows(c)
      modifies order`dev, order`blockno, order`valid, order`refcnt
      ensures Valid() && order == old(order)
      ensures var (c', r) := Bget(c, dev, blockno);
              Shows(c') && (b == null <==> r.None?) && (b != null ==> r.value < NBUF && b == bufs[r.value])
    {
      hide Linked, Around, FindHit, FindUnused;
      ghost var k: nat;
      b, k := FindCached(dev, blockno);
      HitIs(c, dev, blockno, b, k);
      if b != null {
        Assign(b, dev, blockno, b.valid, b.refcnt + 1);
        ShowsSet(Bget(c, dev, blockno).0, c, c.order[k]);
      } else {
        b, k := FindFree();
        UnusedIs(c, b, k);
        if b != null {
          Assign(b, dev, blockno, false, 1);
          ShowsSet(Bget(c, dev, blockno).0, c, c.order[k]);
        }
      }
    }

    lemma HitIs(c: Cache, dev: nat, blockno: nat, b: Buffer?, k: nat)
      requires Shows(c)
      requires b == null ==> forall i :: 0 <= i < |order| ==> !(order[i].dev == dev && order[i].blockno == blockno)
      requires b != null ==>
                 && k < |order| && b == order[k] && b.dev == dev && b.blockno == blockno
                 && forall i :: 0 <= i < k ==> !(order[i].dev == dev && order[i].blockno == blockno)
      ensures FindHit(c, dev, blockno, 0) == if b == null then -1 else k
    {
      hide FindHit;
      ShowsOrder(c);
      var h := FindHit(c, dev, blockno, 0);
      if h != -1 { assert SameBuf(order[h], c.bufs[c.order[h]]); }
      if b != null { assert SameBuf(order[k], c.bufs[c.order[k]]) && Caches(c.bufs[c.order[k]], dev, blockno); }
    }

    lemma UnusedIs(c: Cache, b: Buffer?, k: nat)
      requires Shows(c)
      requires b == null ==> forall i :: 0 <= i < |order| ==> order[i].refcnt > 0
      requires b != null ==>
               && k < |order| && b == order[k] && b.refcnt == 0
               && forall i :: k < i < |order| ==> order[i].refcnt > 0
      ensures FindUnused(c, NBUF) == if b == null then -1 else k
    {
      hide FindUnused;
      ShowsOrder(c);
      var u := FindUnused(c, NBUF);
      if u != -1 { assert SameBuf(order[u], c.bufs[c.order[u]]); }
      if b != null { assert SameBuf(order[k], c.bufs[c.order[k]]); }
    }

    /** Only buffer i differs between the two caches, and it is as c' says. */
    lemma ShowsSet(c': Cache, c: Cache, i: nat)
      requires Shape(c) && Shape(c') && |bufs| == |order| == NBUF && i < NBUF
      requires forall j, k :: 0 <= j < NBUF && 0 <= k < NBUF && bufs[j] == bufs[k] ==> j == k
      requires forall j :: 0 <= j < NBUF ==> bufs[j] in order
      requires forall j :: 0 <= j < NBUF ==> order[j] == bufs[c'.order[j]]
      requires SameBuf(bufs[i], c'.bufs[i])
      requires forall j :: 0 <= j < NBUF && j != i ==> c'.bufs[j] == c.bufs[j] && SameBuf(bufs[j], c.bufs[j])
      ensures Shows(c')
    {
    }

    /** brelse under bcache.lock, against Unref. */
    method Release(b: Buffer, ghost k: nat, ghost c: Cache)
      requires Valid() && Shows(c) && k < |order| && order[k] == b && b.refcnt > 0
      modifies this`order, head`prev, head`next, order
      ensures Valid() && c.order[k] < |c.bufs| && c.bufs[c.order[k]].refcnt > 0 && Shows(Unref(c, c.order[k]))
    {
      hide Linked, Around, Drop, ToFront;
      ReleaseOrder(order, c, k);
      ToFrontKeeps(order, k);
      GiveBack(b, k);
      ShowsSet(Unref(c, c.order[k]), c, c.order[k]);
    }

    /** The new order lists the same buffers, as Unref lists their numbers. */
    lemma ReleaseOrder(was: seq<Buffer>, c: Cache, k: nat)
      requires Shape(c) && |bufs| == |was| == NBUF && k < NBUF
      requires forall i :: 0 <= i < NBUF ==> was[i] == bufs[c.order[i]]
      requires c.bufs[c.order[k]].refcnt > 0
      ensures var c' := Unref(c, c.order[k]);
              var now := if c'.bufs[c.order[k]].refcnt == 0 then ToFront(was, k) else was;
              Shape(c') && |now| == NBUF && forall i :: 0 <= i < NBUF ==> now[i] == bufs[c'.order[i]]
    {
      hide Drop, ToFront;
      var b := c.order[k];
      if c.bufs[b].refcnt == 1 {
        DropAt(c.order, k);
        var o, now := [b] + Drop(c.order, b), ToFront(was, k);
        UnrefShape(c, b);
        assert o == ToFront(c.order, k) by { ToFrontIs(c.order, k); }
        forall i | 0 <= i < NBUF
          ensures now[i] == bufs[o[i]]
        {
          if 0 < i <= k {
            assert now[i] == was[i - 1] && o[i] == c.order[i - 1];
          } else if i > k {
            assert now[i] == was[i] && o[i] == c.order[i];
          }
        }
      }
    }
  }

  function EmptyBuf(data: Block): Buf {
    Buf(0, 0, false, 0, None, data, false)
  }

  /** The cache after binit: unused buffers, the last of the array first in the list. */
  function EmptyCache(data: Block): Cache {
    Cache(seq(NBUF, _ => EmptyBuf(data)), seq(NBUF, i => NBUF - 1 - i))
  }

  method NewBuffers() returns (bufs: seq<Buffer>)
    ensures |bufs| == NBUF && fresh(bufs)
    ensures forall i, j :: 0 <= i < NBUF && 0 <= j < NBUF && bufs[i] == bufs[j] ==> i == j
    ensures forall i :: 0 <= i < NBUF ==>
              bufs[i].dev == 0 && bufs[i].blockno == 0 && !bufs[i].valid && bufs[i].refcnt == 0
  {
    bufs := [];
    while |bufs| < NBUF
      invariant |bufs| <= NBUF && fresh(bufs)
      invariant forall i, j :: 0 <= i < |bufs| && 0 <= j < |bufs| && bufs[i] == bufs[j] ==> i == j
      invariant forall i :: 0 <= i < |bufs| ==>
                  bufs[i].dev == 0 && bufs[i].blockno == 0 && !bufs[i].valid && bufs[i].refcnt == 0
    {
      var b := new Buffer();
      bufs := bufs + [b];
    }
  }

  /** binit: every buffer is put at the front in turn. */
  method Binit(ghost data: Block) returns (l: BufList)
    ensures l.Valid() && l.Shows(EmptyCache(data)) && fresh(l) && fresh(l.head) && fresh(l.order)
  {
    hide Around, BufList.Linked, BufList.Shows;
    var bufs := NewBuffers();
    l := new BufList(bufs);
    var i := 0;
    while i < NBUF
      invariant 0 <= i <= NBUF && l.bufs == bufs && l.Valid() && fresh(l) && fresh(l.head) && fresh(l.order)
      invariant l.head !in bufs && |l.order| == i
      invariant forall j :: 0 <= j < i ==> l.order[j] == bufs[i - 1 - j]
      invariant forall j :: 0 <= j < NBUF ==>
                  bufs[j].dev == 0 && bufs[j].blockno == 0 && !bufs[j].valid && bufs[j].refcnt == 0
    {
      l.PushFront(bufs[i]);
      i := i + 1;
    }
    EmptyShown(l, data);
  }

  lemma EmptyShown(l: BufList, data: Block)
    requires |l.bufs| == NBUF && |l.order| == NBUF
    requires forall i, j :: 0 <= i < NBUF && 0 <= j < NBUF && l.bufs[i] == l.bufs[j] ==> i == j
    requires forall j :: 0 <= j < NBUF ==> l.order[j] == l.bufs[NBUF - 1 - j]
    requires forall j :: 0 <= j < NBUF ==>
               l.bufs[j].dev == 0 && l.bufs[j].blockno == 0 && !l.bufs[j].valid && l.bufs[j].refcnt == 0
    ensures l.Shows(EmptyCache(data))
  {
    forall j | 0 <= j < NBUF
      ensures l.bufs[j] in l.order
    {
      assert l.order[NBUF - 1 - j] == l.bufs[j];
    }
  }
}
