/** copyout and copyin: byte ranges over pages that may be resident, swapped or untouched. */
module UserCopy {
  import opened Options
  import opened Bytes
  import opened Frames
  import opened Paging
  import opened Eviction
  import opened Fault
  import R = Raid

  /** The byte process p finds at address a. */
  function ByteAt(s: State, p: Pid, a: nat): bv8
    requires Wf(s)
  {
    M(s, p, a / 4096).data[a % 4096]
  }

  /** walkaddr, and the fault handler if that finds nothing. */
  function Touch(s: State, p: Pid, v: nat): (State, Option<Pa>)
    requires Wf(s) && Live(s, p)
  {
    var pa := WalkAddr(s, p, v);
    if pa.Some? then (s, pa) else VmFault(s, p, v * 4096)
  }

  function Splice(page: Page, off: nat, bytes: seq<bv8>): (r: Page)
    requires off + |bytes| <= PGSIZE
    ensures forall i :: 0 <= i < PGSIZE ==> r[i] == if off <= i < off + |bytes| then bytes[i - off] else page[i]
  {
    page[..off] + bytes + page[off + |bytes|..]
  }

  function Chunk(a: nat, len: nat): (n: nat)
    ensures n <= len && a % 4096 + n <= 4096 && (len > 0 ==> n > 0)
    ensures n < len ==> a + n == (a / 4096 + 1) * 4096
  {
    var room := 4096 - a % 4096;
    if room > len then len else room
  }

  lemma TouchWf(s: State, p: Pid, v: nat)
    requires Wf(s) && Live(s, p)
    ensures Wf(Touch(s, p, v).0) && Live(Touch(s, p, v).0, p)
  {
    var va := v * 4096;
    if WalkAddr(s, p, v).None? && va < s.procs[p].sz && !Mapped(s, p, va / 4096) {
      FaultMissingWf(s, p, va / 4096);
    }
  }

  lemma FaultMissingWf(s: State, p: Pid, v: nat)
    requires Wf(s) && Live(s, p) && !Mapped(s, p, v)
    ensures Wf(FaultMissing(s, p, v).0) && Live(FaultMissing(s, p, v).0, p)
  {
    hide KallocUserFrom, Walk;
    KallocUserKeepsUnmapped(s, p, v, p, v, 0);
    var k := FindSwap(s.swapMap, p, v, 0);
    var (s1, r) := KallocUserFrom(s, p, v, 0);
    if r.Some? {
      var x := if k == -1 then ZERO_PAGE else R.ReadPage(s1.conf, s1.disk, s.swapMap[k].slot);
      WalkOnly(s1.(mem := s1.mem[r.value := x]), p, v);
    }
  }

  datatype Out = Out(state: State, written: nat, ok: bool)

  /** copyout of src to address dst of p; `written` counts the bytes stored before a failure. */
  function CopyOut(s: State, p: Pid, dst: nat, src: seq<bv8>): (r: Out)
    requires Wf(s) && Live(s, p)
    ensures Wf(r.state) && Live(r.state, p) && r.written <= |src|
    decreases |src|
  {
    if src == [] then Out(s, 0, true)
    else
      var v := dst / 4096;
      if v >= MAX_VPN then Out(s, 0, false)
      else
        TouchWf(s, p, v);
        var (s1, r) := Touch(s, p, v);
        if r.None? || !Mapped(s1, p, v) || !LeafOf(s1.procs, p)[v].perm.w then Out(s1, 0, false)
        else
          var n := Chunk(dst, |src|);
          var s2 := s1.(mem := s1.mem[r.value := Splice(s1.mem[r.value], dst % 4096, src[..n])]);
          var rest := CopyOut(s2, p, (v + 1) * 4096, src[n..]);
          Out(rest.state, n + rest.written, rest.ok)
  }

  datatype In = In(state: State, bytes: seq<bv8>, ok: bool)

  /** copyin of len bytes from address a of p; `bytes` holds what was read before a failure. */
  function CopyIn(s: State, p: Pid, a: nat, len: nat): (r: In)
    requires Wf(s) && Live(s, p)
    ensures Wf(r.state) && Live(r.state, p)
    decreases len
  {
    if len == 0 then In(s, [], true)
    else
      var v := a / 4096;
      TouchWf(s, p, v);
      var (s1, r) := Touch(s, p, v);
      if r.None? then In(s1, [], false)
      else
        var n := Chunk(a, len);
        var rest := CopyIn(s1, p, (v + 1) * 4096, len - n);
        In(rest.state, s1.mem[r.value][a % 4096..a % 4096 + n] + rest.bytes, rest.ok)
  }

  // ----- correctness -----

  /** Touching a page changes nothing anyone sees, and a success gives the page itself. */
  lemma TouchCorrect(s: State, p: Pid, v: nat)
    requires Inv(s) && Live(s, p)
    ensures var (s', r) := Touch(s, p, v);
            && Inv(s') && SameView(s, s') && Conserves(s, {}, s', {}) && SameSizes(s, s')
            && (r.Some? ==>
                  Mapped(s', p, v) && LeafOf(s'.procs, p)[v].pa == r.value && s'.mem[r.value] == M(s, p, v).data)
  {
    hide VmFault, Core, Everything, Present;
    CoreWf(s, {}, {});
    if WalkAddr(s, p, v).None? {
      assert v * 4096 / 4096 == v;
      FaultCorrect(s, p, v * 4096);
    }
  }

  /** A store to a mapped page changes that page of that process and nothing else. */
  lemma StoreCorrect(s: State, p: Pid, v: nat, x: Page)
    requires Inv(s) && Mapped(s, p, v)
    ensures var s' := s.(mem := s.mem[LeafOf(s.procs, p)[v].pa := x]);
            && Inv(s') && Conserves(s, {}, s', {})
            && (forall q: Pid, w: nat ::
                  M(s', q, w) == if q == p && w == v then Cell(x, M(s, p, v).perm) else M(s, q, w))
  {
    hide Everything, FramesMapped, FramesUnique, TablesClosed, NumUsed, SwapUnique, SwapExclusive, R.ReadPage;
    var s' := s.(mem := s.mem[LeafOf(s.procs, p)[v].pa := x]);
    forall q: Pid, w: nat
      ensures M(s', q, w) == if q == p && w == v then Cell(x, M(s, p, v).perm) else M(s, q, w)
      ensures Present(s', q, w) == Present(s, q, w)
    {
      if Mapped(s, q, w) && (q != p || w != v) { MappedApart(s, {}, p, v, q, w); }
    }
    forall q: Pid
      ensures Sized(s', q)
    {
      assert Sized(s, q);
    }
  }

  predicate Within(q: Pid, a: nat, p: Pid, dst: nat, n: nat) {
    q == p && dst <= a < dst + n
  }

  /** `s'` is `s` with `bytes` stored at address dst of p. */
  ghost predicate Stored(s: State, s': State, p: Pid, dst: nat, bytes: seq<bv8>)
    requires Wf(s) && Wf(s')
  {
    && (forall q: Pid, a: nat ::
          ByteAt(s', q, a) == if Within(q, a, p, dst, |bytes|) then bytes[a - dst] else ByteAt(s, q, a))
    && (forall q: Pid, v: nat :: M(s', q, v).perm == M(s, q, v).perm)
  }

  lemma SpliceStored(s: State, s': State, p: Pid, dst: nat, bytes: seq<bv8>)
    requires Wf(s) && Wf(s') && dst % 4096 + |bytes| <= 4096
    requires forall q: Pid, w: nat :: M(s', q, w) ==
               if q == p && w == dst / 4096
               then Cell(Splice(M(s, p, w).data, dst % 4096, bytes), M(s, p, w).perm) else M(s, q, w)
    ensures Stored(s, s', p, dst, bytes)
  {
    hide M;
    forall q: Pid, a: nat
      ensures ByteAt(s', q, a) == if Within(q, a, p, dst, |bytes|) then bytes[a - dst] else ByteAt(s, q, a)
    {
      if q == p && a / 4096 == dst / 4096 {
        assert a - dst == a % 4096 - dst % 4096;
      } else {
        assert !Within(q, a, p, dst, |bytes|);
      }
    }
  }

  lemma StoredCompose(s: State, s1: State, s2: State, p: Pid, dst: nat, src: seq<bv8>, n: nat, k: nat)
    requires Wf(s) && Wf(s1) && Wf(s2) && n <= k <= |src|
    requires Stored(s, s1, p, dst, src[..n]) && Stored(s1, s2, p, dst + n, src[n..][..k - n])
    ensures Stored(s, s2, p, dst, src[..k])
  {
    hide M, ByteAt;
    forall q: Pid, a: nat
      ensures ByteAt(s2, q, a) == if Within(q, a, p, dst, k) then src[..k][a - dst] else ByteAt(s, q, a)
    {
      if Within(q, a, p, dst + n, k - n) {
        assert src[n..][..k - n][a - dst - n] == src[a - dst];
      } else if Within(q, a, p, dst, n) {
        assert src[..n][a - dst] == src[a - dst];
      }
    }
  }

  lemma NothingStored(s: State, s': State, p: Pid, dst: nat)
    requires Wf(s) && Wf(s') && SameView(s, s')
    ensures Stored(s, s', p, dst, [])
  {
    hide M;
  }

  /** copyout stores a prefix of its bytes, all of them when it returns 0, and nothing else: no byte of
      any other address or process changes, whatever faults and evictions happen on the way. */
  lemma {:induction false} CopyOutCorrect(s: State, p: Pid, dst: nat, src: seq<bv8>)
    requires Inv(s) && Live(s, p)
    ensures var r := CopyOut(s, p, dst, src);
            && Inv(r.state) && Conserves(s, {}, r.state, {}) && Stored(s, r.state, p, dst, src[..r.written])
            && (r.ok ==> r.written == |src|)
    decreases |src|
  {
    hide Core, Everything, M, Touch, Stored;
    CoreWf(s, {}, {});
    var r := CopyOut(s, p, dst, src);
    var v := dst / 4096;
    if src == [] || v >= MAX_VPN {
      NothingStored(s, s, p, dst);
      assert src[..0] == [];
    } else {
      TouchWf(s, p, v);
      TouchCorrect(s, p, v);
      var (s1, t) := Touch(s, p, v);
      if t.None? || !Mapped(s1, p, v) || !LeafOf(s1.procs, p)[v].perm.w {
        NothingStored(s, s1, p, dst);
        assert src[..0] == [];
      } else {
        CopyOutStep(s, s1, p, dst, src, t.value);
        var n := Chunk(dst, |src|);
        var s2 := s1.(mem := s1.mem[t.value := Splice(s1.mem[t.value], dst % 4096, src[..n])]);
        var rest := CopyOut(s2, p, (v + 1) * 4096, src[n..]);
        assert r == Out(rest.state, n + rest.written, rest.ok);
        hide CopyOut, Inv, Splice, Chunk, Mapped, Live, LeafOf, SameView;
        CopyOutCorrect(s2, p, (v + 1) * 4096, src[n..]);
        CopyOutRest(s, s2, rest, p, dst, src, n);
      }
    }
  }

  lemma CopyOutRest(s: State, s2: State, rest: Out, p: Pid, dst: nat, src: seq<bv8>, n: nat)
    requires Wf(s) && Wf(s2) && Wf(rest.state) && 0 < n <= |src| && rest.written <= |src| - n
    requires n < |src| ==> dst + n == (dst / 4096 + 1) * 4096
    requires n == |src| ==> rest.state == s2
    requires Stored(s, s2, p, dst, src[..n])
    requires Stored(s2, rest.state, p, (dst / 4096 + 1) * 4096, src[n..][..rest.written])
    ensures Stored(s, rest.state, p, dst, src[..n + rest.written])
  {
    hide Stored;
    if n < |src| {
      StoredCompose(s, s2, rest.state, p, dst, src, n, n + rest.written);
    } else {
      assert rest.written == 0 && src[..n] == src;
    }
  }

  lemma CopyOutStep(s: State, s1: State, p: Pid, dst: nat, src: seq<bv8>, pa: Pa)
    requires Inv(s) && Inv(s1) && Live(s, p) && src != [] && SameView(s, s1)
    requires Conserves(s, {}, s1, {}) && SameSizes(s, s1)
    requires Mapped(s1, p, dst / 4096) && LeafOf(s1.procs, p)[dst / 4096].pa == pa
    requires s1.mem[pa] == M(s, p, dst / 4096).data
    ensures var n := Chunk(dst, |src|);
            var s2 := s1.(mem := s1.mem[pa := Splice(s1.mem[pa], dst % 4096, src[..n])]);
            Inv(s2) && Live(s2, p) && Conserves(s, {}, s2, {}) && Stored(s, s2, p, dst, src[..n])
  {
    hide Core, Everything, M, Present;
    CoreWf(s, {}, {});
    CoreWf(s1, {}, {});
    var v, n := dst / 4096, Chunk(dst, |src|);
    var x := Splice(s1.mem[pa], dst % 4096, src[..n]);
    var s2 := s1.(mem := s1.mem[pa := x]);
    StoreCorrect(s1, p, v, x);
    CoreWf(s2, {}, {});
    SpliceStored(s, s2, p, dst, src[..n]);
  }

  /** The bytes p sees at a, a + 1, ..., a + len - 1. */
  ghost function BytesAt(s: State, p: Pid, a: nat, len: nat): (r: seq<bv8>)
    requires Wf(s)
    ensures |r| == len
  {
    seq(len, i requires 0 <= i < len => ByteAt(s, p, a + i))
  }

  lemma ChunkBytes(s: State, p: Pid, a: nat, len: nat, n: nat, page: Page)
    requires Wf(s) && n == Chunk(a, len) && page == M(s, p, a / 4096).data
    ensures page[a % 4096..a % 4096 + n] == BytesAt(s, p, a, n)
  {
    hide M;
    var chunk := page[a % 4096..a % 4096 + n];
    forall i | 0 <= i < n
      ensures chunk[i] == ByteAt(s, p, a + i)
    {
      assert (a + i) / 4096 == a / 4096 && (a + i) % 4096 == a % 4096 + i;
    }
    assert chunk == BytesAt(s, p, a, n);
  }

  /** What is read from the next page on, in a state that looks the same, continues the chunk. */
  lemma JoinBytes(s: State, s1: State, p: Pid, a: nat, n: nat, rest: seq<bv8>, next: nat)
    requires Wf(s) && Wf(s1) && SameView(s, s1)
    requires rest == BytesAt(s1, p, next, |rest|) && (rest != [] ==> next == a + n)
    ensures BytesAt(s, p, a, n) + rest == BytesAt(s, p, a, n + |rest|)
  {
    hide M;
    forall i | 0 <= i < |rest|
      ensures rest[i] == ByteAt(s, p, a + n + i)
    {
      assert rest[i] == ByteAt(s1, p, next + i);
    }
  }

  /** copyin changes nothing anyone sees, and returns exactly the bytes p sees; on failure, a prefix. */
  lemma {:induction false} CopyInCorrect(s: State, p: Pid, a: nat, len: nat)
    requires Inv(s) && Live(s, p)
    ensures var r := CopyIn(s, p, a, len);
            && Inv(r.state) && Conserves(s, {}, r.state, {}) && SameView(s, r.state)
            && |r.bytes| <= len && (r.ok ==> |r.bytes| == len)
            && r.bytes == BytesAt(s, p, a, |r.bytes|)
    decreases len
  {
    hide Core, Everything, M, Touch;
    CoreWf(s, {}, {});
    if len > 0 {
      var v := a / 4096;
      TouchWf(s, p, v);
      TouchCorrect(s, p, v);
      var (s1, t) := Touch(s, p, v);
      CoreWf(s1, {}, {});
      if t.Some? {
        var n := Chunk(a, len);
        ChunkBytes(s, p, a, len, n, s1.mem[t.value]);
        CopyInCorrect(s1, p, (v + 1) * 4096, len - n);
        var rest := CopyIn(s1, p, (v + 1) * 4096, len - n);
        JoinBytes(s, s1, p, a, n, rest.bytes, (v + 1) * 4096);
      }
    }
  }

  /** Main result on user copies: bytes written by a successful copyout are what a later successful
      copyin of the same range returns, for every length and alignment, however many faults and
      evictions lie in and between the two, as long as nobody stores there in between. */
  lemma CopyRoundTrip(s: State, p: Pid, a: nat, src: seq<bv8>, s1: State)
    requires Inv(s) && Live(s, p) && CopyOut(s, p, a, src).ok
    requires Inv(s1) && Live(s1, p) && CopyIn(s1, p, a, |src|).ok
    requires BytesAt(s1, p, a, |src|) == BytesAt(CopyOut(s, p, a, src).state, p, a, |src|)
    ensures CopyIn(s1, p, a, |src|).bytes == src
  {
    hide Core, Everything, M, CopyOut, CopyIn;
    CoreWf(s, {}, {});
    CoreWf(s1, {}, {});
    CopyOutCorrect(s, p, a, src);
    CopyInCorrect(s1, p, a, |src|);
    var out := CopyOut(s, p, a, src).state;
    var bytes := CopyIn(s1, p, a, |src|).bytes;
    assert src[..|src|] == src;
    forall i | 0 <= i < |src|
      ensures bytes[i] == src[i]
    {
      assert Within(p, a + i, p, a, |src|);
      assert bytes[i] == BytesAt(out, p, a, |src|)[i];
    }
  }
}
