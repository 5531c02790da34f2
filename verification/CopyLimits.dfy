/** How far copyin and copyout get: exactly up to the first page that is not there for the process, and for copyout
    never past a page that is not writable. */
module CopyLimits {
  import opened Options
  import opened Bytes
  import opened Frames
  import opened Paging
  import opened Eviction
  import opened Fault
  import opened UserCopy
  import R = Raid

  /** Page v of p can be read: it is mapped for the user, or a fault can bring it in. */
  predicate Readable(s: State, p: Pid, v: nat)
    requires Wf(s) && Live(s, p)
  {
    || (v < MAX_VPN && Mapped(s, p, v) && LeafOf(s.procs, p)[v].perm.u)
    || FaultPossible(s, p, v * 4096)
  }

  /** Page v of p can be stored to: it is mapped for the user with write permission, or it is not mapped and a fault
      can bring it in. */
  predicate Writable(s: State, p: Pid, v: nat)
    requires Wf(s) && Live(s, p)
  {
    v < MAX_VPN
    && if Mapped(s, p, v) then LeafOf(s.procs, p)[v].perm.u && LeafOf(s.procs, p)[v].perm.w
       else FaultPossible(s, p, v * 4096)
  }

  /** Looking a page up succeeds if and only if the page can be read. */
  lemma TouchIff(s: State, p: Pid, v: nat)
    requires Inv(s) && Live(s, p)
    ensures Wf(s) && (Touch(s, p, v).1.Some? <==> Readable(s, p, v))
    ensures Touch(s, p, v).1.Some? ==> M(s, p, v).perm.u
  {
    hide VmFault, Core, Everything, Present, Ready, CanEvict;
    CoreWf(s, {}, {});
    if WalkAddr(s, p, v).None? {
      assert v * 4096 / 4096 == v;
      FaultCorrect(s, p, v * 4096);
      var (s', r) := VmFault(s, p, v * 4096);
      CoreWf(s', {}, {});
      if r.Some? { assert M(s', p, v) == M(s, p, v); }
    }
  }

  /** The tests copyout makes before it stores, together. */
  predicate Passes(s: State, p: Pid, v: nat)
    requires Wf(s) && Live(s, p)
  {
    TouchWf(s, p, v);
    var (s1, r) := Touch(s, p, v);
    v < MAX_VPN && r.Some? && Mapped(s1, p, v) && LeafOf(s1.procs, p)[v].perm.w
  }

  lemma PassesIff(s: State, p: Pid, v: nat)
    requires Inv(s) && Live(s, p)
    ensures Wf(s) && (Passes(s, p, v) <==> Writable(s, p, v))
    ensures Passes(s, p, v) ==> M(s, p, v).perm.w && M(s, p, v).perm.u
  {
    hide Touch, Core, Everything, Present, FaultPossible;
    CoreWf(s, {}, {});
    TouchWf(s, p, v);
    TouchIff(s, p, v);
    TouchCorrect(s, p, v);
    var (s1, r) := Touch(s, p, v);
    if r.Some? { assert M(s1, p, v) == M(s, p, v); }
    if Mapped(s, p, v) { MappedIsReadable(s, p, v); }
  }

  lemma MappedIsReadable(s: State, p: Pid, v: nat)
    requires Wf(s) && Live(s, p) && Mapped(s, p, v)
    ensures Readable(s, p, v) ==> LeafOf(s.procs, p)[v].perm.u
    ensures v < MAX_VPN && LeafOf(s.procs, p)[v].perm.u ==> Readable(s, p, v)
  {
    assert v * 4096 / 4096 == v;
  }

  // ----- one page at a time -----

  /** The copy of k bytes from address a ends at a page boundary. */
  predicate Boundary(a: nat, k: nat) {
    k == 0 || (a + k) % 4096 == 0
  }

  lemma BoundaryChunk(a: nat, len: nat, k: nat)
    requires 0 < k <= len && Boundary(a, k)
    ensures var n := Chunk(a, len);
            n == Chunk(a, k) && n <= k && Boundary(a + n, k - n) && Boundary(a, n) && a + n == (a / 4096 + 1) * 4096
  {
    assert (a + k) / 4096 > a / 4096;
  }

  lemma BoundaryNext(a: nat, n: nat, k: nat)
    requires 0 < n && a + n == (a / 4096 + 1) * 4096
    ensures Boundary(a, n) && (Boundary(a + n, k) ==> Boundary(a, n + k))
  {
  }

  /** What one turn of copyin moves. */
  function Piece(s: State, pa: Pa, a: nat, n: nat): seq<bv8>
    requires Wf(s) && a % 4096 + n <= 4096
  {
    s.mem[pa][a % 4096..a % 4096 + n]
  }

  lemma InUnfolds(s: State, p: Pid, a: nat, len: nat)
    requires Wf(s) && Live(s, p) && len > 0
    ensures var (s1, t) := Touch(s, p, a / 4096);
            var n := Chunk(a, len);
            && Wf(s1) && Live(s1, p)
            && (t.None? ==> CopyIn(s, p, a, len) == In(s1, [], false))
            && (t.Some? ==>
                  var rest := CopyIn(s1, p, (a / 4096 + 1) * 4096, len - n);
                  CopyIn(s, p, a, len) == In(rest.state, Piece(s1, t.value, a, n) + rest.bytes, rest.ok))
  {
    hide Touch, Chunk;
    TouchWf(s, p, a / 4096);
  }

  lemma ChunkAgain(a: nat, len: nat)
    ensures Chunk(a, Chunk(a, len)) == Chunk(a, len)
  {
  }

  lemma Concat(x: seq<bv8>, y: seq<bv8>, z: seq<bv8>)
    ensures x + (y + z) == (x + y) + z && x + [] == x && [] + x == x
  {
  }

  /** A copy that gets past a boundary is a copy up to it, and one from there in the state it leaves. */
  lemma {:induction false} InSplits(s: State, p: Pid, a: nat, len: nat, k: nat)
    requires Wf(s) && Live(s, p) && k <= len && Boundary(a, k) && CopyIn(s, p, a, k).ok
    ensures var m := CopyIn(s, p, a, k);
            var rest := CopyIn(m.state, p, a + k, len - k);
            CopyIn(s, p, a, len) == In(rest.state, m.bytes + rest.bytes, rest.ok)
    decreases len
  {
    hide CopyIn, Touch, Chunk, Piece, Wf, Live;
    if k == 0 {
      EmptyIn(s, p, a);
      Concat(CopyIn(s, p, a, len).bytes, [], []);
    } else {
      InUnfolds(s, p, a, len);
      InUnfolds(s, p, a, k);
      BoundaryChunk(a, len, k);
      var (s1, t) := Touch(s, p, a / 4096);
      var n := Chunk(a, len);
      InSplits(s1, p, a + n, len - n, k - n);
      var m := CopyIn(s1, p, a + n, k - n);
      Concat(Piece(s1, t.value, a, n), m.bytes, CopyIn(m.state, p, a + k, len - k).bytes);
    }
  }

  /** One turn. */
  lemma InChunk(s: State, p: Pid, a: nat, len: nat)
    requires Wf(s) && Live(s, p) && len > 0 && Touch(s, p, a / 4096).1.Some?
    ensures var (s1, t) := Touch(s, p, a / 4096);
            var n := Chunk(a, len);
            Wf(s1) && CopyIn(s, p, a, n) == In(s1, Piece(s1, t.value, a, n), true)
  {
    hide CopyIn, Touch, Chunk, Piece, Wf, Live;
    var n := Chunk(a, len);
    ChunkAgain(a, len);
    InUnfolds(s, p, a, n);
    var (s1, t) := Touch(s, p, a / 4096);
    EmptyIn(s1, p, (a / 4096 + 1) * 4096);
    Concat(Piece(s1, t.value, a, n), [], []);
  }

  /** The copy stops before byte k of the range, or is through: up to there it is a copy that succeeds, and the page
      of that byte cannot be read in the state this leaves. */
  ghost predicate StopsAt(s: State, p: Pid, a: nat, len: nat, k: nat)
    requires Wf(s) && Live(s, p)
  {
    k <= len && (k < len ==> Boundary(a, k)) && CopyIn(s, p, a, k).ok && |CopyIn(s, p, a, k).bytes| == k
    && (k < len ==> !Readable(CopyIn(s, p, a, k).state, p, (a + k) / 4096))
  }

  /** Main result on copyin, how far it gets: it fails exactly if it comes to a page that is not mapped for the user
      and that no fault can bring in, in the state in which it comes there. */
  lemma {:induction false} CopyInStops(s: State, p: Pid, a: nat, len: nat)
    requires Inv(s) && Live(s, p)
    ensures Wf(s)
    ensures var r := CopyIn(s, p, a, len);
            && StopsAt(s, p, a, len, |r.bytes|) && CopyIn(s, p, a, |r.bytes|).bytes == r.bytes
            && (r.ok <==> |r.bytes| == len)
    decreases len
  {
    hide Core, Everything, M, Touch, Readable, CopyIn, Inv;
    InvWf(s);
    if len == 0 {
      EmptyIn(s, p, a);
    } else {
      var v := a / 4096;
      TouchIff(s, p, v);
      TouchCorrect(s, p, v);
      InUnfolds(s, p, a, len);
      var (s1, t) := Touch(s, p, v);
      if t.None? {
        EmptyIn(s, p, a);
      } else {
        var n := Chunk(a, len);
        InChunk(s, p, a, len);
        var rest := CopyIn(s1, p, (v + 1) * 4096, len - n);
        if n == len {
          EmptyIn(s1, p, (v + 1) * 4096);
          Concat(Piece(s1, t.value, a, n), [], []);
        } else {
          CopyInStops(s1, p, (v + 1) * 4096, len - n);
          var k := |rest.bytes|;
          BoundaryNext(a, n, k);
          InSplits(s, p, a, n + k, n);
        }
      }
    }
  }

  lemma InvWf(s: State)
    requires Inv(s)
    ensures Wf(s)
  {
  }

  lemma EmptyIn(s: State, p: Pid, a: nat)
    requires Wf(s) && Live(s, p)
    ensures CopyIn(s, p, a, 0) == In(s, [], true)
  {
  }

  /** And it does fail there. With the above, copyin succeeds if and only if it can read every page when it comes
      to it. */
  lemma CopyInRefuses(s: State, p: Pid, a: nat, len: nat, k: nat, m: In)
    requires Inv(s) && Live(s, p) && k < len && Boundary(a, k) && Wf(s)
    requires m == CopyIn(s, p, a, k) && m.ok && Wf(m.state) && Live(m.state, p)
    requires !Readable(m.state, p, (a + k) / 4096)
    ensures CopyIn(s, p, a, len) == In(Touch(m.state, p, (a + k) / 4096).0, m.bytes, false)
  {
    hide Core, Everything, M, Touch, Readable, CopyIn, Inv, Piece;
    InSplits(s, p, a, len, k);
    CopyInCorrect(s, p, a, k);
    TouchIff(m.state, p, (a + k) / 4096);
    InUnfolds(m.state, p, a + k, len - k);
    Concat(m.bytes, [], []);
  }

  /** copyin reads from user pages only. */
  lemma {:induction false} CopyInUser(s: State, p: Pid, a: nat, len: nat, x: nat)
    requires Inv(s) && Live(s, p) && Wf(s) && a <= x < a + |CopyIn(s, p, a, len).bytes|
    ensures M(s, p, x / 4096).perm.u
    decreases len
  {
    hide Core, Everything, M, Touch, Inv;
    if len > 0 {
      var v, n := a / 4096, Chunk(a, len);
      TouchWf(s, p, v);
      TouchIff(s, p, v);
      TouchCorrect(s, p, v);
      var (s1, t) := Touch(s, p, v);
      if x < a + n {
        assert x / 4096 == v;
      } else {
        assert a + n == (v + 1) * 4096 by { EmptyIn(s1, p, (v + 1) * 4096); }
        CopyInUser(s1, p, (v + 1) * 4096, len - n, x);
        assert M(s1, p, x / 4096) == M(s, p, x / 4096);
      }
    }
  }

  // ----- copyout -----

  /** The state after one turn of copyout. */
  function AfterTurn(s: State, p: Pid, dst: nat, src: seq<bv8>): (r: State)
    requires Wf(s) && Live(s, p) && Passes(s, p, dst / 4096)
    ensures Wf(r) && Live(r, p)
  {
    TouchWf(s, p, dst / 4096);
    var (s1, t) := Touch(s, p, dst / 4096);
    var n := Chunk(dst, |src|);
    s1.(mem := s1.mem[t.value := Splice(s1.mem[t.value], dst % 4096, src[..n])])
  }

  /** The state at which copyout gives up. */
  function GivesUp(s: State, p: Pid, v: nat): State
    requires Wf(s) && Live(s, p)
  {
    if v >= MAX_VPN then s else Touch(s, p, v).0
  }

  lemma OutUnfolds(s: State, p: Pid, dst: nat, src: seq<bv8>)
    requires Wf(s) && Live(s, p) && src != []
    ensures !Passes(s, p, dst / 4096) ==> CopyOut(s, p, dst, src) == Out(GivesUp(s, p, dst / 4096), 0, false)
    ensures Passes(s, p, dst / 4096) ==>
              var n := Chunk(dst, |src|);
              var rest := CopyOut(AfterTurn(s, p, dst, src), p, (dst / 4096 + 1) * 4096, src[n..]);
              CopyOut(s, p, dst, src) == Out(rest.state, n + rest.written, rest.ok)
  {
    hide Touch, Chunk, Splice;
    TouchWf(s, p, dst / 4096);
  }

  lemma OutGivesUp(s: State, p: Pid, dst: nat, src: seq<bv8>)
    requires Wf(s) && Live(s, p) && src != [] && !Passes(s, p, dst / 4096)
    ensures CopyOut(s, p, dst, src) == Out(GivesUp(s, p, dst / 4096), 0, false)
  {
    hide CopyOut, Passes, GivesUp, AfterTurn, Wf, Live;
    OutUnfolds(s, p, dst, src);
  }

  lemma OutKeepsInv(s: State, p: Pid, dst: nat, src: seq<bv8>)
    requires Inv(s) && Wf(s) && Live(s, p)
    ensures Inv(CopyOut(s, p, dst, src).state)
  {
    hide CopyOut, Inv, Stored, Conserves;
    CopyOutCorrect(s, p, dst, src);
  }

  lemma EmptyOut(s: State, p: Pid, dst: nat)
    requires Wf(s) && Live(s, p)
    ensures CopyOut(s, p, dst, []) == Out(s, 0, true)
  {
  }

  /** A turn depends only on the bytes it stores. */
  lemma SameTurn(s: State, p: Pid, dst: nat, src: seq<bv8>, k: nat)
    requires Wf(s) && Live(s, p) && Passes(s, p, dst / 4096) && k <= |src| && Chunk(dst, k) == Chunk(dst, |src|)
    ensures AfterTurn(s, p, dst, src[..k]) == AfterTurn(s, p, dst, src)
  {
    hide Touch, Splice;
    var n := Chunk(dst, k);
    assert src[..k][..n] == src[..n];
  }

  lemma {:induction false} OutSplits(s: State, p: Pid, dst: nat, src: seq<bv8>, k: nat)
    requires Wf(s) && Live(s, p) && k <= |src| && Boundary(dst, k) && CopyOut(s, p, dst, src[..k]).ok
    ensures var m := CopyOut(s, p, dst, src[..k]);
            var rest := CopyOut(m.state, p, dst + k, src[k..]);
            CopyOut(s, p, dst, src) == Out(rest.state, m.written + rest.written, rest.ok)
    decreases |src|
  {
    hide CopyOut, Passes, AfterTurn, GivesUp, Chunk, Wf, Live;
    if k == 0 {
      assert src[..0] == [] && src[0..] == src;
      EmptyOut(s, p, dst);
    } else {
      OutUnfolds(s, p, dst, src);
      OutUnfolds(s, p, dst, src[..k]);
      BoundaryChunk(dst, |src|, k);
      SameTurn(s, p, dst, src, k);
      var n := Chunk(dst, |src|);
      assert src[..k][n..] == src[n..][..k - n] && src[n..][k - n..] == src[k..];
      OutSplits(AfterTurn(s, p, dst, src), p, dst + n, src[n..], k - n);
    }
  }

  lemma OutChunk(s: State, p: Pid, dst: nat, src: seq<bv8>)
    requires Wf(s) && Live(s, p) && src != [] && Passes(s, p, dst / 4096)
    ensures var n := Chunk(dst, |src|);
            CopyOut(s, p, dst, src[..n]) == Out(AfterTurn(s, p, dst, src), n, true)
  {
    hide CopyOut, Passes, AfterTurn, GivesUp, Chunk, Wf, Live;
    var n := Chunk(dst, |src|);
    ChunkAgain(dst, |src|);
    SameTurn(s, p, dst, src, n);
    OutUnfolds(s, p, dst, src[..n]);
    assert src[..n][n..] == [];
    EmptyOut(AfterTurn(s, p, dst, src), p, (dst / 4096 + 1) * 4096);
  }

  lemma TurnCorrect(s: State, p: Pid, dst: nat, src: seq<bv8>)
    requires Inv(s) && Wf(s) && Live(s, p) && src != [] && Passes(s, p, dst / 4096)
    ensures var s2 := AfterTurn(s, p, dst, src);
            Inv(s2) && Live(s2, p) && forall q: Pid, v: nat :: M(s2, q, v).perm == M(s, q, v).perm
  {
    hide Core, Everything, M, Touch, Inv, Splice;
    TouchWf(s, p, dst / 4096);
    TouchCorrect(s, p, dst / 4096);
    var (s1, t) := Touch(s, p, dst / 4096);
    CopyOutStep(s, s1, p, dst, src, t.value);
  }

  /** The copy stops before byte k, or is through: up to there it is a copy that succeeds, and the page of that byte
      cannot be stored to in the state this leaves. */
  ghost predicate StopsOutAt(s: State, p: Pid, dst: nat, src: seq<bv8>, k: nat)
    requires Wf(s) && Live(s, p)
  {
    k <= |src| && (k < |src| ==> Boundary(dst, k))
    && CopyOut(s, p, dst, src[..k]).ok && CopyOut(s, p, dst, src[..k]).written == k
    && (k < |src| ==> !Writable(CopyOut(s, p, dst, src[..k]).state, p, (dst + k) / 4096))
  }

  /** Main result on copyout, how far it gets: it fails exactly if it comes to a page at or above MAXVA, a page
      mapped without user or write permission, or one that is not mapped and that no fault can bring in, in the state
      in which it comes there. */
  lemma {:induction false} CopyOutStops(s: State, p: Pid, dst: nat, src: seq<bv8>)
    requires Inv(s) && Live(s, p)
    ensures Wf(s)
    ensures var r := CopyOut(s, p, dst, src);
            StopsOutAt(s, p, dst, src, r.written) && (r.ok <==> r.written == |src|)
    decreases |src|
  {
    hide Core, Everything, M, Touch, Writable, CopyOut, Inv, Passes, AfterTurn, GivesUp;
    InvWf(s);
    if src == [] {
      EmptyOut(s, p, dst);
      assert src[..0] == [];
    } else {
      var v := dst / 4096;
      PassesIff(s, p, v);
      OutUnfolds(s, p, dst, src);
      if !Passes(s, p, v) {
        EmptyOut(s, p, dst);
        assert src[..0] == [];
      } else {
        var n, s2 := Chunk(dst, |src|), AfterTurn(s, p, dst, src);
        OutChunk(s, p, dst, src);
        TurnCorrect(s, p, dst, src);
        if n == |src| {
          assert src[n..] == [] && src[..n] == src;
          EmptyOut(s2, p, (v + 1) * 4096);
        } else {
          CopyOutStops(s2, p, (v + 1) * 4096, src[n..]);
          var k := CopyOut(s2, p, (v + 1) * 4096, src[n..]).written;
          BoundaryNext(dst, n, k);
          assert src[..n + k][..n] == src[..n] && src[..n + k][n..] == src[n..][..k];
          OutSplits(s, p, dst, src[..n + k], n);
        }
      }
    }
  }

  /** And it does fail there, having stored what comes before and nothing else. */
  lemma CopyOutRefuses(s: State, p: Pid, dst: nat, src: seq<bv8>, k: nat, m: Out)
    requires Inv(s) && Live(s, p) && k < |src| && Boundary(dst, k) && Wf(s)
    requires m == CopyOut(s, p, dst, src[..k]) && m.ok && Wf(m.state) && Live(m.state, p)
    requires !Writable(m.state, p, (dst + k) / 4096)
    ensures CopyOut(s, p, dst, src) == Out(GivesUp(m.state, p, (dst + k) / 4096), m.written, false)
  {
    hide Writable, CopyOut, Inv, Passes, AfterTurn, GivesUp, Boundary, Wf, Live;
    OutSplits(s, p, dst, src, k);
    OutKeepsInv(s, p, dst, src[..k]);
    PassesIff(m.state, p, (dst + k) / 4096);
    OutGivesUp(m.state, p, dst + k, src[k..]);
  }

  /** copyout stores to writable user pages only, so it never gets past a page that is not one. */
  lemma {:induction false} CopyOutWritable(s: State, p: Pid, dst: nat, src: seq<bv8>, x: nat)
    requires Inv(s) && Live(s, p) && Wf(s) && dst <= x < dst + CopyOut(s, p, dst, src).written
    ensures M(s, p, x / 4096).perm.w && M(s, p, x / 4096).perm.u && x / 4096 < MAX_VPN
    decreases |src|
  {
    hide Core, Everything, M, Touch, CopyOut, Inv, AfterTurn, GivesUp, Writable;
    if src == [] {
      EmptyOut(s, p, dst);
    } else {
      var v, n := dst / 4096, Chunk(dst, |src|);
      OutUnfolds(s, p, dst, src);
      PassesIff(s, p, v);
      var s2 := AfterTurn(s, p, dst, src);
      if n == |src| {
        assert src[n..] == [];
        EmptyOut(s2, p, (v + 1) * 4096);
      }
      if x < dst + n {
        assert x / 4096 == v;
      } else {
        TurnCorrect(s, p, dst, src);
        CopyOutWritable(s2, p, (v + 1) * 4096, src[n..], x);
      }
    }
  }

  /** The byte of p at address x is in a writable user page. */
  predicate WritableAt(s: State, p: Pid, x: nat)
    requires Wf(s)
  {
    M(s, p, x / 4096).perm.w && M(s, p, x / 4096).perm.u && x / 4096 < MAX_VPN
  }

  /** What copyout stored went to writable user pages; the copy is through, or the next page cannot be stored to. */
  ghost predicate OutLimits(s: State, p: Pid, dst: nat, src: seq<bv8>, written: nat, ok: bool)
    requires Wf(s) && Live(s, p)
  {
    && (forall x: nat :: dst <= x < dst + written ==> WritableAt(s, p, x))
    && StopsOutAt(s, p, dst, src, written) && (ok <==> written == |src|)
  }

  lemma CopyOutLimits(s: State, p: Pid, dst: nat, src: seq<bv8>)
    requires Inv(s) && Live(s, p) && Wf(s)
    ensures var r := CopyOut(s, p, dst, src); OutLimits(s, p, dst, src, r.written, r.ok)
  {
    hide CopyOut, Inv, StopsOutAt, M, Wf, Live;
    CopyOutStops(s, p, dst, src);
    forall x: nat | dst <= x < dst + CopyOut(s, p, dst, src).written
      ensures WritableAt(s, p, x)
    {
      CopyOutWritable(s, p, dst, src, x);
    }
  }

  predicate ReadableAt(s: State, p: Pid, x: nat)
    requires Wf(s)
  {
    M(s, p, x / 4096).perm.u
  }

  /** What copyin read came from user pages; the copy is through, or the next page cannot be read. */
  ghost predicate InLimits(s: State, p: Pid, a: nat, len: nat, n: nat, ok: bool)
    requires Wf(s) && Live(s, p)
  {
    && (forall x: nat :: a <= x < a + n ==> ReadableAt(s, p, x))
    && StopsAt(s, p, a, len, n) && (ok <==> n == len)
  }

  lemma CopyInLimits(s: State, p: Pid, a: nat, len: nat)
    requires Inv(s) && Live(s, p) && Wf(s)
    ensures var r := CopyIn(s, p, a, len); InLimits(s, p, a, len, |r.bytes|, r.ok)
  {
    hide CopyIn, Inv, StopsAt, M, Wf, Live;
    CopyInStops(s, p, a, len);
    forall x: nat | a <= x < a + |CopyIn(s, p, a, len).bytes|
      ensures ReadableAt(s, p, x)
    {
      CopyInUser(s, p, a, len, x);
    }
  }
}
