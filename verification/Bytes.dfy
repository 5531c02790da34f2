/** Bytes, disk blocks and pages, and the exclusive-or of blocks on which parity rests. */
module Bytes {

  // BSIZE and PGSIZE as in xv6; only BLOCKS_PER_PAGE > 0 matters below.
  const BSIZE: nat := 1024
  const BLOCKS_PER_PAGE: nat := 4
  const PGSIZE: nat := 4096

  type Block = b: seq<bv8> | |b| == BSIZE witness seq(BSIZE, _ => 0 as bv8)
  type Page = b: seq<bv8> | |b| == PGSIZE witness seq(PGSIZE, _ => 0 as bv8)

  function Fill(n: nat, b: bv8): (r: seq<bv8>)
    ensures |r| == n && forall i :: 0 <= i < n ==> r[i] == b
  {
    seq(n, _ => b)
  }

  const ZERO_BLOCK: Block := Fill(BSIZE, 0)
  const ZERO_PAGE: Page := Fill(PGSIZE, 0)

  function Xor(a: Block, b: Block): (r: Block)
    ensures forall i :: 0 <= i < BSIZE ==> r[i] == a[i] ^ b[i]
  {
    seq(BSIZE, i requires 0 <= i < BSIZE => a[i] ^ b[i])
  }

  lemma XorComm(a: Block, b: Block)
    ensures Xor(a, b) == Xor(b, a)
  {
  }

  lemma ByteAssoc(a: bv8, b: bv8, c: bv8)
    ensures (a ^ b) ^ c == a ^ (b ^ c)
  {
  }

  lemma XorAssoc(a: Block, b: Block, c: Block)
    ensures Xor(Xor(a, b), c) == Xor(a, Xor(b, c))
  {
    forall i | 0 <= i < BSIZE
      ensures Xor(Xor(a, b), c)[i] == Xor(a, Xor(b, c))[i]
    {
      ByteAssoc(a[i], b[i], c[i]);
    }
  }

  lemma ByteUpdate(x: bv8, p: bv8, d: bv8, r: bv8)
    ensures x ^ (((p ^ d) ^ x) ^ r) == d ^ (p ^ r)
  {
  }

  /** Read-modify-write: replacing d by x and p by p ^ d ^ x leaves the XOR of the row alone. */
  lemma XorUpdate(x: Block, p: Block, d: Block, r: Block)
    ensures Xor(x, Xor(Xor(Xor(p, d), x), r)) == Xor(d, Xor(p, r))
  {
    forall i | 0 <= i < BSIZE
      ensures Xor(x, Xor(Xor(Xor(p, d), x), r))[i] == Xor(d, Xor(p, r))[i]
    {
      ByteUpdate(x[i], p[i], d[i], r[i]);
    }
  }

  lemma ByteRebuild(x: bv8, p: bv8, r: bv8)
    ensures ((p ^ (p ^ r)) ^ x) ^ r == x
  {
  }

  /** Degraded write: with p' = p ^ (p ^ r) ^ x, the survivors p' and r XOR to x. */
  lemma XorRebuild(x: Block, p: Block, r: Block)
    ensures Xor(Xor(Xor(p, Xor(p, r)), x), r) == x
  {
    forall i | 0 <= i < BSIZE
      ensures Xor(Xor(Xor(p, Xor(p, r)), x), r)[i] == x[i]
    {
      ByteRebuild(x[i], p[i], r[i]);
    }
  }

  lemma XorZeroIff(a: Block, b: Block)
    ensures Xor(a, b) == ZERO_BLOCK <==> b == a
  {
    if Xor(a, b) == ZERO_BLOCK {
      forall i | 0 <= i < BSIZE
        ensures b[i] == a[i]
      {
        assert Xor(a, b)[i] == 0;
      }
    }
  }

  /** The i-th block of a page. */
  function BlockOf(p: Page, i: nat): (b: Block)
    requires i < BLOCKS_PER_PAGE
  {
    p[i * BSIZE..(i + 1) * BSIZE]
  }

  lemma PagesEqualByBlocks(p: Page, q: Page)
    requires forall i: nat :: i < BLOCKS_PER_PAGE ==> BlockOf(p, i) == BlockOf(q, i)
    ensures p == q
  {
    forall k | 0 <= k < PGSIZE
      ensures p[k] == q[k]
    {
      var i := k / BSIZE;
      assert BlockOf(p, i)[k - i * BSIZE] == p[k];
      assert BlockOf(q, i)[k - i * BSIZE] == q[k];
    }
  }
}
