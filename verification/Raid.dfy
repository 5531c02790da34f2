/** The RAID 0/1/5 layer under the swap area: block mapping, reads, writes, reconstruction,
    and the theorems that make it an array of pages. */
module Raid {
  import opened Bytes

  const NDISKS: nat := 4
  const SWAP_START_BLOCK: nat := 1000
  const MAX_SWAP_PAGES: nat := 256
  const LOGICAL_BLOCKS: nat := 1024
  const SWAP_ROWS: nat := 512
  const SWAP_END_BLOCK: nat := 3048

  datatype Mode = Raid0 | Raid1 | Raid5

  // failed is the index of the one failed disk, or -1.
  datatype Config = Config(mode: Mode, failed: int)

  // The single disk image that carries the four simulated disks. The range is assumed to exist.
  type Store = s: seq<Block> | |s| >= SWAP_END_BLOCK witness seq(SWAP_END_BLOCK, _ => ZERO_BLOCK)

  /** The failed disk the driver simulates: disk 2, and only under RAID 5. */
  function CurrentFailedDisk(mode: Mode): int {
    if mode == Raid5 then 2 else -1
  }

  function PhysBlock(disk: nat, row: nat): nat {
    SWAP_START_BLOCK + row * 4 + disk
  }

  predicate InSwap(disk: nat, row: nat) {
    disk < NDISKS && row < SWAP_ROWS
  }

  lemma PhysBlockInjective(d: nat, r: nat, d': nat, r': nat)
    requires InSwap(d, r) && InSwap(d', r')
    ensures PhysBlock(d, r) == PhysBlock(d', r') <==> d == d' && r == r'
    ensures SWAP_START_BLOCK <= PhysBlock(d, r) < SWAP_END_BLOCK
  {
  }

  function Get(st: Store, disk: nat, row: nat): Block
    requires InSwap(disk, row)
  {
    st[PhysBlock(disk, row)]
  }

  function Put(st: Store, disk: nat, row: nat, x: Block): (st': Store)
    requires InSwap(disk, row)
    ensures |st'| == |st|
    ensures forall d: nat, r: nat {:trigger Get(st', d, r)} :: InSwap(d, r) ==>
              Get(st', d, r) == if d == disk && r == row then x else Get(st, d, r)
    ensures forall k :: 0 <= k < |st| && !(SWAP_START_BLOCK <= k < SWAP_END_BLOCK) ==> st'[k] == st[k]
  {
    st[PhysBlock(disk, row) := x]
  }

  // ----- block maps -----

  datatype Place1 = Place1(disk1: nat, disk2: nat, row: nat)
  datatype Place5 = Place5(data: nat, parity: nat, row: nat)

  function Raid1Map(lb: nat): (p: Place1)
    ensures p.disk1 != p.disk2 && p.disk1 < NDISKS && p.disk2 < NDISKS
  {
    var pair := lb % 2;
    Place1(pair * 2, pair * 2 + 1, lb / 2)
  }

  function Raid5Map(lb: nat): (p: Place5)
    ensures p.data != p.parity && p.data < NDISKS && p.parity < NDISKS
    ensures lb < LOGICAL_BLOCKS ==> p.row < SWAP_ROWS
  {
    var stripe := lb / 3;
    var index := lb % 3;
    var parity := stripe % 4;
    Place5(if index >= parity then index + 1 else index, parity, stripe)
  }

  /** Distinct logical blocks never share a physical block, and a RAID 5 data block is never parity. */
  lemma Raid1MapInjective(a: nat, b: nat)
    requires a != b
    ensures var p, q := Raid1Map(a), Raid1Map(b);
            p.row == q.row ==> p.disk1 !in {q.disk1, q.disk2} && p.disk2 !in {q.disk1, q.disk2}
  {
  }

  lemma Raid5MapInjective(a: nat, b: nat)
    requires a != b
    ensures var p, q := Raid5Map(a), Raid5Map(b);
            p.row == q.row ==> p.data != q.data && p.parity == q.parity
  {
  }

  // ----- where the blocks are -----

  /** Rows lie one after the other in the image, the disks of a row side by side. */
  lemma ImageLayout(disk: nat, row: nat)
    requires disk < NDISKS
    ensures PhysBlock(0, 0) == 1000 && PhysBlock(0, row + 1) == PhysBlock(3, row) + 1
    ensures PhysBlock(disk, row) == PhysBlock(0, row) + disk
  {
  }

  /** A block whose disk has not failed is read where it is laid out, in every mode: RAID 0 fills the image block
      by block, RAID 1 puts the two copies of a block side by side, RAID 5 three blocks and their parity in a row. */
  lemma ReadPlace(c: Config, st: Store, lb: nat)
    requires lb < LOGICAL_BLOCKS
    ensures c.mode == Raid0 ==> ReadBlock(c, st, lb) == st[1000 + lb]
    ensures c.mode == Raid1 ==> ReadBlock(c, st, lb) == st[1000 + 2 * lb + if c.failed == lb % 2 * 2 then 1 else 0]
    ensures c.mode == Raid5 && c.failed != Raid5Map(lb).data ==>
              ReadBlock(c, st, lb) == st[1000 + lb / 3 * 4 + Raid5Map(lb).data]
  {
    hide XorSurvivors;
  }

  /** The parity of the first row is on disk 0 and moves on by one disk from row to row; in a row the logical blocks
      are on the other disks in order. */
  lemma ParityRotates(lb: nat)
    ensures Raid5Map(0).parity == 0 && Raid5Map(0).row == 0
    ensures var p, q := Raid5Map(lb), Raid5Map(lb + 3);
            q.row == p.row + 1 && q.parity == (p.parity + 1) % NDISKS
    ensures var p, q := Raid5Map(lb), Raid5Map(lb + 1);
            q.row == p.row || q.row == p.row + 1
    ensures var p, q := Raid5Map(lb), Raid5Map(lb + 1);
            q.row == p.row ==> q.data > p.data
    ensures Raid5Map(lb).row * 3 <= lb < Raid5Map(lb).row * 3 + 3
  {
  }

  /** Over four consecutive rows every disk holds parity exactly once. */
  lemma ParityOnce(row: nat, disk: nat) returns (k: nat)
    requires disk < NDISKS
    ensures row <= k < row + 4 && Raid5Map(k * 3).row == k && Raid5Map(k * 3).parity == disk
    ensures forall j :: row <= j < row + 4 && Raid5Map(j * 3).parity == disk ==> j == k
  {
    k := row + (disk + 4 - row % 4) % 4;
  }

  /** Every block of a row is parity or the data of one logical block. */
  lemma RowFull(disk: nat, row: nat) returns (lb: nat)
    requires disk < NDISKS
    ensures row * 3 <= lb < row * 3 + 3 && Raid5Map(lb).row == row
    ensures Raid5Map(lb).data == disk || Raid5Map(lb).parity == disk
  {
    var parity := row % 4;
    lb := row * 3 + if disk == parity then 0 else if disk > parity then disk - 1 else disk;
  }

  // ----- reconstruction -----

  /** XOR of row `row` over the disks from `d` on, leaving out the disks in `skip`, on top of `acc`. */
  function XorFrom(st: Store, row: nat, skip: set<int>, d: nat, acc: Block): (r: Block)
    requires row < SWAP_ROWS
    decreases NDISKS - d
  {
    if d >= NDISKS then acc
    else XorFrom(st, row, skip, d + 1, if d in skip then acc else Xor(acc, Get(st, d, row)))
  }

  function XorSurvivors(st: Store, row: nat, skip: set<int>): Block
    requires row < SWAP_ROWS
  {
    XorFrom(st, row, skip, 0, ZERO_BLOCK)
  }

  /** Bringing one more block into the running XOR commutes with the rest of the loop. */
  lemma {:induction false} XorFromAcc(st: Store, row: nat, skip: set<int>, d: nat, acc: Block, x: Block)
    requires row < SWAP_ROWS
    ensures XorFrom(st, row, skip, d, Xor(x, acc)) == Xor(x, XorFrom(st, row, skip, d, acc))
    decreases NDISKS - d
  {
    if d < NDISKS && d !in skip {
      XorAssoc(x, acc, Get(st, d, row));
      XorFromAcc(st, row, skip, d + 1, Xor(acc, Get(st, d, row)), x);
    } else if d < NDISKS {
      XorFromAcc(st, row, skip, d + 1, acc, x);
    }
  }

  /** Any surviving disk can be taken out of the XOR first. */
  lemma {:induction false} Extract(st: Store, row: nat, skip: set<int>, e: nat, d: nat, acc: Block)
    requires row < SWAP_ROWS && d <= e < NDISKS && e !in skip
    ensures XorFrom(st, row, skip, d, acc) == Xor(Get(st, e, row), XorFrom(st, row, skip + {e}, d, acc))
    decreases NDISKS - d
  {
    if d == e {
      XorComm(acc, Get(st, e, row));
      XorFromAcc(st, row, skip, d + 1, acc, Get(st, e, row));
      SkipPast(st, row, skip, e, d + 1, acc);
    } else {
      Extract(st, row, skip, e, d + 1, if d in skip then acc else Xor(acc, Get(st, d, row)));
    }
  }

  lemma {:induction false} SkipPast(st: Store, row: nat, skip: set<int>, e: nat, d: nat, acc: Block)
    requires row < SWAP_ROWS && e < d
    ensures XorFrom(st, row, skip, d, acc) == XorFrom(st, row, skip + {e}, d, acc)
    decreases NDISKS - d
  {
    if d < NDISKS {
      SkipPast(st, row, skip, e, d + 1, if d in skip then acc else Xor(acc, Get(st, d, row)));
    }
  }

  /** The XOR depends only on the blocks it visits. */
  lemma {:induction false} XorFromFrame(st: Store, st': Store, row: nat, skip: set<int>, d: nat, acc: Block)
    requires row < SWAP_ROWS
    requires forall e: nat :: e < NDISKS && e !in skip ==> Get(st, e, row) == Get(st', e, row)
    ensures XorFrom(st, row, skip, d, acc) == XorFrom(st', row, skip, d, acc)
    decreases NDISKS - d
  {
    if d < NDISKS {
      XorFromFrame(st, st', row, skip, d + 1, if d in skip then acc else Xor(acc, Get(st, d, row)));
    }
  }

  lemma SurvivorsFrame(st: Store, st': Store, row: nat, skip: set<int>)
    requires row < SWAP_ROWS
    requires forall e: nat :: e < NDISKS && e !in skip ==> Get(st, e, row) == Get(st', e, row)
    ensures XorSurvivors(st, row, skip) == XorSurvivors(st', row, skip)
  {
    XorFromFrame(st, st', row, skip, 0, ZERO_BLOCK);
  }

  // ----- block reads and writes, one branch per branch of the driver -----

  function ReadBlock(c: Config, st: Store, lb: nat): Block
    requires lb < LOGICAL_BLOCKS
  {
    match c.mode
    case Raid0 => Get(st, lb % 4, lb / 4)
    case Raid1 =>
      var p := Raid1Map(lb);
      Get(st, if p.disk1 == c.failed then p.disk2 else p.disk1, p.row)
    case Raid5 =>
      var p := Raid5Map(lb);
      if c.failed == -1 || c.failed != p.data then Get(st, p.data, p.row)
      else XorSurvivors(st, p.row, {c.failed})
  }

  function WriteBlock(c: Config, st: Store, lb: nat, x: Block): Store
    requires lb < LOGICAL_BLOCKS
  {
    match c.mode
    case Raid0 => Put(st, lb % 4, lb / 4, x)
    case Raid1 =>
      var p := Raid1Map(lb);
      var st1 := if p.disk1 != c.failed then Put(st, p.disk1, p.row, x) else st;
      if p.disk2 != c.failed then Put(st1, p.disk2, p.row, x) else st1
    case Raid5 =>
      var p := Raid5Map(lb);
      var oldParity := Get(st, p.parity, p.row);
      if c.failed == -1 || (c.failed != p.data && c.failed != p.parity) then
        var newParity := Xor(Xor(oldParity, Get(st, p.data, p.row)), x);
        Put(Put(st, p.data, p.row, x), p.parity, p.row, newParity)
      else if c.failed == p.parity then Put(st, p.data, p.row, x)
      else
        Put(st, p.parity, p.row, Xor(Xor(oldParity, XorSurvivors(st, p.row, {c.failed})), x))
  }

  /** Rewriting a surviving data block with the read-modify-write parity keeps every reconstruction. */
  lemma ParityUpdateKeepsSurvivors(st: Store, st': Store, row: nat, skip: set<int>, data: nat, parity: nat, x: Block)
    requires row < SWAP_ROWS && data < NDISKS && parity < NDISKS && data != parity
    requires data !in skip && parity !in skip
    requires st' == Put(Put(st, data, row, x), parity, row, Xor(Xor(Get(st, parity, row), Get(st, data, row)), x))
    ensures XorSurvivors(st', row, skip) == XorSurvivors(st, row, skip)
  {
    var rest := skip + {data} + {parity};
    Extract(st, row, skip, data, 0, ZERO_BLOCK);
    Extract(st, row, skip + {data}, parity, 0, ZERO_BLOCK);
    Extract(st', row, skip, data, 0, ZERO_BLOCK);
    Extract(st', row, skip + {data}, parity, 0, ZERO_BLOCK);
    XorFromFrame(st, st', row, rest, 0, ZERO_BLOCK);
    XorUpdate(x, Get(st, parity, row), Get(st, data, row), XorSurvivors(st, row, rest));
  }

  /** The degraded write: the parity it stores makes the failed disk reconstruct to the new block. */
  lemma DegradedWriteReconstructs(st: Store, st': Store, row: nat, failed: nat, parity: nat, x: Block)
    requires row < SWAP_ROWS && failed < NDISKS && parity < NDISKS && failed != parity
    requires st' == Put(st, parity, row, Xor(Xor(Get(st, parity, row), XorSurvivors(st, row, {failed})), x))
    ensures XorSurvivors(st', row, {failed}) == x
  {
    var rest := {failed} + {parity};
    Extract(st, row, {failed}, parity, 0, ZERO_BLOCK);
    Extract(st', row, {failed}, parity, 0, ZERO_BLOCK);
    XorFromFrame(st, st', row, rest, 0, ZERO_BLOCK);
    XorRebuild(x, Get(st, parity, row), XorSurvivors(st, row, rest));
  }

  /** One block write is one array update, in every mode, for any failed disk and any disk contents:
      also when the two blocks share a stripe and one of them exists only through parity. */
  lemma WriteThenRead(c: Config, st: Store, lb: nat, x: Block, lb': nat)
    requires lb < LOGICAL_BLOCKS && lb' < LOGICAL_BLOCKS
    ensures ReadBlock(c, WriteBlock(c, st, lb, x), lb') == if lb' == lb then x else ReadBlock(c, st, lb')
  {
    match c.mode
    case Raid0 =>
    case Raid1 => if lb != lb' { Raid1MapInjective(lb, lb'); }
    case Raid5 => Raid5WriteThenRead(c, st, lb, x, lb');
  }

  lemma Raid5WriteThenRead(c: Config, st: Store, lb: nat, x: Block, lb': nat)
    requires c.mode == Raid5
    requires lb < LOGICAL_BLOCKS && lb' < LOGICAL_BLOCKS
    ensures ReadBlock(c, WriteBlock(c, st, lb, x), lb') == if lb' == lb then x else ReadBlock(c, st, lb')
  {
    hide Raid5Map, XorSurvivors, Get, Put;
    if lb != lb' { Raid5MapInjective(lb, lb'); }
    var p, q := Raid5Map(lb), Raid5Map(lb');
    if c.failed == q.data {
      hide WriteBlock;
      if q.row != p.row {
        OtherRowKeepsSurvivors(c, st, lb, x, q.row);
      } else if lb == lb' {
        LostBlockWrite(c, st, lb, x);
      } else {
        SameRowKeepsSurvivors(c, st, lb, x);
      }
    }
  }

  lemma LostBlockWrite(c: Config, st: Store, lb: nat, x: Block)
    requires c.mode == Raid5 && lb < LOGICAL_BLOCKS && c.failed == Raid5Map(lb).data
    ensures XorSurvivors(WriteBlock(c, st, lb, x), Raid5Map(lb).row, {c.failed}) == x
  {
    hide Raid5Map, XorSurvivors, Get, Put;
    var p := Raid5Map(lb);
    DegradedWriteReconstructs(st, WriteBlock(c, st, lb, x), p.row, p.data, p.parity, x);
  }

  lemma SameRowKeepsSurvivors(c: Config, st: Store, lb: nat, x: Block)
    requires c.mode == Raid5 && lb < LOGICAL_BLOCKS
    requires c.failed != Raid5Map(lb).data && c.failed != Raid5Map(lb).parity
    ensures XorSurvivors(WriteBlock(c, st, lb, x), Raid5Map(lb).row, {c.failed})
         == XorSurvivors(st, Raid5Map(lb).row, {c.failed})
  {
    hide Raid5Map, XorSurvivors, Get, Put;
    var p := Raid5Map(lb);
    ParityUpdateKeepsSurvivors(st, WriteBlock(c, st, lb, x), p.row, {c.failed}, p.data, p.parity, x);
  }

  lemma OtherRowKeepsSurvivors(c: Config, st: Store, lb: nat, x: Block, row: nat)
    requires c.mode == Raid5 && lb < LOGICAL_BLOCKS && row < SWAP_ROWS && row != Raid5Map(lb).row
    ensures XorSurvivors(WriteBlock(c, st, lb, x), row, {c.failed}) == XorSurvivors(st, row, {c.failed})
  {
    hide Raid5Map, XorSurvivors, Get, Put;
    SurvivorsFrame(st, WriteBlock(c, st, lb, x), row, {c.failed});
  }

  /** Swap writes stay inside the swap area: no file-system block changes. */
  lemma WriteBlockFrame(c: Config, st: Store, lb: nat, x: Block)
    requires lb < LOGICAL_BLOCKS
    ensures var st' := WriteBlock(c, st, lb, x);
            |st'| == |st| && forall k :: 0 <= k < |st| && !(SWAP_START_BLOCK <= k < SWAP_END_BLOCK) ==> st'[k] == st[k]
  {
  }

  // ----- pages -----

  function WriteBlocks(c: Config, st: Store, slot: nat, page: Page, i: nat): Store
    requires slot < MAX_SWAP_PAGES && i <= BLOCKS_PER_PAGE
    decreases BLOCKS_PER_PAGE - i
  {
    if i == BLOCKS_PER_PAGE then st
    else WriteBlocks(c, WriteBlock(c, st, slot * 4 + i, BlockOf(page, i)), slot, page, i + 1)
  }

  function WritePage(c: Config, st: Store, slot: nat, page: Page): Store
    requires slot < MAX_SWAP_PAGES
  {
    WriteBlocks(c, st, slot, page, 0)
  }

  /** The first i blocks of a slot, end to end. */
  function ReadBlocks(c: Config, st: Store, slot: nat, i: nat): (r: seq<bv8>)
    requires slot < MAX_SWAP_PAGES && i <= BLOCKS_PER_PAGE
    ensures |r| == i * BSIZE
    ensures forall j: nat :: j < i ==> r[j * BSIZE..(j + 1) * BSIZE] == ReadBlock(c, st, slot * 4 + j)
  {
    if i == 0 then []
    else
      var front := ReadBlocks(c, st, slot, i - 1);
      var r := front + ReadBlock(c, st, slot * 4 + (i - 1));
      assert forall j: nat :: j < i - 1 ==> r[j * BSIZE..(j + 1) * BSIZE] == front[j * BSIZE..(j + 1) * BSIZE];
      assert r[(i - 1) * BSIZE..i * BSIZE] == ReadBlock(c, st, slot * 4 + (i - 1));
      r
  }

  function ReadPage(c: Config, st: Store, slot: nat): (p: Page)
    requires slot < MAX_SWAP_PAGES
    ensures forall j: nat :: j < BLOCKS_PER_PAGE ==> BlockOf(p, j) == ReadBlock(c, st, slot * 4 + j)
  {
    ReadBlocks(c, st, slot, BLOCKS_PER_PAGE)
  }

  lemma {:induction false} WriteBlocksRead(c: Config, st: Store, slot: nat, page: Page, i: nat, lb: nat)
    requires slot < MAX_SWAP_PAGES && i <= BLOCKS_PER_PAGE && lb < LOGICAL_BLOCKS
    ensures ReadBlock(c, WriteBlocks(c, st, slot, page, i), lb)
         == if slot * 4 + i <= lb < slot * 4 + 4 then BlockOf(page, lb - slot * 4) else ReadBlock(c, st, lb)
    decreases BLOCKS_PER_PAGE - i
  {
    hide ReadBlock, WriteBlock, BlockOf;
    if i < BLOCKS_PER_PAGE {
      var st' := WriteBlock(c, st, slot * 4 + i, BlockOf(page, i));
      WriteBlocksRead(c, st', slot, page, i + 1, lb);
      WriteThenRead(c, st, slot * 4 + i, BlockOf(page, i), lb);
    }
  }

  /** A page write is an array update on slots: the slot written reads back, no other slot changes. */
  lemma WritePageReads(c: Config, st: Store, slot: nat, page: Page, slot': nat)
    requires slot < MAX_SWAP_PAGES && slot' < MAX_SWAP_PAGES
    ensures ReadPage(c, WritePage(c, st, slot, page), slot')
         == if slot' == slot then page else ReadPage(c, st, slot')
  {
    hide ReadBlock, BlockOf, WriteBlocks, ReadBlocks;
    var st' := WritePage(c, st, slot, page);
    forall j: nat | j < BLOCKS_PER_PAGE
      ensures BlockOf(ReadPage(c, st', slot'), j)
           == BlockOf(if slot' == slot then page else ReadPage(c, st, slot'), j)
    {
      WriteBlocksRead(c, st, slot, page, 0, slot' * 4 + j);
    }
    PagesEqualByBlocks(ReadPage(c, st', slot'), if slot' == slot then page else ReadPage(c, st, slot'));
  }

  // ----- redundancy: surviving a failure in the middle of a run -----

  predicate ParityClean(st: Store, row: nat)
    requires row < SWAP_ROWS
  {
    XorSurvivors(st, row, {}) == ZERO_BLOCK
  }

  /** What a healthy array must satisfy for any one disk to be allowed to fail; RAID 0 never allows it. */
  predicate Redundant(mode: Mode, st: Store) {
    match mode
    case Raid0 => false
    case Raid1 => forall lb: nat :: lb < LOGICAL_BLOCKS ==>
                    var p := Raid1Map(lb); Get(st, p.disk1, p.row) == Get(st, p.disk2, p.row)
    case Raid5 => forall row: nat :: row < SWAP_ROWS ==> ParityClean(st, row)
  }

  // ----- losing a disk -----

  /** The store after a disk is lost: its rows hold `junk`, whatever that is. */
  function Lose(st: Store, disk: nat, junk: seq<Block>): (st': Store)
    requires disk < NDISKS && |junk| == SWAP_ROWS
    ensures |st'| == |st|
    ensures forall d: nat, r: nat {:trigger Get(st', d, r)} :: InSwap(d, r) ==>
              Get(st', d, r) == if d == disk then junk[r] else Get(st, d, r)
    ensures forall k :: 0 <= k < |st| && !(SWAP_START_BLOCK <= k < SWAP_END_BLOCK) ==> st'[k] == st[k]
  {
    seq(|st|, k requires 0 <= k < |st| =>
      if SWAP_START_BLOCK <= k < SWAP_END_BLOCK && (k - SWAP_START_BLOCK) % 4 == disk
      then junk[(k - SWAP_START_BLOCK) / 4] else st[k])
  }

  /** The stores differ at most in what the given disk holds. */
  ghost predicate AgreeOff(st: Store, st': Store, disk: int) {
    forall d: nat, r: nat :: InSwap(d, r) && d != disk ==> Get(st', d, r) == Get(st, d, r)
  }

  /** A degraded array is read without the failed disk: its contents do not matter. */
  lemma ReadsWithout(c: Config, st: Store, st': Store, lb: nat)
    requires c.mode != Raid0 && AgreeOff(st, st', c.failed) && lb < LOGICAL_BLOCKS
    ensures ReadBlock(c, st', lb) == ReadBlock(c, st, lb)
  {
    hide XorSurvivors, Get;
    if c.mode == Raid5 && c.failed == Raid5Map(lb).data {
      SurvivorsFrame(st, st', Raid5Map(lb).row, {c.failed});
    }
  }

  /** It is written without it too: the failed disk is left alone, and its contents have no effect elsewhere. */
  lemma WritesWithout(c: Config, st: Store, st': Store, lb: nat, x: Block)
    requires c.mode != Raid0 && AgreeOff(st, st', c.failed) && lb < LOGICAL_BLOCKS
    ensures AgreeOff(WriteBlock(c, st, lb, x), WriteBlock(c, st', lb, x), c.failed)
    ensures forall r: nat :: 0 <= c.failed < NDISKS && r < SWAP_ROWS ==>
              Get(WriteBlock(c, st, lb, x), c.failed, r) == Get(st, c.failed, r)
  {
    hide XorSurvivors, Get;
    if c.mode == Raid5 { SurvivorsFrame(st, st', Raid5Map(lb).row, {c.failed}); }
  }

  /** A RAID 5 block keeps its value when its disk is lost if and only if its stripe XORs to zero. */
  lemma FailureKeepsBlockIff(st: Store, lb: nat, junk: seq<Block>)
    requires lb < LOGICAL_BLOCKS && |junk| == SWAP_ROWS
    ensures var p := Raid5Map(lb);
            ReadBlock(Config(Raid5, p.data), Lose(st, p.data, junk), lb) == ReadBlock(Config(Raid5, -1), st, lb)
            <==> ParityClean(st, p.row)
  {
    hide Lose;
    var p := Raid5Map(lb);
    ReadsWithout(Config(Raid5, p.data), st, Lose(st, p.data, junk), lb);
    RebuiltIff(st, p.row, p.data);
  }

  /** A RAID 1 block keeps its value when its first disk is lost if and only if its mirrors are equal. */
  lemma FailureKeepsMirrorIff(st: Store, lb: nat, junk: seq<Block>)
    requires lb < LOGICAL_BLOCKS && |junk| == SWAP_ROWS
    ensures var p := Raid1Map(lb);
            ReadBlock(Config(Raid1, p.disk1), Lose(st, p.disk1, junk), lb) == ReadBlock(Config(Raid1, -1), st, lb)
            <==> Get(st, p.disk1, p.row) == Get(st, p.disk2, p.row)
  {
    hide Lose;
  }

  /** RAID 0 reads every slot from all four disks: a slot keeps its page when a disk is lost if and only if the
      disk happens to hold the slot's block of it again. */
  lemma Raid0KeepsIff(c: Config, st: Store, slot: nat, failed: nat, junk: seq<Block>)
    requires c.mode == Raid0 && slot < MAX_SWAP_PAGES && failed < NDISKS && |junk| == SWAP_ROWS
    ensures ReadPage(Config(Raid0, failed), Lose(st, failed, junk), slot) == ReadPage(c, st, slot)
            <==> junk[slot] == BlockOf(ReadPage(c, st, slot), failed)
  {
    hide Lose, BlockOf, ReadBlocks;
    var st' := Lose(st, failed, junk);
    var p, p' := ReadPage(c, st, slot), ReadPage(Config(Raid0, failed), st', slot);
    assert (slot * 4 + failed) % 4 == failed && (slot * 4 + failed) / 4 == slot;
    assert BlockOf(p', failed) == junk[slot];
    if junk[slot] == BlockOf(p, failed) {
      forall j: nat | j < BLOCKS_PER_PAGE
        ensures BlockOf(p', j) == BlockOf(p, j)
      {
        assert (slot * 4 + j) % 4 == j;
      }
      PagesEqualByBlocks(p', p);
    }
  }

  /** So RAID 0 survives the loss of no disk: whatever a slot holds, some contents of the lost disk destroy it. */
  lemma Raid0Loses(c: Config, st: Store, slot: nat, failed: nat) returns (junk: seq<Block>)
    requires c.mode == Raid0 && slot < MAX_SWAP_PAGES && failed < NDISKS
    ensures |junk| == SWAP_ROWS
    ensures ReadPage(Config(Raid0, failed), Lose(st, failed, junk), slot) != ReadPage(c, st, slot)
  {
    hide Lose, BlockOf, ReadBlocks;
    var x := BlockOf(ReadPage(c, st, slot), failed);
    var y: Block := if x == ZERO_BLOCK then Fill(BSIZE, 1) else ZERO_BLOCK;
    assert y != x by { assert Fill(BSIZE, 1)[0] != ZERO_BLOCK[0]; }
    junk := seq(SWAP_ROWS, _ => y);
    Raid0KeepsIff(c, st, slot, failed, junk);
  }

  lemma RebuiltIff(st: Store, row: nat, d: nat)
    requires row < SWAP_ROWS && d < NDISKS
    ensures XorSurvivors(st, row, {d}) == Get(st, d, row) <==> ParityClean(st, row)
  {
    Extract(st, row, {}, d, 0, ZERO_BLOCK);
    assert {} + {d as int} == {d as int};
    XorZeroIff(Get(st, d, row), XorSurvivors(st, row, {d}));
  }

  /** Losing any one disk of a redundant array changes no logical block, whatever the lost disk holds. */
  lemma FailureKeepsReads(mode: Mode, st: Store, failed: nat, junk: seq<Block>, lb: nat)
    requires Redundant(mode, st) && failed < NDISKS && |junk| == SWAP_ROWS && lb < LOGICAL_BLOCKS
    ensures ReadBlock(Config(mode, failed), Lose(st, failed, junk), lb) == ReadBlock(Config(mode, -1), st, lb)
  {
    hide Lose;
    ReadsWithout(Config(mode, failed), st, Lose(st, failed, junk), lb);
    if mode == Raid5 {
      assert ParityClean(st, Raid5Map(lb).row);
      RebuiltIff(st, Raid5Map(lb).row, Raid5Map(lb).data);
    }
  }

  /** Healthy block writes keep the array redundant. */
  lemma HealthyWriteKeepsRedundant(mode: Mode, st: Store, lb: nat, x: Block)
    requires Redundant(mode, st) && lb < LOGICAL_BLOCKS
    ensures Redundant(mode, WriteBlock(Config(mode, -1), st, lb, x))
  {
    var st' := WriteBlock(Config(mode, -1), st, lb, x);
    match mode
    case Raid1 =>
      forall k: nat | k < LOGICAL_BLOCKS
        ensures var p := Raid1Map(k); Get(st', p.disk1, p.row) == Get(st', p.disk2, p.row)
      {
        if k != lb { Raid1MapInjective(k, lb); }
      }
    case Raid5 =>
      var p := Raid5Map(lb);
      forall row: nat | row < SWAP_ROWS
        ensures ParityClean(st', row)
      {
        assert ParityClean(st, row);
        if row == p.row {
          ParityUpdateKeepsSurvivors(st, st', row, {}, p.data, p.parity, x);
        } else {
          SurvivorsFrame(st, st', row, {});
        }
      }
  }

  lemma {:induction false} HealthyWritesKeepRedundant(mode: Mode, st: Store, slot: nat, page: Page, i: nat)
    requires Redundant(mode, st) && slot < MAX_SWAP_PAGES && i <= BLOCKS_PER_PAGE
    ensures Redundant(mode, WriteBlocks(Config(mode, -1), st, slot, page, i))
    decreases BLOCKS_PER_PAGE - i
  {
    hide Redundant, WriteBlock, BlockOf;
    if i < BLOCKS_PER_PAGE {
      HealthyWriteKeepsRedundant(mode, st, slot * 4 + i, BlockOf(page, i));
      var st' := WriteBlock(Config(mode, -1), st, slot * 4 + i, BlockOf(page, i));
      HealthyWritesKeepRedundant(mode, st', slot, page, i + 1);
    }
  }

  // ----- runs -----

  /** A page is written; a disk is lost; the contents of the disk that is lost change again. */
  datatype Op = Write(slot: nat, page: Page) | Fail(disk: nat, junk: seq<Block>) | Decay(junk: seq<Block>)

  predicate OpOk(op: Op) {
    match op
    case Write(slot, _) => slot < MAX_SWAP_PAGES
    case Fail(disk, junk) => disk < NDISKS && |junk| == SWAP_ROWS
    case Decay(junk) => |junk| == SWAP_ROWS
  }

  datatype Array = Array(config: Config, store: Store)

  /** One event of a run; after the first failure the array stays with that failed disk. */
  function Step(a: Array, op: Op): Array
    requires OpOk(op)
  {
    match op
    case Write(slot, page) => a.(store := WritePage(a.config, a.store, slot, page))
    case Fail(disk, junk) =>
      if a.config.failed == -1 then Array(Config(a.config.mode, disk), Lose(a.store, disk, junk)) else a
    case Decay(junk) =>
      if 0 <= a.config.failed < NDISKS then a.(store := Lose(a.store, a.config.failed, junk)) else a
  }

  function Run(a: Array, ops: seq<Op>): Array
    requires forall k :: 0 <= k < |ops| ==> OpOk(ops[k])
    decreases |ops|
  {
    if ops == [] then a else Run(Step(a, ops[0]), ops[1..])
  }

  /** The reference: an array of pages in which the last write to a slot is what it holds. */
  function LastWritten(ops: seq<Op>, slot: nat, initial: Page): Page {
    if ops == [] then initial
    else
      var op := ops[|ops| - 1];
      if op.Write? && op.slot == slot then op.page
      else LastWritten(ops[..|ops| - 1], slot, initial)
  }

  lemma {:induction false} LastWrittenHead(ops: seq<Op>, slot: nat, initial: Page)
    requires ops != []
    ensures LastWritten(ops, slot, initial)
         == LastWritten(ops[1..], slot,
                        if ops[0].Write? && ops[0].slot == slot then ops[0].page else initial)
  {
    if |ops| > 1 {
      var op := ops[|ops| - 1];
      assert ops[1..][|ops| - 2] == op;
      assert ops[1..][..|ops| - 2] == ops[..|ops| - 1][1..];
      if !(op.Write? && op.slot == slot) {
        LastWrittenHead(ops[..|ops| - 1], slot, initial);
      }
    } else {
      assert ops[1..] == [];
      assert ops[..0] == [];
    }
  }

  /** Mirrored or with parity; redundant as long as no disk is lost. */
  predicate Sound(a: Array) {
    && a.config.mode != Raid0 && -1 <= a.config.failed < NDISKS
    && (a.config.failed == -1 ==> Redundant(a.config.mode, a.store))
  }

  lemma StepReads(a: Array, op: Op, slot: nat)
    requires OpOk(op) && slot < MAX_SWAP_PAGES
    requires op.Write? || Sound(a)
    ensures var b := Step(a, op);
            ReadPage(b.config, b.store, slot)
            == if op.Write? && op.slot == slot then op.page else ReadPage(a.config, a.store, slot)
    ensures Sound(a) ==> Sound(Step(a, op))
  {
    hide Redundant, ReadPage, BlockOf, ReadBlock, Lose;
    var b := Step(a, op);
    match op
    case Write(s, page) =>
      WritePageReads(a.config, a.store, s, page, slot);
      if Sound(a) && a.config.failed == -1 {
        HealthyWritesKeepRedundant(a.config.mode, a.store, s, page, 0);
      }
    case Fail(disk, junk) =>
      if a.config.failed == -1 {
        forall lb: nat | lb < LOGICAL_BLOCKS
          ensures ReadBlock(b.config, b.store, lb) == ReadBlock(a.config, a.store, lb)
        {
          FailureKeepsReads(a.config.mode, a.store, disk, junk, lb);
        }
        SamePage(a, b, slot);
      }
    case Decay(junk) =>
      forall lb: nat | lb < LOGICAL_BLOCKS
        ensures ReadBlock(b.config, b.store, lb) == ReadBlock(a.config, a.store, lb)
      {
        ReadsWithout(a.config, a.store, b.store, lb);
      }
      SamePage(a, b, slot);
  }

  lemma SamePage(a: Array, b: Array, slot: nat)
    requires slot < MAX_SWAP_PAGES
    requires forall lb: nat :: lb < LOGICAL_BLOCKS ==>
               ReadBlock(b.config, b.store, lb) == ReadBlock(a.config, a.store, lb)
    ensures ReadPage(b.config, b.store, slot) == ReadPage(a.config, a.store, slot)
  {
    hide ReadBlock, BlockOf, ReadBlocks;
    var p, p' := ReadPage(a.config, a.store, slot), ReadPage(b.config, b.store, slot);
    forall j: nat | j < BLOCKS_PER_PAGE
      ensures BlockOf(p', j) == BlockOf(p, j)
    {
      assert ReadBlock(b.config, b.store, slot * 4 + j) == ReadBlock(a.config, a.store, slot * 4 + j);
    }
    PagesEqualByBlocks(p', p);
  }

  /** Main result, fixed configuration: from any disk contents, in every mode and for any failed disk,
      after any sequence of page writes a slot reads back the last page written to it. */
  lemma {:induction false} RunIsPageArray(a: Array, ops: seq<Op>, slot: nat)
    requires forall k :: 0 <= k < |ops| ==> OpOk(ops[k]) && ops[k].Write?
    requires slot < MAX_SWAP_PAGES
    ensures var b := Run(a, ops);
            b.config == a.config
            && ReadPage(b.config, b.store, slot) == LastWritten(ops, slot, ReadPage(a.config, a.store, slot))
    decreases |ops|
  {
    if ops != [] {
      StepReads(a, ops[0], slot);
      RunIsPageArray(Step(a, ops[0]), ops[1..], slot);
      LastWrittenHead(ops, slot, ReadPage(a.config, a.store, slot));
    }
  }

  /** Main result, failure in mid-run: from a redundant RAID 1 or RAID 5 array, whichever disk is lost, whenever
      it is, and whatever it holds from then on, every slot still reads the last page written to it, before or
      after the loss. */
  lemma {:induction false} RunSurvivesFailure(a: Array, ops: seq<Op>, slot: nat)
    requires forall k :: 0 <= k < |ops| ==> OpOk(ops[k])
    requires Sound(a) && slot < MAX_SWAP_PAGES
    ensures var b := Run(a, ops);
            Sound(b)
            && ReadPage(b.config, b.store, slot) == LastWritten(ops, slot, ReadPage(a.config, a.store, slot))
    decreases |ops|
  {
    if ops != [] {
      StepReads(a, ops[0], slot);
      RunSurvivesFailure(Step(a, ops[0]), ops[1..], slot);
      LastWrittenHead(ops, slot, ReadPage(a.config, a.store, slot));
    }
  }

  /** RAID 0 over a run: a page written before the loss is read back if and only if the lost disk happens to hold
      its block of it again. */
  lemma Raid0RunIff(a: Array, ops: seq<Op>, slot: nat, page: Page, disk: nat, junk: seq<Block>)
    requires a.config == Config(Raid0, -1) && slot < MAX_SWAP_PAGES && disk < NDISKS && |junk| == SWAP_ROWS
    requires forall k :: 0 <= k < |ops| ==> OpOk(ops[k]) && ops[k].Write?
    requires LastWritten(ops, slot, ReadPage(a.config, a.store, slot)) == page
    ensures var b := Step(Run(a, ops), Fail(disk, junk));
            ReadPage(b.config, b.store, slot) == page <==> junk[slot] == BlockOf(page, disk)
  {
    hide Lose, BlockOf, ReadPage;
    RunIsPageArray(a, ops, slot);
    Raid0KeepsIff(a.config, Run(a, ops).store, slot, disk, junk);
  }
}
