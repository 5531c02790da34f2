/** The driver's swap_disk_read and swap_disk_write as they run: block loops, byte loops and the
    static scratch buffers. Each is proved equal to the block-array functions of Raid. */
module SwapDriver {
  import opened Bytes
  import opened Raid

  class Driver {
    var raidMode: Mode
    var failedDisk: int      // what current_failed_disk() answers
    var blocks: Store        // the disk image, as bread and bwrite present it

    // raid5_old_data, raid5_old_parity, raid5_new_parity, raid5_recovered
    const oldData: array<bv8>
    const oldParity: array<bv8>
    const newParity: array<bv8>
    const recovered: array<bv8>

    ghost function Scratch(): set<object> {
      {oldData, oldParity, newParity, recovered}
    }

    ghost predicate Valid()
      reads this
    {
      && oldData.Length == oldParity.Length == newParity.Length == recovered.Length == BSIZE
      && oldData != oldParity && oldData != newParity && oldData != recovered
      && oldParity != newParity && oldParity != recovered && newParity != recovered
    }

    function Conf(): Config
      reads this
    {
      Config(raidMode, failedDisk)
    }

    constructor (mode: Mode, image: Store)
      ensures Valid() && fresh(Scratch())
      ensures Conf() == Config(mode, CurrentFailedDisk(mode)) && blocks == image
    {
      raidMode, failedDisk, blocks := mode, CurrentFailedDisk(mode), image;
      oldData := new bv8[BSIZE];
      oldParity := new bv8[BSIZE];
      newParity := new bv8[BSIZE];
      recovered := new bv8[BSIZE];
    }

    static method Clear(a: array<bv8>)
      requires a.Length == BSIZE
      modifies a
      ensures a[..] == ZERO_BLOCK
    {
      for j := 0 to BSIZE
        invariant forall k :: 0 <= k < j ==> a[k] == 0
      {
        a[j] := 0;
      }
    }

    static method CopyTo(a: array<bv8>, b: Block)
      requires a.Length == BSIZE
      modifies a
      ensures a[..] == b
    {
      for j := 0 to BSIZE
        invariant a[..j] == b[..j]
      {
        a[j] := b[j];
      }
    }

    static method XorInto(a: array<bv8>, b: Block)
      requires a.Length == BSIZE
      modifies a
      ensures a[..] == Xor(old(a[..]), b)
    {
      ghost var a0: Block := a[..];
      for j := 0 to BSIZE
        invariant forall k :: 0 <= k < j ==> a[k] == Xor(a0, b)[k]
        invariant forall k :: j <= k < BSIZE ==> a[k] == a0[k]
      {
        a[j] := a[j] ^ b[j];
      }
    }

    /** The reconstruction loop: XOR of the row over every disk but the failed one. */
    method XorRow(acc: array<bv8>, row: nat)
      requires Valid() && acc in Scratch() && acc.Length == BSIZE && row < SWAP_ROWS
      modifies acc
      ensures acc[..] == XorSurvivors(blocks, row, {failedDisk})
    {
      Clear(acc);
      var d := 0;
      while d < NDISKS
        invariant d <= NDISKS
        invariant XorFrom(blocks, row, {failedDisk}, d, acc[..]) == XorSurvivors(blocks, row, {failedDisk})
      {
        if d != failedDisk {
          XorInto(acc, Get(blocks, d, row));
        }
        d := d + 1;
      }
    }

    /** new_parity = old_parity ^ old_data ^ src, byte by byte. */
    method MixParity(src: Block)
      requires Valid()
      modifies newParity
      ensures newParity[..] == Xor(Xor(oldParity[..], oldData[..]), src)
    {
      ghost var np := Xor(Xor(oldParity[..], oldData[..]), src);
      for j := 0 to BSIZE
        invariant forall k :: 0 <= k < j ==> newParity[k] == np[k]
      {
        newParity[j] := oldParity[j] ^ oldData[j] ^ src[j];
      }
    }

    method ReadLogical(lb: nat) returns (b: Block)
      requires Valid() && lb < LOGICAL_BLOCKS
      modifies Scratch()
      ensures b == ReadBlock(Conf(), blocks, lb)
    {
      match raidMode {
        case Raid0 =>
          b := Get(blocks, lb % 4, lb / 4);
        case Raid1 =>
          var p := Raid1Map(lb);
          var use := if p.disk1 == failedDisk then p.disk2 else p.disk1;
          b := Get(blocks, use, p.row);
        case Raid5 =>
          var p := Raid5Map(lb);
          if failedDisk == -1 {
            b := Get(blocks, p.data, p.row);
          } else if failedDisk != p.data {
            b := Get(blocks, p.data, p.row);
          } else {
            XorRow(recovered, p.row);
            b := recovered[..];
          }
      }
    }

    method WriteLogical(lb: nat, src: Block)
      requires Valid() && lb < LOGICAL_BLOCKS
      modifies this`blocks, Scratch()
      ensures blocks == WriteBlock(Conf(), old(blocks), lb, src)
    {
      match raidMode {
        case Raid0 =>
          blocks := Put(blocks, lb % 4, lb / 4, src);
        case Raid1 =>
          var p := Raid1Map(lb);
          if p.disk1 != failedDisk {
            blocks := Put(blocks, p.disk1, p.row, src);
          }
          if p.disk2 != failedDisk {
            blocks := Put(blocks, p.disk2, p.row, src);
          }
        case Raid5 =>
          var p := Raid5Map(lb);
          if failedDisk == -1 || (failedDisk != p.data && failedDisk != p.parity) {
            CopyTo(oldData, Get(blocks, p.data, p.row));
            CopyTo(oldParity, Get(blocks, p.parity, p.row));
            MixParity(src);
            blocks := Put(blocks, p.data, p.row, src);
            blocks := Put(blocks, p.parity, p.row, newParity[..]);
          } else if failedDisk == p.parity {
            blocks := Put(blocks, p.data, p.row, src);
          } else {
            XorRow(oldData, p.row);
            CopyTo(oldParity, Get(blocks, p.parity, p.row));
            MixParity(src);
            blocks := Put(blocks, p.parity, p.row, newParity[..]);
          }
      }
    }

    method SwapDiskRead(slot: nat) returns (dst: Page)
      requires Valid() && slot < MAX_SWAP_PAGES
      modifies Scratch()
      ensures dst == ReadPage(Conf(), blocks, slot)
    {
      hide ReadBlock;
      var bytes: seq<bv8> := [];
      for i := 0 to BLOCKS_PER_PAGE
        invariant bytes == ReadBlocks(Conf(), blocks, slot, i)
      {
        var b := ReadLogical(slot * 4 + i);
        bytes := bytes + b;
      }
      dst := bytes;
    }

    method SwapDiskWrite(slot: nat, src: Page)
      requires Valid() && slot < MAX_SWAP_PAGES
      modifies this`blocks, Scratch()
      ensures blocks == WritePage(Conf(), old(blocks), slot, src)
    {
      hide WriteBlock, BlockOf;
      for i := 0 to BLOCKS_PER_PAGE
        invariant WriteBlocks(Conf(), blocks, slot, src, i) == WritePage(Conf(), old(blocks), slot, src)
      {
        WriteLogical(slot * 4 + i, BlockOf(src, i));
      }
    }
  }
}
