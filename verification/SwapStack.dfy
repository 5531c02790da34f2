/** The RAID driver on top of the buffer cache: what the accesses that swap_disk_read and swap_disk_write make
    through bread and bwrite amount to, whatever other processes do to other blocks between them. */
module SwapStack {
  import opened Bytes
  import opened Raid
  import C = BlockIo

  type Event = C.Event

  // ----- the swap area as the cache shows it -----

  predicate InArea(n: nat) {
    SWAP_START_BLOCK <= n < SWAP_END_BLOCK
  }

  ghost function Image(l: C.Disk): Store {
    seq(SWAP_END_BLOCK, n requires 0 <= n < SWAP_END_BLOCK => if InArea(n) then l[n] else ZERO_BLOCK)
  }

  /** The events of a trace that concern the swap area. */
  function AreaEvents(t: seq<Event>): seq<Event>
    decreases |t|
  {
    if t == [] then []
    else (if !t[0].Quiet? && InArea(t[0].n) then [t[0]] else []) + AreaEvents(t[1..])
  }

  /** A disk image answers the accesses and takes the changes, and becomes st'. */
  ghost predicate Follows(st: Store, t: seq<Event>, st': Store)
    decreases |t|
  {
    if t == [] then st' == st
    else
      match t[0]
      case Quiet => Follows(st, t[1..], st')
      case Got(n, data) => n < |st| && data == st[n] && Follows(st, t[1..], st')
      case Changed(n, data) => n < |st| && Follows(st[n := data], t[1..], st')
  }

  lemma {:induction false} FollowsSplit(st: Store, t: seq<Event>, u: seq<Event>, st': Store) returns (mid: Store)
    requires Follows(st, t + u, st')
    ensures Follows(st, t, mid) && Follows(mid, u, st')
    decreases |t|
  {
    if t == [] {
      assert t + u == u;
      mid := st;
    } else {
      assert (t + u)[1..] == t[1..] + u;
      mid := FollowsSplit(if t[0].Changed? then st[t[0].n := t[0].data] else st, t[1..], u, st');
    }
  }

  lemma ImageChanged(l: C.Disk, n: nat, data: Block)
    ensures Image(l[n := data]) == if InArea(n) then Image(l)[n := data] else Image(l)
  {
  }

  /** Over a run of the cache the swap area follows the accesses to it: accesses to other blocks neither see nor
      change it. */
  lemma {:induction false} AreaFollows(s: C.Sys, es: seq<C.Step>, s': C.Sys)
    requires C.Inv(s) && C.IsRun(s, es, s')
    ensures Follows(Image(s.latest), AreaEvents(C.Trace(s, es, s')), Image(s'.latest))
    decreases |es|
  {
    hide C.Inv, C.Do, C.Possible, C.Panics, C.Seen, Image, InArea;
    if es != [] {
      var s1, e := C.Do(s, es[0]), C.Seen(s, es[0]);
      C.StepInv(s, es[0]);
      C.SeenLatest(s, es[0]);
      AreaFollows(s1, es[1..], s');
      var rest := C.Trace(s1, es[1..], s');
      assert C.Trace(s, es, s') == [e] + rest && ([e] + rest)[1..] == rest;
      if e.Changed? { ImageChanged(s.latest, e.n, e.data); }
      if !e.Quiet? && InArea(e.n) {
        ImageAt(s.latest, e.n);
        assert ([e] + AreaEvents(rest))[1..] == AreaEvents(rest);
      } else {
        assert [] + AreaEvents(rest) == AreaEvents(rest);
      }
    }
  }

  lemma ImageAt(l: C.Disk, n: nat)
    requires InArea(n)
    ensures n < |Image(l)| && Image(l)[n] == l[n]
  {
  }

  // ----- the accesses the driver makes, given what its breads returned -----

  /** What the breads of one block operation returned, in the order of the code. */
  type Observed = nat -> Block

  /** swap_bread and brelse. */
  function Look(disk: nat, row: nat, x: Block): seq<Event> {
    [C.Got(PhysBlock(disk, row), x)]
  }

  /** swap_bread, memmove into the buffer, bwrite and brelse. */
  function Overwrite(disk: nat, row: nat, x: Block, y: Block): seq<Event> {
    [C.Got(PhysBlock(disk, row), x), C.Changed(PhysBlock(disk, row), y)]
  }

  /** The reconstruction loop from disk d on. */
  function LookRow(row: nat, failed: int, d: nat, seen: Observed): seq<Event>
    decreases NDISKS - d
  {
    if d >= NDISKS then []
    else (if d == failed then [] else Look(d, row, seen(d))) + LookRow(row, failed, d + 1, seen)
  }

  function XorSeen(failed: int, d: nat, acc: Block, seen: Observed): Block
    decreases NDISKS - d
  {
    if d >= NDISKS then acc else XorSeen(failed, d + 1, if d == failed then acc else Xor(acc, seen(d)), seen)
  }

  function ReadEvents(c: Config, lb: nat, seen: Observed): seq<Event> {
    match c.mode
    case Raid0 => Look(lb % 4, lb / 4, seen(0))
    case Raid1 =>
      var p := Raid1Map(lb);
      Look(if p.disk1 == c.failed then p.disk2 else p.disk1, p.row, seen(0))
    case Raid5 =>
      var p := Raid5Map(lb);
      if c.failed == -1 || c.failed != p.data then Look(p.data, p.row, seen(0))
      else LookRow(p.row, c.failed, 0, seen)
  }

  /** What the driver copies to dst. */
  function Answer(c: Config, lb: nat, seen: Observed): Block {
    if c.mode == Raid5 && c.failed == Raid5Map(lb).data then XorSeen(c.failed, 0, ZERO_BLOCK, seen) else seen(0)
  }

  function WriteEvents(c: Config, lb: nat, x: Block, seen: Observed): seq<Event> {
    match c.mode
    case Raid0 => Overwrite(lb % 4, lb / 4, seen(0), x)
    case Raid1 =>
      var p := Raid1Map(lb);
      (if p.disk1 != c.failed then Overwrite(p.disk1, p.row, seen(0), x) else [])
      + (if p.disk2 != c.failed then Overwrite(p.disk2, p.row, seen(1), x) else [])
    case Raid5 =>
      var p := Raid5Map(lb);
      if c.failed == -1 || (c.failed != p.data && c.failed != p.parity) then
        Look(p.data, p.row, seen(0)) + (Look(p.parity, p.row, seen(1))
        + (Overwrite(p.data, p.row, seen(2), x)
        + Overwrite(p.parity, p.row, seen(3), Xor(Xor(seen(1), seen(0)), x))))
      else if c.failed == p.parity then Overwrite(p.data, p.row, seen(0), x)
      else
        LookRow(p.row, c.failed, 0, seen) + (Look(p.parity, p.row, seen(4))
        + Overwrite(p.parity, p.row, seen(5), Xor(Xor(seen(4), XorSeen(c.failed, 0, ZERO_BLOCK, seen)), x)))
  }

  // ----- one block operation -----

  lemma LookFollows(st: Store, disk: nat, row: nat, x: Block, st': Store)
    requires InSwap(disk, row) && Follows(st, Look(disk, row, x), st')
    ensures st' == st && x == Get(st, disk, row)
  {
    assert Look(disk, row, x)[1..] == [];
  }

  lemma OverwriteFollows(st: Store, disk: nat, row: nat, x: Block, y: Block, st': Store)
    requires InSwap(disk, row) && Follows(st, Overwrite(disk, row, x, y), st')
    ensures st' == Put(st, disk, row, y)
  {
    var n := PhysBlock(disk, row);
    var t: seq<Event> := [C.Changed(n, y)];
    assert Overwrite(disk, row, x, y)[1..] == t;
    assert Follows(st, t, st');
    assert t[1..] == [];
    assert Follows(st[n := y], t[1..], st');
  }

  lemma {:induction false} RowFollows(st: Store, row: nat, failed: int, d: nat, acc: Block, seen: Observed, st': Store)
    requires row < SWAP_ROWS && Follows(st, LookRow(row, failed, d, seen), st')
    ensures st' == st && XorSeen(failed, d, acc, seen) == XorFrom(st, row, {failed}, d, acc)
    decreases NDISKS - d
  {
    hide Look, Get;
    if d < NDISKS {
      var acc' := if d == failed then acc else Xor(acc, seen(d));
      if d == failed {
        assert [] + LookRow(row, failed, d + 1, seen) == LookRow(row, failed, d + 1, seen);
      } else {
        var mid := FollowsSplit(st, Look(d, row, seen(d)), LookRow(row, failed, d + 1, seen), st');
        LookFollows(st, d, row, seen(d), mid);
      }
      RowFollows(st, row, failed, d + 1, acc', seen, st');
    }
  }

  /** A block read through the cache returns what the array of blocks holds. */
  lemma ReadFollows(c: Config, st: Store, lb: nat, seen: Observed, st': Store)
    requires lb < LOGICAL_BLOCKS && Follows(st, ReadEvents(c, lb, seen), st')
    ensures st' == st && Answer(c, lb, seen) == ReadBlock(c, st, lb)
  {
    hide Look, Get, Follows, LookRow, XorSeen;
    match c.mode
    case Raid0 => LookFollows(st, lb % 4, lb / 4, seen(0), st');
    case Raid1 =>
      var p := Raid1Map(lb);
      LookFollows(st, if p.disk1 == c.failed then p.disk2 else p.disk1, p.row, seen(0), st');
    case Raid5 =>
      var p := Raid5Map(lb);
      if c.failed == -1 || c.failed != p.data {
        LookFollows(st, p.data, p.row, seen(0), st');
      } else {
        RowFollows(st, p.row, c.failed, 0, ZERO_BLOCK, seen, st');
      }
  }

  /** A block write through the cache is the write on the array of blocks. */
  lemma WriteFollows(c: Config, st: Store, lb: nat, x: Block, seen: Observed, st': Store)
    requires lb < LOGICAL_BLOCKS && Follows(st, WriteEvents(c, lb, x, seen), st')
    ensures st' == WriteBlock(c, st, lb, x)
  {
    hide Look, Overwrite, Get, Put, Follows, LookRow, XorSeen;
    match c.mode
    case Raid0 => OverwriteFollows(st, lb % 4, lb / 4, seen(0), x, st');
    case Raid1 => MirrorFollows(c, st, lb, x, seen, st');
    case Raid5 =>
      var p := Raid5Map(lb);
      if c.failed == -1 || (c.failed != p.data && c.failed != p.parity) {
        HealthyFollows(st, p, x, seen, st');
      } else if c.failed == p.parity {
        OverwriteFollows(st, p.data, p.row, seen(0), x, st');
      } else {
        DegradedFollows(c, st, p, x, seen, st');
      }
  }

  lemma MirrorFollows(c: Config, st: Store, lb: nat, x: Block, seen: Observed, st': Store)
    requires c.mode == Raid1 && lb < LOGICAL_BLOCKS && Follows(st, WriteEvents(c, lb, x, seen), st')
    ensures st' == WriteBlock(c, st, lb, x)
  {
    hide Overwrite, Get, Put;
    var p := Raid1Map(lb);
    var first := if p.disk1 != c.failed then Overwrite(p.disk1, p.row, seen(0), x) else [];
    var second := if p.disk2 != c.failed then Overwrite(p.disk2, p.row, seen(1), x) else [];
    var mid := FollowsSplit(st, first, second, st');
    if p.disk1 != c.failed { OverwriteFollows(st, p.disk1, p.row, seen(0), x, mid); }
    if p.disk2 != c.failed { OverwriteFollows(mid, p.disk2, p.row, seen(1), x, st'); }
  }

  lemma HealthyFollows(st: Store, p: Place5, x: Block, seen: Observed, st': Store)
    requires p.row < SWAP_ROWS && p.data < NDISKS && p.parity < NDISKS
    requires Follows(st, Look(p.data, p.row, seen(0)) + (Look(p.parity, p.row, seen(1))
                         + (Overwrite(p.data, p.row, seen(2), x)
                         + Overwrite(p.parity, p.row, seen(3), Xor(Xor(seen(1), seen(0)), x)))), st')
    ensures st' == Put(Put(st, p.data, p.row, x), p.parity, p.row,
                       Xor(Xor(Get(st, p.parity, p.row), Get(st, p.data, p.row)), x))
  {
    hide Look, Overwrite, Get, Put, Follows;
    var y := Xor(Xor(seen(1), seen(0)), x);
    var w1, w2 := Overwrite(p.data, p.row, seen(2), x), Overwrite(p.parity, p.row, seen(3), y);
    var l0, l1 := Look(p.data, p.row, seen(0)), Look(p.parity, p.row, seen(1));
    var s0 := FollowsSplit(st, l0, l1 + (w1 + w2), st');
    LookFollows(st, p.data, p.row, seen(0), s0);
    var s1 := FollowsSplit(s0, l1, w1 + w2, st');
    LookFollows(s0, p.parity, p.row, seen(1), s1);
    var s2 := FollowsSplit(s1, w1, w2, st');
    OverwriteFollows(s1, p.data, p.row, seen(2), x, s2);
    OverwriteFollows(s2, p.parity, p.row, seen(3), y, st');
  }

  lemma DegradedFollows(c: Config, st: Store, p: Place5, x: Block, seen: Observed, st': Store)
    requires p.row < SWAP_ROWS && p.parity < NDISKS
    requires Follows(st, LookRow(p.row, c.failed, 0, seen) + (Look(p.parity, p.row, seen(4))
                         + Overwrite(p.parity, p.row, seen(5),
                                     Xor(Xor(seen(4), XorSeen(c.failed, 0, ZERO_BLOCK, seen)), x))), st')
    ensures st' == Put(st, p.parity, p.row,
                       Xor(Xor(Get(st, p.parity, p.row), XorSurvivors(st, p.row, {c.failed})), x))
  {
    hide Look, Overwrite, Get, Put, Follows, LookRow, XorSeen, XorFrom;
    var y := Xor(Xor(seen(4), XorSeen(c.failed, 0, ZERO_BLOCK, seen)), x);
    var l0, l1, w := LookRow(p.row, c.failed, 0, seen), Look(p.parity, p.row, seen(4)),
                     Overwrite(p.parity, p.row, seen(5), y);
    var s0 := FollowsSplit(st, l0, l1 + w, st');
    RowFollows(st, p.row, c.failed, 0, ZERO_BLOCK, seen, s0);
    var s1 := FollowsSplit(s0, l1, w, st');
    LookFollows(s0, p.parity, p.row, seen(4), s1);
    OverwriteFollows(s1, p.parity, p.row, seen(5), y, st');
  }

  // ----- pages and runs of the driver -----

  /** A call of the driver, with what its breads returned for each block of the page. */
  datatype Call =
    | Save(slot: nat, page: Page, seen: nat -> Observed)  // swap_disk_write
    | Load(slot: nat, seen: nat -> Observed)              // swap_disk_read

  /** The accesses from block i of the page on. */
  function CallEvents(c: Config, call: Call, i: nat): seq<Event>
    requires i <= BLOCKS_PER_PAGE
    decreases BLOCKS_PER_PAGE - i
  {
    if i == BLOCKS_PER_PAGE then []
    else
      var lb := call.slot * 4 + i;
      (if call.Save? then WriteEvents(c, lb, BlockOf(call.page, i), call.seen(i)) else ReadEvents(c, lb, call.seen(i)))
      + CallEvents(c, call, i + 1)
  }

  /** What a Load leaves in dst, block by block. */
  predicate Returns(c: Config, call: Call, dst: Page) {
    forall i: nat :: i < BLOCKS_PER_PAGE ==> BlockOf(dst, i) == Answer(c, call.slot * 4 + i, call.seen(i))
  }

  lemma SaveUnfolds(c: Config, st: Store, call: Call, i: nat)
    requires call.Save? && call.slot < MAX_SWAP_PAGES && i < BLOCKS_PER_PAGE
    ensures var lb, x := call.slot * 4 + i, BlockOf(call.page, i);
            && CallEvents(c, call, i) == WriteEvents(c, lb, x, call.seen(i)) + CallEvents(c, call, i + 1)
            && WriteBlocks(c, st, call.slot, call.page, i)
               == WriteBlocks(c, WriteBlock(c, st, lb, x), call.slot, call.page, i + 1)
  {
    hide WriteEvents, ReadEvents, WriteBlock, BlockOf;
  }

  lemma LoadUnfolds(c: Config, call: Call, i: nat)
    requires call.Load? && i < BLOCKS_PER_PAGE
    ensures CallEvents(c, call, i) == ReadEvents(c, call.slot * 4 + i, call.seen(i)) + CallEvents(c, call, i + 1)
  {
    hide WriteEvents, ReadEvents, BlockOf;
  }

  lemma {:induction false} SaveFollows(c: Config, st: Store, call: Call, i: nat, st': Store)
    requires call.Save? && call.slot < MAX_SWAP_PAGES && i <= BLOCKS_PER_PAGE
    requires Follows(st, CallEvents(c, call, i), st')
    ensures st' == WriteBlocks(c, st, call.slot, call.page, i)
    decreases BLOCKS_PER_PAGE - i
  {
    hide WriteEvents, ReadEvents, WriteBlock, BlockOf;
    if i == BLOCKS_PER_PAGE {
      assert CallEvents(c, call, i) == [];
    } else {
      SaveUnfolds(c, st, call, i);
      hide Follows, CallEvents, WriteBlocks;
      var lb, x := call.slot * 4 + i, BlockOf(call.page, i);
      var mid := FollowsSplit(st, WriteEvents(c, lb, x, call.seen(i)), CallEvents(c, call, i + 1), st');
      WriteFollows(c, st, lb, x, call.seen(i), mid);
      SaveFollows(c, mid, call, i + 1, st');
    }
  }

  /** Block j of the page is copied to dst as the array holds it. */
  predicate Answered(c: Config, st: Store, call: Call, j: nat)
    requires call.slot < MAX_SWAP_PAGES && j < BLOCKS_PER_PAGE
  {
    Answer(c, call.slot * 4 + j, call.seen(j)) == ReadBlock(c, st, call.slot * 4 + j)
  }

  lemma LoadStep(c: Config, st: Store, call: Call, i: nat, st': Store)
    requires call.Load? && call.slot < MAX_SWAP_PAGES && i < BLOCKS_PER_PAGE
    requires Follows(st, CallEvents(c, call, i), st')
    ensures Answered(c, st, call, i) && Follows(st, CallEvents(c, call, i + 1), st')
  {
    hide Follows, CallEvents, ReadEvents, ReadBlock, Answer;
    LoadUnfolds(c, call, i);
    var lb := call.slot * 4 + i;
    var mid := FollowsSplit(st, ReadEvents(c, lb, call.seen(i)), CallEvents(c, call, i + 1), st');
    ReadFollows(c, st, lb, call.seen(i), mid);
  }

  lemma {:induction false} LoadFollows(c: Config, st: Store, call: Call, i: nat, st': Store)
    requires call.Load? && call.slot < MAX_SWAP_PAGES && i <= BLOCKS_PER_PAGE
    requires Follows(st, CallEvents(c, call, i), st')
    ensures st' == st
    ensures forall j: nat :: i <= j < BLOCKS_PER_PAGE ==> Answered(c, st, call, j)
    decreases BLOCKS_PER_PAGE - i
  {
    hide WriteEvents, ReadEvents, BlockOf, Answered;
    if i == BLOCKS_PER_PAGE {
      assert CallEvents(c, call, i) == [];
    } else {
      hide Follows, CallEvents;
      LoadStep(c, st, call, i, st');
      LoadFollows(c, st, call, i + 1, st');
    }
  }

  function RunEvents(c: Config, calls: seq<Call>): seq<Event>
    decreases |calls|
  {
    if calls == [] then [] else CallEvents(c, calls[0], 0) + RunEvents(c, calls[1..])
  }

  /** The pages the calls return are those of one array of pages. */
  ghost predicate PageArray(c: Config, pages: seq<Page>, calls: seq<Call>)
    requires |pages| == MAX_SWAP_PAGES && forall k :: 0 <= k < |calls| ==> calls[k].slot < MAX_SWAP_PAGES
    decreases |calls|
  {
    calls == [] ||
    if calls[0].Save? then PageArray(c, pages[calls[0].slot := calls[0].page], calls[1..])
    else Returns(c, calls[0], pages[calls[0].slot]) && PageArray(c, pages, calls[1..])
  }

  /** The array of pages after the calls. */
  function Final(pages: seq<Page>, calls: seq<Call>): (r: seq<Page>)
    requires |pages| == MAX_SWAP_PAGES && forall k :: 0 <= k < |calls| ==> calls[k].slot < MAX_SWAP_PAGES
    ensures |r| == MAX_SWAP_PAGES
    decreases |calls|
  {
    if calls == [] then pages
    else Final(if calls[0].Save? then pages[calls[0].slot := calls[0].page] else pages, calls[1..])
  }

  ghost predicate Shows(c: Config, st: Store, pages: seq<Page>)
    requires |pages| == MAX_SWAP_PAGES
  {
    forall k: nat :: k < MAX_SWAP_PAGES ==> ReadPage(c, st, k) == pages[k]
  }

  lemma {:induction false} CallsFollow(c: Config, st: Store, pages: seq<Page>, calls: seq<Call>, st': Store)
    requires |pages| == MAX_SWAP_PAGES && forall k :: 0 <= k < |calls| ==> calls[k].slot < MAX_SWAP_PAGES
    requires Shows(c, st, pages) && Follows(st, RunEvents(c, calls), st')
    ensures PageArray(c, pages, calls) && Shows(c, st', Final(pages, calls))
    decreases |calls|
  {
    hide ReadPage, WritePage, CallEvents;
    if calls != [] {
      var call := calls[0];
      var mid := FollowsSplit(st, CallEvents(c, call, 0), RunEvents(c, calls[1..]), st');
      if call.Save? {
        SaveFollows(c, st, call, 0, mid);
        SavedPages(c, st, pages, call.slot, call.page);
        CallsFollow(c, mid, pages[call.slot := call.page], calls[1..], st');
      } else {
        LoadedPage(c, st, call, mid);
        CallsFollow(c, mid, pages, calls[1..], st');
      }
    }
  }

  lemma SavedPages(c: Config, st: Store, pages: seq<Page>, slot: nat, page: Page)
    requires |pages| == MAX_SWAP_PAGES && slot < MAX_SWAP_PAGES && Shows(c, st, pages)
    ensures Shows(c, WriteBlocks(c, st, slot, page, 0), pages[slot := page])
  {
    hide ReadPage, WriteBlocks;
    forall k: nat | k < MAX_SWAP_PAGES
      ensures ReadPage(c, WriteBlocks(c, st, slot, page, 0), k) == pages[slot := page][k]
    {
      WritePageReads(c, st, slot, page, k);
    }
  }

  lemma LoadedPage(c: Config, st: Store, call: Call, st': Store)
    requires call.Load? && call.slot < MAX_SWAP_PAGES && Follows(st, CallEvents(c, call, 0), st')
    ensures st' == st && Returns(c, call, ReadPage(c, st, call.slot))
  {
    hide ReadBlock, ReadBlocks, BlockOf, Answer, CallEvents, Follows;
    LoadFollows(c, st, call, 0, st');
    forall i: nat | i < BLOCKS_PER_PAGE
      ensures BlockOf(ReadPage(c, st, call.slot), i) == Answer(c, call.slot * 4 + i, call.seen(i))
    {
      assert Answered(c, st, call, i);
    }
  }

  /** Main result: over every interleaving of the cache, if the accesses to the swap area are those of calls of the
      driver one after the other, while any other processes read and write any other blocks, then in every RAID
      mode, healthy or with a failed disk, swap_disk_read returns the last page swap_disk_write stored. */
  lemma SwapOverCache(s: C.Sys, es: seq<C.Step>, s': C.Sys, c: Config, calls: seq<Call>, pages: seq<Page>)
    requires C.Inv(s) && C.IsRun(s, es, s') && AreaEvents(C.Trace(s, es, s')) == RunEvents(c, calls)
    requires |pages| == MAX_SWAP_PAGES && forall k :: 0 <= k < |calls| ==> calls[k].slot < MAX_SWAP_PAGES
    requires Shows(c, Image(s.latest), pages)
    ensures PageArray(c, pages, calls) && Shows(c, Image(s'.latest), Final(pages, calls))
  {
    hide *;
    AreaFollows(s, es, s');
    CallsFollow(c, Image(s.latest), pages, calls, Image(s'.latest));
  }
}
