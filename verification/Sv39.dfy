/** The three-level page table in memory: walk, mappages and freewalk on 512-entry table pages, and the
    proof that it implements the page-table record used by the paging model. */
module Sv39 {
  import opened Options
  import opened Frames
  import opened Paging
  import F = Fault
  import U = Supply

  const ENTRIES: nat := 512
  const VPNS: nat := 134217728    // 2^27 virtual page numbers

  datatype Entry = Entry(valid: bool, pa: Pa, perm: Perm)

  const NO_PERM: Perm := Perm(false, false, false, false)
  const EMPTY: Entry := Entry(false, 0, NO_PERM)

  /** An entry without R, W and X points to a lower table. */
  predicate IsPointer(e: Entry) {
    e.valid && !e.perm.r && !e.perm.w && !e.perm.x
  }

  type Table = t: seq<Entry> | |t| == ENTRIES witness seq(ENTRIES, _ => EMPTY)

  function ZeroTable(): (t: Table)
    ensures forall i :: 0 <= i < ENTRIES ==> t[i] == EMPTY
  {
    seq(ENTRIES, _ => EMPTY)
  }

  /** Table pages by address, and the free list with its head last. */
  datatype Memory = Memory(tables: map<Pa, Table>, free: seq<Pa>)

  /** The index bits of a virtual page number at a level. */
  function PX(level: nat, v: nat): (i: nat)
    requires level <= 2
    ensures i < ENTRIES
  {
    if level == 2 then v / 262144 % 512 else if level == 1 then v / 512 % 512 else v % 512
  }

  lemma PXDigits(v: nat)
    requires v < VPNS
    ensures v == PX(2, v) * 262144 + PX(1, v) * 512 + PX(0, v)
    ensures v / 512 == PX(2, v) * 512 + PX(1, v) && v / 262144 == PX(2, v)
  {
  }

  /** The three index fields determine the page number. */
  lemma PXInjective(v: nat, w: nat)
    requires v < VPNS && w < VPNS && PX(2, v) == PX(2, w) && PX(1, v) == PX(1, w) && PX(0, v) == PX(0, w)
    ensures v == w
  {
    PXDigits(v);
    PXDigits(w);
  }

  // ----- walk -----

  /** One level of walk: follow entry i of table t, or allocate the table it should point to. */
  function Next(m: Memory, t: Pa, i: nat, alloc: bool): (r: (Memory, Option<Pa>))
    requires t in m.tables && i < ENTRIES
    ensures m.tables.Keys <= r.0.tables.Keys
  {
    var e := m.tables[t][i];
    if e.valid then (m, Some(e.pa))
    else if !alloc || m.free == [] then (m, None)
    else
      var pa := m.free[|m.free| - 1];
      var tables: map<Pa, Table> := m.tables[pa := ZeroTable()];
      var row: Table := tables[t][i := Entry(true, pa, NO_PERM)];
      (Memory(tables[t := row], m.free[..|m.free| - 1]), Some(pa))
  }

  /** The address of the leaf entry for v: a table page and an index in it. */
  function Walk(m: Memory, root: Pa, v: nat, alloc: bool): (Memory, Option<(Pa, nat)>)
    requires root in m.tables
  {
    var (m1, mid) := Next(m, root, PX(2, v), alloc);
    if mid.None? || mid.value !in m1.tables then (m1, None)
    else
      var (m2, low) := Next(m1, mid.value, PX(1, v), alloc);
      if low.None? then (m2, None) else (m2, Some((low.value, PX(0, v))))
  }

  // ----- the shape of a tree -----

  datatype Place = Root | Mid(i: nat) | Low(i: nat, j: nat)

  function TableAt(tables: map<Pa, Table>, root: Pa, l: Place): Option<Pa> {
    match l
    case Root => Some(root)
    case Mid(i) => if root in tables && i < ENTRIES && tables[root][i].valid then Some(tables[root][i].pa) else None
    case Low(i, j) =>
      if root in tables && i < ENTRIES && tables[root][i].valid && tables[root][i].pa in tables && j < ENTRIES
         && tables[tables[root][i].pa][j].valid
      then Some(tables[tables[root][i].pa][j].pa) else None
  }

  /** Every table reached is a table page, reached one way only, and not free; upper entries are pointers. */
  ghost predicate Tree(m: Memory, root: Pa) {
    && root in m.tables
    && (forall l :: TableAt(m.tables, root, l).Some? ==>
          TableAt(m.tables, root, l).value in m.tables && TableAt(m.tables, root, l).value !in m.free)
    && (forall l, l' ::
          TableAt(m.tables, root, l).Some? && TableAt(m.tables, root, l) == TableAt(m.tables, root, l') ==> l == l')
    && UpperPointers(m.tables, root)
    && (forall i, j :: 0 <= i < |m.free| && 0 <= j < |m.free| && m.free[i] == m.free[j] ==> i == j)
  }

  predicate UpperPointers(tables: map<Pa, Table>, root: Pa)
    requires root in tables
  {
    && (forall i :: 0 <= i < ENTRIES && tables[root][i].valid ==> IsPointer(tables[root][i]))
    && (forall i, j ::
          (0 <= i < ENTRIES && 0 <= j < ENTRIES && tables[root][i].valid && tables[root][i].pa in tables
           && tables[tables[root][i].pa][j].valid) ==> IsPointer(tables[tables[root][i].pa][j]))
  }

  /** Where the leaf entry of v is, if the tables on the way exist. */
  function LeafSlot(tables: map<Pa, Table>, root: Pa, v: nat): Option<(Pa, nat)> {
    var t := TableAt(tables, root, Low(PX(2, v), PX(1, v)));
    if t.Some? then Some((t.value, PX(0, v))) else None
  }

  /** What the page table says about v: its valid leaf entry, if any. */
  function Lookup(tables: map<Pa, Table>, root: Pa, v: nat): Option<Pte> {
    var s := LeafSlot(tables, root, v);
    if s.Some? && s.value.0 in tables && tables[s.value.0][s.value.1].valid
    then Some(Pte(tables[s.value.0][s.value.1].pa, tables[s.value.0][s.value.1].perm)) else None
  }

  /** walk without allocation finds the leaf slot and changes nothing. */
  lemma WalkFinds(m: Memory, root: Pa, v: nat)
    requires Tree(m, root)
    ensures Walk(m, root, v, false) == (m, LeafSlot(m.tables, root, v))
  {
    assert TableAt(m.tables, root, Mid(PX(2, v))).Some? ==> TableAt(m.tables, root, Mid(PX(2, v))).value in m.tables;
  }

  /** Distinct page addresses reach distinct leaf entries. */
  lemma SlotsDistinct(m: Memory, root: Pa, v: nat, w: nat)
    requires Tree(m, root) && v < VPNS && w < VPNS && v != w
    requires LeafSlot(m.tables, root, v).Some? && LeafSlot(m.tables, root, w).Some?
    ensures LeafSlot(m.tables, root, v) != LeafSlot(m.tables, root, w)
  {
    if PX(2, v) == PX(2, w) && PX(1, v) == PX(1, w) {
      if PX(0, v) == PX(0, w) { PXInjective(v, w); }
    } else {
      assert Low(PX(2, v), PX(1, v)) != Low(PX(2, w), PX(1, w));
    }
  }

  // ----- walk with allocation -----

  predicate Below(at: Place, i: nat, l: Place) {
    (at == Root && l == Mid(i)) || (at.Mid? && l == Low(at.i, i))
  }

  /** Hanging a table adds one place to the tree and moves nothing. */
  lemma HangPlaces(m: Memory, root: Pa, at: Place, t: Pa, i: nat, l: Place)
    requires Tree(m, root) && m.free != [] && i < ENTRIES
    requires !at.Low? && TableAt(m.tables, root, at) == Some(t) && !m.tables[t][i].valid
    ensures var m' := Next(m, t, i, true).0;
            TableAt(m'.tables, root, l)
            == if Below(at, i, l) then Some(m.free[|m.free| - 1]) else TableAt(m.tables, root, l)
  {
    var pa := m.free[|m.free| - 1];
    assert pa in m.free;
    assert TableAt(m.tables, root, Root) == Some(root);
    match l
    case Root =>
    case Mid(k) =>
      if at.Mid? { assert TableAt(m.tables, root, at) != TableAt(m.tables, root, Root); }
    case Low(k, j) =>
      if k < ENTRIES && m.tables[root][k].valid {
        assert TableAt(m.tables, root, Mid(k)).Some?;
        if at.Mid? && at.i != k { assert TableAt(m.tables, root, Mid(k)) != TableAt(m.tables, root, at); }
        assert TableAt(m.tables, root, Mid(k)) != TableAt(m.tables, root, Root);
      }
  }

  lemma HangTree(m: Memory, root: Pa, at: Place, t: Pa, i: nat)
    requires Tree(m, root) && m.free != [] && i < ENTRIES
    requires !at.Low? && TableAt(m.tables, root, at) == Some(t) && !m.tables[t][i].valid
    ensures var m' := Next(m, t, i, true).0; Tree(m', root)
  {
    var pa := m.free[|m.free| - 1];
    var m' := Next(m, t, i, true).0;
    forall l
      ensures TableAt(m'.tables, root, l) == if Below(at, i, l) then Some(pa) else TableAt(m.tables, root, l)
    {
      HangPlaces(m, root, at, t, i, l);
    }
    assert forall l, l' :: Below(at, i, l) && Below(at, i, l') ==> l == l';
    assert pa in m.free;
    assert forall l :: TableAt(m.tables, root, l) != Some(pa);
    HangPointers(m, root, at, t, i);
  }

  lemma HangPointers(m: Memory, root: Pa, at: Place, t: Pa, i: nat)
    requires Tree(m, root) && m.free != [] && i < ENTRIES
    requires !at.Low? && TableAt(m.tables, root, at) == Some(t) && !m.tables[t][i].valid
    ensures var m' := Next(m, t, i, true).0; root in m'.tables && UpperPointers(m'.tables, root)
  {
    var pa := m.free[|m.free| - 1];
    var m' := Next(m, t, i, true).0;
    assert pa in m.free;
    assert TableAt(m.tables, root, Root) == Some(root);
    forall k, j | 0 <= k < ENTRIES && 0 <= j < ENTRIES && m'.tables[root][k].valid && m'.tables[root][k].pa in m'.tables
                  && m'.tables[m'.tables[root][k].pa][j].valid
      ensures IsPointer(m'.tables[m'.tables[root][k].pa][j])
    {
      HangPlaces(m, root, at, t, i, Mid(k));
      HangPlaces(m, root, at, t, i, Low(k, j));
    }
  }

  /** No lookup changes when a table is hung: the new table is empty. */
  lemma HangLookup(m: Memory, root: Pa, at: Place, t: Pa, i: nat, w: nat)
    requires Tree(m, root) && m.free != [] && i < ENTRIES
    requires !at.Low? && TableAt(m.tables, root, at) == Some(t) && !m.tables[t][i].valid
    ensures Lookup(Next(m, t, i, true).0.tables, root, w) == Lookup(m.tables, root, w)
  {
    var pa := m.free[|m.free| - 1];
    var l := Low(PX(2, w), PX(1, w));
    HangPlaces(m, root, at, t, i, l);
    assert pa in m.free;
    if TableAt(m.tables, root, l).Some? {
      assert TableAt(m.tables, root, l) != TableAt(m.tables, root, at);
    }
  }

  /** walk with allocation: the tree stays a tree, no lookup changes, and it fails exactly when the free
      list is too short for the tables that are missing. On success the leaf slot of v exists. */
  lemma WalkAllocCorrect(m: Memory, root: Pa, v: nat)
    requires Tree(m, root)
    ensures var (m', r) := Walk(m, root, v, true);
            && Tree(m', root)
            && (forall w: nat :: Lookup(m'.tables, root, w) == Lookup(m.tables, root, w))
            && (r.Some? <==> |m.free| >= Missing(m.tables, root, v))
            && (r.Some? ==> r == LeafSlot(m'.tables, root, v))
  {
    var i, j := PX(2, v), PX(1, v);
    var (m1, mid) := Next(m, root, i, true);
    assert TableAt(m.tables, root, Root) == Some(root);
    if mid.Some? {
      NextCorrect(m, root, Root, root, i);
      assert TableAt(m1.tables, root, Mid(i)) == mid;
      var (m2, low) := Next(m1, mid.value, j, true);
      NextCorrect(m1, root, Mid(i), mid.value, j);
    }
  }

  /** Table pages missing on the way to v. */
  function Missing(tables: map<Pa, Table>, root: Pa, v: nat): nat {
    if TableAt(tables, root, Mid(PX(2, v))).None? then 2
    else if TableAt(tables, root, Low(PX(2, v), PX(1, v))).None? then 1 else 0
  }

  /** One level of walk with allocation. */
  lemma NextCorrect(m: Memory, root: Pa, at: Place, t: Pa, i: nat)
    requires Tree(m, root) && i < ENTRIES && !at.Low? && TableAt(m.tables, root, at) == Some(t)
    ensures var (m', r) := Next(m, t, i, true);
            && Tree(m', root)
            && (forall w: nat :: Lookup(m'.tables, root, w) == Lookup(m.tables, root, w))
            && (r.None? <==> !m.tables[t][i].valid && m.free == [])
            && (r.Some? ==> forall l ::
                  TableAt(m'.tables, root, l) == if Below(at, i, l) then r else TableAt(m.tables, root, l))
            && |m'.free| == |m.free| - (if !m.tables[t][i].valid && m.free != [] then 1 else 0)
  {
    hide Lookup;
    if !m.tables[t][i].valid && m.free != [] {
      HangTree(m, root, at, t, i);
      forall l
        ensures TableAt(Next(m, t, i, true).0.tables, root, l)
             == if Below(at, i, l) then Some(m.free[|m.free| - 1]) else TableAt(m.tables, root, l)
      {
        HangPlaces(m, root, at, t, i, l);
      }
      forall w: nat
        ensures Lookup(Next(m, t, i, true).0.tables, root, w) == Lookup(m.tables, root, w)
      {
        HangLookup(m, root, at, t, i, w);
      }
    }
  }

  // ----- mappages -----

  function SetEntry(tables: map<Pa, Table>, t: Pa, i: nat, e: Entry): map<Pa, Table>
    requires t in tables && i < ENTRIES
  {
    var row: Table := tables[t][i := e];
    tables[t := row]
  }

  /** How an iteration of mappages ends: Remap is the panic. */
  datatype Outcome = Done | NoMemory | Remap

  /** One iteration of mappages. */
  function MapOne(m: Memory, root: Pa, v: nat, pa: Pa, perm: Perm): (Memory, Outcome)
    requires root in m.tables
  {
    var (m1, r) := Walk(m, root, v, true);
    if r.None? || r.value.0 !in m1.tables then (m1, NoMemory)
    else if m1.tables[r.value.0][r.value.1].valid then (m1, Remap)
    else (m1.(tables := SetEntry(m1.tables, r.value.0, r.value.1, Entry(true, pa, perm))), Done)
  }

  datatype RangeResult = RangeResult(memory: Memory, pages: nat, outcome: Outcome)

  /** mappages of n pages; `pages` counts those mapped before it stopped, which it leaves in place. */
  function MapRange(m: Memory, root: Pa, v: nat, n: nat, pa: nat, perm: Perm): RangeResult
    requires root in m.tables && pa + n <= NPAGES
    decreases n
  {
    if n == 0 then RangeResult(m, 0, Done)
    else
      var (m1, o) := MapOne(m, root, v, pa, perm);
      if o != Done || root !in m1.tables then RangeResult(m1, 0, o)
      else
        var r := MapRange(m1, root, v + 1, n - 1, pa + 1, perm);
        RangeResult(r.memory, r.pages + 1, r.outcome)
  }

  /** Writing a leaf entry moves no table. */
  lemma SetLeafPlaces(m: Memory, root: Pa, v: nat, e: Entry, l: Place)
    requires Tree(m, root) && LeafSlot(m.tables, root, v).Some?
    ensures var s := LeafSlot(m.tables, root, v).value;
            s.0 in m.tables && s.1 < ENTRIES
            && TableAt(SetEntry(m.tables, s.0, s.1, e), root, l) == TableAt(m.tables, root, l)
  {
    var s := LeafSlot(m.tables, root, v).value;
    assert TableAt(m.tables, root, Low(PX(2, v), PX(1, v))) == Some(s.0);
    assert TableAt(m.tables, root, Root) == Some(root) && s.0 != root;
    if !l.Root? && l.i < ENTRIES && m.tables[root][l.i].valid {
      assert TableAt(m.tables, root, Mid(l.i)) == Some(m.tables[root][l.i].pa);
    }
  }

  /** What an entry says when it stands in a leaf slot. */
  function Leaf(e: Entry): Option<Pte> {
    if e.valid then Some(Pte(e.pa, e.perm)) else None
  }

  lemma SetLeafCorrect(m: Memory, root: Pa, v: nat, e: Entry)
    requires Tree(m, root) && LeafSlot(m.tables, root, v).Some? && v < VPNS
    ensures var s := LeafSlot(m.tables, root, v).value;
            s.0 in m.tables && s.1 < ENTRIES
            && var m' := m.(tables := SetEntry(m.tables, s.0, s.1, e));
               && Tree(m', root)
               && forall w: nat :: w < VPNS ==>
                    Lookup(m'.tables, root, w) == if w == v then Leaf(e) else Lookup(m.tables, root, w)
  {
    var s := LeafSlot(m.tables, root, v).value;
    forall l
      ensures s.0 in m.tables && s.1 < ENTRIES
      ensures TableAt(SetEntry(m.tables, s.0, s.1, e), root, l) == TableAt(m.tables, root, l)
    {
      SetLeafPlaces(m, root, v, e, l);
    }
    var m' := m.(tables := SetEntry(m.tables, s.0, s.1, e));
    SetLeafPointers(m, root, v, e);
    forall w: nat | w < VPNS
      ensures Lookup(m'.tables, root, w) == if w == v then Leaf(e) else Lookup(m.tables, root, w)
    {
      if w != v && LeafSlot(m.tables, root, w).Some? {
        SlotsDistinct(m, root, v, w);
      }
    }
  }

  lemma SetLeafPointers(m: Memory, root: Pa, v: nat, e: Entry)
    requires Tree(m, root) && LeafSlot(m.tables, root, v).Some?
    ensures var s := LeafSlot(m.tables, root, v).value;
            s.0 in m.tables && s.1 < ENTRIES && root in m.tables
            && UpperPointers(SetEntry(m.tables, s.0, s.1, e), root)
  {
    var s := LeafSlot(m.tables, root, v).value;
    assert TableAt(m.tables, root, Low(PX(2, v), PX(1, v))) == Some(s.0);
    assert TableAt(m.tables, root, Root) == Some(root) && s.0 != root;
    forall i | 0 <= i < ENTRIES && m.tables[root][i].valid
      ensures m.tables[root][i].pa != s.0
    {
      assert TableAt(m.tables, root, Mid(i)) == Some(m.tables[root][i].pa);
    }
  }

  /** One page: it fails exactly when tables cannot be had, panics exactly when v is mapped already, and
      otherwise changes the lookup of v only. */
  lemma MapOneCorrect(m: Memory, root: Pa, v: nat, pa: Pa, perm: Perm)
    requires Tree(m, root) && v < VPNS
    ensures var (m', o) := MapOne(m, root, v, pa, perm);
            && Tree(m', root)
            && (o == NoMemory <==> |m.free| < Missing(m.tables, root, v))
            && (o == Remap <==> Lookup(m.tables, root, v).Some?)
            && forall w: nat :: w < VPNS ==>
                 Lookup(m'.tables, root, w)
                 == if o == Done && w == v then Some(Pte(pa, perm)) else Lookup(m.tables, root, w)
  {
    hide Walk;
    WalkAllocCorrect(m, root, v);
    var (m1, r) := Walk(m, root, v, true);
    assert Lookup(m1.tables, root, v) == Lookup(m.tables, root, v);
    if MapOne(m, root, v, pa, perm).1 == Done {
      SetLeafCorrect(m1, root, v, Entry(true, pa, perm));
    }
  }

  predicate InRange(w: nat, v: nat, n: nat) {
    v <= w < v + n
  }

  /** mappages: what it maps before it stops are consecutive physical pages at pages that were unmapped, and no
      other lookup changes; it panics exactly at a page that was mapped. */
  lemma {:induction false} MapRangeCorrect(m: Memory, root: Pa, v: nat, n: nat, pa: nat, perm: Perm)
    requires Tree(m, root) && v + n <= VPNS && pa + n <= NPAGES
    ensures var r := MapRange(m, root, v, n, pa, perm);
            && Tree(r.memory, root) && r.pages <= n && (r.outcome == Done <==> r.pages == n)
            && (r.pages < n ==> (r.outcome == Remap <==> Lookup(m.tables, root, v + r.pages).Some?))
            && (forall w: nat :: InRange(w, v, r.pages) ==> Lookup(m.tables, root, w).None?)
            && forall w: nat :: w < VPNS ==>
                 Lookup(r.memory.tables, root, w)
                 == if InRange(w, v, r.pages) then Some(Pte(pa + (w - v), perm)) else Lookup(m.tables, root, w)
    decreases n
  {
    hide Lookup, MapOne, Tree;
    TreeRoot(m, root);
    if n > 0 {
      MapOneCorrect(m, root, v, pa, perm);
      var (m1, o) := MapOne(m, root, v, pa, perm);
      TreeRoot(m1, root);
      if o == Done {
        MapRangeCorrect(m1, root, v + 1, n - 1, pa + 1, perm);
        var r1 := MapRange(m1, root, v + 1, n - 1, pa + 1, perm);
        var r := MapRange(m, root, v, n, pa, perm);
        forall w: nat | w < VPNS
          ensures Lookup(r.memory.tables, root, w)
               == if InRange(w, v, r.pages) then Some(Pte(pa + (w - v), perm)) else Lookup(m.tables, root, w)
        {
          assert InRange(w, v, r.pages) == (w == v || InRange(w, v + 1, r1.pages));
        }
        forall w: nat | InRange(w, v, r.pages)
          ensures Lookup(m.tables, root, w).None?
        {
          assert w == v || InRange(w, v + 1, r1.pages);
          assert w != v ==> Lookup(m1.tables, root, w) == Lookup(m.tables, root, w);
        }
      }
    }
  }

  // ----- when mappages succeeds -----

  /** Which tables exist, as the paging model counts them. */
  ghost function ShapeOf(tables: map<Pa, Table>, root: Pa): U.Shape {
    U.Shape(set k: nat | k < 512 && TableAt(tables, root, Mid(k)).Some?,
            set k: nat | k < 262144 && TableAt(tables, root, Low(k / 512, k % 512)).Some?)
  }

  lemma MissingCount(m: Memory, root: Pa, v: nat)
    requires Tree(m, root) && v < VPNS
    ensures Missing(m.tables, root, v) == U.Missing(ShapeOf(m.tables, root), v)
  {
    PXDigits(v);
    assert v / 512 / 512 == PX(2, v) && v / 512 % 512 == PX(1, v);
  }

  lemma WalkPlaces(m: Memory, root: Pa, v: nat)
    requires Tree(m, root) && |m.free| >= Missing(m.tables, root, v)
    ensures var m' := Walk(m, root, v, true).0;
            && |m'.free| == |m.free| - Missing(m.tables, root, v)
            && forall l :: TableAt(m'.tables, root, l).Some? <==>
                 TableAt(m.tables, root, l).Some? || l == Mid(PX(2, v)) || l == Low(PX(2, v), PX(1, v))
  {
    hide Lookup;
    var i, j := PX(2, v), PX(1, v);
    var (m1, mid) := Next(m, root, i, true);
    assert TableAt(m.tables, root, Root) == Some(root);
    NextCorrect(m, root, Root, root, i);
    assert TableAt(m1.tables, root, Mid(i)) == mid;
    NextCorrect(m1, root, Mid(i), mid.value, j);
  }

  lemma MapOneShape(m: Memory, root: Pa, v: nat, pa: Pa, perm: Perm)
    requires Tree(m, root) && v < VPNS && MapOne(m, root, v, pa, perm).1 == Done
    ensures var m' := MapOne(m, root, v, pa, perm).0;
            && |m'.free| == |m.free| - Missing(m.tables, root, v)
            && ShapeOf(m'.tables, root) == U.With(ShapeOf(m.tables, root), v)
  {
    hide Lookup, Walk, TableAt;
    MapOneCorrect(m, root, v, pa, perm);
    WalkAllocCorrect(m, root, v);
    WalkPlaces(m, root, v);
    PXDigits(v);
    var (m1, r) := Walk(m, root, v, true);
    var m' := MapOne(m, root, v, pa, perm).0;
    forall l
      ensures TableAt(m'.tables, root, l) == TableAt(m1.tables, root, l)
    {
      SetLeafPlaces(m1, root, v, Entry(true, pa, perm), l);
    }
    ShapeWith(m.tables, m'.tables, root, PX(2, v), PX(1, v), v);
  }

  lemma ShapeWith(t: map<Pa, Table>, t': map<Pa, Table>, root: Pa, i: nat, j: nat, v: nat)
    requires i < 512 && j < 512 && v / 262144 == i && v / 512 == i * 512 + j
    requires forall l :: TableAt(t', root, l).Some? <==> TableAt(t, root, l).Some? || l == Mid(i) || l == Low(i, j)
    ensures ShapeOf(t', root) == U.With(ShapeOf(t, root), v)
  {
    hide TableAt;
    forall k: nat | k < 262144
      ensures Low(k / 512, k % 512) == Low(i, j) <==> k == i * 512 + j
    {
    }
  }

  /** mappages succeeds exactly if no page of the range is mapped and the free list covers the missing tables. */
  lemma {:induction false} MapRangeIff(m: Memory, root: Pa, v: nat, n: nat, pa: nat, perm: Perm)
    requires Tree(m, root) && v + n <= VPNS && pa + n <= NPAGES
    ensures root in m.tables
    ensures MapRange(m, root, v, n, pa, perm).outcome == Done <==>
            && (forall w: nat :: InRange(w, v, n) ==> Lookup(m.tables, root, w).None?)
            && |m.free| + n >= U.PagesNeeded(ShapeOf(m.tables, root), v, v + n)
    decreases n
  {
    hide Lookup, MapOne, Tree, Missing, ShapeOf, U.Missing;
    TreeRoot(m, root);
    if n > 0 {
      MapOneCorrect(m, root, v, pa, perm);
      MissingCount(m, root, v);
      var (m1, o) := MapOne(m, root, v, pa, perm);
      TreeRoot(m1, root);
      assert InRange(v, v, n);
      U.PagesAtLeast(U.With(ShapeOf(m.tables, root), v), v + 1, v + n);
      if o == Done {
        MapOneShape(m, root, v, pa, perm);
        MapRangeIff(m1, root, v + 1, n - 1, pa + 1, perm);
        forall w: nat | InRange(w, v + 1, n - 1)
          ensures InRange(w, v, n) && Lookup(m1.tables, root, w) == Lookup(m.tables, root, w)
        {
        }
        forall w: nat | InRange(w, v, n)
          ensures w == v || InRange(w, v + 1, n - 1)
        {
        }
      }
    }
  }

  lemma TreeRoot(m: Memory, root: Pa)
    requires Tree(m, root)
    ensures root in m.tables
  {
  }

  // ----- freewalk -----

  /** The pages freed by freewalk on table t at a level, from entry i on, in order. */
  function Freed(tables: map<Pa, Table>, t: Pa, level: nat, i: nat): seq<Pa>
    requires t in tables && i <= ENTRIES
    decreases level, |tables[t]| - i
  {
    if i == ENTRIES then [t]
    else if IsPointer(tables[t][i]) && level > 0 && tables[t][i].pa in tables then
      Freed(tables, tables[t][i].pa, level - 1, 0) + Freed(tables, t, level, i + 1)
    else Freed(tables, t, level, i + 1)
  }

  predicate NoDup(s: seq<Pa>) {
    forall i, j :: 0 <= i < |s| && 0 <= j < |s| && s[i] == s[j] ==> i == j
  }

  lemma NoDupConcat(a: seq<Pa>, b: seq<Pa>)
    requires NoDup(a) && NoDup(b) && forall x :: x in a ==> x !in b
    ensures NoDup(a + b)
  {
    assert forall i :: 0 <= i < |a| ==> a[i] in a;
    assert forall i :: 0 <= i < |b| ==> b[i] in b;
  }

  lemma {:induction false} FreedLevel0(tables: map<Pa, Table>, t: Pa, i: nat)
    requires t in tables && i <= ENTRIES
    ensures Freed(tables, t, 0, i) == [t]
    decreases ENTRIES - i
  {
    if i < ENTRIES { FreedLevel0(tables, t, i + 1); }
  }

  /** The places freewalk visits under Mid(i) from entry j on. */
  predicate UnderMid(l: Place, i: nat, j: nat) {
    l == Mid(i) || (l.Low? && l.i == i && j <= l.j < ENTRIES)
  }

  lemma {:induction false} FreedMid(m: Memory, root: Pa, i: nat, j: nat)
    requires Tree(m, root) && i < ENTRIES && m.tables[root][i].valid && j <= ENTRIES
    ensures m.tables[root][i].pa in m.tables
    ensures var s := Freed(m.tables, m.tables[root][i].pa, 1, j);
            && NoDup(s)
            && forall a: Pa :: a in s <==> exists l :: UnderMid(l, i, j) && TableAt(m.tables, root, l) == Some(a)
    decreases ENTRIES - j
  {
    var mid := m.tables[root][i].pa;
    assert TableAt(m.tables, root, Mid(i)) == Some(mid);
    if j == ENTRIES {
      assert UnderMid(Mid(i), i, j);
    } else {
      FreedMid(m, root, i, j + 1);
      var rest := Freed(m.tables, mid, 1, j + 1);
      var s := Freed(m.tables, mid, 1, j);
      var at := TableAt(m.tables, root, Low(i, j));
      if m.tables[mid][j].valid {
        assert at == Some(m.tables[mid][j].pa);
        FreedLevel0(m.tables, at.value, 0);
        assert s == [at.value] + rest;
        assert forall l :: UnderMid(l, i, j + 1) ==> TableAt(m.tables, root, l) != at;
        NoDupConcat([at.value], rest);
      } else {
        assert at.None?;
        assert s == rest;
      }
      UnderMidStep(m, root, i, j, s, rest);
    }
  }

  lemma UnderMidStep(m: Memory, root: Pa, i: nat, j: nat, s: seq<Pa>, rest: seq<Pa>)
    requires j < ENTRIES
    requires var at := TableAt(m.tables, root, Low(i, j)); s == (if at.Some? then [at.value] else []) + rest
    requires forall a: Pa :: a in rest <==> exists l :: UnderMid(l, i, j + 1) && TableAt(m.tables, root, l) == Some(a)
    ensures forall a: Pa :: a in s <==> exists l :: UnderMid(l, i, j) && TableAt(m.tables, root, l) == Some(a)
  {
    forall a: Pa
      ensures a in s <==> exists l :: UnderMid(l, i, j) && TableAt(m.tables, root, l) == Some(a)
    {
      if a in rest {
        var l :| UnderMid(l, i, j + 1) && TableAt(m.tables, root, l) == Some(a);
        assert UnderMid(l, i, j);
      } else if a in s {
        assert UnderMid(Low(i, j), i, j) && TableAt(m.tables, root, Low(i, j)) == Some(a);
      }
      if l :| UnderMid(l, i, j) && TableAt(m.tables, root, l) == Some(a) {
        if l != Low(i, j) { assert UnderMid(l, i, j + 1); }
      }
    }
  }

  /** The places freewalk visits from root entry i on. */
  predicate UnderRoot(l: Place, i: nat) {
    l == Root || (!l.Root? && i <= l.i < ENTRIES && (l.Low? ==> l.j < ENTRIES))
  }

  lemma {:induction false} FreedRoot(m: Memory, root: Pa, i: nat)
    requires Tree(m, root) && i <= ENTRIES
    ensures var s := Freed(m.tables, root, 2, i);
            && NoDup(s)
            && forall a: Pa :: a in s <==> exists l :: UnderRoot(l, i) && TableAt(m.tables, root, l) == Some(a)
    decreases ENTRIES - i
  {
    assert TableAt(m.tables, root, Root) == Some(root);
    if i == ENTRIES {
      assert UnderRoot(Root, i);
    } else {
      FreedRoot(m, root, i + 1);
      var rest := Freed(m.tables, root, 2, i + 1);
      var s := Freed(m.tables, root, 2, i);
      if m.tables[root][i].valid {
        FreedMid(m, root, i, 0);
        var sub := Freed(m.tables, m.tables[root][i].pa, 1, 0);
        assert s == sub + rest;
        forall a: Pa | a in sub
          ensures a !in rest
        {
          var l :| UnderMid(l, i, 0) && TableAt(m.tables, root, l) == Some(a);
          assert forall l' :: UnderRoot(l', i + 1) ==> TableAt(m.tables, root, l') != Some(a);
        }
        NoDupConcat(sub, rest);
        UnderRootStep(m, root, i, s, sub, rest);
      } else {
        assert s == [] + rest;
        UnderRootStep(m, root, i, s, [], rest);
      }
    }
  }

  lemma UnderRootStep(m: Memory, root: Pa, i: nat, s: seq<Pa>, sub: seq<Pa>, rest: seq<Pa>)
    requires i < ENTRIES && s == sub + rest && root in m.tables
    requires forall a: Pa :: a in sub <==>
               && m.tables[root][i].valid
               && exists l :: UnderMid(l, i, 0) && TableAt(m.tables, root, l) == Some(a)
    requires forall a: Pa :: a in rest <==> exists l :: UnderRoot(l, i + 1) && TableAt(m.tables, root, l) == Some(a)
    ensures forall a: Pa :: a in s <==> exists l :: UnderRoot(l, i) && TableAt(m.tables, root, l) == Some(a)
  {
    forall a: Pa
      ensures a in s <==> exists l :: UnderRoot(l, i) && TableAt(m.tables, root, l) == Some(a)
    {
      if a in sub {
        var l :| UnderMid(l, i, 0) && TableAt(m.tables, root, l) == Some(a);
        assert UnderRoot(l, i);
      }
      if a in rest {
        var l :| UnderRoot(l, i + 1) && TableAt(m.tables, root, l) == Some(a);
        assert UnderRoot(l, i);
      }
      if l :| UnderRoot(l, i) && TableAt(m.tables, root, l) == Some(a) {
        if UnderRoot(l, i + 1) {
        } else {
          assert UnderMid(l, i, 0);
        }
      }
    }
  }

  /** freewalk frees every table page of the tree, each exactly once, and no other page. */
  lemma FreeWalkExact(m: Memory, root: Pa)
    requires Tree(m, root)
    ensures var s := Freed(m.tables, root, 2, 0);
            && NoDup(s)
            && forall a: Pa :: a in s <==> exists l :: TableAt(m.tables, root, l) == Some(a)
  {
    FreedRoot(m, root, 0);
    forall a: Pa
      ensures a in Freed(m.tables, root, 2, 0) <==> exists l :: TableAt(m.tables, root, l) == Some(a)
    {
      if l :| TableAt(m.tables, root, l) == Some(a) {
        assert UnderRoot(l, 0);
      }
    }
  }

  // ----- when freewalk panics -----

  /** freewalk on table t at a level, from entry i on: the pages freed, or None for the panic at a valid entry that is
      not a pointer. */
  function FreeOutcome(tables: map<Pa, Table>, t: Pa, level: nat, i: nat): Option<seq<Pa>>
    requires t in tables && i <= ENTRIES
    decreases level, |tables[t]| - i
  {
    if i == ENTRIES then Some([t])
    else
      var e := tables[t][i];
      var sub := if IsPointer(e) && level > 0 && e.pa in tables then FreeOutcome(tables, e.pa, level - 1, 0)
                 else if e.valid then None else Some([]);
      if sub.None? then None
      else
        var rest := FreeOutcome(tables, t, level, i + 1);
        if rest.None? then None else Some(sub.value + rest.value)
  }

  /** Table t has a valid entry from i on. */
  predicate HasLeaf(tables: map<Pa, Table>, t: Pa, i: nat)
    requires t in tables
  {
    exists k :: i <= k < ENTRIES && tables[t][k].valid
  }

  lemma {:induction false} OutcomeLow(tables: map<Pa, Table>, t: Pa, i: nat)
    requires t in tables && i <= ENTRIES
    ensures FreeOutcome(tables, t, 0, i) == if HasLeaf(tables, t, i) then None else Some([t])
    decreases ENTRIES - i
  {
    if i < ENTRIES {
      OutcomeLow(tables, t, i + 1);
      assert HasLeaf(tables, t, i) <==> tables[t][i].valid || HasLeaf(tables, t, i + 1);
      assert [] + [t] == [t];
    }
  }

  /** A leaf is left under entry j of the level-1 table i. */
  predicate LeafAt(tables: map<Pa, Table>, root: Pa, i: nat, j: nat) {
    var t := TableAt(tables, root, Low(i, j)); t.Some? && t.value in tables && HasLeaf(tables, t.value, 0)
  }

  predicate LeafUnderMid(tables: map<Pa, Table>, root: Pa, i: nat, j: nat) {
    exists k :: j <= k < ENTRIES && LeafAt(tables, root, i, k)
  }

  lemma {:induction false} OutcomeMid(m: Memory, root: Pa, i: nat, j: nat)
    requires Tree(m, root) && i < ENTRIES && m.tables[root][i].valid && j <= ENTRIES
    ensures m.tables[root][i].pa in m.tables
    ensures var mid := m.tables[root][i].pa;
            FreeOutcome(m.tables, mid, 1, j)
            == if LeafUnderMid(m.tables, root, i, j) then None else Some(Freed(m.tables, mid, 1, j))
    decreases ENTRIES - j
  {
    var mid := m.tables[root][i].pa;
    assert TableAt(m.tables, root, Mid(i)) == Some(mid);
    if j < ENTRIES {
      OutcomeMid(m, root, i, j + 1);
      assert LeafUnderMid(m.tables, root, i, j) <==>
             LeafAt(m.tables, root, i, j) || LeafUnderMid(m.tables, root, i, j + 1);
      if m.tables[mid][j].valid {
        var low := m.tables[mid][j].pa;
        assert TableAt(m.tables, root, Low(i, j)) == Some(low);
        OutcomeLow(m.tables, low, 0);
        FreedLevel0(m.tables, low, 0);
      } else {
        assert [] + Freed(m.tables, mid, 1, j + 1) == Freed(m.tables, mid, 1, j);
      }
    }
  }

  predicate LeafUnderRoot(tables: map<Pa, Table>, root: Pa, i: nat) {
    exists k :: i <= k < ENTRIES && LeafUnderMid(tables, root, k, 0)
  }

  lemma {:induction false} OutcomeRoot(m: Memory, root: Pa, i: nat)
    requires Tree(m, root) && i <= ENTRIES
    ensures FreeOutcome(m.tables, root, 2, i)
         == if LeafUnderRoot(m.tables, root, i) then None else Some(Freed(m.tables, root, 2, i))
    decreases ENTRIES - i
  {
    if i < ENTRIES {
      OutcomeRoot(m, root, i + 1);
      assert LeafUnderRoot(m.tables, root, i)
             <==> LeafUnderMid(m.tables, root, i, 0) || LeafUnderRoot(m.tables, root, i + 1);
      if m.tables[root][i].valid {
        OutcomeMid(m, root, i, 0);
      } else {
        NoTableNoLeaf(m.tables, root, i);
        assert [] + Freed(m.tables, root, 2, i + 1) == Freed(m.tables, root, 2, i);
      }
    }
  }

  lemma NoTableNoLeaf(tables: map<Pa, Table>, root: Pa, i: nat)
    requires root in tables && i < ENTRIES && !tables[root][i].valid
    ensures !LeafUnderMid(tables, root, i, 0)
  {
    assert forall j :: TableAt(tables, root, Low(i, j)).None?;
  }

  /** freewalk panics if and only if some page is still mapped; otherwise it frees the table pages in the order Freed
      gives. */
  lemma FreeWalkPanicsIff(m: Memory, root: Pa)
    requires Tree(m, root)
    ensures FreeOutcome(m.tables, root, 2, 0).None? <==> exists v: nat :: v < VPNS && Lookup(m.tables, root, v).Some?
    ensures FreeOutcome(m.tables, root, 2, 0).Some? ==>
            FreeOutcome(m.tables, root, 2, 0) == Some(Freed(m.tables, root, 2, 0))
  {
    OutcomeRoot(m, root, 0);
    if LeafUnderRoot(m.tables, root, 0) {
      var i :| 0 <= i < ENTRIES && LeafUnderMid(m.tables, root, i, 0);
      var j :| 0 <= j < ENTRIES && LeafAt(m.tables, root, i, j);
      var t := TableAt(m.tables, root, Low(i, j)).value;
      var k :| 0 <= k < ENTRIES && m.tables[t][k].valid;
      PXOf(i, j, k);
      assert Lookup(m.tables, root, i * 262144 + j * 512 + k).Some?;
    }
    if v: nat :| v < VPNS && Lookup(m.tables, root, v).Some? {
      var t := TableAt(m.tables, root, Low(PX(2, v), PX(1, v))).value;
      assert m.tables[t][PX(0, v)].valid;
      assert LeafAt(m.tables, root, PX(2, v), PX(1, v));
      assert LeafUnderMid(m.tables, root, PX(2, v), 0);
    }
  }

  lemma PXOf(i: nat, j: nat, k: nat)
    requires i < ENTRIES && j < ENTRIES && k < ENTRIES
    ensures var v := i * 262144 + j * 512 + k; v < VPNS && PX(2, v) == i && PX(1, v) == j && PX(0, v) == k
  {
    var v := i * 262144 + j * 512 + k;
    assert v / 512 == i * 512 + j;
    assert v / 262144 == i;
  }

  // ----- the record of the paging model -----

  /** The page-table record that an in-memory tree stands for. */
  ghost function Abs(tables: map<Pa, Table>, root: Pa): PageTable {
    PageTable(root,
              map k: nat | k < 512 && TableAt(tables, root, Mid(k)).Some? :: TableAt(tables, root, Mid(k)).value,
              map k: nat | k < 262144 && TableAt(tables, root, Low(k / 512, k % 512)).Some?
                :: TableAt(tables, root, Low(k / 512, k % 512)).value,
              map v: nat | v < VPNS && Lookup(tables, root, v).Some? :: Lookup(tables, root, v).value)
  }

  /** Hanging a table, seen in the record. */
  lemma AbsHang(m: Memory, root: Pa, at: Place, t: Pa, i: nat)
    requires Tree(m, root) && i < ENTRIES && m.free != [] && !at.Low? && TableAt(m.tables, root, at) == Some(t)
    requires !m.tables[t][i].valid && (at.Mid? ==> at.i < ENTRIES)
    ensures var m', pt, pa := Next(m, t, i, true).0, Abs(m.tables, root), m.free[|m.free| - 1];
            Abs(m'.tables, root)
            == if at.Root? then pt.(mids := pt.mids[i := pa]) else pt.(lows := pt.lows[at.i * 512 + i := pa])
  {
    hide Lookup, Tree, TableAt, Next;
    TreeHas(m, root, at);
    NextCorrect(m, root, at, t, i);
    NextTakes(m, t, i);
    var m', pt, pa := Next(m, t, i, true).0, Abs(m.tables, root), m.free[|m.free| - 1];
    var pt' := Abs(m'.tables, root);
    assert pt'.leaf == pt.leaf;
    AbsMids(m.tables, m'.tables, root, at, i, pa);
    AbsLows(m.tables, m'.tables, root, at, i, pa);
  }

  lemma NextTakes(m: Memory, t: Pa, i: nat)
    requires t in m.tables && i < ENTRIES && m.free != [] && !m.tables[t][i].valid
    ensures Next(m, t, i, true).1 == Some(m.free[|m.free| - 1])
  {
  }

  lemma AbsMids(tables: map<Pa, Table>, tables': map<Pa, Table>, root: Pa, at: Place, i: nat, pa: Pa)
    requires i < ENTRIES && !at.Low?
    requires forall l :: TableAt(tables', root, l) == if Below(at, i, l) then Some(pa) else TableAt(tables, root, l)
    ensures Abs(tables', root).mids == if at.Root? then Abs(tables, root).mids[i := pa] else Abs(tables, root).mids
  {
    hide Lookup, TableAt;
    assert forall k: nat :: Below(at, i, Mid(k)) == (at.Root? && k == i);
  }

  lemma AbsLows(tables: map<Pa, Table>, tables': map<Pa, Table>, root: Pa, at: Place, i: nat, pa: Pa)
    requires i < ENTRIES && !at.Low? && (at.Mid? ==> at.i < ENTRIES)
    requires forall l :: TableAt(tables', root, l) == if Below(at, i, l) then Some(pa) else TableAt(tables, root, l)
    ensures Abs(tables', root).lows
         == if at.Root? then Abs(tables, root).lows else Abs(tables, root).lows[at.i * 512 + i := pa]
  {
    hide Lookup, TableAt;
    forall k: nat | k < 262144
      ensures Below(at, i, Low(k / 512, k % 512)) == (at.Mid? && k == at.i * 512 + i)
    {
    }
  }

  /** walk with allocation on the tree is Walk of the paging model on the record: same outcome, same pages
      taken from the free list, same tables afterwards. */
  lemma WalkRefines(s: State, p: Pid, m: Memory, root: Pa, v: nat)
    requires Wf(s) && Tree(m, root) && v < VPNS
    requires s.procs[p].pt == Some(Abs(m.tables, root)) && s.free == m.free
    ensures var (s', ok) := F.Walk(s, p, v);
            var (m', r) := Walk(m, root, v, true);
            ok == r.Some? && s'.free == m'.free && s'.procs[p].pt == Some(Abs(m'.tables, root))
  {
    hide Lookup, Tree, Abs;
    PXDigits(v);
    TreeRoot(m, root);
    var i, j := PX(2, v), PX(1, v);
    AbsTables(m.tables, root, i, j);
    var (m1, mid) := Next(m, root, i, true);
    assert TableAt(m.tables, root, Root) == Some(root);
    NextCorrect(m, root, Root, root, i);
    if mid.Some? { TreeHas(m1, root, Mid(i)); }
    if !m.tables[root][i].valid && m.free != [] { AbsHang(m, root, Root, root, i); }
    var (s1, ok1) := F.EnsureMid(s, p, i);
    assert ok1 == mid.Some?;
    if ok1 {
      assert s1.procs[p].pt == Some(Abs(m1.tables, root)) && s1.free == m1.free;
      WalkRefinesLow(s1, p, m1, root, i, j, mid.value);
    }
  }

  lemma AbsTables(tables: map<Pa, Table>, root: Pa, i: nat, j: nat)
    requires i < ENTRIES && j < ENTRIES
    ensures i in Abs(tables, root).mids <==> TableAt(tables, root, Mid(i)).Some?
    ensures i * 512 + j in Abs(tables, root).lows <==> TableAt(tables, root, Low(i, j)).Some?
  {
    hide Lookup;
    assert (i * 512 + j) / 512 == i && (i * 512 + j) % 512 == j;
  }

  lemma WalkRefinesLow(s: State, p: Pid, m: Memory, root: Pa, i: nat, j: nat, mid: Pa)
    requires Wf(s) && Tree(m, root) && i < ENTRIES && j < ENTRIES && TableAt(m.tables, root, Mid(i)) == Some(mid)
    requires s.procs[p].pt == Some(Abs(m.tables, root)) && s.free == m.free
    ensures mid in m.tables
    ensures var (s', ok) := F.EnsureLow(s, p, i * 512 + j);
            var (m', r) := Next(m, mid, j, true);
            ok == r.Some? && s'.free == m'.free && s'.procs[p].pt == Some(Abs(m'.tables, root))
  {
    hide Lookup, Abs;
    AbsTables(m.tables, root, i, j);
    if !m.tables[mid][j].valid && m.free != [] { AbsHang(m, root, Mid(i), mid, j); }
  }

  // ----- the code -----

  class PageTables {
    var tables: map<Pa, Table>
    var free: seq<Pa>

    function Mem(): Memory
      reads this
    {
      Memory(tables, free)
    }

    constructor (root: Pa, pages: seq<Pa>)
      requires NoDup(pages) && root !in pages
      ensures Tree(Mem(), root) && free == pages
      ensures forall v: nat :: Lookup(tables, root, v).None?
    {
      tables, free := map[root := ZeroTable()], pages;
    }

    /** One level down, as the body of the loop in walk. */
    method Follow(t: Pa, i: nat, alloc: bool) returns (r: Option<Pa>)
      requires t in tables && i < ENTRIES
      modifies this
      ensures (Mem(), r) == Next(old(Mem()), t, i, alloc)
    {
      if tables[t][i].valid {
        return Some(tables[t][i].pa);
      }
      if !alloc || free == [] {
        return None;
      }
      var pa := free[|free| - 1];
      free := free[..|free| - 1];
      tables := tables[pa := ZeroTable()];
      tables := SetEntry(tables, t, i, Entry(true, pa, NO_PERM));
      return Some(pa);
    }

    method WalkTo(root: Pa, v: nat, alloc: bool) returns (r: Option<(Pa, nat)>)
      requires Tree(Mem(), root)
      modifies this
      ensures Tree(Mem(), root)
      ensures (Mem(), r) == Walk(old(Mem()), root, v, alloc)
      ensures r.Some? ==> r == LeafSlot(tables, root, v)
    {
      hide Lookup, Tree;
      ghost var m := Mem();
      TreeRoot(m, root);
      assert TableAt(tables, root, Root) == Some(root);
      var t := root;
      if alloc { NextCorrect(m, root, Root, root, PX(2, v)); }
      var next := Follow(t, PX(2, v), alloc);
      if next.None? {
        return None;
      }
      t := next.value;
      ghost var m1 := Mem();
      assert TableAt(m1.tables, root, Mid(PX(2, v))) == Some(t);
      TreeHas(m1, root, Mid(PX(2, v)));
      if alloc { NextCorrect(m1, root, Mid(PX(2, v)), t, PX(1, v)); }
      next := Follow(t, PX(1, v), alloc);
      if next.None? {
        return None;
      }
      return Some((next.value, PX(0, v)));
    }

    method MapPage(root: Pa, v: nat, pa: Pa, perm: Perm) returns (o: Outcome)
      requires Tree(Mem(), root) && v < VPNS
      modifies this
      ensures Tree(Mem(), root) && (Mem(), o) == MapOne(old(Mem()), root, v, pa, perm)
    {
      hide Lookup, Tree, Walk;
      TreeRoot(Mem(), root);
      MapOneCorrect(Mem(), root, v, pa, perm);
      WalkAllocCorrect(Mem(), root, v);
      var slot := WalkTo(root, v, true);
      if slot.None? {
        return NoMemory;
      }
      TreeHas(Mem(), root, Low(PX(2, v), PX(1, v)));
      if tables[slot.value.0][slot.value.1].valid {
        return Remap;
      }
      tables := SetEntry(tables, slot.value.0, slot.value.1, Entry(true, pa, perm));
      return Done;
    }

    method MapPages(root: Pa, v: nat, n: nat, pa: nat, perm: Perm) returns (pages: nat, o: Outcome)
      requires Tree(Mem(), root) && n > 0 && v + n <= MAX_VPN && pa + n <= NPAGES
      modifies this
      ensures Tree(Mem(), root) && RangeResult(Mem(), pages, o) == MapRange(old(Mem()), root, v, n, pa, perm)
    {
      hide Lookup, Tree, MapOne;
      pages := 0;
      TreeRoot(Mem(), root);
      ghost var goal := MapRange(Mem(), root, v, n, pa, perm);
      while pages < n
        invariant pages <= n && Tree(Mem(), root) && root in tables
        invariant var rest := MapRange(Mem(), root, v + pages, n - pages, pa + pages, perm);
                  goal == RangeResult(rest.memory, pages + rest.pages, rest.outcome)
      {
        o := MapPage(root, v + pages, pa + pages, perm);
        TreeRoot(Mem(), root);
        if o != Done {
          return;
        }
        pages := pages + 1;
      }
      return pages, Done;
    }

    /** freewalk; false is the panic. The entries it clears belong to pages that it frees. */
    method FreeWalk(t: Pa, level: nat) returns (freed: seq<Pa>, ok: bool)
      requires t in tables
      modifies this`free
      ensures ok == FreeOutcome(tables, t, level, 0).Some?
      ensures ok ==> FreeOutcome(tables, t, level, 0) == Some(freed) && free == old(free) + freed
      decreases level
    {
      freed, ok := [], true;
      ghost var all := FreeOutcome(tables, t, level, 0);
      assert all.Some? ==> [] + all.value == all.value;
      for i := 0 to ENTRIES
        invariant var rest := FreeOutcome(tables, t, level, i);
                  FreeOutcome(tables, t, level, 0) == if rest.None? then None else Some(freed + rest.value)
        invariant free == old(free) + freed && ok
      {
        var e := tables[t][i];
        if e.valid && !e.perm.r && !e.perm.w && !e.perm.x && level > 0 && e.pa in tables {
          var sub;
          sub, ok := FreeWalk(e.pa, level - 1);
          if !ok {
            return;
          }
          ghost var rest := FreeOutcome(tables, t, level, i + 1);
          assert rest.Some? ==> freed + (sub + rest.value) == freed + sub + rest.value;
          assert old(free) + freed + sub == old(free) + (freed + sub);
          freed := freed + sub;
        } else if e.valid {
          return freed, false;
        } else {
          ghost var rest := FreeOutcome(tables, t, level, i + 1);
          assert rest.Some? ==> [] + rest.value == rest.value;
        }
      }
      freed := freed + [t];
      free := free + [t];
    }
  }

  lemma TreeHas(m: Memory, root: Pa, l: Place)
    requires Tree(m, root) && TableAt(m.tables, root, l).Some?
    ensures TableAt(m.tables, root, l).value in m.tables
  {
  }
}
