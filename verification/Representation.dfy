/** When memory represents a state of the allocator: which headers hold what, how the regions
    are linked, which pages are protected. The lemmas say how each change of memory that the
    methods of class Allocator make changes the state it represents. */
module Representation {
  import opened Arithmetic
  import opened Layouts
  import opened Blocks
  import opened States
  import opened LiveRanges
  import opened Runs
  import opened Memory
  import opened Checker

  // ----- how memory represents a state -----

  ghost function OrderAt(order: seq<int>, j: int): int {
    if 0 <= j < |order| then order[j] else NULL
  }

  ghost predicate RegionHeader(L: Layout, mm: map<int, MmapHeader>, r: Region) {
    && r.base in mm
    && mm[r.base].checkStart == CHECK && mm[r.base].checkEnd == CHECK
    && mm[r.base].size == r.size
    && mm[r.base].maxSize == L.MaxSize(r.size)
    && mm[r.base].elements == r.elements
  }

  /** prev and next of every mapped region, listed or not, are mutually inverse. */
  ghost predicate MutualLinks(mm: map<int, MmapHeader>, regions: map<int, Region>, b: int) {
    && b in mm
    && (mm[b].next != NULL ==> mm[b].next in regions && mm[b].next in mm && mm[mm[b].next].prev == b)
    && (mm[b].prev != NULL ==> mm[b].prev in regions && mm[b].prev in mm && mm[mm[b].prev].next == b)
  }

  ghost predicate ListedLinks(mm: map<int, MmapHeader>, order: seq<int>, j: nat)
    requires j < |order|
  {
    && order[j] in mm
    && mm[order[j]].prev == OrderAt(order, j - 1)
    && mm[order[j]].next == OrderAt(order, j + 1)
  }

  ghost predicate RegionsIn(L: Layout, s: State, mm: map<int, MmapHeader>) {
    && (forall b :: b in s.regions ==> RegionHeader(L, mm, s.regions[b]) && MutualLinks(mm, s.regions, b))
    && (forall j {:trigger ListedLinks(mm, s.order, j)} :: 0 <= j < |s.order| ==> ListedLinks(mm, s.order, j))
  }

  ghost predicate ListsIn(mem: map<int, Header>, regions: map<int, Region>) {
    forall b :: b in regions ==> ListIn(mem, b, regions[b].blocks)
  }

  /** Memory, page protection and the region count agree with the abstract state. */
  ghost predicate Represents(L: Layout, s: State, mem: map<int, Header>, mm: map<int, MmapHeader>,
                             protNone: set<int>, count: int)
  {
    && NULL !in mem
    && ListsIn(mem, s.regions)
    && RegionsIn(L, s, mm)
    && count == |s.regions|
    && protNone == Guards(L, s.regions)
    && HeadersKnown(s, mem)
  }

  /** A page is inaccessible exactly when it is the guard of a header that is in some list and
      has not been freed since it was created. */
  lemma ProtectedExactly(L: Layout, s: State, mem: map<int, Header>, mm: map<int, MmapHeader>,
                         protNone: set<int>, count: int, a: int)
    requires Represents(L, s, mem, mm, protNone, count)
    ensures a in protNone <==>
            L.mprotect && exists b, i :: b in s.regions && 0 <= i < |s.regions[b].blocks|
                                         && s.regions[b].blocks[i].addr == a && !s.regions[b].blocks[i].freed
  {
    hide RegionsIn, ListsIn;
    if a in protNone {
      var b :| b in s.regions && a in GuardSet(s.regions[b].blocks);
      var x :| x in s.regions[b].blocks && !x.freed && x.addr == a;
      var i :| 0 <= i < |s.regions[b].blocks| && s.regions[b].blocks[i] == x;
    }
    if L.mprotect {
      forall b, i | b in s.regions && 0 <= i < |s.regions[b].blocks|
                    && s.regions[b].blocks[i].addr == a && !s.regions[b].blocks[i].freed
        ensures a in protNone
      {
        assert s.regions[b].blocks[i] in s.regions[b].blocks;
        assert a in GuardSet(s.regions[b].blocks);
      }
    }
  }

  /** Writes inside one region leave the lists of the other regions alone. */
  lemma OtherListsKept(L: Layout, s: State, mem: map<int, Header>, mem': map<int, Header>, b: int)
    requires L.Valid() && Inv(L, s) && ListsIn(mem, s.regions) && b in s.regions
    requires forall a :: a in mem && !(b <= a < b + s.regions[b].size) ==> a in mem' && mem'[a] == mem[a]
    ensures forall c :: c in s.regions && c != b ==> ListIn(mem', c, s.regions[c].blocks)
  {
    forall c | c in s.regions && c != b ensures ListIn(mem', c, s.regions[c].blocks) {
      var bs := s.regions[c].blocks;
      assert Apart(b, s.regions[b].size, c, s.regions[c].size);
      forall j | 0 <= j < |bs| ensures Holds(mem', bs[j].addr, HeaderFor(c, bs, j)) {
        HeaderAt(mem, c, bs, j);
        InRegion(L, s, c, bs[j]);
      }
    }
  }

  /** A change of the element count leaves the list of regions alone. */
  lemma RegionsInCount(L: Layout, s: State, mm: map<int, MmapHeader>, b: int, r: Region)
    requires RegionsIn(L, s, mm) && b in s.regions && r.base == b == s.regions[b].base && r.size == s.regions[b].size
    requires forall c :: c in s.regions ==> s.regions[c].base == c
    ensures RegionHeader(L, mm, s.regions[b])
    ensures RegionsIn(L, s.(regions := s.regions[b := r]), mm[b := mm[b].(elements := r.elements)])
  {
    var mm' := mm[b := mm[b].(elements := r.elements)];
    forall j | 0 <= j < |s.order| ensures ListedLinks(mm', s.order, j) {
      assert ListedLinks(mm, s.order, j);
    }
  }

  lemma RegionFacts(L: Layout, s: State, b: int)
    requires L.Valid() && Inv(L, s) && b in s.regions
    ensures var r := s.regions[b];
            && 0 < b && r.base == b && RegionInv(L, r)
            && Tiles(L, r.blocks, b + L.mmapHeader, b + r.size)
            && (forall c :: c in s.regions ==> s.regions[c].base == c)
            && |r.blocks| > 0 && r.blocks[0].addr == b + L.mmapHeader
            && 0 < r.size <= L.regionSize && b + r.size < SIZE_T
            && (forall i :: 0 <= i < |r.blocks| ==> b < r.blocks[i].addr < b + r.size)
  {
    var r := s.regions[b];
    forall i | 0 <= i < |r.blocks| ensures b < r.blocks[i].addr < b + r.size {
      InRegion(L, s, b, r.blocks[i]);
    }
  }

  /** Where the headers written by an allocation lie. */
  lemma CarvedInside(L: Layout, s: State, b: int, k: nat, n: nat)
    requires L.Valid() && Inv(L, s) && b in s.regions && k < |s.regions[b].blocks|
    ensures var r := s.regions[b];
            var m := Carve(L, r.blocks[k], n);
            && k < |Allocate(L, r.blocks, k, n)| && Allocate(L, r.blocks, k, n)[k] == m[0]
            && (|m| == 2 ==> b < m[1].addr < b + r.size)
  {
    hide Inv, RegionInv, Tiles, Carve;
    var r := s.regions[b];
    var m := Carve(L, r.blocks[k], n);
    var after := Allocate(L, r.blocks, k, n);
    var lo, hi := b + L.mmapHeader, b + r.size;
    RegionFacts(L, s, b);
    if |m| == 2 {
      AllocateTiles(L, r.blocks, lo, hi, k, n);
      Within(L, after, lo, hi, k + 1);
      AddressOrder(L, after, lo, hi, k, k + 1);
      CarveIs(L, r.blocks[k], n);
      assert after[k + 1] == m[1];
    }
  }

  /** The headers of a region stay headers of it when a block is carved. */
  lemma CarvedHeadersKept(L: Layout, bs: seq<Block>, k: nat, n: nat, x: int)
    requires k < |bs|
    requires var m := Carve(L, bs[k], n);
             InHeaders(L, bs, x) || (|m| == 2 && m[1].addr <= x < m[1].addr + L.header)
    ensures InHeaders(L, Allocate(L, bs, k, n), x)
  {
    hide Carve;
    var m := Carve(L, bs[k], n);
    var after := Allocate(L, bs, k, n);
    if InHeaders(L, bs, x) {
      var j :| 0 <= j < |bs| && bs[j].addr <= x < bs[j].addr + L.header;
      assert after[if j <= k then j else j + |m| - 1].addr == bs[j].addr;
    } else {
      assert after[k + 1] == m[1];
    }
  }

  lemma AllocationOutside(L: Layout, s: State, b: int, n: nat, x: int)
    requires L.Valid() && Inv(L, s) && b in s.regions && Fits(s.regions[b], n) && (L.mprotect ==> n > 0)
    requires Metadata(L, AllocateAt(L, s, b, n).0.regions[b], x)
    ensures Outside(L, LiveBlocks(s.regions), x)
  {
    hide Inv, LiveBlocks, Metadata;
    AllocateAtInv(L, s, b, n);
    AllocateAtLive(L, s, b, n);
    MetadataOutside(L, AllocateAt(L, s, b, n).0, b, x);
  }

  lemma AllocatedGuards(L: Layout, s: State, b: int, k: nat, n: nat)
    requires b in s.regions && k < |s.regions[b].blocks|
    ensures var m := Carve(L, s.regions[b].blocks[k], n);
            Guards(L, s.regions[b := AllocateIn(L, s.regions[b], k, n)])
            == Guards(L, s.regions) + if L.mprotect && |m| == 2 then {m[1].addr} else {}
  {
    AllocateGuards(L, s.regions[b].blocks, k, n);
    GuardsSplitSelf(L, s.regions, b);
    GuardsSplit(L, s.regions, b, AllocateIn(L, s.regions[b], k, n));
  }

  // ----- what the code reaches is open -----

  /** Headers at the same places stay open when guards are taken down. */
  lemma ListStaysOpen(L: Layout, guards: set<int>, bs: seq<Block>, fewer: set<int>, bs': seq<Block>)
    requires fewer <= guards && ListOpen(L, guards, bs)
    requires forall a :: HeadedAt(bs', a) ==> HeadedAt(bs, a)
    ensures ListOpen(L, fewer, bs')
  {
    hide HeaderOpen;
    forall j | 0 <= j < |bs'| ensures HeaderOpen(L, fewer, bs'[j].addr) {
      assert HeadedAt(bs', bs'[j].addr);
      var i :| 0 <= i < |bs| && bs[i].addr == bs'[j].addr;
      assert HeaderOpen(L, guards, bs[i].addr);
      HeaderStaysOpen(L, guards, fewer, bs[i].addr);
    }
  }

  /** Everything an allocation touches is open, even once the new header is protected. */
  lemma AllocationOpen(L: Layout, s: State, b: int, k: nat, n: nat)
    requires L.Valid() && Inv(L, s) && b in s.regions && Fits(s.regions[b], n) && (L.mprotect ==> n > 0)
    requires k == FirstFit(s.regions[b].blocks, n) < |s.regions[b].blocks|
    ensures var bs := s.regions[b].blocks;
            var m := Carve(L, bs[k], n);
            var guards := Guards(L, s.regions) + if L.mprotect && |m| == 2 then {m[1].addr} else {};
            && ListOpen(L, guards, bs) && (|m| == 2 ==> HeaderOpen(L, guards, m[1].addr))
            && Open(L, guards, b, b + L.mmapHeader)
  {
    hide Inv, RegionInv, Guards, Open, HeaderOpen, Carve;
    var bs := s.regions[b].blocks;
    var m := Carve(L, bs[k], n);
    var t := AllocateAt(L, s, b, n).0;
    var after := Allocate(L, bs, k, n);
    AllocateAtInv(L, s, b, n);
    AllocatedGuards(L, s, b, k, n);
    StructuresOpen(L, t, b);
    assert t.regions[b].blocks == after;
    forall a | HeadedAt(bs, a) ensures HeadedAt(after, a) {
      var j :| 0 <= j < |bs| && bs[j].addr == a;
      var h := if j <= k then j else j + |m| - 1;
      assert after[h].addr == bs[j].addr;
    }
    ListStaysOpen(L, Guards(L, t.regions), after, Guards(L, t.regions), bs);
    if |m| == 2 { assert after[k + 1] == m[1]; }
  }

  /** No guard page reaches into memory that mmap has just handed out. */
  lemma NewRegionOpen(L: Layout, s: State, b: int, size: int)
    requires L.Valid() && Inv(L, s) && Mappable(L, s, b, size)
    ensures Open(L, Guards(L, s.regions), b, b + size)
  {
    forall a | b <= a < b + size ensures !Inaccessible(L, Guards(L, s.regions), a) {
      if Inaccessible(L, Guards(L, s.regions), a) {
        var c, y := GuardHome(L, s, a);
        assert Apart(b, size, c, s.regions[c].size);
        InRegion(L, s, c, y);
      }
    }
  }

  /** Setting a region up: its own structures, and the header of the region before it. */
  lemma InitOpen(L: Layout, s: State, b: int, size: int)
    requires L.Valid() && Inv(L, s) && Mappable(L, s, b, size) && (size == L.regionSize || size == L.FallbackSize())
    ensures Open(L, Guards(L, s.regions), b, b + L.mmapHeader)
    ensures HeaderOpen(L, Guards(L, s.regions), b + L.mmapHeader)
    ensures b + L.mmapHeader + L.header < b + size
    ensures var last := OrderAt(s.order, |s.order| - 1);
            last != NULL ==> Open(L, Guards(L, s.regions), last, last + L.mmapHeader)
  {
    hide RegionInv, Guards, Inaccessible, Mappable;
    NewRegionOpen(L, s, b, size);
    if s.order != [] { StructuresOpen(L, s, s.order[|s.order| - 1]); }
  }

  ghost function HeaderAddresses(bs: seq<Block>): set<int> {
    set i | 0 <= i < |bs| :: bs[i].addr
  }

  /** A sound region meets what the checker demands, and passes. */
  lemma RegionCheckable(L: Layout, s: State, mem: map<int, Header>, mm: map<int, MmapHeader>, b: int)
    requires L.Valid() && Inv(L, s) && ListsIn(mem, s.regions) && RegionsIn(L, s, mm) && b in s.regions
    requires NULL !in mem
    ensures var bs := s.regions[b].blocks;
            && b in mm && b + L.mmapHeader in HeaderAddresses(bs)
            && ClosedUnderNext(mem, HeaderAddresses(bs))
            && (forall ring :: !Ring(L, mem, b, mm[b].maxSize, ring))
            && mm[b].maxSize == L.MaxSize(s.regions[b].size)
            && Accepted(L, mem, b, mm[b].maxSize, Addresses(bs))
  {
    hide Inv, RegionInv, Tiles, Accepted, Layout.Valid, MutualLinks, ListedLinks, Ring;
    var r := s.regions[b];
    RegionFacts(L, s, b);
    LayoutPositive(L);
    SoundRegionAccepted(L, mem, b, r.size, r.blocks);
    HeaderAt(mem, b, r.blocks, 0);
    HeadNotInRing(L, mem, b, mm[b].maxSize);
    forall a | a in HeaderAddresses(r.blocks)
      ensures a in mem && a != NULL && (mem[a].next != NULL ==> mem[a].next in HeaderAddresses(r.blocks))
    {
      var i :| 0 <= i < |r.blocks| && r.blocks[i].addr == a;
      HeaderAt(mem, b, r.blocks, i);
    }
  }

  lemma RegionReadable(L: Layout, s: State, b: int)
    requires L.Valid() && Inv(L, s) && b in s.regions
    ensures Open(L, Guards(L, s.regions), b, b + L.mmapHeader)
    ensures forall a :: a in HeaderAddresses(s.regions[b].blocks) ==> HeaderOpen(L, Guards(L, s.regions), a)
  {
    StructuresOpen(L, s, b);
  }

  lemma AllocateAtPositive(L: Layout, s: State, b: int, n: nat)
    requires L.Valid() && Inv(L, s) && b in s.regions && Fits(s.regions[b], n) && (L.mprotect ==> n > 0)
    ensures AllocateAt(L, s, b, n).1 > 0
  {
    AllocateAtLive(L, s, b, n);
    AllocateAtInv(L, s, b, n);
    var t := AllocateAt(L, s, b, n).0;
    var x := Chosen(L, s.regions[b], n);
    BlockFitted(L, t, b, x);
    PointerBounds(L, x);
  }

  // ----- a new region -----

  /** A region header appended to the list. */
  function Appended(mm: map<int, MmapHeader>, b: int, h: MmapHeader, last: int): map<int, MmapHeader> {
    var mm1 := mm[b := h];
    if last != NULL && last in mm1 then mm1[last := mm1[last].(next := b)] else mm1
  }

  lemma AppendedLinks(mm: map<int, MmapHeader>, order: seq<int>, b: int, h: MmapHeader, j: nat)
    requires forall i {:trigger ListedLinks(mm, order, i)} :: 0 <= i < |order| ==> ListedLinks(mm, order, i)
    requires forall i :: 0 <= i < |order| ==> order[i] != b && order[i] != NULL
    requires forall i :: 0 <= i < |order| - 1 ==> order[i] != order[|order| - 1]
    requires h.prev == OrderAt(order, |order| - 1) && h.next == NULL && j <= |order|
    ensures ListedLinks(Appended(mm, b, h, h.prev), order + [b], j)
  {
    if j < |order| {
      assert ListedLinks(mm, order, j);
    }
  }

  lemma AppendedMutual(s: State, mm: map<int, MmapHeader>, b: int, h: MmapHeader, r: Region, c: int)
    requires forall i {:trigger ListedLinks(mm, s.order, i)} :: 0 <= i < |s.order| ==> ListedLinks(mm, s.order, i)
    requires forall d :: d in s.regions ==> MutualLinks(mm, s.regions, d)
    requires b !in s.regions && NULL !in s.regions && forall i :: 0 <= i < |s.order| ==> s.order[i] in s.regions
    requires h.prev == OrderAt(s.order, |s.order| - 1) && h.next == NULL && c in s.regions[b := r]
    ensures MutualLinks(Appended(mm, b, h, h.prev), s.regions[b := r], c)
  {
    if s.order != [] {
      assert ListedLinks(mm, s.order, |s.order| - 1);
    }
    assert c != b ==> MutualLinks(mm, s.regions, c);
    if h.prev != NULL { assert MutualLinks(mm, s.regions, h.prev); }
  }

  lemma EnlistedRegions(L: Layout, s: State, mm: map<int, MmapHeader>, b: int, size: int)
    requires L.Valid() && Inv(L, s) && RegionsIn(L, s, mm) && b !in s.regions
    ensures var h := MmapHeader(CHECK, size, L.MaxSize(size), 0, OrderAt(s.order, |s.order| - 1), NULL, CHECK);
            && (h.prev != NULL ==> h.prev in mm)
            && RegionsIn(L, Enlist(L, s, b, size), Appended(mm, b, h, h.prev))
  {
    hide RegionInv, ListedLinks, MutualLinks, Appended;
    var h := MmapHeader(CHECK, size, L.MaxSize(size), 0, OrderAt(s.order, |s.order| - 1), NULL, CHECK);
    var t := Enlist(L, s, b, size);
    var mm' := Appended(mm, b, h, h.prev);
    assert NULL !in s.regions by {
      forall c | c in s.regions ensures c != NULL { RegionFacts(L, s, c); }
    }
    forall j | 0 <= j < |t.order| ensures ListedLinks(mm', t.order, j) {
      AppendedLinks(mm, s.order, b, h, j);
    }
    forall c | c in t.regions ensures MutualLinks(mm', t.regions, c) && RegionHeader(L, mm', t.regions[c]) {
      AppendedMutual(s, mm, b, h, t.regions[b], c);
      AppendedHeader(L, s, mm, b, h, c);
    }
  }

  lemma AppendedHeader(L: Layout, s: State, mm: map<int, MmapHeader>, b: int, h: MmapHeader, c: int)
    requires forall d :: d in s.regions ==> s.regions[d].base == d && RegionHeader(L, mm, s.regions[d])
    requires forall i :: 0 <= i < |s.order| ==> s.order[i] in s.regions
    requires b !in s.regions && h.prev == OrderAt(s.order, |s.order| - 1)
    ensures h.prev != NULL ==> h.prev in mm
    ensures c in s.regions ==> RegionHeader(L, Appended(mm, b, h, h.prev), s.regions[c])
    ensures h.checkStart == CHECK && h.checkEnd == CHECK && h.maxSize == L.MaxSize(h.size) && h.elements == 0 ==>
              RegionHeader(L, Appended(mm, b, h, h.prev), FreshRegion(L, b, h.size))
  {
  }

  lemma EnlistedLists(L: Layout, s: State, mem: map<int, Header>, b: int, size: int)
    requires L.Valid() && Inv(L, s) && ListsIn(mem, s.regions) && Mappable(L, s, b, size) && b !in s.regions
    requires size > L.mmapHeader
    ensures ListsIn(mem[b + L.mmapHeader := Header(CHECK, L.MaxSize(size), FREE, b, NULL, NULL, CHECK)],
                    Enlist(L, s, b, size).regions)
  {
    hide Inv, Mappable;
    var a := b + L.mmapHeader;
    var mem' := mem[a := Header(CHECK, L.MaxSize(size), FREE, b, NULL, NULL, CHECK)];
    assert ListIn(mem', b, FreshBlocks(L, b, size));
    forall c | c in s.regions ensures ListIn(mem', c, s.regions[c].blocks) {
      var bs := s.regions[c].blocks;
      forall j | 0 <= j < |bs| ensures Holds(mem', bs[j].addr, HeaderFor(c, bs, j)) {
        HeaderAt(mem, c, bs, j);
        HeaderElsewhere(L, s, b, size, c, j);
      }
    }
  }

  lemma HeaderElsewhere(L: Layout, s: State, b: int, size: int, c: int, j: nat)
    requires L.Valid() && Inv(L, s) && Mappable(L, s, b, size) && c in s.regions && j < |s.regions[c].blocks|
    requires size > L.mmapHeader
    ensures s.regions[c].blocks[j].addr != b + L.mmapHeader
  {
    assert Apart(b, size, c, s.regions[c].size);
    InRegion(L, s, c, s.regions[c].blocks[j]);
  }

  lemma EnlistedGuards(L: Layout, s: State, b: int, size: int)
    requires b !in s.regions
    ensures Guards(L, Enlist(L, s, b, size).regions)
         == if L.mprotect then Guards(L, s.regions) + {b + L.mmapHeader} else Guards(L, s.regions)
  {
    GuardsSplit(L, s.regions, b, FreshRegion(L, b, size));
    assert s.regions - {b} == s.regions;
    var x := FreshBlocks(L, b, size)[0];
    assert x in FreshBlocks(L, b, size);
    assert GuardSet(FreshBlocks(L, b, size)) == {b + L.mmapHeader};
  }

  lemma EnlistedRepresents(L: Layout, s: State, mem: map<int, Header>, mm: map<int, MmapHeader>,
                           protNone: set<int>, count: int, b: int, size: int)
    requires L.Valid() && Inv(L, s) && Represents(L, s, mem, mm, protNone, count)
    requires Mappable(L, s, b, size) && (size == L.regionSize || size == L.FallbackSize())
    ensures var last := OrderAt(s.order, |s.order| - 1);
            var a := b + L.mmapHeader;
            && Inv(L, Enlist(L, s, b, size))
            && (last != NULL ==> last in mm && last != b)
            && Represents(L, Enlist(L, s, b, size),
                          mem[a := Header(CHECK, L.MaxSize(size), FREE, b, NULL, NULL, CHECK)],
                          Appended(mm, b, MmapHeader(CHECK, size, L.MaxSize(size), 0, last, NULL, CHECK), last),
                          if L.mprotect then protNone + {a} else protNone, count + 1)
  {
    hide Inv, RegionsIn, ListsIn, Guards, Mappable, Layout.Valid, FreshRegion, Appended;
    NewBase(L, s, b, size);
    EnlistInv(L, s, b, size);
    EnlistedRegions(L, s, mm, b, size);
    EnlistedLists(L, s, mem, b, size);
    EnlistedGuards(L, s, b, size);
    LastIsOld(L, s, b);
    EnlistedKnown(L, s, mem, b, size);
  }

  lemma EnlistedKnown(L: Layout, s: State, mem: map<int, Header>, b: int, size: int)
    requires HeadersKnown(s, mem) && b !in s.regions && 0 <= L.mmapHeader < size
    ensures HeadersKnown(Enlist(L, s, b, size),
                         mem[b + L.mmapHeader := Header(CHECK, L.MaxSize(size), FREE, b, NULL, NULL, CHECK)])
  {
    var t := Enlist(L, s, b, size);
    forall a | a in mem ensures WrittenIn(t.regions, a, mem[a]) {
      assert WrittenIn(s.regions, a, mem[a]);
    }
  }

  lemma EnlistOutside(L: Layout, s: State, b: int, size: int, x: int)
    requires L.Valid() && Inv(L, s) && Mappable(L, s, b, size)
    requires b <= x < b + size
             || (OrderAt(s.order, |s.order| - 1) != NULL
                 && OrderAt(s.order, |s.order| - 1) <= x < OrderAt(s.order, |s.order| - 1) + L.mmapHeader)
    ensures Outside(L, LiveBlocks(s.regions), x)
  {
    hide LiveBlocks, Outside;
    if b <= x < b + size {
      UnmappedOutside(L, s, b, size, x);
    } else {
      MetadataOutside(L, s, OrderAt(s.order, |s.order| - 1), x);
    }
  }

  lemma LastIsOld(L: Layout, s: State, b: int)
    requires Inv(L, s) && b !in s.regions
    ensures OrderAt(s.order, |s.order| - 1) != NULL ==> OrderAt(s.order, |s.order| - 1) != b
  {
  }

  lemma NewBase(L: Layout, s: State, b: int, size: int)
    requires L.Valid() && Inv(L, s) && Mappable(L, s, b, size) && (size == L.regionSize || size == L.FallbackSize())
    ensures b !in s.regions && b > 0 && size > L.mmapHeader
    ensures KernelOk(L, s, if size == L.regionSize then Kernel(Some(b), None) else Kernel(None, Some(b)))
  {
    assert b in s.regions ==> Apart(b, size, b, s.regions[b].size);
  }

  // ----- vgc_malloc -----

  lemma MallocFacts(L: Layout, s: State, size: nat, k: Kernel)
    requires L.Valid() && Inv(L, s) && KernelOk(L, s, k)
    ensures var s0 := WithFirst(L, s, k);
            && Inv(L, s0) && (s0.order != [] <==> HasFirst(s, k))
            && LiveBlocks(s0.regions) == LiveBlocks(s.regions)
            && (s.order == [] && HasFirst(s, k) ==> MapRegion(L, s, k).1 == Some(s0.order[0]) && |s0.order| == 1)
            && (s.order == [] && !HasFirst(s, k) ==> MapRegion(L, s, k).1 == None && Malloc(L, s, size, k) == (s, 0))
            && (forall j :: 0 <= j < |s0.order| ==> s0.order[j] in s0.regions && NULL < s0.order[j] < MAP_FAILED)
    ensures OrderAt(s.order, 0) == NULL <==> s.order == []
  {
    MapRegionInv(L, s, k);
    var s0 := WithFirst(L, s, k);
    forall j | 0 <= j < |s0.order| ensures s0.order[j] in s0.regions && NULL < s0.order[j] < MAP_FAILED {
      RegionFacts(L, s0, s0.order[j]);
    }
    if s.order != [] { RegionFacts(L, s, s.order[0]); }
  }

  lemma ListedHeader(L: Layout, s: State, mm: map<int, MmapHeader>, mem: map<int, Header>,
                     protNone: set<int>, count: int, j: nat)
    requires L.Valid() && Inv(L, s) && Represents(L, s, mem, mm, protNone, count) && j < |s.order|
    ensures var b := s.order[j];
            && b in s.regions && b in mm && b != NULL
            && mm[b].next == OrderAt(s.order, j + 1)
            && mm[b].prev == OrderAt(s.order, j - 1)
            && mm[b].maxSize == L.MaxSize(s.regions[b].size)
            && Open(L, protNone, b, b + L.mmapHeader)
  {
    assert ListedLinks(mm, s.order, j);
    RegionFacts(L, s, s.order[j]);
    StructuresOpen(L, s, s.order[j]);
  }

  lemma HeadHeader(L: Layout, s: State, mm: map<int, MmapHeader>, mem: map<int, Header>, protNone: set<int>, count: int)
    requires L.Valid() && Inv(L, s) && Represents(L, s, mem, mm, protNone, count) && s.order != []
    ensures var b := s.order[0];
            && b in s.regions && b in mm && mm[b].maxSize == L.MaxSize(s.regions[b].size)
            && Open(L, protNone, b, b + L.mmapHeader)
  {
    ListedHeader(L, s, mm, mem, protNone, count, 0);
  }

  lemma FoundIn(L: Layout, s: State, n: nat, j: nat)
    requires Inv(L, s) && j < |s.order| && s.order[j] in s.regions && Fits(s.regions[s.order[j]], n)
    requires forall i :: 0 <= i < j ==> s.order[i] in s.regions && !Fits(s.regions[s.order[i]], n)
    ensures FirstRegion(s.regions, s.order, n) == j
  {
    FirstRegionEarliest(s.regions, s.order, n);
  }

  /** The second call of `mmapBlockAllocate` in one `vgc_malloc` happens only when the list
      was not empty to begin with. */
  lemma FoundNowhere(L: Layout, s: State, size: nat, k: Kernel, s0: State, j: nat)
    requires L.Valid() && Inv(L, s) && KernelOk(L, s, k) && s0 == WithFirst(L, s, k)
    requires Inv(L, s0) && size > 0 && j == |s0.order| > 0
    requires L.AlignRequest(size) < L.MaxSize(s0.regions[s0.order[0]].size)
    requires forall i :: 0 <= i < j ==>
               s0.order[i] in s0.regions && !Fits(s0.regions[s0.order[i]], L.AlignRequest(size))
    ensures s.order != [] && s0 == s && FirstRegion(s.regions, s.order, L.AlignRequest(size)) == |s.order|
    ensures MapRegion(L, s, k).1.Some? ==> MapRegion(L, s, k).1.value in MapRegion(L, s, k).0.regions
  {
    FirstRegionEarliest(s0.regions, s0.order, L.AlignRequest(size));
    if s.order == [] {
      FreshHeadServes(L, s, size, k);
    }
  }

  // ----- vgc_free -----

  lemma ListEnds(L: Layout, s: State, j: nat)
    requires Inv(L, s) && j <= |s.order| && OrderAt(s.order, j) == NULL
    ensures j == |s.order|
  {
  }

  /** Only the headers of one list were written. */
  ghost predicate OnlyHeaders(mem: map<int, Header>, mem': map<int, Header>, bs: seq<Block>) {
    && SameElsewhere(mem, mem', bs)
    && (NULL !in mem ==> NULL !in mem')
  }

  lemma MergedFrame(L: Layout, mem: map<int, Header>, base: int, bs: seq<Block>, lo: int, hi: int, i: nat)
    requires L.header > 0 && Tiles(L, bs, lo, hi) && 0 < lo && ListIn(mem, base, bs) && i + 1 < |bs|
    ensures var mem' := AbsorbedStores(L, mem, base, bs, i);
            && ListIn(mem', base, Absorb(L, bs, i)) && OnlyHeaders(mem, mem', bs) && SameMarks(mem, mem')
            && Tiles(L, Absorb(L, bs, i), lo, hi)
  {
    hide Tiles;
    AddressesDiffer(L, bs, lo, hi, i);
    AddressesDiffer(L, bs, lo, hi, i + 2);
    AbsorbedMemory(L, mem, base, bs, i);
    AbsorbedFrame(L, mem, base, bs, i);
    AbsorbTiles(L, bs, lo, hi, i);
  }

  /** Marking a block free changes its own header only. */
  lemma MarkedFrame(mem: map<int, Header>, bs: seq<Block>, i: nat)
    requires i < |bs| && bs[i].addr in mem
    ensures var mem' := mem[bs[i].addr := mem[bs[i].addr].(status := FREE)];
            OnlyHeaders(mem, mem', bs) && SameMarks(mem, mem')
  {
    assert HeadedAt(bs, bs[i].addr);
  }

  lemma FramesCompose(mem: map<int, Header>, mem1: map<int, Header>, mem2: map<int, Header>, bs: seq<Block>,
                      cs: seq<Block>)
    requires OnlyHeaders(mem, mem1, bs) && SameMarks(mem, mem1)
    requires OnlyHeaders(mem1, mem2, cs) && SameMarks(mem1, mem2)
    requires forall a :: HeadedAt(cs, a) ==> HeadedAt(bs, a)
    ensures OnlyHeaders(mem, mem2, bs) && SameMarks(mem, mem2)
  {
  }

  /** Freeing and merging keep the headers among those of the list before. */
  lemma SameHeaders(L: Layout, bs: seq<Block>, i: nat)
    requires i < |bs|
    ensures forall a :: HeadedAt(MarkFree(bs, i), a) ==> HeadedAt(bs, a)
    ensures forall a :: HeadedAt(MergeNext(L, MarkFree(bs, i), i), a) ==> HeadedAt(bs, a)
    ensures forall x :: InHeaders(L, MarkFree(bs, i), x) ==> InHeaders(L, bs, x)
    ensures forall x :: InHeaders(L, MergeNext(L, MarkFree(bs, i), i), x) ==> InHeaders(L, bs, x)
    ensures i < |MergeNext(L, MarkFree(bs, i), i)| && MergeNext(L, MarkFree(bs, i), i)[i].addr == bs[i].addr
    ensures 0 < i ==> MergeNext(L, MarkFree(bs, i), i)[i - 1] == bs[i - 1]
  {
    var marked := MarkFree(bs, i);
    var next := MergeNext(L, marked, i);
    forall j | 0 <= j < |next| ensures exists k :: 0 <= k < |bs| && bs[k].addr == next[j].addr {
      var k := if j <= i || |next| == |bs| then j else j + 1;
      assert bs[k].addr == next[j].addr;
    }
    forall j | 0 <= j < |marked| ensures bs[j].addr == marked[j].addr {}
    forall x | InHeaders(L, next, x) ensures InHeaders(L, bs, x) {
      var j :| 0 <= j < |next| && next[j].addr <= x < next[j].addr + L.header;
      var k :| 0 <= k < |bs| && bs[k].addr == next[j].addr;
    }
    forall x | InHeaders(L, marked, x) ensures InHeaders(L, bs, x) {
      var j :| 0 <= j < |marked| && marked[j].addr <= x < marked[j].addr + L.header;
      assert bs[j].addr == marked[j].addr;
    }
  }

  /** Where the headers of a region lie, for the memory outside it. */
  lemma HeadersInside(L: Layout, s: State, b: int, mem: map<int, Header>, mem': map<int, Header>)
    requires L.Valid() && Inv(L, s) && b in s.regions
    requires OnlyHeaders(mem, mem', s.regions[b].blocks)
    ensures forall a :: a in mem && !(b <= a < b + s.regions[b].size) ==> a in mem' && mem'[a] == mem[a]
  {
    RegionFacts(L, s, b);
  }

  /** The region header list without b. */
  function Unlinked(mm: map<int, MmapHeader>, b: int): map<int, MmapHeader>
    requires b in mm
  {
    var n, p := mm[b].next, mm[b].prev;
    var mm1 := if n in mm && n != NULL then mm[n := mm[n].(prev := p)] else mm;
    if p in mm1 && p != NULL then mm1[p := mm1[p].(next := n)] else mm1
  }

  lemma UnlinkedMutual(s: State, mm: map<int, MmapHeader>, b: int, c: int)
    requires forall d :: d in s.regions ==> MutualLinks(mm, s.regions, d)
    requires b in s.regions && c in s.regions && c != b && NULL !in s.regions
    ensures b in mm && MutualLinks(Unlinked(mm, b), s.regions - {b}, c)
  {
    assert MutualLinks(mm, s.regions, b) && MutualLinks(mm, s.regions, c);
    if mm[b].next != NULL { assert MutualLinks(mm, s.regions, mm[b].next); }
    if mm[b].prev != NULL { assert MutualLinks(mm, s.regions, mm[b].prev); }
    if mm[c].next != NULL { assert MutualLinks(mm, s.regions, mm[c].next); }
    if mm[c].prev != NULL { assert MutualLinks(mm, s.regions, mm[c].prev); }
  }

  lemma UnlinkedHeader(L: Layout, mm: map<int, MmapHeader>, b: int, r: Region)
    requires b in mm && r.base != b && RegionHeader(L, mm, r)
    ensures RegionHeader(L, Unlinked(mm, b), r)
  {
  }

  /** Unlinking a listed region that is not the head closes the gap. */
  lemma UnlinkedListed(mm: map<int, MmapHeader>, order: seq<int>, b: int, m: nat, j: nat)
    requires forall i {:trigger ListedLinks(mm, order, i)} :: 0 <= i < |order| ==> ListedLinks(mm, order, i)
    requires forall i, k :: 0 <= i < k < |order| ==> order[i] != order[k]
    requires forall i :: 0 <= i < |order| ==> order[i] != NULL
    requires 0 < m < |order| && order[m] == b && j < |order| - 1
    ensures b in mm && ListedLinks(Unlinked(mm, b), order[..m] + order[m + 1..], j)
  {
    assert ListedLinks(mm, order, m);
    assert ListedLinks(mm, order, m - 1);
    if m + 1 < |order| { assert ListedLinks(mm, order, m + 1); }
    var k := if j < m then j else j + 1;
    assert ListedLinks(mm, order, k);
    var after := order[..m] + order[m + 1..];
    assert after[j] == order[k];
    assert 0 < j ==> after[j - 1] == if j - 1 < m then order[j - 1] else order[j];
    assert j + 1 < |after| ==> after[j + 1] == if j + 1 < m then order[j + 1] else order[j + 2];
  }

  /** Unlinking a region that is not listed touches no listed one. */
  lemma UnlinkedElsewhere(s: State, mm: map<int, MmapHeader>, b: int, j: nat)
    requires forall i {:trigger ListedLinks(mm, s.order, i)} :: 0 <= i < |s.order| ==> ListedLinks(mm, s.order, i)
    requires forall d :: d in s.regions ==> MutualLinks(mm, s.regions, d)
    requires forall i :: 0 <= i < |s.order| ==> s.order[i] in s.regions
    requires b in s.regions && b !in s.order && j < |s.order| && NULL !in s.regions
    ensures b in mm && ListedLinks(Unlinked(mm, b), s.order, j)
  {
    assert MutualLinks(mm, s.regions, b);
    assert ListedLinks(mm, s.order, j);
    assert 0 < j ==> s.order[j - 1] in s.order;
    assert j + 1 < |s.order| ==> s.order[j + 1] in s.order;
  }

  lemma UnmapNotHead(s: State, b: int)
    ensures Unmap(s, b).order != [] ==> s.order != [] && s.order[0] != b && Unmap(s, b).order == Remove(s.order, b)
    ensures OrderAt(Unmap(s, b).order, 0) == if s.order != [] && s.order[0] != b then s.order[0] else NULL
  {
  }

  lemma UnlinkedList(s: State, mm: map<int, MmapHeader>, b: int, j: nat)
    requires Listed(s) && NULL !in s.regions && b in s.regions
    requires forall i {:trigger ListedLinks(mm, s.order, i)} :: 0 <= i < |s.order| ==> ListedLinks(mm, s.order, i)
    requires forall d :: d in s.regions ==> MutualLinks(mm, s.regions, d)
    requires j < |Unmap(s, b).order|
    ensures b in mm && ListedLinks(Unlinked(mm, b), Unmap(s, b).order, j)
  {
    hide ListedLinks, MutualLinks, Unlinked, Remove;
    UnmapNotHead(s, b);
    if b in s.order {
      var m :| 0 <= m < |s.order| && s.order[m] == b;
      RemoveAt(s.order, b, m);
      UnlinkedListed(mm, s.order, b, m, j);
    } else {
      RemoveAbsent(s.order, b);
      UnlinkedElsewhere(s, mm, b, j);
    }
  }

  /** Releasing a region: the links of the others, listed or not, stay mutually inverse, and
      what is left of the list stays linked. */
  lemma UnlinkedRegions(L: Layout, s: State, mm: map<int, MmapHeader>, b: int)
    requires Listed(s) && NULL !in s.regions && b in s.regions && RegionsIn(L, s, mm)
    requires forall c :: c in s.regions ==> s.regions[c].base == c
    ensures b in mm && RegionsIn(L, Unmap(s, b), Unlinked(mm, b))
  {
    hide ListedLinks, MutualLinks, Unlinked, RegionHeader, Remove;
    MutualHere(mm, s.regions, b);
    forall c | c in s.regions && c != b
      ensures MutualLinks(Unlinked(mm, b), s.regions - {b}, c) && RegionHeader(L, Unlinked(mm, b), s.regions[c])
    {
      UnlinkedMutual(s, mm, b, c);
      UnlinkedHeader(L, mm, b, s.regions[c]);
    }
    forall j | 0 <= j < |Unmap(s, b).order| ensures ListedLinks(Unlinked(mm, b), Unmap(s, b).order, j) {
      UnlinkedList(s, mm, b, j);
    }
  }

  lemma LayoutPositive(L: Layout)
    requires L.Valid()
    ensures L.header > 0 && L.mmapHeader > 0
  {
  }

  lemma RegionLinks(L: Layout, s: State, mm: map<int, MmapHeader>, b: int)
    requires RegionsIn(L, s, mm) && b in s.regions && s.regions[b].base == b
    ensures b in mm && mm[b].size == s.regions[b].size
    ensures mm[b].next != NULL ==> mm[b].next in mm && mm[b].next in s.regions
    ensures mm[b].prev != NULL ==> mm[b].prev in mm && mm[b].prev in s.regions
  {
    MutualHere(mm, s.regions, b);
  }

  lemma MutualHere(mm: map<int, MmapHeader>, regions: map<int, Region>, b: int)
    requires MutualLinks(mm, regions, b)
    ensures b in mm
    ensures mm[b].next != NULL ==> mm[b].next in mm && mm[b].next in regions
    ensures mm[b].prev != NULL ==> mm[b].prev in mm && mm[b].prev in regions
  {
  }

  ghost function Released(L: Layout, s: State, b: int, i: nat): State
    requires b in s.regions && i < |s.regions[b].blocks|
  {
    s.(regions := s.regions[b := ReleaseIn(L, s.regions[b], i)])
  }

  lemma ReleasedGuards(L: Layout, s: State, b: int, i: nat)
    requires L.Valid() && Inv(L, s) && b in s.regions && i < |s.regions[b].blocks| && s.regions[b].blocks[i].Busy()
    ensures var bs := s.regions[b].blocks;
            Guards(L, Released(L, s, b, i).regions)
            == if L.mprotect
               then
                 Guards(L, s.regions) - {bs[i].addr}
                 - if i + 1 < |bs| && bs[i + 1].Free() then {bs[i + 1].addr} else {}
               else Guards(L, s.regions)
  {
    hide Inv, RegionInv, Tiles, Coalesced, GuardSet;
    RegionFacts(L, s, b);
    var r := s.regions[b];
    SoundParts(L, r);
    ReleaseGuards(L, r.blocks, b + L.mmapHeader, b + r.size, i);
    GuardsSplitSelf(L, s.regions, b);
    GuardsSplit(L, s.regions, b, ReleaseIn(L, r, i));
    GuardNotElsewhere(L, s, b, i);
    if i + 1 < |r.blocks| { GuardNotElsewhere(L, s, b, i + 1); }
  }

  /** Region headers stay open throughout a release. */
  lemma ReleasedOpen(L: Layout, s: State, b: int, i: nat)
    requires L.Valid() && Inv(L, s) && b in s.regions && i < |s.regions[b].blocks| && s.regions[b].blocks[i].Busy()
    ensures forall c :: c in s.regions ==> Open(L, Guards(L, Released(L, s, b, i).regions), c, c + L.mmapHeader)
  {
    hide Inv, Guards, Open;
    ReleasedGuards(L, s, b, i);
    forall c | c in s.regions ensures Open(L, Guards(L, Released(L, s, b, i).regions), c, c + L.mmapHeader) {
      StructuresOpen(L, s, c);
      OpenWithFewer(L, Guards(L, s.regions), Guards(L, Released(L, s, b, i).regions), c, c + L.mmapHeader);
    }
  }

  lemma SoundParts(L: Layout, r: Region)
    requires RegionInv(L, r)
    ensures Coalesced(r.blocks) && r.elements == Tally(r.blocks).live
  {
  }

  lemma GuardInside(L: Layout, bs: seq<Block>, lo: int, hi: int, a: int)
    requires L.header > 0 && Tiles(L, bs, lo, hi) && a in GuardSet(bs)
    ensures lo <= a < hi
  {
    var y :| y in bs && y.addr == a;
    var k :| 0 <= k < |bs| && bs[k] == y;
    Within(L, bs, lo, hi, k);
    BlockSizes(L, bs, lo, hi, k);
  }

  lemma GuardOutside(L: Layout, s: State, b: int, a: int)
    requires L.Valid() && Inv(L, s) && b in s.regions && a in Guards(L, s.regions - {b})
    ensures !(b <= a < b + s.regions[b].size)
  {
    hide RegionInv;
    var c :| c in s.regions && c != b && a in GuardSet(s.regions[c].blocks);
    RegionFacts(L, s, c);
    GuardInside(L, s.regions[c].blocks, c + L.mmapHeader, c + s.regions[c].size, a);
    assert Apart(b, s.regions[b].size, c, s.regions[c].size);
  }

  /** The guards left when a region is unmapped are those outside it. */
  lemma UnmappedGuards(L: Layout, s: State, b: int, i: nat)
    requires L.Valid() && Inv(L, s) && b in s.regions && i < |s.regions[b].blocks| && s.regions[b].blocks[i].Busy()
    ensures Guards(L, s.regions - {b}) ==
            set a | a in Guards(L, Released(L, s, b, i).regions) && !(b <= a < b + s.regions[b].size)
  {
    hide Inv, RegionInv, Tiles, Guards, GuardSet, Release;
    var r := s.regions[b];
    GuardsSplit(L, s.regions, b, ReleaseIn(L, r, i));
    RegionFacts(L, s, b);
    ReleasedTiles(L, r, i);
    var bs := Release(L, r.blocks, i);
    forall a | a in GuardSet(bs) ensures b <= a < b + r.size {
      GuardInside(L, bs, b + L.mmapHeader, b + r.size, a);
    }
    forall a | a in Guards(L, s.regions - {b}) ensures !(b <= a < b + r.size) {
      GuardOutside(L, s, b, a);
    }
  }

  lemma ReleasedTiles(L: Layout, r: Region, i: nat)
    requires L.Valid() && RegionInv(L, r) && i < |r.blocks| && r.blocks[i].Busy()
    ensures Tiles(L, Release(L, r.blocks, i), r.base + L.mmapHeader, r.base + r.size)
  {
    ReleaseInInv(L, r, i);
  }

  /** What vgc_free finds before it changes the list. */
  lemma ReleaseStart(L: Layout, s: State, mem: map<int, Header>, mm: map<int, MmapHeader>, protNone: set<int>,
                     count: int, b: int)
    requires L.Valid() && Inv(L, s) && Represents(L, s, mem, mm, protNone, count) && b in s.regions
    ensures var bs := s.regions[b].blocks;
            && NULL !in mem && ListIn(mem, b, bs)
            && b in mm && b + L.mmapHeader in HeaderAddresses(bs)
            && ClosedUnderNext(mem, HeaderAddresses(bs))
            && (forall ring :: !Ring(L, mem, b, mm[b].maxSize, ring))
            && Accepted(L, mem, b, mm[b].maxSize, Addresses(bs))
  {
    hide Inv, RegionsIn, Guards, Accepted, ClosedUnderNext, Ring;
    RegionCheckable(L, s, mem, mm, b);
  }

  /** The element count, the list and the guards after a release agree with the abstract one. */
  lemma ReleasedRepresents(L: Layout, s: State, mem: map<int, Header>, mem': map<int, Header>, mm: map<int, MmapHeader>,
                           protNone: set<int>, count: int, b: int, i: nat)
    requires L.Valid() && Inv(L, s) && Represents(L, s, mem, mm, protNone, count)
    requires b in s.regions && b in mm && i < |s.regions[b].blocks| && s.regions[b].blocks[i].Busy()
    requires ListIn(mem', b, Release(L, s.regions[b].blocks, i)) && OnlyHeaders(mem, mem', s.regions[b].blocks)
    requires SameMarks(mem, mem')
    ensures var bs := s.regions[b].blocks;
            Represents(L, Released(L, s, b, i), mem', mm[b := mm[b].(elements := mm[b].elements - 1)],
                       if L.mprotect
                       then protNone - {bs[i].addr} - if i + 1 < |bs| && bs[i + 1].Free() then {bs[i + 1].addr} else {}
                       else protNone,
                       count)
  {
    hide Inv, RegionInv, Guards, RegionsIn, Release, ListIn, OnlyHeaders, SameMarks, HeadersKnown;
    RegionFacts(L, s, b);
    RegionsInCount(L, s, mm, b, ReleaseIn(L, s.regions[b], i));
    ReleasedGuards(L, s, b, i);
    HeadersInside(L, s, b, mem, mem');
    OtherListsKept(L, s, mem, mem', b);
    StillNotNull(mem, mem', s.regions[b].blocks);
    ReleasedKnown(L, s, mem, mem', b, i);
  }

  lemma ReleasedKnown(L: Layout, s: State, mem: map<int, Header>, mem': map<int, Header>, b: int, i: nat)
    requires HeadersKnown(s, mem) && SameMarks(mem, mem') && b in s.regions && i < |s.regions[b].blocks|
    ensures HeadersKnown(Released(L, s, b, i), mem')
  {
    hide Release;
    forall a | a in mem' ensures WrittenIn(Released(L, s, b, i).regions, a, mem'[a]) {
      assert WrittenIn(s.regions, a, mem[a]);
    }
  }

  lemma StillNotNull(mem: map<int, Header>, mem': map<int, Header>, bs: seq<Block>)
    requires OnlyHeaders(mem, mem', bs) && NULL !in mem
    ensures NULL !in mem'
  {
  }

  /** What memory holds at an address, read as a header: the header last written there, or,
      where none ever was, whatever the bytes happen to be. */
  function ReadHeader(mem: map<int, Header>, stray: Header, a: int): Header {
    if a in mem then mem[a] else stray
  }

  function ReadRegion(mm: map<int, MmapHeader>, strayRegion: MmapHeader, a: int): MmapHeader {
    if a in mm then mm[a] else strayRegion
  }

  /** The bytes that are no header pass for one, and for one of a region. */
  predicate Junk(mm: map<int, MmapHeader>, stray: Header, strayRegion: MmapHeader) {
    Intact(stray) && IntactRegion(ReadRegion(mm, strayRegion, stray.mmapBlock))
  }

  /** The pointer of a live block leads vgc_free to its header, or, for a page multiple, to
      a place where no block of any region starts. */
  lemma FoundHeader(L: Layout, s: State, ptr: nat, b: int, i: nat)
    requires L.Valid() && Inv(L, s) && LiveAt(L, s, ptr, b, i)
    ensures var x := s.regions[b].blocks[i];
            if L.Shiftable(x.request) then L.HeaderOf(ptr) == x.addr
            else forall c, y :: c in s.regions && y in s.regions[c].blocks ==> y.addr != L.HeaderOf(ptr)
  {
    var x := s.regions[b].blocks[i];
    BlockFitted(L, s, b, x);
    HeaderRecovered(L, x);
    if !L.Shiftable(x.request) {
      forall c, y | c in s.regions && y in s.regions[c].blocks ensures y.addr != x.addr + L.Page() {
        if x != y {
          InRegion(L, s, b, x);
          InRegion(L, s, c, y);
          BlocksApart(L, s, b, x, c, y);
        }
      }
    }
  }

  /** Where vgc_free looks it can read, right or wrong. */
  lemma FoundOpen(L: Layout, s: State, ptr: nat, b: int, i: nat)
    requires L.Valid() && Inv(L, s) && LiveAt(L, s, ptr, b, i)
    ensures HeaderOpen(L, Guards(L, s.regions), L.HeaderOf(ptr))
  {
    hide RegionInv, Guards, Inaccessible;
    var x := s.regions[b].blocks[i];
    FoundHeader(L, s, ptr, b, i);
    StructuresOpen(L, s, b);
    if !L.Shiftable(x.request) {
      BlockFitted(L, s, b, x);
      HeaderRecovered(L, x);
      OnePageAtLeast(L, x);
      forall a | x.addr + L.header <= a < x.addr + L.header + L.Page()
        ensures !Inaccessible(L, Guards(L, s.regions), a)
      {
        OverrunInside(L, s, b, i, a);
      }
    }
  }

  lemma OnePageAtLeast(L: Layout, x: Block)
    requires L.Valid() && x.Busy() && Fitted(L, x) && !L.Shiftable(x.request)
    ensures x.size >= L.Page()
  {
    L.RoundBounds(x.request);
    ModUnique(0, 0, L.Page());
    AlignedGap(x.request, 0, L.Page());
  }

  lemma RegionHeadersOutside(L: Layout, s: State, c: int, x: int)
    requires L.Valid() && Inv(L, s) && c in s.regions && c <= x < c + L.mmapHeader
    ensures Outside(L, LiveBlocks(s.regions), x)
  {
    RegionFacts(L, s, c);
    MetadataOutside(L, s, c, x);
  }

  lemma BlockHeadersOutside(L: Layout, s: State, c: int, x: int)
    requires L.Valid() && Inv(L, s) && c in s.regions && InHeaders(L, s.regions[c].blocks, x)
    ensures Outside(L, LiveBlocks(s.regions), x)
  {
    MetadataOutside(L, s, c, x);
  }

  lemma NullOutsideWindow(L: Layout, s: State)
    requires L.Valid() && Inv(L, s)
    ensures !InWindow(L, s, NULL) && forall b :: b in s.order ==> b > 0
  {
    forall b | b in s.order ensures b > 0 {
      var j :| 0 <= j < |s.order| && s.order[j] == b;
      RegionFacts(L, s, b);
    }
  }

  lemma FreePlace(L: Layout, s: State, ptr: nat) returns (b: int, i: nat)
    requires L.Valid() && Inv(L, s) && Freeable(L, s, ptr) && InWindow(L, s, ptr)
    ensures LiveAt(L, s, ptr, b, i)
    ensures forall c, j: nat :: LiveAt(L, s, ptr, c, j) ==> c == b && j == i
    ensures L.Shiftable(s.regions[b].blocks[i].request) ==>
              && L.HeaderOf(ptr) == s.regions[b].blocks[i].addr
              && Inv(L, FreeAt(L, s, b, i))
    ensures !Misled(L, s, ptr, false) ==>
              Free(L, s, ptr) == if L.Shiftable(s.regions[b].blocks[i].request) then FreeAt(L, s, b, i) else s
    ensures HeaderOpen(L, Guards(L, s.regions), L.HeaderOf(ptr))
  {
    b, i :| LiveAt(L, s, ptr, b, i);
    forall c, j: nat | LiveAt(L, s, ptr, c, j) ensures c == b && j == i {
      LiveAtUnique(L, s, ptr, b, i, c, j);
    }
    FoundHeader(L, s, ptr, b, i);
    FoundOpen(L, s, ptr, b, i);
    if !Misled(L, s, ptr, false) { FreeIsFreeAt(L, s, ptr, b, i); }
    FreeAtInv(L, s, ptr, b, i);
  }

  /** What the header of a live block, and that of its region, hold. */
  lemma FreeHeaders(L: Layout, s: State, mem: map<int, Header>, mm: map<int, MmapHeader>, protNone: set<int>,
                    count: int, b: int, i: nat)
    requires L.Valid() && Inv(L, s) && Represents(L, s, mem, mm, protNone, count)
    requires b in s.regions && i < |s.regions[b].blocks|
    ensures var a := s.regions[b].blocks[i].addr;
            && a in mem && mem[a].checkStart == CHECK && mem[a].checkEnd == CHECK && mem[a].mmapBlock == b
            && b in mm && mm[b].checkStart == CHECK && mm[b].checkEnd == CHECK
  {
    HeaderAt(mem, b, s.regions[b].blocks, i);
    assert RegionHeader(L, mm, s.regions[b]);
  }

  /** After coalescing, the first header is the last one exactly when one block is left. */
  lemma FirstIsOnly(L: Layout, s: State, mem: map<int, Header>, mm: map<int, MmapHeader>, protNone: set<int>,
                    count: int, b: int, i: nat)
    requires L.Valid() && Inv(L, s) && b in s.regions && i < |s.regions[b].blocks| && s.regions[b].blocks[i].Busy()
    requires Represents(L, Released(L, s, b, i), mem, mm, protNone, count)
    ensures b + L.mmapHeader in mem && HeaderOpen(L, protNone, b + L.mmapHeader)
    ensures mem[b + L.mmapHeader].next == NULL <==> |Release(L, s.regions[b].blocks, i)| == 1
  {
    hide Inv, RegionInv, Release, Guards, Open, RegionsIn;
    var bs := Release(L, s.regions[b].blocks, i);
    var t := Released(L, s, b, i);
    RegionFacts(L, s, b);
    ReleasedGuards(L, s, b, i);
    StructuresOpen(L, s, b);
    assert HeaderOpen(L, Guards(L, s.regions), s.regions[b].blocks[0].addr);
    HeaderStaysOpen(L, Guards(L, s.regions), protNone, b + L.mmapHeader);
    ReleasedTiles(L, s.regions[b], i);
    assert ListIn(mem, b, t.regions[b].blocks);
    HeaderAt(mem, b, bs, 0);
    if |bs| > 1 {
      Within(L, bs, b + L.mmapHeader, b + s.regions[b].size, 1);
    }
  }

  /** The abstract side of handing a region back. */
  lemma UnmappedState(L: Layout, s: State, mem: map<int, Header>, mm: map<int, MmapHeader>, protNone: set<int>,
                      count: int, b: int, i: nat)
    requires L.Valid() && Inv(L, s) && b in s.regions && i < |s.regions[b].blocks| && s.regions[b].blocks[i].Busy()
    requires Represents(L, Released(L, s, b, i), mem, mm, protNone, count)
    ensures var t := Released(L, s, b, i);
            && Listed(t) && NULL !in t.regions && b in t.regions && t.order == s.order
            && t.regions[b].size == s.regions[b].size
            && (forall c :: c in t.regions ==> t.regions[c].base == c && c in s.regions)
            && RegionsIn(L, t, mm)
            && Unmap(t, b) == Unmap(s, b)
            && |Unmap(s, b).regions| == count - 1
            && (var kept := KeptOutside(mem, b, s.regions[b].size);
                ListsIn(kept, Unmap(s, b).regions) && HeadersKnown(Unmap(s, b), kept) && NULL !in kept)
            && Guards(L, Unmap(s, b).regions) == set a | a in protNone && !(b <= a < b + s.regions[b].size)
  {
    hide RegionInv, Guards, RegionsIn, Release, Tiles;
    var t := Released(L, s, b, i);
    RegionFacts(L, s, b);
    UnmappedGuards(L, s, b, i);
    assert t.regions - {b} == s.regions - {b};
    forall c | c in t.regions ensures c != NULL && t.regions[c].base == c {
      RegionFacts(L, s, c);
    }
    CardWithout(t.regions, b);
    UnmappedLists(L, s, mem, b, i);
    UnmappedKnown(L, s, mem, b, i);
  }

  lemma UnmappedLists(L: Layout, s: State, mem: map<int, Header>, b: int, i: nat)
    requires L.Valid() && Inv(L, s) && b in s.regions && i < |s.regions[b].blocks|
    requires ListsIn(mem, Released(L, s, b, i).regions)
    ensures ListsIn(KeptOutside(mem, b, s.regions[b].size), Unmap(s, b).regions)
  {
    hide Release;
    var kept := KeptOutside(mem, b, s.regions[b].size);
    forall c | c in s.regions && c != b ensures ListIn(kept, c, s.regions[c].blocks) {
      var bs := s.regions[c].blocks;
      assert Released(L, s, b, i).regions[c] == s.regions[c];
      assert Apart(b, s.regions[b].size, c, s.regions[c].size);
      forall j | 0 <= j < |bs| ensures Holds(kept, bs[j].addr, HeaderFor(c, bs, j)) {
        HeaderAt(mem, c, bs, j);
        InRegion(L, s, c, bs[j]);
      }
    }
  }

  lemma UnmappedKnown(L: Layout, s: State, mem: map<int, Header>, b: int, i: nat)
    requires b in s.regions && i < |s.regions[b].blocks| && HeadersKnown(Released(L, s, b, i), mem)
    ensures HeadersKnown(Unmap(s, b), KeptOutside(mem, b, s.regions[b].size))
  {
    hide Release;
    var t := Released(L, s, b, i);
    var kept := KeptOutside(mem, b, s.regions[b].size);
    forall a | a in kept ensures WrittenIn(Unmap(s, b).regions, a, kept[a]) {
      assert WrittenIn(t.regions, a, mem[a]);
    }
    assert kept.Keys == Unmap(s, b).written;
  }

  lemma CardWithout(m: map<int, Region>, b: int)
    requires b in m
    ensures |m - {b}| == |m| - 1
  {
    var m' := m - {b};
    assert m.Keys == m'.Keys + {b};
    assert |m.Keys| == |m| && |m'.Keys| == |m'|;
  }

  lemma Protected(L: Layout, s: State, mem: map<int, Header>, mm: map<int, MmapHeader>, protNone: set<int>, count: int)
    requires Represents(L, s, mem, mm, protNone, count)
    ensures protNone == Guards(L, s.regions)
  {
  }
}
