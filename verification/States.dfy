/** The whole allocator as a value: the mapped regions, keyed by base address, and the list
    headed by `shared->mmapBlockFirst`. `Malloc` and `Free` are the value-level meaning of
    `vgc_malloc` and `vgc_free`; class Allocator is proved to compute them. */
module States {
  import opened Arithmetic
  import opened Layouts
  import opened Blocks

  datatype Option<+T> = None | Some(value: T)

  datatype Region = Region(base: int, size: int, elements: int, blocks: seq<Block>)

  /** order: bases of the regions reachable from the list head, head first. A region in
      `regions` but not in `order` is mapped memory the allocator has lost track of.
      written: where headers have been written in mapped memory and not been overwritten since;
      those that are no block's header any more are left behind by merges. */
  datatype State = State(regions: map<int, Region>, order: seq<int>, written: set<int>)

  /** What mmap answers to the full-size request and, after a refusal, to the smaller one. */
  datatype Kernel = Kernel(full: Option<int>, fallback: Option<int>)

  const INITIAL := State(map[], [], {})

  // ----- regions -----

  function FreshBlocks(L: Layout, base: int, size: int): seq<Block> {
    [Block(base + L.mmapHeader, L.MaxSize(size), FREE, 0, false)]
  }

  function FreshRegion(L: Layout, base: int, size: int): Region {
    Region(base, size, 0, FreshBlocks(L, base, size))
  }

  function AllocateIn(L: Layout, r: Region, i: nat, n: nat): Region
    requires i < |r.blocks|
  {
    r.(elements := r.elements + 1, blocks := Allocate(L, r.blocks, i, n))
  }

  function ReleaseIn(L: Layout, r: Region, i: nat): Region
    requires i < |r.blocks|
  {
    r.(elements := r.elements - 1, blocks := Release(L, r.blocks, i))
  }

  ghost predicate RegionInv(L: Layout, r: Region) {
    && r.base > 0
    && r.base % L.Page() == 0
    && r.base + r.size < SIZE_T
    && (r.size == L.regionSize || r.size == L.FallbackSize())
    && Sound(L, r.blocks, r.base + L.mmapHeader, r.base + r.size)
    && r.elements == Tally(r.blocks).live
  }

  lemma FreshRegionInv(L: Layout, base: int, size: int)
    requires L.Valid() && base > 0 && base % L.Page() == 0 && base + size < SIZE_T
    requires size == L.regionSize || size == L.FallbackSize()
    ensures RegionInv(L, FreshRegion(L, base, size))
    ensures BusySet(FreshBlocks(L, base, size)) == {}
  {
    var b := FreshBlocks(L, base, size)[0];
    TallyOne(b);
    if L.mprotect {
      var p := L.Page();
      AlignedTwice(p);
      AlignedSum(base, p, p);
      AlignedDifference(size, p, p);
      AlignedDifference(size - p, 2 * p, p);
    }
  }

  lemma AllocateInInv(L: Layout, r: Region, i: nat, n: nat)
    requires L.Valid() && RegionInv(L, r)
    requires i < |r.blocks| && r.blocks[i].Free() && n <= r.blocks[i].size && (L.mprotect ==> n > 0)
    ensures RegionInv(L, AllocateIn(L, r, i, n))
    ensures AllocateIn(L, r, i, n).elements > 0
  {
    AllocateSound(L, r.blocks, r.base + L.mmapHeader, r.base + r.size, i, n);
    LiveCount(r.blocks);
  }

  lemma ReleaseInInv(L: Layout, r: Region, i: nat)
    requires L.Valid() && RegionInv(L, r)
    requires i < |r.blocks| && r.blocks[i].Busy()
    ensures RegionInv(L, ReleaseIn(L, r, i))
    ensures ReleaseIn(L, r, i).elements == 0 <==> |ReleaseIn(L, r, i).blocks| == 1
  {
    hide Sound, Release;
    var lo, hi := r.base + L.mmapHeader, r.base + r.size;
    ReleaseSound(L, r.blocks, lo, hi, i);
    ReleaseLive(L, r.blocks, lo, hi, i);
  }

  // ----- mapping a region -----

  function Enlist(L: Layout, s: State, base: int, size: int): State {
    State(s.regions[base := FreshRegion(L, base, size)], s.order + [base], s.written + {base + L.mmapHeader})
  }

  /** `mmapBlockAllocate`: the full size, else a tenth of it, else nothing. */
  function MapRegion(L: Layout, s: State, k: Kernel): (State, Option<int>) {
    if k.full.Some? then (Enlist(L, s, k.full.value, L.regionSize), k.full)
    else if k.fallback.Some? then (Enlist(L, s, k.fallback.value, L.FallbackSize()), k.fallback)
    else (s, None)
  }

  /** mmap returns page-aligned memory that overlaps nothing mapped. */
  ghost predicate Mappable(L: Layout, s: State, base: int, size: int) {
    && base > 0
    && base % L.Page() == 0
    && base + size < SIZE_T
    && forall c :: c in s.regions ==> Apart(base, size, c, s.regions[c].size)
  }

  ghost predicate KernelOk(L: Layout, s: State, k: Kernel) {
    && (k.full.Some? ==> Mappable(L, s, k.full.value, L.regionSize))
    && (k.full.None? && k.fallback.Some? ==> Mappable(L, s, k.fallback.value, L.FallbackSize()))
  }

  ghost predicate Apart(b: int, bSize: int, c: int, cSize: int) {
    b + bSize <= c || c + cSize <= b
  }

  // ----- vgc_malloc -----

  predicate Fits(r: Region, n: int) {
    FirstFit(r.blocks, n) < |r.blocks|
  }

  /** Position of the first listed region with a block that fits, or |order|. */
  function FirstRegion(regions: map<int, Region>, order: seq<int>, n: int): nat {
    if order == [] || (order[0] in regions && Fits(regions[order[0]], n)) then 0
    else 1 + FirstRegion(regions, order[1..], n)
  }

  /** Where taking a block for n bytes writes a header that was none before. */
  function SplitAt(L: Layout, b: Block, n: nat): set<int> {
    var m := Carve(L, b, n);
    if |m| == 2 then {m[1].addr} else {}
  }

  /** `allocMallocBlock`: pointer 0 when no block of the region fits. */
  function AllocateAt(L: Layout, s: State, b: int, n: nat): (State, int)
    requires b in s.regions
  {
    var r := s.regions[b];
    var i := FirstFit(r.blocks, n);
    if i < |r.blocks| then
      (s.(regions := s.regions[b := AllocateIn(L, r, i, n)], written := s.written + SplitAt(L, r.blocks[i], n)),
       Allocate(L, r.blocks, i, n)[i].Pointer(L))
    else (s, 0)
  }

  ghost predicate Listed(s: State) {
    && (forall j :: 0 <= j < |s.order| ==> s.order[j] in s.regions)
    && (forall j, k :: 0 <= j < k < |s.order| ==> s.order[j] != s.order[k])
  }

  /** The state once `mmapBlockFirst` is known to exist. */
  function WithFirst(L: Layout, s: State, k: Kernel): State {
    if s.order == [] then MapRegion(L, s, k).0 else s
  }

  /** False when the list is empty and mmap refuses both sizes: `vgc_malloc` then returns null,
      but leaves MAP_FAILED as the list head, which later calls follow as a pointer. */
  predicate HasFirst(s: State, k: Kernel) {
    s.order != [] || k.full.Some? || k.fallback.Some?
  }

  ghost function Malloc(L: Layout, s: State, size: nat, k: Kernel): (State, int)
    requires Listed(s)
  {
    var s0 := WithFirst(L, s, k);
    var n := L.AlignRequest(size);
    if s0.order == [] || size == 0 || n >= L.MaxSize(s0.regions[s0.order[0]].size) then (s0, 0)
    else
      var j := FirstRegion(s0.regions, s0.order, n);
      if j < |s0.order| && s0.order[j] in s0.regions then AllocateAt(L, s0, s0.order[j], n)
      else
        var (s1, b) := MapRegion(L, s0, k);
        if b.Some? then AllocateAt(L, s1, b.value, n) else (s1, 0)
  }

  // ----- vgc_free -----

  /** `isInMmapBlock`: every listed region is taken to have the full size. */
  ghost predicate InWindow(L: Layout, s: State, p: int) {
    exists b :: b in s.order && b < p < b + L.regionSize
  }

  /** p is the pointer of live block i of region b. */
  ghost predicate LiveAt(L: Layout, s: State, p: int, b: int, i: nat) {
    && b in s.regions
    && i < |s.regions[b].blocks|
    && s.regions[b].blocks[i].Busy()
    && s.regions[b].blocks[i].Pointer(L) == p
  }

  /** ... and `vgc_free` finds its header. */
  ghost predicate FoundAt(L: Layout, s: State, p: int, b: int, i: nat) {
    LiveAt(L, s, p, b, i) && L.Shiftable(s.regions[b].blocks[i].request)
  }

  /** For a page multiple `vgc_free` looks one page behind the header, where no block starts, and
      gives up unless it reads what looks like a header there. It does when a merge has left
      an old header at that place, or when other bytes there happen to look like one (junk). */
  ghost predicate Misled(L: Layout, s: State, p: int, junk: bool) {
    && p >= 0 && InWindow(L, s, p)
    && (exists b, i: nat :: LiveAt(L, s, p, b, i) && !L.Shiftable(s.regions[b].blocks[i].request))
    && (L.HeaderOf(p) in s.written || junk)
  }

  function Remove(order: seq<int>, b: int): seq<int> {
    if order == [] then []
    else if order[0] == b then order[1..]
    else [order[0]] + Remove(order[1..], b)
  }

  /** `freeMMAP`: releasing the head empties the list, even when the head has successors. */
  function Unmap(s: State, b: int): State {
    State(s.regions - {b},
          if s.order != [] && s.order[0] == b then [] else Remove(s.order, b),
          if b in s.regions then WrittenOutside(s.written, b, s.regions[b].size) else s.written)
  }

  function WrittenOutside(written: set<int>, b: int, size: int): set<int> {
    set a | a in written && !(b <= a < b + size)
  }

  function FreeAt(L: Layout, s: State, b: int, i: nat): State
    requires b in s.regions && i < |s.regions[b].blocks|
  {
    var r := ReleaseIn(L, s.regions[b], i);
    if |r.blocks| == 1 then Unmap(s, b) else s.(regions := s.regions[b := r])
  }

  /** What `vgc_free` does with a pointer that does not mislead it. */
  ghost function Free(L: Layout, s: State, p: int): State
    requires !Misled(L, s, p, false)
  {
    if InWindow(L, s, p) && exists b, i :: FoundAt(L, s, p, b, i) then
      var b, i :| FoundAt(L, s, p, b, i);
      FreeAt(L, s, b, i)
    else s
  }

  // ----- invariant -----

  ghost predicate Inv(L: Layout, s: State) {
    && Listed(s)
    && (forall b :: b in s.regions ==> s.regions[b].base == b && RegionInv(L, s.regions[b]))
    && (forall b, c :: b in s.regions && c in s.regions && b != c ==>
          Apart(b, s.regions[b].size, c, s.regions[c].size))
    && (forall b :: b in s.regions && s.regions[b].elements == 0 ==>
          s.regions[b].blocks == FreshBlocks(L, b, s.regions[b].size))
  }

  ghost function LiveBlocks(regions: map<int, Region>): set<Block> {
    set b, x | b in regions && x in BusySet(regions[b].blocks) :: x
  }

  lemma LiveSplit(regions: map<int, Region>, b: int, r: Region)
    ensures LiveBlocks(regions[b := r]) == LiveBlocks(regions - {b}) + BusySet(r.blocks)
  {
    var all, rest := regions[b := r], regions - {b};
    forall x ensures x in LiveBlocks(all) <==> x in LiveBlocks(rest) + BusySet(r.blocks) {
      if x in LiveBlocks(rest) {
        var c :| c in rest && x in BusySet(rest[c].blocks);
        assert c in all && x in BusySet(all[c].blocks);
      }
      if x in LiveBlocks(all) {
        var c :| c in all && x in BusySet(all[c].blocks);
        assert c != b ==> c in rest && x in BusySet(rest[c].blocks);
      }
      assert b in all;
    }
  }

  lemma LiveSplitSelf(regions: map<int, Region>, b: int)
    requires b in regions
    ensures LiveBlocks(regions) == LiveBlocks(regions - {b}) + BusySet(regions[b].blocks)
  {
    assert regions == regions[b := regions[b]];
    LiveSplit(regions, b, regions[b]);
  }

  lemma EnlistInv(L: Layout, s: State, base: int, size: int)
    requires L.Valid() && Inv(L, s) && Mappable(L, s, base, size)
    requires size == L.regionSize || size == L.FallbackSize()
    ensures base !in s.regions
    ensures Inv(L, Enlist(L, s, base, size))
  {
    hide Sound, Tally;
    FreshRegionInv(L, base, size);
    assert base in s.regions ==> Apart(base, size, base, s.regions[base].size);
    hide RegionInv;
    var t := Enlist(L, s, base, size);
    forall b, c | b in t.regions && c in t.regions && b != c
      ensures Apart(b, t.regions[b].size, c, t.regions[c].size)
    {
      if b == base { assert Apart(base, size, c, s.regions[c].size); }
      else if c == base { assert Apart(base, size, b, s.regions[b].size); }
    }
  }

  lemma EnlistLive(L: Layout, s: State, base: int, size: int)
    requires base !in s.regions
    ensures LiveBlocks(Enlist(L, s, base, size).regions) == LiveBlocks(s.regions)
  {
    LiveSplit(s.regions, base, FreshRegion(L, base, size));
    assert s.regions - {base} == s.regions;
    assert BusySet(FreshBlocks(L, base, size)) == {};
  }

  lemma MapRegionInv(L: Layout, s: State, k: Kernel)
    requires L.Valid() && Inv(L, s) && KernelOk(L, s, k)
    ensures Inv(L, MapRegion(L, s, k).0)
    ensures LiveBlocks(MapRegion(L, s, k).0.regions) == LiveBlocks(s.regions)
  {
    if k.full.Some? {
      EnlistInv(L, s, k.full.value, L.regionSize);
      EnlistLive(L, s, k.full.value, L.regionSize);
    } else if k.fallback.Some? {
      EnlistInv(L, s, k.fallback.value, L.FallbackSize());
      EnlistLive(L, s, k.fallback.value, L.FallbackSize());
    }
  }

  /** Replacing one region by a sound one with the same bounds keeps everything. */
  lemma UpdateInv(L: Layout, s: State, b: int, r: Region)
    requires Inv(L, s) && b in s.regions
    requires RegionInv(L, r) && r.base == b && r.size == s.regions[b].size && r.elements != 0
    ensures Inv(L, s.(regions := s.regions[b := r]))
  {
  }

  /** The invariant is about the blocks, not about old headers. */
  lemma WrittenApart(L: Layout, s: State, written: set<int>)
    requires Inv(L, s)
    ensures Inv(L, s.(written := written))
  {
  }

  /** Blocks of different regions, or at different places of one region, differ. */
  lemma BlockNotElsewhere(L: Layout, s: State, b: int, x: Block)
    requires L.Valid() && Inv(L, s) && b in s.regions && x in BusySet(s.regions[b].blocks)
    ensures x !in LiveBlocks(s.regions - {b})
  {
    InRegion(L, s, b, x);
    forall c | c in s.regions && c != b ensures x !in s.regions[c].blocks {
      assert Apart(b, s.regions[b].size, c, s.regions[c].size);
      if x in s.regions[c].blocks {
        InRegion(L, s, c, x);
      }
    }
  }

  lemma InRegion(L: Layout, s: State, b: int, x: Block)
    requires L.Valid() && Inv(L, s) && b in s.regions && x in s.regions[b].blocks
    ensures b + L.mmapHeader <= x.addr && x.End(L) <= b + s.regions[b].size && x.size >= 0
  {
    var r := s.regions[b];
    var i :| 0 <= i < |r.blocks| && r.blocks[i] == x;
    Within(L, r.blocks, b + L.mmapHeader, b + r.size, i);
  }

  /** The block a request of n bytes gets from region b. */
  function Chosen(L: Layout, r: Region, n: nat): Block
    requires Fits(r, n)
  {
    Allocate(L, r.blocks, FirstFit(r.blocks, n), n)[FirstFit(r.blocks, n)]
  }

  lemma AllocateAtInv(L: Layout, s: State, b: int, n: nat)
    requires L.Valid() && Inv(L, s) && b in s.regions && Fits(s.regions[b], n) && (L.mprotect ==> n > 0)
    ensures Inv(L, AllocateAt(L, s, b, n).0)
  {
    var r := s.regions[b];
    var i := FirstFit(r.blocks, n);
    FirstFitEarliest(r.blocks, n);
    AllocateInInv(L, r, i, n);
    UpdateInv(L, s, b, AllocateIn(L, r, i, n));
    WrittenApart(L, s.(regions := s.regions[b := AllocateIn(L, r, i, n)]), s.written + SplitAt(L, r.blocks[i], n));
  }

  lemma RegionTiles(L: Layout, s: State, b: int)
    requires L.Valid() && Inv(L, s) && b in s.regions
    ensures L.header > 0 && Tiles(L, s.regions[b].blocks, b + L.mmapHeader, b + s.regions[b].size)
  {
  }

  /** Allocation brings exactly one block to life, and it was not live before. */
  lemma AllocateAtLive(L: Layout, s: State, b: int, n: nat)
    requires L.Valid() && Inv(L, s) && b in s.regions && Fits(s.regions[b], n) && (L.mprotect ==> n > 0)
    ensures var (t, p) := AllocateAt(L, s, b, n);
            var x := Chosen(L, s.regions[b], n);
            && p == x.Pointer(L) && x.request == n
            && x in BusySet(t.regions[b].blocks)
            && x !in LiveBlocks(s.regions)
            && LiveBlocks(t.regions) == LiveBlocks(s.regions) + {x}
  {
    hide LiveBlocks, BusySet, RegionInv, Tiles;
    RegionTiles(L, s, b);
    var r := s.regions[b];
    var i := FirstFit(r.blocks, n);
    var x := Chosen(L, r, n);
    var t := AllocateAt(L, s, b, n).0;
    FirstFitEarliest(r.blocks, n);
    AllocateAtInv(L, s, b, n);
    AllocateBusySet(L, r.blocks, i, n);
    LiveSplitSelf(s.regions, b);
    LiveSplit(s.regions, b, AllocateIn(L, r, i, n));
    BlockNotElsewhere(L, t, b, x);
    assert t.regions - {b} == s.regions - {b};
    NewlyLive(L, r.blocks, b + L.mmapHeader, b + r.size, i, n);
  }

  lemma {:induction false} RemoveSpec(order: seq<int>, b: int)
    requires forall j, k :: 0 <= j < k < |order| ==> order[j] != order[k]
    ensures forall c :: c in Remove(order, b) <==> c in order && c != b
    ensures forall j, k :: 0 <= j < k < |Remove(order, b)| ==> Remove(order, b)[j] != Remove(order, b)[k]
  {
    if order != [] {
      assert forall c :: c in order <==> c == order[0] || c in order[1..];
      assert order[0] !in order[1..];
      RemoveSpec(order[1..], b);
    }
  }

  lemma {:induction false} RemoveAt(order: seq<int>, b: int, m: nat)
    requires m < |order| && order[m] == b && forall i :: 0 <= i < m ==> order[i] != b
    ensures Remove(order, b) == order[..m] + order[m + 1..]
  {
    if m > 0 {
      RemoveAt(order[1..], b, m - 1);
      assert order[..m] == [order[0]] + order[1..][..m - 1];
    }
  }

  lemma {:induction false} RemoveAbsent(order: seq<int>, b: int)
    requires b !in order
    ensures Remove(order, b) == order
  {
    if order != [] { RemoveAbsent(order[1..], b); }
  }

  lemma UnmapInv(L: Layout, s: State, b: int)
    requires L.Valid() && Inv(L, s)
    ensures Inv(L, Unmap(s, b))
  {
    RemoveSpec(s.order, b);
    var order := Remove(s.order, b);
    forall j | 0 <= j < |order| ensures order[j] in s.regions && order[j] != b {
      assert order[j] in order;
    }
  }

  lemma FreeAtInv(L: Layout, s: State, p: int, b: int, i: nat)
    requires L.Valid() && Inv(L, s) && LiveAt(L, s, p, b, i)
    ensures Inv(L, FreeAt(L, s, b, i))
  {
    var r' := ReleaseIn(L, s.regions[b], i);
    ReleaseInInv(L, s.regions[b], i);
    if |r'.blocks| == 1 {
      UnmapInv(L, s, b);
    } else {
      UpdateInv(L, s, b, r');
    }
  }

  lemma FreeAtLive(L: Layout, s: State, p: int, b: int, i: nat)
    requires L.Valid() && Inv(L, s) && LiveAt(L, s, p, b, i)
    ensures LiveBlocks(FreeAt(L, s, b, i).regions) == LiveBlocks(s.regions) - {s.regions[b].blocks[i]}
  {
    var r := s.regions[b];
    var r' := ReleaseIn(L, r, i);
    ReleaseLive(L, r.blocks, b + L.mmapHeader, b + r.size, i);
    BlockNotElsewhere(L, s, b, r.blocks[i]);
    LiveSplitSelf(s.regions, b);
    if |r'.blocks| == 1 {
      LiveCount(r'.blocks);
      assert BusySet(r'.blocks) == {};
    } else {
      LiveSplit(s.regions, b, r');
    }
  }

  // ----- vgc_malloc as a whole -----

  /** FirstRegion is the earliest listed region with a fit, and misses only when none has one. */
  lemma {:induction false} FirstRegionEarliest(regions: map<int, Region>, order: seq<int>, n: int)
    requires forall j :: 0 <= j < |order| ==> order[j] in regions
    ensures var f := FirstRegion(regions, order, n);
            && f <= |order|
            && (forall j :: 0 <= j < f ==> !Fits(regions[order[j]], n))
            && (f < |order| ==> Fits(regions[order[f]], n))
  {
    if order != [] && !Fits(regions[order[0]], n) {
      FirstRegionEarliest(regions, order[1..], n);
      forall j | 0 < j < FirstRegion(regions, order, n) ensures !Fits(regions[order[j]], n) {
        assert order[j] == order[1..][j - 1];
      }
    }
  }

  lemma FreshFits(L: Layout, base: int, size: int, n: int)
    ensures Fits(FreshRegion(L, base, size), n) <==> n <= L.MaxSize(size)
  {
    FirstFitEarliest(FreshBlocks(L, base, size), n);
  }

  /** Where a request is served. */
  datatype Outcome = Refused | Served(base: int)

  /** The region that serves the request: the first listed one with a fit, else a new one. */
  ghost function Serving(L: Layout, s0: State, size: nat, k: Kernel): Outcome
    requires Listed(s0)
  {
    var n := L.AlignRequest(size);
    if s0.order == [] || size == 0 || n >= L.MaxSize(s0.regions[s0.order[0]].size) then Refused
    else
      var j := FirstRegion(s0.regions, s0.order, n);
      if j < |s0.order| then Served(s0.order[j])
      else if k.full.Some? then (if n <= L.MaxSize(L.regionSize) then Served(k.full.value) else Refused)
      else if k.fallback.Some? && n <= L.MaxSize(L.FallbackSize()) then Served(k.fallback.value)
      else Refused
  }

  /** mmap is asked at most once per call: a region made for an empty list serves the request. */
  lemma FreshHeadServes(L: Layout, s: State, size: nat, k: Kernel)
    requires L.Valid() && Inv(L, s) && KernelOk(L, s, k) && HasFirst(s, k) && s.order == []
    requires size > 0
    ensures var s0 := WithFirst(L, s, k);
            && Inv(L, s0)
            && |s0.order| == 1
            && (L.AlignRequest(size) < L.MaxSize(s0.regions[s0.order[0]].size) ==>
                  && Serving(L, s0, size, k) == Served(s0.order[0])
                  && FirstRegion(s0.regions, s0.order, L.AlignRequest(size)) == 0)
  {
    MapRegionInv(L, s, k);
    var s0 := WithFirst(L, s, k);
    var b := s0.order[0];
    FreshFits(L, b, s0.regions[b].size, L.AlignRequest(size));
  }

  /** The state from which the block of a served request is taken. */
  ghost function Prepared(L: Layout, s: State, size: nat, k: Kernel): State
    requires Listed(s)
  {
    var s0 := WithFirst(L, s, k);
    if FirstRegion(s0.regions, s0.order, L.AlignRequest(size)) < |s0.order| then s0
    else MapRegion(L, s0, k).0
  }

  lemma MappedIsNew(L: Layout, s: State, k: Kernel)
    requires L.Valid() && KernelOk(L, s, k) && forall b :: b in s.regions ==> RegionInv(L, s.regions[b])
    ensures k.full.Some? ==> k.full.value !in s.regions
    ensures k.full.None? && k.fallback.Some? ==> k.fallback.value !in s.regions
  {
    hide Sound;
    forall b | b in s.regions ensures !Apart(b, L.regionSize, b, s.regions[b].size) {}
    forall b | b in s.regions ensures !Apart(b, L.FallbackSize(), b, s.regions[b].size) {}
  }

  /** A served request changes the list only by appending the region that serves it. */
  lemma PreparedIs(L: Layout, s: State, size: nat, k: Kernel)
    requires L.Valid() && Inv(L, s) && KernelOk(L, s, k)
    requires Serving(L, WithFirst(L, s, k), size, k).Served?
    ensures var b := Serving(L, WithFirst(L, s, k), size, k).base;
            var s1 := Prepared(L, s, size, k);
            && (s1 == s || b !in s.regions)
            && (b !in s.regions ==> s1 == Enlist(L, s, b, s1.regions[b].size))
  {
    hide RegionInv, KernelOk;
    var s0 := WithFirst(L, s, k);
    var n := L.AlignRequest(size);
    if s.order == [] {
      FreshHeadServes(L, s, size, k);
      FirstRegionEarliest(s0.regions, s0.order, n);
    } else {
      FirstRegionEarliest(s.regions, s.order, n);
    }
    MappedIsNew(L, s, k);
  }

  lemma MallocRefused(L: Layout, s: State, size: nat, k: Kernel)
    requires L.Valid() && Inv(L, s) && KernelOk(L, s, k)
    requires Serving(L, WithFirst(L, s, k), size, k).Refused?
    ensures var (t, p) := Malloc(L, s, size, k);
            && p == 0 && Inv(L, t) && LiveBlocks(t.regions) == LiveBlocks(s.regions)
  {
    hide RegionInv, KernelOk, LiveBlocks;
    var s0 := WithFirst(L, s, k);
    MapRegionInv(L, s, k);
    var n := L.AlignRequest(size);
    if s0.order != [] && size > 0 && n < L.MaxSize(s0.regions[s0.order[0]].size) {
      if s.order == [] { FreshHeadServes(L, s, size, k); }
      FirstRegionEarliest(s0.regions, s0.order, n);
      var (s1, b) := MapRegion(L, s0, k);
      if b.Some? { FreshFits(L, b.value, s1.regions[b.value].size, n); }
    }
  }

  lemma MallocServed(L: Layout, s: State, size: nat, k: Kernel)
    requires L.Valid() && Inv(L, s) && KernelOk(L, s, k)
    requires Serving(L, WithFirst(L, s, k), size, k).Served?
    ensures var b := Serving(L, WithFirst(L, s, k), size, k).base;
            var s1 := Prepared(L, s, size, k);
            && size > 0
            && Inv(L, s1) && b in s1.regions && b in s1.order
            && Fits(s1.regions[b], L.AlignRequest(size))
            && LiveBlocks(s1.regions) == LiveBlocks(s.regions)
            && Malloc(L, s, size, k) == AllocateAt(L, s1, b, L.AlignRequest(size))
  {
    hide RegionInv, KernelOk, LiveBlocks;
    var s0 := WithFirst(L, s, k);
    MapRegionInv(L, s, k);
    var n := L.AlignRequest(size);
    if s.order == [] { FreshHeadServes(L, s, size, k); }
    FirstRegionEarliest(s0.regions, s0.order, n);
    if FirstRegion(s0.regions, s0.order, n) == |s0.order| {
      var (s1, b) := MapRegion(L, s0, k);
      FreshFits(L, b.value, s1.regions[b.value].size, n);
    }
  }
}
