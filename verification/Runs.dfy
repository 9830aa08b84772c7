/** Whole runs. The reference allocator is a map from live pointers to lengths; every run of
    the block allocator is shown to be a run of the reference, and what holds in every
    reachable state is stated here. */
module Runs {
  import opened Arithmetic
  import opened Layouts
  import opened Blocks
  import opened States
  import opened LiveRanges

  // ----- the reference allocator -----

  ghost predicate Overlap(p: int, n: nat, q: int, m: nat) {
    p < q + m && q < p + n
  }

  /** Distinct live blocks have distinct pointers and ranges that do not meet. */
  ghost predicate Separate(L: Layout, live: set<Block>) {
    && (forall x :: x in live ==> x.Pointer(L) > 0)
    && (forall x, y :: x in live && y in live && x != y ==>
          x.Pointer(L) != y.Pointer(L) && !Overlap(x.Pointer(L), x.request, y.Pointer(L), y.request))
  }

  ghost function RangeMap(L: Layout, live: set<Block>): map<int, nat>
    requires Separate(L, live)
  {
    map x | x in live :: x.Pointer(L) := x.request
  }

  lemma InvSeparate(L: Layout, s: State)
    requires L.Valid() && Inv(L, s)
    ensures Separate(L, LiveBlocks(s.regions))
  {
    var live := LiveBlocks(s.regions);
    forall x | x in live ensures x.Pointer(L) > 0 {
      var b := LiveBlockHome(s, x);
      BlockFitted(L, s, b, x);
      PointerBounds(L, x);
    }
    forall x, y | x in live && y in live && x != y
      ensures x.Pointer(L) != y.Pointer(L) && !Overlap(x.Pointer(L), x.request, y.Pointer(L), y.request)
    {
      LiveRangesDisjoint(L, s, x, y);
    }
  }

  /** The live pointers with the lengths they were allocated for. */
  ghost function LiveMap(L: Layout, s: State): map<int, nat>
    requires L.Valid() && Inv(L, s)
  {
    InvSeparate(L, s);
    RangeMap(L, LiveBlocks(s.regions))
  }

  /** A reference allocation: refuse and change nothing, or add one range overlapping no other. */
  ghost predicate ReferenceMalloc(live: map<int, nat>, n: nat, live': map<int, nat>, p: int) {
    if p == 0 then live' == live
    else
      && p > 0 && p !in live
      && live' == live[p := n]
      && forall q :: q in live ==> !Overlap(p, n, q, live[q])
  }

  ghost predicate ReferenceFree(live: map<int, nat>, p: int, live': map<int, nat>) {
    p in live && live' == live - {p}
  }

  lemma RangeMapAt(L: Layout, live: set<Block>, x: Block)
    requires Separate(L, live) && x in live
    ensures x.Pointer(L) in RangeMap(L, live) && RangeMap(L, live)[x.Pointer(L)] == x.request
  {
  }

  lemma RangeMapFrom(L: Layout, live: set<Block>, p: int) returns (x: Block)
    requires Separate(L, live) && p in RangeMap(L, live)
    ensures x in live && x.Pointer(L) == p && x.request == RangeMap(L, live)[p]
  {
    x :| x in live && x.Pointer(L) == p;
  }

  lemma RangeMapAdd(L: Layout, live: set<Block>, x: Block)
    requires Separate(L, live + {x}) && x !in live
    ensures Separate(L, live)
    ensures ReferenceMalloc(RangeMap(L, live), x.request, RangeMap(L, live + {x}), x.Pointer(L))
  {
    var all := live + {x};
    var m, m' := RangeMap(L, live), RangeMap(L, all);
    RangeMapAt(L, all, x);
    forall q | q in m
      ensures q != x.Pointer(L) && q in m' && m'[q] == m[q] && !Overlap(x.Pointer(L), x.request, q, m[q])
    {
      var y := RangeMapFrom(L, live, q);
      RangeMapAt(L, all, y);
    }
    forall q | q in m' && q != x.Pointer(L) ensures q in m {
      var y := RangeMapFrom(L, all, q);
      RangeMapAt(L, live, y);
    }
  }

  lemma RangeMapRemove(L: Layout, live: set<Block>, x: Block)
    requires Separate(L, live) && x in live
    ensures Separate(L, live - {x})
    ensures ReferenceFree(RangeMap(L, live), x.Pointer(L), RangeMap(L, live - {x}))
  {
    assert live - {x} + {x} == live && x.Pointer(L) > 0;
    hide Separate, RangeMap, Block.Pointer;
    RangeMapAdd(L, live - {x}, x);
    var m, m' := RangeMap(L, live), RangeMap(L, live - {x});
    assert m == m'[x.Pointer(L) := x.request];
    assert m - {x.Pointer(L)} == m';
  }

  // ----- one step -----

  /** vgc_malloc refines reference allocation, and serves a request exactly when Serving finds a region. */
  lemma MallocRefines(L: Layout, s: State, size: nat, k: Kernel)
    requires L.Valid() && Inv(L, s) && KernelOk(L, s, k)
    ensures var (t, p) := Malloc(L, s, size, k);
            && Inv(L, t)
            && ReferenceMalloc(LiveMap(L, s), L.AlignRequest(size), LiveMap(L, t), p)
            && (p != 0 <==> Serving(L, WithFirst(L, s, k), size, k).Served?)
  {
    match Serving(L, WithFirst(L, s, k), size, k)
    case Refused =>
      MallocRefused(L, s, size, k);
    case Served(b) =>
      var n := L.AlignRequest(size);
      MallocServed(L, s, size, k);
      var s1 := Prepared(L, s, size, k);
      AllocateAtInv(L, s1, b, n);
      AllocateAtLive(L, s1, b, n);
      InvSeparate(L, Malloc(L, s, size, k).0);
      RangeMapAdd(L, LiveBlocks(s.regions), Chosen(L, s1.regions[b], n));
  }

  lemma LiveAtUnique(L: Layout, s: State, p: int, b: int, i: nat, c: int, j: nat)
    requires L.Valid() && Inv(L, s) && LiveAt(L, s, p, b, i) && LiveAt(L, s, p, c, j)
    ensures b == c && i == j
  {
    hide RegionInv, Block.Pointer;
    RegionTiles(L, s, b);
    var x, y := s.regions[b].blocks[i], s.regions[c].blocks[j];
    assert x in BusySet(s.regions[b].blocks) && y in BusySet(s.regions[c].blocks);
    if x != y {
      LiveRangesDisjoint(L, s, x, y);
    } else {
      BlockNotElsewhere(L, s, b, x);
      assert c in s.regions - {b} ==> x in LiveBlocks(s.regions - {b});
      AddressIdentifies(L, s.regions[b].blocks, b + L.mmapHeader, b + s.regions[b].size, i,
                        if b == c then j else i);
    }
  }

  /** A live pointer has a unique place. */
  lemma FreeIsFreeAt(L: Layout, s: State, p: int, b: int, i: nat)
    requires L.Valid() && Inv(L, s) && LiveAt(L, s, p, b, i) && !Misled(L, s, p, false)
    ensures Free(L, s, p) ==
            if InWindow(L, s, p) && L.Shiftable(s.regions[b].blocks[i].request) then FreeAt(L, s, b, i) else s
  {
    forall c, j: nat | FoundAt(L, s, p, c, j) ensures c == b && j == i {
      LiveAtUnique(L, s, p, b, i, c, j);
    }
    assert L.Shiftable(s.regions[b].blocks[i].request) ==> FoundAt(L, s, p, b, i);
  }

  lemma NothingFreed(L: Layout, s: State, p: int)
    requires !InWindow(L, s, p)
    ensures !Misled(L, s, p, false) && Free(L, s, p) == s
  {
  }

  lemma LivePlace(L: Layout, s: State, p: int) returns (b: int, i: nat)
    requires L.Valid() && Inv(L, s) && p in LiveMap(L, s)
    ensures LiveAt(L, s, p, b, i) && s.regions[b].blocks[i].request == LiveMap(L, s)[p]
  {
    InvSeparate(L, s);
    var x :| x in LiveBlocks(s.regions) && x.Pointer(L) == p;
    b :| b in s.regions && x in BusySet(s.regions[b].blocks);
    i :| 0 <= i < |s.regions[b].blocks| && s.regions[b].blocks[i] == x;
  }

  lemma LiveAtInMap(L: Layout, s: State, p: int, b: int, i: nat)
    requires L.Valid() && Inv(L, s) && LiveAt(L, s, p, b, i)
    ensures p in LiveMap(L, s) && LiveMap(L, s)[p] == s.regions[b].blocks[i].request
  {
    InvSeparate(L, s);
    var x := s.regions[b].blocks[i];
    assert x in BusySet(s.regions[b].blocks);
    assert x in LiveBlocks(s.regions);
  }

  /** vgc_free refines reference deallocation for the pointers isInMmapBlock lets through, if
      the length was not a page multiple, and does nothing for the others it is not misled by. */
  lemma FreeRefines(L: Layout, s: State, p: int)
    requires L.Valid() && Inv(L, s) && p in LiveMap(L, s) && !Misled(L, s, p, false)
    ensures var t := Free(L, s, p);
            && Inv(L, t)
            && (if InWindow(L, s, p) && L.Shiftable(LiveMap(L, s)[p])
                then ReferenceFree(LiveMap(L, s), p, LiveMap(L, t))
                else t == s)
  {
    var b, i := LivePlace(L, s, p);
    FreeIsFreeAt(L, s, p, b, i);
    if InWindow(L, s, p) && L.Shiftable(LiveMap(L, s)[p]) {
      FreeAtInv(L, s, p, b, i);
      FreeAtLive(L, s, p, b, i);
      InvSeparate(L, s);
      var x := s.regions[b].blocks[i];
      assert x in BusySet(s.regions[b].blocks);
      RangeMapRemove(L, LiveBlocks(s.regions), x);
    }
  }

  /** The pointer of a live block in a listed region passes isInMmapBlock, but for one case:
      a page, in a block of one page, that ends a region of the full size. */
  lemma WindowExact(L: Layout, s: State, p: int, b: int, i: nat)
    requires L.Valid() && Inv(L, s) && LiveAt(L, s, p, b, i) && b in s.order
    ensures var r := s.regions[b];
            InWindow(L, s, p) <==> !(L.mprotect && r.blocks[i].request == L.Page() == r.blocks[i].size
                                     && i + 1 == |r.blocks| && r.size == L.regionSize)
  {
    var r := s.regions[b];
    var x := r.blocks[i];
    BlockFitted(L, s, b, x);
    PointerBounds(L, x);
    L.RoundBounds(x.request);
    if p < b + L.regionSize {
      assert InWindow(L, s, p);
    } else {
      AtWindowEnd(L, s, p, b, i);
    }
  }

  lemma AtWindowEnd(L: Layout, s: State, p: int, b: int, i: nat)
    requires L.Valid() && Inv(L, s) && LiveAt(L, s, p, b, i) && p >= b + L.regionSize
    ensures var r := s.regions[b];
            && p == b + L.regionSize && !InWindow(L, s, p)
            && L.mprotect && r.blocks[i].request == L.Page() == r.blocks[i].size
            && i + 1 == |r.blocks| && r.size == L.regionSize
  {
    var r := s.regions[b];
    var x := r.blocks[i];
    BlockFitted(L, s, b, x);
    PointerBounds(L, x);
    L.RoundBounds(x.request);
    if i + 1 < |r.blocks| {
      InRegion(L, s, b, r.blocks[i + 1]);
      Adjacent(L, r.blocks, b + L.mmapHeader, b + r.size, i);
    }
    OnePage(L, x);
    forall c | c in s.order ensures !(c < p < c + L.regionSize) {
      assert c != b ==> Apart(b, r.size, c, s.regions[c].size);
    }
  }

  /** A pointer at the end of its block: the block is a page, and all of it was asked for. */
  lemma OnePage(L: Layout, x: Block)
    requires L.Valid() && x.Busy() && Fitted(L, x) && x.size > 0 && x.Pointer(L) >= x.End(L)
    ensures L.mprotect && x.request == L.Page() == x.size
  {
    L.RoundBounds(x.request);
    L.ShiftOf(x.request);
    if L.mprotect {
      var p := L.Page();
      ModUnique(0, 0, p);
      AlignedGap(x.request, 0, p);
      AlignedGap(L.Round(x.request), 0, p);
    }
  }

  /** What `vgc_free` can be called with: null, a pointer outside every listed region (which
      it rejects), or a live pointer. */
  ghost predicate Freeable(L: Layout, s: State, ptr: int) {
    InWindow(L, s, ptr) ==> exists b, i: nat :: LiveAt(L, s, ptr, b, i)
  }

  // ----- malloc then free -----

  lemma {:induction false} RemoveLast(order: seq<int>, b: int)
    requires b !in order
    ensures Remove(order + [b], b) == order
  {
    if order != [] {
      assert (order + [b])[1..] == order[1..] + [b];
      RemoveLast(order[1..], b);
    }
  }

  /** A region of its own for one request: mapping it and releasing it leaves no trace but
      that the memory it lay in is clean. */
  lemma EnlistUnmap(L: Layout, s: State, b: int, size: int, r: Region, split: set<int>)
    requires Listed(s) && b !in s.regions && r.size == size && 0 <= L.mmapHeader < size
    requires forall a :: a in split ==> b <= a < b + size
    ensures var s1 := Enlist(L, s, b, size);
            Unmap(State(s1.regions[b := r], s1.order, s1.written + split), b)
            == s.(written := WrittenOutside(s.written, b, size))
  {
    RemoveLast(s.order, b);
    var s1 := Enlist(L, s, b, size);
    assert s1.regions[b := r] - {b} == s.regions;
    assert WrittenOutside(s1.written + split, b, size) == WrittenOutside(s.written, b, size);
  }

  /** u is s again, up to the history of region b; a region that held nothing is gone. */
  ghost predicate Undone(s: State, b: int, size: int, u: State) {
    if b !in s.regions then u == s.(written := WrittenOutside(s.written, b, size))
    else if s.regions[b].elements == 0 then u == Unmap(s, b)
    else
      && u.order == s.order && s.written <= u.written
      && b in u.regions && u.regions == s.regions[b := u.regions[b]]
      && SameUse(u.regions[b], s.regions[b])
  }

  ghost predicate SameUse(q: Region, r: Region) {
    q.elements == r.elements && SameShape(q.blocks, r.blocks)
  }

  lemma ReleaseUndoesAllocate(L: Layout, r: Region, i: nat, n: nat)
    requires L.Valid() && RegionInv(L, r) && i < |r.blocks| && r.blocks[i].Free()
    requires n <= r.blocks[i].size && (L.mprotect ==> n > 0)
    ensures var r1 := AllocateIn(L, r, i, n);
            && i < |r1.blocks|
            && SameUse(ReleaseIn(L, r1, i), r)
            && (|ReleaseIn(L, r1, i).blocks| == 1 <==> r.elements == 0)
  {
    hide Tiles, Coalesced, AllFitted, PageAligned, SameShape, Release;
    AllocateInInv(L, r, i, n);
    ReleaseInInv(L, AllocateIn(L, r, i, n), i);
    AllocateReleaseRoundTrip(L, r.blocks, r.base + L.mmapHeader, r.base + r.size, i, n);
  }

  lemma FreeAtUndoes(L: Layout, s: State, b: int, n: nat)
    requires L.Valid() && Inv(L, s) && b in s.regions && Fits(s.regions[b], n) && (L.mprotect ==> n > 0)
    ensures var (t, p) := AllocateAt(L, s, b, n);
            var i := FirstFit(s.regions[b].blocks, n);
            && i < |t.regions[b].blocks|
            && (FreeAt(L, t, b, i) == if s.regions[b].elements == 0 then Unmap(t, b)
                                      else t.(regions := s.regions[b := ReleaseIn(L, t.regions[b], i)]))
            && SameUse(ReleaseIn(L, t.regions[b], i), s.regions[b])
  {
    hide RegionInv, SameUse, Release, Allocate, ReleaseIn, AllocateIn;
    var i := FirstFit(s.regions[b].blocks, n);
    FirstFitEarliest(s.regions[b].blocks, n);
    ReleaseUndoesAllocate(L, s.regions[b], i, n);
    var t := AllocateAt(L, s, b, n).0;
    var r1 := AllocateIn(L, s.regions[b], i, n);
    assert t.regions == s.regions[b := r1];
    var q := ReleaseIn(L, r1, i);
    assert t.regions[b := q] == s.regions[b := q];
  }

  /** The header of a remainder lies in the region. */
  lemma SplitInside(L: Layout, s: State, b: int, i: nat, n: nat)
    requires L.Valid() && Inv(L, s) && b in s.regions && i < |s.regions[b].blocks|
    ensures forall a :: a in SplitAt(L, s.regions[b].blocks[i], n) ==> b < a < b + s.regions[b].size
  {
    RegionTiles(L, s, b);
    hide Inv, Tiles;
    var bs := s.regions[b].blocks;
    var m := Carve(L, bs[i], n);
    var lo, hi := b + L.mmapHeader, b + s.regions[b].size;
    if |m| == 2 {
      var after := Allocate(L, bs, i, n);
      AllocateTiles(L, bs, lo, hi, i, n);
      assert after[i + 1] == m[1];
      Within(L, after, lo, hi, i + 1);
      AddressOrder(L, after, lo, hi, i, i + 1);
      Within(L, after, lo, hi, i);
    }
  }

  lemma AllocatedAt(L: Layout, s: State, b: int, n: nat)
    requires L.Valid() && Inv(L, s) && b in s.regions && Fits(s.regions[b], n) && (L.mprotect ==> n > 0)
    ensures var (t, p) := AllocateAt(L, s, b, n);
            var i := FirstFit(s.regions[b].blocks, n);
            Inv(L, t) && LiveAt(L, t, p, b, i) && t.regions[b].blocks[i].request == n && t.order == s.order
  {
    hide RegionInv;
    AllocateAtInv(L, s, b, n);
    FirstFitEarliest(s.regions[b].blocks, n);
    var i := FirstFit(s.regions[b].blocks, n);
    CarveIs(L, s.regions[b].blocks[i], n);
  }

  /** Only the pointer of a page multiple misleads. */
  lemma ShiftableNotMisled(L: Layout, s: State, p: int, b: int, i: nat)
    requires L.Valid() && Inv(L, s) && LiveAt(L, s, p, b, i) && L.Shiftable(s.regions[b].blocks[i].request)
    ensures forall junk :: !Misled(L, s, p, junk)
  {
    forall c, j: nat | LiveAt(L, s, p, c, j) ensures c == b && j == i {
      LiveAtUnique(L, s, p, b, i, c, j);
    }
  }

  lemma FreeFindsAllocated(L: Layout, s: State, b: int, n: nat)
    requires L.Valid() && Inv(L, s) && b in s.regions && b in s.order && Fits(s.regions[b], n)
    requires L.mprotect ==> n > 0
    ensures var (t, p) := AllocateAt(L, s, b, n);
            && (L.Shiftable(n) ==> !Misled(L, t, p, false))
            && FirstFit(s.regions[b].blocks, n) < |t.regions[b].blocks|
            && (!Misled(L, t, p, false) ==>
                  Free(L, t, p) == if L.Shiftable(n) then FreeAt(L, t, b, FirstFit(s.regions[b].blocks, n)) else t)
  {
    hide Inv, AllocateAt, FirstFit, FreeAt, Free, Misled;
    var (t, p) := AllocateAt(L, s, b, n);
    var i := FirstFit(s.regions[b].blocks, n);
    AllocatedAt(L, s, b, n);
    ModUnique(1, 0, L.Page());
    WindowExact(L, t, p, b, i);
    if L.Shiftable(n) { ShiftableNotMisled(L, t, p, b, i); }
    if !Misled(L, t, p, false) { FreeIsFreeAt(L, t, p, b, i); }
  }

  /** Freeing a just-returned pointer: back to the same blocks if the region held another
      live block, otherwise the region is unmapped; a region made for the request leaves no
      trace. For a page multiple nothing happens, and the block is lost, unless an old header
      misleads vgc_free. */
  lemma MallocThenFree(L: Layout, s: State, size: nat, k: Kernel)
    requires L.Valid() && Inv(L, s) && KernelOk(L, s, k)
    requires Serving(L, WithFirst(L, s, k), size, k).Served?
    ensures var (t, p) := Malloc(L, s, size, k);
            var b := Serving(L, WithFirst(L, s, k), size, k).base;
            && b in t.regions
            && (L.Shiftable(L.AlignRequest(size)) ==>
                  !Misled(L, t, p, false) && Undone(s, b, t.regions[b].size, Free(L, t, p)))
            && (!L.Shiftable(L.AlignRequest(size)) && !Misled(L, t, p, false) ==> Free(L, t, p) == t)
  {
    hide RegionInv, SameUse, Serving, Prepared, Free, FreeAt, Malloc, Misled, AllocateAt;
    var n := L.AlignRequest(size);
    var b := Serving(L, WithFirst(L, s, k), size, k).base;
    var s1 := Prepared(L, s, size, k);
    PreparedIs(L, s, size, k);
    MallocServed(L, s, size, k);
    FreeFindsAllocated(L, s1, b, n);
    if L.Shiftable(n) { AllocatedUndone(L, s, s1, b, n); }
    AllocateKeepsRegion(L, s1, b, n);
  }

  lemma AllocateKeepsRegion(L: Layout, s: State, b: int, n: nat)
    requires b in s.regions
    ensures b in AllocateAt(L, s, b, n).0.regions
    ensures AllocateAt(L, s, b, n).0.regions[b].size == s.regions[b].size
  {
  }

  lemma AllocatedUndone(L: Layout, s: State, s1: State, b: int, n: nat)
    requires L.Valid() && Inv(L, s) && Inv(L, s1) && b in s1.regions && Fits(s1.regions[b], n) && (L.mprotect ==> n > 0)
    requires s1 == s || b !in s.regions
    requires b !in s.regions ==> s1 == Enlist(L, s, b, s1.regions[b].size)
    ensures FirstFit(s1.regions[b].blocks, n) < |AllocateAt(L, s1, b, n).0.regions[b].blocks|
    ensures Undone(s, b, s1.regions[b].size, FreeAt(L, AllocateAt(L, s1, b, n).0, b, FirstFit(s1.regions[b].blocks, n)))
  {
    hide Sound, SameUse, Release, Allocate, ReleaseIn, FirstFit;
    FreeAtUndoes(L, s1, b, n);
    var i := FirstFit(s1.regions[b].blocks, n);
    FirstFitEarliest(s1.regions[b].blocks, n);
    var (t, p) := AllocateAt(L, s1, b, n);
    SplitInside(L, s1, b, i, n);
    var split := SplitAt(L, s1.regions[b].blocks[i], n);
    if b !in s.regions {
      EnlistUnmap(L, s, b, s1.regions[b].size, t.regions[b], split);
    } else {
      assert t.regions - {b} == s.regions - {b};
      var size := s.regions[b].size;
      assert WrittenOutside(s.written + split, b, size) == WrittenOutside(s.written, b, size);
    }
  }

  // ----- live blocks over a malloc -----

  /** What a successful malloc adds: one block, at the returned pointer, for the aligned length. */
  lemma MallocBlock(L: Layout, s: State, size: nat, k: Kernel) returns (x: Block)
    requires L.Valid() && Inv(L, s) && KernelOk(L, s, k) && Malloc(L, s, size, k).1 != 0
    ensures var (t, p) := Malloc(L, s, size, k);
            && Inv(L, t)
            && x !in LiveBlocks(s.regions) && LiveBlocks(t.regions) == LiveBlocks(s.regions) + {x}
            && x.Pointer(L) == p && x.request == L.AlignRequest(size) && size > 0
  {
    hide RegionInv, LiveBlocks, Fits, Serving, KernelOk;
    MapRegionInv(L, s, k);
    MallocRefines(L, s, size, k);
    MallocServed(L, s, size, k);
    var b := Serving(L, WithFirst(L, s, k), size, k).base;
    var s1 := Prepared(L, s, size, k);
    AllocateAtLive(L, s1, b, L.AlignRequest(size));
    x := Chosen(L, s1.regions[b], L.AlignRequest(size));
  }

  /** The payload of a new block meets no live payload. */
  lemma NewPayloadOutside(L: Layout, s: State, t: State, x: Block, a: int)
    requires L.Valid() && Inv(L, t)
    requires x !in LiveBlocks(s.regions) && LiveBlocks(t.regions) == LiveBlocks(s.regions) + {x}
    requires InPayload(L, x, a)
    ensures Outside(L, LiveBlocks(s.regions), a)
  {
    var b := LiveBlockHome(t, x);
    InRegion(L, t, b, x);
    forall y | y in LiveBlocks(s.regions) ensures !InPayload(L, y, a) {
      assert y in LiveBlocks(t.regions);
      var c := LiveBlockHome(t, y);
      InRegion(L, t, c, y);
      BlocksApart(L, t, b, x, c, y);
    }
  }
}
