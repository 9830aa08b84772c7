/** The byte ranges handed to callers: where they lie, that they never meet each other, a
    header or a guard page, and how `vgc_free` finds its way back from a pointer. */
module LiveRanges {
  import opened Arithmetic
  import opened Layouts
  import opened Blocks
  import opened States

  ghost predicate InRange(L: Layout, x: Block, a: int) {
    x.Pointer(L) <= a < x.Pointer(L) + x.request
  }

  ghost function GuardSet(bs: seq<Block>): set<int> {
    set x | x in bs && !x.freed :: x.addr
  }

  /** The first page of every header that has not been freed since it was created. */
  ghost function Guards(L: Layout, regions: map<int, Region>): set<int> {
    set b, a | b in regions && L.mprotect && a in GuardSet(regions[b].blocks) :: a
  }

  ghost predicate InHeaders(L: Layout, bs: seq<Block>, a: int) {
    exists i :: 0 <= i < |bs| && bs[i].addr <= a < bs[i].addr + L.header
  }

  /** Bytes the allocator itself writes in a region: the region header and the block headers. */
  ghost predicate Metadata(L: Layout, r: Region, a: int) {
    r.base <= a < r.base + L.mmapHeader || InHeaders(L, r.blocks, a)
  }

  // ----- placement inside a block -----

  /** How far a caller's range may reach: never more than one page beyond its block. */
  lemma PointerBounds(L: Layout, x: Block)
    requires L.Valid() && x.Busy() && Fitted(L, x)
    ensures x.addr + L.header <= x.Pointer(L)
    ensures x.Pointer(L) + x.request <= x.End(L) + if L.mprotect then L.Page() else 0
    ensures x.Pointer(L) <= x.End(L)
  {
    L.RoundBounds(x.request);
    L.ShiftOf(x.request);
    if L.mprotect && L.Shiftable(x.request) {
      assert L.Shift(x.request) <= L.Round(x.request);
    } else if L.mprotect {
      AlignedGap(x.request, 0, L.Page()) by { ModUnique(0, 0, L.Page()); }
    }
  }

  /** The user range lies inside the payload exactly when the length is not a page multiple,
      or the block is at least a page larger than the request. */
  lemma PlacementExact(L: Layout, x: Block)
    requires L.Valid() && x.Busy() && Fitted(L, x)
    ensures x.Pointer(L) + x.request <= x.End(L)
       <==> L.Shiftable(x.request) || x.request + L.Page() <= x.size
  {
    L.RoundBounds(x.request);
    L.ShiftOf(x.request);
  }

  /** With page protection the range ends where the next header, hence the next guard page,
      begins exactly when the block has the rounded length; for a page multiple, when it has
      one page more. */
  lemma EndsAtNextHeader(L: Layout, x: Block)
    requires L.Valid() && x.Busy() && Fitted(L, x) && L.mprotect
    ensures x.Pointer(L) + x.request == x.End(L)
       <==> x.size == L.Round(x.request) + if L.Shiftable(x.request) then 0 else L.Page()
  {
    L.RoundBounds(x.request);
  }

  /** The shift gives the pointer the alignment of the length, for every alignment that
      divides the page size. */
  lemma PointerAlignment(L: Layout, x: Block, m: nat)
    requires L.Valid() && L.mprotect && x.addr % L.Page() == 0
    requires m > 0 && L.Page() % m == 0
    ensures x.Pointer(L) % m == 0 <==> x.request % m == 0
  {
    var p := L.Page();
    L.ShiftOf(x.request);
    DivMod(x.addr, p);
    ShiftAlignment(x.addr / p + 3, x.request, p, m);
    assert (x.addr / p + 3) * p == x.addr + L.header + p;
  }

  /** `vgc_free` recovers the header from the pointer exactly when the length was not a
      multiple of the page size; for a page multiple it is one page off. */
  lemma HeaderRecovered(L: Layout, x: Block)
    requires L.Valid() && x.Busy() && Fitted(L, x)
    requires 0 <= x.addr && x.End(L) < SIZE_T && (L.mprotect ==> x.addr % L.Page() == 0)
    ensures L.HeaderOf(x.Pointer(L)) == x.addr <==> L.Shiftable(x.request)
    ensures !L.Shiftable(x.request) ==> L.HeaderOf(x.Pointer(L)) == x.addr + L.Page()
  {
    if L.mprotect {
      var p := L.Page();
      L.ShiftOf(x.request);
      PointerBounds(L, x);
      Pow2Widths();
      AlignedTwice(p);
      AlignedSum(x.addr, L.header, p);
      MaskRecovers(64, L.pageBits, x.addr + L.header, L.Shift(x.request));
    }
  }

  // ----- ranges in a region and in the whole state -----

  lemma BlockFitted(L: Layout, s: State, b: int, x: Block)
    requires L.Valid() && Inv(L, s) && b in s.regions && x in s.regions[b].blocks
    ensures Fitted(L, x) && (L.mprotect ==> x.addr % L.Page() == 0)
    ensures 0 < b + L.mmapHeader <= x.addr && x.End(L) <= b + s.regions[b].size < SIZE_T
  {
    InRegion(L, s, b, x);
  }

  /** Two distinct blocks, wherever they are: one ends before the other's header begins, with
      a region header in between if the regions differ. */
  lemma BlocksApart(L: Layout, s: State, b: int, x: Block, c: int, y: Block)
    requires L.Valid() && Inv(L, s) && x != y
    requires b in s.regions && x in s.regions[b].blocks && c in s.regions && y in s.regions[c].blocks
    ensures x.End(L) <= y.addr || y.End(L) <= x.addr
  {
    InRegion(L, s, b, x);
    InRegion(L, s, c, y);
    if b == c {
      var bs := s.regions[b].blocks;
      var i :| 0 <= i < |bs| && bs[i] == x;
      var j :| 0 <= j < |bs| && bs[j] == y;
      if i < j { AddressOrder(L, bs, b + L.mmapHeader, b + s.regions[b].size, i, j); }
      else { AddressOrder(L, bs, b + L.mmapHeader, b + s.regions[b].size, j, i); }
    } else {
      assert Apart(b, s.regions[b].size, c, s.regions[c].size);
    }
  }

  lemma LiveBlockHome(s: State, x: Block) returns (b: int)
    requires x in LiveBlocks(s.regions)
    ensures b in s.regions && x in s.regions[b].blocks && x.Busy()
  {
    b :| b in s.regions && x in BusySet(s.regions[b].blocks);
  }

  /** Live ranges never overlap, whatever the lengths, and no two pointers are equal. */
  lemma LiveRangesDisjoint(L: Layout, s: State, x: Block, y: Block)
    requires L.Valid() && Inv(L, s) && x in LiveBlocks(s.regions) && y in LiveBlocks(s.regions) && x != y
    ensures x.Pointer(L) != y.Pointer(L)
    ensures x.Pointer(L) + x.request <= y.Pointer(L) || y.Pointer(L) + y.request <= x.Pointer(L)
  {
    var b := LiveBlockHome(s, x);
    var c := LiveBlockHome(s, y);
    BlockFitted(L, s, b, x);
    BlockFitted(L, s, c, y);
    BlocksApart(L, s, b, x, c, y);
    PointerBounds(L, x);
    PointerBounds(L, y);
  }

  ghost predicate InPayload(L: Layout, x: Block, a: int) {
    x.addr + L.header <= a < x.End(L)
  }

  /** No header the allocator writes overlaps the payload of a block. */
  lemma MetadataApart(L: Layout, s: State, b: int, x: Block, c: int, a: int)
    requires L.Valid() && Inv(L, s) && b in s.regions && x in s.regions[b].blocks
    requires c in s.regions && Metadata(L, s.regions[c], a)
    ensures !InPayload(L, x, a)
  {
    InRegion(L, s, b, x);
    if c <= a < c + L.mmapHeader {
      assert b != c ==> Apart(b, s.regions[b].size, c, s.regions[c].size);
      InRegion(L, s, c, s.regions[c].blocks[0]);
    } else {
      var bs := s.regions[c].blocks;
      var i :| 0 <= i < |bs| && bs[i].addr <= a < bs[i].addr + L.header;
      InRegion(L, s, c, bs[i]);
      if x != bs[i] { BlocksApart(L, s, b, x, c, bs[i]); }
    }
  }

  /** A page multiple with less than a page to spare has a block of exactly its own length,
      which its range overshoots by one page. */
  lemma Overshoots(L: Layout, x: Block)
    requires L.Valid() && x.Busy() && Fitted(L, x) && !L.Shiftable(x.request)
    requires x.size % L.Page() == 0 && x.size < x.request + L.Page()
    ensures x.size == x.request >= L.Page()
    ensures x.Pointer(L) + x.request == x.End(L) + L.Page()
  {
    var p := L.Page();
    L.RoundBounds(x.request);
    AlignedGap(x.size, x.request, p);
    ModUnique(0, 0, p);
    AlignedGap(x.request, 0, p);
  }

  /** A live range leaves its region exactly when its length is a page multiple, its block has
      no page to spare, and the block is the last one. */
  lemma RangeInRegion(L: Layout, s: State, b: int, i: nat)
    requires L.Valid() && Inv(L, s) && b in s.regions && i < |s.regions[b].blocks| && s.regions[b].blocks[i].Busy()
    ensures var r := s.regions[b];
            var x := r.blocks[i];
            && b + L.mmapHeader <= x.Pointer(L)
            && (x.Pointer(L) + x.request <= b + r.size
                <==> L.Shiftable(x.request) || x.request + L.Page() <= x.size || i + 1 < |r.blocks|)
  {
    var bs := s.regions[b].blocks;
    var x := bs[i];
    BlockFitted(L, s, b, x);
    PointerBounds(L, x);
    PlacementExact(L, x);
    if !L.Shiftable(x.request) && x.size < x.request + L.Page() {
      Overshoots(L, x);
      if i + 1 < |bs| {
        InRegion(L, s, b, bs[i + 1]);
        Adjacent(L, bs, b + L.mmapHeader, b + s.regions[b].size, i);
      } else {
        assert x.End(L) == b + s.regions[b].size;
      }
    }
  }

  /** The byte at a belongs to the payload of no live block. */
  ghost predicate Outside(L: Layout, live: set<Block>, a: int) {
    forall x :: x in live ==> !InPayload(L, x, a)
  }

  lemma MetadataOutside(L: Layout, s: State, c: int, a: int)
    requires L.Valid() && Inv(L, s) && c in s.regions && Metadata(L, s.regions[c], a)
    ensures Outside(L, LiveBlocks(s.regions), a)
  {
    forall x | x in LiveBlocks(s.regions) ensures !InPayload(L, x, a) {
      var b := LiveBlockHome(s, x);
      MetadataApart(L, s, b, x, c, a);
    }
  }

  lemma UnmappedOutside(L: Layout, s: State, b: int, size: int, a: int)
    requires L.Valid() && Inv(L, s) && Mappable(L, s, b, size) && b <= a < b + size
    ensures Outside(L, LiveBlocks(s.regions), a)
  {
    forall x | x in LiveBlocks(s.regions) ensures !InPayload(L, x, a) {
      var c := LiveBlockHome(s, x);
      InRegion(L, s, c, x);
      assert Apart(b, size, c, s.regions[c].size);
    }
  }

  // ----- guard pages -----

  /** A byte is inaccessible when it lies in a guard page. */
  predicate Inaccessible(L: Layout, guards: set<int>, a: int) {
    exists g :: g in guards && g <= a < g + L.Page()
  }

  lemma GuardHome(L: Layout, s: State, a: int) returns (b: int, y: Block)
    requires Inaccessible(L, Guards(L, s.regions), a)
    ensures L.mprotect && b in s.regions && y in s.regions[b].blocks && !y.freed
    ensures y.addr <= a < y.addr + L.Page()
  {
    var g :| g in Guards(L, s.regions) && g <= a < g + L.Page();
    b :| b in s.regions && g in GuardSet(s.regions[b].blocks);
    y :| y in s.regions[b].blocks && !y.freed && y.addr == g;
  }

  /** A live range contains an inaccessible byte exactly when its length is a page multiple,
      its block has no page to spare, and the header behind it was never freed. */
  lemma RangeFaultsExactly(L: Layout, s: State, b: int, i: nat)
    requires L.Valid() && Inv(L, s) && b in s.regions && i < |s.regions[b].blocks| && s.regions[b].blocks[i].Busy()
    ensures var bs := s.regions[b].blocks;
            var x := bs[i];
            (exists a :: InRange(L, x, a) && Inaccessible(L, Guards(L, s.regions), a))
            <==> !L.Shiftable(x.request) && x.size < x.request + L.Page() && i + 1 < |bs| && !bs[i + 1].freed
  {
    hide RegionInv;
    var bs := s.regions[b].blocks;
    var x := bs[i];
    BlockFitted(L, s, b, x);
    PointerBounds(L, x);
    PlacementExact(L, x);
    if exists a :: InRange(L, x, a) && Inaccessible(L, Guards(L, s.regions), a) {
      var a :| InRange(L, x, a) && Inaccessible(L, Guards(L, s.regions), a);
      var c, y := GuardHome(L, s, a);
      FollowsDirectly(L, s, b, i, c, y, a);
    }
    if !L.Shiftable(x.request) && x.size < x.request + L.Page() && i + 1 < |bs| && !bs[i + 1].freed {
      BlockAligned(L, s, b, x);
      Overshoots(L, x);
      GuardBehind(L, s, b, i, x.End(L));
      assert InRange(L, x, x.End(L));
    }
  }

  /** The page behind a block whose successor was never freed is inaccessible. */
  lemma GuardBehind(L: Layout, s: State, b: int, i: nat, a: int)
    requires L.Valid() && Inv(L, s) && L.mprotect && b in s.regions && i + 1 < |s.regions[b].blocks|
    requires !s.regions[b].blocks[i + 1].freed
    requires s.regions[b].blocks[i].End(L) <= a < s.regions[b].blocks[i].End(L) + L.Page()
    ensures Inaccessible(L, Guards(L, s.regions), a)
  {
    var bs := s.regions[b].blocks;
    Adjacent(L, bs, b + L.mmapHeader, b + s.regions[b].size, i);
    assert bs[i + 1].addr in GuardSet(bs);
    assert bs[i + 1].addr in Guards(L, s.regions);
  }

  lemma BlockAligned(L: Layout, s: State, b: int, x: Block)
    requires Inv(L, s) && L.mprotect && b in s.regions && x in s.regions[b].blocks
    ensures x.addr % L.Page() == 0 && x.size % L.Page() == 0
  {
  }

  /** Neither the fields of a block header, which fill its second page, nor a region header
      are ever inaccessible. */
  lemma HeaderFieldsAccessible(L: Layout, s: State, c: int, z: Block, a: int)
    requires L.Valid() && Inv(L, s) && L.mprotect && c in s.regions && z in s.regions[c].blocks
    requires z.addr + L.Page() <= a < z.addr + L.header || c <= a < c + L.mmapHeader
    ensures !Inaccessible(L, Guards(L, s.regions), a)
  {
    if Inaccessible(L, Guards(L, s.regions), a) {
      var b, y := GuardHome(L, s, a);
      InRegion(L, s, b, y);
      InRegion(L, s, c, z);
      assert b != c ==> Apart(b, s.regions[b].size, c, s.regions[c].size);
      if z != y { BlocksApart(L, s, b, y, c, z); }
    }
  }

  /** The first byte past a live range faults exactly when the range ends where its block
      does and the header behind it was never freed; or, for a page multiple that overshoots
      the last block of its region, when another region was mapped directly behind and the
      first header of that one was never freed. */
  lemma OverrunFaultsExactly(L: Layout, s: State, b: int, i: nat)
    requires L.Valid() && Inv(L, s) && L.mprotect && b in s.regions && i < |s.regions[b].blocks|
    requires s.regions[b].blocks[i].Busy()
    ensures var bs := s.regions[b].blocks;
            var x := bs[i];
            Inaccessible(L, Guards(L, s.regions), x.Pointer(L) + x.request)
            <==> if i + 1 < |bs|
                 then !bs[i + 1].freed && x.size == L.Round(x.request) + if L.Shiftable(x.request) then 0 else L.Page()
                 else !L.Shiftable(x.request) && x.size == x.request && FreshBehind(s, b + s.regions[b].size)
  {
    hide RegionInv, Guards, Inaccessible;
    var bs := s.regions[b].blocks;
    var x := bs[i];
    var a := x.Pointer(L) + x.request;
    BlockFitted(L, s, b, x);
    BlockAligned(L, s, b, x);
    PointerBounds(L, x);
    PlacementExact(L, x);
    EndsAtNextHeader(L, x);
    L.RoundBounds(x.request);
    if a <= x.End(L) {
      OverrunInside(L, s, b, i, a);
    } else {
      Overshoots(L, x);
      OverrunBeyond(L, s, b, i, a);
    }
  }

  /** A region that starts at c and whose first header was never freed. */
  ghost predicate FreshBehind(s: State, c: int) {
    c in s.regions && s.regions[c].blocks != [] && !s.regions[c].blocks[0].freed
  }

  lemma OverrunInside(L: Layout, s: State, b: int, i: nat, a: int)
    requires L.Valid() && Inv(L, s) && L.mprotect && b in s.regions && i < |s.regions[b].blocks|
    requires var x := s.regions[b].blocks[i]; x.addr + L.header <= a <= x.End(L)
    ensures var bs := s.regions[b].blocks;
            Inaccessible(L, Guards(L, s.regions), a) <==> a == bs[i].End(L) && i + 1 < |bs| && !bs[i + 1].freed
  {
    hide RegionInv;
    var bs := s.regions[b].blocks;
    if a == bs[i].End(L) && i + 1 < |bs| && !bs[i + 1].freed {
      GuardBehind(L, s, b, i, a);
    }
    if Inaccessible(L, Guards(L, s.regions), a) {
      var c, y := GuardHome(L, s, a);
      FollowsDirectly(L, s, b, i, c, y, a);
    }
  }

  /** One page past the end of a block: the fields of the next header, or, behind the last
      block, what follows the header of an adjacent region. */
  lemma OverrunBeyond(L: Layout, s: State, b: int, i: nat, a: int)
    requires L.Valid() && Inv(L, s) && L.mprotect && b in s.regions && i < |s.regions[b].blocks|
    requires a == s.regions[b].blocks[i].End(L) + L.Page()
    ensures Inaccessible(L, Guards(L, s.regions), a)
       <==> i + 1 == |s.regions[b].blocks| && FreshBehind(s, b + s.regions[b].size)
  {
    var bs := s.regions[b].blocks;
    var hi := b + s.regions[b].size;
    if i + 1 < |bs| {
      Adjacent(L, bs, b + L.mmapHeader, hi, i);
      HeaderFieldsAccessible(L, s, b, bs[i + 1], a);
    } else {
      BehindRegion(L, s, b, a);
    }
  }

  lemma BehindRegion(L: Layout, s: State, b: int, a: int)
    requires L.Valid() && Inv(L, s) && L.mprotect && b in s.regions && a == b + s.regions[b].size + L.Page()
    ensures Inaccessible(L, Guards(L, s.regions), a) <==> FreshBehind(s, b + s.regions[b].size)
  {
    var hi := b + s.regions[b].size;
    if FreshBehind(s, hi) {
      var y := s.regions[hi].blocks[0];
      assert y.addr in GuardSet(s.regions[hi].blocks);
      assert y.addr in Guards(L, s.regions);
    }
    if Inaccessible(L, Guards(L, s.regions), a) {
      var c, y := GuardHome(L, s, a);
      InRegion(L, s, c, y);
      assert c != b ==> Apart(b, s.regions[b].size, c, s.regions[c].size);
      FirstInRegion(L, s, c, y);
    }
  }

  /** The block directly behind the region header is the first. */
  lemma FirstInRegion(L: Layout, s: State, c: int, y: Block)
    requires L.Valid() && Inv(L, s) && c in s.regions && y in s.regions[c].blocks
    ensures y.addr == c + L.mmapHeader ==> y == s.regions[c].blocks[0]
  {
    var bs := s.regions[c].blocks;
    var j :| 0 <= j < |bs| && bs[j] == y;
    AddressIdentifies(L, bs, c + L.mmapHeader, c + s.regions[c].size, 0, j);
  }

  /** The only header that can begin within the page where block i ends, or in the page after,
      is the next one. */
  lemma FollowsDirectly(L: Layout, s: State, b: int, i: nat, c: int, y: Block, a: int)
    requires L.Valid() && Inv(L, s) && L.mprotect && b in s.regions && i < |s.regions[b].blocks|
    requires var x := s.regions[b].blocks[i]; x.addr + L.header <= a < x.End(L) + L.Page()
    requires c in s.regions && y in s.regions[c].blocks && y.addr <= a < y.addr + L.Page()
    ensures s.regions[b].blocks[i].End(L) <= a && i + 1 < |s.regions[b].blocks| && y == s.regions[b].blocks[i + 1]
  {
    var bs := s.regions[b].blocks;
    var x := bs[i];
    InRegion(L, s, b, x);
    InRegion(L, s, c, y);
    assert x != y;
    BlocksApart(L, s, b, x, c, y);
    assert b != c ==> Apart(b, s.regions[b].size, c, s.regions[c].size);
    var j :| 0 <= j < |bs| && bs[j] == y;
    var lo, hi := b + L.mmapHeader, b + s.regions[b].size;
    if j < i { AddressOrder(L, bs, lo, hi, j, i); }
    if i + 1 < j { AddressOrder(L, bs, lo, hi, i + 1, j); }
  }

  /** Right after an allocation that split its block a page is inaccessible: the one behind
      the range, so that an overrun faults at its first byte, or, for a page multiple, the
      last page of the range itself. */
  lemma SplitGuardsRange(L: Layout, s: State, b: int, n: nat, a: int)
    requires L.Valid() && Inv(L, s) && L.mprotect && b in s.regions && Fits(s.regions[b], n) && n > 0
    requires s.regions[b].blocks[FirstFit(s.regions[b].blocks, n)].size > L.Round(n) + L.header
    requires var guard := AllocateAt(L, s, b, n).1 + n - if L.Shiftable(n) then 0 else L.Page();
             guard <= a < guard + L.Page()
    ensures Inaccessible(L, Guards(L, AllocateAt(L, s, b, n).0.regions), a)
  {
    hide RegionInv, Inaccessible, Guards;
    var bs := s.regions[b].blocks;
    var i := FirstFit(bs, n);
    var t := AllocateAt(L, s, b, n).0;
    AllocateAtInv(L, s, b, n);
    CarveIs(L, bs[i], n);
    L.RoundBounds(n);
    var after := t.regions[b].blocks;
    assert after[i] == Carve(L, bs[i], n)[0] && after[i + 1] == Carve(L, bs[i], n)[1];
    GuardBehind(L, t, b, i, a);
  }

  // ----- what the code may touch -----

  /** The bytes of a region that hold fields of a structure. */
  ghost predicate Fields(L: Layout, r: Region, a: int) {
    || r.base <= a < r.base + L.mmapHeader
    || exists i :: 0 <= i < |r.blocks| && r.blocks[i].addr + L.FieldOffset() <= a < r.blocks[i].addr + L.header
  }

  /** A byte that holds no field of any structure. */
  ghost predicate NoField(L: Layout, s: State, a: int) {
    forall c :: c in s.regions ==> !Fields(L, s.regions[c], a)
  }

  /** The n bytes from p, the pointer of a live block, lie in the region of the block. */
  ghost predicate OwnRegion(L: Layout, s: State, p: int, n: nat) {
    exists b, i: nat :: LiveAt(L, s, p, b, i) && p + n <= b + s.regions[b].size
  }

  /** ... and clear of guard pages. */
  ghost predicate UsableAt(L: Layout, s: State, p: int, n: nat, b: int)
    requires b in s.regions
  {
    p + n <= b + s.regions[b].size && forall a :: p <= a < p + n ==> !Inaccessible(L, Guards(L, s.regions), a)
  }

  /** The n bytes requested are usable exactly when the length is no page multiple, or a page
      is to spare, or the next header was freed before and is unguarded. */
  lemma UsableExactly(L: Layout, s: State, b: int, i: nat)
    requires L.Valid() && Inv(L, s) && b in s.regions && i < |s.regions[b].blocks| && s.regions[b].blocks[i].Busy()
    ensures var bs := s.regions[b].blocks;
            var x := bs[i];
            UsableAt(L, s, x.Pointer(L), x.request, b)
            <==> L.Shiftable(x.request) || x.request + L.Page() <= x.size || (i + 1 < |bs| && bs[i + 1].freed)
  {
    hide RegionInv, Inaccessible, Guards;
    var x := s.regions[b].blocks[i];
    RangeInRegion(L, s, b, i);
    RangeFaultsExactly(L, s, b, i);
    assert forall a :: InRange(L, x, a) <==> x.Pointer(L) <= a < x.Pointer(L) + x.request;
  }

  /** A usable byte is a payload byte, or lies in the unguarded page in front of the fields of
      the next header. */
  lemma UsablePlace(L: Layout, s: State, b: int, i: nat, a: int)
    requires L.Valid() && Inv(L, s) && b in s.regions && i < |s.regions[b].blocks| && s.regions[b].blocks[i].Busy()
    requires InRange(L, s.regions[b].blocks[i], a) && a < b + s.regions[b].size
    ensures var bs := s.regions[b].blocks;
            || InPayload(L, bs[i], a)
            || (L.mprotect && i + 1 < |bs| && bs[i + 1].addr <= a < bs[i + 1].addr + L.Page())
  {
    var bs := s.regions[b].blocks;
    BlockFitted(L, s, b, bs[i]);
    PointerBounds(L, bs[i]);
    if i + 1 < |bs| {
      Adjacent(L, bs, b + L.mmapHeader, b + s.regions[b].size, i);
    }
  }

  /** No field of any structure lies in a payload or in the first page of a header. */
  lemma FieldsApart(L: Layout, s: State, b: int, x: Block, c: int, a: int)
    requires L.Valid() && Inv(L, s) && b in s.regions && x in s.regions[b].blocks && c in s.regions
    requires InPayload(L, x, a) || (L.mprotect && x.addr <= a < x.addr + L.Page())
    ensures !Fields(L, s.regions[c], a)
  {
    InRegion(L, s, b, x);
    assert b != c ==> Apart(b, s.regions[b].size, c, s.regions[c].size);
    forall i | 0 <= i < |s.regions[c].blocks|
      ensures !(s.regions[c].blocks[i].addr + L.FieldOffset() <= a < s.regions[c].blocks[i].addr + L.header)
    {
      var z := s.regions[c].blocks[i];
      InRegion(L, s, c, z);
      if x != z { BlocksApart(L, s, b, x, c, z); }
    }
  }

  /** A byte range that overshoots the end of a region can only meet the header of a region
      that starts right there. */
  lemma FieldsBeyond(L: Layout, s: State, b: int, c: int, a: int)
    requires L.Valid() && Inv(L, s) && L.mprotect && b in s.regions && c in s.regions
    requires var hi := b + s.regions[b].size; hi <= a < hi + L.Page() && Fields(L, s.regions[c], a)
    ensures c == b + s.regions[b].size
  {
    var hi := b + s.regions[b].size;
    FieldsWithin(L, s, c, a);
    RegionAligned(L, s, b);
    RegionAligned(L, s, c);
    hide RegionInv, Fields;
    assert c != b ==> Apart(b, s.regions[b].size, c, s.regions[c].size);
    AlignedGap(c, hi, L.Page());
  }

  lemma FieldsWithin(L: Layout, s: State, c: int, a: int)
    requires L.Valid() && Inv(L, s) && c in s.regions && Fields(L, s.regions[c], a)
    ensures c <= a < c + s.regions[c].size
  {
    var bs := s.regions[c].blocks;
    FirstBlock(L, s, c);
    InRegion(L, s, c, bs[0]);
    hide Inv;
    if !(c <= a < c + L.mmapHeader) {
      var i :| 0 <= i < |bs| && bs[i].addr + L.FieldOffset() <= a < bs[i].addr + L.header;
      InRegion(L, s, c, bs[i]);
    }
  }

  lemma RegionAligned(L: Layout, s: State, b: int)
    requires L.Valid() && Inv(L, s) && L.mprotect && b in s.regions
    ensures b % L.Page() == 0 && (b + s.regions[b].size) % L.Page() == 0
  {
    AlignedSum(b, s.regions[b].size, L.Page());
  }

  /** A live range contains a field of a structure exactly when its length is a page multiple,
      its block has no page to spare and is the last of its region, and another region starts
      directly behind: a caller that writes what it asked for then destroys that region's header,
      which is accessible. */
  lemma RangeHitsFields(L: Layout, s: State, b: int, i: nat)
    requires L.Valid() && Inv(L, s) && b in s.regions && i < |s.regions[b].blocks| && s.regions[b].blocks[i].Busy()
    ensures var bs := s.regions[b].blocks;
            var x := bs[i];
            var hi := b + s.regions[b].size;
            && ((exists a, c :: InRange(L, x, a) && c in s.regions && Fields(L, s.regions[c], a))
                <==> !L.Shiftable(x.request) && x.size < x.request + L.Page() && i + 1 == |bs| && hi in s.regions)
            && (!L.Shiftable(x.request) && x.size < x.request + L.Page() && i + 1 == |bs| && hi in s.regions ==>
                  InRange(L, x, hi) && Fields(L, s.regions[hi], hi) && !Inaccessible(L, Guards(L, s.regions), hi))
  {
    hide Inv, Inaccessible, Guards, Fields, InRange, Block.Pointer, Layout.Shiftable;
    var bs := s.regions[b].blocks;
    var x := bs[i];
    var hi := b + s.regions[b].size;
    forall a, c | InRange(L, x, a) && c in s.regions && Fields(L, s.regions[c], a)
      ensures !L.Shiftable(x.request) && x.size < x.request + L.Page() && i + 1 == |bs| && hi in s.regions
    {
      HitIsBehind(L, s, b, i, c, a);
    }
    if !L.Shiftable(x.request) && x.size < x.request + L.Page() && i + 1 == |bs| && hi in s.regions {
      HitBehind(L, s, b, i);
    }
  }

  lemma HitIsBehind(L: Layout, s: State, b: int, i: nat, c: int, a: int)
    requires L.Valid() && Inv(L, s) && b in s.regions && i < |s.regions[b].blocks| && s.regions[b].blocks[i].Busy()
    requires InRange(L, s.regions[b].blocks[i], a) && c in s.regions && Fields(L, s.regions[c], a)
    ensures var bs := s.regions[b].blocks;
            var x := bs[i];
            && !L.Shiftable(x.request) && x.size < x.request + L.Page()
            && i + 1 == |bs| && c == b + s.regions[b].size
  {
    hide RegionInv, Fields;
    var bs := s.regions[b].blocks;
    var x := bs[i];
    BlockFitted(L, s, b, x);
    PointerBounds(L, x);
    PlacementExact(L, x);
    LastBlockEnds(L, s, b);
    if InPayload(L, x, a) {
      FieldsApart(L, s, b, x, c, a);
    } else if i + 1 < |bs| {
      NextEnds(L, s, b, i);
      UsablePlace(L, s, b, i, a);
      FieldsApart(L, s, b, bs[i + 1], c, a);
    } else {
      FieldsBeyond(L, s, b, c, a);
    }
  }

  lemma HitBehind(L: Layout, s: State, b: int, i: nat)
    requires L.Valid() && Inv(L, s) && b in s.regions && i + 1 == |s.regions[b].blocks| && s.regions[b].blocks[i].Busy()
    requires var x := s.regions[b].blocks[i]; !L.Shiftable(x.request) && x.size < x.request + L.Page()
    requires b + s.regions[b].size in s.regions
    ensures var hi := b + s.regions[b].size;
            && InRange(L, s.regions[b].blocks[i], hi) && Fields(L, s.regions[hi], hi)
            && !Inaccessible(L, Guards(L, s.regions), hi)
  {
    hide RegionInv, Inaccessible, Guards, Fields;
    var x := s.regions[b].blocks[i];
    BlockFitted(L, s, b, x);
    PointerBounds(L, x);
    BlockAligned(L, s, b, x);
    Overshoots(L, x);
    LastBlockEnds(L, s, b);
    RegionStart(L, s, b + s.regions[b].size);
  }

  lemma LastBlockEnds(L: Layout, s: State, b: int)
    requires L.Valid() && Inv(L, s) && b in s.regions
    ensures var bs := s.regions[b].blocks; bs != [] && bs[|bs| - 1].End(L) == b + s.regions[b].size
  {
  }

  lemma NextEnds(L: Layout, s: State, b: int, i: nat)
    requires L.Valid() && Inv(L, s) && b in s.regions && i + 1 < |s.regions[b].blocks|
    ensures s.regions[b].blocks[i].End(L) + L.header <= b + s.regions[b].size
  {
    InRegion(L, s, b, s.regions[b].blocks[i + 1]);
    Adjacent(L, s.regions[b].blocks, b + L.mmapHeader, b + s.regions[b].size, i);
  }

  lemma RegionStart(L: Layout, s: State, c: int)
    requires L.Valid() && Inv(L, s) && L.mprotect && c in s.regions
    ensures Fields(L, s.regions[c], c) && !Inaccessible(L, Guards(L, s.regions), c)
  {
    FirstBlock(L, s, c);
    HeaderFieldsAccessible(L, s, c, s.regions[c].blocks[0], c);
  }

  /** All bytes of [lo, hi) can be read and written. */
  ghost predicate Open(L: Layout, guards: set<int>, lo: int, hi: int) {
    forall a :: lo <= a < hi ==> !Inaccessible(L, guards, a)
  }

  ghost predicate HeaderOpen(L: Layout, guards: set<int>, a: int) {
    Open(L, guards, a + L.FieldOffset(), a + L.header)
  }

  ghost predicate ListOpen(L: Layout, guards: set<int>, bs: seq<Block>) {
    forall i :: 0 <= i < |bs| ==> HeaderOpen(L, guards, bs[i].addr)
  }

  /** Callers write bytes of their own: requested, in the region, and accessible. */
  ghost predicate OwnBytes(L: Layout, s: State, p: int, lo: int, n: nat) {
    exists b, i: nat :: LiveAt(L, s, p, b, i) && OwnBytesAt(L, s, p, lo, n, b, i)
  }

  ghost predicate OwnBytesAt(L: Layout, s: State, p: int, lo: int, n: nat, b: int, i: nat)
    requires b in s.regions && i < |s.regions[b].blocks|
  {
    && p <= lo && lo + n <= p + s.regions[b].blocks[i].request && lo + n <= b + s.regions[b].size
    && Open(L, Guards(L, s.regions), lo, lo + n)
  }

  /** Taking guards down keeps open what was open. */
  lemma OpenWithFewer(L: Layout, guards: set<int>, fewer: set<int>, lo: int, hi: int)
    requires fewer <= guards && Open(L, guards, lo, hi)
    ensures Open(L, fewer, lo, hi)
  {
    forall a | lo <= a < hi ensures !Inaccessible(L, fewer, a) {
      assert !Inaccessible(L, guards, a);
    }
  }

  lemma HeaderStaysOpen(L: Layout, guards: set<int>, fewer: set<int>, a: int)
    requires fewer <= guards && HeaderOpen(L, guards, a)
    ensures HeaderOpen(L, fewer, a)
  {
    OpenWithFewer(L, guards, fewer, a + L.FieldOffset(), a + L.header);
  }

  /** The structures of every region are open. */
  lemma StructuresOpen(L: Layout, s: State, c: int)
    requires L.Valid() && Inv(L, s) && c in s.regions
    ensures Open(L, Guards(L, s.regions), c, c + L.mmapHeader)
    ensures ListOpen(L, Guards(L, s.regions), s.regions[c].blocks)
  {
    hide RegionInv;
    var guards := Guards(L, s.regions);
    assert s.regions[c].blocks != [] by { FirstBlock(L, s, c); }
    forall a | c <= a < c + L.mmapHeader ensures !Inaccessible(L, guards, a) {
      if L.mprotect { HeaderFieldsAccessible(L, s, c, s.regions[c].blocks[0], a); }
    }
    forall i | 0 <= i < |s.regions[c].blocks| ensures HeaderOpen(L, guards, s.regions[c].blocks[i].addr) {
      forall a | s.regions[c].blocks[i].addr + L.FieldOffset() <= a < s.regions[c].blocks[i].addr + L.header
        ensures !Inaccessible(L, guards, a)
      {
        if L.mprotect { HeaderFieldsAccessible(L, s, c, s.regions[c].blocks[i], a); }
      }
    }
  }

  lemma FirstBlock(L: Layout, s: State, c: int)
    requires Inv(L, s) && c in s.regions
    ensures s.regions[c].blocks != [] && s.regions[c].base == c
  {
  }

  // ----- how the guards change -----

  lemma AllocateGuards(L: Layout, bs: seq<Block>, i: nat, n: nat)
    requires i < |bs|
    ensures var m := Carve(L, bs[i], n);
            GuardSet(Allocate(L, bs, i, n)) == GuardSet(bs) + if |m| == 2 then {m[1].addr} else {}
  {
    var m := Carve(L, bs[i], n);
    var after := Allocate(L, bs, i, n);
    assert bs == bs[..i] + [bs[i]] + bs[i + 1..];
    assert m[0].addr == bs[i].addr && m[0].freed == bs[i].freed;
    forall a ensures a in GuardSet(after) <==> a in GuardSet(bs) + if |m| == 2 then {m[1].addr} else {} {
      if a in GuardSet(after) {
        var x :| x in after && !x.freed && x.addr == a;
        assert x in bs[..i] || x in m || x in bs[i + 1..];
        if x in bs[..i] || x in bs[i + 1..] { assert x in bs; }
        else if x == m[0] { assert bs[i] in bs; }
      }
      if a in GuardSet(bs) {
        var x :| x in bs && !x.freed && x.addr == a;
        assert x in bs[..i] || x == bs[i] || x in bs[i + 1..];
        if x == bs[i] { assert m[0] in after; } else { assert x in after; }
      }
      if |m| == 2 { assert m[1] in after; }
    }
  }

  /** Release takes down the guard of the freed header and of an absorbed successor, no other. */
  lemma ReleaseGuards(L: Layout, bs: seq<Block>, lo: int, hi: int, i: nat)
    requires L.header > 0 && Tiles(L, bs, lo, hi) && Coalesced(bs) && i < |bs| && bs[i].Busy()
    ensures GuardSet(Release(L, bs, i)) ==
            GuardSet(bs) - {bs[i].addr} - if i + 1 < |bs| && bs[i + 1].Free() then {bs[i + 1].addr} else {}
  {
    ReleaseFuses(L, bs, lo, hi, i);
    var a, b := RunStart(bs, i), RunEnd(bs, i);
    var after := Fused(L, bs, a, b, a == i || bs[a].freed);
    var gone := {bs[i].addr} + if i + 1 < |bs| && bs[i + 1].Free() then {bs[i + 1].addr} else {};
    FusedGuards(L, bs, lo, hi, a, b, i);
    assert GuardSet(bs) - gone ==
           GuardSet(bs) - {bs[i].addr} - if i + 1 < |bs| && bs[i + 1].Free() then {bs[i + 1].addr} else {};
  }

  lemma FusedGuards(L: Layout, bs: seq<Block>, lo: int, hi: int, a: nat, b: nat, i: nat)
    requires L.header > 0 && Tiles(L, bs, lo, hi) && i < |bs|
    requires a == RunStart(bs, i) && b == RunEnd(bs, i)
    ensures var gone := {bs[i].addr} + if i + 1 < |bs| && bs[i + 1].Free() then {bs[i + 1].addr} else {};
            GuardSet(Fused(L, bs, a, b, a == i || bs[a].freed)) == GuardSet(bs) - gone
  {
    hide Tiles;
    var after := Fused(L, bs, a, b, a == i || bs[a].freed);
    var gone := {bs[i].addr} + if i + 1 < |bs| && bs[i + 1].Free() then {bs[i + 1].addr} else {};
    forall g ensures g in GuardSet(after) <==> g in GuardSet(bs) - gone {
      if g in GuardSet(after) { GuardLeft(L, bs, lo, hi, a, b, i, g); }
      if g in GuardSet(bs) - gone { GuardKept(L, bs, a, b, i, g); }
    }
  }

  lemma GuardLeft(L: Layout, bs: seq<Block>, lo: int, hi: int, a: nat, b: nat, i: nat, g: int)
    requires L.header > 0 && Tiles(L, bs, lo, hi) && i < |bs|
    requires a == RunStart(bs, i) && b == RunEnd(bs, i)
    requires g in GuardSet(Fused(L, bs, a, b, a == i || bs[a].freed))
    ensures g in GuardSet(bs) && g != bs[i].addr && (i + 1 < |bs| && bs[i + 1].Free() ==> g != bs[i + 1].addr)
  {
    hide Tiles;
    AddressesDiffer(L, bs, lo, hi, i);
    AddressesDiffer(L, bs, lo, hi, i + 1);
    var after := Fused(L, bs, a, b, a == i || bs[a].freed);
    var j :| 0 <= j < |after| && !after[j].freed && after[j].addr == g;
    var k := if j <= a then j else j - a - 1 + b;
    assert after[j].addr == bs[k].addr && !bs[k].freed && k != i && bs[k] in bs;
  }

  lemma GuardKept(L: Layout, bs: seq<Block>, a: nat, b: nat, i: nat, g: int)
    requires i < |bs| && a == RunStart(bs, i) && b == RunEnd(bs, i)
    requires g in GuardSet(bs) && g != bs[i].addr && (i + 1 < |bs| && bs[i + 1].Free() ==> g != bs[i + 1].addr)
    ensures g in GuardSet(Fused(L, bs, a, b, a == i || bs[a].freed))
  {
    var after := Fused(L, bs, a, b, a == i || bs[a].freed);
    var k :| 0 <= k < |bs| && !bs[k].freed && bs[k].addr == g;
    var j := if k <= a then k else k + a + 1 - b;
    assert after[j].addr == bs[k].addr && after[j].freed == bs[k].freed;
    assert after[j] in after;
  }

  lemma GuardsSplit(L: Layout, regions: map<int, Region>, b: int, r: Region)
    ensures Guards(L, regions[b := r]) == Guards(L, regions - {b}) + if L.mprotect then GuardSet(r.blocks) else {}
  {
    var all, rest := regions[b := r], regions - {b};
    forall x ensures x in Guards(L, all) <==> x in Guards(L, rest) + if L.mprotect then GuardSet(r.blocks) else {} {
      if x in Guards(L, rest) {
        var c :| c in rest && x in GuardSet(rest[c].blocks);
        assert c in all && x in GuardSet(all[c].blocks);
      }
      if x in Guards(L, all) {
        var c :| c in all && x in GuardSet(all[c].blocks);
        assert c != b ==> c in rest && x in GuardSet(rest[c].blocks);
      }
      assert b in all;
    }
  }

  lemma GuardsSplitSelf(L: Layout, regions: map<int, Region>, b: int)
    requires b in regions
    ensures Guards(L, regions) == Guards(L, regions - {b}) + if L.mprotect then GuardSet(regions[b].blocks) else {}
  {
    assert regions == regions[b := regions[b]];
    GuardsSplit(L, regions, b, regions[b]);
  }

  /** A header address of one region is no guard of another. */
  lemma GuardNotElsewhere(L: Layout, s: State, b: int, i: nat)
    requires L.Valid() && Inv(L, s) && b in s.regions && i < |s.regions[b].blocks|
    ensures s.regions[b].blocks[i].addr !in Guards(L, s.regions - {b})
  {
    var x := s.regions[b].blocks[i];
    InRegion(L, s, b, x);
    forall c | c in s.regions && c != b ensures x.addr !in GuardSet(s.regions[c].blocks) {
      assert Apart(b, s.regions[b].size, c, s.regions[c].size);
      if x.addr in GuardSet(s.regions[c].blocks) {
        var y :| y in s.regions[c].blocks && y.addr == x.addr;
        InRegion(L, s, c, y);
      }
    }
  }
}
