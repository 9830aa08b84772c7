/** What `vgc_calloc`, `vgc_realloc` and the callers themselves write in the memory handed out. */
module Callers {
  import opened Arithmetic
  import opened Layouts
  import opened Blocks
  import opened States
  import opened LiveRanges
  import opened Runs
  import opened Memory
  import opened Representation
  import opened Leftovers

  /** What vgc_calloc zeroes is part of no live payload but its own, and holds no structure. */
  lemma CallocPlace(L: Layout, s: State, t: State, x: Block, n: nat, a: int)
    requires L.Valid() && Inv(L, t) && n < SIZE_T
    requires x !in LiveBlocks(s.regions) && LiveBlocks(t.regions) == LiveBlocks(s.regions) + {x}
    requires x.request == L.AlignRequest(n) && OwnRegion(L, t, x.Pointer(L), n)
    requires x.Pointer(L) <= a < x.Pointer(L) + n
    ensures Outside(L, LiveBlocks(s.regions), a)
    ensures NoField(L, t, a)
  {
    hide RegionInv, LiveBlocks, Inaccessible, Guards, Block.Pointer, Fields, Outside;
    var b, i: nat :| LiveAt(L, t, x.Pointer(L), b, i) && x.Pointer(L) + n <= b + t.regions[b].size;
    CallocBlock(L, t, x, b, i);
    RegionFacts(L, t, b);
    PointerInBlock(L, t, b, x);
    L.AlignRequestGrows(n);
    OwnOutside(L, s, t, x, n, a);
  }

  /** The first byte that cannot be written tells whether all can. */
  lemma FaultIff(L: Layout, guards: set<int>, p: int, done: nat, n: nat)
    requires done <= n && Open(L, guards, p, p + done) && (done < n ==> Inaccessible(L, guards, p + done))
    ensures done < n <==> !Open(L, guards, p, p + n)
  {
  }

  /** Requested bytes that lie in the region of their block touch no other payload and no
      structure. */
  lemma OwnOutside(L: Layout, s: State, t: State, x: Block, n: nat, a: int)
    requires L.Valid() && Inv(L, t)
    requires x !in LiveBlocks(s.regions) && LiveBlocks(t.regions) == LiveBlocks(s.regions) + {x}
    requires n <= x.request && OwnRegion(L, t, x.Pointer(L), n)
    requires x.Pointer(L) <= a < x.Pointer(L) + n
    ensures Outside(L, LiveBlocks(s.regions), a)
    ensures NoField(L, t, a)
  {
    hide RegionInv, LiveBlocks, Inaccessible, Guards, Block.Pointer, Fields, Outside;
    var b, i: nat :| LiveAt(L, t, x.Pointer(L), b, i) && x.Pointer(L) + n <= b + t.regions[b].size;
    var bs := t.regions[b].blocks;
    CallocBlock(L, t, x, b, i);
    InRegion(L, t, b, x);
    OwnByte(L, t, b, i, a);
    if InPayload(L, x, a) {
      NewPayloadOutside(L, s, t, x, a);
    } else {
      BlockHeadersOutside(L, t, b, a);
      OutsideSubset(L, LiveBlocks(s.regions), LiveBlocks(t.regions), a);
    }
  }

  lemma CallocBlock(L: Layout, t: State, x: Block, b: int, i: nat)
    requires L.Valid() && Inv(L, t) && x in LiveBlocks(t.regions) && LiveAt(L, t, x.Pointer(L), b, i)
    ensures t.regions[b].blocks[i] == x
  {
    var y := t.regions[b].blocks[i];
    assert y in BusySet(t.regions[b].blocks);
    SamePointer(L, t, x, y);
  }

  lemma PointerInBlock(L: Layout, t: State, b: int, x: Block)
    requires L.Valid() && Inv(L, t) && b in t.regions && x in t.regions[b].blocks && x.Busy()
    ensures x.Pointer(L) >= 8
  {
    L.WordInPage(b);
    BlockFitted(L, t, b, x);
    PointerBounds(L, x);
  }

  lemma OwnByte(L: Layout, t: State, b: int, i: nat, a: int)
    requires L.Valid() && Inv(L, t) && b in t.regions && i < |t.regions[b].blocks| && t.regions[b].blocks[i].Busy()
    requires InRange(L, t.regions[b].blocks[i], a) && a < b + t.regions[b].size
    ensures InPayload(L, t.regions[b].blocks[i], a) || InHeaders(L, t.regions[b].blocks, a)
    ensures NoField(L, t, a)
  {
    var bs := t.regions[b].blocks;
    UsablePlace(L, t, b, i, a);
    var y := if InPayload(L, bs[i], a) then bs[i] else bs[i + 1];
    forall c | c in t.regions ensures !Fields(L, t.regions[c], a) {
      FieldsApart(L, t, b, y, c, a);
    }
  }

  /** Such writes hit no structure and no other payload. */
  lemma OwnBytesPlace(L: Layout, s: State, p: int, lo: int, n: nat, x: Block, a: int)
    requires L.Valid() && Inv(L, s) && OwnBytes(L, s, p, lo, n) && lo <= a < lo + n
    ensures NoField(L, s, a)
    ensures x in LiveBlocks(s.regions) && x.Pointer(L) != p ==> !InPayload(L, x, a)
  {
    hide RegionInv, LiveBlocks, Guards, Open;
    var b, i: nat :| LiveAt(L, s, p, b, i) && OwnBytesAt(L, s, p, lo, n, b, i);
    var y := s.regions[b].blocks[i];
    OwnByte(L, s, b, i, a);
    if x in LiveBlocks(s.regions) && x.Pointer(L) != p {
      if InPayload(L, y, a) {
        var c := LiveBlockHome(s, x);
        InRegion(L, s, b, y);
        InRegion(L, s, c, x);
        BlocksApart(L, s, b, y, c, x);
      } else {
        BlockHeadersOutside(L, s, b, a);
      }
    }
  }

  lemma LiveFreeable(L: Layout, s: State, ptr: int)
    requires L.Valid() && Inv(L, s) && ptr in LiveMap(L, s)
    ensures Freeable(L, s, ptr)
  {
    var b, i := LivePlace(L, s, ptr);
  }

  lemma HasHead(L: Layout, s: State, size: nat, k: Kernel)
    requires L.Valid() && Inv(L, s) && KernelOk(L, s, k) && Malloc(L, s, size, k).1 != 0
    ensures HasFirst(s, k)
  {
    MallocFacts(L, s, size, k);
  }

  /** Without page protection all of a payload can be written, and everything can be read. */
  lemma ReallocWritable(L: Layout, t: State, y: Block, n: int)
    requires L.Valid() && Inv(L, t) && !L.mprotect && y in LiveBlocks(t.regions)
    requires forall a :: y.Pointer(L) <= a < y.Pointer(L) + n ==> InPayload(L, y, a)
    ensures forall a :: y.Pointer(L) <= a < y.Pointer(L) + n ==> NoField(L, t, a)
    ensures forall lo, hi :: Open(L, Guards(L, t.regions), lo, hi)
  {
    assert Guards(L, t.regions) == {};
    var b := LiveBlockHome(t, y);
    forall a | y.Pointer(L) <= a < y.Pointer(L) + n ensures NoField(L, t, a) {
      forall c | c in t.regions ensures !Fields(L, t.regions[c], a) {
        FieldsApart(L, t, b, y, c, a);
      }
    }
  }

  /** The block being reallocated, still live after the malloc, and the new one. */
  lemma ReallocBlocks(L: Layout, s: State, size: nat, k: Kernel, ptr: int) returns (x: Block, y: Block)
    requires L.Valid() && Inv(L, s) && KernelOk(L, s, k) && Malloc(L, s, size, k).1 != 0
    requires ptr in LiveMap(L, s)
    ensures var (t, p) := Malloc(L, s, size, k);
            && Inv(L, t) && ptr in LiveMap(L, t) && LiveMap(L, t)[ptr] == LiveMap(L, s)[ptr]
            && x in LiveBlocks(s.regions) && x.Pointer(L) == ptr
            && y !in LiveBlocks(s.regions) && LiveBlocks(t.regions) == LiveBlocks(s.regions) + {y}
            && y.Pointer(L) == p && y.request == L.AlignRequest(size)
  {
    hide RegionInv, LiveBlocks, Malloc, KernelOk;
    y := MallocBlock(L, s, size, k);
    var t := Malloc(L, s, size, k).0;
    InvSeparate(L, s);
    InvSeparate(L, t);
    x := RangeMapFrom(L, LiveBlocks(s.regions), ptr);
    RangeMapAt(L, LiveBlocks(t.regions), x);
  }

  /** Where vgc_realloc looks for the old size it can read; without page protection the header of
      the old block lies there. */
  lemma OldHeader(L: Layout, s: State, mem: map<int, Header>, mm: map<int, MmapHeader>, protNone: set<int>, count: int,
                  x: Block)
    requires L.Valid() && Inv(L, s) && Represents(L, s, mem, mm, protNone, count)
    requires x in LiveBlocks(s.regions)
    ensures var a := x.Pointer(L) - L.header;
            && HeaderOpen(L, protNone, a)
            && (!L.mprotect ==> a in mem && mem[a].size == x.size)
  {
    hide Inv, RegionsIn, Guards, Layout.Valid, HeaderOpen;
    var b := LiveBlockHome(s, x);
    var bs := s.regions[b].blocks;
    var i :| 0 <= i < |bs| && bs[i] == x;
    HeaderAt(mem, b, bs, i);
    ShiftedOpen(L, s, b, i);
  }

  /** In front of a pointer lie the fields of its header and the start of its payload. */
  lemma ShiftedOpen(L: Layout, s: State, b: int, i: nat)
    requires L.Valid() && Inv(L, s) && b in s.regions && i < |s.regions[b].blocks| && s.regions[b].blocks[i].Busy()
    ensures HeaderOpen(L, Guards(L, s.regions), s.regions[b].blocks[i].Pointer(L) - L.header)
  {
    hide RegionInv, Guards, Inaccessible;
    var x := s.regions[b].blocks[i];
    L.ShiftOf(x.request);
    StructuresOpen(L, s, b);
    BlockFitted(L, s, b, x);
    PointerBounds(L, x);
    assert HeaderOpen(L, Guards(L, s.regions), x.addr);
    if L.mprotect {
      forall a | x.addr + L.header <= a < x.Pointer(L) ensures !Inaccessible(L, Guards(L, s.regions), a) {
        OverrunInside(L, s, b, i, a);
      }
    }
  }

  /** Old and new payload are apart, and both hold what is copied. */
  lemma ReallocApart(L: Layout, s: State, t: State, x: Block, y: Block, n: int)
    requires L.Valid() && Inv(L, t) && !L.mprotect
    requires x in LiveBlocks(s.regions) && y !in LiveBlocks(s.regions)
    requires LiveBlocks(t.regions) == LiveBlocks(s.regions) + {y}
    requires 0 <= n <= x.size && n <= y.request
    ensures y.Pointer(L) + n <= x.Pointer(L) || x.Pointer(L) + n <= y.Pointer(L)
    ensures forall a :: y.Pointer(L) <= a < y.Pointer(L) + n ==> InPayload(L, y, a)
    ensures forall a :: x.Pointer(L) <= a < x.Pointer(L) + n ==> InPayload(L, x, a)
  {
    assert x in LiveBlocks(t.regions) && y in LiveBlocks(t.regions);
    var b := LiveBlockHome(t, x);
    var c := LiveBlockHome(t, y);
    BlockFitted(L, t, b, x);
    BlockFitted(L, t, c, y);
    BlocksApart(L, t, b, x, c, y);
  }

  /** How many bytes vgc_realloc copies. With page protection it takes for the size of the old
      block what it reads at a wrong place. */
  function CopyLength(L: Layout, x: Block, stray: Header, size: nat): int {
    var oldSize := if L.mprotect then stray.size else x.size;
    if oldSize < size then oldSize else size
  }

  /** The copy of vgc_realloc is possible: always without page protection; with it, if what was
      taken for the size leads to no fault. */
  ghost predicate Copyable(L: Layout, t: State, ptr: int, memory: int, stray: Header, size: nat) {
    if L.mprotect then
      && stray.size >= 0
      && var n := if stray.size < size then stray.size else size;
      && Open(L, Guards(L, t.regions), ptr, ptr + n)
      && OwnRegion(L, t, memory, n) && Open(L, Guards(L, t.regions), memory, memory + n)
      && (memory + n <= ptr || ptr + n <= memory)
    else size <= SIZE_T - 8
  }

  lemma ReallocReady(L: Layout, s: State, t: State, x: Block, y: Block, stray: Header, size: nat)
    requires L.Valid() && Inv(L, t) && size < SIZE_T
    requires x in LiveBlocks(s.regions) && y !in LiveBlocks(s.regions)
    requires LiveBlocks(t.regions) == LiveBlocks(s.regions) + {y} && y.request == L.AlignRequest(size)
    requires Copyable(L, t, x.Pointer(L), y.Pointer(L), stray, size)
    ensures var n := CopyLength(L, x, stray, size);
            && 0 <= n
            && (y.Pointer(L) + n <= x.Pointer(L) || x.Pointer(L) + n <= y.Pointer(L))
            && Open(L, Guards(L, t.regions), x.Pointer(L), x.Pointer(L) + n)
            && Open(L, Guards(L, t.regions), y.Pointer(L), y.Pointer(L) + n)
            && (forall a :: y.Pointer(L) <= a < y.Pointer(L) + n ==>
                  NoField(L, t, a) && Outside(L, LiveBlocks(s.regions), a))
            && (!L.mprotect ==>
                  && (forall a :: y.Pointer(L) <= a < y.Pointer(L) + n ==> InPayload(L, y, a))
                  && (forall a :: x.Pointer(L) <= a < x.Pointer(L) + n ==> InPayload(L, x, a)))
  {
    hide RegionInv, LiveBlocks, NoField, Outside, Guards, Open;
    var n := CopyLength(L, x, stray, size);
    if L.mprotect {
      forall a | y.Pointer(L) <= a < y.Pointer(L) + n
        ensures NoField(L, t, a) && Outside(L, LiveBlocks(s.regions), a)
      {
        OwnOutside(L, s, t, y, n, a);
      }
    } else {
      L.AlignRequestGrows(size);
      LiveSize(L, t, x);
      ReallocApart(L, s, t, x, y, n);
      ReallocWritable(L, t, y, n);
      forall a | y.Pointer(L) <= a < y.Pointer(L) + n ensures Outside(L, LiveBlocks(s.regions), a) {
        NewPayloadOutside(L, s, t, y, a);
      }
    }
  }

  /** After the copy the old pointer can still be freed, and by the same test. */
  lemma AfterCopy(L: Layout, t: State, lo: int, n: nat, ptr: nat, stray: Header, junk: bool)
    requires L.Valid() && Inv(L, t) && ptr in LiveMap(L, t) && !Misled(L, t, ptr, Intact(stray))
    requires junk ==> Intact(stray)
    ensures var u := Overwritten(L, t, lo, n);
            && Inv(L, u) && Freeable(L, u, ptr) && u.regions == t.regions && u.order == t.order
            && !Misled(L, u, ptr, false) && !Misled(L, u, ptr, junk)
  {
    hide RegionInv, LiveMap;
    var u := Overwritten(L, t, lo, n);
    WrittenApart(L, t, u.written);
    LiveFreeable(L, t, ptr);
    OverwrittenNotMisled(L, t, lo, n, ptr, Intact(stray));
    assert forall b, i: nat :: LiveAt(L, u, ptr, b, i) <==> LiveAt(L, t, ptr, b, i);
  }

  lemma LiveSize(L: Layout, t: State, x: Block)
    requires L.Valid() && Inv(L, t) && x in LiveBlocks(t.regions)
    ensures x.size >= 0
  {
    var b := LiveBlockHome(t, x);
    InRegion(L, t, b, x);
  }

  lemma OutsideSubset(L: Layout, live: set<Block>, more: set<Block>, a: int)
    requires live <= more && Outside(L, more, a)
    ensures Outside(L, live, a)
  {
  }

  lemma PayloadNotOutside(L: Layout, live: set<Block>, x: Block, a: int)
    requires x in live && InPayload(L, x, a)
    ensures !Outside(L, live, a)
  {
  }

  lemma SamePointer(L: Layout, s: State, x: Block, y: Block)
    requires L.Valid() && Inv(L, s) && x in LiveBlocks(s.regions) && y in LiveBlocks(s.regions)
    requires x.Pointer(L) == y.Pointer(L)
    ensures x == y
  {
    if x != y { LiveRangesDisjoint(L, s, x, y); }
  }

  /** With page protection `vgc_realloc` looks for the size in the wrong place: the pointer
      was shifted, and it does not undo the shift. */
  lemma ReallocFindsHeader(L: Layout, x: Block)
    requires L.Valid()
    ensures x.Pointer(L) - L.header == x.addr <==> !L.mprotect
  {
    L.ShiftOf(x.request);
  }
}
