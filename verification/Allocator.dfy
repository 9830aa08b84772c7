/** The allocator as the source has it: `VGC_shared`, the memory it manages, and the
    functions that update both in place. Each method is proved to compute the corresponding
    value-level function of module States. */
module Allocators {
  import opened Arithmetic
  import opened Layouts
  import opened Blocks
  import opened States
  import opened LiveRanges
  import opened Runs
  import opened Memory
  import opened Checker
  import opened Representation
  import opened Leftovers
  import opened Callers

  class Allocator {
    const L: Layout
    var mmapBlockFirst: int
    var mmapBlockCount: int

    var mallocHeaders: map<int, Header>    // block headers in memory, current and stale, by address
    var mmapHeaders: map<int, MmapHeader>  // region headers in memory, by address
    var protNone: set<int>                 // addresses of the pages with PROT_NONE
    var bytes: map<int, int>               // the contents of memory

    ghost var s: State

    ghost predicate Valid()
      reads this
    {
      ValidButFirst() && mmapBlockFirst == OrderAt(s.order, 0)
    }

    /** Everything but the head pointer, which `vgc_malloc` sets after `mmapBlockAllocate`. */
    ghost predicate ValidButFirst()
      reads this
    {
      L.Valid() && Inv(L, s) && Represents(L, s, mallocHeaders, mmapHeaders, protNone, mmapBlockCount)
    }

    constructor (L: Layout)
      requires L.Valid()
      ensures Valid() && this.L == L && s == INITIAL
    {
      this.L := L;
      mmapBlockFirst, mmapBlockCount := NULL, 0;
      mallocHeaders, mmapHeaders, protNone, bytes := map[], map[], {}, map[];
      s := INITIAL;
    }

    // ----- memory -----

    function Byte(a: int): int
      reads this`bytes
    {
      if a in bytes then bytes[a] else 0
    }

    /** Writing a struct of n bytes at lo changes those bytes and no others. */
    method WriteStruct(lo: int, n: int)
      modifies this`bytes
      ensures forall a :: Byte(a) != old(Byte(a)) ==> lo <= a < lo + n
    {
      var written: map<int, int> := *;
      bytes := bytes + (map a | a in written && lo <= a < lo + n :: written[a]);
    }

    /** Reading a header where none may have been written. */
    function ReadAt(a: int, stray: Header): Header
      requires HeaderOpen(L, protNone, a)
      reads this`mallocHeaders, this`protNone
    {
      ReadHeader(mallocHeaders, stray, a)
    }

    /** Reading a field of a header, which must not lie in a protected page. */
    function LoadHeader(a: int): Header
      requires a in mallocHeaders && HeaderOpen(L, protNone, a)
      reads this`mallocHeaders, this`protNone
    {
      mallocHeaders[a]
    }

    function LoadMmapHeader(a: int): MmapHeader
      requires a in mmapHeaders && Open(L, protNone, a, a + L.mmapHeader)
      reads this`mmapHeaders, this`protNone
    {
      mmapHeaders[a]
    }

    /** The fields of the header are written, which must not lie in a protected page. */
    method StoreHeader(a: int, h: Header)
      requires HeaderOpen(L, protNone, a)
      modifies this`mallocHeaders, this`bytes
      ensures mallocHeaders == old(mallocHeaders)[a := h]
      ensures forall x :: Byte(x) != old(Byte(x)) ==> a + L.FieldOffset() <= x < a + L.header
    {
      mallocHeaders := mallocHeaders[a := h];
      WriteStruct(a + L.FieldOffset(), L.header - L.FieldOffset());
    }

    /** One byte of a caller's memory. */
    method Poke(a: int, value: int)
      modifies this`bytes
      ensures Byte(a) == value && forall x :: x != a ==> Byte(x) == old(Byte(x))
    {
      bytes := bytes[a := value];
    }

    method StoreMmapHeader(a: int, h: MmapHeader)
      requires Open(L, protNone, a, a + L.mmapHeader)
      modifies this`mmapHeaders, this`bytes
      ensures mmapHeaders == old(mmapHeaders)[a := h]
      ensures forall x :: Byte(x) != old(Byte(x)) ==> a <= x < a + L.mmapHeader
    {
      mmapHeaders := mmapHeaders[a := h];
      WriteStruct(a, L.mmapHeader);
    }

    /** VGC_mprotect: the first page of the header becomes inaccessible. */
    method VgcMprotect(header: int)
      modifies this`protNone
      ensures protNone == if L.mprotect then old(protNone) + {header} else old(protNone)
    {
      if L.mprotect {
        protNone := protNone + {header};
      }
    }

    method VgcMunprotect(header: int)
      modifies this`protNone
      ensures protNone == if L.mprotect then old(protNone) - {header} else old(protNone)
    {
      if L.mprotect {
        protNone := protNone - {header};
      }
    }

    // ----- checkMmapBlock -----

    /** The consistency check. On memory in any condition, as long as the walk stays among
        readable headers and is not led back to its start, it terminates, accepts exactly the
        well-formed lists, and reports totals that do not add up to a full-size region. */
    method CheckMmapBlock(mmapBlock: int, ghost heap: set<int>) returns (ok: bool, reported: bool)
      requires mmapBlock in mmapHeaders && mmapBlock + L.mmapHeader in heap
      requires ClosedUnderNext(mallocHeaders, heap) && NULL !in mallocHeaders
      requires Open(L, protNone, mmapBlock, mmapBlock + L.mmapHeader)
      requires forall a :: a in heap ==> HeaderOpen(L, protNone, a)
      requires forall ring :: !Ring(L, mallocHeaders, mmapBlock, mmapHeaders[mmapBlock].maxSize, ring)
      ensures ok <==> exists chain :: Accepted(L, mallocHeaders, mmapBlock, mmapHeaders[mmapBlock].maxSize, chain)
      ensures ok ==> exists chain: seq<int> ::
                && chain != [] && chain[0] == mmapBlock + L.mmapHeader
                && (forall i :: 0 <= i < |chain| ==>
                      && chain[i] in mallocHeaders
                      && mallocHeaders[chain[i]].size <= mmapHeaders[mmapBlock].maxSize
                      && mmapBlock <= chain[i] <= mmapBlock + L.regionSize)
                && (forall i, j :: 0 <= i < |chain| && 0 <= j < |chain| && j == i + 1 ==>
                      mallocHeaders[chain[i]].next == chain[j] && mallocHeaders[chain[j]].prev == chain[i])
                && mallocHeaders[chain[|chain| - 1]].next == NULL
      ensures forall path: seq<int> ::
                && path != [] && path[0] == mmapBlock + L.mmapHeader
                && (forall i :: 0 <= i < |path| ==> path[i] in mallocHeaders)
                && (forall i, j :: 0 <= i < |path| && 0 <= j < |path| && j == i + 1 ==>
                      mallocHeaders[path[i]].next == path[j] && mallocHeaders[path[j]].prev == path[i])
                && (var a := path[|path| - 1];
                    var next := mallocHeaders[a].next;
                    || mallocHeaders[a].size > mmapHeaders[mmapBlock].maxSize
                    || a < mmapBlock || a > mmapBlock + L.regionSize
                    || (next != NULL && next in mallocHeaders && mallocHeaders[next].prev != a))
                ==> !ok
      ensures forall chain :: Accepted(L, mallocHeaders, mmapBlock, mmapHeaders[mmapBlock].maxSize, chain) ==>
                (reported <==> L.regionSize - L.mmapHeader - L.header * |chain| != SizeSum(mallocHeaders, chain))
    {
      hide ClosedUnderNext, Accepted, SizeSum, Visited, AllPlausible, Ring;
      NextReachable(mallocHeaders, heap, mmapBlock + L.mmapHeader);
      EmptySum(mallocHeaders);
      WalkStarts(L, mallocHeaders, mmapBlock, mmapHeaders[mmapBlock].maxSize);
      var busySize, freeSize, headersSize := 0, 0, 0;
      var mallocBlock := mmapBlock + L.mmapHeader;
      ghost var seen, left := [], heap;
      ok, reported := true, false;
      while mallocBlock != NULL
        invariant mallocBlock in left && left <= heap
        invariant Visited(mallocHeaders, mmapBlock + L.mmapHeader, seen, mallocBlock)
        invariant forall i :: 0 <= i < |seen| ==> seen[i] in heap && seen[i] !in left
        invariant forall a :: a in heap && a !in left ==> a in seen
        invariant AllPlausible(L, mallocHeaders, mmapBlock, mmapHeaders[mmapBlock].maxSize, seen)
        invariant busySize + freeSize == SizeSum(mallocHeaders, seen)
        invariant headersSize == L.header * |seen|
        decreases left
      {
        NextReachable(mallocHeaders, heap, mallocBlock);
        SizeSumAppend(mallocHeaders, seen, mallocBlock);
        MultiplyStep(L.header, |seen|);
        headersSize := headersSize + L.header;
        if LoadHeader(mallocBlock).status == FREE {
          freeSize := freeSize + LoadHeader(mallocBlock).size;
        } else {
          busySize := busySize + LoadHeader(mallocBlock).size;
        }
        if LoadHeader(mallocBlock).size > LoadMmapHeader(mmapBlock).maxSize
           || mallocBlock < mmapBlock || mallocBlock > mmapBlock + L.regionSize {
          ok := false;
          Rejected(L, mallocHeaders, mmapBlock, mmapHeaders[mmapBlock].maxSize, seen, mallocBlock);
          break;
        }
        var next := LoadHeader(mallocBlock).next;
        if next == NULL {
          AcceptedOnly(L, mallocHeaders, mmapBlock, mmapHeaders[mmapBlock].maxSize, seen, mallocBlock);
          reported := L.regionSize - L.mmapHeader - headersSize != busySize + freeSize;
          break;
        }
        if mallocBlock != LoadHeader(next).prev {
          ok := false;
          Rejected(L, mallocHeaders, mmapBlock, mmapHeaders[mmapBlock].maxSize, seen, mallocBlock);
          break;
        }
        WalkAdvances(L, mallocHeaders, mmapBlock, mmapHeaders[mmapBlock].maxSize, seen, mallocBlock);
        seen, left := seen + [mallocBlock], left - {mallocBlock};
        mallocBlock := next;
      }
      AcceptedMeans(L, mallocHeaders, mmapBlock, mmapHeaders[mmapBlock].maxSize);
    }

    /** The check of a region in which all is as it should be. */
    method CheckSound(mmapBlock: int, ghost bs: seq<Block>) returns (ok: bool)
      requires mmapBlock in mmapHeaders && mmapBlock + L.mmapHeader in HeaderAddresses(bs)
      requires ClosedUnderNext(mallocHeaders, HeaderAddresses(bs)) && NULL !in mallocHeaders
      requires Open(L, protNone, mmapBlock, mmapBlock + L.mmapHeader)
      requires forall a :: a in HeaderAddresses(bs) ==> HeaderOpen(L, protNone, a)
      requires forall ring :: !Ring(L, mallocHeaders, mmapBlock, mmapHeaders[mmapBlock].maxSize, ring)
      requires Accepted(L, mallocHeaders, mmapBlock, mmapHeaders[mmapBlock].maxSize, Addresses(bs))
      ensures ok
    {
      hide *;
      var reported;
      ok, reported := CheckMmapBlock(mmapBlock, HeaderAddresses(bs));
    }

    // ----- allocMallocBlock -----

    /** The search loop: the first free block of the region that is large enough. */
    method FindBlock(mmapBlock: int, length: nat) returns (mallocBlock: int)
      requires ValidButFirst() && mmapBlock in s.regions
      ensures var bs := s.regions[mmapBlock].blocks;
              mallocBlock == AddrAt(bs, FirstFit(bs, length))
    {
      hide Inv, RegionsIn, Guards, Open, HeaderOpen;
      ghost var bs := s.regions[mmapBlock].blocks;
      RegionFacts(L, s, mmapBlock);
      StructuresOpen(L, s, mmapBlock);
      mallocBlock := mmapBlock + L.mmapHeader;
      ghost var k := 0;
      while mallocBlock != NULL
        invariant k <= |bs| && mallocBlock == AddrAt(bs, k)
        invariant forall j :: 0 <= j < k ==> !(bs[j].Free() && bs[j].size >= length)
        decreases |bs| - k
      {
        HeaderAt(mallocHeaders, mmapBlock, bs, k);
        if LoadHeader(mallocBlock).status == FREE && LoadHeader(mallocBlock).size >= length {
          break;
        }
        mallocBlock := LoadHeader(mallocBlock).next;
        k := k + 1;
      }
      if k < |bs| { BlockFitted(L, s, mmapBlock, bs[k]); }
      FirstFitUnique(bs, length, k);
    }

    /** The remainder of a block that is larger than needed becomes a free block of its own. */
    method SplitOff(mmapBlock: int, mallocBlock: int, wanted: nat, ghost bs: seq<Block>, ghost k: nat)
      returns (next: int, length: nat)
      requires k < |bs| && mallocBlock == bs[k].addr && bs[k].size >= 0
      requires ListIn(mallocHeaders, mmapBlock, bs)
      requires HeaderOpen(L, protNone, mallocBlock)
      requires var m := Carve(L, bs[k], wanted); |m| == 2 ==> HeaderOpen(L, protNone, m[1].addr)
      modifies this`mallocHeaders, this`protNone, this`bytes
      ensures var m := Carve(L, bs[k], wanted);
              && length == m[0].size
              && next == (if |m| == 2 then m[1].addr else AddrAt(bs, k + 1))
              && mallocHeaders == (if |m| == 2 then old(mallocHeaders)[next := RestHeader(L, mmapBlock, bs, k, wanted)]
                                   else old(mallocHeaders))
              && protNone == old(protNone) + (if L.mprotect && |m| == 2 then {m[1].addr} else {})
              && forall x :: Byte(x) != old(Byte(x)) ==> |m| == 2 && m[1].addr <= x < m[1].addr + L.header
    {
      HeaderAt(mallocHeaders, mmapBlock, bs, k);
      length := L.Round(wanted);
      next := LoadHeader(mallocBlock).next;
      var blockSize := length + L.header;
      if LoadHeader(mallocBlock).size > blockSize {
        next := mallocBlock + blockSize;
        StoreHeader(next, Header(CHECK, LoadHeader(mallocBlock).size - blockSize, FREE, mmapBlock, mallocBlock,
                                 LoadHeader(mallocBlock).next, CHECK));
        VgcMprotect(next);
      } else {
        length := LoadHeader(mallocBlock).size;
      }
    }

    /** The block becomes busy, and its successor's successor points back at its successor. */
    method MarkTaken(mmapBlock: int, mallocBlock: int, length: int, next: int)
      requires mallocBlock in mallocHeaders && mallocBlock != next
      requires next != NULL ==> next in mallocHeaders
      requires next != NULL && mallocHeaders[next].next != NULL ==> mallocHeaders[next].next in mallocHeaders
      requires next != NULL && mallocHeaders[next].next != NULL ==> mallocHeaders[next].next != mallocBlock
      requires HeaderOpen(L, protNone, mallocBlock) && (next != NULL ==> HeaderOpen(L, protNone, next))
      requires next != NULL && mallocHeaders[next].next != NULL ==> HeaderOpen(L, protNone, mallocHeaders[next].next)
      modifies this`mallocHeaders, this`bytes
      ensures var mem := old(mallocHeaders);
              var taken := mem[mallocBlock := mem[mallocBlock].(checkStart := CHECK, size := length, status := BUSY,
                                                                mmapBlock := mmapBlock,
                                                                next := next, checkEnd := CHECK)];
              mallocHeaders == if next != NULL && mem[next].next != NULL
                               then taken[mem[next].next := taken[mem[next].next].(prev := next)] else taken
      ensures forall x :: Byte(x) != old(Byte(x)) ==>
                || mallocBlock <= x < mallocBlock + L.header
                || (next != NULL && old(mallocHeaders)[next].next != NULL
                    && old(mallocHeaders)[next].next <= x < old(mallocHeaders)[next].next + L.header)
    {
      StoreHeader(mallocBlock, mallocHeaders[mallocBlock].(checkStart := CHECK, size := length, status := BUSY,
                                                           mmapBlock := mmapBlock, next := next, checkEnd := CHECK));
      if next != NULL && LoadHeader(next).next != NULL {
        var second := LoadHeader(next).next;
        StoreHeader(second, mallocHeaders[second].(prev := next));
      }
    }

    /** The bookkeeping after the search: split the block, or take it whole. */
    method StoreCarved(mmapBlock: int, mallocBlock: int, wanted: nat, ghost bs: seq<Block>, ghost k: nat,
                       ghost lo: int, ghost hi: int)
      requires L.Valid() && Tiles(L, bs, lo, hi) && 0 < lo && k < |bs|
      requires ListIn(mallocHeaders, mmapBlock, bs) && mallocBlock == bs[k].addr
      requires mmapBlock in mmapHeaders
      requires var m := Carve(L, bs[k], wanted);
               var guards := protNone + if L.mprotect && |m| == 2 then {m[1].addr} else {};
               && ListOpen(L, guards, bs) && (|m| == 2 ==> HeaderOpen(L, guards, m[1].addr))
               && Open(L, guards, mmapBlock, mmapBlock + L.mmapHeader)
      modifies this`mallocHeaders, this`mmapHeaders, this`protNone, this`bytes
      ensures mallocHeaders == CarvedStores(L, old(mallocHeaders), mmapBlock, bs, k, wanted)
      ensures var h := old(mmapHeaders)[mmapBlock];
              mmapHeaders == old(mmapHeaders)[mmapBlock := h.(elements := h.elements + 1)]
      ensures var m := Carve(L, bs[k], wanted);
              && protNone == old(protNone) + (if L.mprotect && |m| == 2 then {m[1].addr} else {})
              && forall x :: Byte(x) != old(Byte(x)) ==>
                    || mmapBlock <= x < mmapBlock + L.mmapHeader
                    || (|m| == 2 && m[1].addr <= x < m[1].addr + L.header)
                    || InHeaders(L, bs, x)
    {
      hide Tiles, Carve, Open, HeaderOpen;
      ghost var m := Carve(L, bs[k], wanted);
      ghost var guards := protNone + if L.mprotect && |m| == 2 then {m[1].addr} else {};
      ListStaysOpen(L, guards, bs, protNone, bs);
      if |m| == 2 { HeaderStaysOpen(L, guards, protNone, m[1].addr); }
      CarveIs(L, bs[k], wanted);
      AddressesDiffer(L, bs, lo, hi, k);
      AddressesDiffer(L, bs, lo, hi, k + 1);
      HeaderAt(mallocHeaders, mmapBlock, bs, k);
      if k + 1 < |bs| { HeaderAt(mallocHeaders, mmapBlock, bs, k + 1); }
      if k + 2 < |bs| { HeaderAt(mallocHeaders, mmapBlock, bs, k + 2); }
      if |m| == 2 { RemainderIsNew(L, bs, lo, hi, k, wanted); }
      BlockSizes(L, bs, lo, hi, k);

      var next, length := SplitOff(mmapBlock, mallocBlock, wanted, bs, k);
      StoreMmapHeader(mmapBlock, mmapHeaders[mmapBlock].(elements := LoadMmapHeader(mmapBlock).elements + 1));
      MarkTaken(mmapBlock, mallocBlock, length, next);
    }

    /** A block taken, and the pointer to it. */
    method CarveBlock(mmapBlock: int, mallocBlock: int, wanted: nat, ghost bs: seq<Block>, ghost k: nat,
                      ghost lo: int, ghost hi: int) returns (memory: int)
      requires L.Valid() && Tiles(L, bs, lo, hi) && 0 < lo && k < |bs| && bs[k].Free()
      requires ListIn(mallocHeaders, mmapBlock, bs) && mallocBlock == bs[k].addr
      requires mmapBlock in mmapHeaders
      requires var m := Carve(L, bs[k], wanted);
               var guards := protNone + if L.mprotect && |m| == 2 then {m[1].addr} else {};
               && ListOpen(L, guards, bs) && (|m| == 2 ==> HeaderOpen(L, guards, m[1].addr))
               && Open(L, guards, mmapBlock, mmapBlock + L.mmapHeader)
      modifies this`mallocHeaders, this`mmapHeaders, this`protNone, this`bytes
      ensures ListIn(mallocHeaders, mmapBlock, Allocate(L, bs, k, wanted))
      ensures var h := old(mmapHeaders)[mmapBlock];
              mmapHeaders == old(mmapHeaders)[mmapBlock := h.(elements := h.elements + 1)]
      ensures var m := Carve(L, bs[k], wanted);
              && memory == m[0].Pointer(L)
              && protNone == old(protNone) + (if L.mprotect && |m| == 2 then {m[1].addr} else {})
              && (NULL !in old(mallocHeaders) ==> NULL !in mallocHeaders)
              && mallocHeaders.Keys == old(mallocHeaders).Keys + SplitAt(L, bs[k], wanted)
              && (forall a :: a in old(mallocHeaders) && !HeadedAt(bs, a) && (|m| == 2 ==> a != m[1].addr) ==>
                    a in mallocHeaders && mallocHeaders[a] == old(mallocHeaders)[a])
              && forall x :: Byte(x) != old(Byte(x)) ==>
                    || mmapBlock <= x < mmapBlock + L.mmapHeader
                    || (|m| == 2 && m[1].addr <= x < m[1].addr + L.header)
                    || InHeaders(L, bs, x)
    {
      hide Tiles, Carve, Allocate, Block.Pointer, Open, HeaderOpen, ListOpen, CarvedStores, ListIn, InHeaders;
      ghost var mem := mallocHeaders;
      CarveIs(L, bs[k], wanted);
      AddressesDiffer(L, bs, lo, hi, k);
      AddressesDiffer(L, bs, lo, hi, k + 1);
      if |Carve(L, bs[k], wanted)| == 2 { RemainderIsNew(L, bs, lo, hi, k, wanted); }
      CarvedMemory(L, mem, mmapBlock, bs, k, wanted);
      CarvedFrame(L, mem, mmapBlock, bs, k, wanted);
      StoreCarved(mmapBlock, mallocBlock, wanted, bs, k, lo, hi);
      memory := mallocBlock + L.header;
      if L.mprotect {
        memory := memory + (L.Page() - ToSize(ToInt(wanted)) % L.Page());
      }
    }

    /** Take block k of a region for a request: the memory and the abstract state move together. */
    method TakeBlock(mmapBlock: int, mallocBlock: int, length: nat, ghost k: nat) returns (memory: int)
      requires ValidButFirst() && mmapBlock in s.regions && (L.mprotect ==> length > 0)
      requires k == FirstFit(s.regions[mmapBlock].blocks, length) < |s.regions[mmapBlock].blocks|
      requires mallocBlock == s.regions[mmapBlock].blocks[k].addr
      modifies this`mallocHeaders, this`mmapHeaders, this`protNone, this`bytes, this`s
      ensures ValidButFirst()
      ensures (s, memory) == AllocateAt(L, old(s), mmapBlock, length)
      ensures OldKept(s, old(mallocHeaders), mallocHeaders)
      ensures forall x :: Byte(x) != old(Byte(x)) ==> Outside(L, LiveBlocks(old(s).regions), x)
    {
      hide Inv, RegionInv, Tiles, Carve, Allocate, Guards, Represents, Holds, Open, ListOpen, HeaderOpen, ListIn;
      ghost var r := s.regions[mmapBlock];
      FirstFitEarliest(r.blocks, length);
      RegionFacts(L, s, mmapBlock);
      TakeStart(L, s, mallocHeaders, mmapHeaders, protNone, mmapBlockCount, mmapBlock);
      AllocateAtInv(L, s, mmapBlock, length);
      CarvedInside(L, s, mmapBlock, k, length);
      AllocationOpen(L, s, mmapBlock, k, length);
      memory := CarveBlock(mmapBlock, mallocBlock, length, r.blocks, k, mmapBlock + L.mmapHeader, mmapBlock + r.size);
      TakenRepresents(L, s, old(mallocHeaders), mallocHeaders, old(mmapHeaders), old(protNone), mmapBlockCount,
                      mmapBlock, k, length);
      forall x | Byte(x) != old(Byte(x)) ensures Outside(L, LiveBlocks(s.regions), x) {
        if !(mmapBlock <= x < mmapBlock + L.mmapHeader) { CarvedHeadersKept(L, r.blocks, k, length, x); }
        AllocationOutside(L, s, mmapBlock, length, x);
      }
      OldKeptTaken(L, s, old(mallocHeaders), mallocHeaders, mmapBlock, k, length);
      s := AllocateAt(L, s, mmapBlock, length).0;
    }

    /** Serve a request from one region, if a block of it fits. */
    method AllocMallocBlock(mmapBlock: int, length: nat) returns (memory: int)
      requires ValidButFirst() && mmapBlock in s.regions && (L.mprotect ==> length > 0)
      modifies this`mallocHeaders, this`mmapHeaders, this`protNone, this`bytes, this`s
      ensures ValidButFirst()
      ensures (s, memory) == AllocateAt(L, old(s), mmapBlock, length)
      ensures memory == NULL <==> !Fits(old(s).regions[mmapBlock], length)
      ensures s.order == old(s.order)
      ensures memory == NULL ==>
                && s == old(s) && mmapHeaders == old(mmapHeaders) && protNone == old(protNone)
                && bytes == old(bytes) && mallocHeaders == old(mallocHeaders)
      ensures OldKept(s, old(mallocHeaders), mallocHeaders)
      ensures forall x :: Byte(x) != old(Byte(x)) ==> Outside(L, LiveBlocks(old(s).regions), x)
    {
      hide Inv, RegionInv, Tiles, Guards, RegionsIn, Holds, Accepted, ListsIn, Outside, LiveBlocks, Open,
        HeaderOpen, Ring, ClosedUnderNext, HeaderAddresses;
      var mallocBlock := FindBlock(mmapBlock, length);
      ghost var k := FirstFit(s.regions[mmapBlock].blocks, length);
      FirstFitEarliest(s.regions[mmapBlock].blocks, length);
      RegionFacts(L, s, mmapBlock);
      if mallocBlock == NULL {
        return 0;
      }
      RegionCheckable(L, s, mallocHeaders, mmapHeaders, mmapBlock);
      RegionReadable(L, s, mmapBlock);
      var ok := CheckSound(mmapBlock, s.regions[mmapBlock].blocks);
      if !ok {
        assert false;  // a corrupted list, on which the source returns 0, is not a valid state
      }
      AllocateAtPositive(L, s, mmapBlock, length);
      memory := TakeBlock(mmapBlock, mallocBlock, length, k);
    }

    // ----- vgc_malloc -----

    /** A mapped region appended to the list, with one free block that takes all of it. */
    method InitMMAP(b: int, size: nat, mmapLastBlock: int)
      requires ValidButFirst() && (size == L.regionSize || size == L.FallbackSize())
      requires Mappable(L, s, b, size) && mmapLastBlock == OrderAt(s.order, |s.order| - 1)
      modifies this`mmapBlockCount, this`mallocHeaders, this`mmapHeaders, this`protNone, this`bytes, this`s
      ensures ValidButFirst() && s == Enlist(L, old(s), b, size)
      ensures OldKept(s, old(mallocHeaders), mallocHeaders)
      ensures forall x :: Byte(x) != old(Byte(x)) ==> Outside(L, LiveBlocks(old(s).regions), x)
    {
      hide Inv, Represents, Mappable, Layout.Valid, Outside, LiveBlocks, Open, OldKept, Headed;
      EnlistedRepresents(L, s, mallocHeaders, mmapHeaders, protNone, mmapBlockCount, b, size);
      Protected(L, s, mallocHeaders, mmapHeaders, protNone, mmapBlockCount);
      InitOpen(L, s, b, size);
      WriteStruct(b, size);
      StoreMmapHeader(b, MmapHeader(CHECK, size, L.MaxSize(size), 0, mmapLastBlock, NULL, CHECK));
      if mmapLastBlock != NULL {
        StoreMmapHeader(mmapLastBlock, mmapHeaders[mmapLastBlock].(next := b));
      }
      var mallocBlock := b + L.mmapHeader;
      StoreHeader(mallocBlock, Header(CHECK, L.MaxSize(size), FREE, b, NULL, NULL, CHECK));
      VgcMprotect(mallocBlock);
      mmapBlockCount := mmapBlockCount + 1;
      forall x | Byte(x) != old(Byte(x)) ensures Outside(L, LiveBlocks(s.regions), x) {
        EnlistOutside(L, s, b, size, x);
      }
      NewBase(L, s, b, size);
      EnlistKept(L, s, b, size, old(mallocHeaders), mallocHeaders[mallocBlock]);
      s := Enlist(L, s, b, size);
    }

    /** mmap, then set the region up. */
    method AllocMMAP(size: nat, mmapLastBlock: int, reply: Option<int>) returns (mmapBlock: Option<int>)
      requires ValidButFirst() && (size == L.regionSize || size == L.FallbackSize())
      requires reply.Some? ==> Mappable(L, s, reply.value, size)
      requires mmapLastBlock == OrderAt(s.order, |s.order| - 1)
      modifies this`mmapBlockCount, this`mallocHeaders, this`mmapHeaders, this`protNone, this`bytes, this`s
      ensures ValidButFirst() && mmapBlock == reply
      ensures s == if reply.Some? then Enlist(L, old(s), reply.value, size) else old(s)
      ensures reply.None? ==> mallocHeaders == old(mallocHeaders)
      ensures OldKept(s, old(mallocHeaders), mallocHeaders)
      ensures forall x :: Byte(x) != old(Byte(x)) ==> Outside(L, LiveBlocks(old(s).regions), x)
    {
      if reply.Some? {
        InitMMAP(reply.value, size, mmapLastBlock);
      }
      mmapBlock := reply;
    }

    /** The full size first; if that is refused, a tenth of it. */
    method MmapBlockAllocate(mmapLastBlock: int, k: Kernel) returns (mmapBlock: Option<int>)
      requires ValidButFirst() && KernelOk(L, s, k)
      requires mmapLastBlock == OrderAt(s.order, |s.order| - 1)
      modifies this`mmapBlockCount, this`mallocHeaders, this`mmapHeaders, this`protNone, this`bytes, this`s
      ensures ValidButFirst() && (s, mmapBlock) == MapRegion(L, old(s), k)
      ensures mmapBlock == if k.full != None then k.full else k.fallback
      ensures mmapBlock != None ==>
                && mmapBlock.value in s.regions
                && var size := s.regions[mmapBlock.value].size;
                   if k.full != None then size == L.regionSize else 10 * size <= L.regionSize < 10 * size + 10
      ensures LiveBlocks(s.regions) == LiveBlocks(old(s).regions)
      ensures OldKept(s, old(mallocHeaders), mallocHeaders)
      ensures forall x :: Byte(x) != old(Byte(x)) ==> Outside(L, LiveBlocks(old(s).regions), x)
    {
      hide Inv, Represents, Outside, LiveBlocks;
      MapRegionInv(L, s, k);
      mmapBlock := AllocMMAP(L.regionSize, mmapLastBlock, k.full);
      if mmapBlock.None? {
        mmapBlock := AllocMMAP(L.FallbackSize(), mmapLastBlock, k.fallback);
      }
    }

    /** Ask the listed regions in turn. */
    method SearchRegions(n: nat) returns (memory: int, mmapBlockLast: int, ghost j: nat)
      requires Valid() && s.order != [] && (L.mprotect ==> n > 0)
      modifies this`mallocHeaders, this`mmapHeaders, this`protNone, this`bytes, this`s
      ensures Valid()
      ensures j <= |old(s).order| && mmapBlockLast == OrderAt(old(s).order, j - 1)
      ensures forall i :: 0 <= i < j ==> old(s).order[i] in old(s).regions && !Fits(old(s).regions[old(s).order[i]], n)
      ensures memory == NULL ==> mallocHeaders == old(mallocHeaders)
      ensures if memory == NULL then s == old(s) && j == |s.order|
              else
                && j < |old(s).order| && old(s).order[j] in old(s).regions
                && FirstRegion(old(s).regions, old(s).order, n) == j
                && (s, memory) == AllocateAt(L, old(s), old(s).order[j], n)
      ensures OldKept(s, old(mallocHeaders), mallocHeaders)
      ensures forall x :: Byte(x) != old(Byte(x)) ==> Outside(L, LiveBlocks(old(s).regions), x)
    {
      hide Inv, Represents, Outside, LiveBlocks, FirstRegion, Fits, AllocateAt, Layout.Valid, Open;
      var mmapBlock := mmapBlockFirst;
      mmapBlockLast := NULL;
      memory := 0;
      j := 0;
      while mmapBlock != NULL
        invariant Valid() && s == old(s) && memory == NULL && mallocHeaders == old(mallocHeaders)
        invariant j <= |s.order| && mmapBlock == OrderAt(s.order, j) && mmapBlockLast == OrderAt(s.order, j - 1)
        invariant forall i :: 0 <= i < j ==> s.order[i] in s.regions && !Fits(s.regions[s.order[i]], n)
        invariant forall x :: Byte(x) != old(Byte(x)) ==> Outside(L, LiveBlocks(old(s).regions), x)
        decreases |s.order| - j
      {
        ListedHeader(L, s, mmapHeaders, mallocHeaders, protNone, mmapBlockCount, j);
        memory := AllocMallocBlock(mmapBlock, n);
        if memory != NULL {
          FoundIn(L, old(s), n, j);
          return;
        }
        mmapBlockLast := mmapBlock;
        mmapBlock := LoadMmapHeader(mmapBlock).next;
        j := j + 1;
      }
      ListEnds(L, s, j);
    }

    /** There was no more space: map a region and take the memory from it. */
    method ServeFromNew(mmapBlockLast: int, n: nat, k: Kernel) returns (memory: int)
      requires Valid() && KernelOk(L, s, k) && s.order != [] && (L.mprotect ==> n > 0)
      requires mmapBlockLast == OrderAt(s.order, |s.order| - 1)
      requires MapRegion(L, s, k).1.Some? ==> MapRegion(L, s, k).1.value in MapRegion(L, s, k).0.regions
      modifies this`mmapBlockCount, this`mallocHeaders, this`mmapHeaders, this`protNone, this`bytes, this`s
      ensures Valid()
      ensures var (s1, b) := MapRegion(L, old(s), k);
              (s, memory) == if b.Some? then AllocateAt(L, s1, b.value, n) else (s1, 0)
      ensures OldKept(s, old(mallocHeaders), mallocHeaders)
      ensures forall x :: Byte(x) != old(Byte(x)) ==> Outside(L, LiveBlocks(old(s).regions), x)
    {
      hide Inv, Represents, KernelOk, Outside, LiveBlocks, Fits, AllocateAt, Layout.Valid, OldKept, Headed;
      memory := 0;
      var next := MmapBlockAllocate(mmapBlockLast, k);
      ghost var s1, mem1 := s, mallocHeaders;
      if next.Some? {
        HeadedTaken(L, s, next.value, n);
        memory := AllocMallocBlock(next.value, n);
        OldKeptCompose(s1, s, old(mallocHeaders), mem1, mallocHeaders);
      }
    }

    /** The first region, mapped if there is none. */
    method EnsureFirst(k: Kernel) returns (found: bool)
      requires Valid() && KernelOk(L, s, k)
      modifies this
      ensures ValidButFirst() && s == WithFirst(L, old(s), k)
      ensures found <==> HasFirst(old(s), k)
      ensures mmapBlockFirst == if found then OrderAt(s.order, 0) else MAP_FAILED
      ensures old(s).order != [] ==> mallocHeaders == old(mallocHeaders)
      ensures OldKept(s, old(mallocHeaders), mallocHeaders)
      ensures forall x :: Byte(x) != old(Byte(x)) ==> Outside(L, LiveBlocks(old(s).regions), x)
    {
      hide Inv, Represents, KernelOk, Outside, LiveBlocks, Layout.Valid, OldKept, Headed, Malloc;
      NothingTouched(s, mallocHeaders);
      MallocFacts(L, s, 0, k);
      if mmapBlockFirst == NULL {
        var mapped := MmapBlockAllocate(NULL, k);
        mmapBlockFirst := if mapped.Some? then mapped.value else MAP_FAILED;
      }
      found := mmapBlockFirst != MAP_FAILED;
    }

    /** `vgc_malloc`: walks the listed regions in order, takes the first that serves the request, and
        maps a new region behind the last one when none does. If there is no list and no region to
        be had, the failure value is left as the list head. */
    method VgcMalloc(size: nat, k: Kernel) returns (memory: int)
      requires Valid() && size < SIZE_T && KernelOk(L, s, k)
      modifies this
      ensures ValidButFirst() && (s, memory) == Malloc(L, old(s), size, k)
      ensures if s.order != [] then mmapBlockFirst == s.order[0]
              else k.full == None && k.fallback == None && mmapBlockFirst == MAP_FAILED
      ensures mmapBlockFirst == if HasFirst(old(s), k) then OrderAt(s.order, 0) else MAP_FAILED
      ensures OldKept(s, old(mallocHeaders), mallocHeaders)
      ensures forall x :: Byte(x) != old(Byte(x)) ==> Outside(L, LiveBlocks(old(s).regions), x)
    {
      hide Inv, Represents, KernelOk, Outside, LiveBlocks, FirstRegion, Fits, AllocateAt, Layout.Valid, Open,
        OldKept, Headed;
      MallocFacts(L, s, size, k);
      var found := EnsureFirst(k);
      if !found {
        return 0;
      }
      ghost var s0, mem0 := s, mallocHeaders;
      HeadHeader(L, s, mmapHeaders, mallocHeaders, protNone, mmapBlockCount);
      if size == 0 {
        return 0;
      }
      var n := size;
      if !L.mprotect {
        n := (n + if n % 8 == 0 then 0 else 8 - n % 8) % SIZE_T;
      }
      if n >= LoadMmapHeader(mmapBlockFirst).maxSize {
        return 0;
      }

      var mmapBlockLast; ghost var j;
      memory, mmapBlockLast, j := SearchRegions(n);
      if memory != NULL {
        HeadedTaken(L, s0, s0.order[j], n);
        OldKeptCompose(s0, s, old(mallocHeaders), mem0, mallocHeaders);
        return;
      }
      FoundNowhere(L, old(s), size, k, s0, j);
      memory := ServeFromNew(mmapBlockLast, n, k);
    }

    // ----- vgc_free -----

    /** isInMmapBlock */
    method IsInMmapBlock(ptr: int) returns (found: bool)
      requires Valid()
      ensures found <==> InWindow(L, s, ptr)
      ensures found <==> exists b :: b in s.order && b < ptr < b + L.regionSize
    {
      hide Inv, Represents, Layout.Valid, Open;
      var mmapBlock := mmapBlockFirst;
      ghost var j := 0;
      while mmapBlock != NULL
        invariant j <= |s.order| && mmapBlock == OrderAt(s.order, j)
        invariant forall i :: 0 <= i < j ==> !(s.order[i] < ptr < s.order[i] + L.regionSize)
        decreases |s.order| - j
      {
        ListedHeader(L, s, mmapHeaders, mallocHeaders, protNone, mmapBlockCount, j);
        if ptr > mmapBlock && ptr < mmapBlock + L.regionSize {
          assert s.order[j] in s.order;
          return true;
        }
        mmapBlock := LoadMmapHeader(mmapBlock).next;
        j := j + 1;
      }
      ListEnds(L, s, j);
      return false;
    }

    /** Absorb the next block if it is free. */
    method FreeBlocksNext(mallocBlock: int, ghost base: int, ghost bs: seq<Block>, ghost i: nat, ghost lo: int,
                          ghost hi: int)
      requires L.header > 0 && Tiles(L, bs, lo, hi) && 0 < lo && i < |bs|
      requires ListIn(mallocHeaders, base, bs) && mallocBlock == bs[i].addr
      requires ListOpen(L, protNone, bs)
      modifies this`mallocHeaders, this`protNone, this`bytes
      ensures ListIn(mallocHeaders, base, MergeNext(L, bs, i)) && Tiles(L, MergeNext(L, bs, i), lo, hi)
      ensures protNone ==
              old(protNone) - if L.mprotect && i + 1 < |bs| && bs[i + 1].Free() then {bs[i + 1].addr} else {}
      ensures OnlyHeaders(old(mallocHeaders), mallocHeaders, bs)
      ensures SameMarks(old(mallocHeaders), mallocHeaders)
      ensures forall x :: Byte(x) != old(Byte(x)) ==> InHeaders(L, bs, x)
    {
      hide Tiles, Open, HeaderOpen;
      HeaderAt(mallocHeaders, base, bs, i);
      var nextBlock := LoadHeader(mallocBlock).next;
      AddressesDiffer(L, bs, lo, hi, i);
      if i + 1 < |bs| {
        HeaderAt(mallocHeaders, base, bs, i + 1);
        MergedFrame(L, mallocHeaders, base, bs, lo, hi, i);
      }
      if i + 2 < |bs| { HeaderAt(mallocHeaders, base, bs, i + 2); }
      if nextBlock != NULL && LoadHeader(nextBlock).status == FREE {
        VgcMunprotect(nextBlock);
        ListStaysOpen(L, old(protNone), bs, protNone, bs);
        StoreHeader(mallocBlock, mallocHeaders[mallocBlock].(
          size := LoadHeader(mallocBlock).size + (LoadHeader(nextBlock).size + L.header),
          next := LoadHeader(nextBlock).next));
        if LoadHeader(nextBlock).next != NULL {
          var second := LoadHeader(nextBlock).next;
          StoreHeader(second, mallocHeaders[second].(prev := mallocBlock));
        }
        assert mallocHeaders == AbsorbedStores(L, old(mallocHeaders), base, bs, i);
      }
    }

    /** Let the previous block, if it is free, absorb this one. */
    method FreeBlocksPrev(mallocBlock: int, ghost base: int, ghost bs: seq<Block>, ghost i: nat, ghost lo: int,
                          ghost hi: int)
      requires L.header > 0 && Tiles(L, bs, lo, hi) && 0 < lo && i < |bs|
      requires ListIn(mallocHeaders, base, bs) && mallocBlock == bs[i].addr
      requires ListOpen(L, protNone, bs)
      modifies this`mallocHeaders, this`protNone, this`bytes
      ensures ListIn(mallocHeaders, base, MergePrev(L, bs, i)) && Tiles(L, MergePrev(L, bs, i), lo, hi)
      ensures protNone == old(protNone) - if L.mprotect && 0 < i && bs[i - 1].Free() then {bs[i].addr} else {}
      ensures OnlyHeaders(old(mallocHeaders), mallocHeaders, bs)
      ensures SameMarks(old(mallocHeaders), mallocHeaders)
      ensures forall x :: Byte(x) != old(Byte(x)) ==> InHeaders(L, bs, x)
    {
      hide Tiles, Open, HeaderOpen;
      HeaderAt(mallocHeaders, base, bs, i);
      var prevBlock := LoadHeader(mallocBlock).prev;
      AddressesDiffer(L, bs, lo, hi, i);
      if 0 < i {
        HeaderAt(mallocHeaders, base, bs, i - 1);
        MergedFrame(L, mallocHeaders, base, bs, lo, hi, i - 1);
      }
      if i + 1 < |bs| { HeaderAt(mallocHeaders, base, bs, i + 1); }
      if prevBlock != NULL && LoadHeader(prevBlock).status == FREE {
        VgcMunprotect(mallocBlock);
        ListStaysOpen(L, old(protNone), bs, protNone, bs);
        StoreHeader(prevBlock, mallocHeaders[prevBlock].(
          size := LoadHeader(prevBlock).size + (LoadHeader(mallocBlock).size + L.header),
          next := LoadHeader(mallocBlock).next));
        if LoadHeader(prevBlock).next != NULL {
          var second := LoadHeader(prevBlock).next;
          StoreHeader(second, mallocHeaders[second].(prev := prevBlock));
        }
        assert mallocHeaders == AbsorbedStores(L, old(mallocHeaders), base, bs, i - 1);
      }
    }

    /** Mark a block free, take its guard down and merge it with its free neighbours. */
    method ReleaseBlock(mallocBlock: int, ghost base: int, ghost bs: seq<Block>, ghost i: nat, ghost lo: int,
                        ghost hi: int)
      requires L.header > 0 && Tiles(L, bs, lo, hi) && 0 < lo && i < |bs|
      requires ListIn(mallocHeaders, base, bs) && mallocBlock == bs[i].addr
      requires ListOpen(L, protNone, bs)
      modifies this`mallocHeaders, this`protNone, this`bytes
      ensures ListIn(mallocHeaders, base, Release(L, bs, i))
      ensures protNone == if L.mprotect
                          then
                            old(protNone) - {bs[i].addr}
                            - if i + 1 < |bs| && bs[i + 1].Free() then {bs[i + 1].addr} else {}
                          else old(protNone)
      ensures OnlyHeaders(old(mallocHeaders), mallocHeaders, bs)
      ensures SameMarks(old(mallocHeaders), mallocHeaders)
      ensures forall x :: Byte(x) != old(Byte(x)) ==> InHeaders(L, bs, x)
    {
      hide Tiles, Open, HeaderOpen, ListIn, OnlyHeaders, SameMarks;
      HeaderAt(mallocHeaders, base, bs, i);
      MarkedList(L, mallocHeaders, base, bs, lo, hi, i);
      MarkedFrame(mallocHeaders, bs, i);
      MarkFreeTiles(L, bs, lo, hi, i);
      SameHeaders(L, bs, i);
      ghost var marked := MarkFree(bs, i);
      ghost var next := MergeNext(L, marked, i);
      StoreHeader(mallocBlock, mallocHeaders[mallocBlock].(status := FREE));
      VgcMunprotect(mallocBlock);
      ghost var mem1 := mallocHeaders;
      ListStaysOpen(L, old(protNone), bs, protNone, marked);
      FreeBlocksNext(mallocBlock, base, marked, i, lo, hi);
      ghost var mem2 := mallocHeaders;
      ListStaysOpen(L, old(protNone), bs, protNone, next);
      FreeBlocksPrev(mallocBlock, base, next, i, lo, hi);
      FramesCompose(old(mallocHeaders), mem1, mem2, bs, marked);
      FramesCompose(old(mallocHeaders), mem2, mallocHeaders, bs, next);
    }

    /** Take a region out of the list. */
    method Unlink(mmapBlock: int, ghost t: State)
      requires mmapBlock in t.regions && Listed(t) && NULL !in t.regions && RegionsIn(L, t, mmapHeaders)
      requires forall c :: c in t.regions ==> t.regions[c].base == c
      requires forall c :: c in t.regions ==> Open(L, protNone, c, c + L.mmapHeader)
      modifies this`mmapHeaders, this`bytes
      ensures RegionsIn(L, Unmap(t, mmapBlock), mmapHeaders)
      ensures forall x :: Byte(x) != old(Byte(x)) ==>
                exists c :: c in t.regions && c <= x < c + L.mmapHeader
    {
      hide Unmap, RegionsIn, Open;
      RegionLinks(L, t, mmapHeaders, mmapBlock);
      UnlinkedRegions(L, t, mmapHeaders, mmapBlock);
      ghost var mm0 := mmapHeaders;
      var next := LoadMmapHeader(mmapBlock).next;
      var prev := LoadMmapHeader(mmapBlock).prev;
      if next != NULL {
        StoreMmapHeader(next, mmapHeaders[next].(prev := prev));
      }
      if prev != NULL {
        StoreMmapHeader(prev, mmapHeaders[prev].(next := next));
      }
      assert mmapHeaders == Unlinked(mm0, mmapBlock);
    }

    /** Take an empty region out of the list and hand it back to the kernel. */
    method FreeMMAP(mmapBlock: int, ghost t: State)
      requires mmapBlock in t.regions && Listed(t) && NULL !in t.regions
      requires forall c :: c in t.regions ==> t.regions[c].base == c
      requires RegionsIn(L, t, mmapHeaders) && mmapBlockFirst == OrderAt(t.order, 0)
      requires forall c :: c in t.regions ==> Open(L, protNone, c, c + L.mmapHeader)
      modifies this`mallocHeaders, this`mmapHeaders, this`mmapBlockFirst, this`mmapBlockCount, this`protNone, this`bytes
      ensures mallocHeaders == KeptOutside(old(mallocHeaders), mmapBlock, t.regions[mmapBlock].size)
      ensures forall a :: a in mallocHeaders <==>
                a in old(mallocHeaders) && !(mmapBlock <= a < mmapBlock + t.regions[mmapBlock].size)
      ensures forall a :: a in mallocHeaders ==> mallocHeaders[a] == old(mallocHeaders)[a]
      ensures RegionsIn(L, Unmap(t, mmapBlock), mmapHeaders)
      ensures mmapBlockFirst == OrderAt(Unmap(t, mmapBlock).order, 0)
      ensures mmapBlockCount == old(mmapBlockCount) - 1
      ensures protNone == set a | a in old(protNone) && !(mmapBlock <= a < mmapBlock + t.regions[mmapBlock].size)
      ensures forall x :: Byte(x) != old(Byte(x)) ==>
                exists c :: c in t.regions && c <= x < c + L.mmapHeader
    {
      hide RegionsIn, Unmap, Open;
      RegionLinks(L, t, mmapHeaders, mmapBlock);
      UnmapNotHead(t, mmapBlock);
      var size := LoadMmapHeader(mmapBlock).size;
      Unlink(mmapBlock, t);
      mmapBlockCount := mmapBlockCount - 1;
      if mmapBlock == mmapBlockFirst {
        mmapBlockFirst := NULL;
      }
      protNone := set a | a in protNone && !(mmapBlock <= a < mmapBlock + size);
      mallocHeaders := KeptOutside(mallocHeaders, mmapBlock, size);
    }

    /** The part of `vgc_free` that works on the region of the block. */
    method ReleaseInRegion(mmapBlock: int, mallocBlock: int, ghost i: nat)
      requires Valid() && mmapBlock in s.regions && i < |s.regions[mmapBlock].blocks|
      requires s.regions[mmapBlock].blocks[i].Busy() && mallocBlock == s.regions[mmapBlock].blocks[i].addr
      modifies this`mallocHeaders, this`mmapHeaders, this`protNone, this`bytes
      ensures var t := Released(L, s, mmapBlock, i);
              Represents(L, t, mallocHeaders, mmapHeaders, protNone, mmapBlockCount)
      ensures forall x :: Byte(x) != old(Byte(x)) ==> Outside(L, LiveBlocks(s.regions), x)
    {
      hide Inv, Tiles, Represents, Accepted, Outside, LiveBlocks, Release, Layout.Valid, Open, HeaderOpen;
      ghost var r := s.regions[mmapBlock];
      RegionFacts(L, s, mmapBlock);
      LayoutPositive(L);
      ReleaseStart(L, s, mallocHeaders, mmapHeaders, protNone, mmapBlockCount, mmapBlock);
      Protected(L, s, mallocHeaders, mmapHeaders, protNone, mmapBlockCount);
      StructuresOpen(L, s, mmapBlock);
      RegionReadable(L, s, mmapBlock);
      StoreMmapHeader(mmapBlock, mmapHeaders[mmapBlock].(elements := LoadMmapHeader(mmapBlock).elements - 1));
      var ok := CheckSound(mmapBlock, r.blocks);
      if !ok {
        assert false;  // a corrupted list, on which the source gives up, is not a valid state
      }
      ReleaseBlock(mallocBlock, mmapBlock, r.blocks, i, mmapBlock + L.mmapHeader, mmapBlock + r.size);
      ReleasedRepresents(L, s, old(mallocHeaders), mallocHeaders, old(mmapHeaders), old(protNone), mmapBlockCount,
          mmapBlock, i);
      forall x | Byte(x) != old(Byte(x)) ensures Outside(L, LiveBlocks(s.regions), x) {
        if mmapBlock <= x < mmapBlock + L.mmapHeader { RegionHeadersOutside(L, s, mmapBlock, x); }
        else { BlockHeadersOutside(L, s, mmapBlock, x); }
      }
    }

    /** The region is all free: hand it back. */
    method ReleaseRegion(mmapBlock: int, ghost i: nat)
      requires L.Valid() && Inv(L, s) && mmapBlock in s.regions && i < |s.regions[mmapBlock].blocks|
      requires s.regions[mmapBlock].blocks[i].Busy() && mmapBlockFirst == OrderAt(s.order, 0)
      requires Represents(L, Released(L, s, mmapBlock, i), mallocHeaders, mmapHeaders, protNone, mmapBlockCount)
      modifies this`mallocHeaders, this`mmapHeaders, this`mmapBlockFirst, this`mmapBlockCount, this`protNone, this`bytes
      ensures Represents(L, Unmap(s, mmapBlock), mallocHeaders, mmapHeaders, protNone, mmapBlockCount)
      ensures mmapBlockFirst == OrderAt(Unmap(s, mmapBlock).order, 0)
      ensures forall x :: Byte(x) != old(Byte(x)) ==> Outside(L, LiveBlocks(s.regions), x)
    {
      hide Inv, RegionInv, Outside, LiveBlocks, Layout.Valid, Unmap, Release, RegionsIn, ListsIn, Guards, Open,
        KeptOutside, HeadersKnown;
      UnmappedState(L, s, mallocHeaders, mmapHeaders, protNone, mmapBlockCount, mmapBlock, i);
      Protected(L, Released(L, s, mmapBlock, i), mallocHeaders, mmapHeaders, protNone, mmapBlockCount);
      ReleasedOpen(L, s, mmapBlock, i);
      FreeMMAP(mmapBlock, Released(L, s, mmapBlock, i));
      forall x | Byte(x) != old(Byte(x)) ensures Outside(L, LiveBlocks(s.regions), x) {
        var c :| c in s.regions && c <= x < c + L.mmapHeader;
        RegionHeadersOutside(L, s, c, x);
      }
    }

    /** The tests at the beginning of vgc_free. They let a pointer through exactly if it is found,
        or if what lies where its header is looked for passes for one. `stray` and `strayRegion`
        are what memory holds where no header was written. */
    method Locate(ptr: nat, stray: Header, strayRegion: MmapHeader)
      returns (mallocBlock: int, mmapBlock: int, passed: bool)
      requires Valid() && Freeable(L, s, ptr)
      ensures passed <==>
                || (InWindow(L, s, ptr) && exists b, i: nat :: FoundAt(L, s, ptr, b, i))
                || Misled(L, s, ptr, Junk(mmapHeaders, stray, strayRegion))
      ensures passed <==>
                && (exists b :: b in s.order && b < ptr < b + L.regionSize)
                && (var a := L.HeaderOf(ptr);
                    var header := if a in mallocHeaders then mallocHeaders[a] else stray;
                    var region :=
                      if header.mmapBlock in mmapHeaders then mmapHeaders[header.mmapBlock] else strayRegion;
                    && header.checkStart == 0xAA && header.checkEnd == 0xAA
                    && region.checkStart == 0xAA && region.checkEnd == 0xAA)
      ensures passed ==>
                && mallocBlock == L.HeaderOf(ptr)
                && mmapBlock == ReadHeader(mallocHeaders, stray, mallocBlock).mmapBlock
                && (mallocBlock in mallocHeaders ==> mmapBlock in s.regions)
      ensures passed && !Misled(L, s, ptr, false) && !Junk(mmapHeaders, stray, strayRegion) ==>
                mallocBlock in mallocHeaders
    {
      hide Inv, Represents, Layout.Valid, InWindow, Freeable, Open, HeaderOpen, Guards;
      mallocBlock, mmapBlock, passed := 0, 0, false;
      NullOutsideWindow(L, s);
      if ptr == NULL {
        return;
      }
      var found := IsInMmapBlock(ptr);
      if !found {
        return;
      }
      ghost var b, i := FreePlace(L, s, ptr);
      Protected(L, s, mallocHeaders, mmapHeaders, protNone, mmapBlockCount);
      Marks(L, s, mallocHeaders, mmapHeaders, protNone, mmapBlockCount, ptr, b, i);
      var start := ptr;
      if L.mprotect {
        var mask := L.Page() - 1;
        start := BitAnd(64, ptr, BitNot(64, mask));
      }
      mallocBlock := start - L.header;
      var header := ReadAt(mallocBlock, stray);
      if !Intact(header) {
        return;
      }
      mmapBlock := header.mmapBlock;
      if !IntactRegion(ReadRegion(mmapHeaders, strayRegion, mmapBlock)) {
        return;
      }
      passed := true;
    }

    /** `vgc_free`: finds the region and the header behind a user pointer, merges the block with its
        free neighbours, and unmaps the region once its last live block has gone. */
    method VgcFree(ptr: nat, stray: Header, strayRegion: MmapHeader)
      requires Valid() && Freeable(L, s, ptr)
      requires !Misled(L, s, ptr, Junk(mmapHeaders, stray, strayRegion))
      modifies this
      ensures !Misled(L, old(s), ptr, false) && Valid() && s == Free(L, old(s), ptr)
      ensures !(InWindow(L, old(s), ptr) && exists b, i: nat :: FoundAt(L, old(s), ptr, b, i)) ==>
                && mallocHeaders == old(mallocHeaders) && mmapHeaders == old(mmapHeaders)
                && protNone == old(protNone) && bytes == old(bytes)
      ensures forall x :: Byte(x) != old(Byte(x)) ==> Outside(L, LiveBlocks(old(s).regions), x)
    {
      hide Inv, Represents, Outside, LiveBlocks, Layout.Valid, InWindow, Freeable, Unmap, Release, RegionsIn, Free,
        Open, HeaderOpen, ListOpen, Guards, FreeAt;
      var mallocBlock, mmapBlock, passed := Locate(ptr, stray, strayRegion);
      if !passed {
        NotPassed(L, s, ptr);
        return;
      }
      ghost var b, i := FreePlace(L, s, ptr);
      Protected(L, s, mallocHeaders, mmapHeaders, protNone, mmapBlockCount);
      FreeHeaders(L, s, mallocHeaders, mmapHeaders, protNone, mmapBlockCount, b, i);
      assert mallocBlock == s.regions[b].blocks[i].addr;
      ReleaseInRegion(mmapBlock, mallocBlock, i);
      FirstIsOnly(L, s, mallocHeaders, mmapHeaders, protNone, mmapBlockCount, b, i);
      FreedState(L, s, b, i);
      if LoadHeader(mmapBlock + L.mmapHeader).next == NULL {
        ReleaseRegion(mmapBlock, i);
      }
      s := FreeAt(L, s, b, i);
    }

    /** What vgc_free does first when a header left behind misleads it: it counts a block out that is
        still live. Memory then represents no state in which the invariant holds. */
    method FreeMisled(ptr: nat, stray: Header, strayRegion: MmapHeader)
      requires Valid() && Freeable(L, s, ptr) && Misled(L, s, ptr, false)
      modifies this`mmapHeaders, this`bytes
      ensures exists b :: b in s.regions && b in old(mmapHeaders)
                && var h := old(mmapHeaders)[b]; mmapHeaders == old(mmapHeaders)[b := h.(elements := h.elements - 1)]
      ensures forall t :: Inv(L, t) ==> !Represents(L, t, mallocHeaders, mmapHeaders, protNone, mmapBlockCount)
    {
      hide Inv, Represents, Layout.Valid, InWindow, Freeable, Open, HeaderOpen, Guards;
      MisledPlace(L, s, mallocHeaders, mmapHeaders, protNone, mmapBlockCount, ptr);
      var mallocBlock, mmapBlock, passed := Locate(ptr, stray, strayRegion);
      StructuresOpen(L, s, mmapBlock);
      Protected(L, s, mallocHeaders, mmapHeaders, protNone, mmapBlockCount);
      RegionHere(L, s, mallocHeaders, mmapHeaders, protNone, mmapBlockCount, mmapBlock);
      forall t | Inv(L, t)
        ensures !Represents(L, t, mallocHeaders,
                  mmapHeaders[mmapBlock := mmapHeaders[mmapBlock].(elements := mmapHeaders[mmapBlock].elements - 1)],
                  protNone, mmapBlockCount)
      {
        MiscountBreaks(L, s, mallocHeaders, mmapHeaders, protNone, mmapBlockCount, mmapBlock, t);
      }
      StoreMmapHeader(mmapBlock, mmapHeaders[mmapBlock].(elements := LoadMmapHeader(mmapBlock).elements - 1));
    }

    // ----- vgc_calloc and vgc_realloc -----

    /** Headers left behind in n bytes that have been written are gone. */
    method Forget(lo: int, n: nat)
      requires ValidButFirst() && forall x :: lo <= x < lo + n ==> NoField(L, s, x)
      modifies this`mallocHeaders, this`s
      ensures ValidButFirst() && s == Overwritten(L, old(s), lo, n)
      ensures forall a :: a in mallocHeaders ==> n == 0 || lo + n <= a + L.FieldOffset() || a + L.header <= lo
      ensures forall a :: a in old(mallocHeaders)
                          && (n == 0 || lo + n <= a + L.FieldOffset() || a + L.header <= lo) ==>
                a in mallocHeaders && mallocHeaders[a] == old(mallocHeaders)[a]
    {
      hide Inv, Represents, NoField, Overwritten, Layout.Valid;
      OverwriteFacts(L, s, lo, n);
      OverwrittenRepresents(L, s, mallocHeaders, mmapHeaders, protNone, mmapBlockCount, lo, n);
      mallocHeaders := Cleared(L, mallocHeaders, lo, n);
      s := Overwritten(L, s, lo, n);
    }

    /** memset(p, 0, n), as far as the first byte that cannot be written. */
    method Zero(p: int, n: nat) returns (fault: bool, ghost done: nat)
      requires ValidButFirst() && forall x :: p <= x < p + n ==> NoField(L, s, x)
      modifies this`mallocHeaders, this`bytes, this`s
      ensures ValidButFirst() && s == Overwritten(L, old(s), p, done)
      ensures s.regions == old(s).regions && s.order == old(s).order
      ensures done <= n && (fault <==> done < n) && Open(L, protNone, p, p + done)
      ensures fault ==> Inaccessible(L, protNone, p + done)
      ensures forall x :: p <= x < p + done ==> Byte(x) == 0
      ensures forall x :: !(p <= x < p + done) ==> Byte(x) == old(Byte(x))
      ensures forall a :: a in mallocHeaders ==> done == 0 || p + done <= a + L.FieldOffset() || a + L.header <= p
      ensures forall a :: a in old(mallocHeaders)
                          && (done == 0 || p + done <= a + L.FieldOffset() || a + L.header <= p) ==>
                a in mallocHeaders && mallocHeaders[a] == old(mallocHeaders)[a]
    {
      hide Inv, Represents, NoField, Layout.Valid, Inaccessible;
      var j := 0;
      while j < n && !Inaccessible(L, protNone, p + j)
        invariant 0 <= j <= n && Open(L, protNone, p, p + j)
        invariant ValidButFirst() && s == old(s) && mallocHeaders == old(mallocHeaders)
        invariant forall x :: p <= x < p + j ==> Byte(x) == 0
        invariant forall x :: !(p <= x < p + j) ==> Byte(x) == old(Byte(x))
      {
        Poke(p + j, 0);
        j := j + 1;
      }
      fault, done := j < n, j;
      Forget(p, j);
    }

    /** memcpy(to, from, n), for ranges that do not overlap and can be accessed */
    method Copy(to: int, from: int, n: nat)
      requires to + n <= from || from + n <= to
      requires Open(L, protNone, from, from + n) && Open(L, protNone, to, to + n)
      requires ValidButFirst() && forall x :: to <= x < to + n ==> NoField(L, s, x)
      modifies this`mallocHeaders, this`bytes, this`s
      ensures ValidButFirst() && s == Overwritten(L, old(s), to, n)
      ensures forall a :: a in mallocHeaders ==> n == 0 || to + n <= a + L.FieldOffset() || a + L.header <= to
      ensures forall a :: a in old(mallocHeaders)
                          && (n == 0 || to + n <= a + L.FieldOffset() || a + L.header <= to) ==>
                a in mallocHeaders && mallocHeaders[a] == old(mallocHeaders)[a]
      ensures forall x :: to <= x < to + n ==> Byte(x) == old(Byte(from + (x - to)))
      ensures forall x :: !(to <= x < to + n) ==> Byte(x) == old(Byte(x))
    {
      hide Inv, Represents, NoField, Layout.Valid, Open;
      for j := 0 to n
        invariant ValidButFirst() && s == old(s) && mallocHeaders == old(mallocHeaders)
        invariant forall x :: to <= x < to + j ==> Byte(x) == old(Byte(from + (x - to)))
        invariant forall x :: !(to <= x < to + j) ==> Byte(x) == old(Byte(x))
      {
        var value := Byte(from + j);
        assert value == old(Byte(from + j));
        label write:
        Poke(to + j, value);
        forall x | to <= x < to + j + 1 ensures Byte(x) == old(Byte(from + (x - to))) {
          if x == to + j { assert from + (x - to) == from + j; }
          else { assert Byte(x) == old@write(Byte(x)); }
        }
      }
      Forget(to, n);
    }

    /** A caller writes bytes of its own live range. */
    method CallerWrites(ptr: int, lo: int, values: seq<int>)
      requires Valid() && OwnBytes(L, s, ptr, lo, |values|)
      modifies this`mallocHeaders, this`bytes, this`s
      ensures Valid() && s == Overwritten(L, old(s), lo, |values|)
      ensures forall a :: a in mallocHeaders ==>
                |values| == 0 || lo + |values| <= a + L.FieldOffset() || a + L.header <= lo
      ensures forall a :: a in old(mallocHeaders)
                          && (|values| == 0 || lo + |values| <= a + L.FieldOffset() || a + L.header <= lo) ==>
                a in mallocHeaders && mallocHeaders[a] == old(mallocHeaders)[a]
      ensures forall x :: Byte(x) == if lo <= x < lo + |values| then values[x - lo] else old(Byte(x))
      ensures forall x, y :: lo <= x < lo + |values| && y in LiveBlocks(old(s).regions) && y.Pointer(L) != ptr ==>
                !InPayload(L, y, x)
    {
      hide Inv, Represents, NoField, Layout.Valid, OwnBytes, LiveBlocks, InPayload, Block.Pointer;
      forall x | lo <= x < lo + |values| ensures NoField(L, s, x) {
        OwnBytesPlace(L, s, ptr, lo, |values|, Block(0, 0, FREE, 0, false), x);
      }
      forall x, y | lo <= x < lo + |values| && y in LiveBlocks(s.regions) && y.Pointer(L) != ptr
        ensures !InPayload(L, y, x)
      {
        OwnBytesPlace(L, s, ptr, lo, |values|, y, x);
      }
      for j := 0 to |values|
        invariant Valid() && s == old(s) && mallocHeaders == old(mallocHeaders)
        invariant forall x :: lo <= x < lo + j ==> Byte(x) == values[x - lo]
        invariant forall x :: !(lo <= x < lo + j) ==> Byte(x) == old(Byte(x))
      {
        Poke(lo + j, values[j]);
      }
      Forget(lo, |values|);
    }

    /** The product is taken modulo the width of size_t, as the source does. The memset faults exactly
        if a guard page lies in the range; `RangeFaultsExactly` says when. It must not leave the
        region; `RangeInRegion` says when it does. */
    method VgcCalloc(nmemb: nat, size: nat, k: Kernel) returns (memory: int, fault: bool)
      requires Valid() && KernelOk(L, s, k)
      requires var n := (nmemb * size) % SIZE_T;
               n != 0 && Malloc(L, s, n, k).1 != 0 ==> OwnRegion(L, Malloc(L, s, n, k).0, Malloc(L, s, n, k).1, n)
      modifies this
      ensures ValidButFirst()
      ensures var n := (nmemb * size) % SIZE_T;
              && mmapBlockFirst == (if n == 0 || HasFirst(old(s), k) then OrderAt(s.order, 0) else MAP_FAILED)
              && memory == (if n == 0 then 0 else Malloc(L, old(s), n, k).1)
              && (fault <==>
                    memory != 0 && !Open(L, Guards(L, Malloc(L, old(s), n, k).0.regions), memory, memory + n))
              && (!fault ==>
                    && s == (if n == 0 then old(s) else if memory == 0 then Malloc(L, old(s), n, k).0
                             else Overwritten(L, Malloc(L, old(s), n, k).0, memory, n))
                    && (memory != 0 ==> forall x :: memory <= x < memory + n ==> Byte(x) == 0))
      ensures var n := (nmemb * size) % SIZE_T;
              memory != 0 && !fault ==>
                && (forall a :: a in mallocHeaders ==> memory + n <= a + L.FieldOffset() || a + L.header <= memory)
                && (forall a :: a in old(mallocHeaders) && !Headed(s, a)
                                && (memory + n <= a + L.FieldOffset() || a + L.header <= memory) ==>
                      a in mallocHeaders && mallocHeaders[a] == old(mallocHeaders)[a])
      ensures memory != 0 && !fault && nmemb * size < SIZE_T ==>
                forall x :: memory <= x < memory + nmemb * size ==> Byte(x) == 0
      ensures forall x :: Byte(x) != old(Byte(x)) ==> Outside(L, LiveBlocks(old(s).regions), x)
    {
      hide Inv, Represents, KernelOk, Outside, LiveBlocks, Malloc, Layout.Valid, HasFirst, OwnRegion, NoField, Open,
        Overwritten;
      var mallocSize := (nmemb * size) % SIZE_T;
      fault := false;
      if mallocSize == 0 {
        return 0, false;
      }
      memory := VgcMalloc(mallocSize, k);
      if memory != NULL {
        ghost var t := s;
        ghost var block := MallocBlock(L, old(s), mallocSize, k);
        Protected(L, s, mallocHeaders, mmapHeaders, protNone, mmapBlockCount);
        forall x | memory <= x < memory + mallocSize
          ensures Outside(L, LiveBlocks(old(s).regions), x) && NoField(L, s, x)
        {
          CallocPlace(L, old(s), s, block, mallocSize, x);
        }
        ghost var done;
        fault, done := Zero(memory, mallocSize);
        FaultIff(L, protNone, memory, done, mallocSize);
      }
    }

    /** What vgc_realloc takes for the size of the old block. Only without page protection does
        the header of a pointer lie directly in front of it. */
    function OldSize(ptr: int, stray: Header): int
      requires !L.mprotect ==> ptr - L.header in mallocHeaders && HeaderOpen(L, protNone, ptr - L.header)
      requires L.mprotect ==> HeaderOpen(L, protNone, ptr - L.header)
      reads this`mallocHeaders, this`protNone
    {
      if L.mprotect then stray.size else LoadHeader(ptr - L.header).size
    }

    /** The bytes copied, as far as they lie in the old and in the new payload, arrive, and nothing
        touches another live payload. Without page protection that is all of the smaller size; with
        it `stray`, what memory holds in front of the pointer, decides how much is copied. */
    method VgcRealloc(ptr: nat, size: nat, k: Kernel, stray: Header, strayRegion: MmapHeader)
      returns (memory: int, ghost copied: nat)
      requires Valid() && (ptr != 0 ==> ptr in LiveMap(L, s))
      requires size == 0 ==> !Misled(L, s, ptr, Junk(mmapHeaders, stray, strayRegion))
      requires size != 0 ==> size < SIZE_T && KernelOk(L, s, k)
      requires size != 0 && ptr != 0 && Malloc(L, s, size, k).1 != 0 ==>
                 && !Misled(L, Malloc(L, s, size, k).0, ptr, Intact(stray))
                 && Copyable(L, Malloc(L, s, size, k).0, ptr, Malloc(L, s, size, k).1, stray, size)
      modifies this
      ensures ValidButFirst()
      ensures mmapBlockFirst == if size == 0 || HasFirst(old(s), k) then OrderAt(s.order, 0) else MAP_FAILED
      ensures memory == if size == 0 then 0 else Malloc(L, old(s), size, k).1
      ensures size == 0 ==> s == if ptr == 0 then old(s) else Free(L, old(s), ptr)
      ensures size != 0 && (ptr == 0 || memory == 0) ==> s == Malloc(L, old(s), size, k).0
      ensures size != 0 && ptr != 0 && memory != 0 ==>
                var t := Overwritten(L, Malloc(L, old(s), size, k).0, memory, copied);
                !Misled(L, t, ptr, false) && s == Free(L, t, ptr)
      ensures size != 0 && ptr != 0 && memory != 0 ==>
                forall x :: x in LiveBlocks(old(s).regions) && x.Pointer(L) == ptr ==>
                  && copied == CopyLength(L, x, stray, size)
                  && forall a :: memory <= a < memory + copied
                                 && InPayload(L, x, ptr + (a - memory))
                                 && !Outside(L, LiveBlocks(Malloc(L, old(s), size, k).0.regions), a) ==>
                       Byte(a) == old(Byte(ptr + (a - memory)))
      ensures size != 0 && ptr != 0 && memory != 0 && !L.mprotect ==>
                forall x :: x in LiveBlocks(old(s).regions) && x.Pointer(L) == ptr ==>
                  forall a :: memory <= a < memory + x.size && a < memory + size ==>
                    Byte(a) == old(Byte(ptr + (a - memory)))
      ensures size != 0 && ptr != 0 && memory != 0 && L.mprotect ==>
                copied <= stray.size && copied <= size && (copied == stray.size || copied == size)
      ensures size != 0 && ptr != 0 && memory != 0 && !L.mprotect ==>
                forall x :: x in LiveBlocks(old(s).regions) && x.Pointer(L) == ptr ==>
                  copied <= x.size && copied <= size && (copied == x.size || copied == size)
      ensures forall a :: Byte(a) != old(Byte(a)) ==> Outside(L, LiveBlocks(old(s).regions), a)
    {
      hide Inv, Represents, KernelOk, Outside, LiveBlocks, Malloc, Layout.Valid, HasFirst, LiveMap, Freeable, Free,
        InPayload, Block.Pointer, NoField, Open, HeaderOpen, Copyable, Guards, Misled, Overwritten;
      copied := 0;
      if size == 0 {
        if ptr != NULL {
          LiveFreeable(L, s, ptr);
          VgcFree(ptr, stray, strayRegion);
        }
        memory := 0;
        return;
      }
      memory := VgcMalloc(size, k);
      if ptr == NULL || memory == NULL {
        return;
      }
      ghost var t := s;
      ghost var x, y := ReallocBlocks(L, old(s), size, k, ptr);
      OldHeader(L, t, mallocHeaders, mmapHeaders, protNone, mmapBlockCount, x);
      Protected(L, s, mallocHeaders, mmapHeaders, protNone, mmapBlockCount);
      ReallocReady(L, old(s), t, x, y, stray, size);
      var oldSize := OldSize(ptr, stray);
      var newSize := if oldSize < size then oldSize else size;
      copied := newSize;
      label copying:
      Copy(memory, ptr, newSize);
      label copied:
      HasHead(L, old(s), size, k);
      AfterCopy(L, t, memory, newSize, ptr, stray, Junk(mmapHeaders, stray, strayRegion));
      VgcFree(ptr, stray, strayRegion);
      forall a | Byte(a) != old(Byte(a)) ensures Outside(L, LiveBlocks(old(s).regions), a) {
        if old@copied(Byte(a)) != Byte(a) { OutsideSubset(L, LiveBlocks(old(s).regions), LiveBlocks(t.regions), a); }
      }
      forall a | memory <= a < memory + newSize && InPayload(L, x, ptr + (a - memory))
                 && !Outside(L, LiveBlocks(t.regions), a)
        ensures Byte(a) == old(Byte(ptr + (a - memory)))
      {
        PayloadNotOutside(L, LiveBlocks(old(s).regions), x, ptr + (a - memory));
      }
      forall a | !L.mprotect && memory <= a < memory + newSize
        ensures InPayload(L, x, ptr + (a - memory)) && !Outside(L, LiveBlocks(t.regions), a)
      {
        PayloadNotOutside(L, LiveBlocks(t.regions), y, a);
      }
      forall z | z in LiveBlocks(old(s).regions) && z.Pointer(L) == ptr ensures z == x {
        SamePointer(L, old(s), z, x);
      }
    }
  }
}
