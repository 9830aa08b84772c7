/** The structures the allocator keeps inside the memory it manages. Pointers are addresses,
    0 is the null pointer, and a map from addresses to records is the memory the structures
    lie in, so two equal pointers name one structure and stale structures stay where they were. */
module Memory {
  import opened Arithmetic
  import opened Layouts
  import opened Blocks
  import opened States

  const NULL := 0

  /** What mmap returns when it refuses: all bits set, as a pointer. */
  const MAP_FAILED := SIZE_T - 1

  const CHECK := 0xAA

  /** VGC_mallocHeader */
  datatype Header = Header(checkStart: int, size: int, status: Status, mmapBlock: int, prev: int, next: int,
                           checkEnd: int)

  /** VGC_mmapHeader */
  datatype MmapHeader = MmapHeader(checkStart: int, size: int, maxSize: int, elements: int, prev: int, next: int,
                                   checkEnd: int)

  // ----- headers, current and left behind -----

  /** Both check values are in place. */
  predicate Intact(h: Header) {
    h.checkStart == CHECK && h.checkEnd == CHECK
  }

  predicate IntactRegion(h: MmapHeader) {
    h.checkStart == CHECK && h.checkEnd == CHECK
  }

  /** A header as it is written at a in a region. */
  ghost predicate WrittenIn(regions: map<int, Region>, a: int, h: Header) {
    Intact(h) && h.mmapBlock in regions && h.mmapBlock <= a < h.mmapBlock + regions[h.mmapBlock].size
  }

  /** All headers in memory, those of blocks and those left behind, are known. */
  ghost predicate HeadersKnown(s: State, mem: map<int, Header>) {
    mem.Keys == s.written && forall a :: a in mem ==> WrittenIn(s.regions, a, mem[a])
  }

  /** No header came or went, and none lost its check values or its region. */
  ghost predicate SameMarks(mem: map<int, Header>, mem': map<int, Header>) {
    && mem'.Keys == mem.Keys
    && forall a :: a in mem ==>
         mem'[a].checkStart == mem[a].checkStart && mem'[a].checkEnd == mem[a].checkEnd
         && mem'[a].mmapBlock == mem[a].mmapBlock
  }

  /** Memory after the pages of a region have gone. */
  function KeptOutside(mem: map<int, Header>, b: int, size: int): map<int, Header> {
    map a | a in mem && !(b <= a < b + size) :: mem[a]
  }

  /** The fields of a header at a share a byte with the n bytes from lo. */
  predicate Meets(L: Layout, a: int, lo: int, n: nat) {
    n > 0 && a + L.FieldOffset() < lo + n && lo < a + L.header
  }

  /** Old headers go when their bytes are overwritten. */
  function Cleared(L: Layout, mem: map<int, Header>, lo: int, n: nat): map<int, Header> {
    map a | a in mem && !Meets(L, a, lo, n) :: mem[a]
  }

  function Overwritten(L: Layout, s: State, lo: int, n: nat): State {
    s.(written := set a | a in s.written && !Meets(L, a, lo, n))
  }

  // ----- block lists -----

  ghost function AddrAt(bs: seq<Block>, i: int): int {
    if 0 <= i < |bs| then bs[i].addr else NULL
  }

  /** The header of position i of a well-formed block list. */
  ghost function HeaderFor(base: int, bs: seq<Block>, i: nat): Header
    requires i < |bs|
  {
    Header(CHECK, bs[i].size, bs[i].status, base, AddrAt(bs, i - 1), AddrAt(bs, i + 1), CHECK)
  }

  /** Memory holds the doubly linked list of the blocks: prev and next are mutually inverse. */
  ghost predicate ListIn(mem: map<int, Header>, base: int, bs: seq<Block>) {
    forall i {:trigger HeaderFor(base, bs, i)} :: 0 <= i < |bs| ==>
      Holds(mem, bs[i].addr, HeaderFor(base, bs, i))
  }

  ghost predicate Holds(mem: map<int, Header>, a: int, h: Header) {
    a in mem && mem[a] == h
  }

  ghost predicate HeadedAt(bs: seq<Block>, a: int) {
    exists i :: 0 <= i < |bs| && bs[i].addr == a
  }

  /** Memory outside the headers of one list is what it was. */
  ghost predicate SameElsewhere(mem: map<int, Header>, mem': map<int, Header>, bs: seq<Block>) {
    forall a :: a in mem && !HeadedAt(bs, a) ==> a in mem' && mem'[a] == mem[a]
  }

  lemma HeaderAt(mem: map<int, Header>, base: int, bs: seq<Block>, i: nat)
    requires ListIn(mem, base, bs) && i < |bs|
    ensures bs[i].addr in mem && mem[bs[i].addr] == HeaderFor(base, bs, i)
  {
  }

  /** The header of a carved block, and of the remainder if there is one. */
  ghost function TakenHeader(L: Layout, base: int, bs: seq<Block>, i: nat, n: nat): Header
    requires i < |bs|
  {
    var m := Carve(L, bs[i], n);
    HeaderFor(base, bs, i).(size := m[0].size, status := BUSY,
                            next := if |m| == 2 then m[1].addr else AddrAt(bs, i + 1))
  }

  ghost function RestHeader(L: Layout, base: int, bs: seq<Block>, i: nat, n: nat): Header
    requires i < |bs| && |Carve(L, bs[i], n)| == 2
  {
    Header(CHECK, Carve(L, bs[i], n)[1].size, FREE, base, bs[i].addr, AddrAt(bs, i + 1), CHECK)
  }

  lemma CarvedHeaders(L: Layout, base: int, bs: seq<Block>, i: nat, n: nat)
    requires i < |bs|
    ensures HeaderFor(base, Allocate(L, bs, i, n), i) == TakenHeader(L, base, bs, i, n)
    ensures |Carve(L, bs[i], n)| == 2 ==>
              HeaderFor(base, Allocate(L, bs, i, n), i + 1) == RestHeader(L, base, bs, i, n)
  {
    var m := Carve(L, bs[i], n);
    var after := Allocate(L, bs, i, n);
    assert after[i] == m[0];
    assert 0 < i ==> after[i - 1] == bs[i - 1];
    assert AddrAt(after, i + |m|) == AddrAt(bs, i + 1);
  }

  /** A split or a whole-block take, as a change of the list. */
  lemma CarvedList(L: Layout, mem': map<int, Header>, base: int, bs: seq<Block>, i: nat, n: nat)
    requires i < |bs|
    requires var m := Carve(L, bs[i], n);
             && Holds(mem', bs[i].addr, TakenHeader(L, base, bs, i, n))
             && (|m| == 2 ==> Holds(mem', m[1].addr, RestHeader(L, base, bs, i, n)))
             && (i + 1 < |bs| ==> Holds(mem', bs[i + 1].addr, HeaderFor(base, bs, i + 1).(prev := m[|m| - 1].addr)))
    requires forall j {:trigger HeaderFor(base, bs, j)} :: 0 <= j < |bs| && j != i && j != i + 1 ==>
               Holds(mem', bs[j].addr, HeaderFor(base, bs, j))
    ensures ListIn(mem', base, Allocate(L, bs, i, n))
  {
    hide Carve, Holds, TakenHeader, RestHeader;
    CarvedHeaders(L, base, bs, i, n);
    var m := Carve(L, bs[i], n);
    var after := Allocate(L, bs, i, n);
    forall j | 0 <= j < |after|
      ensures Holds(mem', after[j].addr, HeaderFor(base, after, j))
    {
      if j < i {
        assert after[j] == bs[j] && after[j + 1].addr == bs[j + 1].addr;
        assert HeaderFor(base, bs, j) == HeaderFor(base, after, j);
      } else if j >= i + |m| {
        var k := j + 1 - |m|;
        assert after[j] == bs[k] && (k > i + 1 ==> after[j - 1] == bs[k - 1]);
        assert j + 1 < |after| ==> after[j + 1] == bs[k + 1];
        assert k > i + 1 ==> HeaderFor(base, bs, k) == HeaderFor(base, after, j);
      }
    }
  }

  /** The stores of a carve. */
  ghost function CarvedStores(L: Layout, mem: map<int, Header>, base: int, bs: seq<Block>, i: nat, n: nat)
    : map<int, Header>
    requires i < |bs|
  {
    var m := Carve(L, bs[i], n);
    var rest := if |m| == 2 then mem[m[1].addr := RestHeader(L, base, bs, i, n)] else mem;
    var taken := rest[bs[i].addr := TakenHeader(L, base, bs, i, n)];
    if |m| == 2 && i + 1 < |bs|
    then taken[bs[i + 1].addr := HeaderFor(base, bs, i + 1).(prev := m[1].addr)] else taken
  }

  lemma CarvedMemory(L: Layout, mem: map<int, Header>, base: int, bs: seq<Block>, i: nat, n: nat)
    requires ListIn(mem, base, bs) && i < |bs|
    requires forall j :: 0 <= j < |bs| && j != i ==> bs[j].addr != bs[i].addr
    requires i + 1 < |bs| ==> forall j :: 0 <= j < |bs| && j != i + 1 ==> bs[j].addr != bs[i + 1].addr
    requires |Carve(L, bs[i], n)| == 2 ==> forall j :: 0 <= j < |bs| ==> bs[j].addr != Carve(L, bs[i], n)[1].addr
    ensures ListIn(CarvedStores(L, mem, base, bs, i, n), base, Allocate(L, bs, i, n))
  {
    hide Carve, TakenHeader, RestHeader;
    var m := Carve(L, bs[i], n);
    var mem' := CarvedStores(L, mem, base, bs, i, n);
    forall j | 0 <= j < |bs| && j != i && j != i + 1 ensures Holds(mem', bs[j].addr, HeaderFor(base, bs, j)) {
      HeaderAt(mem, base, bs, j);
    }
    if i + 1 < |bs| { HeaderAt(mem, base, bs, i + 1); }
    CarvedList(L, mem', base, bs, i, n);
  }

  /** Besides the header of the remainder none is new, and only headers of the list change. */
  lemma CarvedFrame(L: Layout, mem: map<int, Header>, base: int, bs: seq<Block>, i: nat, n: nat)
    requires ListIn(mem, base, bs) && i < |bs|
    ensures var m := Carve(L, bs[i], n);
            var mem' := CarvedStores(L, mem, base, bs, i, n);
            && mem'.Keys == mem.Keys + SplitAt(L, bs[i], n)
            && forall a :: a in mem && !HeadedAt(bs, a) && (|m| == 2 ==> a != m[1].addr) ==>
                 a in mem' && mem'[a] == mem[a]
  {
    hide Carve, TakenHeader, RestHeader;
    HeaderAt(mem, base, bs, i);
    if i + 1 < |bs| { HeaderAt(mem, base, bs, i + 1); }
    assert HeadedAt(bs, bs[i].addr) && (i + 1 < |bs| ==> HeadedAt(bs, bs[i + 1].addr));
  }

  /** One block absorbing its successor, as a change of the list. */
  lemma AbsorbedList(L: Layout, mem: map<int, Header>, mem': map<int, Header>, base: int, bs: seq<Block>, i: nat)
    requires ListIn(mem, base, bs) && i + 1 < |bs|
    requires Holds(mem', bs[i].addr, HeaderFor(base, bs, i).(size := bs[i].size + bs[i + 1].size + L.header,
                                                             next := AddrAt(bs, i + 2)))
    requires i + 2 < |bs| ==> Holds(mem', bs[i + 2].addr, HeaderFor(base, bs, i + 2).(prev := bs[i].addr))
    requires forall j :: 0 <= j < |bs| && (j < i || i + 2 < j) ==> Holds(mem', bs[j].addr, HeaderFor(base, bs, j))
    ensures ListIn(mem', base, Absorb(L, bs, i))
  {
    hide Holds;
    var after := Absorb(L, bs, i);
    forall j | 0 <= j < |after|
      ensures Holds(mem', after[j].addr, HeaderFor(base, after, j))
    {
      var k := if j <= i then j else j + 1;
      HeaderAt(mem, base, bs, k);
      assert j != i ==> after[j] == bs[k];
    }
  }

  /** The stores of a merge. */
  ghost function AbsorbedStores(L: Layout, mem: map<int, Header>, base: int, bs: seq<Block>, i: nat): map<int, Header>
    requires i + 1 < |bs|
  {
    var mem1 := mem[bs[i].addr := HeaderFor(base, bs, i).(size := bs[i].size + bs[i + 1].size + L.header,
                                                          next := AddrAt(bs, i + 2))];
    if i + 2 < |bs|
    then mem1[bs[i + 2].addr := HeaderFor(base, bs, i + 2).(prev := bs[i].addr)] else mem1
  }

  lemma AbsorbedMemory(L: Layout, mem: map<int, Header>, base: int, bs: seq<Block>, i: nat)
    requires ListIn(mem, base, bs) && i + 1 < |bs|
    requires forall j :: 0 <= j < |bs| && j != i ==> bs[j].addr != bs[i].addr
    requires i + 2 < |bs| ==> forall j :: 0 <= j < |bs| && j != i + 2 ==> bs[j].addr != bs[i + 2].addr
    ensures ListIn(AbsorbedStores(L, mem, base, bs, i), base, Absorb(L, bs, i))
  {
    var mem' := AbsorbedStores(L, mem, base, bs, i);
    forall j | 0 <= j < |bs| && (j < i || i + 2 < j) ensures Holds(mem', bs[j].addr, HeaderFor(base, bs, j)) {
      HeaderAt(mem, base, bs, j);
    }
    AbsorbedList(L, mem, mem', base, bs, i);
  }

  /** No header comes or goes in a merge, and only headers of the list change. */
  lemma AbsorbedFrame(L: Layout, mem: map<int, Header>, base: int, bs: seq<Block>, i: nat)
    requires ListIn(mem, base, bs) && i + 1 < |bs|
    ensures var mem' := AbsorbedStores(L, mem, base, bs, i);
            SameMarks(mem, mem') && SameElsewhere(mem, mem', bs)
  {
    HeaderAt(mem, base, bs, i);
    if i + 2 < |bs| { HeaderAt(mem, base, bs, i + 2); }
    assert HeadedAt(bs, bs[i].addr) && (i + 2 < |bs| ==> HeadedAt(bs, bs[i + 2].addr));
  }

  /** Marking a block free, as a change of the list. */
  lemma MarkedList(L: Layout, mem: map<int, Header>, base: int, bs: seq<Block>, lo: int, hi: int, i: nat)
    requires L.header > 0 && Tiles(L, bs, lo, hi) && ListIn(mem, base, bs) && i < |bs|
    requires bs[i].addr in mem
    ensures ListIn(mem[bs[i].addr := mem[bs[i].addr].(status := FREE)], base, MarkFree(bs, i))
  {
    var after := MarkFree(bs, i);
    var mem' := mem[bs[i].addr := mem[bs[i].addr].(status := FREE)];
    forall j | 0 <= j < |after|
      ensures Holds(mem', after[j].addr, HeaderFor(base, after, j))
    {
      HeaderAt(mem, base, bs, j);
      AddressIdentifies(L, bs, lo, hi, i, j);
    }
  }

  /** The remainder of a split lies where no header was. */
  lemma RemainderIsNew(L: Layout, bs: seq<Block>, lo: int, hi: int, i: nat, n: nat)
    requires L.header > 0 && Tiles(L, bs, lo, hi) && i < |bs| && |Carve(L, bs[i], n)| == 2
    ensures forall j :: 0 <= j < |bs| ==> bs[j].addr != Carve(L, bs[i], n)[1].addr
    ensures Carve(L, bs[i], n)[1].addr > lo
  {
    var m := Carve(L, bs[i], n);
    var after := Allocate(L, bs, i, n);
    AllocateTiles(L, bs, lo, hi, i, n);
    Within(L, bs, lo, hi, i);
    AddressesDiffer(L, after, lo, hi, i + 1);
    assert after[i + 1] == m[1];
    forall j | 0 <= j < |bs| ensures bs[j].addr != m[1].addr {
      if j == i {
        assert after[i] == m[0];
      } else {
        assert bs[j] == after[if j < i then j else j + 1];
      }
    }
  }
}
