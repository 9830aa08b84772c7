/** What `vgc_malloc` returns and leaves, written out for every case. */
module Outcomes {
  import opened Arithmetic
  import opened Layouts
  import opened Blocks
  import opened States
  import opened LiveRanges
  import opened Runs

  /** No listed block has n bytes. */
  ghost predicate NothingFree(s: State, n: int)
    requires forall j :: 0 <= j < |s.order| ==> s.order[j] in s.regions
  {
    forall j, i :: 0 <= j < |s.order| && 0 <= i < |s.regions[s.order[j]].blocks| ==>
      !(s.regions[s.order[j]].blocks[i].Free() && s.regions[s.order[j]].blocks[i].size >= n)
  }

  lemma NothingFits(s: State, n: int)
    requires forall j :: 0 <= j < |s.order| ==> s.order[j] in s.regions
    ensures NothingFree(s, n) <==> FirstRegion(s.regions, s.order, n) == |s.order|
  {
    FirstRegionEarliest(s.regions, s.order, n);
    forall j | 0 <= j < |s.order|
      ensures Fits(s.regions[s.order[j]], n) <==>
              exists i :: 0 <= i < |s.regions[s.order[j]].blocks|
                          && s.regions[s.order[j]].blocks[i].Free() && s.regions[s.order[j]].blocks[i].size >= n
    {
      FirstFitEarliest(s.regions[s.order[j]].blocks, n);
    }
  }

  lemma RegionSize(L: Layout, s: State, b: int)
    requires L.Valid() && Inv(L, s) && b in s.regions
    ensures s.regions[b].size == L.regionSize || s.regions[b].size == L.regionSize / 10
    ensures L.regionSize / 10 <= L.regionSize
  {
    Tenth(L);
  }

  /** The regions of a valid state have one of the two sizes. */
  lemma ListedSizes(L: Layout, s: State, j: nat)
    requires L.Valid() && Inv(L, s) && j < |s.order|
    ensures s.order[j] in s.regions
    ensures s.regions[s.order[j]].size == L.regionSize || s.regions[s.order[j]].size == L.regionSize / 10
    ensures L.regionSize / 10 <= L.regionSize
  {
    RegionSize(L, s, s.order[j]);
  }

  lemma Tenth(L: Layout)
    ensures L.FallbackSize() == L.regionSize / 10
  {
    assert 10 * L.FallbackSize() <= L.regionSize < 10 * L.FallbackSize() + 10;
  }

  lemma MissedIn(L: Layout, s: State, b: int, n: nat)
    requires b in s.regions
    ensures !Fits(s.regions[b], n) ==> AllocateAt(L, s, b, n) == (s, 0)
  {
  }

  /** A request is refused exactly when it is 0, or too large for the first region, or there is no
      first region and none to be had, or nothing that is listed fits and no new region can be had
      or the smaller one that can is too small. */
  lemma MallocRefusedIff(L: Layout, s: State, size: nat, k: Kernel)
    requires L.Valid() && Inv(L, s) && KernelOk(L, s, k)
    ensures forall j :: 0 <= j < |s.order| ==> s.order[j] in s.regions
    ensures var n := L.AlignRequest(size);
            var overhead := L.mmapHeader + L.header;
            var granted := k.full != None || k.fallback != None;
            var bytes := if k.full != None then L.regionSize else L.regionSize / 10;
            Malloc(L, s, size, k).1 == 0 <==>
              || size == 0
              || (s.order == [] && !granted)
              || n >= (if s.order == [] then bytes else s.regions[s.order[0]].size) - overhead
              || (s.order != [] && NothingFree(s, n) && (!granted || n > bytes - overhead))
  {
    hide RegionInv, KernelOk, FirstRegion, NothingFree;
    Tenth(L);
    MallocRefines(L, s, size, k);
    NothingFits(s, L.AlignRequest(size));
    if s.order == [] {
      if size > 0 && HasFirst(s, k) { FreshHeadServes(L, s, size, k); }
    } else {
      ListedSizes(L, s, 0);
      FirstRegionEarliest(s.regions, s.order, L.AlignRequest(size));
    }
  }

  /** What a refused request leaves: with an empty list a first region, if one can be had, whatever
      the size asked for; with a positive size below the limit that nothing listed fits the
      smaller region, if that can be had, though it is too small; each with one free block and
      at the end of the list; and in every other case what was there. */
  lemma MallocRefusedExactly(L: Layout, s: State, size: nat, k: Kernel)
    requires L.Valid() && Inv(L, s) && KernelOk(L, s, k) && Malloc(L, s, size, k).1 == 0
    ensures forall j :: 0 <= j < |s.order| ==> s.order[j] in s.regions
    ensures var n := L.AlignRequest(size);
            var overhead := L.mmapHeader + L.header;
            var granted := k.full != None || k.fallback != None;
            var c := if k.full != None then k.full.value else if k.fallback != None then k.fallback.value else 0;
            var bytes := if k.full != None then L.regionSize else L.regionSize / 10;
            var asked := s.order == []
                         || (size > 0 && n < s.regions[s.order[0]].size - overhead
                             && forall j, i :: 0 <= j < |s.order| && 0 <= i < |s.regions[s.order[j]].blocks| ==>
                                  var x := s.regions[s.order[j]].blocks[i]; !(x.Free() && x.size >= n));
            Malloc(L, s, size, k).0 ==
            if asked && granted then
              State(s.regions[c := Region(c, bytes, 0, [Block(c + L.mmapHeader, bytes - overhead, FREE, 0, false)])],
                    s.order + [c], s.written + {c + L.mmapHeader})
            else s
  {
    hide RegionInv, KernelOk, FirstRegion, AllocateAt, Fits;
    Tenth(L);
    MallocRefines(L, s, size, k);
    NothingFits(s, L.AlignRequest(size));
    if s.order == [] {
      if size > 0 && HasFirst(s, k) { FreshHeadServes(L, s, size, k); }
      assert s.order + [0] == [0];
    } else {
      ListedSizes(L, s, 0);
      FirstRegionEarliest(s.regions, s.order, L.AlignRequest(size));
      NewRegionFits(L, s, size, k);
      var (s1, b) := MapRegion(L, s, k);
      if b.Some? { MissedIn(L, s1, b.value, L.AlignRequest(size)); }
    }
  }

  /** The region made for a request that nothing listed fits. */
  lemma NewRegionFits(L: Layout, s: State, size: nat, k: Kernel)
    requires L.Valid() && Inv(L, s) && s.order != []
    ensures k.full != None ==> (Fits(FreshRegion(L, k.full.value, L.regionSize), L.AlignRequest(size))
                                <==> L.AlignRequest(size) <= L.MaxSize(L.regionSize))
    ensures k.fallback != None ==> (Fits(FreshRegion(L, k.fallback.value, L.FallbackSize()), L.AlignRequest(size))
                                    <==> L.AlignRequest(size) <= L.MaxSize(L.FallbackSize()))
  {
    if k.full != None { FreshFits(L, k.full.value, L.regionSize, L.AlignRequest(size)); }
    if k.fallback != None { FreshFits(L, k.fallback.value, L.FallbackSize(), L.AlignRequest(size)); }
  }

  /** A new region is opened only when no block of the list fits; otherwise the block taken is
      the earliest fitting one of the earliest region that has one. */
  lemma MallocFirstFit(L: Layout, s: State, size: nat, k: Kernel, j: nat, i: nat)
    requires L.Valid() && Inv(L, s) && KernelOk(L, s, k) && j < |s.order|
    requires 0 < size && L.AlignRequest(size) < L.MaxSize(s.regions[s.order[0]].size)
    requires var n := L.AlignRequest(size);
             && i < |s.regions[s.order[j]].blocks|
             && s.regions[s.order[j]].blocks[i].Free() && s.regions[s.order[j]].blocks[i].size >= n
             && (forall h :: 0 <= h < i ==>
                   !(s.regions[s.order[j]].blocks[h].Free() && s.regions[s.order[j]].blocks[h].size >= n))
             && (forall g, h :: 0 <= g < j && 0 <= h < |s.regions[s.order[g]].blocks| ==>
                   !(s.regions[s.order[g]].blocks[h].Free() && s.regions[s.order[g]].blocks[h].size >= n))
    ensures var (t, p) := Malloc(L, s, size, k);
            && p == s.regions[s.order[j]].blocks[i].addr + L.header + L.Shift(L.AlignRequest(size))
            && t.order == s.order && t.regions.Keys == s.regions.Keys
            && forall c :: c in s.regions && c != s.order[j] ==> t.regions[c] == s.regions[c]
    ensures var t := Malloc(L, s, size, k).0;
            var n := L.AlignRequest(size);
            var r := s.regions[s.order[j]];
            var x := r.blocks[i];
            var split := x.size > L.Round(n) + L.header;
            var rest := Block(x.addr + L.header + L.Round(n), x.size - L.Round(n) - L.header, FREE, 0, false);
            && t.regions[s.order[j]] ==
               Region(r.base, r.size, r.elements + 1,
                      r.blocks[..i]
                      + (if split then [Block(x.addr, L.Round(n), BUSY, n, x.freed), rest]
                         else [Block(x.addr, x.size, BUSY, n, x.freed)])
                      + r.blocks[i + 1..])
            && t.written == s.written + if split then {rest.addr} else {}
  {
    hide RegionInv, KernelOk, FirstFit, FirstRegion;
    var n := L.AlignRequest(size);
    var r := s.regions[s.order[j]];
    FirstFitUnique(r.blocks, n, i);
    forall g | 0 <= g < j ensures !Fits(s.regions[s.order[g]], n) {
      var bs := s.regions[s.order[g]].blocks;
      FirstFitEarliest(bs, n);
    }
    FirstRegionEarliest(s.regions, s.order, n);
    assert Malloc(L, s, size, k) == AllocateAt(L, s, s.order[j], n);
    hide Malloc;
    TakenListed(L, s, s.order[j], n, i);
  }

  lemma TakenListed(L: Layout, s: State, b: int, n: nat, i: nat)
    requires b in s.regions && i < |s.regions[b].blocks| && FirstFit(s.regions[b].blocks, n) == i
    ensures var (t, p) := AllocateAt(L, s, b, n);
            var r := s.regions[b];
            var x := r.blocks[i];
            var split := x.size > L.Round(n) + L.header;
            var rest := Block(x.addr + L.header + L.Round(n), x.size - L.Round(n) - L.header, FREE, 0, false);
            && p == x.addr + L.header + L.Shift(n)
            && t.order == s.order
            && t.regions == s.regions[b := Region(r.base, r.size, r.elements + 1,
                                                  r.blocks[..i]
                                                  + (if split then [Block(x.addr, L.Round(n), BUSY, n, x.freed), rest]
                                                     else [Block(x.addr, x.size, BUSY, n, x.freed)])
                                                  + r.blocks[i + 1..])]
            && t.written == s.written + if split then {rest.addr} else {}
  {
    CarveIs(L, s.regions[b].blocks[i], n);
    assert Allocate(L, s.regions[b].blocks, i, n)[i] == Carve(L, s.regions[b].blocks[i], n)[0];
  }

  /** When nothing listed fits, the request goes to a region of its own at the end of the list, which
      holds its block and, if a byte is left over, the remainder. */
  lemma MallocOpensRegion(L: Layout, s: State, size: nat, k: Kernel)
    requires L.Valid() && Inv(L, s) && KernelOk(L, s, k) && Malloc(L, s, size, k).1 != 0
    requires forall j :: 0 <= j < |s.order| ==> s.order[j] in s.regions
    requires s.order == [] || NothingFree(s, L.AlignRequest(size))
    ensures k.full != None || k.fallback != None
    ensures var (t, p) := Malloc(L, s, size, k);
            var n := L.AlignRequest(size);
            var c := if k.full != None then k.full.value else k.fallback.value;
            var bytes := if k.full != None then L.regionSize else L.regionSize / 10;
            var payload := bytes - L.mmapHeader - L.header;
            var first := c + L.mmapHeader;
            var split := payload > L.Round(n) + L.header;
            var rest := Block(first + L.header + L.Round(n), payload - L.Round(n) - L.header, FREE, 0, false);
            && p == first + L.header + L.Shift(n)
            && t.order == s.order + [c]
            && t.regions == s.regions[c := Region(c, bytes, 1,
                                                  if split then [Block(first, L.Round(n), BUSY, n, false), rest]
                                                  else [Block(first, payload, BUSY, n, false)])]
            && t.written == s.written + {first} + if split then {rest.addr} else {}
  {
    hide RegionInv, KernelOk, FirstRegion, NothingFree;
    var n := L.AlignRequest(size);
    Tenth(L);
    MallocRefusedIff(L, s, size, k);
    NothingFits(s, n);
    var c := if k.full != None then k.full.value else k.fallback.value;
    var bytes := if k.full != None then L.regionSize else L.regionSize / 10;
    if s.order == [] { FreshHeadServes(L, s, size, k); }
    FreshFits(L, c, bytes, n);
    var s1 := Enlist(L, s, c, bytes);
    assert Malloc(L, s, size, k) == AllocateAt(L, s1, c, n);
    TakenFresh(L, s, c, bytes, n);
  }

  lemma TakenFresh(L: Layout, s: State, c: int, bytes: int, n: nat)
    requires Fits(FreshRegion(L, c, bytes), n)
    ensures var (t, p) := AllocateAt(L, Enlist(L, s, c, bytes), c, n);
            var payload := bytes - L.mmapHeader - L.header;
            var first := c + L.mmapHeader;
            var split := payload > L.Round(n) + L.header;
            var rest := Block(first + L.header + L.Round(n), payload - L.Round(n) - L.header, FREE, 0, false);
            && p == first + L.header + L.Shift(n)
            && t.order == s.order + [c]
            && t.regions == s.regions[c := Region(c, bytes, 1,
                                                  if split then [Block(first, L.Round(n), BUSY, n, false), rest]
                                                  else [Block(first, payload, BUSY, n, false)])]
            && t.written == s.written + {first} + if split then {rest.addr} else {}
  {
    var bs := FreshBlocks(L, c, bytes);
    assert bs == [bs[0]] && FirstFit(bs, n) == 0;
    assert Allocate(L, bs, 0, n) == Carve(L, bs[0], n);
  }
}
