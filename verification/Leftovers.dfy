/** Headers that are no block's any more: how calls and callers make and unmake them, and what
    becomes of the allocator when `vgc_free` takes one for the header it looks for. */
module Leftovers {
  import opened Arithmetic
  import opened Layouts
  import opened Blocks
  import opened States
  import opened LiveRanges
  import opened Runs
  import opened Memory
  import opened Representation

  // ----- taking a block -----

  /** What is known about headers after a block was taken. */
  lemma TakenKnown(L: Layout, s: State, mem: map<int, Header>, mem': map<int, Header>, b: int, k: nat, n: nat)
    requires L.Valid() && Inv(L, s) && HeadersKnown(s, mem) && b in s.regions && (L.mprotect ==> n > 0)
    requires Fits(s.regions[b], n) && k == FirstFit(s.regions[b].blocks, n) < |s.regions[b].blocks|
    requires ListIn(mem', b, Allocate(L, s.regions[b].blocks, k, n))
    requires mem'.Keys == mem.Keys + SplitAt(L, s.regions[b].blocks[k], n)
    requires var m := Carve(L, s.regions[b].blocks[k], n);
             forall a :: a in mem && !HeadedAt(s.regions[b].blocks, a) && (|m| == 2 ==> a != m[1].addr) ==>
               a in mem' && mem'[a] == mem[a]
    ensures HeadersKnown(AllocateAt(L, s, b, n).0, mem')
  {
    hide Inv, Carve, ListIn;
    var bs := s.regions[b].blocks;
    var m := Carve(L, bs[k], n);
    var after := Allocate(L, bs, k, n);
    var t := AllocateAt(L, s, b, n).0;
    AllocateAtInv(L, s, b, n);
    RegionFacts(L, t, b);
    assert t.regions[b].blocks == after;
    forall a | a in mem' ensures WrittenIn(t.regions, a, mem'[a]) {
      if HeadedAt(after, a) {
        var j :| 0 <= j < |after| && after[j].addr == a;
        HeaderAt(mem', b, after, j);
      } else {
        if HeadedAt(bs, a) { StillHeaded(L, bs, k, n, a); }
        if |m| == 2 { assert after[k + 1] == m[1]; }
        assert WrittenIn(s.regions, a, mem[a]);
      }
    }
  }

  /** Memory before a block is taken, for the one who takes it. */
  lemma TakeStart(L: Layout, s: State, mem: map<int, Header>, mm: map<int, MmapHeader>, protNone: set<int>, count: int,
                  b: int)
    requires L.Valid() && Inv(L, s) && Represents(L, s, mem, mm, protNone, count) && b in s.regions
    ensures b in mm && NULL !in mem && ListIn(mem, b, s.regions[b].blocks) && protNone == Guards(L, s.regions)
  {
    hide Inv, Guards, HeadersKnown;
  }

  /** Memory after a block was taken represents the state after. */
  lemma TakenRepresents(L: Layout, s: State, mem: map<int, Header>, mem': map<int, Header>, mm: map<int, MmapHeader>,
                        protNone: set<int>, count: int, b: int, k: nat, n: nat)
    requires L.Valid() && Inv(L, s) && Represents(L, s, mem, mm, protNone, count)
    requires b in s.regions && b in mm && (L.mprotect ==> n > 0)
    requires Fits(s.regions[b], n) && k == FirstFit(s.regions[b].blocks, n) < |s.regions[b].blocks|
    requires ListIn(mem', b, Allocate(L, s.regions[b].blocks, k, n)) && NULL !in mem'
    requires mem'.Keys == mem.Keys + SplitAt(L, s.regions[b].blocks[k], n)
    requires var m := Carve(L, s.regions[b].blocks[k], n);
             forall a :: a in mem && !HeadedAt(s.regions[b].blocks, a) && (|m| == 2 ==> a != m[1].addr) ==>
               a in mem' && mem'[a] == mem[a]
    ensures var m := Carve(L, s.regions[b].blocks[k], n);
            Represents(L, AllocateAt(L, s, b, n).0, mem', mm[b := mm[b].(elements := mm[b].elements + 1)],
                       protNone + (if L.mprotect && |m| == 2 then {m[1].addr} else {}), count)
  {
    hide Inv, RegionInv, Carve, Allocate, Guards, RegionsIn, Holds, HeadersKnown;
    RegionFacts(L, s, b);
    CarvedInside(L, s, b, k, n);
    AllocatedGuards(L, s, b, k, n);
    TakenKnown(L, s, mem, mem', b, k, n);
    OtherListsKept(L, s, mem, mem', b);
    RegionsInCount(L, s, mm, b, AllocateIn(L, s.regions[b], k, n));
    RegionsInOnly(L, s.(regions := s.regions[b := AllocateIn(L, s.regions[b], k, n)]), AllocateAt(L, s, b, n).0,
                  mm[b := mm[b].(elements := mm[b].elements + 1)]);
  }

  lemma StillHeaded(L: Layout, bs: seq<Block>, k: nat, n: nat, a: int)
    requires k < |bs| && HeadedAt(bs, a)
    ensures HeadedAt(Allocate(L, bs, k, n), a)
  {
    var j :| 0 <= j < |bs| && bs[j].addr == a;
    var m := Carve(L, bs[k], n);
    var h := if j <= k then j else j + |m| - 1;
    assert Allocate(L, bs, k, n)[h].addr == a;
  }

  // ----- headers left behind over a vgc_malloc -----

  /** a is the header of a block. */
  ghost predicate Headed(s: State, a: int) {
    exists b, i :: b in s.regions && 0 <= i < |s.regions[b].blocks| && s.regions[b].blocks[i].addr == a
  }

  /** Every header that is no block's in t is as it was. */
  ghost predicate OldKept(t: State, mem: map<int, Header>, mem': map<int, Header>) {
    forall a :: a in mem && !Headed(t, a) ==> a in mem' && mem'[a] == mem[a]
  }

  lemma HeadedTaken(L: Layout, s: State, b: int, n: nat)
    requires b in s.regions
    ensures forall a :: Headed(s, a) ==> Headed(AllocateAt(L, s, b, n).0, a)
  {
    var t := AllocateAt(L, s, b, n).0;
    var k := FirstFit(s.regions[b].blocks, n);
    forall a | Headed(s, a) ensures Headed(t, a) {
      var c, i :| c in s.regions && 0 <= i < |s.regions[c].blocks| && s.regions[c].blocks[i].addr == a;
      if c == b && k < |s.regions[b].blocks| {
        assert HeadedAt(s.regions[b].blocks, a);
        StillHeaded(L, s.regions[b].blocks, k, n, a);
        var j :| 0 <= j < |t.regions[b].blocks| && t.regions[b].blocks[j].addr == a;
      } else {
        assert t.regions[c] == s.regions[c];
      }
    }
  }

  lemma HeadedEnlisted(L: Layout, s: State, b: int, size: int)
    requires b !in s.regions
    ensures forall a :: Headed(s, a) ==> Headed(Enlist(L, s, b, size), a)
    ensures Headed(Enlist(L, s, b, size), b + L.mmapHeader)
  {
    var t := Enlist(L, s, b, size);
    assert t.regions[b].blocks[0].addr == b + L.mmapHeader;
    forall a | Headed(s, a) ensures Headed(t, a) {
      var c, i :| c in s.regions && 0 <= i < |s.regions[c].blocks| && s.regions[c].blocks[i].addr == a;
      assert t.regions[c] == s.regions[c];
    }
  }

  lemma EnlistKept(L: Layout, s: State, b: int, size: int, mem: map<int, Header>, h: Header)
    requires b !in s.regions
    ensures OldKept(Enlist(L, s, b, size), mem, mem[b + L.mmapHeader := h])
  {
    HeadedEnlisted(L, s, b, size);
  }

  lemma HeadedMapped(L: Layout, s: State, k: Kernel)
    requires k.full.Some? ==> k.full.value !in s.regions
    requires k.full.None? && k.fallback.Some? ==> k.fallback.value !in s.regions
    ensures forall a :: Headed(s, a) ==> Headed(MapRegion(L, s, k).0, a)
  {
    if k.full.Some? { HeadedEnlisted(L, s, k.full.value, L.regionSize); }
    else if k.fallback.Some? { HeadedEnlisted(L, s, k.fallback.value, L.FallbackSize()); }
  }

  lemma OldKeptTaken(L: Layout, s: State, mem: map<int, Header>, mem': map<int, Header>, b: int, k: nat, n: nat)
    requires b in s.regions && k == FirstFit(s.regions[b].blocks, n) < |s.regions[b].blocks|
    requires var m := Carve(L, s.regions[b].blocks[k], n);
             forall a :: a in mem && !HeadedAt(s.regions[b].blocks, a) && (|m| == 2 ==> a != m[1].addr) ==>
               a in mem' && mem'[a] == mem[a]
    ensures OldKept(AllocateAt(L, s, b, n).0, mem, mem')
  {
    hide Carve;
    var bs := s.regions[b].blocks;
    var m := Carve(L, bs[k], n);
    var t := AllocateAt(L, s, b, n).0;
    var after := Allocate(L, bs, k, n);
    assert t.regions[b].blocks == after;
    forall a | HeadedAt(after, a) ensures Headed(t, a) {
      var j :| 0 <= j < |after| && after[j].addr == a;
      assert t.regions[b].blocks[j].addr == a;
    }
    forall a | a in mem && !Headed(t, a) ensures a in mem' && mem'[a] == mem[a] {
      if HeadedAt(bs, a) { StillHeaded(L, bs, k, n, a); }
      if |m| == 2 { assert t.regions[b].blocks[k + 1] == m[1]; }
    }
  }

  lemma OldKeptCompose(s1: State, t: State, mem: map<int, Header>, mem1: map<int, Header>, mem2: map<int, Header>)
    requires OldKept(s1, mem, mem1) && OldKept(t, mem1, mem2)
    requires forall a :: Headed(s1, a) ==> Headed(t, a)
    ensures OldKept(t, mem, mem2)
  {
  }

  lemma NothingTouched(t: State, mem: map<int, Header>)
    ensures OldKept(t, mem, mem)
  {
  }

  // ----- overwriting -----

  /** Bytes that hold no field of a current structure can be overwritten: what is lost are
      headers left behind. */
  lemma OverwrittenRepresents(L: Layout, s: State, mem: map<int, Header>, mm: map<int, MmapHeader>,
                              protNone: set<int>, count: int, lo: int, n: nat)
    requires Represents(L, s, mem, mm, protNone, count) && (forall c :: c in s.regions ==> s.regions[c].base == c)
    requires L.FieldOffset() < L.header
    requires forall a :: lo <= a < lo + n ==> NoField(L, s, a)
    ensures Represents(L, Overwritten(L, s, lo, n), Cleared(L, mem, lo, n), mm, protNone, count)
    ensures forall a :: a in Cleared(L, mem, lo, n) <==>
              a in mem && (n == 0 || lo + n <= a + L.FieldOffset() || a + L.header <= lo)
    ensures forall a :: a in Cleared(L, mem, lo, n) ==> Cleared(L, mem, lo, n)[a] == mem[a]
  {
    hide Guards, RegionsIn;
    var t := Overwritten(L, s, lo, n);
    var mem' := Cleared(L, mem, lo, n);
    OverwrittenLists(L, s, mem, lo, n);
    forall a | a in mem' ensures WrittenIn(t.regions, a, mem'[a]) {
      assert WrittenIn(s.regions, a, mem[a]);
    }
    assert mem'.Keys == t.written;
    RegionsInOnly(L, s, t, mm);
  }

  lemma OverwriteFacts(L: Layout, s: State, lo: int, n: nat)
    requires L.Valid() && Inv(L, s)
    ensures L.FieldOffset() < L.header && forall c :: c in s.regions ==> s.regions[c].base == c
    ensures Inv(L, Overwritten(L, s, lo, n))
  {
    WrittenApart(L, s, Overwritten(L, s, lo, n).written);
  }

  lemma RegionsInOnly(L: Layout, s: State, t: State, mm: map<int, MmapHeader>)
    requires RegionsIn(L, s, mm) && t.regions == s.regions && t.order == s.order
    ensures RegionsIn(L, t, mm)
  {
    forall j | 0 <= j < |t.order| ensures ListedLinks(mm, t.order, j) {
      assert ListedLinks(mm, s.order, j);
    }
  }

  lemma OverwrittenLists(L: Layout, s: State, mem: map<int, Header>, lo: int, n: nat)
    requires ListsIn(mem, s.regions) && L.FieldOffset() < L.header
    requires forall a :: lo <= a < lo + n ==> NoField(L, s, a)
    ensures ListsIn(Cleared(L, mem, lo, n), s.regions)
  {
    forall c | c in s.regions ensures ListIn(Cleared(L, mem, lo, n), c, s.regions[c].blocks) {
      var bs := s.regions[c].blocks;
      forall j | 0 <= j < |bs| ensures Holds(Cleared(L, mem, lo, n), bs[j].addr, HeaderFor(c, bs, j)) {
        HeaderAt(mem, c, bs, j);
        if Meets(L, bs[j].addr, lo, n) {
          var a := if lo <= bs[j].addr + L.FieldOffset() then bs[j].addr + L.FieldOffset() else lo;
          assert NoField(L, s, a) && Fields(L, s.regions[c], a);
        }
      }
    }
  }

  /** Overwriting old headers only removes places that mislead. */
  lemma OverwrittenNotMisled(L: Layout, s: State, lo: int, n: nat, p: int, junk: bool)
    requires !Misled(L, s, p, junk)
    ensures !Misled(L, Overwritten(L, s, lo, n), p, junk) && (junk ==> !Misled(L, Overwritten(L, s, lo, n), p, false))
  {
    var t := Overwritten(L, s, lo, n);
    assert forall b, i: nat :: LiveAt(L, t, p, b, i) <==> LiveAt(L, s, p, b, i);
  }

  // ----- vgc_free misled -----

  /** What lies where vgc_free looks for the header of a live block. */
  lemma Marks(L: Layout, s: State, mem: map<int, Header>, mm: map<int, MmapHeader>, protNone: set<int>, count: int,
              ptr: nat, b: int, i: nat)
    requires L.Valid() && Inv(L, s) && Represents(L, s, mem, mm, protNone, count) && LiveAt(L, s, ptr, b, i)
    requires InWindow(L, s, ptr) && forall c, j: nat :: LiveAt(L, s, ptr, c, j) ==> c == b && j == i
    ensures var a := L.HeaderOf(ptr);
            && (a in mem ==> Intact(mem[a]) && mem[a].mmapBlock in s.regions && mem[a].mmapBlock in mm
                             && IntactRegion(mm[mem[a].mmapBlock]))
            && (L.Shiftable(s.regions[b].blocks[i].request) <==> FoundAt(L, s, ptr, b, i))
            && (L.Shiftable(s.regions[b].blocks[i].request) ==> a in mem)
            && (forall junk :: Misled(L, s, ptr, junk) <==>
                  !L.Shiftable(s.regions[b].blocks[i].request) && (a in mem || junk))
  {
    hide Sound, Guards, MutualLinks, ListedLinks;
    var a := L.HeaderOf(ptr);
    FoundHeader(L, s, ptr, b, i);
    HeaderAt(mem, b, s.regions[b].blocks, i);
    if a in mem { assert WrittenIn(s.regions, a, mem[a]); }
  }

  lemma NotPassed(L: Layout, s: State, ptr: nat)
    requires L.Valid() && Inv(L, s) && Freeable(L, s, ptr) && !Misled(L, s, ptr, false)
    requires !(InWindow(L, s, ptr) && exists b, i: nat :: FoundAt(L, s, ptr, b, i))
    ensures Free(L, s, ptr) == s
  {
  }

  lemma FreedState(L: Layout, s: State, b: int, i: nat)
    requires b in s.regions && i < |s.regions[b].blocks|
    ensures FreeAt(L, s, b, i) ==
            if |Release(L, s.regions[b].blocks, i)| == 1 then Unmap(s, b) else Released(L, s, b, i)
  {
  }

  lemma MisledPlace(L: Layout, s: State, mem: map<int, Header>, mm: map<int, MmapHeader>, protNone: set<int>,
                    count: int, ptr: nat)
    requires Represents(L, s, mem, mm, protNone, count) && Misled(L, s, ptr, false)
    ensures L.HeaderOf(ptr) in mem && forall junk :: Misled(L, s, ptr, junk)
  {
  }

  lemma RegionHere(L: Layout, s: State, mem: map<int, Header>, mm: map<int, MmapHeader>, protNone: set<int>, count: int,
                   b: int)
    requires Inv(L, s) && Represents(L, s, mem, mm, protNone, count) && b in s.regions
    ensures b in mm
  {
    hide Guards;
  }

  /** Two lists that lie in the same memory and start at the same place are the same. */
  lemma {:induction false} SameList(mem: map<int, Header>, base: int, bs: seq<Block>, cs: seq<Block>, k: nat)
    requires ListIn(mem, base, bs) && ListIn(mem, base, cs) && bs != [] && cs != [] && bs[0].addr == cs[0].addr
    requires forall i :: 0 <= i < |bs| ==> bs[i].addr != NULL
    requires forall i :: 0 <= i < |cs| ==> cs[i].addr != NULL
    requires k < |bs|
    ensures k < |cs| && bs[k].addr == cs[k].addr && bs[k].status == cs[k].status
  {
    if k > 0 {
      SameList(mem, base, bs, cs, k - 1);
      HeaderAt(mem, base, bs, k - 1);
      HeaderAt(mem, base, cs, k - 1);
    }
    HeaderAt(mem, base, bs, k);
    HeaderAt(mem, base, cs, k);
  }

  lemma {:induction false} SameTally(bs: seq<Block>, cs: seq<Block>)
    requires |bs| == |cs| && forall i :: 0 <= i < |bs| ==> bs[i].status == cs[i].status
    ensures Tally(bs).live == Tally(cs).live
  {
    if bs != [] {
      SameTally(bs[1..], cs[1..]);
    }
  }

  lemma SameLive(L: Layout, s: State, t: State, mem: map<int, Header>, b: int)
    requires L.Valid() && Inv(L, s) && Inv(L, t) && b in s.regions && b in t.regions
    requires ListsIn(mem, s.regions) && ListsIn(mem, t.regions)
    ensures Tally(s.regions[b].blocks).live == Tally(t.regions[b].blocks).live
  {
    hide Inv, RegionInv, Tiles, Tally;
    var bs, cs := s.regions[b].blocks, t.regions[b].blocks;
    RegionFacts(L, s, b);
    RegionFacts(L, t, b);
    forall k | 0 <= k < |bs| ensures k < |cs| && bs[k].status == cs[k].status {
      SameList(mem, b, bs, cs, k);
    }
    assert |bs| <= |cs| by { assert |bs| - 1 < |cs|; }
    assert |cs| <= |bs| by { SameList(mem, b, cs, bs, |cs| - 1); }
    SameTally(bs, cs);
  }

  /** Counting an element out that was not freed leaves memory that represents no state at
      all in which the invariant holds. */
  lemma MiscountBreaks(L: Layout, s: State, mem: map<int, Header>, mm: map<int, MmapHeader>, protNone: set<int>,
                       count: int, b: int, t: State)
    requires L.Valid() && Inv(L, s) && Represents(L, s, mem, mm, protNone, count) && b in s.regions && b in mm
    requires Inv(L, t)
    ensures !Represents(L, t, mem, mm[b := mm[b].(elements := mm[b].elements - 1)], protNone, count)
  {
    hide Sound, Guards, MutualLinks;
    var mm' := mm[b := mm[b].(elements := mm[b].elements - 1)];
    if Represents(L, t, mem, mm', protNone, count) {
      RegionFacts(L, s, b);
      HeaderAt(mem, b, s.regions[b].blocks, 0);
      assert WrittenIn(t.regions, b + L.mmapHeader, mem[b + L.mmapHeader]);
      SameLive(L, s, t, mem, b);
      RegionFacts(L, t, b);
    }
  }
}
