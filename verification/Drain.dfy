/** What becomes of the mapped regions when everything is freed. Within one region the order
    does not matter. Across regions it does: releasing the head of the list drops its
    successors. A region that was mapped but never served a request, and a block whose length
    is a page multiple, are never returned at all. */
module Drain {
  import opened Arithmetic
  import opened Layouts
  import opened Blocks
  import opened States
  import opened LiveRanges
  import opened Runs

  /** Each pointer of ps may be given to vgc_free when its turn comes, and none misleads it. */
  ghost predicate AllFreeable(L: Layout, s: State, ps: seq<int>)
    decreases ps
  {
    || ps == []
    || (Freeable(L, s, ps[0]) && !Misled(L, s, ps[0], false) && AllFreeable(L, Free(L, s, ps[0]), ps[1..]))
  }

  ghost function FreeAll(L: Layout, s: State, ps: seq<int>): State
    requires AllFreeable(L, s, ps)
    decreases ps
  {
    if ps == [] then s else FreeAll(L, Free(L, s, ps[0]), ps[1..])
  }

  /** Every mapped region is listed and in use. */
  ghost predicate AllInUse(s: State) {
    forall b :: b in s.regions ==> b in s.order && s.regions[b].elements > 0
  }

  ghost predicate AllListed(s: State) {
    forall b :: b in s.regions ==> b in s.order
  }

  /** No listed region is of the smaller size, so no window reaches beyond its region. */
  ghost predicate AllFull(L: Layout, s: State) {
    forall b :: b in s.order ==> b in s.regions && s.regions[b].size == L.regionSize
  }

  /** ps names every live pointer once. */
  ghost predicate Names(live: map<int, nat>, ps: seq<int>) {
    && (forall p :: p in ps <==> p in live)
    && (forall i, j :: 0 <= i < j < |ps| ==> ps[i] != ps[j])
  }

  /** No length is a page multiple. */
  ghost predicate AllShiftable(L: Layout, live: map<int, nat>) {
    forall p :: p in live ==> L.Shiftable(live[p])
  }

  ghost predicate LivesIn(L: Layout, r: Region, p: int) {
    exists x :: x in BusySet(r.blocks) && x.Pointer(L) == p
  }

  ghost predicate InHead(L: Layout, s: State, p: int) {
    s.order != [] && s.order[0] in s.regions && LivesIn(L, s.regions[s.order[0]], p)
  }

  // ----- freeing one region's worth -----

  /** A region is unmapped by a free exactly when that free ends its last live block. */
  lemma UnmappedExactly(L: Layout, s: State, p: int, b: int, i: nat)
    requires L.Valid() && Inv(L, s) && LiveAt(L, s, p, b, i)
    ensures b !in FreeAt(L, s, b, i).regions <==> s.regions[b].elements == 1
    ensures forall c :: c in s.regions && c != b ==>
              c in FreeAt(L, s, b, i).regions && FreeAt(L, s, b, i).regions[c] == s.regions[c]
  {
    ReleaseInInv(L, s.regions[b], i);
  }

  /** What a free leaves of the region, of the list and of the headers written: one element less;
      or no region, no list if it was the head, else the list without it, and none of the headers
      that lay in it. */
  lemma FreedExactly(L: Layout, s: State, p: int, b: int, i: nat)
    requires L.Valid() && Inv(L, s) && LiveAt(L, s, p, b, i)
    ensures var t := FreeAt(L, s, b, i);
            var size := s.regions[b].size;
            if s.regions[b].elements > 1 then
              && t.order == s.order && t.written == s.written && t.regions.Keys == s.regions.Keys
              && t.regions[b].elements == s.regions[b].elements - 1
              && t.regions[b].size == size && t.regions[b].base == b
            else
              && t.regions.Keys == s.regions.Keys - {b}
              && (forall a :: a in t.written <==> a in s.written && !(b <= a < b + size))
              && (s.order != [] && s.order[0] == b ==> t.order == [])
              && (b !in s.order ==> t.order == s.order)
              && (forall m :: 0 < m < |s.order| && s.order[m] == b ==> t.order == s.order[..m] + s.order[m + 1..])
  {
    hide RegionInv, Release;
    UnmappedExactly(L, s, p, b, i);
    LiveRegionInUse(L, s, b, i);
    if b !in s.order { RemoveAbsent(s.order, b); }
    forall m | 0 < m < |s.order| && s.order[m] == b
      ensures Remove(s.order, b) == s.order[..m] + s.order[m + 1..] && s.order[0] != b
    {
      RemoveAt(s.order, b, m);
    }
  }

  /** A mapped region without live blocks is one free block that was never used. */
  lemma IdleRegionUnused(L: Layout, s: State, b: int)
    requires L.Valid() && Inv(L, s) && b in s.regions
    ensures (forall i :: 0 <= i < |s.regions[b].blocks| ==> s.regions[b].blocks[i].Free())
       <==> s.regions[b].blocks == [Block(b + L.mmapHeader, L.MaxSize(s.regions[b].size), FREE, 0, false)]
  {
    LiveCount(s.regions[b].blocks);
  }

  lemma RegionHasLive(L: Layout, s: State, b: int) returns (p: int, i: nat)
    requires L.Valid() && Inv(L, s) && b in s.regions && s.regions[b].elements > 0
    ensures LiveAt(L, s, p, b, i) && p in LiveMap(L, s)
  {
    LiveCount(s.regions[b].blocks);
    i :| 0 <= i < |s.regions[b].blocks| && !s.regions[b].blocks[i].Free();
    p := s.regions[b].blocks[i].Pointer(L);
    LiveAtInMap(L, s, p, b, i);
  }

  // ----- nothing is freed once the list is empty -----

  lemma {:induction false} EmptyListFreesNothing(L: Layout, s: State, ps: seq<int>)
    requires s.order == []
    ensures AllFreeable(L, s, ps) && FreeAll(L, s, ps) == s
  {
    if ps != [] {
      assert !InWindow(L, s, ps[0]);
      EmptyListFreesNothing(L, s, ps[1..]);
    }
  }

  // ----- one free of a full drain -----

  lemma NamesTail(L: Layout, live: map<int, nat>, ps: seq<int>)
    requires Names(live, ps) && ps != []
    ensures ps[0] in live && Names(live - {ps[0]}, ps[1..])
    ensures AllShiftable(L, live) ==> AllShiftable(L, live - {ps[0]}) && L.Shiftable(live[ps[0]])
  {
    assert ps[0] in ps;
    assert ps == [ps[0]] + ps[1..];
    assert forall i :: 0 <= i < |ps| - 1 ==> ps[1..][i] == ps[i + 1];
  }

  /** The first of the named pointers is found and freed. */
  lemma FirstFree(L: Layout, s: State, ps: seq<int>) returns (b: int, i: nat)
    requires L.Valid() && Inv(L, s) && AllInUse(s) && ps != [] && Names(LiveMap(L, s), ps)
    requires AllShiftable(L, LiveMap(L, s))
    ensures LiveAt(L, s, ps[0], b, i)
    ensures !Misled(L, s, ps[0], false) && Free(L, s, ps[0]) == FreeAt(L, s, b, i)
    ensures Inv(L, FreeAt(L, s, b, i))
    ensures LiveMap(L, FreeAt(L, s, b, i)) == LiveMap(L, s) - {ps[0]}
  {
    NamesTail(L, LiveMap(L, s), ps);
    b, i := LivePlace(L, s, ps[0]);
    ModUnique(1, 0, L.Page());
    WindowExact(L, s, ps[0], b, i);
    ShiftableNotMisled(L, s, ps[0], b, i);
    FreeIsFreeAt(L, s, ps[0], b, i);
    FreeRefines(L, s, ps[0]);
  }

  /** Where the other pointers live is unaffected. */
  lemma OthersStay(L: Layout, s: State, p: int, b: int, i: nat, q: int, c: int)
    requires L.Valid() && Inv(L, s) && LiveAt(L, s, p, b, i) && q != p
    requires c in s.regions && c in FreeAt(L, s, b, i).regions
    ensures LivesIn(L, s.regions[c], q) <==> LivesIn(L, FreeAt(L, s, b, i).regions[c], q)
  {
    hide BusySet, Release, Sound;
    UnmappedExactly(L, s, p, b, i);
    var r := s.regions[b];
    ReleaseLive(L, r.blocks, b + L.mmapHeader, b + r.size, i);
  }

  lemma LastBusy(L: Layout, s: State, p: int, b: int, i: nat)
    requires L.Valid() && Inv(L, s) && LiveAt(L, s, p, b, i) && s.regions[b].elements == 1
    ensures BusySet(s.regions[b].blocks) == {s.regions[b].blocks[i]}
  {
    hide Sound, Release;
    var r := s.regions[b];
    var left := Release(L, r.blocks, i);
    ReleaseLive(L, r.blocks, b + L.mmapHeader, b + r.size, i);
    LiveCount(left);
    assert BusySet(left) == {};
    assert r.blocks[i] in BusySet(r.blocks);
    assert BusySet(r.blocks) == BusySet(left) + {r.blocks[i]};
  }

  /** The last live block of a region is the one that was found there. */
  lemma LastLives(L: Layout, s: State, p: int, b: int, i: nat, q: int)
    requires L.Valid() && Inv(L, s) && LiveAt(L, s, p, b, i) && s.regions[b].elements == 1
    ensures LivesIn(L, s.regions[b], q) <==> q == p
  {
    LastBusy(L, s, p, b, i);
    hide Inv, BusySet;
    assert s.regions[b].blocks[i] in BusySet(s.regions[b].blocks);
  }

  /** If the freed block was not the head's last one, every region left is still in use. */
  lemma StillInUse(L: Layout, s: State, p: int, b: int, i: nat)
    requires L.Valid() && Inv(L, s) && AllInUse(s) && LiveAt(L, s, p, b, i)
    requires s.order[0] != b || s.regions[b].elements > 1
    ensures var t := FreeAt(L, s, b, i);
            AllInUse(t) && t.order != [] && t.order[0] == s.order[0]
  {
    hide Release, Sound, BusySet;
    UnmappedExactly(L, s, p, b, i);
    RemoveSpec(s.order, b);
    var t := FreeAt(L, s, b, i);
    if b in t.regions {
      LiveCount(t.regions[b].blocks);
      FreeAtInv(L, s, p, b, i);
      ReleaseInInv(L, s.regions[b], i);
    }
  }

  // ----- the drain -----

  lemma OnlyRegion(L: Layout, s: State, ps: seq<int>, b: int, i: nat)
    requires L.Valid() && Inv(L, s) && AllInUse(s) && |ps| == 1 && Names(LiveMap(L, s), ps)
    requires LiveAt(L, s, ps[0], b, i)
    ensures s.regions.Keys == {b}
  {
    hide RegionInv, BusySet, LiveMap;
    forall c | c in s.regions ensures c == b {
      var q, j := RegionHasLive(L, s, c);
      assert q in ps;
      LiveAtUnique(L, s, ps[0], b, i, c, j);
    }
  }

  /** With one pointer left there is one region left, and it is the head. */
  lemma OnlyPointer(L: Layout, s: State, ps: seq<int>, b: int, i: nat)
    requires L.Valid() && Inv(L, s) && AllInUse(s) && |ps| == 1 && Names(LiveMap(L, s), ps)
    requires LiveAt(L, s, ps[0], b, i)
    ensures s.regions.Keys == {b} && s.order[0] == b && InHead(L, s, ps[0])
  {
    hide RegionInv;
    OnlyRegion(L, s, ps, b, i);
    assert s.regions[b].blocks[i] in BusySet(s.regions[b].blocks);
  }

  lemma EmptyLive(L: Layout, s: State)
    requires L.Valid() && Inv(L, s) && AllInUse(s) && |LiveMap(L, s)| == 0
    ensures s.regions == map[]
  {
    forall c | c in s.regions ensures false {
      var q, j := RegionHasLive(L, s, c);
    }
  }

  /** The head goes while other pointers are live: their regions stay mapped for good. */
  lemma DrainStranded(L: Layout, s: State, ps: seq<int>, b: int, i: nat)
    requires L.Valid() && Inv(L, s) && |ps| > 1 && LiveAt(L, s, ps[0], b, i)
    requires s.order != [] && s.order[0] == b && s.regions[b].elements == 1
    requires AllFreeable(L, s, ps) && Free(L, s, ps[0]) == FreeAt(L, s, b, i) && Inv(L, FreeAt(L, s, b, i))
    requires ps[|ps| - 1] in LiveMap(L, FreeAt(L, s, b, i))
    ensures FreeAll(L, s, ps).regions != map[]
  {
    hide RegionInv, BusySet, LiveMap;
    var t := FreeAt(L, s, b, i);
    UnmappedExactly(L, s, ps[0], b, i);
    EmptyListFreesNothing(L, t, ps[1..]);
    var c, j := LivePlace(L, t, ps[|ps| - 1]);
  }

  lemma DrainLast(L: Layout, s: State, ps: seq<int>, b: int, i: nat)
    requires L.Valid() && Inv(L, s) && AllInUse(s) && |ps| == 1 && Names(LiveMap(L, s), ps)
    requires LiveAt(L, s, ps[0], b, i) && s.regions.Keys == {b} && s.order[0] == b
    requires AllFreeable(L, s, ps) && Free(L, s, ps[0]) == FreeAt(L, s, b, i)
    requires Inv(L, FreeAt(L, s, b, i)) && LiveMap(L, FreeAt(L, s, b, i)) == LiveMap(L, s) - {ps[0]}
    ensures FreeAll(L, s, ps).regions == map[]
  {
    hide RegionInv, BusySet, LiveMap;
    var t := FreeAt(L, s, b, i);
    assert FreeAll(L, s, ps) == t by { assert ps[1..] == []; }
    UnmappedExactly(L, s, ps[0], b, i);
    if s.regions[b].elements > 1 {
      StillInUse(L, s, ps[0], b, i);
      assert forall p :: p in LiveMap(L, s) ==> p == ps[0];
      assert LiveMap(L, t).Keys == {};
      EmptyLive(L, t);
    }
    LiveCount(s.regions[b].blocks);
  }

  /** Any other free leaves a smaller instance of the same problem. */
  lemma DrainContinues(L: Layout, s: State, ps: seq<int>, b: int, i: nat)
    requires L.Valid() && Inv(L, s) && AllInUse(s) && |ps| > 1 && LiveAt(L, s, ps[0], b, i)
    requires s.order[0] != b || s.regions[b].elements > 1
    requires ps[|ps| - 1] != ps[0]
    ensures var t := FreeAt(L, s, b, i);
            AllInUse(t) && (InHead(L, t, ps[|ps| - 1]) <==> InHead(L, s, ps[|ps| - 1]))
  {
    hide RegionInv, BusySet;
    StillInUse(L, s, ps[0], b, i);
    UnmappedExactly(L, s, ps[0], b, i);
    FreeAtInv(L, s, ps[0], b, i);
    OthersStay(L, s, ps[0], b, i, ps[|ps| - 1], s.order[0]);
  }

  /** The drain of regions that are all in use, with lengths vgc_free can cope with: the last
      pointer freed decides. */
  lemma {:induction false} DrainInUse(L: Layout, s: State, ps: seq<int>)
    requires L.Valid() && Inv(L, s) && AllInUse(s) && ps != [] && Names(LiveMap(L, s), ps)
    requires AllShiftable(L, LiveMap(L, s)) && AllFreeable(L, s, ps)
    ensures FreeAll(L, s, ps).regions == map[] <==> InHead(L, s, ps[|ps| - 1])
    decreases ps
  {
    hide Inv, AllInUse, LiveMap, FreeAt, Free, LivesIn, LiveAt, AllShiftable, Misled, Freeable;
    var b, i := FirstFree(L, s, ps);
    var t := FreeAt(L, s, b, i);
    NamesTail(L, LiveMap(L, s), ps);
    LivePlaced(L, s, ps[0], b, i);
    if |ps| == 1 {
      OnlyPointer(L, s, ps, b, i);
      DrainLast(L, s, ps, b, i);
    } else {
      var last := ps[|ps| - 1];
      assert last == ps[1..][|ps| - 2] && last in ps[1..] && last != ps[0];
      if s.order[0] == b && s.regions[b].elements == 1 {
        LastLives(L, s, ps[0], b, i, last);
        DrainStranded(L, s, ps, b, i);
      } else {
        DrainContinues(L, s, ps, b, i);
        DrainInUse(L, t, ps[1..]);
      }
    }
  }

  lemma LivePlaced(L: Layout, s: State, p: int, b: int, i: nat)
    requires Inv(L, s) && AllInUse(s) && LiveAt(L, s, p, b, i)
    ensures b in s.regions && s.regions[b].elements > 0 && s.order != [] && s.order[0] in s.regions
  {
  }

  // ----- what no free ever returns -----

  /** A region without live blocks, or with a live block whose length is a page multiple. */
  ghost predicate Stuck(L: Layout, r: Region) {
    r.elements == 0 || exists i :: 0 <= i < |r.blocks| && r.blocks[i].Busy() && !L.Shiftable(r.blocks[i].request)
  }

  /** Such a region survives every free, and stays such a region. */
  lemma StuckStays(L: Layout, s: State, p: int, b: int)
    requires L.Valid() && Inv(L, s) && Freeable(L, s, p) && !Misled(L, s, p, false)
    requires b in s.regions && Stuck(L, s.regions[b])
    ensures var t := Free(L, s, p);
            Inv(L, t) && b in t.regions && Stuck(L, t.regions[b])
  {
    hide RegionInv, Stuck, BusySet;
    var t := Free(L, s, p);
    if t != s {
      var c, i: nat :| LiveAt(L, s, p, c, i);
      FreeIsFreeAt(L, s, p, c, i);
      FreeAtInv(L, s, p, c, i);
      UnmappedExactly(L, s, p, c, i);
      if b == c {
        StuckRelease(L, s, b, i);
      }
    }
  }

  lemma StuckRelease(L: Layout, s: State, b: int, i: nat)
    requires L.Valid() && Inv(L, s) && b in s.regions && Stuck(L, s.regions[b])
    requires i < |s.regions[b].blocks| && s.regions[b].blocks[i].Busy() && L.Shiftable(s.regions[b].blocks[i].request)
    ensures s.regions[b].elements != 1 && Stuck(L, ReleaseIn(L, s.regions[b], i))
  {
    hide Release, Sound;
    var r := s.regions[b];
    LiveCount(r.blocks);
    ReleaseLive(L, r.blocks, b + L.mmapHeader, b + r.size, i);
    var k :| 0 <= k < |r.blocks| && r.blocks[k].Busy() && !L.Shiftable(r.blocks[k].request);
    var left := Release(L, r.blocks, i);
    assert r.blocks[k] in BusySet(r.blocks);
    assert r.blocks[k] in BusySet(left);
    var j :| 0 <= j < |left| && left[j] == r.blocks[k];
    LiveCount(left);
    assert !left[j].Free();
  }

  lemma {:induction false} StuckForever(L: Layout, s: State, ps: seq<int>, b: int)
    requires L.Valid() && Inv(L, s) && b in s.regions && Stuck(L, s.regions[b]) && AllFreeable(L, s, ps)
    ensures b in FreeAll(L, s, ps).regions
    decreases ps
  {
    hide RegionInv, Stuck, Free, Misled, Freeable;
    if ps != [] {
      StuckStays(L, s, ps[0], b);
      StuckForever(L, Free(L, s, ps[0]), ps[1..], b);
    }
  }

  /** No live pointer is a page multiple with an old header one page behind its own. */
  ghost predicate Clean(L: Layout, s: State)
    requires L.Valid() && Inv(L, s)
  {
    forall p :: p in LiveMap(L, s) && p >= 0 && !L.Shiftable(LiveMap(L, s)[p]) ==> L.HeaderOf(p) !in s.written
  }

  lemma CleanNotMisled(L: Layout, s: State, p: int)
    requires L.Valid() && Inv(L, s) && Clean(L, s)
    ensures !Misled(L, s, p, false)
  {
    forall b, i: nat | LiveAt(L, s, p, b, i)
      ensures p in LiveMap(L, s) && LiveMap(L, s)[p] == s.regions[b].blocks[i].request
    {
      LiveAtInMap(L, s, p, b, i);
    }
  }

  lemma FreeShrinksWritten(L: Layout, s: State, p: int)
    requires !Misled(L, s, p, false)
    ensures Free(L, s, p).written <= s.written
  {
  }

  /** In such a state all live pointers can be freed, in any order. */
  lemma {:induction false} NamedFreeable(L: Layout, s: State, ps: seq<int>)
    requires L.Valid() && Inv(L, s) && Clean(L, s) && forall i, j :: 0 <= i < j < |ps| ==> ps[i] != ps[j]
    requires forall p :: p in ps ==> p in LiveMap(L, s)
    ensures AllFreeable(L, s, ps)
    decreases ps
  {
    hide RegionInv, LiveMap, Free, Inv, Misled;
    if ps != [] {
      assert ps[0] in ps;
      CleanNotMisled(L, s, ps[0]);
      var b, i := LivePlace(L, s, ps[0]);
      FreeRefines(L, s, ps[0]);
      FreeShrinksWritten(L, s, ps[0]);
      forall p | p in ps[1..] ensures p in LiveMap(L, Free(L, s, ps[0])) {
        assert p in ps;
      }
      NamedFreeable(L, Free(L, s, ps[0]), ps[1..]);
    }
  }

  /** A pointer into an unlisted region fails the window test, if the windows are right. */
  lemma UnlistedRejected(L: Layout, s: State, p: int, b: int, i: nat)
    requires L.Valid() && Inv(L, s) && LiveAt(L, s, p, b, i) && b !in s.order && AllFull(L, s)
    ensures !InWindow(L, s, p)
  {
    var x := s.regions[b].blocks[i];
    BlockFitted(L, s, b, x);
    PointerBounds(L, x);
    forall c | c in s.order ensures !(c < p < c + L.regionSize) {
      assert Apart(b, s.regions[b].size, c, s.regions[c].size);
    }
  }

  lemma UnlistedStays(L: Layout, s: State, p: int, b: int)
    requires L.Valid() && Inv(L, s) && Freeable(L, s, p) && !Misled(L, s, p, false)
    requires AllFull(L, s) && b in s.regions && b !in s.order
    ensures var t := Free(L, s, p);
            Inv(L, t) && b in t.regions && b !in t.order && AllFull(L, t)
  {
    hide RegionInv, Release, InWindow;
    if InWindow(L, s, p) {
      var c, i: nat :| LiveAt(L, s, p, c, i);
      FreeIsFreeAt(L, s, p, c, i);
      FreeAtInv(L, s, p, c, i);
      RemoveSpec(s.order, c);
      if c == b { UnlistedRejected(L, s, p, b, i); }
    } else {
      NothingFreed(L, s, p);
    }
  }

  lemma {:induction false} UnlistedForever(L: Layout, s: State, ps: seq<int>, b: int)
    requires L.Valid() && Inv(L, s) && AllFull(L, s) && b in s.regions && b !in s.order && AllFreeable(L, s, ps)
    ensures b in FreeAll(L, s, ps).regions
    decreases ps
  {
    hide RegionInv, AllFull, Free, Misled, Freeable;
    if ps != [] {
      UnlistedStays(L, s, ps[0], b);
      UnlistedForever(L, Free(L, s, ps[0]), ps[1..], b);
    }
  }

  /** Freeing every live pointer, in any order, unmaps everything if and only if every region
      is listed and in use, no length was a page multiple, and the last pointer freed belongs
      to the head region. */
  lemma DrainExactly(L: Layout, s: State, ps: seq<int>)
    requires L.Valid() && Inv(L, s) && Names(LiveMap(L, s), ps) && AllFreeable(L, s, ps)
    requires AllListed(s) || AllFull(L, s)
    ensures FreeAll(L, s, ps).regions == map[]
       <==> AllInUse(s) && AllShiftable(L, LiveMap(L, s)) && (ps == [] || InHead(L, s, ps[|ps| - 1]))
  {
    hide RegionInv, LiveMap, FreeAll, Free, InHead, AllFreeable;
    if !AllListed(s) {
      var b :| b in s.regions && b !in s.order;
      UnlistedForever(L, s, ps, b);
    } else if !AllInUse(s) || !AllShiftable(L, LiveMap(L, s)) {
      var b := FindStuck(L, s);
      StuckForever(L, s, ps, b);
    } else if ps == [] {
      assert forall p :: p in ps <==> p in LiveMap(L, s);
      assert LiveMap(L, s).Keys == {};
      EmptyLive(L, s);
      NothingToFree(L, s);
    } else {
      DrainInUse(L, s, ps);
    }
  }

  lemma NothingToFree(L: Layout, s: State)
    ensures AllFreeable(L, s, []) && FreeAll(L, s, []) == s
  {
  }

  // ----- the drain of any state -----

  /** Every pointer passes the window test when its turn comes. */
  ghost predicate AllPass(L: Layout, s: State, ps: seq<int>)
    requires AllFreeable(L, s, ps)
    decreases ps
  {
    ps == [] || (InWindow(L, s, ps[0]) && AllPass(L, Free(L, s, ps[0]), ps[1..]))
  }

  /** No region was mapped in vain. */
  ghost predicate NoIdle(s: State) {
    forall b :: b in s.regions ==> s.regions[b].elements > 0
  }

  /** A pointer that is not freed stays live. */
  lemma {:induction false} StaysLive(L: Layout, s: State, ps: seq<int>, q: int)
    requires L.Valid() && Inv(L, s) && AllFreeable(L, s, ps) && q in LiveMap(L, s) && q !in ps
    requires forall p :: p in ps ==> p in LiveMap(L, s)
    requires forall i, j :: 0 <= i < j < |ps| ==> ps[i] != ps[j]
    ensures FreeAll(L, s, ps).regions != map[]
    decreases ps
  {
    hide RegionInv, LiveMap, Free, Inv, Misled, Freeable;
    if ps == [] {
      var b, i := LivePlace(L, s, q);
    } else {
      assert ps[0] in ps && q != ps[0];
      FreeRefines(L, s, ps[0]);
      forall p | p in ps[1..] ensures p in LiveMap(L, Free(L, s, ps[0])) {
        assert p in ps;
      }
      StaysLive(L, Free(L, s, ps[0]), ps[1..], q);
    }
  }

  lemma PassedFree(L: Layout, s: State, p: int)
    requires L.Valid() && Inv(L, s) && p in LiveMap(L, s) && !Misled(L, s, p, false)
    requires InWindow(L, s, p) && L.Shiftable(LiveMap(L, s)[p])
    ensures var t := Free(L, s, p);
            && Inv(L, t) && LiveMap(L, t) == LiveMap(L, s) - {p} && (NoIdle(t) <==> NoIdle(s))
            && (AllShiftable(L, LiveMap(L, t)) <==> AllShiftable(L, LiveMap(L, s)))
  {
    hide Inv, LiveMap, FreeAt, Free, Misled, NoIdle, LiveAt;
    var b, i := LivePlace(L, s, p);
    FreeIsFreeAt(L, s, p, b, i);
    FreeRefines(L, s, p);
    FreedIdle(L, s, p, b, i);
    ShiftableWithout(L, LiveMap(L, s), p);
  }

  lemma ShiftableWithout(L: Layout, live: map<int, nat>, p: int)
    requires p in live && L.Shiftable(live[p])
    ensures AllShiftable(L, live - {p}) <==> AllShiftable(L, live)
  {
    assert forall q :: q in live && q != p ==> q in live - {p};
  }

  lemma FreedIdle(L: Layout, s: State, p: int, b: int, i: nat)
    requires L.Valid() && Inv(L, s) && LiveAt(L, s, p, b, i)
    ensures NoIdle(FreeAt(L, s, b, i)) <==> NoIdle(s)
  {
    hide RegionInv, FreeAt;
    UnmappedExactly(L, s, p, b, i);
    LiveRegionInUse(L, s, b, i);
    ReleasedInUse(L, s, b, i);
    SameRegions(L, s, b, i);
  }

  lemma SameRegions(L: Layout, s: State, b: int, i: nat)
    requires b in s.regions && i < |s.regions[b].blocks|
    ensures FreeAt(L, s, b, i).regions.Keys <= s.regions.Keys
  {
  }

  lemma LiveRegionInUse(L: Layout, s: State, b: int, i: nat)
    requires Inv(L, s) && b in s.regions && i < |s.regions[b].blocks| && s.regions[b].blocks[i].Busy()
    ensures s.regions[b].elements > 0
  {
    LiveCount(s.regions[b].blocks);
    assert !s.regions[b].blocks[i].Free();
  }

  lemma ReleasedInUse(L: Layout, s: State, b: int, i: nat)
    requires L.Valid() && Inv(L, s) && b in s.regions && i < |s.regions[b].blocks| && s.regions[b].blocks[i].Busy()
    ensures b in FreeAt(L, s, b, i).regions ==> FreeAt(L, s, b, i).regions[b].elements > 0
  {
    LiveRegionInUse(L, s, b, i);
    ReleaseInInv(L, s.regions[b], i);
  }

  /** Whatever the regions and the list, freeing every live pointer unmaps everything if and only
      if no region was mapped in vain, no length was a page multiple, and every pointer passes
      the window test when its turn comes. */
  lemma {:induction false} DrainByWindow(L: Layout, s: State, ps: seq<int>)
    requires L.Valid() && Inv(L, s) && Names(LiveMap(L, s), ps) && AllFreeable(L, s, ps)
    ensures FreeAll(L, s, ps).regions == map[] <==> NoIdle(s) && AllShiftable(L, LiveMap(L, s)) && AllPass(L, s, ps)
    decreases ps
  {
    hide Inv, LiveMap, Free, Misled, Freeable, InWindow, AllShiftable;
    if ps == [] {
      NothingLive(L, s, ps);
    } else {
      var p := ps[0];
      NamesTail(L, LiveMap(L, s), ps);
      FreeRefines(L, s, p);
      if InWindow(L, s, p) && L.Shiftable(LiveMap(L, s)[p]) {
        PassedFree(L, s, p);
        DrainByWindow(L, Free(L, s, p), ps[1..]);
      } else {
        assert forall q :: q in ps[1..] ==> q in ps;
        assert forall i, j :: 0 <= i < j < |ps| - 1 ==> ps[1..][i] != ps[1..][j];
        StaysLive(L, s, ps[1..], p);
        NotAllShiftable(L, LiveMap(L, s), p);
      }
    }
  }

  lemma NotAllShiftable(L: Layout, live: map<int, nat>, p: int)
    requires p in live
    ensures AllShiftable(L, live) ==> L.Shiftable(live[p])
  {
  }

  lemma NothingLive(L: Layout, s: State, ps: seq<int>)
    requires L.Valid() && Inv(L, s) && Names(LiveMap(L, s), ps) && ps == []
    ensures AllShiftable(L, LiveMap(L, s)) && (s.regions == map[] <==> NoIdle(s))
  {
    hide LiveMap;
    assert forall p :: p in ps <==> p in LiveMap(L, s);
    if NoIdle(s) && exists b :: b in s.regions {
      var b :| b in s.regions;
      var q, j := RegionHasLive(L, s, b);
    }
  }

  lemma FindStuck(L: Layout, s: State) returns (b: int)
    requires L.Valid() && Inv(L, s) && AllListed(s)
    requires !AllInUse(s) || !AllShiftable(L, LiveMap(L, s))
    ensures b in s.regions && Stuck(L, s.regions[b])
  {
    hide LiveMap;
    if !AllInUse(s) {
      b :| b in s.regions && !(b in s.order && s.regions[b].elements > 0);
      LiveCount(s.regions[b].blocks);
    } else {
      var p :| p in LiveMap(L, s) && !L.Shiftable(LiveMap(L, s)[p]);
      var i;
      b, i := LivePlace(L, s, p);
    }
  }

  /** With a single region any order of freeing returns it, page multiples aside. */
  lemma DrainOneRegion(L: Layout, s: State, b: int, ps: seq<int>)
    requires L.Valid() && Inv(L, s) && s.regions.Keys == {b} && s.order == [b]
    requires s.regions[b].elements > 0 && Names(LiveMap(L, s), ps) && AllFreeable(L, s, ps)
    ensures FreeAll(L, s, ps).regions == map[] <==> AllShiftable(L, LiveMap(L, s))
  {
    hide RegionInv, LiveMap;
    var q, j := RegionHasLive(L, s, b);
    assert q in ps;
    var last := ps[|ps| - 1];
    assert last in LiveMap(L, s);
    var c, i := LivePlace(L, s, last);
    assert s.regions[b].blocks[i] in BusySet(s.regions[b].blocks);
    DrainExactly(L, s, ps);
  }

  /** Releasing a head that has successors leaves them mapped, with all their live blocks,
      and no pointer whatsoever can be freed until another region is mapped. */
  lemma HeadReleaseStrandsSuccessors(L: Layout, s: State, p: int, i: nat)
    requires L.Valid() && Inv(L, s) && |s.order| > 1
    requires LiveAt(L, s, p, s.order[0], i) && s.regions[s.order[0]].elements == 1
    ensures var t := FreeAt(L, s, s.order[0], i);
            && t.order == []
            && s.order[1] in t.regions && t.regions[s.order[1]] == s.regions[s.order[1]]
            && (forall q :: !InWindow(L, t, q) && Free(L, t, q) == t)
  {
    UnmappedExactly(L, s, p, s.order[0], i);
  }
}
