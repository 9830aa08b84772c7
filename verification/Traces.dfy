/** Whole runs of `vgc_malloc`, `vgc_free` and the callers' writes, from the empty allocator, with
    any sizes, any order of frees and any answers of the kernel. */
module Traces {
  import opened Arithmetic
  import opened Layouts
  import opened Blocks
  import opened States
  import opened LiveRanges
  import opened Runs
  import opened Drain
  import opened Memory

  /** junk: where vgc_free looks for a header and none was written, the bytes pass for one. */
  datatype Op =
    | MallocOp(size: nat, kernel: Kernel)
    | FreeOp(ptr: nat, junk: bool)
    | WriteOp(ptr: nat, lo: int, count: nat)

  /** mmap keeps its promises; free is given a pointer it rejects, or a live one that does not
      mislead it; and callers write only what they asked for, as far as it is accessible and lies
      in the region of their block. */
  ghost predicate Allowed(L: Layout, s: State, op: Op) {
    match op
    case MallocOp(size, k) => size < SIZE_T && KernelOk(L, s, k)
    case FreeOp(p, junk) => Freeable(L, s, p) && !Misled(L, s, p, junk) && !Misled(L, s, p, false)
    case WriteOp(p, lo, n) => OwnBytes(L, s, p, lo, n)
  }

  ghost function Next(L: Layout, s: State, op: Op): State
    requires Listed(s) && Allowed(L, s, op)
  {
    match op
    case MallocOp(size, k) => Malloc(L, s, size, k).0
    case FreeOp(p, junk) => Free(L, s, p)
    case WriteOp(p, lo, n) => Overwritten(L, s, lo, n)
  }

  /** The call leaves a list head that later calls can follow. */
  predicate LeavesHead(s: State, op: Op) {
    op.MallocOp? ==> HasFirst(s, op.kernel)
  }

  /** Calls, one after the other, from the empty allocator. A call that leaves MAP_FAILED as
      the list head can only be the last. */
  ghost predicate Run(L: Layout, trace: seq<State>, ops: seq<Op>) {
    && |trace| == |ops| + 1
    && trace[0] == INITIAL
    && (forall i, j :: 0 <= i < |ops| && j == i + 1 ==>
          Listed(trace[i]) && Allowed(L, trace[i], ops[i]) && trace[j] == Next(L, trace[i], ops[i]))
    && (forall i :: 0 <= i < |ops| - 1 ==> LeavesHead(trace[i], ops[i]))
  }

  /** A request as the reference allocator takes it: the returned range is added if some
      region serves the request, and nothing changes otherwise. */
  ghost predicate RefinedMalloc(L: Layout, s: State, size: nat, k: Kernel, live: map<int, nat>, live': map<int, nat>)
    requires Listed(s)
  {
    var p := Malloc(L, s, size, k).1;
    && ReferenceMalloc(live, L.AlignRequest(size), live', p)
    && (p != 0 <==> Serving(L, WithFirst(L, s, k), size, k).Served?)
  }

  /** A free as the reference allocator takes it: the range of a pointer that passes the window
      test, with a length that is no page multiple, is removed; nothing happens otherwise. */
  ghost predicate RefinedFree(L: Layout, s: State, p: int, t: State, live: map<int, nat>, live': map<int, nat>) {
    if p in live && InWindow(L, s, p) && L.Shiftable(live[p]) then ReferenceFree(live, p, live') else t == s
  }

  /** The same step taken by the reference allocator, a map of pairwise disjoint live ranges. */
  ghost predicate RefinedStep(L: Layout, s: State, op: Op, t: State)
    requires L.Valid() && Inv(L, s) && Inv(L, t)
  {
    match op
    case MallocOp(size, k) => RefinedMalloc(L, s, size, k, LiveMap(L, s), LiveMap(L, t))
    case FreeOp(p, junk) => RefinedFree(L, s, p, t, LiveMap(L, s), LiveMap(L, t))
    case WriteOp(p, lo, n) => LiveMap(L, t) == LiveMap(L, s)
  }

  lemma InitialInv(L: Layout)
    requires L.Valid()
    ensures Inv(L, INITIAL) && LiveMap(L, INITIAL) == map[]
  {
    assert LiveBlocks(map[]) == {};
  }

  lemma StepInv(L: Layout, s: State, op: Op)
    requires L.Valid() && Inv(L, s) && Allowed(L, s, op)
    ensures Inv(L, Next(L, s, op)) && RefinedStep(L, s, op, Next(L, s, op))
  {
    hide RegionInv, LiveMap, Malloc, Free, Serving, Misled;
    match op
    case MallocOp(size, k) =>
      MallocRefines(L, s, size, k);
    case FreeOp(p, junk) =>
      if InWindow(L, s, p) {
        var b, i: nat :| LiveAt(L, s, p, b, i);
        LiveAtInMap(L, s, p, b, i);
        FreeRefines(L, s, p);
      } else {
        NothingFreed(L, s, p);
      }
    case WriteOp(p, lo, n) =>
      WriteKeepsMap(L, s, lo, n);
  }

  lemma WriteKeepsMap(L: Layout, s: State, lo: int, n: nat)
    requires L.Valid() && Inv(L, s)
    ensures Inv(L, Overwritten(L, s, lo, n)) && LiveMap(L, Overwritten(L, s, lo, n)) == LiveMap(L, s)
  {
    WrittenApart(L, s, Overwritten(L, s, lo, n).written);
  }

  lemma RunStep(L: Layout, trace: seq<State>, ops: seq<Op>, i: nat)
    requires Run(L, trace, ops) && i < |ops|
    ensures Listed(trace[i]) && Allowed(L, trace[i], ops[i]) && trace[i + 1] == Next(L, trace[i], ops[i])
  {
    var j := i + 1;
    assert trace[j] == trace[i + 1];
  }

  /** Every reachable state satisfies the invariant. */
  lemma {:induction false} RunInv(L: Layout, trace: seq<State>, ops: seq<Op>, n: nat)
    requires L.Valid() && Run(L, trace, ops) && n < |trace|
    ensures Inv(L, trace[n])
  {
    if n == 0 {
      InitialInv(L);
    } else {
      RunInv(L, trace, ops, n - 1);
      RunStep(L, trace, ops, n - 1);
      StepInv(L, trace[n - 1], ops[n - 1]);
    }
  }

  /** Every run is a run of the reference allocator, which starts with no live range. */
  lemma RunRefinesReference(L: Layout, trace: seq<State>, ops: seq<Op>, n: nat)
    requires L.Valid() && Run(L, trace, ops) && n < |ops|
    ensures Inv(L, trace[n]) && Inv(L, trace[n + 1])
    ensures RefinedStep(L, trace[n], ops[n], trace[n + 1])
    ensures n == 0 ==> LiveMap(L, trace[n]) == map[]
  {
    hide RefinedStep, LiveMap, Inv;
    RunInv(L, trace, ops, n);
    RunInv(L, trace, ops, n + 1);
    RunStep(L, trace, ops, n);
    StepInv(L, trace[n], ops[n]);
    if n == 0 { InitialInv(L); }
  }

  /** In every reachable state live ranges are pairwise disjoint; a live range leaves its
      region, or contains an inaccessible byte, exactly when its length is a page multiple, its
      block has no page to spare and there is no next block, or one never freed. */
  lemma RunSafe(L: Layout, trace: seq<State>, ops: seq<Op>, n: nat, b: int, i: nat)
    requires L.Valid() && Run(L, trace, ops) && n < |trace| && b in trace[n].regions
    requires i < |trace[n].regions[b].blocks| && trace[n].regions[b].blocks[i].Busy()
    ensures var s := trace[n];
            var bs := s.regions[b].blocks;
            var x := bs[i];
            && (forall y :: y in LiveBlocks(s.regions) && y != x ==>
                  y.Pointer(L) != x.Pointer(L) && !Overlap(x.Pointer(L), x.request, y.Pointer(L), y.request))
            && (b < x.Pointer(L) && x.Pointer(L) + x.request <= b + s.regions[b].size
                <==> L.Shiftable(x.request) || x.request + L.Page() <= x.size || i + 1 < |bs|)
            && ((exists a :: InRange(L, x, a) && Inaccessible(L, Guards(L, s.regions), a))
                <==> !L.Shiftable(x.request) && x.size < x.request + L.Page() && i + 1 < |bs| && !bs[i + 1].freed)
  {
    hide Inv, Inaccessible, Run, InRange, Guards, Overlap;
    RunInv(L, trace, ops, n);
    var s := trace[n];
    LayoutSizes(L);
    InvSeparate(L, s);
    RangeInRegion(L, s, b, i);
    RangeFaultsExactly(L, s, b, i);
    assert s.regions[b].blocks[i] in BusySet(s.regions[b].blocks);
    assert s.regions[b].blocks[i] in LiveBlocks(s.regions);
  }

  lemma LayoutSizes(L: Layout)
    requires L.Valid()
    ensures L.header > 0 && L.mmapHeader > 0
  {
  }

  /** In every reachable state the pointer of a live block in a listed region can be freed,
      that is, passes the window test and leads to its header, exactly when its length is not a
      page multiple. */
  lemma RunFreeable(L: Layout, trace: seq<State>, ops: seq<Op>, n: nat, b: int, i: nat)
    requires L.Valid() && Run(L, trace, ops) && n < |trace| && b in trace[n].regions && b in trace[n].order
    requires i < |trace[n].regions[b].blocks| && trace[n].regions[b].blocks[i].Busy()
    ensures var x := trace[n].regions[b].blocks[i];
            && x.Pointer(L) > 0
            && (InWindow(L, trace[n], x.Pointer(L)) && L.HeaderOf(x.Pointer(L)) == x.addr <==> L.Shiftable(x.request))
  {
    hide Run;
    RunInv(L, trace, ops, n);
    var x := trace[n].regions[b].blocks[i];
    BlockFitted(L, trace[n], b, x);
    PointerBounds(L, x);
    HeaderRecovered(L, x);
    WindowExact(L, trace[n], x.Pointer(L), b, i);
    ModUnique(1, 0, L.Page());
  }

  // ----- regions that have been drained -----

  /** A request takes no block away from a region. */
  lemma MallocKeepsUse(L: Layout, s: State, size: nat, k: Kernel, b: int)
    requires L.Valid() && Inv(L, s) && KernelOk(L, s, k) && b in s.regions
    ensures var t := Malloc(L, s, size, k).0;
            b in t.regions && t.regions[b].elements >= s.regions[b].elements
  {
    hide RegionInv, Fits, FirstRegion, Allocate, KernelOk;
    MappedIsNew(L, s, k);
    var s0 := WithFirst(L, s, k);
    assert b in s0.regions && s0.regions[b] == s.regions[b];
    if s.order == [] && HasFirst(s, k) && size > 0 {
      FreshHeadServes(L, s, size, k);
    }
  }

  lemma StepKeepsUse(L: Layout, s: State, op: Op, b: int)
    requires L.Valid() && Inv(L, s) && Allowed(L, s, op) && b in s.regions && s.regions[b].elements > 0
    ensures b in Next(L, s, op).regions ==> Next(L, s, op).regions[b].elements > 0
  {
    hide RegionInv, Malloc, Free, Release, Misled;
    match op
    case MallocOp(size, k) =>
      MallocKeepsUse(L, s, size, k, b);
    case FreeOp(p, junk) =>
      if InWindow(L, s, p) {
        var c, i: nat :| LiveAt(L, s, p, c, i);
        FreeIsFreeAt(L, s, p, c, i);
        ReleaseInInv(L, s.regions[c], i);
        ReleaseCounts(L, s, c, i);
      } else {
        NothingFreed(L, s, p);
      }
    case WriteOp(p, lo, n) =>
  }

  lemma ReleaseCounts(L: Layout, s: State, c: int, i: nat)
    requires L.Valid() && Inv(L, s) && c in s.regions && i < |s.regions[c].blocks| && s.regions[c].blocks[i].Busy()
    ensures ReleaseIn(L, s.regions[c], i).elements >= 0
  {
    LiveCount(s.regions[c].blocks);
  }

  lemma {:induction false} RunStaysInUse(L: Layout, trace: seq<State>, ops: seq<Op>, m: nat, n: nat, b: int)
    requires L.Valid() && Run(L, trace, ops) && m <= n < |trace|
    requires forall h :: m <= h <= n ==> b in trace[h].regions
    requires trace[m].regions[b].elements > 0
    ensures trace[n].regions[b].elements > 0
    decreases n
  {
    hide Inv, Allowed, Next, LeavesHead;
    if n > m {
      RunStaysInUse(L, trace, ops, m, n - 1, b);
      RunInv(L, trace, ops, n - 1);
      RunStep(L, trace, ops, n - 1);
      StepKeepsUse(L, trace[n - 1], ops[n - 1], b);
    }
  }

  /** Whatever the interleaving, a region whose blocks have all been freed is unmapped at once:
      once in use, a region is in use at every later step at which it is still mapped. */
  lemma RunLeavesNoDrainedRegion(L: Layout, trace: seq<State>, ops: seq<Op>, m: nat, n: nat, b: int)
    requires L.Valid() && Run(L, trace, ops) && m <= n < |trace|
    requires forall h :: m <= h <= n ==> b in trace[h].regions
    requires exists i :: 0 <= i < |trace[m].regions[b].blocks| && trace[m].regions[b].blocks[i].Busy()
    ensures exists i :: 0 <= i < |trace[n].regions[b].blocks| && trace[n].regions[b].blocks[i].Busy()
  {
    hide Inv, Run;
    RunInv(L, trace, ops, m);
    RunInv(L, trace, ops, n);
    InUse(L, trace[m], b);
    RunStaysInUse(L, trace, ops, m, n, b);
    InUse(L, trace[n], b);
  }

  lemma InUse(L: Layout, s: State, b: int)
    requires Inv(L, s) && b in s.regions
    ensures s.regions[b].elements > 0 <==> exists i :: 0 <= i < |s.regions[b].blocks| && s.regions[b].blocks[i].Busy()
  {
    LiveCount(s.regions[b].blocks);
    var bs := s.regions[b].blocks;
    assert forall i :: 0 <= i < |bs| ==> bs[i].Busy() == !bs[i].Free();
  }

  // ----- a run that hands out a guard page -----

  /** The very first request carves the first block of the region mapped for it. */
  lemma FirstRequestCarves(L: Layout, n: nat, k: Kernel)
    requires L.Valid() && KernelOk(L, INITIAL, k) && k.full.Some?
    requires n > 0 && L.AlignRequest(n) == n < L.MaxSize(L.regionSize)
    ensures var b := k.full.value;
            var s := Enlist(L, INITIAL, b, L.regionSize);
            && Inv(L, s) && b in s.regions && Fits(s.regions[b], n)
            && s.regions[b].blocks == FreshBlocks(L, b, L.regionSize) && FirstFit(s.regions[b].blocks, n) == 0
            && Malloc(L, INITIAL, n, k) == AllocateAt(L, s, b, n)
  {
    hide RegionInv, KernelOk, AllocateAt;
    InitialInv(L);
    MapRegionInv(L, INITIAL, k);
    FreshHeadServes(L, INITIAL, n, k);
    FreshFits(L, k.full.value, L.regionSize, n);
  }

  /** The very first request, if it is for whole pages, gets a range whose last page is
      inaccessible: the guard of the header that follows it. */
  lemma FirstRequestGuarded(L: Layout, n: nat, k: Kernel, a: int)
    requires L.Valid() && L.mprotect && KernelOk(L, INITIAL, k) && k.full.Some?
    requires n > 0 && n % L.Page() == 0 && n < SIZE_T && n + L.header < L.MaxSize(L.regionSize)
    requires var p := Malloc(L, INITIAL, n, k).1; p + n - L.Page() <= a < p + n
    ensures var (t, p) := Malloc(L, INITIAL, n, k);
            && Run(L, [INITIAL, t], [MallocOp(n, k)])
            && p == k.full.value + L.mmapHeader + L.header + L.Page()
            && Inaccessible(L, Guards(L, t.regions), a)
  {
    hide Inv, KernelOk, Inaccessible, Guards, Malloc;
    FirstRequestCarves(L, n, k);
    var s := Enlist(L, INITIAL, k.full.value, L.regionSize);
    L.RoundBounds(n);
    SplitGuardsRange(L, s, k.full.value, n, a);
    CarveIs(L, s.regions[k.full.value].blocks[0], n);
    OneCall(L, MallocOp(n, k));
  }

  lemma OneCall(L: Layout, op: Op)
    requires Allowed(L, INITIAL, op)
    ensures Run(L, [INITIAL, Next(L, INITIAL, op)], [op])
  {
    var trace := [INITIAL, Next(L, INITIAL, op)];
    assert Listed(trace[0]) && trace[1] == Next(L, trace[0], op);
  }

  /** The configured build: pages of 4096 bytes, regions of 8000 pages. */
  const BUILD := Layout(12, 8192, 4096, 32768000, true)

  lemma BuildValid()
    ensures BUILD.Valid() && BUILD.Page() == 4096
  {
    assert Pow2(6) == 64;
    assert Pow2(12) == 4096;
  }

  const GRANTED := Kernel(Some(65536), None)

  lemma BuildKernel()
    ensures KernelOk(BUILD, INITIAL, GRANTED)
  {
    BuildValid();
    hide Pow2;
  }

  lemma BuildFirst(t: State)
    requires t == Malloc(BUILD, INITIAL, 4096, GRANTED).0
    ensures BUILD.Valid() && Run(BUILD, [INITIAL, t], [MallocOp(4096, GRANTED)])
    ensures Inv(BUILD, t) && LiveMap(BUILD, t) == map[81920 := 4096]
    ensures Inaccessible(BUILD, Guards(BUILD, t.regions), 81920)
  {
    BuildValid();
    BuildKernel();
    InitialInv(BUILD);
    hide Malloc, Inaccessible, Guards, Inv, LiveMap, Run, KernelOk, Pow2, Layout.Valid, Serving;
    MallocRefines(BUILD, INITIAL, 4096, GRANTED);
    FirstRequestGuarded(BUILD, 4096, GRANTED, Malloc(BUILD, INITIAL, 4096, GRANTED).1);
  }

  /** In the configured build a first request for one page returns the address of a page that
      cannot be accessed. */
  lemma BuildHandsOutGuard()
    ensures BUILD.Valid()
    ensures exists trace: seq<State>, ops: seq<Op> ::
              && Run(BUILD, trace, ops) && Inv(BUILD, trace[|ops|])
              && LiveMap(BUILD, trace[|ops|]) == map[81920 := 4096]
              && Inaccessible(BUILD, Guards(BUILD, trace[|ops|].regions), 81920)
  {
    hide Malloc, Inaccessible, Guards, Inv, LiveMap, Run, Layout.Valid;
    var t := Malloc(BUILD, INITIAL, 4096, GRANTED).0;
    BuildFirst(t);
    var trace, ops := [INITIAL, t], [MallocOp(4096, GRANTED)];
    assert Run(BUILD, trace, ops) && trace[|ops|] == t;
  }

  // ----- a run that strands a region -----

  const SMALL := Layout(3, 8, 8, 400, false)
  const FIRST := Kernel(Some(8000), None)
  const SECOND := Kernel(Some(16000), None)

  lemma SmallValid()
    ensures SMALL.Valid() && SMALL.Page() == 8 && SMALL.AlignRequest(376) == 376
  {
    assert Pow2(3) == 8;
  }

  function FullRegion(base: int): Region {
    Region(base, 400, 1, [Block(base + 8, 384, BUSY, 376, false)])
  }

  const ONE := State(map[8000 := FullRegion(8000)], [8000], {8008})
  const TWO := State(map[8000 := FullRegion(8000), 16000 := FullRegion(16000)], [8000, 16000], {8008, 16008})

  lemma FullyAllocated(base: int)
    ensures FirstFit(FreshBlocks(SMALL, base, 400), 376) == 0
    ensures AllocateIn(SMALL, FreshRegion(SMALL, base, 400), 0, 376) == FullRegion(base)
    ensures FirstFit(FullRegion(base).blocks, 376) == 1
    ensures SplitAt(SMALL, FreshBlocks(SMALL, base, 400)[0], 376) == {}
  {
    assert Allocate(SMALL, FreshBlocks(SMALL, base, 400), 0, 376) == FullRegion(base).blocks;
    assert FullRegion(base).blocks[1..] == [];
  }

  lemma FirstRequest()
    ensures Listed(INITIAL) && Malloc(SMALL, INITIAL, 376, FIRST) == (ONE, 8016)
  {
    SmallValid();
    FullyAllocated(8000);
    hide FreshRegion, FullRegion, Allocate, SplitAt;
    var mapped := Enlist(SMALL, INITIAL, 8000, 400);
    assert mapped.order == [8000] && mapped.regions[8000 := FullRegion(8000)] == ONE.regions;
    assert mapped.written + {} == ONE.written;
    FreshHead(8000);
    assert WithFirst(SMALL, INITIAL, FIRST) == mapped;
  }

  lemma FreshHead(base: int)
    ensures FreshRegion(SMALL, base, 400).blocks == FreshBlocks(SMALL, base, 400)
    ensures |FreshBlocks(SMALL, base, 400)| == 1
    ensures FreshRegion(SMALL, base, 400).size == 400 && FullRegion(base).size == 400
    ensures |FullRegion(base).blocks| == 1 && FullRegion(base).blocks[0].Pointer(SMALL) == base + 16
  {
  }

  lemma SecondRequest()
    ensures Listed(ONE) && Malloc(SMALL, ONE, 376, SECOND) == (TWO, 16016)
  {
    SmallValid();
    FullyAllocated(8000);
    FullyAllocated(16000);
    hide FreshRegion, FullRegion, Allocate, SplitAt;
    var mapped := Enlist(SMALL, ONE, 16000, 400);
    assert mapped.order == [8000, 16000] && mapped.regions[16000 := FullRegion(16000)] == TWO.regions;
    assert mapped.written + {} == TWO.written;
    FreshHead(8000);
    FreshHead(16000);
    assert ONE.order[1..] == [];
    assert FirstRegion(ONE.regions, ONE.order, 376) == 1;
    assert MapRegion(SMALL, ONE, SECOND) == (mapped, Some(16000));
  }

  lemma SmallKernels()
    ensures KernelOk(SMALL, INITIAL, FIRST) && HasFirst(INITIAL, FIRST)
    ensures KernelOk(SMALL, ONE, SECOND) && HasFirst(ONE, SECOND)
  {
    SmallValid();
  }

  /** Two requests that each need a region of their own. */
  lemma TwoRegions()
    ensures SMALL.Valid() && Inv(SMALL, TWO) && LiveMap(SMALL, TWO) == map[8016 := 376, 16016 := 376]
  {
    SmallValid();
    SmallKernels();
    InitialInv(SMALL);
    FirstRequest();
    SecondRequest();
    hide Inv, LiveMap, Malloc, KernelOk;
    MallocRefines(SMALL, INITIAL, 376, FIRST);
    MallocRefines(SMALL, ONE, 376, SECOND);
  }

  lemma TwoRegionsRun()
    ensures exists trace, ops :: Run(SMALL, trace, ops) && trace[|ops|] == TWO
  {
    SmallKernels();
    FirstRequest();
    SecondRequest();
    hide Malloc, KernelOk;
    var trace, ops := [INITIAL, ONE, TWO], [MallocOp(376, FIRST), MallocOp(376, SECOND)];
    assert Allowed(SMALL, INITIAL, ops[0]) && Next(SMALL, INITIAL, ops[0]) == ONE;
    assert Allowed(SMALL, ONE, ops[1]) && Next(SMALL, ONE, ops[1]) == TWO;
    assert Run(SMALL, trace, ops) && trace[|ops|] == TWO;
  }

  /** In that state the order decides: freeing the older pointer first leaves the younger
      region mapped for good; freeing it last returns everything. */
  lemma OrderMatters()
    ensures exists trace, ops :: Run(SMALL, trace, ops) && trace[|ops|] == TWO
    ensures AllFreeable(SMALL, TWO, [8016, 16016]) && FreeAll(SMALL, TWO, [8016, 16016]).regions != map[]
    ensures AllFreeable(SMALL, TWO, [16016, 8016]) && FreeAll(SMALL, TWO, [16016, 8016]).regions == map[]
  {
    TwoRegions();
    TwoRegionsRun();
    TwoHeads();
    TwoNamed();
    hide Inv, AllInUse, AllListed, AllShiftable, LiveMap, FreeAll, AllFreeable, Run, InHead, Names, Clean;
    SmallClean(TWO);
    NamedFreeable(SMALL, TWO, [8016, 16016]);
    NamedFreeable(SMALL, TWO, [16016, 8016]);
    DrainExactly(SMALL, TWO, [8016, 16016]);
    DrainExactly(SMALL, TWO, [16016, 8016]);
  }

  lemma SmallClean(s: State)
    requires SMALL.Valid() && Inv(SMALL, s)
    ensures Clean(SMALL, s)
  {
    hide LiveMap;
  }

  lemma TwoNamed()
    ensures Names(map[8016 := 376, 16016 := 376], [8016, 16016])
    ensures Names(map[8016 := 376, 16016 := 376], [16016, 8016])
    ensures AllInUse(TWO) && AllListed(TWO) && AllShiftable(SMALL, map[8016 := 376, 16016 := 376])
  {
  }

  lemma TwoHeads()
    ensures InHead(SMALL, TWO, 8016) && !InHead(SMALL, TWO, 16016)
  {
    FreshHead(8000);
    var x := FullRegion(8000).blocks[0];
    assert x in BusySet(FullRegion(8000).blocks);
    assert forall z :: z in BusySet(FullRegion(8000).blocks) ==> z == x;
  }
}
