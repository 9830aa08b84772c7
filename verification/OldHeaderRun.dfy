/** A run of the configured build in which every pointer freed was returned by `vgc_malloc`, none is
    freed twice, and no caller writes at all, and which ends with a pointer that `vgc_free` cannot
    be given: a merge has left a header where it looks for that of a page multiple. */
module OldHeaderRun {
  import opened Arithmetic
  import opened Layouts
  import opened Blocks
  import opened States
  import opened LiveRanges
  import opened Runs
  import opened Traces

  const BASE := 65536
  const SIZE := 32768000

  /** The allocator with one region. */
  function One(elements: int, bs: seq<Block>, written: set<int>): State {
    State(map[BASE := Region(BASE, SIZE, elements, bs)], [BASE], written)
  }

  const NO_MORE := Kernel(None, None)

  const B1 := Block(69632, 4096, BUSY, 100, false)
  const B2 := Block(81920, 8192, BUSY, 5000, false)
  const B3 := Block(98304, 32727040, FREE, 0, false)
  const MERGED := Block(81920, 32743424, FREE, 5000, true)
  const B4 := Block(81920, 4096, BUSY, 100, true)
  const B5 := Block(94208, 4096, BUSY, 4096, false)

  const S0 := One(0, FreshBlocks(BUILD, BASE, SIZE), {69632})
  const S1 := One(1, [B1, Block(81920, 32743424, FREE, 0, false)], {69632, 81920})
  const S2 := One(2, [B1, B2, B3], {69632, 81920, 98304})
  const S3 := One(1, [B1, MERGED], {69632, 81920, 98304})
  const S4 := One(2, [B1, B4, Block(94208, 32731136, FREE, 0, false)], {69632, 81920, 98304, 94208})
  const S5 := One(3, [B1, B4, B5, Block(106496, 32718848, FREE, 0, false)], {69632, 81920, 98304, 94208, 106496})

  lemma BuildRounds()
    ensures BUILD.Valid() && BUILD.Page() == 4096
    ensures BUILD.Round(100) == 4096 && BUILD.Round(5000) == 8192 && BUILD.Round(4096) == 4096
    ensures BUILD.Shift(100) == 3996 && BUILD.Shift(5000) == 3192 && BUILD.Shift(4096) == 4096
    ensures BUILD.MaxSize(SIZE) == 32755712
  {
    BuildValid();
    BUILD.ShiftOf(100);
    BUILD.ShiftOf(5000);
    BUILD.ShiftOf(4096);
  }

  /** A request served by block i of the one region. */
  lemma TakeStep(elements: int, bs: seq<Block>, written: set<int>, i: nat, n: nat, k: Kernel)
    requires i < |bs| && FirstFit(bs, n) == i && 0 < n < 32755712
    ensures Listed(One(elements, bs, written))
    ensures Malloc(BUILD, One(elements, bs, written), n, k) ==
            (One(elements + 1, Allocate(BUILD, bs, i, n), written + SplitAt(BUILD, bs[i], n)),
             Allocate(BUILD, bs, i, n)[i].Pointer(BUILD))
  {
    BuildRounds();
    var s := One(elements, bs, written);
    assert Fits(s.regions[BASE], n);
    assert FirstRegion(s.regions, s.order, n) == 0;
    assert s.regions[BASE := AllocateIn(BUILD, s.regions[BASE], i, n)]
        == One(elements + 1, Allocate(BUILD, bs, i, n), written).regions;
  }

  lemma Carves(b: Block, n: nat)
    requires b.size > BUILD.Round(n) + 8192
    ensures Carve(BUILD, b, n) ==
            [b.(status := BUSY, request := n, size := BUILD.Round(n)),
             Block(b.addr + BUILD.Round(n) + 8192, b.size - BUILD.Round(n) - 8192, FREE, 0, false)]
    ensures SplitAt(BUILD, b, n) == {b.addr + BUILD.Round(n) + 8192}
  {
  }

  lemma First()
    ensures Listed(INITIAL) && KernelOk(BUILD, INITIAL, GRANTED) && Malloc(BUILD, INITIAL, 100, GRANTED).0 == S1
  {
    BuildRounds();
    BuildKernel();
    var b := FreshBlocks(BUILD, BASE, SIZE)[0];
    Carves(b, 100);
    TakeStep(0, [b], {69632}, 0, 100, GRANTED);
    assert Enlist(BUILD, INITIAL, BASE, SIZE) == S0;
    assert WithFirst(BUILD, INITIAL, GRANTED) == S0;
    assert Allocate(BUILD, [b], 0, 100) == Carve(BUILD, b, 100);
    assert {69632} + {81920} == {69632, 81920};
  }

  lemma Second()
    ensures Listed(S1) && Malloc(BUILD, S1, 5000, NO_MORE) == (S2, 93304)
  {
    BuildRounds();
    var bs := S1.regions[BASE].blocks;
    Carves(bs[1], 5000);
    assert FirstFit(bs[1..], 5000) == 0;
    TakeStep(1, bs, S1.written, 1, 5000, NO_MORE);
    assert Allocate(BUILD, bs, 1, 5000) == [B1, B2, B3];
    assert S1.written + {98304} == S2.written;
  }

  lemma Fourth()
    ensures Listed(S3) && Malloc(BUILD, S3, 100, NO_MORE).0 == S4
  {
    BuildRounds();
    var bs := S3.regions[BASE].blocks;
    Carves(bs[1], 100);
    assert FirstFit(bs[1..], 100) == 0;
    TakeStep(1, bs, S3.written, 1, 100, NO_MORE);
    assert Allocate(BUILD, bs, 1, 100) == S4.regions[BASE].blocks;
    assert S3.written + {94208} == S4.written;
  }

  lemma Fifth()
    ensures Listed(S4) && Malloc(BUILD, S4, 4096, NO_MORE) == (S5, 106496)
  {
    BuildRounds();
    var bs := S4.regions[BASE].blocks;
    Carves(bs[2], 4096);
    assert FirstFit(bs[1..][1..], 4096) == 0;
    assert bs[1..][0] == B4;
    TakeStep(2, bs, S4.written, 2, 4096, NO_MORE);
    assert Allocate(BUILD, bs, 2, 4096) == S5.regions[BASE].blocks;
    assert S4.written + {106496} == S5.written;
  }

  /** Freeing the second block merges it with the remainder behind it, whose header stays where
      it was. */
  lemma Third()
    requires Inv(BUILD, S2)
    ensures Allowed(BUILD, S2, FreeOp(93304, false)) && Next(BUILD, S2, FreeOp(93304, false)) == S3
  {
    hide Inv;
    BuildRounds();
    assert LiveAt(BUILD, S2, 93304, BASE, 1);
    ShiftableNotMisled(BUILD, S2, 93304, BASE, 1);
    FreeIsFreeAt(BUILD, S2, 93304, BASE, 1);
    assert BASE in S2.order;
    Merges();
  }

  lemma Merges()
    ensures FreeAt(BUILD, S2, BASE, 1) == S3
  {
    var bs := [B1, B2, B3];
    var marked := MarkFree(bs, 1);
    assert MergeNext(BUILD, marked, 1) == [B1, MERGED];
    assert Release(BUILD, bs, 1) == [B1, MERGED];
    assert S2.regions[BASE := ReleaseIn(BUILD, S2.regions[BASE], 1)] == S3.regions;
  }

  ghost predicate Step(L: Layout, s: State, op: Op, t: State) {
    Listed(s) && Allowed(L, s, op) && Next(L, s, op) == t
  }

  lemma StepTo(s: State, op: Op, t: State)
    requires BUILD.Valid() && Inv(BUILD, s) && Step(BUILD, s, op, t)
    ensures Inv(BUILD, t)
  {
    StepInv(BUILD, s, op);
  }

  lemma FiveStepRun(L: Layout, s1: State, s2: State, s3: State, s4: State, s5: State, ops: seq<Op>)
    requires |ops| == 5 && Step(L, INITIAL, ops[0], s1) && Step(L, s1, ops[1], s2) && Step(L, s2, ops[2], s3)
    requires Step(L, s3, ops[3], s4) && Step(L, s4, ops[4], s5)
    requires LeavesHead(INITIAL, ops[0]) && LeavesHead(s1, ops[1]) && LeavesHead(s2, ops[2]) && LeavesHead(s3, ops[3])
    ensures Run(L, [INITIAL, s1, s2, s3, s4, s5], ops)
  {
    hide Allowed, Next, Listed, LeavesHead;
    var trace := [INITIAL, s1, s2, s3, s4, s5];
    forall i, j | 0 <= i < |ops| && j == i + 1 ensures Step(L, trace[i], ops[i], trace[j]) {
      assert i == 0 || i == 1 || i == 2 || i == 3 || i == 4;
    }
    forall i | 0 <= i < |ops| - 1 ensures LeavesHead(trace[i], ops[i]) {
      assert i == 0 || i == 1 || i == 2 || i == 3;
    }
  }

  const OPS := [MallocOp(100, GRANTED), MallocOp(5000, NO_MORE), FreeOp(93304, false), MallocOp(100, NO_MORE),
                MallocOp(4096, NO_MORE)]

  lemma Mallocs()
    ensures Step(BUILD, INITIAL, OPS[0], S1) && Step(BUILD, S1, OPS[1], S2)
    ensures Step(BUILD, S3, OPS[3], S4) && Step(BUILD, S4, OPS[4], S5)
  {
    First();
    Second();
    Fourth();
    Fifth();
    NoKernel();
    hide Malloc, KernelOk;
  }

  lemma FiveSteps()
    ensures BUILD.Valid() && Inv(BUILD, S5) && Run(BUILD, [INITIAL, S1, S2, S3, S4, S5], OPS)
  {
    BuildRounds();
    InitialInv(BUILD);
    Mallocs();
    hide Inv, Step, Run, Layout.Valid;
    StepTo(INITIAL, OPS[0], S1);
    StepTo(S1, OPS[1], S2);
    FreeStep();
    StepTo(S2, OPS[2], S3);
    StepTo(S3, OPS[3], S4);
    StepTo(S4, OPS[4], S5);
    FiveStepRun(BUILD, S1, S2, S3, S4, S5, OPS);
  }

  lemma FreeStep()
    requires Inv(BUILD, S2)
    ensures Step(BUILD, S2, OPS[2], S3)
  {
    hide Inv;
    Third();
    hide Allowed, Next;
  }

  lemma NoKernel()
    ensures forall s :: KernelOk(BUILD, s, NO_MORE)
  {
  }

  /** In the state reached the last pointer, of a page multiple, misleads vgc_free, whatever the
      bytes that are no header are. */
  lemma RunReachesOldHeader()
    ensures BUILD.Valid() && Inv(BUILD, S5) && Run(BUILD, [INITIAL, S1, S2, S3, S4, S5], OPS)
    ensures LiveAt(BUILD, S5, 106496, BASE, 2) && S5.regions[BASE].blocks[2].request == 4096
    ensures Freeable(BUILD, S5, 106496) && Misled(BUILD, S5, 106496, false)
  {
    FiveSteps();
    BuildRounds();
    hide Inv, Run, Pow2;
    assert LiveAt(BUILD, S5, 106496, BASE, 2);
    assert BASE in S5.order && InWindow(BUILD, S5, 106496);
    HeaderMissed();
  }

  lemma HeaderMissed()
    requires Inv(BUILD, S5)
    ensures BUILD.HeaderOf(106496) == 98304
  {
    BuildRounds();
    var x := S5.regions[BASE].blocks[2];
    BlockFitted(BUILD, S5, BASE, x);
    HeaderRecovered(BUILD, x);
  }
}
