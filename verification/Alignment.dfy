/** The alignment of the pointers handed out, over whole runs: always a word without page
    protection, only what the length has with it. */
module Alignment {
  import opened Arithmetic
  import opened Layouts
  import opened Blocks
  import opened States
  import opened LiveRanges
  import opened Runs
  import opened Memory
  import opened Traces

  ghost predicate HeadersAligned(bs: seq<Block>, m: nat)
    requires m > 0
  {
    forall i :: 0 <= i < |bs| ==> bs[i].addr % m == 0
  }

  ghost predicate AllAligned(s: State, m: nat)
    requires m > 0
  {
    forall b :: b in s.regions ==> HeadersAligned(s.regions[b].blocks, m)
  }

  lemma AllocateKeepsAligned(L: Layout, bs: seq<Block>, i: nat, n: nat, m: nat)
    requires m > 0 && HeadersAligned(bs, m) && i < |bs| && L.header % m == 0 && L.Round(n) % m == 0
    ensures HeadersAligned(Allocate(L, bs, i, n), m)
  {
    CarveIs(L, bs[i], n);
    AlignedSum(bs[i].addr, L.Round(n), m);
    AlignedSum(bs[i].addr + L.Round(n), L.header, m);
    var after := Allocate(L, bs, i, n);
    if |after| != |bs| {
      assert forall k :: i + 2 <= k < |after| ==> after[k] == bs[k - 1];
    }
  }

  lemma ReleaseKeepsAligned(L: Layout, bs: seq<Block>, lo: int, hi: int, i: nat, m: nat)
    requires m > 0 && HeadersAligned(bs, m) && Tiles(L, bs, lo, hi) && Coalesced(bs) && i < |bs| && bs[i].Busy()
    ensures HeadersAligned(Release(L, bs, i), m)
  {
    hide Release, Tiles, Coalesced;
    ReleaseFuses(L, bs, lo, hi, i);
    var a, b := RunStart(bs, i), RunEnd(bs, i);
    var after := Fused(L, bs, a, b, a == i || bs[a].freed);
    assert forall k :: a < k < |after| ==> after[k] == bs[k - a - 1 + b];
  }

  lemma EnlistKeepsAligned(L: Layout, s: State, base: int, size: int, m: nat)
    requires m > 0 && AllAligned(s, m) && base % m == 0 && L.mmapHeader % m == 0
    ensures AllAligned(Enlist(L, s, base, size), m)
  {
    AlignedSum(base, L.mmapHeader, m);
  }

  lemma MapKeepsAligned(L: Layout, s: State, k: Kernel)
    requires L.Valid() && AllAligned(s, 8) && L.mmapHeader % 8 == 0
    requires k.full.Some? ==> k.full.value % L.Page() == 0
    requires k.full.None? && k.fallback.Some? ==> k.fallback.value % L.Page() == 0
    ensures AllAligned(MapRegion(L, s, k).0, 8)
  {
    if k.full.Some? {
      L.WordInPage(k.full.value);
      EnlistKeepsAligned(L, s, k.full.value, L.regionSize, 8);
    } else if k.fallback.Some? {
      L.WordInPage(k.fallback.value);
      EnlistKeepsAligned(L, s, k.fallback.value, L.FallbackSize(), 8);
    }
  }

  lemma TakeKeepsAligned(L: Layout, s: State, b: int, n: nat, m: nat)
    requires m > 0 && AllAligned(s, m) && b in s.regions && L.header % m == 0 && L.Round(n) % m == 0
    ensures AllAligned(AllocateAt(L, s, b, n).0, m)
  {
    var r := s.regions[b];
    if Fits(r, n) {
      AllocateKeepsAligned(L, r.blocks, FirstFit(r.blocks, n), n, m);
    }
  }

  /** Without page protection each step keeps every header on a word boundary. */
  lemma StepKeepsAligned(L: Layout, s: State, op: Op)
    requires L.Valid() && Inv(L, s) && Allowed(L, s, op) && !L.mprotect
    requires L.header % 8 == 0 && L.mmapHeader % 8 == 0 && AllAligned(s, 8)
    ensures AllAligned(Next(L, s, op), 8)
  {
    hide RegionInv, AllAligned, Free, AllocateAt, Fits, KernelOk, Misled;
    match op
    case MallocOp(size, k) =>
      MallocKeepsAligned(L, s, size, k);
    case FreeOp(p, junk) =>
      if InWindow(L, s, p) {
        var b, i: nat :| LiveAt(L, s, p, b, i);
        FreeIsFreeAt(L, s, p, b, i);
        FreeKeepsAligned(L, s, b, i);
      } else {
        NothingFreed(L, s, p);
      }
    case WriteOp(p, lo, n) =>
      assert Next(L, s, op).regions == s.regions;
      SameAligned(s, Next(L, s, op), 8);
  }

  lemma SameAligned(s: State, t: State, m: nat)
    requires m > 0 && AllAligned(s, m) && t.regions == s.regions
    ensures AllAligned(t, m)
  {
  }

  lemma MallocKeepsAligned(L: Layout, s: State, size: nat, k: Kernel)
    requires L.Valid() && Inv(L, s) && KernelOk(L, s, k) && size < SIZE_T && !L.mprotect
    requires L.header % 8 == 0 && L.mmapHeader % 8 == 0 && AllAligned(s, 8)
    ensures AllAligned(Malloc(L, s, size, k).0, 8)
  {
    hide RegionInv, AllAligned, AllocateAt, Fits;
    L.AlignRequestGrows(size);
    var n := L.AlignRequest(size);
    MapKeepsAligned(L, s, k);
    var s0 := WithFirst(L, s, k);
    MapKeepsAligned(L, s0, k);
    var j := FirstRegion(s0.regions, s0.order, n);
    if s0.order != [] && size > 0 && j < |s0.order| && s0.order[j] in s0.regions {
      TakeKeepsAligned(L, s0, s0.order[j], n, 8);
    }
    var (s1, b) := MapRegion(L, s0, k);
    if b.Some? {
      TakeKeepsAligned(L, s1, b.value, n, 8);
    }
  }

  lemma FreeKeepsAligned(L: Layout, s: State, b: int, i: nat)
    requires L.Valid() && Inv(L, s) && b in s.regions && i < |s.regions[b].blocks| && s.regions[b].blocks[i].Busy()
    requires AllAligned(s, 8)
    ensures AllAligned(FreeAt(L, s, b, i), 8)
  {
    hide Release;
    var r := s.regions[b];
    ReleaseKeepsAligned(L, r.blocks, b + L.mmapHeader, b + r.size, i, 8);
  }

  lemma {:induction false} RunAligned(L: Layout, trace: seq<State>, ops: seq<Op>, n: nat)
    requires L.Valid() && !L.mprotect && L.header % 8 == 0 && L.mmapHeader % 8 == 0
    requires Run(L, trace, ops) && n < |trace|
    ensures AllAligned(trace[n], 8)
  {
    hide Inv, Allowed, Next, LeavesHead;
    if n > 0 {
      RunAligned(L, trace, ops, n - 1);
      RunInv(L, trace, ops, n - 1);
      RunStep(L, trace, ops, n - 1);
      StepKeepsAligned(L, trace[n - 1], ops[n - 1]);
    }
  }

  /** In every reachable state of a build whose structs are whole words, a live pointer is
      aligned to a word exactly when pages are not protected or its length is a word multiple. */
  lemma RunPointerAlignment(L: Layout, trace: seq<State>, ops: seq<Op>, n: nat, b: int, i: nat)
    requires L.Valid() && L.header % 8 == 0 && L.mmapHeader % 8 == 0
    requires Run(L, trace, ops) && n < |trace| && b in trace[n].regions && i < |trace[n].regions[b].blocks|
    ensures var x := trace[n].regions[b].blocks[i];
            x.Pointer(L) % 8 == 0 <==> !L.mprotect || x.request % 8 == 0
  {
    hide Run, Inv, Block.Pointer, Layout.Valid;
    RunInv(L, trace, ops, n);
    if L.mprotect {
      BlockAligned(L, trace[n], b, trace[n].regions[b].blocks[i]);
    } else {
      RunAligned(L, trace, ops, n);
      assert HeadersAligned(trace[n].regions[b].blocks, 8);
    }
    WordPointer(L, trace[n].regions[b].blocks[i]);
  }

  lemma WordPointer(L: Layout, x: Block)
    requires L.Valid() && L.header % 8 == 0 && x.addr % (if L.mprotect then L.Page() else 8) == 0
    ensures x.Pointer(L) % 8 == 0 <==> !L.mprotect || x.request % 8 == 0
  {
    if L.mprotect {
      Pow2Widths();
      Pow2Monotone(3, L.pageBits);
      PointerAlignment(L, x, 8);
    } else {
      AlignedSum(x.addr, L.header, 8);
    }
  }
}
