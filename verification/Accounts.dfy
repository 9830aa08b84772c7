/** Where the bytes of a region are, and when and where a request is served. */
module Accounts {
  import opened Arithmetic
  import opened Layouts
  import opened Blocks
  import opened States
  import opened LiveRanges
  import opened Runs
  import opened Traces

  /** Payload bytes of live blocks beyond the rounded request. */
  function Waste(L: Layout, bs: seq<Block>): int {
    if bs == [] then 0
    else Waste(L, bs[1..]) + if bs[0].Busy() then bs[0].size - L.Round(bs[0].request) else 0
  }

  /** The rounded requests of live blocks. */
  function Asked(L: Layout, bs: seq<Block>): int {
    if bs == [] then 0 else Asked(L, bs[1..]) + if bs[0].Busy() then L.Round(bs[0].request) else 0
  }

  lemma {:induction false} WasteBound(L: Layout, bs: seq<Block>)
    requires AllFitted(L, bs)
    ensures 0 <= Waste(L, bs) <= L.header * Tally(bs).live
    ensures Waste(L, bs) + Asked(L, bs) == Tally(bs).busy
  {
    if bs != [] {
      var rest := bs[1..];
      assert forall i :: 0 <= i < |rest| ==> rest[i] == bs[i + 1];
      WasteBound(L, rest);
      assert L.header * (Tally(rest).live + 1) == L.header * Tally(rest).live + L.header;
    }
  }

  /** In every reachable state of every run each region's bytes are accounted for: payloads,
      block headers and the region header fill it; the element count is the number of live
      blocks n; there are at most 2n + 1 blocks; and live blocks waste at most n headers, each
      at most one. */
  lemma RunAccounts(L: Layout, trace: seq<State>, ops: seq<Op>, n: nat, b: int)
    requires L.Valid() && Run(L, trace, ops) && n < |trace| && b in trace[n].regions
    ensures var r := trace[n].regions[b];
            var t := Tally(r.blocks);
            && t.busy + t.free + L.header * |r.blocks| == r.size - L.mmapHeader
            && r.elements == t.live
            && |r.blocks| <= 2 * r.elements + 1
            && 0 <= Waste(L, r.blocks) <= L.header * r.elements
            && forall x :: x in r.blocks && x.Busy() ==>
                 L.Round(x.request) <= x.size <= L.Round(x.request) + L.header
  {
    hide Run;
    RunInv(L, trace, ops, n);
    var r := trace[n].regions[b];
    Conservation(L, r.blocks, b + L.mmapHeader, b + r.size);
    BlockCountBound(r.blocks);
    WasteBound(L, r.blocks);
  }

  /** In every reachable state no two neighbouring blocks are both free. */
  lemma RunCoalesced(L: Layout, trace: seq<State>, ops: seq<Op>, n: nat, b: int, i: nat)
    requires L.Valid() && Run(L, trace, ops) && n < |trace| && b in trace[n].regions
    requires i + 1 < |trace[n].regions[b].blocks|
    ensures var bs := trace[n].regions[b].blocks;
            (bs[i].Busy() || bs[i + 1].Busy()) && bs[i + 1].addr == bs[i].End(L)
  {
    hide Run;
    RunInv(L, trace, ops, n);
    var r := trace[n].regions[b];
    Adjacent(L, r.blocks, b + L.mmapHeader, b + r.size, i);
    var j := i + 1;
    assert r.blocks[i].Busy() || r.blocks[j].Busy();
  }

  /** With page protection, in every reachable state, the unrounded fit test of the search
      implies room for the rounded length, and what a split leaves over is a whole number of
      pages, at least one. */
  lemma RunFitTestSound(L: Layout, trace: seq<State>, ops: seq<Op>, n: nat, b: int, i: nat, length: nat)
    requires L.Valid() && L.mprotect && Run(L, trace, ops) && n < |trace| && b in trace[n].regions
    requires i < |trace[n].regions[b].blocks| && trace[n].regions[b].blocks[i].size >= length
    ensures var x := trace[n].regions[b].blocks[i];
            var rest := x.size - L.Round(length) - L.header;
            && x.size >= L.Round(length)
            && rest % L.Page() == 0
            && (rest > 0 ==> rest >= L.Page())
  {
    hide Run, Inv;
    RunInv(L, trace, ops, n);
    BlockAligned(L, trace[n], b, trace[n].regions[b].blocks[i]);
    WholePages(L, trace[n].regions[b].blocks[i], length);
  }

  lemma WholePages(L: Layout, x: Block, length: nat)
    requires L.Valid() && L.mprotect && x.size % L.Page() == 0 && length <= x.size
    ensures var rest := x.size - L.Round(length) - L.header;
            && x.size >= L.Round(length)
            && rest % L.Page() == 0
            && (rest > 0 ==> rest >= L.Page())
  {
    var p := L.Page();
    FitTestSound(L, x, length);
    L.RoundBounds(length);
    hide Pow2, Layout.Round;
    AlignedTwice(p);
    AlignedDifference(x.size, L.Round(length), p);
    AlignedDifference(x.size - L.Round(length), L.header, p);
    ModUnique(0, 0, p);
    AlignedGap(x.size - L.Round(length) - L.header, 0, p);
  }

  // ----- completeness and first fit -----

  /** With full-size regions and a kernel that grants the full size, a request succeeds
      exactly when it is positive and, once aligned, smaller than the largest payload. */
  lemma MallocSucceedsExactly(L: Layout, s: State, size: nat, k: Kernel)
    requires L.Valid() && Inv(L, s) && KernelOk(L, s, k) && k.full.Some?
    requires forall j :: 0 <= j < |s.order| ==> s.regions[s.order[j]].size == L.regionSize
    ensures Malloc(L, s, size, k).1 != 0 <==> 0 < size && L.AlignRequest(size) < L.MaxSize(L.regionSize)
  {
    hide RegionInv, Fits, FirstRegion;
    MallocRefines(L, s, size, k);
    MapRegionInv(L, s, k);
  }
}
