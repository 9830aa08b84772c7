/** One MMAP region seen as the sequence of its blocks, in address order. The functions are
    the value-level meaning of the list surgery in `allocMallocBlock`, `freeBlocksNext` and
    `freeBlocksPrev`; the lemmas state what that surgery keeps. */
module Blocks {
  import opened Arithmetic
  import opened Layouts

  datatype Status = FREE | BUSY

  /** request: the length asked for when the block was last allocated;
      freed: the header has been freed since it was created. */
  datatype Block = Block(addr: int, size: int, status: Status, request: nat, freed: bool) {
    predicate Free() { status == FREE }
    predicate Busy() { status == BUSY }

    function End(L: Layout): int { addr + L.header + size }

    /** The pointer `vgc_malloc` returns for this block. */
    function Pointer(L: Layout): int { addr + L.header + L.Shift(request) }
  }

  // ----- operations -----

  /** Index of the first free block that holds n bytes, or |bs|. */
  function FirstFit(bs: seq<Block>, n: int): nat {
    if bs == [] || (bs[0].Free() && bs[0].size >= n) then 0 else 1 + FirstFit(bs[1..], n)
  }

  /** A free block taken for a request of n bytes, split when at least one byte is left over. */
  function Carve(L: Layout, b: Block, n: nat): (r: seq<Block>)
    ensures 1 <= |r| <= 2 && r[0].addr == b.addr
  {
    var taken := b.(status := BUSY, request := n);
    var rest := b.size - L.Round(n) - L.header;
    if rest > 0 then
      [taken.(size := L.Round(n)), Block(b.addr + L.Round(n) + L.header, rest, FREE, 0, false)]
    else
      [taken]
  }

  lemma CarveIs(L: Layout, b: Block, n: nat)
    ensures var m := Carve(L, b, n);
            && (|m| == 2 <==> b.size > L.Round(n) + L.header)
            && m[0].addr == b.addr && m[0].status == BUSY && m[0].Pointer(L) == b.addr + L.header + L.Shift(n)
            && m[0].size == (if |m| == 2 then L.Round(n) else b.size)
            && (|m| == 2 ==>
                  m[1] == Block(b.addr + L.Round(n) + L.header, b.size - L.Round(n) - L.header, FREE, 0, false))
  {
  }

  /** Block i of a region taken for a request of n bytes. */
  function Allocate(L: Layout, bs: seq<Block>, i: nat, n: nat): seq<Block>
    requires i < |bs|
  {
    bs[..i] + Carve(L, bs[i], n) + bs[i + 1..]
  }

  /** Block i absorbs its successor. */
  function Absorb(L: Layout, bs: seq<Block>, i: nat): seq<Block>
    requires i + 1 < |bs|
  {
    bs[..i] + [bs[i].(size := bs[i].size + bs[i + 1].size + L.header)] + bs[i + 2..]
  }

  function MergeNext(L: Layout, bs: seq<Block>, i: nat): seq<Block>
    requires i < |bs|
  {
    if i + 1 < |bs| && bs[i + 1].Free() then Absorb(L, bs, i) else bs
  }

  function MergePrev(L: Layout, bs: seq<Block>, i: nat): seq<Block>
    requires i < |bs|
  {
    if 0 < i && bs[i - 1].Free() then Absorb(L, bs, i - 1) else bs
  }

  function MarkFree(bs: seq<Block>, i: nat): seq<Block>
    requires i < |bs|
  {
    bs[i := bs[i].(status := FREE, freed := true)]
  }

  function Release(L: Layout, bs: seq<Block>, i: nat): seq<Block>
    requires i < |bs|
  {
    MergePrev(L, MergeNext(L, MarkFree(bs, i), i), i)
  }

  // ----- invariants -----

  /** The blocks cover [lo, hi) without gap or overlap. */
  ghost predicate Tiles(L: Layout, bs: seq<Block>, lo: int, hi: int) {
    && |bs| > 0
    && bs[0].addr == lo
    && bs[|bs| - 1].End(L) == hi
    && (forall i :: 0 <= i < |bs| ==> bs[i].size >= 0)
    && (forall i, j :: 0 <= i < |bs| && 0 <= j < |bs| && j == i + 1 ==> bs[j].addr == bs[i].End(L))
  }

  ghost predicate Coalesced(bs: seq<Block>) {
    forall i, j :: 0 <= i < |bs| && 0 <= j < |bs| && j == i + 1 ==> bs[i].Busy() || bs[j].Busy()
  }

  ghost predicate PageAligned(L: Layout, bs: seq<Block>) {
    forall i :: 0 <= i < |bs| ==> bs[i].addr % L.Page() == 0 && bs[i].size % L.Page() == 0
  }

  /** A live block has room for its request and wastes at most one header more than rounding does. */
  ghost predicate Fitted(L: Layout, b: Block) {
    b.Busy() ==>
      && L.Round(b.request) <= b.size <= L.Round(b.request) + L.header
      && (L.mprotect ==> b.request > 0)
  }

  ghost predicate AllFitted(L: Layout, bs: seq<Block>) {
    forall i :: 0 <= i < |bs| ==> Fitted(L, bs[i])
  }

  /** A split needs a byte left over, so the last block of a region is never empty. */
  ghost predicate RoomAtEnd(bs: seq<Block>) {
    bs != [] && bs[|bs| - 1].size > 0
  }

  datatype Totals = Totals(busy: int, free: int, live: int)

  function Tally(bs: seq<Block>): Totals {
    if bs == [] then Totals(0, 0, 0)
    else
      var t := Tally(bs[1..]);
      if bs[0].Free() then t.(free := t.free + bs[0].size)
      else t.(busy := t.busy + bs[0].size, live := t.live + 1)
  }

  ghost function BusySet(bs: seq<Block>): set<Block> {
    set b | b in bs && b.Busy()
  }

  // ----- address order -----

  lemma {:induction false} AddressOrder(L: Layout, bs: seq<Block>, lo: int, hi: int, i: nat, j: nat)
    requires Tiles(L, bs, lo, hi) && i < j < |bs|
    ensures bs[i].End(L) <= bs[j].addr
  {
    if i + 1 < j {
      AddressOrder(L, bs, lo, hi, i, j - 1);
      assert bs[j].addr == bs[j - 1].End(L);
    }
  }

  lemma Within(L: Layout, bs: seq<Block>, lo: int, hi: int, i: nat)
    requires Tiles(L, bs, lo, hi) && i < |bs|
    ensures lo <= bs[i].addr && bs[i].End(L) <= hi
  {
    if 0 < i { AddressOrder(L, bs, lo, hi, 0, i); }
    if i < |bs| - 1 { AddressOrder(L, bs, lo, hi, i, |bs| - 1); }
  }

  /** A header address identifies its block. */
  lemma AddressIdentifies(L: Layout, bs: seq<Block>, lo: int, hi: int, i: nat, j: nat)
    requires L.header > 0 && Tiles(L, bs, lo, hi) && i < |bs| && j < |bs|
    ensures bs[i].addr == bs[j].addr ==> i == j
  {
    if i < j { AddressOrder(L, bs, lo, hi, i, j); }
    if j < i { AddressOrder(L, bs, lo, hi, j, i); }
  }

  lemma AddressesDiffer(L: Layout, bs: seq<Block>, lo: int, hi: int, k: nat)
    requires L.header > 0 && Tiles(L, bs, lo, hi)
    ensures k < |bs| ==> forall j :: 0 <= j < |bs| && j != k ==> bs[j].addr != bs[k].addr
    ensures forall j :: 0 <= j < |bs| ==> bs[j].addr >= lo
  {
    forall j | 0 <= j < |bs| ensures bs[j].addr >= lo {
      Within(L, bs, lo, hi, j);
    }
    forall j | 0 <= j < |bs| && j != k && k < |bs| ensures bs[j].addr != bs[k].addr {
      AddressIdentifies(L, bs, lo, hi, j, k);
    }
  }

  lemma BlockSizes(L: Layout, bs: seq<Block>, lo: int, hi: int, k: nat)
    requires Tiles(L, bs, lo, hi) && k < |bs|
    ensures bs[k].size >= 0
  {
  }

  // ----- tallies -----

  lemma {:induction false} TallyConcat(a: seq<Block>, b: seq<Block>)
    ensures Tally(a + b) == Totals(Tally(a).busy + Tally(b).busy, Tally(a).free + Tally(b).free,
                                    Tally(a).live + Tally(b).live)
  {
    if a == [] {
      assert a + b == b;
    } else {
      assert (a + b)[1..] == a[1..] + b;
      TallyConcat(a[1..], b);
    }
  }

  lemma {:induction false} LiveCount(bs: seq<Block>)
    ensures 0 <= Tally(bs).live <= |bs|
    ensures Tally(bs).live == 0 <==> forall i :: 0 <= i < |bs| ==> bs[i].Free()
  {
    if bs != [] {
      LiveCount(bs[1..]);
      if forall i :: 0 <= i < |bs[1..]| ==> bs[1..][i].Free() {
        forall i | 0 < i < |bs| ensures bs[i].Free() { assert bs[i] == bs[1..][i - 1]; }
      } else {
        var k :| 0 <= k < |bs[1..]| && !bs[1..][k].Free();
        assert !bs[k + 1].Free();
      }
    }
  }

  lemma TallyOne(b: Block)
    ensures Tally([b]) == if b.Free() then Totals(0, b.size, 0) else Totals(b.size, 0, 1)
  {
    assert [b][1..] == [];
  }

  lemma TallyReplace(a: seq<Block>, m: seq<Block>, c: seq<Block>)
    ensures Tally(a + m + c) == Totals(Tally(a).busy + Tally(m).busy + Tally(c).busy,
                                       Tally(a).free + Tally(m).free + Tally(c).free,
                                       Tally(a).live + Tally(m).live + Tally(c).live)
  {
    TallyConcat(a + m, c);
    TallyConcat(a, m);
  }

  /** Conservation: payloads and headers account for every byte between the bounds. */
  lemma {:induction false} Conservation(L: Layout, bs: seq<Block>, lo: int, hi: int)
    requires Tiles(L, bs, lo, hi)
    ensures Tally(bs).busy + Tally(bs).free + L.header * |bs| == hi - lo
  {
    if |bs| > 1 {
      var rest := bs[1..];
      assert bs[1].addr == bs[0].End(L);
      Conservation(L, rest, bs[0].End(L), hi);
      assert L.header * |bs| == L.header * |rest| + L.header;
    } else {
      assert bs[1..] == [];
    }
  }

  /** Since free blocks are never adjacent, a region has at most 2n+1 blocks for n live ones. */
  lemma {:induction false} BlockCountBound(bs: seq<Block>)
    requires Coalesced(bs)
    ensures |bs| <= 2 * Tally(bs).live + 1
    ensures bs != [] && bs[0].Busy() ==> |bs| <= 2 * Tally(bs).live
  {
    if bs != [] {
      var rest := bs[1..];
      assert forall i :: 0 <= i < |rest| ==> rest[i] == bs[i + 1];
      BlockCountBound(rest);
    }
  }

  // ----- first fit -----

  /** FirstFit is the earliest block that fits, and misses only when none does. */
  lemma {:induction false} FirstFitEarliest(bs: seq<Block>, n: int)
    ensures FirstFit(bs, n) <= |bs|
    ensures forall k :: 0 <= k < FirstFit(bs, n) ==> !(bs[k].Free() && bs[k].size >= n)
    ensures FirstFit(bs, n) < |bs| ==> bs[FirstFit(bs, n)].Free() && bs[FirstFit(bs, n)].size >= n
  {
    if bs != [] && !(bs[0].Free() && bs[0].size >= n) {
      FirstFitEarliest(bs[1..], n);
      forall k | 0 < k < FirstFit(bs, n) ensures !(bs[k].Free() && bs[k].size >= n) {
        assert bs[k] == bs[1..][k - 1];
      }
    }
  }

  /** ... and is determined by those facts. */
  lemma FirstFitUnique(bs: seq<Block>, n: int, i: nat)
    requires i <= |bs|
    requires forall k :: 0 <= k < i ==> !(bs[k].Free() && bs[k].size >= n)
    requires i < |bs| ==> bs[i].Free() && bs[i].size >= n
    ensures FirstFit(bs, n) == i
  {
    FirstFitEarliest(bs, n);
  }

  // ----- allocation -----

  lemma AllocateTiles(L: Layout, bs: seq<Block>, lo: int, hi: int, i: nat, n: nat)
    requires Tiles(L, bs, lo, hi) && i < |bs|
    ensures Tiles(L, Allocate(L, bs, i, n), lo, hi)
  {
    var after := Allocate(L, bs, i, n);
    if |after| != |bs| {
      assert after[i + 1].End(L) == bs[i].End(L);
      assert forall k :: i + 2 <= k < |after| ==> after[k] == bs[k - 1];
    }
  }

  lemma AllocateCoalesced(L: Layout, bs: seq<Block>, i: nat, n: nat)
    requires Coalesced(bs) && i < |bs| && bs[i].Free()
    ensures Coalesced(Allocate(L, bs, i, n))
  {
    var after := Allocate(L, bs, i, n);
    if |after| != |bs| {
      assert forall k :: i + 2 <= k < |after| ==> after[k] == bs[k - 1];
    }
  }

  /** The fit test compares the unrounded length; page multiples make it sound. */
  lemma FitTestSound(L: Layout, b: Block, n: nat)
    requires L.Valid() && n <= b.size && (L.mprotect ==> b.size % L.Page() == 0)
    ensures L.Round(n) <= b.size
  {
    L.RoundBounds(n);
  }

  lemma AllocateFitted(L: Layout, bs: seq<Block>, i: nat, n: nat)
    requires L.Valid() && AllFitted(L, bs) && (L.mprotect ==> PageAligned(L, bs))
    requires i < |bs| && n <= bs[i].size && (L.mprotect ==> n > 0)
    ensures AllFitted(L, Allocate(L, bs, i, n))
  {
    FitTestSound(L, bs[i], n);
    var after := Allocate(L, bs, i, n);
    if |after| != |bs| {
      assert forall k :: i + 2 <= k < |after| ==> after[k] == bs[k - 1];
    }
  }

  lemma AllocateAligned(L: Layout, bs: seq<Block>, i: nat, n: nat)
    requires L.Valid() && L.mprotect && PageAligned(L, bs) && i < |bs|
    ensures PageAligned(L, Allocate(L, bs, i, n))
  {
    var p := L.Page();
    L.RoundBounds(n);
    AlignedTwice(p);
    AlignedDifference(bs[i].size, L.Round(n), p);
    AlignedDifference(bs[i].size - L.Round(n), L.header, p);
    AlignedSum(bs[i].addr, L.Round(n), p);
    AlignedSum(bs[i].addr + L.Round(n), L.header, p);
    var after := Allocate(L, bs, i, n);
    if |after| != |bs| {
      assert forall k :: i + 2 <= k < |after| ==> after[k] == bs[k - 1];
    }
  }

  lemma CarveTally(L: Layout, b: Block, n: nat)
    ensures Tally(Carve(L, b, n)).live == 1
  {
    var m := Carve(L, b, n);
    TallyOne(m[0]);
    if |m| == 2 {
      assert m == [m[0]] + [m[1]];
      TallyConcat([m[0]], [m[1]]);
      TallyOne(m[1]);
    }
  }

  lemma AllocateTally(L: Layout, bs: seq<Block>, i: nat, n: nat)
    requires i < |bs| && bs[i].Free()
    ensures Tally(Allocate(L, bs, i, n)).live == Tally(bs).live + 1
  {
    hide Tally, Carve;
    assert bs == bs[..i] + [bs[i]] + bs[i + 1..];
    TallyReplace(bs[..i], [bs[i]], bs[i + 1..]);
    TallyReplace(bs[..i], Carve(L, bs[i], n), bs[i + 1..]);
    TallyOne(bs[i]);
    CarveTally(L, bs[i], n);
  }

  /** Allocation makes exactly the chosen block live. */
  lemma AllocateBusySet(L: Layout, bs: seq<Block>, i: nat, n: nat)
    requires i < |bs| && bs[i].Free()
    ensures BusySet(Allocate(L, bs, i, n)) == BusySet(bs) + {Allocate(L, bs, i, n)[i]}
  {
    var after := Allocate(L, bs, i, n);
    assert bs == bs[..i] + [bs[i]] + bs[i + 1..];
    var m := Carve(L, bs[i], n);
    forall b ensures b in BusySet(after) <==> b in BusySet(bs) + {after[i]} {
      assert b in m && b.Busy() ==> b == m[0];
    }
  }

  lemma NewlyLive(L: Layout, bs: seq<Block>, lo: int, hi: int, i: nat, n: nat)
    requires L.header > 0 && Tiles(L, bs, lo, hi) && i < |bs| && bs[i].Free()
    ensures Allocate(L, bs, i, n)[i] !in BusySet(bs)
  {
    var x := Carve(L, bs[i], n)[0];
    forall k | 0 <= k < |bs| ensures !(bs[k].Busy() && bs[k] == x) {
      AddressIdentifies(L, bs, lo, hi, i, k);
    }
  }

  // ----- release -----

  function RunStart(bs: seq<Block>, i: nat): nat
    requires i < |bs|
  {
    if 0 < i && bs[i - 1].Free() then i - 1 else i
  }

  function RunEnd(bs: seq<Block>, i: nat): nat
    requires i < |bs|
  {
    if i + 1 < |bs| && bs[i + 1].Free() then i + 2 else i + 1
  }

  /** Blocks a..b replaced by one free block that covers them. */
  function Fused(L: Layout, bs: seq<Block>, a: nat, b: nat, freed: bool): seq<Block>
    requires a < b <= |bs|
  {
    bs[..a]
    + [Block(bs[a].addr, bs[b - 1].End(L) - bs[a].addr - L.header, FREE, bs[a].request, freed)]
    + bs[b..]
  }

  /** The run around a live block is free but for that block, and cannot be extended. */
  lemma RunMaximal(bs: seq<Block>, i: nat)
    requires Coalesced(bs) && i < |bs|
    ensures var a, b := RunStart(bs, i), RunEnd(bs, i);
            && a <= i < b <= |bs|
            && (forall k :: a <= k < b && k != i ==> bs[k].Free())
            && (0 < a ==> bs[a - 1].Busy())
            && (b < |bs| ==> bs[b].Busy())
  {
  }

  lemma Adjacent(L: Layout, bs: seq<Block>, lo: int, hi: int, i: nat)
    requires Tiles(L, bs, lo, hi) && i + 1 < |bs|
    ensures bs[i + 1].addr == bs[i].End(L)
  {
  }

  /** Although each merge absorbs one neighbour only, freeing a live block fuses the whole
      maximal run of free blocks around it. */
  lemma ReleaseFuses(L: Layout, bs: seq<Block>, lo: int, hi: int, i: nat)
    requires Tiles(L, bs, lo, hi) && Coalesced(bs) && i < |bs| && bs[i].Busy()
    ensures var a, b := RunStart(bs, i), RunEnd(bs, i);
            && Release(L, bs, i) == Fused(L, bs, a, b, a == i || bs[a].freed)
            && a <= i < b <= |bs|
            && (forall k :: a <= k < b && k != i ==> bs[k].Free())
            && (0 < a ==> bs[a - 1].Busy())
            && (b < |bs| ==> bs[b].Busy())
  {
    hide Tiles, Coalesced;
    var a, b := RunStart(bs, i), RunEnd(bs, i);
    RunMaximal(bs, i);
    if i + 1 < |bs| { Adjacent(L, bs, lo, hi, i); }
    if 0 < i { Adjacent(L, bs, lo, hi, i - 1); }
    NextThenPrev(L, bs, i);
  }

  /** The block once it is marked and merged with its successor. */
  function Merged(L: Layout, bs: seq<Block>, i: nat): Block
    requires i < |bs|
  {
    Block(bs[i].addr, bs[RunEnd(bs, i) - 1].End(L) - bs[i].addr - L.header, FREE, bs[i].request, true)
  }

  lemma MergedWithNext(L: Layout, bs: seq<Block>, i: nat)
    requires i < |bs|
    requires i + 1 < |bs| ==> bs[i + 1].addr == bs[i].End(L)
    ensures MergeNext(L, MarkFree(bs, i), i) == bs[..i] + [Merged(L, bs, i)] + bs[RunEnd(bs, i)..]
  {
    var marked := MarkFree(bs, i);
    assert marked[..i] == bs[..i];
    if i + 1 < |bs| && bs[i + 1].Free() {
      assert marked[i + 2..] == bs[i + 2..];
    }
  }

  lemma MergedWithPrev(L: Layout, bs: seq<Block>, i: nat, m: Block, b: nat)
    requires i < b <= |bs|
    ensures MergePrev(L, bs[..i] + [m] + bs[b..], i) ==
            if 0 < i && bs[i - 1].Free()
            then bs[..i - 1] + [bs[i - 1].(size := bs[i - 1].size + m.size + L.header)] + bs[b..]
            else bs[..i] + [m] + bs[b..]
  {
    var next := bs[..i] + [m] + bs[b..];
    if 0 < i && bs[i - 1].Free() {
      assert next[..i - 1] == bs[..i - 1] && next[i - 1] == bs[i - 1] && next[i] == m && next[i + 1..] == bs[b..];
    }
  }

  /** The two merges, written as one replacement. */
  lemma NextThenPrev(L: Layout, bs: seq<Block>, i: nat)
    requires i < |bs|
    requires i + 1 < |bs| ==> bs[i + 1].addr == bs[i].End(L)
    requires 0 < i ==> bs[i].addr == bs[i - 1].End(L)
    ensures var a, b := RunStart(bs, i), RunEnd(bs, i);
            Release(L, bs, i) == Fused(L, bs, a, b, a == i || bs[a].freed)
  {
    hide MergeNext, MergePrev, MarkFree;
    MergedWithNext(L, bs, i);
    MergedWithPrev(L, bs, i, Merged(L, bs, i), RunEnd(bs, i));
  }

  lemma FusedTiles(L: Layout, bs: seq<Block>, lo: int, hi: int, a: nat, b: nat, freed: bool)
    requires Tiles(L, bs, lo, hi) && a < b <= |bs|
    ensures Tiles(L, Fused(L, bs, a, b, freed), lo, hi)
  {
    if a < b - 1 { AddressOrder(L, bs, lo, hi, a, b - 1); }
    var after := Fused(L, bs, a, b, freed);
    assert forall k :: a < k < |after| ==> after[k] == bs[k - a - 1 + b];
  }

  lemma FusedCoalesced(L: Layout, bs: seq<Block>, a: nat, b: nat, freed: bool)
    requires Coalesced(bs) && a < b <= |bs|
    requires (0 < a ==> bs[a - 1].Busy()) && (b < |bs| ==> bs[b].Busy())
    ensures Coalesced(Fused(L, bs, a, b, freed))
  {
    var after := Fused(L, bs, a, b, freed);
    assert forall k :: a < k < |after| ==> after[k] == bs[k - a - 1 + b];
  }

  lemma FusedAligned(L: Layout, bs: seq<Block>, a: nat, b: nat, freed: bool)
    requires L.Valid() && L.mprotect && PageAligned(L, bs) && a < b <= |bs|
    ensures PageAligned(L, Fused(L, bs, a, b, freed))
  {
    var p := L.Page();
    AlignedTwice(p);
    AlignedSum(bs[b - 1].addr, bs[b - 1].size, p);
    AlignedDifference(bs[b - 1].addr + bs[b - 1].size, bs[a].addr, p);
    var after := Fused(L, bs, a, b, freed);
    assert forall k :: a < k < |after| ==> after[k] == bs[k - a - 1 + b];
  }

  lemma FusedFitted(L: Layout, bs: seq<Block>, a: nat, b: nat, freed: bool)
    requires AllFitted(L, bs) && a < b <= |bs|
    ensures AllFitted(L, Fused(L, bs, a, b, freed))
  {
    var after := Fused(L, bs, a, b, freed);
    assert forall k :: a < k < |after| ==> after[k] == bs[k - a - 1 + b];
  }

  lemma FreeRunTally(bs: seq<Block>)
    requires forall k :: 0 <= k < |bs| ==> bs[k].Free()
    ensures Tally(bs).live == 0
  {
    LiveCount(bs);
  }

  lemma FreeRunButOne(bs: seq<Block>, a: nat, b: nat, i: nat)
    requires a <= i < b <= |bs| && bs[i].Busy() && forall k :: a <= k < b && k != i ==> bs[k].Free()
    ensures Tally(bs[a..b]).live == 1
  {
    hide Tally;
    assert bs[a..b] == bs[a..i] + [bs[i]] + bs[i + 1..b];
    TallyReplace(bs[a..i], [bs[i]], bs[i + 1..b]);
    TallyOne(bs[i]);
    FreeRunTally(bs[a..i]);
    FreeRunTally(bs[i + 1..b]);
  }

  lemma FusedTally(L: Layout, bs: seq<Block>, a: nat, b: nat, i: nat, freed: bool)
    requires a <= i < b <= |bs| && bs[i].Busy() && forall k :: a <= k < b && k != i ==> bs[k].Free()
    ensures Tally(Fused(L, bs, a, b, freed)).live == Tally(bs).live - 1
  {
    hide Tally;
    var after := Fused(L, bs, a, b, freed);
    TallyReplace(bs[..a], [after[a]], bs[b..]);
    TallyOne(after[a]);
    assert bs == bs[..a] + bs[a..b] + bs[b..];
    TallyReplace(bs[..a], bs[a..b], bs[b..]);
    FreeRunButOne(bs, a, b, i);
  }

  lemma FusedBusySet(L: Layout, bs: seq<Block>, lo: int, hi: int, a: nat, b: nat, i: nat, freed: bool)
    requires L.header > 0 && Tiles(L, bs, lo, hi)
    requires a <= i < b <= |bs| && bs[i].Busy() && forall k :: a <= k < b && k != i ==> bs[k].Free()
    ensures BusySet(Fused(L, bs, a, b, freed)) == BusySet(bs) - {bs[i]}
  {
    var after := Fused(L, bs, a, b, freed);
    assert bs == bs[..a] + bs[a..b] + bs[b..];
    forall x ensures x in BusySet(after) <==> x in BusySet(bs) - {bs[i]} {
      if x in BusySet(after) {
        assert x in bs[..a] || x in bs[b..];
        var k :| 0 <= k < |bs| && bs[k] == x && (k < a || b <= k);
        AddressIdentifies(L, bs, lo, hi, k, i);
      }
      if x in BusySet(bs) - {bs[i]} {
        assert x !in bs[a..b];
        assert x in bs[..a] || x in bs[b..];
      }
    }
  }

  /** Free blocks that are not adjacent and contain no live block: a single block. */
  lemma OneBlockIffIdle(bs: seq<Block>)
    requires Coalesced(bs) && bs != []
    ensures Tally(bs).live == 0 <==> |bs| == 1 && bs[0].Free()
  {
    LiveCount(bs);
    if |bs| > 1 {
      assert bs[0].Busy() || bs[1].Busy();
    }
  }

  lemma AbsorbTiles(L: Layout, bs: seq<Block>, lo: int, hi: int, i: nat)
    requires L.header > 0 && Tiles(L, bs, lo, hi) && i + 1 < |bs|
    ensures Tiles(L, Absorb(L, bs, i), lo, hi)
  {
    var after := Absorb(L, bs, i);
    Adjacent(L, bs, lo, hi, i);
    assert after[i].End(L) == bs[i + 1].End(L);
    assert forall k :: i < k < |after| ==> after[k] == bs[k + 1];
  }

  lemma MarkFreeTiles(L: Layout, bs: seq<Block>, lo: int, hi: int, i: nat)
    requires Tiles(L, bs, lo, hi) && i < |bs|
    ensures Tiles(L, MarkFree(bs, i), lo, hi)
  {
  }

  lemma AllocateRoom(L: Layout, bs: seq<Block>, i: nat, n: nat)
    requires RoomAtEnd(bs) && i < |bs|
    ensures RoomAtEnd(Allocate(L, bs, i, n))
  {
    var after := Allocate(L, bs, i, n);
    assert after[|after| - 1] == if i == |bs| - 1 then Carve(L, bs[i], n)[|Carve(L, bs[i], n)| - 1] else bs[|bs| - 1];
  }

  lemma FusedRoom(L: Layout, bs: seq<Block>, lo: int, hi: int, a: nat, b: nat, freed: bool)
    requires Tiles(L, bs, lo, hi) && RoomAtEnd(bs) && a < b <= |bs|
    ensures RoomAtEnd(Fused(L, bs, a, b, freed))
  {
    if a < b - 1 { AddressOrder(L, bs, lo, hi, a, b - 1); }
    var after := Fused(L, bs, a, b, freed);
    if b < |bs| { assert after[|after| - 1] == bs[|bs| - 1]; }
  }

  // ----- what both operations keep -----

  /** The invariant of one region's block list. */
  ghost predicate Sound(L: Layout, bs: seq<Block>, lo: int, hi: int) {
    && Tiles(L, bs, lo, hi)
    && Coalesced(bs)
    && AllFitted(L, bs)
    && RoomAtEnd(bs)
    && (L.mprotect ==> PageAligned(L, bs))
  }

  lemma AllocateSound(L: Layout, bs: seq<Block>, lo: int, hi: int, i: nat, n: nat)
    requires L.Valid() && Sound(L, bs, lo, hi)
    requires i < |bs| && bs[i].Free() && n <= bs[i].size && (L.mprotect ==> n > 0)
    ensures Sound(L, Allocate(L, bs, i, n), lo, hi)
    ensures Tally(Allocate(L, bs, i, n)).live == Tally(bs).live + 1
  {
    AllocateTiles(L, bs, lo, hi, i, n);
    AllocateCoalesced(L, bs, i, n);
    AllocateFitted(L, bs, i, n);
    AllocateRoom(L, bs, i, n);
    if L.mprotect { AllocateAligned(L, bs, i, n); }
    AllocateTally(L, bs, i, n);
  }

  lemma ReleaseSound(L: Layout, bs: seq<Block>, lo: int, hi: int, i: nat)
    requires L.Valid() && Sound(L, bs, lo, hi) && i < |bs| && bs[i].Busy()
    ensures Sound(L, Release(L, bs, i), lo, hi)
  {
    ReleaseFuses(L, bs, lo, hi, i);
    var a, b := RunStart(bs, i), RunEnd(bs, i);
    var freed := a == i || bs[a].freed;
    FusedTiles(L, bs, lo, hi, a, b, freed);
    FusedCoalesced(L, bs, a, b, freed);
    FusedFitted(L, bs, a, b, freed);
    FusedRoom(L, bs, lo, hi, a, b, freed);
    if L.mprotect { FusedAligned(L, bs, a, b, freed); }
  }

  /** Release ends the life of exactly one block; a single block is left exactly when that
      was the last live one. */
  lemma ReleaseLive(L: Layout, bs: seq<Block>, lo: int, hi: int, i: nat)
    requires L.Valid() && Sound(L, bs, lo, hi) && i < |bs| && bs[i].Busy()
    ensures Tally(Release(L, bs, i)).live == Tally(bs).live - 1
    ensures BusySet(Release(L, bs, i)) == BusySet(bs) - {bs[i]}
    ensures |Release(L, bs, i)| == 1 <==> Tally(Release(L, bs, i)).live == 0
  {
    ReleaseSound(L, bs, lo, hi, i);
    ReleaseFuses(L, bs, lo, hi, i);
    var a, b := RunStart(bs, i), RunEnd(bs, i);
    var freed := a == i || bs[a].freed;
    FusedTally(L, bs, a, b, i, freed);
    FusedBusySet(L, bs, lo, hi, a, b, i, freed);
    OneBlockIffIdle(Fused(L, bs, a, b, freed));
    assert Fused(L, bs, a, b, freed)[a].Free();
  }

  // ----- malloc then free -----

  ghost predicate SameShape(xs: seq<Block>, ys: seq<Block>) {
    && |xs| == |ys|
    && forall i :: 0 <= i < |xs| ==>
         xs[i].addr == ys[i].addr && xs[i].size == ys[i].size && xs[i].status == ys[i].status
  }

  /** Freeing a block carved from a free one fuses back exactly what was carved. */
  lemma CarvedRun(L: Layout, bs: seq<Block>, i: nat, n: nat)
    requires Coalesced(bs) && i < |bs| && bs[i].Free()
    ensures var after := Allocate(L, bs, i, n);
            && RunStart(after, i) == i
            && RunEnd(after, i) == i + |Carve(L, bs[i], n)|
  {
    var after := Allocate(L, bs, i, n);
    var m := Carve(L, bs[i], n);
    assert 0 < i ==> after[i - 1] == bs[i - 1];
    if |m| == 1 {
      assert i + 1 < |bs| ==> after[i + 1] == bs[i + 1];
    } else {
      assert after[i + 1] == m[1];
    }
  }

  lemma CarvedFuses(L: Layout, bs: seq<Block>, i: nat, n: nat, freed: bool)
    requires i < |bs|
    ensures SameShape(Fused(L, Allocate(L, bs, i, n), i, i + |Carve(L, bs[i], n)|, freed),
                      bs[i := bs[i].(status := FREE)])
  {
    var after := Allocate(L, bs, i, n);
    var m := Carve(L, bs[i], n);
    var b := i + |m|;
    assert after[..i] == bs[..i] && after[b..] == bs[i + 1..];
    assert after[i] == m[0] && after[b - 1] == m[|m| - 1];
    assert m[|m| - 1].End(L) == bs[i].End(L);
  }

  /** Freeing a just-allocated block restores every address, size and status, split or not. */
  lemma AllocateReleaseRoundTrip(L: Layout, bs: seq<Block>, lo: int, hi: int, i: nat, n: nat)
    requires Tiles(L, bs, lo, hi) && Coalesced(bs) && i < |bs| && bs[i].Free()
    ensures SameShape(Release(L, Allocate(L, bs, i, n), i), bs)
  {
    hide Tiles, Coalesced, Release, Fused, RunStart, RunEnd;
    var after := Allocate(L, bs, i, n);
    AllocateTiles(L, bs, lo, hi, i, n);
    AllocateCoalesced(L, bs, i, n);
    ReleaseFuses(L, after, lo, hi, i);
    CarvedRun(L, bs, i, n);
    CarvedFuses(L, bs, i, n, true);
  }
}
