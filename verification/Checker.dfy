/** `checkMmapBlock` as a property of memory: which block lists it accepts. */
module Checker {
  import opened Layouts
  import opened Blocks
  import opened Memory

  /** A null-terminated, mutually linked list of headers starting at first. */
  ghost predicate Walk(mem: map<int, Header>, first: int, chain: seq<int>) {
    && |chain| > 0
    && chain[0] == first
    && (forall i :: 0 <= i < |chain| ==> chain[i] in mem)
    && (forall i, j :: 0 <= i < |chain| && 0 <= j < |chain| && j == i + 1 ==>
          mem[chain[i]].next == chain[j] && mem[chain[j]].prev == chain[i])
    && mem[chain[|chain| - 1]].next == NULL
  }

  /** ... whose sizes and addresses are plausible for the region. */
  ghost predicate Plausible(L: Layout, mem: map<int, Header>, base: int, maxSize: int, a: int) {
    a in mem && mem[a].size <= maxSize && base <= a <= base + L.regionSize
  }

  ghost predicate Accepted(L: Layout, mem: map<int, Header>, base: int, maxSize: int, chain: seq<int>) {
    && Walk(mem, base + L.mmapHeader, chain)
    && forall i :: 0 <= i < |chain| ==> Plausible(L, mem, base, maxSize, chain[i])
  }

  ghost function SizeAt(mem: map<int, Header>, a: int): int {
    if a in mem then mem[a].size else 0
  }

  ghost function SizeSum(mem: map<int, Header>, chain: seq<int>): int {
    if chain == [] then 0 else SizeSum(mem, chain[..|chain| - 1]) + SizeAt(mem, chain[|chain| - 1])
  }

  lemma EmptySum(mem: map<int, Header>)
    ensures SizeSum(mem, []) == 0
  {
  }

  lemma SizeSumAppend(mem: map<int, Header>, chain: seq<int>, a: int)
    requires a in mem
    ensures SizeSum(mem, chain + [a]) == SizeSum(mem, chain) + mem[a].size
  {
    assert (chain + [a])[..|chain|] == chain;
  }

  /** Headers the walk can reach: it never leaves them, and none of them is at address 0. */
  ghost predicate ClosedUnderNext(mem: map<int, Header>, heap: set<int>) {
    && NULL !in heap
    && forall a :: a in heap ==> a in mem && (mem[a].next != NULL ==> mem[a].next in heap)
  }

  lemma NextReachable(mem: map<int, Header>, heap: set<int>, a: int)
    requires ClosedUnderNext(mem, heap) && a in heap
    ensures NULL !in heap && a in mem && (mem[a].next != NULL ==> mem[a].next in heap && mem[a].next in mem)
  {
  }

  /** The walk so far: visited headers in order, each pointing back at its predecessor. */
  ghost predicate Visited(mem: map<int, Header>, first: int, seen: seq<int>, a: int) {
    && (forall i :: 0 <= i < |seen| ==> seen[i] in mem)
    && (forall i, j :: 0 <= i < |seen| && 0 <= j < |seen| && j == i + 1 ==>
          mem[seen[i]].next == seen[j] && mem[seen[j]].prev == seen[i])
    && a in mem
    && (if seen == [] then a == first
        else seen[0] == first && mem[seen[|seen| - 1]].next == a && mem[a].prev == seen[|seen| - 1])
  }

  /** The tests of the checker pass for all of them. */
  ghost predicate AllPlausible(L: Layout, mem: map<int, Header>, base: int, maxSize: int, seen: seq<int>) {
    forall i :: 0 <= i < |seen| ==> Plausible(L, mem, base, maxSize, seen[i])
  }

  /** The links lead from the first header back to it, past every test. */
  ghost predicate Ring(L: Layout, mem: map<int, Header>, base: int, maxSize: int, seen: seq<int>) {
    && seen != []
    && Visited(mem, base + L.mmapHeader, seen, base + L.mmapHeader)
    && AllPlausible(L, mem, base, maxSize, seen)
  }

  /** A first header without predecessor is on no ring. */
  lemma HeadNotInRing(L: Layout, mem: map<int, Header>, base: int, maxSize: int)
    requires NULL !in mem && base + L.mmapHeader in mem && mem[base + L.mmapHeader].prev == NULL
    ensures forall seen :: !Ring(L, mem, base, maxSize, seen)
  {
  }

  /** No header has two predecessors, so a walk can only meet itself again where it began. */
  lemma {:induction false} NeverRevisits(L: Layout, mem: map<int, Header>, base: int, maxSize: int, seen: seq<int>,
                                         a: int, k: nat)
    requires forall ring :: !Ring(L, mem, base, maxSize, ring)
    requires Visited(mem, base + L.mmapHeader, seen, a) && AllPlausible(L, mem, base, maxSize, seen) && k < |seen|
    ensures seen[k] != a
    decreases |seen|
  {
    var last := |seen| - 1;
    if seen[k] == a {
      if k > 0 {
        assert mem[seen[k]].prev == seen[k - 1];
        NeverRevisits(L, mem, base, maxSize, seen[..last], seen[last], k - 1) by {
          assert last > 0 ==> mem[seen[last - 1]].next == seen[last];
        }
      } else {
        assert Ring(L, mem, base, maxSize, seen);
      }
    }
  }

  /** On a ring the walk goes on for ever: after any number of steps every test has passed. */
  lemma {:induction false} RingNeverEnds(L: Layout, mem: map<int, Header>, base: int, maxSize: int, ring: seq<int>,
                                         n: nat)
    returns (seen: seq<int>)
    requires Ring(L, mem, base, maxSize, ring)
    ensures |seen| >= n && Ring(L, mem, base, maxSize, seen)
  {
    seen := ring;
    if n > 0 {
      var before := RingNeverEnds(L, mem, base, maxSize, ring, n - 1);
      seen := before + ring;
    }
  }

  lemma WalkStarts(L: Layout, mem: map<int, Header>, base: int, maxSize: int)
    requires base + L.mmapHeader in mem
    ensures Visited(mem, base + L.mmapHeader, [], base + L.mmapHeader)
    ensures AllPlausible(L, mem, base, maxSize, [])
  {
  }

  /** One step of the walk, to a header it has not met. */
  lemma WalkAdvances(L: Layout, mem: map<int, Header>, base: int, maxSize: int, seen: seq<int>, a: int)
    requires forall ring :: !Ring(L, mem, base, maxSize, ring)
    requires Visited(mem, base + L.mmapHeader, seen, a) && AllPlausible(L, mem, base, maxSize, seen)
    requires Plausible(L, mem, base, maxSize, a) && mem[a].next in mem && mem[mem[a].next].prev == a
    ensures Visited(mem, base + L.mmapHeader, seen + [a], mem[a].next)
    ensures AllPlausible(L, mem, base, maxSize, seen + [a])
    ensures mem[a].next !in seen && mem[a].next != a
  {
    var longer := seen + [a];
    forall k | 0 <= k < |longer| ensures longer[k] != mem[a].next {
      NeverRevisits(L, mem, base, maxSize, longer, mem[a].next, k);
    }
    assert a == longer[|seen|];
    forall k | 0 <= k < |seen| ensures seen[k] != mem[a].next {
      assert seen[k] == longer[k];
    }
  }

  lemma MultiplyStep(h: int, n: nat)
    ensures h * (n + 1) == h * n + h
  {
  }

  /** A list the checker accepts is the only one there is, and the walk follows it. */
  lemma WalkFollows(mem: map<int, Header>, first: int, seen: seq<int>, a: int, chain: seq<int>)
    requires Visited(mem, first, seen, a) && NULL !in mem && Walk(mem, first, chain)
    ensures |seen| < |chain| && seen == chain[..|seen|] && a == chain[|seen|]
    decreases |seen|
  {
    if seen != [] {
      var last := |seen| - 1;
      var before := seen[..last];
      assert Visited(mem, first, before, seen[last]) by {
        assert last > 0 ==> mem[seen[last - 1]].next == seen[last];
      }
      WalkFollows(mem, first, before, seen[last], chain);
      assert seen == before + [seen[last]];
      assert chain[last] == seen[last];
    }
  }

  /** Where the walk stands on an acceptable list, the three tests pass, and the list ends
      exactly where next is null. */
  lemma AcceptedHere(L: Layout, mem: map<int, Header>, base: int, maxSize: int, seen: seq<int>, a: int, chain: seq<int>)
    requires NULL !in mem && Visited(mem, base + L.mmapHeader, seen, a) && Accepted(L, mem, base, maxSize, chain)
    ensures Plausible(L, mem, base, maxSize, a)
    ensures mem[a].next == NULL ==> chain == seen + [a]
    ensures mem[a].next != NULL ==> mem[a].next in mem && mem[mem[a].next].prev == a
  {
    WalkFollows(mem, base + L.mmapHeader, seen, a, chain);
    var k := |seen|;
    assert chain[k] == a;
    if k + 1 < |chain| {
      assert mem[chain[k]].next == chain[k + 1] && chain[k + 1] in mem;
    } else {
      assert chain == chain[..k] + [chain[k]];
    }
  }

  /** A header that fails one of the three tests is on no acceptable list. */
  lemma Rejected(L: Layout, mem: map<int, Header>, base: int, maxSize: int, seen: seq<int>, a: int)
    requires NULL !in mem && Visited(mem, base + L.mmapHeader, seen, a)
    requires !Plausible(L, mem, base, maxSize, a)
             || (mem[a].next != NULL && mem[a].next in mem && mem[mem[a].next].prev != a)
    ensures forall chain :: !Accepted(L, mem, base, maxSize, chain)
  {
    forall chain ensures !Accepted(L, mem, base, maxSize, chain) {
      if Accepted(L, mem, base, maxSize, chain) {
        AcceptedHere(L, mem, base, maxSize, seen, a, chain);
      }
    }
  }

  /** When the walk ends, what it has seen is the one acceptable list. */
  lemma AcceptedOnly(L: Layout, mem: map<int, Header>, base: int, maxSize: int, seen: seq<int>, a: int)
    requires NULL !in mem && Visited(mem, base + L.mmapHeader, seen, a) && mem[a].next == NULL
    requires Plausible(L, mem, base, maxSize, a)
    requires AllPlausible(L, mem, base, maxSize, seen)
    ensures Accepted(L, mem, base, maxSize, seen + [a])
    ensures forall chain :: Accepted(L, mem, base, maxSize, chain) ==> chain == seen + [a]
  {
    forall chain | Accepted(L, mem, base, maxSize, chain) ensures chain == seen + [a] {
      AcceptedHere(L, mem, base, maxSize, seen, a, chain);
    }
  }

  /** A header reached from the first over intact links that is too large, lies outside the region
      or is not pointed back at is on no acceptable list. */
  lemma BrokenPath(L: Layout, mem: map<int, Header>, base: int, maxSize: int, path: seq<int>)
    requires NULL !in mem && path != [] && path[0] == base + L.mmapHeader
    requires forall i :: 0 <= i < |path| ==> path[i] in mem
    requires forall i, j :: 0 <= i < |path| && 0 <= j < |path| && j == i + 1 ==>
               mem[path[i]].next == path[j] && mem[path[j]].prev == path[i]
    requires var a := path[|path| - 1];
             var next := mem[a].next;
             || mem[a].size > maxSize || a < base || a > base + L.regionSize
             || (next != NULL && next in mem && mem[next].prev != a)
    ensures forall chain :: !Accepted(L, mem, base, maxSize, chain)
  {
    var last := |path| - 1;
    var seen := path[..last];
    assert Visited(mem, base + L.mmapHeader, seen, path[last]) by {
      if last > 0 { assert mem[path[last - 1]].next == path[last] && mem[path[last]].prev == path[last - 1]; }
    }
    Rejected(L, mem, base, maxSize, seen, path[last]);
  }

  /** Acceptance written out. */
  lemma AcceptedMeans(L: Layout, mem: map<int, Header>, base: int, maxSize: int)
    requires NULL !in mem
    ensures (exists chain :: Accepted(L, mem, base, maxSize, chain)) ==>
              exists chain: seq<int> ::
                && chain != [] && chain[0] == base + L.mmapHeader
                && (forall i :: 0 <= i < |chain| ==>
                      && chain[i] in mem
                      && mem[chain[i]].size <= maxSize
                      && base <= chain[i] <= base + L.regionSize)
                && (forall i, j :: 0 <= i < |chain| && 0 <= j < |chain| && j == i + 1 ==>
                      mem[chain[i]].next == chain[j] && mem[chain[j]].prev == chain[i])
                && mem[chain[|chain| - 1]].next == NULL
    ensures forall path: seq<int> ::
              && path != [] && path[0] == base + L.mmapHeader
              && (forall i :: 0 <= i < |path| ==> path[i] in mem)
              && (forall i, j :: 0 <= i < |path| && 0 <= j < |path| && j == i + 1 ==>
                    mem[path[i]].next == path[j] && mem[path[j]].prev == path[i])
              && (var a := path[|path| - 1];
                  var next := mem[a].next;
                  || mem[a].size > maxSize
                  || a < base || a > base + L.regionSize
                  || (next != NULL && next in mem && mem[next].prev != a))
              ==> forall chain :: !Accepted(L, mem, base, maxSize, chain)
  {
    if chain :| Accepted(L, mem, base, maxSize, chain) {
      assert forall i :: 0 <= i < |chain| ==> Plausible(L, mem, base, maxSize, chain[i]);
    }
    forall path: seq<int> |
        && path != [] && path[0] == base + L.mmapHeader
        && (forall i :: 0 <= i < |path| ==> path[i] in mem)
        && (forall i, j :: 0 <= i < |path| && 0 <= j < |path| && j == i + 1 ==>
              mem[path[i]].next == path[j] && mem[path[j]].prev == path[i])
        && (var a := path[|path| - 1];
            var next := mem[a].next;
            || mem[a].size > maxSize
            || a < base || a > base + L.regionSize
            || (next != NULL && next in mem && mem[next].prev != a))
      ensures forall chain :: !Accepted(L, mem, base, maxSize, chain)
    {
      BrokenPath(L, mem, base, maxSize, path);
    }
  }

  // ----- the checker on a well-formed region -----

  ghost function Addresses(bs: seq<Block>): seq<int> {
    seq(|bs|, i requires 0 <= i < |bs| => bs[i].addr)
  }

  lemma {:induction false} SizeSumTally(mem: map<int, Header>, base: int, all: seq<Block>, n: nat)
    requires ListIn(mem, base, all) && n <= |all|
    ensures SizeSum(mem, Addresses(all)[..n]) == Tally(all[..n]).busy + Tally(all[..n]).free
  {
    if n > 0 {
      SizeSumTally(mem, base, all, n - 1);
      HeaderAt(mem, base, all, n - 1);
      assert all[..n] == all[..n - 1] + [all[n - 1]];
      TallyConcat(all[..n - 1], [all[n - 1]]);
      TallyOne(all[n - 1]);
      assert Addresses(all)[..n][..n - 1] == Addresses(all)[..n - 1];
    }
  }

  /** Every well-formed region is accepted, and its totals agree exactly when it has the
      full region size. */
  lemma SoundRegionAccepted(L: Layout, mem: map<int, Header>, base: int, size: int, bs: seq<Block>)
    requires L.header > 0 && 0 < size <= L.regionSize && ListIn(mem, base, bs)
    requires Tiles(L, bs, base + L.mmapHeader, base + size) && base > 0
    ensures Accepted(L, mem, base, L.MaxSize(size), Addresses(bs))
    ensures L.regionSize - L.mmapHeader - L.header * |bs| == SizeSum(mem, Addresses(bs)) <==> size == L.regionSize
  {
    var chain := Addresses(bs);
    forall i | 0 <= i < |bs| ensures Plausible(L, mem, base, L.MaxSize(size), chain[i]) {
      HeaderAt(mem, base, bs, i);
      Within(L, bs, base + L.mmapHeader, base + size, i);
    }
    forall i, j | 0 <= i < |bs| && 0 <= j < |bs| && j == i + 1
      ensures mem[chain[i]].next == chain[j] && mem[chain[j]].prev == chain[i]
    {
      HeaderAt(mem, base, bs, i);
      HeaderAt(mem, base, bs, j);
    }
    HeaderAt(mem, base, bs, |bs| - 1);
    SizeSumTally(mem, base, bs, |bs|);
    assert chain[..|bs|] == chain && bs[..|bs|] == bs;
    Conservation(L, bs, base + L.mmapHeader, base + size);
  }
}
