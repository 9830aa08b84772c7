/** What callers have written stays: the contents of live payloads over whole runs. */
module Contents {
  import opened Layouts
  import opened Blocks
  import opened States
  import opened LiveRanges
  import opened Runs
  import opened Traces
  import opened Callers

  /** The bytes a call may change, as the methods of class Allocator promise: vgc_malloc and
      vgc_free none in a live payload, a caller's write only those it writes. */
  ghost predicate Keeps(L: Layout, s: State, op: Op, before: int -> int, after: int -> int) {
    if op.WriteOp? then forall a :: before(a) != after(a) ==> op.lo <= a < op.lo + op.count
    else forall a :: before(a) != after(a) ==> Outside(L, LiveBlocks(s.regions), a)
  }

  ghost predicate Observed(L: Layout, trace: seq<State>, ops: seq<Op>, contents: seq<int -> int>) {
    && |contents| == |trace| == |ops| + 1
    && forall i, j :: 0 <= i < |ops| && j == i + 1 ==> Keeps(L, trace[i], ops[i], contents[i], contents[j])
  }

  lemma StepKeepsPayload(L: Layout, s: State, op: Op, before: int -> int, after: int -> int, x: Block, a: int)
    requires L.Valid() && Inv(L, s) && Allowed(L, s, op) && Keeps(L, s, op, before, after)
    requires x in LiveBlocks(s.regions) && InPayload(L, x, a)
    requires op.WriteOp? ==> op.ptr != x.Pointer(L)
    ensures before(a) == after(a)
  {
    hide Inv, LiveBlocks, InPayload, OwnBytes, Block.Pointer;
    if before(a) != after(a) {
      if op.WriteOp? {
        OwnBytesPlace(L, s, op.ptr, op.lo, op.count, x, a);
      }
    }
  }

  /** As long as a block is live, and whoever else calls and writes what, every byte of its payload
      keeps the value it has, until a write through its own pointer. */
  lemma {:induction false} RunKeepsContents(L: Layout, trace: seq<State>, ops: seq<Op>, contents: seq<int -> int>,
                                            m: nat, n: nat, x: Block, a: int)
    requires L.Valid() && Run(L, trace, ops) && Observed(L, trace, ops, contents) && m <= n < |trace|
    requires forall h :: m <= h <= n ==> x in LiveBlocks(trace[h].regions)
    requires forall h :: m <= h < n && ops[h].WriteOp? ==> ops[h].ptr != x.Pointer(L)
    requires InPayload(L, x, a)
    ensures contents[m](a) == contents[n](a)
    decreases n
  {
    hide Inv, LiveBlocks, InPayload, Keeps, Allowed, Next, LeavesHead, Block.Pointer;
    if n > m {
      RunKeepsContents(L, trace, ops, contents, m, n - 1, x, a);
      RunInv(L, trace, ops, n - 1);
      RunStep(L, trace, ops, n - 1);
      var i, j := n - 1, n;
      assert Keeps(L, trace[i], ops[i], contents[i], contents[j]);
      StepKeepsPayload(L, trace[i], ops[i], contents[i], contents[j], x, a);
    }
  }
}
