/** The locking protocol of `vgc_malloc` (from the point where it takes the shared mutex) and
    `vgc_free`, for any number of threads. A thread is a program counter; every lock operation
    of the source is a transition, and every attempt to take a lock may fail. */
module Locks {

  datatype Lock = Shared | Region(id: nat)

  /** What a thread does in one transition. */
  datatype Action = Acquire(lock: Lock) | Fail(lock: Lock) | Release(lock: Lock) | Work

  /** Where a thread is. In MallocScan, MallocIn and MallocNext, left counts the listed
      regions not yet looked at. */
  datatype PC =
    | Idle
    | MallocEnter                      // about to take the shared mutex
    | MallocScan(r: nat, left: nat)    // about to take the mutex of a listed region
    | MallocIn(r: nat, left: nat)      // searching and carving
    | MallocNext(left: nat)            // no memory from that region
    | MallocMap(r: nat, last: nat, again: bool)   // a new region, about to take its mutex
    | MallocInit(r: nat, last: nat, again: bool)  // setting it up and linking it behind the last
    | MallocNew(r: nat)                // counting it, about to take its mutex again
    | MallocNewIn(r: nat)
    | MallocLeave                      // about to release the shared mutex
    | FreeEnter
    | FreeCheck                        // window and checksum tests
    | FreeRegion(r: nat)               // one element less, about to take the mutex of the region
    | FreeIn(r: nat)                   // checking and coalescing
    | FreeNext(r: nat, n: nat)         // about to take the mutex of the next region
    | FreeNextIn(r: nat, n: nat)
    | FreeAfterNext(r: nat)
    | FreePrev(r: nat, n: nat)         // about to take the mutex of the previous region
    | FreePrevIn(r: nat, n: nat)
    | FreeRegionLeave(r: nat, empty: bool)  // about to release its mutex; empty: to be unmapped
    | FreeUnmap(r: nat)                // counting the region out and unmapping it
    | FreeLeave                        // about to release the shared mutex

  /** The steps of the two functions. Neighbours in the list are different regions. */
  predicate Transition(pc: PC, act: Action, pc': PC) {
    match (pc, act)
    case (Idle, Work) => pc' == MallocEnter || pc' == FreeEnter
    // vgc_malloc
    case (MallocEnter, Acquire(l)) => l == Shared && pc'.MallocScan?
    case (MallocEnter, Fail(l)) => l == Shared && pc' == Idle
    case (MallocScan(r, left), Acquire(l)) => l == Region(r) && pc' == MallocIn(r, left)
    case (MallocScan(r, left), Fail(l)) => l == Region(r) && pc' == MallocNext(left)
    case (MallocIn(r, left), Release(l)) => l == Region(r) && (pc' == MallocNext(left) || pc' == MallocLeave)
    case (MallocNext(left), Work) =>
      if left > 0 then pc'.MallocScan? && pc'.left == left - 1
      else pc' == MallocLeave || (pc'.MallocMap? && pc'.r != pc'.last)
    case (MallocMap(r, last, again), Acquire(l)) => l == Region(r) && pc' == MallocInit(r, last, again)
    case (MallocMap(r, last, again), Fail(l)) =>
      && l == Region(r)
      && (pc' == MallocLeave || (again && pc'.MallocMap? && pc'.last == last && pc'.r != last && !pc'.again))
    case (MallocInit(r, last, again), Release(l)) => l == Region(r) && pc' == MallocNew(r)
    case (MallocNew(r), Acquire(l)) => l == Region(r) && pc' == MallocNewIn(r)
    case (MallocNew(r), Fail(l)) => l == Region(r) && pc' == MallocLeave
    case (MallocNewIn(r), Release(l)) => l == Region(r) && pc' == MallocLeave
    case (MallocLeave, Release(l)) => l == Shared && pc' == Idle
    // vgc_free
    case (FreeEnter, Acquire(l)) => l == Shared && pc' == FreeCheck
    case (FreeEnter, Fail(l)) => l == Shared && pc' == Idle
    case (FreeCheck, Work) => pc' == FreeLeave || pc'.FreeRegion?
    case (FreeRegion(r), Acquire(l)) => l == Region(r) && pc' == FreeIn(r)
    case (FreeRegion(r), Fail(l)) => l == Region(r) && pc' == FreeLeave
    case (FreeIn(r), Work) =>
      pc' == FreeRegionLeave(r, false) || pc' == FreeAfterNext(r) || (pc'.FreeNext? && pc'.r == r && pc'.n != r)
    case (FreeNext(r, n), Acquire(l)) => l == Region(n) && pc' == FreeNextIn(r, n)
    case (FreeNext(r, n), Fail(l)) => l == Region(n) && pc' == FreeRegionLeave(r, false)
    case (FreeNextIn(r, n), Release(l)) => l == Region(n) && pc' == FreeAfterNext(r)
    case (FreeAfterNext(r), Work) => pc' == FreeRegionLeave(r, true) || (pc'.FreePrev? && pc'.r == r && pc'.n != r)
    case (FreePrev(r, n), Acquire(l)) => l == Region(n) && pc' == FreePrevIn(r, n)
    case (FreePrev(r, n), Fail(l)) => l == Region(n) && pc' == FreeRegionLeave(r, false)
    case (FreePrevIn(r, n), Release(l)) => l == Region(n) && pc' == FreeRegionLeave(r, true)
    case (FreeRegionLeave(r, empty), Release(l)) =>
      l == Region(r) && pc' == if empty then FreeUnmap(r) else FreeLeave
    case (FreeUnmap(r), Work) => pc' == FreeLeave
    case (FreeLeave, Release(l)) => l == Shared && pc' == Idle
    case _ => false
  }

  /** The locks a thread holds at a program counter. */
  function Held(pc: PC): set<Lock> {
    match pc
    case Idle => {}
    case MallocEnter => {}
    case FreeEnter => {}
    case MallocIn(r, _) => {Shared, Region(r)}
    case MallocInit(r, _, _) => {Shared, Region(r)}
    case MallocNewIn(r) => {Shared, Region(r)}
    case FreeIn(r) => {Shared, Region(r)}
    case FreeNext(r, _) => {Shared, Region(r)}
    case FreeNextIn(r, n) => {Shared, Region(r), Region(n)}
    case FreeAfterNext(r) => {Shared, Region(r)}
    case FreePrev(r, _) => {Shared, Region(r)}
    case FreePrevIn(r, n) => {Shared, Region(r), Region(n)}
    case FreeRegionLeave(r, _) => {Shared, Region(r)}
    case _ => {Shared}
  }

  /** Neighbours are different regions, and a new region is not the last one of the list. */
  predicate WellPlaced(pc: PC) {
    match pc
    case MallocMap(r, last, _) => r != last
    case MallocInit(r, last, _) => r != last
    case FreeNext(r, n) => r != n
    case FreeNextIn(r, n) => r != n
    case FreePrev(r, n) => r != n
    case FreePrevIn(r, n) => r != n
    case _ => true
  }

  /** Along every path, failed attempts included, a thread takes only locks it lacks, gives
      back only locks it has, and never touches a region mutex without the shared one. */
  lemma TransitionLocks(pc: PC, act: Action, pc': PC)
    requires Transition(pc, act, pc') && WellPlaced(pc)
    ensures WellPlaced(pc')
    ensures match act
            case Acquire(l) => l !in Held(pc) && Held(pc') == Held(pc) + {l}
            case Release(l) => l in Held(pc) && Held(pc') == Held(pc) - {l}
            case _ => Held(pc') == Held(pc)
    ensures (act.Acquire? || act.Release?) && act.lock != Shared ==> Shared in Held(pc) && Shared in Held(pc')
    ensures act.Acquire? ==> (act.lock == Shared <==> Held(pc) == {})
  {
  }

  // ----- the system of threads -----

  datatype System = System(pcs: map<nat, PC>, owner: map<Lock, nat>)

  ghost predicate Enabled(s: System, t: nat, act: Action, pc': PC) {
    && t in s.pcs
    && Transition(s.pcs[t], act, pc')
    && (act.Acquire? ==> act.lock !in s.owner)
  }

  function Step(s: System, t: nat, act: Action, pc': PC): System {
    System(s.pcs[t := pc'],
           match act
           case Acquire(l) => s.owner[l := t]
           case Release(l) => s.owner - {l}
           case _ => s.owner)
  }

  /** The lock table says exactly who holds what. */
  ghost predicate LockInv(s: System) {
    && (forall t :: t in s.pcs ==> WellPlaced(s.pcs[t]))
    && (forall l :: l in s.owner ==> s.owner[l] in s.pcs && l in Held(s.pcs[s.owner[l]]))
    && (forall t, l :: t in s.pcs && l in Held(s.pcs[t]) ==> l in s.owner && s.owner[l] == t)
  }

  lemma StepKeepsLocks(s: System, t: nat, act: Action, pc': PC)
    requires LockInv(s) && Enabled(s, t, act, pc')
    ensures LockInv(Step(s, t, act, pc'))
  {
    hide Transition, Held, WellPlaced;
    TransitionLocks(s.pcs[t], act, pc');
    var s' := Step(s, t, act, pc');
    forall l | l in s'.owner ensures s'.owner[l] in s'.pcs && l in Held(s'.pcs[s'.owner[l]]) {
      match act
      case Acquire(k) => assert l != k ==> l in s.owner && l in Held(s.pcs[s.owner[l]]);
      case _ => assert l in s.owner && l in Held(s.pcs[s.owner[l]]);
    }
    forall u, l | u in s'.pcs && l in Held(s'.pcs[u]) ensures l in s'.owner && s'.owner[l] == u {
      match act
      case Acquire(k) => assert !(u == t && l == k) ==> l in Held(s.pcs[u]) && s.owner[l] == u;
      case _ => assert l in Held(s.pcs[u]) && s.owner[l] == u;
    }
  }

  ghost predicate Starts(s: System) {
    s.owner == map[] && forall t :: t in s.pcs ==> s.pcs[t] == Idle
  }

  ghost predicate LockRun(run: seq<System>) {
    && run != []
    && Starts(run[0])
    && forall i, j :: 0 <= i < |run| && 0 <= j < |run| && j == i + 1 ==>
         exists t, act, pc' :: Enabled(run[i], t, act, pc') && run[j] == Step(run[i], t, act, pc')
  }

  lemma {:induction false} RunKeepsLocks(run: seq<System>, n: nat)
    requires LockRun(run) && n < |run|
    ensures LockInv(run[n])
  {
    if n > 0 {
      RunKeepsLocks(run, n - 1);
      var i, j := n - 1, n;
      assert run[j] == run[n] && run[i] == run[n - 1];
      var t, act, pc' :| Enabled(run[i], t, act, pc') && run[j] == Step(run[i], t, act, pc');
      StepKeepsLocks(run[i], t, act, pc');
    }
  }

  /** Mutual exclusion: at any time at most one thread holds any lock at all, so a region
      mutex is never contended. */
  lemma Exclusive(run: seq<System>, n: nat, t: nat, u: nat)
    requires LockRun(run) && n < |run| && t in run[n].pcs && u in run[n].pcs
    requires Held(run[n].pcs[t]) != {} && Held(run[n].pcs[u]) != {}
    ensures t == u
  {
    RunKeepsLocks(run, n);
    OwnerOf(run[n], t);
    OwnerOf(run[n], u);
  }

  // ----- what is written where -----

  /** Shared data: the list head with the region count, and, per region, its header with its
      blocks. */
  datatype Datum = Head | Of(region: nat)

  /** What a thread writes at a program counter. */
  function Writes(pc: PC): set<Datum> {
    match pc
    case MallocIn(r, _) => {Of(r)}
    case MallocInit(r, last, _) => {Of(r), Of(last)}
    case MallocNew(_) => {Head}
    case MallocNewIn(r) => {Of(r)}
    case FreeRegion(r) => {Of(r)}
    case FreeIn(r) => {Of(r)}
    case FreeNextIn(_, n) => {Of(n)}
    case FreePrevIn(_, n) => {Of(n)}
    case FreeUnmap(r) => {Head, Of(r)}
    case _ => {}
  }

  /** Past taking the shared mutex, where the lists are read and written. */
  predicate Inside(pc: PC) {
    !pc.Idle? && !pc.MallocEnter? && !pc.FreeEnter?
  }

  /** While a thread writes any shared datum, no other thread is anywhere inside. */
  lemma WritesExclusive(run: seq<System>, n: nat, t: nat, u: nat)
    requires LockRun(run) && n < |run| && t in run[n].pcs && u in run[n].pcs
    requires Writes(run[n].pcs[t]) != {} && Inside(run[n].pcs[u])
    ensures t == u
  {
    Exclusive(run, n, t, u);
  }

  /** It is the shared mutex that gives this exclusion: a thread that writes the data of a
      region holds that region's own mutex except when it links a new region behind the last
      one, counts an element out, or unmaps the region. */
  lemma OwnMutexExactly(pc: PC, r: nat)
    requires WellPlaced(pc) && Of(r) in Writes(pc)
    ensures Shared in Held(pc)
    ensures Region(r) in Held(pc) <==> pc != FreeRegion(r) && pc != FreeUnmap(r) && !(pc.MallocInit? && pc.last == r)
  {
  }

  lemma OwnerOf(s: System, t: nat)
    requires LockInv(s) && t in s.pcs && Held(s.pcs[t]) != {}
    ensures Shared in s.owner && s.owner[Shared] == t
  {
    HoldersHoldShared(s.pcs[t]);
  }

  lemma OwnerIsBusy(s: System, l: Lock)
    requires LockInv(s) && l in s.owner
    ensures s.owner[l] in s.pcs && l in Held(s.pcs[s.owner[l]]) && s.pcs[s.owner[l]] != Idle
  {
  }

  /** No lock is out of reach of the holder of the shared mutex, or of anybody when it is free. */
  lemma LockFree(s: System, u: nat, l: Lock)
    requires LockInv(s) && u in s.pcs && l !in Held(s.pcs[u])
    requires Shared in s.owner ==> s.owner[Shared] == u
    ensures l !in s.owner
  {
    if l in s.owner {
      OwnerIsBusy(s, l);
      OwnerOf(s, s.owner[l]);
    }
  }

  lemma HoldersHoldShared(pc: PC)
    ensures Held(pc) != {} ==> Shared in Held(pc)
  {
  }

  /** Nothing is left locked behind: when every thread is idle, every lock is free. */
  lemma QuietMeansUnlocked(run: seq<System>, n: nat)
    requires LockRun(run) && n < |run| && forall t :: t in run[n].pcs ==> run[n].pcs[t] == Idle
    ensures run[n].owner == map[]
  {
    RunKeepsLocks(run, n);
    forall l | l in run[n].owner ensures false {
      OwnerIsBusy(run[n], l);
    }
  }

  /** A move that is not a failed attempt and not a wait. */
  lemma CanMove(pc: PC) returns (act: Action, pc': PC)
    requires WellPlaced(pc)
    ensures Transition(pc, act, pc') && !act.Fail?
    ensures act.Acquire? ==> act.lock !in Held(pc)
    ensures act.Acquire? && act.lock == Shared <==> pc.MallocEnter? || pc.FreeEnter?
  {
    match pc
    case Idle => act, pc' := Work, MallocEnter;
    case MallocEnter => act, pc' := Acquire(Shared), MallocScan(0, 0);
    case MallocScan(r, left) => act, pc' := Acquire(Region(r)), MallocIn(r, left);
    case MallocIn(r, left) => act, pc' := Release(Region(r)), MallocLeave;
    case MallocNext(left) => act, pc' := Work, if left > 0 then MallocScan(0, left - 1) else MallocLeave;
    case MallocMap(r, last, again) => act, pc' := Acquire(Region(r)), MallocInit(r, last, again);
    case MallocInit(r, _, _) => act, pc' := Release(Region(r)), MallocNew(r);
    case MallocNew(r) => act, pc' := Acquire(Region(r)), MallocNewIn(r);
    case MallocNewIn(r) => act, pc' := Release(Region(r)), MallocLeave;
    case MallocLeave => act, pc' := Release(Shared), Idle;
    case FreeEnter => act, pc' := Acquire(Shared), FreeCheck;
    case FreeCheck => act, pc' := Work, FreeLeave;
    case FreeRegion(r) => act, pc' := Acquire(Region(r)), FreeIn(r);
    case FreeIn(r) => act, pc' := Work, FreeRegionLeave(r, false);
    case FreeNext(r, n) => act, pc' := Acquire(Region(n)), FreeNextIn(r, n);
    case FreeNextIn(r, n) => act, pc' := Release(Region(n)), FreeAfterNext(r);
    case FreeAfterNext(r) => act, pc' := Work, FreeRegionLeave(r, true);
    case FreePrev(r, n) => act, pc' := Acquire(Region(n)), FreePrevIn(r, n);
    case FreePrevIn(r, n) => act, pc' := Release(Region(n)), FreeRegionLeave(r, true);
    case FreeRegionLeave(r, empty) => act, pc' := Release(Region(r)), if empty then FreeUnmap(r) else FreeLeave;
    case FreeUnmap(r) => act, pc' := Work, FreeLeave;
    case FreeLeave => act, pc' := Release(Shared), Idle;
  }

  /** No deadlock: whenever a thread is inside malloc or free, some such thread can move on
      without a failed attempt. */
  lemma NoDeadlock(run: seq<System>, n: nat, t: nat)
    requires LockRun(run) && n < |run| && t in run[n].pcs && run[n].pcs[t] != Idle
    ensures exists u, act, pc' :: Enabled(run[n], u, act, pc') && run[n].pcs[u] != Idle && !act.Fail?
  {
    RunKeepsLocks(run, n);
    var s := run[n];
    if Shared in s.owner { OwnerIsBusy(s, Shared); }
    var u := if Shared in s.owner then s.owner[Shared] else t;
    var act, pc' := CanMove(s.pcs[u]);
    if act.Acquire? { LockFree(s, u, act.lock); }
    assert Enabled(s, u, act, pc');
  }

  /** An upper bound on the moves left before the shared mutex is released. */
  function Rank(pc: PC): nat {
    match pc
    case MallocScan(_, left) => 3 * left + 12
    case MallocIn(_, left) => 3 * left + 11
    case MallocNext(left) => 3 * left + 10
    case MallocMap(_, _, again) => if again then 7 else 6
    case MallocInit(_, _, _) => 5
    case MallocNew(_) => 4
    case MallocNewIn(_) => 3
    case MallocLeave => 1
    case FreeCheck => 11
    case FreeRegion(_) => 10
    case FreeIn(_) => 9
    case FreeNext(_, _) => 8
    case FreeNextIn(_, _) => 7
    case FreeAfterNext(_) => 6
    case FreePrev(_, _) => 5
    case FreePrevIn(_, _) => 4
    case FreeRegionLeave(_, _) => 3
    case FreeUnmap(_) => 2
    case FreeLeave => 1
    case _ => 0
  }

  /** No holder keeps the shared mutex for ever: each of its moves brings the release closer,
      and the last one is the release. */
  lemma HolderFinishes(pc: PC, act: Action, pc': PC)
    requires Transition(pc, act, pc') && Shared in Held(pc)
    ensures Rank(pc') < Rank(pc)
    ensures Rank(pc) == 1 ==> act == Release(Shared)
    ensures Rank(pc) > 0
  {
  }

  // ----- failed attempts -----

  /** Who did what in a step of a run. */
  datatype Event = Event(thread: nat, act: Action, pc: PC)

  ghost predicate Recorded(run: seq<System>, events: seq<Event>) {
    && |run| == |events| + 1
    && forall i, j :: 0 <= i < |events| && j == i + 1 ==>
         Enabled(run[i], events[i].thread, events[i].act, events[i].pc)
         && run[j] == Step(run[i], events[i].thread, events[i].act, events[i].pc)
  }

  /** Off the way to an unmapping: FreeIn comes before one. */
  predicate OffTheWay(pc: PC) {
    match pc
    case FreeIn(_) => false
    case FreeNext(_, _) => false
    case FreeNextIn(_, _) => false
    case FreeAfterNext(_) => false
    case FreePrev(_, _) => false
    case FreePrevIn(_, _) => false
    case FreeRegionLeave(_, empty) => !empty
    case FreeUnmap(_) => false
    case _ => true
  }

  /** The region a free works on, from taking its mutex to unmapping it. */
  predicate WorksOn(pc: PC, r: nat) {
    match pc
    case FreeIn(q) => q == r
    case FreeNext(q, _) => q == r
    case FreeNextIn(q, _) => q == r
    case FreeAfterNext(q) => q == r
    case FreePrev(q, _) => q == r
    case FreePrevIn(q, _) => q == r
    case FreeRegionLeave(q, _) => q == r
    case FreeUnmap(q) => q == r
    case _ => true
  }

  lemma OffAfterFailure(pc: PC, act: Action, pc': PC)
    requires Transition(pc, act, pc')
    ensures act.Fail? ==> OffTheWay(pc')
    ensures OffTheWay(pc) ==> OffTheWay(pc') || pc'.FreeIn?
    ensures forall r :: WorksOn(pc, r) && !OffTheWay(pc) && !pc'.FreeIn? ==> WorksOn(pc', r)
  {
  }

  lemma EventHere(run: seq<System>, events: seq<Event>, i: nat, t: nat)
    requires Recorded(run, events) && i < |events| && t in run[i].pcs
    ensures t in run[i + 1].pcs
    ensures if events[i].thread == t
            then Transition(run[i].pcs[t], events[i].act, run[i + 1].pcs[t]) && run[i + 1].pcs[t] == events[i].pc
            else run[i + 1].pcs[t] == run[i].pcs[t]
  {
    hide Transition;
    var j := i + 1;
    assert run[j] == run[i + 1] && run[j] == Step(run[i], events[i].thread, events[i].act, events[i].pc);
  }

  /** Once off the way, a thread stays off until it comes to FreeIn. */
  lemma {:induction false} StaysOff(run: seq<System>, events: seq<Event>, t: nat, m: nat, n: nat)
    requires Recorded(run, events) && m <= n < |run| && t in run[m].pcs && OffTheWay(run[m].pcs[t])
    requires forall h :: m < h <= n && t in run[h].pcs ==> !run[h].pcs[t].FreeIn?
    ensures t in run[n].pcs && OffTheWay(run[n].pcs[t])
    decreases n
  {
    hide Transition, OffTheWay;
    if n > m {
      StaysOff(run, events, t, m, n - 1);
      EventHere(run, events, n - 1, t);
      if events[n - 1].thread == t {
        OffAfterFailure(run[n - 1].pcs[t], events[n - 1].act, run[n].pcs[t]);
      }
    }
  }

  lemma {:induction false} KeepsWorking(run: seq<System>, events: seq<Event>, t: nat, m: nat, n: nat, r: nat)
    requires Recorded(run, events) && m <= n < |run| && t in run[m].pcs && run[m].pcs[t] == FreeIn(r)
    requires forall h :: m < h <= n && t in run[h].pcs ==> !run[h].pcs[t].FreeIn?
    ensures t in run[n].pcs && (OffTheWay(run[n].pcs[t]) || WorksOn(run[n].pcs[t], r))
    decreases n
  {
    hide Transition;
    if n > m {
      KeepsWorking(run, events, t, m, n - 1, r);
      EventHere(run, events, n - 1, t);
      if events[n - 1].thread == t {
        OffAfterFailure(run[n - 1].pcs[t], events[n - 1].act, run[n].pcs[t]);
      }
    }
  }

  /** A thread comes to unmap a region only if, since it left the check of that region, no attempt
      of its own to take a lock has failed. */
  lemma UnmapsWithoutFailure(run: seq<System>, events: seq<Event>, t: nat, m: nat, n: nat, r: nat, q: nat)
    requires Recorded(run, events) && m < n < |run| && t in run[m].pcs && t in run[n].pcs
    requires run[m].pcs[t] == FreeIn(r) && run[n].pcs[t] == FreeUnmap(q)
    requires forall h :: m < h <= n && t in run[h].pcs ==> !run[h].pcs[t].FreeIn?
    ensures q == r
    ensures forall i :: m <= i < n && events[i].thread == t ==> !events[i].act.Fail?
  {
    KeepsWorking(run, events, t, m, n, r);
    forall i | m <= i < n && events[i].thread == t ensures !events[i].act.Fail? {
      KeepsThread(run, events, t, m, i);
      EventHere(run, events, i, t);
      OffAfterFailure(run[i].pcs[t], events[i].act, run[i + 1].pcs[t]);
      if events[i].act.Fail? {
        StaysOff(run, events, t, i + 1, n);
      }
    }
  }

  lemma {:induction false} KeepsThread(run: seq<System>, events: seq<Event>, t: nat, m: nat, n: nat)
    requires Recorded(run, events) && m <= n < |run| && t in run[m].pcs
    ensures t in run[n].pcs
    decreases n
  {
    hide Transition;
    if n > m {
      KeepsThread(run, events, t, m, n - 1);
      EventHere(run, events, n - 1, t);
    }
  }

  /** ... and it does come from FreeIn: nothing else leads to an unmapping. */
  lemma {:induction false} UnmapAfterCheck(run: seq<System>, events: seq<Event>, t: nat, n: nat) returns (m: nat)
    requires Recorded(run, events) && n < |run| && t in run[n].pcs && run[n].pcs[t].FreeUnmap?
    requires t in run[0].pcs && run[0].pcs[t] == Idle
    ensures m < n && t in run[m].pcs && run[m].pcs[t].FreeIn?
    ensures forall h :: m < h <= n && t in run[h].pcs ==> !run[h].pcs[t].FreeIn?
  {
    m := n;
    while m > 0 && !run[m].pcs[t].FreeIn?
      invariant 0 <= m <= n && t in run[m].pcs
      invariant forall h :: m < h <= n && t in run[h].pcs ==> !run[h].pcs[t].FreeIn?
    {
      KeepsThread(run, events, t, 0, m - 1);
      m := m - 1;
    }
    if !run[m].pcs[t].FreeIn? {
      StaysOff(run, events, t, 0, n);
    }
  }
}
