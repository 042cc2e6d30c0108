/**
 Progress of the allocator on any number of CPUs (`kernel/src/allocator.rs`): no CPU waits for a lock
 while it holds one, so the CPUs never block each other for good, and a call that is not kept waiting
 is over after a bounded number of memory accesses.
 */
module SmpProgress {
  import opened Frames
  import opened Pmm
  import opened SmpSteps
  import opened SmpRefinement

  /** The lock that a CPU is about to take. */
  function Wants(pc: Pc): Option<nat> {
    match pc
    case PopSpin(k, _) => Some(k)
    case PeelSpin(_) => Some(GLOBAL)
    case SpliceSpin(k, _) => Some(k)
    case FreeSpin(k, _) => Some(k)
    case _ => None
  }

  /** A CPU inside a call that does not find the lock it wants taken. */
  predicate CanGo(x: Fine, c: nat)
    requires c < |x.pcs|
  {
    && !x.pcs[c].Resting?
    && (Wants(x.pcs[c]).Some? ==> Wants(x.pcs[c]).value < |x.locks| && !x.locks[Wants(x.pcs[c]).value])
  }

  /** A bound on the accesses that a call has still to make. */
  function Rank(pc: Pc): nat {
    match pc
    case Resting => 0
    case PopSpin(_, first) => if first then 75 else 4
    case PopRead(_, _, _) => 3
    case PopTake(_, _, _) => 2
    case PopDone(_, _, _) => 1
    case PopNone(_, first) => if first then 74 else 1
    case PeelSpin(_) => 73
    case PeelWalk(_, _, n, j, _, _) => if j <= n then 8 + n - j else 8
    case PeelNone(_) => 5
    case SpliceSpin(_, _) => 7
    case SpliceHold(_, _, _) => 6
    case SpliceDone(_, _) => 5
    case FreeSpin(_, _) => 6
    case FreeHold(_, _, _) => 5
    case FreeSeen(_, _, _, _) => 4
    case FreeOwned(_, _, _) => 3
    case FreeBumped(_, _, _) => 2
    case FreeDone(_, _) => 1
    case Halted(_) => 0
  }

  /** Every access of a CPU that is not kept waiting brings its call nearer to its end. */
  lemma StepProgress(x: Fine, a: Smp.System, c: nat)
    requires Sim(x, a) && c < |x.pcs| && CanGo(x, c)
    ensures Enabled(x, c, Advance) && |Advanced(x, c).pcs| == |x.pcs|
    ensures Rank(Advanced(x, c).pcs[c]) < Rank(x.pcs[c])
    ensures forall d :: 0 <= d < |x.pcs| && d != c ==> Advanced(x, c).pcs[d] == x.pcs[d]
  {
    hide LocksOk, MemoryOk, Smp.SmpInv, Freeing;
    assert PcOk(x, a, c);
  }

  /** A CPU that is inside a locked section waits for no lock. */
  lemma HolderGoes(x: Fine, c: nat)
    requires c < |x.pcs| && LockOf(x.pcs[c]).Some?
    ensures CanGo(x, c)
  {
  }

  /** In every state with a call in progress some CPU can go on: there is no deadlock. */
  lemma NoDeadlock(x: Fine, a: Smp.System, c: nat) returns (d: nat)
    requires Sim(x, a) && c < |x.pcs| && !x.pcs[c].Resting?
    ensures d < |x.pcs| && CanGo(x, d)
    ensures d == c || LockOf(x.pcs[d]) == Wants(x.pcs[c])
  {
    hide MemoryOk, Smp.SmpInv, PcOk, LockOf;
    d := c;
    WantsLock(x, a, c);
    if Wants(x.pcs[c]).Some? && x.locks[Wants(x.pcs[c]).value] {
      var l := Wants(x.pcs[c]).value;
      d :| 0 <= d < |x.pcs| && LockOf(x.pcs[d]) == Some(l);
      HolderGoes(x, d);
    }
  }

  lemma WantsLock(x: Fine, a: Smp.System, c: nat)
    requires Sim(x, a) && c < |x.pcs|
    ensures Wants(x.pcs[c]).Some? ==> Wants(x.pcs[c]).value < |x.locks|
  {
    hide MemoryOk, Smp.SmpInv, LocksOk, Freeing;
    assert PcOk(x, a, c);
  }

  /** State `x` after CPU `c` alone made `n` accesses. */
  function Alone(x: Fine, c: nat, n: nat): Fine
    requires Sized(x) && c < |x.pcs|
    decreases n
  {
    if n == 0 || x.pcs[c].Resting? then x
    else
      var y := Advanced(x, c);
      if Sized(y) && c < |y.pcs| then Alone(y, c, n - 1) else y
  }

  /** No other CPU is inside a locked section. */
  predicate Undisturbed(x: Fine, c: nat) {
    forall d :: 0 <= d < |x.pcs| && d != c ==> LockOf(x.pcs[d]).None?
  }

  lemma FreeToGo(x: Fine, a: Smp.System, c: nat)
    requires Sim(x, a) && c < |x.pcs| && Undisturbed(x, c) && !x.pcs[c].Resting?
    ensures CanGo(x, c)
  {
    hide MemoryOk, Smp.SmpInv, PcOk;
    WantsLock(x, a, c);
    if Wants(x.pcs[c]).Some? {
      var l := Wants(x.pcs[c]).value;
      WantsNoLock(x.pcs[c]);
    }
  }

  lemma WantsNoLock(pc: Pc)
    ensures Wants(pc).Some? ==> LockOf(pc).None?
  {
  }

  /**
   A call that no other CPU disturbs is over after at most as many accesses as its rank says, 75 for an
   allocation and 6 for a release; the memory is then what the whole sections left.
   */
  lemma {:induction false} CallsEnd(x: Fine, a: Smp.System, c: nat, n: nat) returns (a': Smp.System)
    requires Sim(x, a) && c < |x.pcs| && Undisturbed(x, c) && Rank(x.pcs[c]) <= n
    ensures var y := Alone(x, c, n);
            && |y.pcs| == |x.pcs| && y.pcs[c].Resting? && Sim(y, a')
            && forall d :: 0 <= d < |x.pcs| && d != c ==> y.pcs[d] == x.pcs[d]
    decreases n
  {
    hide Sim, Advanced, LockOf, Rank, Follows;
    a' := a;
    SimParts(x, a, c);
    if !x.pcs[c].Resting? {
      FreeToGo(x, a, c);
      StepProgress(x, a, c);
      var y := Advanced(x, c);
      var b := StepAdvance(x, a, c);
      SimParts(y, b, c);
      a' := CallsEnd(y, b, c, n - 1);
    }
  }

  lemma SimParts(x: Fine, a: Smp.System, c: nat)
    requires Sim(x, a) && c < |x.pcs|
    ensures Sized(x) && !x.pcs[c].Halted?
  {
    assert PcOk(x, a, c);
  }

  // ---------- callers ----------

  /** What callers do to a frame in their hands happens: a word is written, or the frame changes hands. */
  lemma CallersExact(x: Fine, a: Smp.System, c: nat, d: nat, f: nat, i: nat, w: nat)
    requires Sim(x, a) && c < |x.pcs| && d < |x.pcs| && x.pcs[c].Resting? && f in x.held[c] && i < WORDS
    ensures Enabled(x, c, WriteHeld(f, i, w)) && Enabled(x, c, HandOver(d, f))
    ensures Read(Moved(x, c, WriteHeld(f, i, w)).s.ram, f, i) == w
    ensures var y := Moved(x, c, HandOver(d, f)); f in y.held[d] && (c != d ==> f !in y.held[c])
  {
    hide PcOk, LocksOk, Smp.SmpInv;
    HeldTrue(x, a, c, f);
  }
}
