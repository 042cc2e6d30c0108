/**
 Every interleaving of single memory accesses is an interleaving of whole locked sections: the
 simulation of `SmpSteps` by `SmpAllocator`, and what follows for callers.
 */
module SmpRefinement {
  import opened Frames
  import opened Pmm
  import opened FreeLists
  import opened SmpSteps

  // ---------- steps inside a section ----------

  /** The parts of the simulation that concern CPU `c`. */
  lemma Own(x: Fine, a: Smp.System, c: nat)
    requires Sim(x, a) && c < |x.pcs|
    ensures PcOk(x, a, c) && HeldRel(x, a, c) && MemoryOk(x, a.s) && LocksOk(x) && Sized(x) && Valid(x.s) && Valid(a.s)
    ensures |x.s.owner| == |a.s.owner|
    ensures LockOf(x.pcs[c]).Some? ==> Holding(x, c)
    ensures forall y :: y in InHand(x.pcs[c]) ==> y < |a.s.owner| && a.s.owner[y].Kernel? && y in a.held[c]
  {
    hide LockOf;
    assert HeldRel(x, a, c);
    forall y | y in InHand(x.pcs[c])
      ensures y < |a.s.owner| && a.s.owner[y].Kernel?
    {
      HeldKernel(a, c, y);
    }
  }

  lemma StepPopRead(x: Fine, a: Smp.System, c: nat)
    requires Sim(x, a) && c < |x.pcs| && x.pcs[c].PopRead?
    ensures Sim(Advanced(x, c), a)
  {
    hide Sim, Next, LocksOk;
    Own(x, a, c);
    var x' := Advanced(x, c);
    ReadsTrue(x, a, c, x.pcs[c].g.head);
    LocksMove(x, x', c);
    MemoryMove(x, a.s, x', a.s, c);
    Internal(x, a, x', c);
  }

  lemma StepPeelWalk(x: Fine, a: Smp.System, c: nat)
    requires Sim(x, a) && c < |x.pcs| && x.pcs[c].PeelWalk?
    ensures Sim(Advanced(x, c), a)
  {
    hide Sim, LocksOk, Next, Visits, Follow;
    Own(x, a, c);
    var pc := x.pcs[c];
    var x' := Advanced(x, c);
    if pc.j < pc.n {
      OnTheWay(a.s.ram, pc.g.head, pc.n, pc.j);
      ReadsTrue(x, a, c, pc.cur);
    } else {
      PeeledBatch(x, a, c);
    }
    LocksMove(x, x', c);
    MemoryMove(x, a.s, x', a.s, c);
    Internal(x, a, x', c);
  }

  lemma OnTheWay(ram: Ram, head: nat, n: nat, j: nat)
    requires j < n
    ensures Visits(ram, head, n, Follow(ram, head, j)) > 0
    ensures Follow(ram, head, j + 1) == Next(ram, Follow(ram, head, j))
  {
    VisitsSplit(ram, head, j, n - j, Follow(ram, head, j));
    VisitsLast(ram, head, j + 1, 0);
  }

  lemma PeeledBatch(x: Fine, a: Smp.System, c: nat)
    requires Sim(x, a) && c < |x.pcs| && x.pcs[c].PeelWalk? && x.pcs[c].j >= x.pcs[c].n
    ensures var pc := x.pcs[c]; a.cpus[c] == Smp.MustSplice(pc.k, Batch(pc.g.head, pc.tail, pc.n))
  {
    hide ListInv, LocksOk, MemoryOk, Smp.HeldOk;
    assert PcOk(x, a, c) && Smp.BatchOk(a.s.ram, a.cpus[c]);
  }

  /** Writing a link changes one frame. */
  lemma LinkWritten(s: State, f: nat, next: nat)
    requires Valid(s) && f < |s.owner|
    ensures var ram' := SetNext(s.ram, f, next);
            && ValidRam(ram') && |ram'| == |s.ram| && forall y: nat :: y < |s.ram| && y != f ==> ram'[y] == s.ram[y]
  {
  }

  /** Writing the link of a spliced tail or of a freed frame. */
  lemma StepLink(x: Fine, a: Smp.System, c: nat)
    requires Sim(x, a) && c < |x.pcs| && (x.pcs[c].SpliceHold? || x.pcs[c].FreeBumped?)
    ensures Sim(Advanced(x, c), a)
  {
    hide Sim, LocksOk, SetNext, Visits;
    Own(x, a, c);
    var pc := x.pcs[c];
    var x' := Advanced(x, c);
    LinkWritten(x.s, if pc.SpliceHold? then pc.b.tail else pc.f, pc.g.head);
    LocksMove(x, x', c);
    MemoryMove(x, a.s, x', a.s, c);
    Internal(x, a, x', c);
  }

  /** The compare-and-swap of a popped frame's owner. */
  lemma StepTake(x: Fine, a: Smp.System, c: nat)
    requires Sim(x, a) && c < |x.pcs| && x.pcs[c].PopTake?
    ensures Sim(Advanced(x, c), a)
  {
    hide Sim, LocksOk;
    Own(x, a, c);
    var x' := Advanced(x, c);
    LocksMove(x, x', c);
    MemoryMove(x, a.s, x', a.s, c);
    Internal(x, a, x', c);
  }

  /** Reading a freed frame's owner, and its compare-and-swap. */
  lemma StepFreeOwner(x: Fine, a: Smp.System, c: nat)
    requires Sim(x, a) && c < |x.pcs| && (x.pcs[c].FreeHold? || x.pcs[c].FreeSeen?)
    ensures Sim(Advanced(x, c), a)
  {
    hide Sim, LocksOk, SetNext;
    Own(x, a, c);
    var x' := Advanced(x, c);
    LocksMove(x, x', c);
    MemoryMove(x, a.s, x', a.s, c);
    Internal(x, a, x', c);
  }

  /** Changing a generation. */
  lemma StepBump(x: Fine, a: Smp.System, c: nat)
    requires Sim(x, a) && c < |x.pcs| && x.pcs[c].FreeOwned?
    ensures Sim(Advanced(x, c), a)
  {
    hide Sim, LocksOk, SetNext;
    Own(x, a, c);
    var x' := Advanced(x, c);
    LocksMove(x, x', c);
    MemoryMove(x, a.s, x', a.s, c);
    Internal(x, a, x', c);
  }

  /** Storing the guarded value and clearing the flag. */
  lemma StepUnlock(x: Fine, a: Smp.System, c: nat)
    requires Sim(x, a) && c < |x.pcs|
    requires x.pcs[c].PopDone? || x.pcs[c].PopNone? || x.pcs[c].PeelNone? || x.pcs[c].SpliceDone? || x.pcs[c].FreeDone?
    ensures Sim(Advanced(x, c), a)
  {
    hide Sim, LocksOk;
    Own(x, a, c);
    var x' := Advanced(x, c);
    LocksMove(x, x', c);
    MemoryMove(x, a.s, x', a.s, c);
    Internal(x, a, x', c);
  }

  // ---------- taking a lock: the whole section happens ----------

  /** No call claims the head of a list whose lock is free. */
  lemma HeadUnclaimed(x: Fine, a: Smp.System, k: nat, d: nat)
    requires Sim(x, a) && k < SHARD_COUNT && !x.locks[k] && a.s.shards[k].count > 0 && d < |x.pcs|
    ensures !Claims(a, x.pcs[d], a.s.shards[k].head) && a.s.shards[k].head !in x.held[d]
    ensures IsFree(a.s, a.s.shards[k].head) && !LagsOwner(x.pcs[d], a.s.shards[k].head)
  {
    hide ListInv, Smp.BatchOk, Smp.HeldOk, MemoryOk, LockOf, Claims, LagsOwner;
    var h := a.s.shards[k].head;
    assert Anchors(a.s, Smp.Batches(a.cpus))[k] == a.s.shards[k];
    assert Listed(a, k, h);
    ListedFree(a, k, h);
    assert PcOk(x, a, d) && HeldRel(x, a, d);
    FreeLock(x, k, d);
    if h in x.held[d] { HeldKernel(a, d, h); }
    if LagsOwner(x.pcs[d], h) { LagClaims(x, a, d, h); }
    if Claims(a, x.pcs[d], h) {
      ClaimPlace(x, a, d, h);
      if OnList(x.pcs[d]) {
        ListedOnce(a, k, Spot(x.pcs[d], d), h);
        SpotLock(x.pcs[d], d, k);
      } else {
        HeldKernel(a, d, h);
      }
    }
  }

  lemma SpotLock(pc: Pc, d: nat, k: nat)
    requires OnList(pc) && k < SHARD_COUNT && Spot(pc, d) == k
    ensures LockOf(pc) == Some(k)
  {
  }

  /** A lock that is free is held by nobody. */
  lemma FreeLock(x: Fine, l: nat, d: nat)
    requires Sized(x) && LocksOk(x) && l <= GLOBAL && !x.locks[l] && d < |x.pcs|
    ensures LockOf(x.pcs[d]) != Some(l)
  {
    hide LockOf;
    if LockOf(x.pcs[d]).Some? { assert Holding(x, d); }
  }

  /** The section of CPU `c` changes, for whole sections, only shard or list `l` and frames in `touched`. */
  ghost predicate Local(a: Smp.System, a': Smp.System, c: nat, l: nat, touched: set<nat>) {
    && Valid(a.s) && Valid(a'.s) && |a'.s.owner| == |a.s.owner| && |a'.cpus| == |a.cpus| && |a'.held| == |a.held|
    && a'.s.pinned == a.s.pinned && a'.s.mappings == a.s.mappings
    && (forall d :: 0 <= d < |a.cpus| && d != c ==> a'.cpus[d] == a.cpus[d])
    && (forall d :: 0 <= d < |a.held| && d != c ==> a'.held[d] == a.held[d])
    && (forall k: nat :: k < SHARD_COUNT && k != l ==> a'.s.shards[k] == a.s.shards[k])
    && (l != GLOBAL ==> a'.s.global == a.s.global)
    && (forall y: nat :: y !in touched ==> SameAt(a.s, a'.s, y))
  }

  /** A section that starts now: it takes a free lock and, for whole sections, is over. */
  lemma Acquire(x: Fine, a: Smp.System, a': Smp.System, c: nat, l: nat, pc': Pc, touched: set<nat>)
    requires Sim(x, a) && Smp.SmpInv(a') && c < |x.pcs| && l <= GLOBAL && !x.locks[l]
    requires LockOf(x.pcs[c]).None? && LockOf(pc') == Some(l) && Local(a, a', c, l, touched)
    requires forall d: nat, y :: d < |x.pcs| && d != c && y in touched ==> !Claims(a, x.pcs[d], y)
    requires var x' := At(Locked(x, l, true), c, pc'); PcOk(x', a', c) && HeldRel(x', a', c)
    requires forall f: nat :: f < |x.s.owner| ==>
               && (LagsOwner(pc', f) || (!LagsOwner(x.pcs[c], f) && f < |a.s.owner| && a'.s.owner[f] == a.s.owner[f]))
               && (LagsGen(pc', f) || (!LagsGen(x.pcs[c], f) && f < |a.s.gen| && a'.s.gen[f] == a.s.gen[f]))
               && (LagsLink(pc', f) || (!LagsLink(x.pcs[c], f) && f < |a.s.ram| && a'.s.ram[f] == a.s.ram[f]))
    ensures Sim(At(Locked(x, l, true), c, pc'), a')
  {
    hide Smp.SmpInv, PcOk, LockOf, Claims, LagsOwner, LagsGen, LagsLink, LocksOk;
    var x' := At(Locked(x, l, true), c, pc');
    assert PcOk(x, a, c);
    LocksMove(x, x', c);
    MemoryMove(x, a.s, x', a'.s, c);
    forall d | 0 <= d < |x.pcs| && d != c
      ensures Untouched(x, a, x', a', d) && HeldRel(x', a', d)
    {
      assert HeldRel(x, a, d);
      FreeLock(x, l, d);
    }
    SimMove(x, a, x', a', c);
  }

  /** `a'` is `a`, or follows from it by a whole section or a client step of CPU `c`. */
  ghost predicate Follows(a: Smp.System, c: nat, a': Smp.System) {
    || a' == a
    || exists act :: Valid(a.s) && Smp.CpusOk(a) && Smp.Enabled(a, c, act) && a' == Smp.Act(a, c, act)
  }

  lemma Acts(a: Smp.System, c: nat, act: Smp.Action)
    requires Smp.SmpInv(a) && Valid(a.s) && Smp.Enabled(a, c, act)
    ensures Smp.SmpInv(Smp.Act(a, c, act)) && Follows(a, c, Smp.Act(a, c, act)) && Valid(Smp.Act(a, c, act).s)
  {
    hide Smp.Act, Smp.Enabled, ListInv;
    Smp.ActKeeps(a, c, act);
    Smp.ListBasics(Smp.Act(a, c, act).s, Smp.Batches(Smp.Act(a, c, act).cpus));
  }

  /** Both lists of an invariant state: empty exactly at the end marker. */
  lemma PopDecides(a: Smp.System, k: nat)
    requires Smp.SmpInv(a) && k < |a.s.shards|
    ensures Pop(a.s, k).1.None? <==> a.s.shards[k].head == LIST_END
    ensures Pop(a.s, k).1.None? ==> Pop(a.s, k).0 == a.s
    ensures Pop(a.s, k).1.Some? ==> a.s.shards[k].count > 0 && a.s.shards[k].head < |a.s.owner|
  {
    hide ListInv, Smp.BatchOk, Smp.HeldOk;
    PopKeeps(a.s, Smp.Batches(a.cpus), k);
  }

  /** What a CPU does to whole sections when it takes a shard's lock to pop. */
  function PopAction(pc: Pc): Smp.Action
    requires pc.PopSpin?
  {
    if pc.first then Smp.FirstPop(pc.k) else Smp.SecondPop
  }

  lemma AcquirePop(x: Fine, a: Smp.System, c: nat) returns (a': Smp.System)
    requires Sim(x, a) && c < |x.pcs| && x.pcs[c].PopSpin? && x.pcs[c].k < SHARD_COUNT && !x.locks[x.pcs[c].k]
    ensures Sim(Advanced(x, c), a') && Follows(a, c, a')
  {
    hide Sim, Smp.SmpInv, LocksOk, Follows, Visits, Follow, Next;
    Own(x, a, c);
    SimInv(x, a);
    var act := PopAction(x.pcs[c]);
    a' := Smp.Act(a, c, act);
    Acts(a, c, act);
    if x.s.shards[x.pcs[c].k].head == LIST_END { AcquireNone(x, a, c); } else { AcquireHead(x, a, c); }
  }

  lemma AcquireNone(x: Fine, a: Smp.System, c: nat)
    requires Sim(x, a) && c < |x.pcs| && x.pcs[c].PopSpin? && x.pcs[c].k < SHARD_COUNT && !x.locks[x.pcs[c].k]
    requires x.s.shards[x.pcs[c].k].head == LIST_END
    requires Valid(a.s) && Smp.CpusOk(a) && Smp.Enabled(a, c, PopAction(x.pcs[c]))
    requires Smp.SmpInv(Smp.Act(a, c, PopAction(x.pcs[c]))) && Valid(Smp.Act(a, c, PopAction(x.pcs[c])).s)
    ensures Sim(Advanced(x, c), Smp.Act(a, c, PopAction(x.pcs[c])))
  {
    hide Sim, Smp.SmpInv, LocksOk, Visits, Follow, Next;
    Own(x, a, c);
    SimInv(x, a);
    var pc := x.pcs[c];
    PopDecides(a, pc.k);
    Acquire(x, a, Smp.Act(a, c, PopAction(pc)), c, pc.k, PopNone(pc.k, pc.first), {});
  }

  lemma AcquireHead(x: Fine, a: Smp.System, c: nat)
    requires Sim(x, a) && c < |x.pcs| && x.pcs[c].PopSpin? && x.pcs[c].k < SHARD_COUNT && !x.locks[x.pcs[c].k]
    requires x.s.shards[x.pcs[c].k].head != LIST_END
    requires Valid(a.s) && Smp.CpusOk(a) && Smp.Enabled(a, c, PopAction(x.pcs[c]))
    requires Smp.SmpInv(Smp.Act(a, c, PopAction(x.pcs[c]))) && Valid(Smp.Act(a, c, PopAction(x.pcs[c])).s)
    ensures Sim(Advanced(x, c), Smp.Act(a, c, PopAction(x.pcs[c])))
  {
    hide Sim, Smp.SmpInv, LocksOk, Visits, Follow, Next;
    Own(x, a, c);
    SimInv(x, a);
    var pc := x.pcs[c];
    var k, g := pc.k, x.s.shards[pc.k];
    PopDecides(a, k);
    forall d: nat | d < |x.pcs|
      ensures !Claims(a, x.pcs[d], g.head) && g.head !in x.held[d] && !LagsOwner(x.pcs[d], g.head)
    {
      HeadUnclaimed(x, a, k, d);
    }
    HeadUnclaimed(x, a, k, c);
    assert OwnerSettled(x.pcs, g.head);
    Acquire(x, a, Smp.Act(a, c, PopAction(pc)), c, k, PopRead(k, pc.first, g), {g.head});
  }

  lemma SimInv(x: Fine, a: Smp.System)
    requires Sim(x, a)
    ensures Smp.SmpInv(a) && Smp.CpusOk(a) && |a.cpus| == |x.pcs| == |a.held| == |x.held|
  {
  }

  lemma AcquirePeel(x: Fine, a: Smp.System, c: nat) returns (a': Smp.System)
    requires Sim(x, a) && c < |x.pcs| && x.pcs[c].PeelSpin? && !x.locks[GLOBAL]
    ensures Sim(Advanced(x, c), a') && Follows(a, c, a')
  {
    hide Sim, Smp.SmpInv, LocksOk, Follows, Visits, Next;
    Own(x, a, c);
    SimInv(x, a);
    var k, g, n := x.pcs[c].k, x.s.global, BatchSize(x.s);
    a' := Smp.Act(a, c, Smp.PeelGlobal);
    Acts(a, c, Smp.PeelGlobal);
    Acquire(x, a, a', c, GLOBAL, if n == 0 then PeelNone(k) else PeelWalk(k, g, n, 0, g.head, g.head), {});
  }

  lemma AcquireSplice(x: Fine, a: Smp.System, c: nat) returns (a': Smp.System)
    requires Sim(x, a) && c < |x.pcs| && x.pcs[c].SpliceSpin? && x.pcs[c].k < SHARD_COUNT && !x.locks[x.pcs[c].k]
    ensures Sim(Advanced(x, c), a') && Follows(a, c, a')
  {
    hide Sim, Smp.SmpInv, LocksOk, Follows, Visits, Next, Follow, SetNext, Claims;
    Own(x, a, c);
    SimInv(x, a);
    var k, b := x.pcs[c].k, x.pcs[c].b;
    var g := x.s.shards[k];
    a' := Smp.Act(a, c, Smp.SpliceShard);
    Acts(a, c, Smp.SpliceShard);
    SpliceFacts(x, a, c);
    LinkWritten(a.s, b.tail, g.head);
    ReadsTrue(x, a, c, b.tail);
    LinkAlike(x.s, a.s, b.tail, g.head);
    forall d: nat | d < |x.pcs| && d != c
      ensures !Claims(a, x.pcs[d], b.tail)
    {
      if Claims(a, x.pcs[d], b.tail) { ClaimsApart(x, a, c, d, b.tail); }
    }
    Acquire(x, a, a', c, k, SpliceHold(k, b, g), {b.tail});
  }

  lemma LinkAlike(s: State, a: State, f: nat, next: nat)
    requires Valid(s) && Valid(a) && f < |s.ram| && f < |a.ram| && s.ram[f] == a.ram[f]
    ensures SetNext(s.ram, f, next)[f] == SetNext(a.ram, f, next)[f]
  {
  }

  /** The tail of a batch is its own, and is met in it before and after it is relinked. */
  lemma SpliceFacts(x: Fine, a: Smp.System, c: nat)
    requires Sim(x, a) && c < |x.pcs| && x.pcs[c].SpliceSpin?
    ensures var pc := x.pcs[c];
            && pc.b.tail < |a.s.owner| && Claims(a, pc, pc.b.tail) && pc.k < |a.s.shards|
            && Visits(SetNext(a.s.ram, pc.b.tail, a.s.shards[pc.k].head), pc.b.head, pc.b.count, pc.b.tail) > 0
  {
    hide ListInv, LocksOk, MemoryOk, Smp.HeldOk;
    assert PcOk(x, a, c) && Smp.BatchOk(a.s.ram, a.cpus[c]);
    var b, k, batches := x.pcs[c].b, x.pcs[c].k, Smp.Batches(a.cpus);
    TailIsLast(a.s, batches, c, b);
    HeadIsFree(a.s, batches, k);
    assert Anchors(a.s, batches)[k] == a.s.shards[k];
    forall g
      ensures Next(SetNext(a.s.ram, b.tail, a.s.shards[k].head), g)
                == if g == b.tail then a.s.shards[k].head else Next(a.s.ram, g)
    {
      NextOfSetNext(a.s.ram, b.tail, a.s.shards[k].head, g);
    }
    SpliceBatch(a.s.ram, SetNext(a.s.ram, b.tail, a.s.shards[k].head), b, a.s.shards[k].head);
  }

  lemma AcquireFree(x: Fine, a: Smp.System, c: nat) returns (a': Smp.System)
    requires Sim(x, a) && c < |x.pcs| && x.pcs[c].FreeSpin? && x.pcs[c].k < SHARD_COUNT && !x.locks[x.pcs[c].k]
    ensures Sim(Advanced(x, c), a') && Follows(a, c, a')
  {
    hide Sim, Smp.SmpInv, LocksOk, Follows, Visits, Next, Follow, SetNext, Claims;
    Own(x, a, c);
    SimInv(x, a);
    var k, f := x.pcs[c].k, x.pcs[c].f;
    var g := x.s.shards[k];
    InHandClaims(a, x.pcs[c], f);
    a' := Smp.Act(a, c, Smp.ReleaseHeld(k, f));
    Acts(a, c, Smp.ReleaseHeld(k, f));
    LinkWritten(a.s, f, g.head);
    ReadsTrue(x, a, c, f);
    LinkAlike(x.s, a.s, f, g.head);
    forall d: nat | d < |x.pcs| && d != c
      ensures !Claims(a, x.pcs[d], f)
    {
      if Claims(a, x.pcs[d], f) { ClaimsApart(x, a, c, d, f); }
    }
    Acquire(x, a, a', c, k, FreeHold(k, f, g), {f});
  }

  // ---------- callers ----------

  lemma StepStart(x: Fine, a: Smp.System, c: nat, m: Move)
    requires Sim(x, a) && (m.StartAlloc? || m.StartRelease?) && Enabled(x, c, m)
    ensures Sim(Moved(x, c, m), a)
  {
    hide Sim, LocksOk;
    Own(x, a, c);
    var x' := Moved(x, c, m);
    LocksMove(x, x', c);
    MemoryMove(x, a.s, x', a.s, c);
    Internal(x, a, x', c);
  }

  lemma StepWriteHeld(x: Fine, a: Smp.System, c: nat, f: nat, i: nat, w: nat) returns (a': Smp.System)
    requires Sim(x, a) && Enabled(x, c, WriteHeld(f, i, w))
    ensures Sim(Moved(x, c, WriteHeld(f, i, w)), a') && Follows(a, c, a')
  {
    hide Sim, Smp.SmpInv, LocksOk, Follows, Claims;
    Own(x, a, c);
    SimInv(x, a);
    var x' := Moved(x, c, WriteHeld(f, i, w));
    var act := Smp.WriteHeld(f, i, w);
    HeldTrue(x, a, c, f);
    a' := Smp.Act(a, c, act);
    Acts(a, c, act);
    WordWritten(x.s, f, i, w);
    WordWritten(a.s, f, i, w);
    LocksMove(x, x', c);
    MemoryMove(x, a.s, x', a'.s, c);
    forall d | 0 <= d < |x.pcs| && d != c
      ensures Untouched(x, a, x', a', d) && HeldRel(x', a', d)
    {
      HeldUnclaimed(x, a, c, d, f);
      Own(x, a, d);
    }
    SimMove(x, a, x', a', c);
  }

  lemma WordWritten(s: State, f: nat, i: nat, w: nat)
    requires Valid(s) && f < |s.owner|
    ensures var ram' := Write(s.ram, f, i, w);
            && ValidRam(ram') && |ram'| == |s.ram| && (forall y: nat :: y < |s.ram| && y != f ==> ram'[y] == s.ram[y])
            && ram'[f] == if i < WORDS then s.ram[f][i := w] else s.ram[f]
  {
  }

  lemma StepHandOver(x: Fine, a: Smp.System, c: nat, d: nat, f: nat) returns (a': Smp.System)
    requires Sim(x, a) && Enabled(x, c, HandOver(d, f))
    ensures Sim(Moved(x, c, HandOver(d, f)), a') && Follows(a, c, a')
  {
    hide Sim, Smp.SmpInv, LocksOk, Follows, PcOk, MemoryOk;
    Own(x, a, c);
    SimInv(x, a);
    var x' := Moved(x, c, HandOver(d, f));
    var act := Smp.HandOver(d, f);
    a' := Smp.Act(a, c, act);
    Acts(a, c, act);
    forall e: nat | e < |x.pcs|
      ensures HeldRel(x', a', e) && PcOk(x', a', e)
    {
      Own(x, a, e);
      HandedRel(x, a, c, e, f);
      PcByState(x, a, x', a', e);
    }
    LocksMove(x, x', c);
    MemoryByState(x, a.s, x');
    Assemble(x', a');
  }

  lemma HandedRel(x: Fine, a: Smp.System, c: nat, e: nat, f: nat)
    requires Sim(x, a) && c < |x.pcs| && e < |x.pcs| && f in x.held[c]
    ensures f in a.held[c] && f !in InHand(x.pcs[e])
  {
    hide Claims, LocksOk, MemoryOk, PcOk, ListInv;
    assert HeldRel(x, a, c) && HeldRel(x, a, e);
    assert Smp.Holds(a.held, c, f);
    assert Smp.Holds(a.held, e, f) ==> c == e;
  }

  lemma PcByState(x: Fine, a: Smp.System, x': Fine, a': Smp.System, c: nat)
    requires c < |x.pcs| && c < |a.cpus| && PcOk(x, a, c) && x'.pcs == x.pcs && x'.s == x.s && a'.cpus == a.cpus
    requires a'.s == a.s
    ensures PcOk(x', a', c)
  {
  }

  lemma MemoryByState(x: Fine, a: State, x': Fine)
    requires MemoryOk(x, a) && Sized(x') && x'.pcs == x.pcs && x'.s == x.s && x'.locks == x.locks
    ensures MemoryOk(x', a)
  {
  }

  lemma Assemble(x: Fine, a: Smp.System)
    requires Sized(x) && Smp.SmpInv(a) && |a.cpus| == |x.pcs| == |a.held|
    requires forall c: nat :: c < |x.pcs| ==> HeldRel(x, a, c) && PcOk(x, a, c)
    requires LocksOk(x) && MemoryOk(x, a.s)
    ensures Sim(x, a)
  {
    hide Smp.SmpInv, LocksOk, MemoryOk, PcOk, HeldRel;
  }

  // ---------- the simulation ----------

  /** A CPU inside a call: within a section nothing happens to whole sections, and taking a lock is one. */
  lemma StepAdvance(x: Fine, a: Smp.System, c: nat) returns (a': Smp.System)
    requires Sim(x, a) && Enabled(x, c, Advance)
    ensures Sim(Advanced(x, c), a') && Follows(a, c, a')
  {
    hide Sim, Follows, PcOk, MemoryOk, LocksOk;
    Own(x, a, c);
    SimInv(x, a);
    PcShard(x, a, c);
    a' := a;
    Stays(a, c);
    match x.pcs[c] {
      case PopSpin(k, first) => if !x.locks[k] { a' := AcquirePop(x, a, c); }
      case PopRead(k, first, g) => StepPopRead(x, a, c);
      case PeelSpin(k) => if !x.locks[GLOBAL] { a' := AcquirePeel(x, a, c); }
      case PeelWalk(k, g, n, j, tail, cur) => StepPeelWalk(x, a, c);
      case SpliceSpin(k, b) => if !x.locks[k] { a' := AcquireSplice(x, a, c); }
      case SpliceHold(k, b, g) => StepLink(x, a, c);
      case FreeBumped(k, f, g) => StepLink(x, a, c);
      case FreeSpin(k, f) => if !x.locks[k] { a' := AcquireFree(x, a, c); }
      case PopTake(k, h, g) => StepTake(x, a, c);
      case FreeHold(k, f, g) => StepFreeOwner(x, a, c);
      case FreeSeen(k, f, o, g) => StepFreeOwner(x, a, c);
      case FreeOwned(k, f, g) => StepBump(x, a, c);
      case _ => StepUnlock(x, a, c);
    }
  }

  lemma PcShard(x: Fine, a: Smp.System, c: nat)
    requires c < |x.pcs| && c < |a.cpus| && PcOk(x, a, c)
    ensures !x.pcs[c].Resting? ==> x.pcs[c].k < SHARD_COUNT
  {
  }

  lemma Stays(a: Smp.System, c: nat)
    ensures Follows(a, c, a)
  {
  }

  /** Every move of every CPU is a step of whole sections, or none. */
  lemma MoveFollows(x: Fine, a: Smp.System, c: nat, m: Move) returns (a': Smp.System)
    requires Sim(x, a) && Enabled(x, c, m)
    ensures Sim(Moved(x, c, m), a') && Follows(a, c, a')
    ensures forall f: nat :: Smp.InPool(a', f) <==> Smp.InPool(a, f)
  {
    hide Sim, Follows, Smp.InPool, Enabled;
    match m {
      case Advance => a' := StepAdvance(x, a, c);
      case StartAlloc(_) => a' := a; StepStart(x, a, c, m); Stays(a, c);
      case StartRelease(_, _) => a' := a; StepStart(x, a, c, m); Stays(a, c);
      case WriteHeld(f, i, w) => a' := StepWriteHeld(x, a, c, f, i, w);
      case HandOver(d, f) => a' := StepHandOver(x, a, c, d, f);
    }
    PoolFollows(x, a, c, a');
  }

  lemma PoolFollows(x: Fine, a: Smp.System, c: nat, a': Smp.System)
    requires Sim(x, a) && Follows(a, c, a')
    ensures forall f: nat :: Smp.InPool(a', f) <==> Smp.InPool(a, f)
  {
    hide Smp.Act, Smp.Enabled, Smp.InPool, PcOk, MemoryOk, LocksOk, HeldRel, Smp.SmpInv;
    if a' != a {
      var act :| Valid(a.s) && Smp.CpusOk(a) && Smp.Enabled(a, c, act) && a' == Smp.Act(a, c, act);
      Smp.ActKeeps(a, c, act);
    }
  }

  // ---------- runs ----------

  ghost predicate IsRun(trace: seq<Fine>, who: seq<nat>, moves: seq<Move>) {
    && |moves| == |who| && |trace| == |who| + 1
    && forall k :: 0 <= k < |who| ==>
         Enabled(trace[k], who[k], moves[k]) && trace[k + 1] == Moved(trace[k], who[k], moves[k])
  }

  /** The same memory and holders, with every CPU outside the allocator. */
  ghost function Whole(x: Fine): Smp.System {
    Smp.System(x.s, seq(|x.pcs|, _ => Smp.Outside), x.held)
  }

  /** No CPU has started: the lists are exact, no lock is taken and nothing is held. */
  ghost predicate Initial(x: Fine) {
    && Sized(x) && Smp.Initial(Whole(x))
    && (forall l :: 0 <= l < |x.locks| ==> !x.locks[l])
    && (forall c :: 0 <= c < |x.pcs| ==> x.pcs[c] == Resting)
  }

  lemma InitialSim(x: Fine)
    requires Initial(x)
    ensures Sim(x, Whole(x)) && forall f: nat :: Smp.InPool(Whole(x), f) <==> IsFree(x.s, f)
  {
    hide ListInv;
    Smp.ListBasics(x.s, Smp.Batches(Whole(x).cpus));
  }

  /** No assertion has failed, and those that come next will hold: a popped frame is Free, a freed one is not. */
  predicate AssertionsHold(x: Fine, pc: Pc) {
    match pc
    case PopRead(_, _, g) => OwnerOf(x, g.head).Free?
    case PopTake(_, h, _) => OwnerOf(x, h).Free?
    case FreeHold(_, f, _) => OwnerOf(x, f).Kernel?
    case FreeSeen(_, f, o, _) => OwnerOf(x, f) == o
    case Halted(_) => false
    case _ => true
  }

  /**
   What callers rely on: one CPU at a time in each lock, one holder for each frame, it is
   kernel-owned, and no assertion fails.
   */
  ghost predicate Safe(x: Fine) {
    && LocksOk(x)
    && (forall c :: 0 <= c < |x.pcs| ==> AssertionsHold(x, x.pcs[c]))
    && (forall c, d, f: nat :: Smp.Holds(x.held, c, f) && Smp.Holds(x.held, d, f) ==> c == d)
    && (forall c, f: nat :: Smp.Holds(x.held, c, f) ==> f < |x.s.owner| && x.s.owner[f].Kernel?)
  }

  predicate Quiet(x: Fine) {
    forall c :: 0 <= c < |x.pcs| ==> x.pcs[c].Resting?
  }

  lemma SimSafe(x: Fine, a: Smp.System)
    requires Sim(x, a)
    ensures Safe(x)
  {
    hide ListInv, PcOk, MemoryOk;
    forall c: nat | c < |x.pcs|
      ensures AssertionsHold(x, x.pcs[c])
    {
      assert PcOk(x, a, c);
      OwnersExpected(x, a, c);
    }
    forall c, f: nat | Smp.Holds(x.held, c, f)
      ensures f < |x.s.owner| && x.s.owner[f].Kernel? && Smp.Holds(a.held, c, f)
    {
      assert HeldRel(x, a, c);
      HeldTrue(x, a, c, f);
    }
  }

  lemma OwnersExpected(x: Fine, a: Smp.System, c: nat)
    requires c < |x.pcs| && c < |a.cpus| && PcOk(x, a, c)
    ensures AssertionsHold(x, x.pcs[c])
  {
  }

  /** With every CPU at rest the memory is exactly that of the whole sections. */
  lemma SimQuiet(x: Fine, a: Smp.System)
    requires Sim(x, a) && Quiet(x)
    ensures a == Whole(x)
  {
    hide Smp.SmpInv;
    forall c | 0 <= c < |x.pcs|
      ensures a.cpus[c] == Smp.Outside && a.held[c] == x.held[c]
    {
      assert PcOk(x, a, c) && HeldRel(x, a, c);
    }
    forall f: nat
      ensures OwnerSettled(x.pcs, f) && GenSettled(x.pcs, f) && LinkSettled(x.pcs, f)
    {
    }
    assert forall l: nat :: l < |x.locks| ==> !x.locks[l];
    assert x.s.owner == a.s.owner && x.s.gen == a.s.gen && x.s.ram == a.s.ram && x.s.shards == a.s.shards;
    assert x.held == a.held && a.cpus == Whole(x).cpus;
  }

  /** A run of whole sections. */
  datatype Sections = Sections(trace: seq<Smp.System>, who: seq<nat>, what: seq<Smp.Action>)

  /** An interleaving of whole sections from `first` to `last`. */
  ghost predicate Leads(r: Sections, first: Smp.System, last: Smp.System) {
    Smp.IsRun(r.trace, r.who, r.what) && r.trace[0] == first && r.trace[|r.what|] == last
  }

  /** The run goes on with what one move does to whole sections. */
  lemma Extend(r: Sections, first: Smp.System, a: Smp.System, c: nat, a': Smp.System) returns (r': Sections)
    requires Leads(r, first, a) && Follows(a, c, a')
    ensures Leads(r', first, a') && |r.what| <= |r'.what| <= |r.what| + 1
  {
    hide Smp.Act, Smp.Enabled;
    r' := r;
    if a' != a {
      var act :| Valid(a.s) && Smp.CpusOk(a) && Smp.Enabled(a, c, act) && a' == Smp.Act(a, c, act);
      r' := Sections(r.trace + [a'], r.who + [c], r.what + [act]);
    }
  }

  /**
   In every state of every interleaving of single memory accesses: mutual exclusion, one kernel-owned
   holder for each frame in a caller's hands, no failed assertion, and an interleaving of whole
   sections, from the same start and no longer, whose last state accounts for it.  Whenever all CPUs
   are at rest, that state is this one, the lists meet each Free frame exactly once, and the Free and
   held frames are together those that were Free at the start.
   */
  lemma {:induction false} RunsKeep(trace: seq<Fine>, who: seq<nat>, moves: seq<Move>, k: nat)
    returns (a: Smp.System, r: Sections)
    requires IsRun(trace, who, moves) && Initial(trace[0]) && k < |trace|
    ensures Sim(trace[k], a) && Safe(trace[k])
    ensures Leads(r, Whole(trace[0]), a) && |r.what| <= k
    ensures forall f: nat :: Smp.InPool(a, f) <==> IsFree(trace[0].s, f)
    ensures Quiet(trace[k]) ==>
              && a == Whole(trace[k]) && Smp.SmpInv(Whole(trace[k]))
              && forall f: nat :: Smp.InPool(Whole(trace[k]), f) <==> IsFree(trace[0].s, f)
    decreases k
  {
    hide Sim, Safe, Smp.InPool, Initial, Enabled, Smp.SmpInv, Quiet, IsFree, Moved, Leads, Follows;
    if k == 0 {
      a := Whole(trace[0]);
      InitialSim(trace[0]);
      r := Sections([a], [], []);
      Start(a);
    } else {
      var before, run := RunsKeep(trace, who, moves, k - 1);
      a := MoveFollows(trace[k - 1], before, who[k - 1], moves[k - 1]);
      r := Extend(run, Whole(trace[0]), before, who[k - 1], a);
    }
    SimSafe(trace[k], a);
    SimInv(trace[k], a);
    if Quiet(trace[k]) { SimQuiet(trace[k], a); }
  }

  lemma Start(a: Smp.System)
    ensures Leads(Sections([a], [], []), a, a)
  {
  }
}
