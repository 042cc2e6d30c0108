/**
 The frame allocator on any number of CPUs.  Each locked section of `kernel/src/allocator.rs` is
 one atomic step, as the spinlock makes it; between the sections of one call other CPUs interleave
 freely.  A CPU that has peeled a batch off the global list and not yet spliced it onto a shard
 holds the batch in flight.
 */
module SmpAllocator {
  import opened Pmm
  import opened FreeLists

  /** Where a CPU stands in `alloc_frame` on shard `k`. */
  datatype Cpu =
    | Outside
    | MustRefill(k: nat)
    | MustSplice(k: nat, b: Batch)
    | MustRetry(k: nat)

  /** `held[c]` are the frames handed to callers on CPU `c` and not yet released. */
  datatype System = System(s: State, cpus: seq<Cpu>, held: seq<set<nat>>)

  datatype Action =
    | FirstPop(k: nat)
    | PeelGlobal
    | SpliceShard
    | SecondPop
    | ReleaseHeld(k: nat, f: nat)
    | WriteHeld(f: nat, i: nat, w: nat)
    | HandOver(d: nat, f: nat)

  predicate Enabled(sys: System, c: nat, a: Action) {
    && c < |sys.cpus| && c < |sys.held|
    && match a
       case FirstPop(k) => sys.cpus[c].Outside? && k < |sys.s.shards|
       case PeelGlobal => sys.cpus[c].MustRefill?
       case SpliceShard => sys.cpus[c].MustSplice?
       case SecondPop => sys.cpus[c].MustRetry?
       case ReleaseHeld(k, f) =>
         && sys.cpus[c].Outside? && k < |sys.s.shards| && f in sys.held[c]
         && f < |sys.s.owner| && f < |sys.s.pinned| && f < |sys.s.mappings| && Idle(sys.s, f)
       case WriteHeld(f, i, w) => f in sys.held[c]
       case HandOver(d, f) => d < |sys.held| && f in sys.held[c]
  }

  function Popped(sys: System, c: nat, k: nat, otherwise: Cpu): System
    requires c < |sys.cpus| && c < |sys.held| && k < |sys.s.shards|
  {
    var (s', r) := Pop(sys.s, k);
    if r.Some? then System(s', sys.cpus[c := Outside], sys.held[c := sys.held[c] + {r.value}])
    else System(s', sys.cpus[c := otherwise], sys.held)
  }

  /** One step of CPU `c`. */
  function Act(sys: System, c: nat, a: Action): System
    requires Enabled(sys, c, a) && Valid(sys.s) && CpusOk(sys)
  {
    match a
    case FirstPop(k) => Popped(sys, c, k, MustRefill(k))
    case PeelGlobal =>
      var k := sys.cpus[c].k;
      if sys.s.global.count == 0 then sys.(cpus := sys.cpus[c := MustRetry(k)])
      else
        var (s', b) := Peel(sys.s);
        System(s', sys.cpus[c := MustSplice(k, b)], sys.held)
    case SpliceShard =>
      var k := sys.cpus[c].k;
      System(Splice(sys.s, k, sys.cpus[c].b), sys.cpus[c := MustRetry(k)], sys.held)
    case SecondPop => Popped(sys, c, sys.cpus[c].k, Outside)
    case ReleaseHeld(k, f) => System(Push(sys.s, k, f), sys.cpus, sys.held[c := sys.held[c] - {f}])
    case WriteHeld(f, i, w) => sys.(s := sys.s.(ram := Write(sys.s.ram, f, i, w)))
    case HandOver(d, f) =>
      var held' := sys.held[c := sys.held[c] - {f}];
      sys.(held := held'[d := held'[d] + {f}])
  }

  // ---------- the invariant ----------

  predicate CpusOk(sys: System) {
    forall c :: 0 <= c < |sys.cpus| && !sys.cpus[c].Outside? ==> sys.cpus[c].k < |sys.s.shards|
  }

  function InFlight(cpu: Cpu): Shard {
    if cpu.MustSplice? then Shard(cpu.b.head, cpu.b.count) else Shard(0, 0)
  }

  ghost function Batches(cpus: seq<Cpu>): seq<Shard> {
    seq(|cpus|, c requires 0 <= c < |cpus| => InFlight(cpus[c]))
  }

  predicate BatchOk(ram: Ram, cpu: Cpu) {
    cpu.MustSplice? ==> cpu.b.count > 0 && cpu.b.tail == Follow(ram, cpu.b.head, cpu.b.count - 1)
  }

  predicate Holds(held: seq<set<nat>>, c: int, f: nat) {
    0 <= c < |held| && f in held[c]
  }

  /** Held frames are kernel-owned, and each has one holder. */
  ghost predicate HeldOk(sys: System) {
    && |sys.held| == |sys.cpus|
    && (forall c, f: nat :: Holds(sys.held, c, f) ==> f < |sys.s.owner| && sys.s.owner[f].Kernel?)
    && (forall c, d, f: nat :: Holds(sys.held, c, f) && Holds(sys.held, d, f) ==> c == d)
  }

  /**
   Shard lists, the global list and the batches in flight meet each Free frame exactly once and no
   other frame; no frame is held twice, and a held frame is on no list.
   */
  ghost predicate SmpInv(sys: System) {
    && ListInv(sys.s, Batches(sys.cpus))
    && CpusOk(sys)
    && (forall c :: 0 <= c < |sys.cpus| ==> BatchOk(sys.s.ram, sys.cpus[c]))
    && HeldOk(sys)
  }

  /** Free, or held by some caller. */
  ghost predicate InPool(sys: System, f: nat) {
    IsFree(sys.s, f) || exists c :: Holds(sys.held, c, f)
  }

  // ---------- the steps ----------

  lemma BatchesUpdate(cpus: seq<Cpu>, c: nat, cpu: Cpu)
    requires c < |cpus|
    ensures Batches(cpus[c := cpu]) == Batches(cpus)[c := InFlight(cpu)]
    ensures InFlight(cpu) == InFlight(cpus[c]) ==> Batches(cpus[c := cpu]) == Batches(cpus)
  {
  }

  /** A batch keeps its tail when no frame it meets is re-linked. */
  lemma BatchFrame(ram: Ram, ram': Ram, cpu: Cpu)
    requires BatchOk(ram, cpu)
    requires cpu.MustSplice? ==> forall g :: Visits(ram, cpu.b.head, cpu.b.count - 1, g) > 0 ==>
               Next(ram', g) == Next(ram, g)
    ensures BatchOk(ram', cpu)
  {
    if cpu.MustSplice? { VisitsFrame(ram, ram', cpu.b.head, cpu.b.count - 1); }
  }

  /** A batch meets only Free frames. */
  lemma BatchMeetsFree(s: State, cpus: seq<Cpu>, c: nat, g: nat)
    requires ListInv(s, Batches(cpus)) && c < |cpus| && cpus[c].MustSplice? && BatchOk(s.ram, cpus[c])
    requires Visits(s.ram, cpus[c].b.head, cpus[c].b.count - 1, g) > 0
    ensures IsFree(s, g)
  {
    hide ListInv;
    var an, p, b := Anchors(s, Batches(cpus)), |s.shards| + 1 + c, cpus[c].b;
    assert an[p] == InFlight(cpus[c]);
    VisitsLast(s.ram, b.head, b.count, g);
    MeetingsContain(s.ram, an, p, g);
    MeetingsFree(s, Batches(cpus), g);
  }

  lemma MeetingsFree(s: State, batches: seq<Shard>, g: nat)
    requires ListInv(s, batches)
    ensures Meetings(s.ram, Anchors(s, batches), g) == if IsFree(s, g) then 1 else 0
  {
  }

  /** Re-linking frames that are not Free disturbs no batch. */
  lemma BatchesKeep(s: State, cpus: seq<Cpu>, ram': Ram)
    requires ListInv(s, Batches(cpus))
    requires forall c :: 0 <= c < |cpus| ==> BatchOk(s.ram, cpus[c])
    requires forall g :: IsFree(s, g) ==> Next(ram', g) == Next(s.ram, g)
    ensures forall c :: 0 <= c < |cpus| ==> BatchOk(ram', cpus[c])
  {
    hide ListInv;
    forall c | 0 <= c < |cpus|
      ensures BatchOk(ram', cpus[c])
    {
      assert BatchOk(s.ram, cpus[c]);
      if cpus[c].MustSplice? {
        forall g | Visits(s.ram, cpus[c].b.head, cpus[c].b.count - 1, g) > 0
          ensures Next(ram', g) == Next(s.ram, g)
        {
          BatchMeetsFree(s, cpus, c, g);
        }
      }
      BatchFrame(s.ram, ram', cpus[c]);
    }
  }

  lemma TwoLists(ram: Ram, anchors: seq<Shard>, p: nat, q: nat, f: nat)
    requires p < |anchors| && q < |anchors| && p != q
    ensures Visits(ram, anchors[p].head, anchors[p].count, f) + Visits(ram, anchors[q].head, anchors[q].count, f)
         <= Meetings(ram, anchors, f)
  {
    MeetingsUpdate(ram, anchors, p, Shard(0, 0), f);
    MeetingsContain(ram, anchors[p := Shard(0, 0)], q, f);
  }

  /** Splicing one batch disturbs no other batch. */
  lemma SpliceDisturbsNoBatch(s: State, cpus: seq<Cpu>, c: nat, d: nat)
    requires ListInv(s, Batches(cpus)) && c < |cpus| && d < |cpus| && c != d
    requires cpus[c].MustSplice? && cpus[c].k < |s.shards| && BatchOk(s.ram, cpus[c]) && BatchOk(s.ram, cpus[d])
    ensures BatchOk(Splice(s, cpus[c].k, cpus[c].b).ram, cpus[d])
  {
    var b, k := cpus[c].b, cpus[c].k;
    var ram' := Splice(s, k, b).ram;
    if cpus[d].MustSplice? {
      var bd, an := cpus[d].b, Anchors(s, Batches(cpus));
      var p, q := |s.shards| + 1 + c, |s.shards| + 1 + d;
      assert an[p] == InFlight(cpus[c]) && an[q] == InFlight(cpus[d]);
      VisitsLast(s.ram, b.head, b.count, b.tail);
      TwoLists(s.ram, an, p, q, b.tail);
      VisitsLast(s.ram, bd.head, bd.count, b.tail);
      TailIsLast(s, Batches(cpus), c, b);
      assert an[k] == s.shards[k];
      HeadIsFree(s, Batches(cpus), k);
      forall g | Visits(s.ram, bd.head, bd.count - 1, g) > 0
        ensures Next(ram', g) == Next(s.ram, g)
      {
        NextOfSetNext(s.ram, b.tail, s.shards[k].head, g);
      }
      BatchFrame(s.ram, ram', cpus[d]);
    }
  }

  lemma PoppedKeeps(sys: System, c: nat, k: nat, otherwise: Cpu)
    requires SmpInv(sys) && c < |sys.cpus| && !sys.cpus[c].MustSplice? && k < |sys.s.shards|
    requires otherwise.Outside? || (otherwise.MustRefill? && otherwise.k == k)
    ensures SmpInv(Popped(sys, c, k, otherwise))
    ensures forall f: nat :: InPool(Popped(sys, c, k, otherwise), f) <==> InPool(sys, f)
  {
    hide ListInv, Pop;
    var sys' := Popped(sys, c, k, otherwise);
    PopKeeps(sys.s, Batches(sys.cpus), k);
    ListBasics(sys'.s, Batches(sys.cpus));
    BatchesUpdate(sys.cpus, c, sys'.cpus[c]);
    PopShards(sys.s, k);
    var (s', r) := Pop(sys.s, k);
    if r.Some? {
      forall e, g: nat
        ensures Holds(sys'.held, e, g) <==>
                  if g == r.value then e == c || Holds(sys.held, e, g) else Holds(sys.held, e, g)
      {
      }
      forall f: nat
        ensures InPool(sys', f) <==> InPool(sys, f)
      {
        if f == r.value { assert Holds(sys'.held, c, f); } else { assert IsFree(sys'.s, f) == IsFree(sys.s, f); }
      }
    }
  }

  lemma ListBasics(s: State, batches: seq<Shard>)
    requires ListInv(s, batches)
    ensures Valid(s)
  {
  }

  lemma PopShards(s: State, k: nat)
    requires k < |s.shards|
    ensures |Pop(s, k).0.shards| == |s.shards|
  {
  }

  lemma PeelStep(sys: System, c: nat)
    requires SmpInv(sys) && c < |sys.cpus| && sys.cpus[c].MustRefill? && Valid(sys.s)
    ensures SmpInv(Act(sys, c, PeelGlobal))
    ensures forall f: nat :: InPool(Act(sys, c, PeelGlobal), f) <==> InPool(sys, f)
  {
    hide ListInv;
    var sys' := Act(sys, c, PeelGlobal);
    BatchesUpdate(sys.cpus, c, sys'.cpus[c]);
    if sys.s.global.count > 0 {
      PeelKeeps(sys.s, Batches(sys.cpus), c);
    }
  }

  lemma SpliceStep(sys: System, c: nat)
    requires SmpInv(sys) && c < |sys.cpus| && sys.cpus[c].MustSplice? && Valid(sys.s)
    ensures SmpInv(Act(sys, c, SpliceShard))
    ensures forall f: nat :: InPool(Act(sys, c, SpliceShard), f) <==> InPool(sys, f)
  {
    hide ListInv, BatchOk, Follow;
    var sys' := Act(sys, c, SpliceShard);
    var k, b := sys.cpus[c].k, sys.cpus[c].b;
    BatchesUpdate(sys.cpus, c, sys'.cpus[c]);
    assert BatchOk(sys.s.ram, sys.cpus[c]);
    BatchTail(sys.s.ram, sys.cpus[c]);
    SpliceKeeps(sys.s, Batches(sys.cpus), c, k, b);
    forall d | 0 <= d < |sys'.cpus|
      ensures BatchOk(sys'.s.ram, sys'.cpus[d])
    {
      if d == c { NoBatch(sys'.s.ram, sys'.cpus[c]); } else { SpliceDisturbsNoBatch(sys.s, sys.cpus, c, d); }
    }
  }

  lemma BatchTail(ram: Ram, cpu: Cpu)
    requires BatchOk(ram, cpu) && cpu.MustSplice?
    ensures cpu.b.count > 0 && cpu.b.tail == Follow(ram, cpu.b.head, cpu.b.count - 1)
  {
  }

  lemma NoBatch(ram: Ram, cpu: Cpu)
    requires !cpu.MustSplice?
    ensures BatchOk(ram, cpu)
  {
  }

  lemma ReleaseStep(sys: System, c: nat, k: nat, f: nat)
    requires SmpInv(sys) && Valid(sys.s) && Enabled(sys, c, ReleaseHeld(k, f))
    ensures SmpInv(Act(sys, c, ReleaseHeld(k, f)))
    ensures forall g: nat :: InPool(Act(sys, c, ReleaseHeld(k, f)), g) <==> InPool(sys, g)
  {
    hide ListInv, BatchOk;
    var sys' := Act(sys, c, ReleaseHeld(k, f));
    assert Holds(sys.held, c, f);
    PushKeeps(sys.s, Batches(sys.cpus), k, f);
    HeadIsFree(sys.s, Batches(sys.cpus), k);
    assert Anchors(sys.s, Batches(sys.cpus))[k] == sys.s.shards[k];
    forall g | IsFree(sys.s, g)
      ensures Next(sys'.s.ram, g) == Next(sys.s.ram, g)
    {
      NextOfSetNext(sys.s.ram, f, sys.s.shards[k].head, g);
    }
    BatchesKeep(sys.s, sys.cpus, sys'.s.ram);
    forall e, g: nat
      ensures Holds(sys'.held, e, g) <==> (e != c || g != f) && Holds(sys.held, e, g)
    {
    }
    forall g: nat
      ensures InPool(sys', g) <==> InPool(sys, g)
    {
      if g != f { assert IsFree(sys'.s, g) == IsFree(sys.s, g); }
    }
  }

  /** Memory of held frames belongs to the callers. */
  lemma WriteStep(sys: System, c: nat, f: nat, i: nat, w: nat)
    requires SmpInv(sys) && Valid(sys.s) && Enabled(sys, c, WriteHeld(f, i, w))
    ensures SmpInv(Act(sys, c, WriteHeld(f, i, w)))
    ensures forall g: nat :: InPool(Act(sys, c, WriteHeld(f, i, w)), g) <==> InPool(sys, g)
  {
    hide BatchOk, Meetings, Follow;
    var sys' := Act(sys, c, WriteHeld(f, i, w));
    var batches := Batches(sys.cpus);
    var an := Anchors(sys.s, batches);
    assert Anchors(sys'.s, batches) == an;
    assert Holds(sys.held, c, f);
    forall g | IsFree(sys.s, g)
      ensures Next(sys'.s.ram, g) == Next(sys.s.ram, g)
    {
      assert g != f;
    }
    BatchesKeep(sys.s, sys.cpus, sys'.s.ram);
    MeetingsFrame(sys.s.ram, sys'.s.ram, an);
    forall g: nat
      ensures Meetings(sys'.s.ram, an, g) == if IsFree(sys'.s, g) then 1 else 0
    {
      assert IsFree(sys'.s, g) == IsFree(sys.s, g);
    }
    forall k | 0 <= k < |sys.s.shards|
      ensures Terminated(sys'.s.ram, sys.s.shards[k])
    {
      assert an[k] == sys.s.shards[k];
    }
    assert an[|sys.s.shards|] == sys.s.global;
  }

  lemma HandOverStep(sys: System, c: nat, d: nat, f: nat)
    requires SmpInv(sys) && Valid(sys.s) && Enabled(sys, c, HandOver(d, f))
    ensures SmpInv(Act(sys, c, HandOver(d, f)))
    ensures forall g: nat :: InPool(Act(sys, c, HandOver(d, f)), g) <==> InPool(sys, g)
  {
    hide ListInv, BatchOk;
    var sys' := Act(sys, c, HandOver(d, f));
    assert Holds(sys.held, c, f);
    forall e, g: nat
      ensures Holds(sys'.held, e, g) <==> if g == f then e == d else Holds(sys.held, e, g)
    {
      assert Holds(sys.held, e, g) ==> g != f || e == c;
    }
    forall g: nat
      ensures InPool(sys', g) <==> InPool(sys, g)
    {
      if g == f { assert Holds(sys'.held, d, f); }
    }
  }

  /** Every step of every CPU keeps the invariant, and no frame enters or leaves the pool. */
  lemma ActKeeps(sys: System, c: nat, a: Action)
    requires SmpInv(sys) && Valid(sys.s) && Enabled(sys, c, a)
    ensures SmpInv(Act(sys, c, a))
    ensures forall f: nat :: InPool(Act(sys, c, a), f) <==> InPool(sys, f)
  {
    hide ListInv, BatchOk, HeldOk, Popped, InPool;
    match a {
      case FirstPop(k) => PoppedKeeps(sys, c, k, MustRefill(k));
      case PeelGlobal => PeelStep(sys, c);
      case SpliceShard => SpliceStep(sys, c);
      case SecondPop => PoppedKeeps(sys, c, sys.cpus[c].k, Outside);
      case ReleaseHeld(k, f) => ReleaseStep(sys, c, k, f);
      case WriteHeld(f, i, w) => WriteStep(sys, c, f, i, w);
      case HandOver(d, f) => HandOverStep(sys, c, d, f);
    }
  }

  // ---------- runs ----------

  /** An interleaving: `who[k]` takes action `what[k]` in state `trace[k]`. */
  ghost predicate IsRun(trace: seq<System>, who: seq<nat>, what: seq<Action>) {
    && |what| == |who| && |trace| == |who| + 1
    && forall k :: 0 <= k < |who| ==>
         && Valid(trace[k].s) && CpusOk(trace[k])
         && Enabled(trace[k], who[k], what[k]) && trace[k + 1] == Act(trace[k], who[k], what[k])
  }

  /** No CPU has started: the lists are exact and nothing is held or in flight. */
  ghost predicate Initial(sys: System) {
    && ListInv(sys.s, Batches(sys.cpus)) && |sys.held| == |sys.cpus|
    && forall c :: 0 <= c < |sys.cpus| ==> sys.cpus[c].Outside? && sys.held[c] == {}
  }

  /**
   On every interleaving of any number of CPUs: the lists and batches partition the Free frames, no
   frame is held by two callers, and the Free and held frames together never change.
   */
  lemma {:induction false} RunsKeep(trace: seq<System>, who: seq<nat>, what: seq<Action>, k: nat)
    requires IsRun(trace, who, what) && Initial(trace[0]) && k < |trace|
    ensures SmpInv(trace[k])
    ensures forall f: nat :: InPool(trace[k], f) <==> IsFree(trace[0].s, f)
  {
    hide ListInv, Act, Enabled;
    if k == 0 {
    } else {
      hide SmpInv, InPool;
      RunsKeep(trace, who, what, k - 1);
      ActKeeps(trace[k - 1], who[k - 1], what[k - 1]);
    }
  }
}
