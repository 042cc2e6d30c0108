/**
 What each operation on a frame (`kernel/src/allocator.rs`, `kernel/src/frame.rs`) does to it and what
 it leaves alone, and what follows over runs: pin counts are the pins less the unpins, and a frame that
 is released when idle is the next one handed out.
 */
module FrameEffects {
  import opened Frames
  import opened Pmm
  import opened FreeLists
  import opened FrameAlloc
  import opened Census
  import opened Vmm
  import opened Mapping
  import opened Windows
  import opened KernelRuns
  import PageTree
  import PmmInit
  import Untyped

  /** No frame but `f` has changed, nor any pin or mapping count. */
  ghost predicate OnlyFrame(s: State, s': State, f: nat) {
    && Valid(s) && Valid(s') && |s'.owner| == |s.owner| && s'.pinned == s.pinned && s'.mappings == s.mappings
    && forall g: nat :: g < |s.owner| && g != f ==>
         s'.owner[g] == s.owner[g] && s'.gen[g] == s.gen[g] && s'.ram[g] == s.ram[g]
  }

  /** Frame `f` has become Free: one generation more, one Free frame more, and only its link is written. */
  ghost predicate Freed(s: State, s': State, f: nat) {
    && OnlyFrame(s, s', f) && f < |s.owner|
    && IsFree(s', f) && s'.gen[f] == (s.gen[f] + 1) % U32 && CountFree(s'.owner) == CountFree(s.owner) + 1
    && (forall i: nat :: i > 0 ==> Read(s'.ram, f, i) == Read(s.ram, f, i))
    && Read(s'.ram, f, 0) / U32 == Read(s.ram, f, 0) / U32
  }

  lemma PushFrees(s: State, k: nat, f: nat)
    requires ListInv(s, []) && k < |s.shards| && f < |s.owner| && !s.owner[f].Free?
    ensures Valid(s) && Freed(s, Push(s, k, f), f) && ListInv(Push(s, k, f), [])
  {
    PushKeeps(s, [], k, f);
    CountFreeUpdate(s.owner, f, Free);
    LinkBelow(s, k);
    HighHalf(Read(s.ram, f, 0), s.shards[k].head);
  }

  /** List heads are 32-bit. */
  lemma LinkBelow(s: State, k: nat)
    requires ListInv(s, []) && k < |s.shards|
    ensures s.shards[k].head < U32
  {
    assert Anchors(s, [])[k] == s.shards[k];
    HeadIsFree(s, [], k);
  }

  lemma HighHalf(w: nat, next: nat)
    requires next < U32
    ensures (w / U32 * U32 + next) / U32 == w / U32
  {
  }

  /**
   `release_frame` panics exactly on Reserved and Free frames.  A frame that is pinned or mapped becomes
   Pending and nothing else happens; any other becomes Free.
   */
  lemma ReleaseExact(s: State, k: nat, f: nat)
    requires ListInv(s, []) && Valid(s) && k < |s.shards| && f < |s.owner|
    ensures match Release(s, k, f)
            case Panic => s.owner[f].Reserved? || s.owner[f].Free?
            case Done(s') =>
              && !s.owner[f].Reserved? && !s.owner[f].Free? && ListInv(s', [])
              && if s.pinned[f] == 0 && s.mappings[f] == 0 then Freed(s, s', f)
                 else
                   && OnlyFrame(s, s', f) && s'.owner[f].Pending? && s'.gen[f] == s.gen[f] && s'.ram == s.ram
                   && s'.shards == s.shards && s'.global == s.global
  {
    hide ListInv, Freed;
    if !s.owner[f].Free? {
      PushFrees(s, k, f);
      Deferred(s, f);
    }
  }

  lemma Deferred(s: State, f: nat)
    requires ListInv(s, []) && f < |s.owner| && !s.owner[f].Free?
    ensures ListInv(s.(owner := s.owner[f := Pending]), [])
  {
    var s' := s.(owner := s.owner[f := Pending]);
    assert Anchors(s', []) == Anchors(s, []);
    forall g: nat
      ensures IsFree(s', g) == IsFree(s, g)
    {
    }
  }

  /** Only the counts have changed, each by the amount given, modulo 2^32, and only those of frame `f`. */
  ghost predicate Recounted(s: State, s': State, f: nat, pins: int, maps: int) {
    && |s'.pinned| == |s.pinned| && |s'.mappings| == |s.mappings| && f < |s.pinned| && f < |s.mappings|
    && (forall g: nat :: g < |s.pinned| ==>
          s'.pinned[g] == if g == f then (s.pinned[g] + pins) % U32 else s.pinned[g])
    && (forall g: nat :: g < |s.mappings| ==>
          s'.mappings[g] == if g == f then (s.mappings[g] + maps) % U32 else s.mappings[g])
  }

  /** Apart from counts nothing has changed. */
  ghost predicate OnlyCounts(s: State, s': State) {
    && s'.owner == s.owner && s'.gen == s.gen && s'.ram == s.ram && s'.shards == s.shards && s'.global == s.global
  }

  /** Pinning and mapping count one more on that frame, whoever owns it, and do nothing else. */
  lemma CountUpExact(s: State, f: nat)
    requires Valid(s) && f < |s.owner| && s.pinned[f] < U32 && s.mappings[f] < U32
    ensures Recounted(s, Pin(s, f), f, 1, 0) && OnlyCounts(s, Pin(s, f))
    ensures Recounted(s, AddMapping(s, f), f, 0, 1) && OnlyCounts(s, AddMapping(s, f))
  {
  }

  /**
   Unpinning counts one less on that frame, whoever owns it.  A Pending frame without mappings becomes
   Free with its last pin; otherwise nothing else happens.
   */
  lemma UnpinExact(s: State, k: nat, f: nat)
    requires ListInv(s, []) && Valid(s) && k < |s.shards| && f < |s.owner| && s.pinned[f] < U32 && s.mappings[f] < U32
    ensures var s' := Unpin(s, k, f);
            && ListInv(s', []) && Recounted(s, s', f, -1, 0)
            && if s.owner[f].Pending? && s.pinned[f] == 1 && s.mappings[f] == 0
               then Freed(s.(pinned := s'.pinned), s', f)
               else OnlyCounts(s, s')
  {
    hide ListInv, Freed;
    var s1 := s.(pinned := s.pinned[f := (s.pinned[f] + U32 - 1) % U32]);
    SameListInv(s, s1);
    if s1.owner[f].Pending? { PushFrees(s1, k, f); }
  }

  /** The same for mappings. */
  lemma RemoveMappingExact(s: State, k: nat, f: nat)
    requires ListInv(s, []) && Valid(s) && k < |s.shards| && f < |s.owner| && s.pinned[f] < U32 && s.mappings[f] < U32
    ensures var s' := RemoveMapping(s, k, f);
            && ListInv(s', []) && Recounted(s, s', f, 0, -1)
            && if s.owner[f].Pending? && s.mappings[f] == 1 && s.pinned[f] == 0
               then Freed(s.(mappings := s'.mappings), s', f)
               else OnlyCounts(s, s')
  {
    hide ListInv, Freed;
    var s1 := s.(mappings := s.mappings[f := (s.mappings[f] + U32 - 1) % U32]);
    SameListInv(s, s1);
    if s1.owner[f].Pending? { PushFrees(s1, k, f); }
  }

  lemma SameListInv(s: State, s': State)
    requires ListInv(s, []) && OnlyCounts(s, s') && |s'.pinned| == |s.pinned| && |s'.mappings| == |s.mappings|
    ensures ListInv(s', [])
  {
    assert Anchors(s', []) == Anchors(s, []);
    forall g: nat
      ensures IsFree(s', g) == IsFree(s, g)
    {
    }
  }

  // ---------- allocation and release together ----------

  /** Releasing an idle frame and allocating hands out that frame, and restores every owner and count. */
  lemma ReleaseThenAlloc(s: State, f: nat)
    requires SeqInv(s) && Valid(s) && f < |s.owner| && Idle(s, f) && !s.owner[f].Reserved? && !s.owner[f].Free?
    ensures Release(s, 0, f).Done?
    ensures var (s', r) := Alloc(Release(s, 0, f).state);
            && r == Some(f) && s'.owner == s.owner[f := Kernel] && s'.pinned == s.pinned && s'.mappings == s.mappings
            && s'.shards[0].count == s.shards[0].count
  {
  }

  /** Allocating a frame without pins or mappings and releasing it makes it Free again; only its generation tells. */
  lemma AllocThenRelease(s: State)
    requires SeqInv(s) && Valid(s) && Alloc(s).1.Some?
    ensures var (s1, r) := Alloc(s);
            && Valid(s1) && r.value < |s.owner|
            && (s.pinned[r.value] == 0 && s.mappings[r.value] == 0 ==>
                  && Release(s1, 0, r.value).Done?
                  && var s2 := Release(s1, 0, r.value).state;
                     && IsFree(s2, r.value) && s2.owner == s.owner && s2.pinned == s.pinned && s2.mappings == s.mappings
                     && s2.gen[r.value] == (s.gen[r.value] + 1) % U32)
  {
    hide ListInv, Alloc;
    AllocExact(s);
    var (s1, r) := Alloc(s);
    SeqBasics(s1);
    assert s.owner[r.value].Free?;
    assert s.owner[r.value := Kernel][r.value := Free] == s.owner;
  }

  /** From boot: the first frame handed out is the lowest Free one, and when released it is Free again. */
  lemma FirstFrame(s: State)
    requires KernelRuns.Initial(PmmInit.Booted(s)) && PmmInit.InOrder(s.owner, s.ram, s.global.head)
    requires s.global.count == CountFree(s.owner) > 0
    ensures Valid(s) && Alloc(s).1.Some?
    ensures var (s1, r) := Alloc(s);
            && r.value < |s.owner| && s.owner[r.value].Free?
            && (forall g: nat :: g < r.value ==> !PmmInit.FreeAt(s.owner, g))
            && Valid(s1) && Release(s1, 0, r.value).Done? && IsFree(Release(s1, 0, r.value).state, r.value)
  {
    hide ListInv, Alloc, CountFree;
    SeqBasics(s);
    CountsAreFree(s);
    EmptyShards(s);
    FirstIsHead(s);
    AllocThenRelease(s);
    forall g: nat | g < s.global.head
      ensures !PmmInit.FreeAt(s.owner, g)
    {
    }
  }

  lemma EmptyShards(s: State)
    requires SeqInv(s) && Valid(s) && s.global.count == CountFree(s.owner)
    ensures s.shards[0].count == 0
  {
    CountsAreFree(s);
    var an := Anchors(s, []);
    assert an == s.shards + [s.global];
    CountsAppend(s.shards, s.global);
    CountsHead(s.shards);
  }

  lemma CountsHead(anchors: seq<Shard>)
    requires anchors != [] && Counts(anchors) == 0
    ensures anchors[0].count == 0
  {
  }

  lemma FirstIsHead(s: State)
    requires SeqInv(s) && Valid(s) && s.shards[0].count == 0 && s.global.count > 0
    ensures Alloc(s).1 == Some(s.global.head)
  {
    var an := Anchors(s, []);
    assert an[|s.shards|] == s.global;
    PopKeeps(s, [], 0);
    RefillKeeps(s);
    PopKeeps(Refill(s, 0), [], 0);
  }

  /** A client's write lands, in the one word that it names. */
  lemma WriteLands(s: State, f: nat, i: nat, w: nat, g: nat, j: nat)
    requires Valid(s) && f < |s.owner| && i < WORDS
    ensures var s' := Perform(s, ClientWrite(f, i, w));
            && Read(s'.ram, g, j) == (if g == f && j == i then w else Read(s.ram, g, j))
            && s' == s.(ram := s'.ram)
  {
  }

  // ---------- pins over runs ----------

  /** The pins of frame `f` less its unpins. */
  function Pins(ops: seq<Op>, f: nat): int {
    if ops == [] then 0
    else
      var op := ops[|ops| - 1];
      Pins(ops[..|ops| - 1], f) + (if op == PinFrame(f) then 1 else if op == UnpinFrame(f) then -1 else 0)
  }

  lemma PinStep(sys: System, nodes: PageTree.Forest, op: Op)
    requires SystemInv(sys, nodes) && Allowed(sys, op) && Valid(sys.s)
    requires forall f: nat :: f < |sys.s.pinned| ==> sys.s.pinned[f] < U32
    ensures var s' := Perform(sys.s, op);
            && |s'.pinned| == |sys.s.pinned|
            && forall f: nat :: f < |s'.pinned| ==>
                 s'.pinned[f] == sys.s.pinned[f] + Pins([op], f) < U32
  {
    hide VmInv, CountInv, MetaInv, Alloc, Map, Unmap, NewTable, NewKernel, KernelArguments, IsTable, Untyped.Retype;
    var s := sys.s;
    assert [op][..0] == [] && forall f: nat :: Pins([], f) == 0;
    match op {
      case AllocFrame => AllocPins(s, nodes);
      case NewSpace => TablePins(s, nodes);
      case NewKernelSpace(ramEnd, physmap) => KernelPins(s, nodes, ramEnd, physmap);
      case ReleaseFrame(f) =>
      case PinFrame(f) =>
      case UnpinFrame(f) =>
      case RetypeFrame(cap, domain) => Untyped.RetypeExact(s, cap, domain);
      case MapPage(root, va, pa, flags) => var nodes' := MapRefines(s, nodes, root, va, pa, flags);
      case UnmapPage(root, va) => UnmapPins(s, root, va);
      case ClientWrite(f, i, w) =>
    }
  }

  lemma AllocPins(s: State, nodes: PageTree.Forest)
    requires VmInv(s, nodes) && Valid(s)
    ensures Alloc(s).0.pinned == s.pinned
  {
    hide ListInv, Alloc;
    AllocExact(s);
  }

  lemma TablePins(s: State, nodes: PageTree.Forest)
    requires VmInv(s, nodes) && Valid(s)
    ensures NewTable(s).0.pinned == s.pinned
  {
    hide Alloc, VmInv;
    AllocPins(s, nodes);
  }

  lemma KernelPins(s: State, nodes: PageTree.Forest, ramEnd: nat, physmap: nat)
    requires VmInv(s, nodes) && Valid(s) && KernelArguments(ramEnd, physmap)
    ensures NewKernel(s, ramEnd, physmap).0.pinned == s.pinned
  {
    hide VmInv, NewTable, NewKernel, KernelArguments, CountInv, PageTree.Lookup, TwoWindows, MapWindow;
    TablePins(s, nodes);
    if NewTable(s).1.Some? {
      var nodes' := NewKernelExact(s, nodes, ramEnd, physmap);
    } else {
      NewKernelFails(s, ramEnd, physmap);
    }
  }

  lemma UnmapPins(s: State, root: nat, va: nat)
    requires Valid(s)
    ensures Unmap(s, root, va).0.pinned == s.pinned
  {
    hide FindTable, LeafFrame;
  }

  /** Over every run a frame's pin count is its pins less its unpins, whoever owns it and whatever else happens. */
  lemma {:induction false} PinsCounted(trace: seq<System>, ops: seq<Op>, k: nat)
    requires IsRun(trace, ops) && KernelRuns.Initial(trace[0]) && k < |trace|
    ensures |trace[k].s.pinned| == |trace[0].s.pinned|
    ensures forall f: nat :: f < |trace[k].s.pinned| ==> trace[k].s.pinned[f] == Pins(ops[..k], f) < U32
    decreases k
  {
    hide SystemInv, Allowed, Pins;
    if k == 0 {
      assert ops[..0] == [];
      NoPins(trace[0]);
    } else {
      PinsCounted(trace, ops, k - 1);
      var nodes := RunsKeep(trace, ops, k - 1);
      PinStep(trace[k - 1], nodes, ops[k - 1]);
      assert ops[..k] == ops[..k - 1] + [ops[k - 1]];
      forall f: nat
        ensures Pins(ops[..k], f) == Pins(ops[..k - 1], f) + Pins([ops[k - 1]], f)
      {
        PinsAppend(ops[..k - 1], ops[k - 1], f);
      }
    }
  }

  lemma NoPins(sys: System)
    requires KernelRuns.Initial(sys)
    ensures forall f: nat :: f < |sys.s.pinned| ==> sys.s.pinned[f] == Pins([], f)
  {
  }

  lemma PinsAppend(ops: seq<Op>, op: Op, f: nat)
    ensures Pins(ops + [op], f) == Pins(ops, f) + Pins([op], f)
  {
    assert (ops + [op])[..|ops|] == ops && [op][..0] == [];
    assert Pins([], f) == 0;
  }
}
