/**
 Whole runs of the memory managers on one CPU: frame allocation, deferred release, pinning,
 retyping, address spaces and client writes, in any order.
 */
module KernelRuns {
  import opened Frames
  import opened Bits
  import opened Pmm
  import opened FreeLists
  import opened FrameAlloc
  import opened PageEntries
  import opened PageTree
  import opened Vmm
  import opened Mapping
  import opened Windows
  import opened Growth
  import opened Census
  import Untyped

  // ---------- tables, as the memory shows them ----------

  /** The table reached from `frame` by following `path`. */
  function Reach(ram: Ram, frame: nat, path: seq<nat>): Option<nat>
    decreases |path|
  {
    if path == [] then Some(frame)
    else
      var e := Read(ram, frame, path[0]);
      if TablePointer(e) then Reach(ram, TableFrame(e), path[1..]) else None
  }

  lemma {:induction false} ReachIsNode(ram: Ram, nodes: Forest, f: nat, path: seq<nat>)
    requires TreeInv(ram, nodes) && f in nodes && |nodes[f].path| + |path| <= 3
    requires Reach(ram, f, path).Some?
    ensures var g := Reach(ram, f, path).value;
            g in nodes && nodes[g].root == nodes[f].root && nodes[g].path == nodes[f].path + path
    decreases |path|
  {
    hide TreeInv, Read, TablePointer, TableFrame;
    if path != [] {
      var i := path[0];
      PointerIsNode(ram, nodes, f, i);
      ReachIsNode(ram, nodes, TableFrame(Read(ram, f, i)), path[1..]);
      assert nodes[f].path + path == (nodes[f].path + [i]) + path[1..];
    }
  }

  lemma PointerIsNode(ram: Ram, nodes: Forest, f: nat, i: nat)
    requires TreeInv(ram, nodes) && f in nodes && |nodes[f].path| < 3 && TablePointer(Read(ram, f, i))
    ensures TableFrame(Read(ram, f, i)) in nodes && nodes[TableFrame(Read(ram, f, i))] == Place(nodes, f, i)
  {
    hide TableFrame;
    TreeBasics(ram, nodes, f);
    ZeroNotPresent();
    assert i < ENTRIES;
    assert EntryOk(ram, nodes, f, i);
  }

  lemma {:induction false} ReachAppend(ram: Ram, f: nat, path: seq<nat>, i: nat)
    requires Reach(ram, f, path).Some?
    ensures var e := Read(ram, Reach(ram, f, path).value, i);
            Reach(ram, f, path + [i]) == if TablePointer(e) then Some(TableFrame(e)) else None
    decreases |path|
  {
    if path == [] {
      assert path + [i] == [i] && [i][1..] == [];
    } else {
      ReachAppend(ram, TableFrame(Read(ram, f, path[0])), path[1..], i);
      assert (path + [i])[1..] == path[1..] + [i];
    }
  }

  lemma {:induction false} NodeIsReached(ram: Ram, nodes: Forest, g: nat)
    requires TreeInv(ram, nodes) && g in nodes
    ensures Reach(ram, nodes[g].root, nodes[g].path) == Some(g)
    decreases |nodes[g].path|
  {
    var n := nodes[g];
    assert NodeOk(ram, nodes, g);
    if n.path != [] {
      NodeIsReached(ram, nodes, n.parent);
      ReachAppend(ram, n.root, nodes[n.parent].path, n.path[|n.path| - 1]);
      assert nodes[n.parent].path + [n.path[|n.path| - 1]] == n.path;
    }
  }

  /** Two ways to reach a table are the same way; it is kernel-owned and on no free list. */
  lemma TablesNeverAlias(s: State, nodes: Forest, r: nat, p: seq<nat>, q: nat, p': seq<nat>)
    requires VmInv(s, nodes) && IsRoot(nodes, r) && IsRoot(nodes, q) && |p| <= 3 && |p'| <= 3
    requires Reach(s.ram, r, p).Some? && Reach(s.ram, r, p) == Reach(s.ram, q, p')
    ensures r == q && p == p'
    ensures var f := Reach(s.ram, r, p).value;
            f < |s.owner| && s.owner[f].Kernel? && Meetings(s.ram, Anchors(s, []), f) == 0
  {
    hide EntryOk, NodeOk;
    ReachIsNode(s.ram, nodes, r, p);
    ReachIsNode(s.ram, nodes, q, p');
    assert [] + p == p && [] + p' == p';
  }

  /** Frames that no root reaches are exactly the frames outside the forest. */
  lemma TableIsNode(sys: System, nodes: Forest, f: nat)
    requires VmInv(sys.s, nodes) && forall r :: r in sys.roots <==> IsRoot(nodes, r)
    ensures IsTable(sys, f) <==> f in nodes
  {
    hide SeqInv, NodeOk, EntryOk;
    if f in nodes {
      NodeIsReached(sys.s.ram, nodes, f);
      var n := nodes[f];
      NodeRoot(sys.s.ram, nodes, f);
      assert n.root in sys.roots && |n.path| <= 3 && Reach(sys.s.ram, n.root, n.path) == Some(f);
    }
    if IsTable(sys, f) {
      var r, p :| r in sys.roots && |p| <= 3 && Reach(sys.s.ram, r, p) == Some(f);
      ReachIsNode(sys.s.ram, nodes, r, p);
    }
  }

  lemma NodeRoot(ram: Ram, nodes: Forest, f: nat)
    requires TreeInv(ram, nodes) && f in nodes
    ensures IsRoot(nodes, nodes[f].root) && |nodes[f].path| <= 3
  {
    assert NodeOk(ram, nodes, f);
  }

  // ---------- the state machine ----------

  /**
   `roots` are the roots handed out, including those of kernel spaces abandoned half-built;
   `freed` and `granted` count, for each frame, its transitions to Free and its retype grants.
   */
  datatype System = System(s: State, roots: set<nat>, freed: seq<nat>, granted: seq<nat>)

  datatype Op =
    | AllocFrame
    | ReleaseFrame(f: nat)
    | PinFrame(f: nat)
    | UnpinFrame(f: nat)
    | RetypeFrame(cap: Untyped.Cap, domain: nat)
    | NewSpace
    | NewKernelSpace(ramEnd: nat, physmap: nat)
    | MapPage(root: nat, va: nat, pa: nat, flags: nat)
    | UnmapPage(root: nat, va: nat)
    | ClientWrite(f: nat, i: nat, w: nat)

  ghost predicate IsTable(sys: System, f: nat) {
    exists r, p :: r in sys.roots && |p| <= 3 && Reach(sys.s.ram, r, p) == Some(f)
  }

  /** What the kernel demands of callers: no release of tables, no stray writes, no counter wrap. */
  ghost predicate Allowed(sys: System, op: Op) {
    var s := sys.s;
    match op
    case AllocFrame => true
    case NewSpace => true
    case NewKernelSpace(ramEnd, physmap) => KernelArguments(ramEnd, physmap)
    case ReleaseFrame(f) => f < |s.owner| && !s.owner[f].Reserved? && !s.owner[f].Free? && !IsTable(sys, f)
    case PinFrame(f) => f < |s.owner| && f < |s.pinned| && s.pinned[f] + 1 < U32
    case UnpinFrame(f) => f < |s.owner| && f < |s.pinned| && s.pinned[f] > 0
    case RetypeFrame(cap, domain) => Untyped.CursorOk(cap)
    case MapPage(root, va, pa, flags) =>
      && root in sys.roots && va < WORD && FlagBits(flags) && pa < 0x10_0000_0000
      && (pa / FRAME_SIZE < |s.mappings| ==> s.mappings[pa / FRAME_SIZE] + 1 < U32)
    case UnmapPage(root, va) => root in sys.roots && va < WORD
    case ClientWrite(f, i, w) => f < |s.owner| && i < WORDS && !s.owner[f].Free? && !IsTable(sys, f)
  }

  /** A refused release panics and so is not a step. */
  function Perform(s: State, op: Op): State
    requires Valid(s)
  {
    match op
    case AllocFrame => Alloc(s).0
    case ReleaseFrame(f) =>
      if f < |s.owner| && Release(s, 0, f).Done? then Release(s, 0, f).state else s
    case PinFrame(f) => if f < |s.owner| then Pin(s, f) else s
    case UnpinFrame(f) => if f < |s.owner| then Unpin(s, 0, f) else s
    case RetypeFrame(cap, domain) => Untyped.Retype(s, cap, domain).0
    case NewSpace => NewTable(s).0
    case NewKernelSpace(ramEnd, physmap) => NewKernel(s, ramEnd, physmap).0
    case MapPage(root, va, pa, flags) => Map(s, root, va, pa, flags).0
    case UnmapPage(root, va) => Unmap(s, root, va).0
    case ClientWrite(f, i, w) => s.(ram := Write(s.ram, f, i, w))
  }

  function Tally(counts: seq<nat>, hit: nat -> bool): (r: seq<nat>)
    ensures |r| == |counts|
  {
    seq(|counts|, f requires 0 <= f < |counts| => counts[f] + if hit(f) then 1 else 0)
  }

  function OwnerOf(s: State, f: nat): Owner {
    if f < |s.owner| then s.owner[f] else Reserved
  }

  function Step(sys: System, op: Op): System
    requires Valid(sys.s)
  {
    var s, s' := sys.s, Perform(sys.s, op);
    System(
      s',
      if (op.NewSpace? || op.NewKernelSpace?) && NewTable(s).1.Some?
      then sys.roots + {NewTable(s).1.value}
      else sys.roots,
      Tally(sys.freed, (f: nat) => !OwnerOf(s, f).Free? && OwnerOf(s', f).Free?),
      Tally(sys.granted, (f: nat) => OwnerOf(s, f).Untyped? && OwnerOf(s', f).Domain?))
  }

  // ---------- the invariant ----------

  ghost predicate MetaInv(sys: System) {
    var s := sys.s;
    && Valid(s) && |sys.freed| == |sys.granted| == |s.owner|
    && forall f :: 0 <= f < |s.owner| ==>
         && s.gen[f] == sys.freed[f] % U32
         && (s.owner[f].Pending? ==> !Idle(s, f))
         && sys.granted[f] <= 1 && (sys.granted[f] == 1 ==> !s.owner[f].Untyped?)
  }

  ghost predicate SystemInv(sys: System, nodes: Forest) {
    && VmInv(sys.s, nodes) && CountInv(sys.s, nodes) && MetaInv(sys)
    && forall r :: r in sys.roots <==> IsRoot(nodes, r)
  }

  /** The owner state machine: the only ways a frame changes hands. */
  ghost predicate FrameStep(s: State, s': State, f: nat)
    requires Valid(s) && Valid(s') && f < |s.owner| && f < |s'.owner|
  {
    var o, o' := s.owner[f], s'.owner[f];
    || (o' == o && s'.gen[f] == s.gen[f] && (o.Pending? && !Idle(s, f) ==> !Idle(s', f)))
    || (o.Free? && o'.Kernel? && s'.gen[f] == s.gen[f])
    || (o.Untyped? && o'.Domain? && s'.gen[f] == s.gen[f])
    || (!o.Free? && !o.Reserved? && o'.Pending? && s'.gen[f] == s.gen[f] && !Idle(s', f))
    || (!o.Free? && !o.Reserved? && o'.Free? && s'.gen[f] == (s.gen[f] + 1) % U32 && Idle(s', f))
  }

  ghost predicate FrameSteps(s: State, s': State) {
    && Valid(s) && Valid(s') && |s'.owner| == |s.owner|
    && forall f: nat :: f < |s.owner| ==> FrameStep(s, s', f)
  }

  /** The contents of frames that are no table and stay in use; `except` may be written. */
  ghost predicate ContentsKept(s: State, s': State, tables: iset<nat>, except: set<nat>) {
    && |s'.ram| == |s.ram|
    && forall f: nat :: f < |s.ram| && f !in tables && f !in except && !IsFree(s, f) && !IsFree(s', f) ==>
         s'.ram[f] == s.ram[f]
  }

  ghost function Tables(nodes: Forest): iset<nat> {
    iset f: nat | f in nodes
  }

  /** Counters and grants follow from the owner state machine alone. */
  lemma MetaKeeps(sys: System, op: Op)
    requires MetaInv(sys) && FrameSteps(sys.s, Perform(sys.s, op))
    ensures MetaInv(Step(sys, op))
  {
    hide Perform, NewTable;
    var s, s', sys' := sys.s, Perform(sys.s, op), Step(sys, op);
    forall f | 0 <= f < |s'.owner|
      ensures s'.gen[f] == sys'.freed[f] % U32
      ensures s'.owner[f].Pending? ==> !Idle(s', f)
      ensures sys'.granted[f] <= 1 && (sys'.granted[f] == 1 ==> !s'.owner[f].Untyped?)
    {
      assert FrameStep(s, s', f);
      assert OwnerOf(s, f) == s.owner[f] && OwnerOf(s', f) == s'.owner[f];
    }
  }

  /** Changing metadata but not which frames are Free. */
  lemma SameLists(s: State, s': State, nodes: Forest)
    requires VmInv(s, nodes) && Valid(s')
    requires s'.ram == s.ram && s'.shards == s.shards && s'.global == s.global && |s'.owner| == |s.owner|
    requires forall f :: 0 <= f < |s.owner| ==> (s'.owner[f].Free? <==> s.owner[f].Free?)
    requires forall f :: f in nodes ==> f < |s'.owner| && s'.owner[f] == s.owner[f]
    ensures VmInv(s', nodes)
  {
    hide TreeInv, Meetings;
    assert Anchors(s', []) == Anchors(s, []);
    forall f: nat
      ensures Meetings(s'.ram, Anchors(s', []), f) == if IsFree(s', f) then 1 else 0
    {
      assert IsFree(s', f) == IsFree(s, f);
    }
  }

  // ---------- the steps ----------

  lemma AllocStep(s: State, nodes: Forest)
    requires VmInv(s, nodes) && CountInv(s, nodes) && Valid(s)
    ensures VmInv(Alloc(s).0, nodes) && CountInv(Alloc(s).0, nodes) && FrameSteps(s, Alloc(s).0)
    ensures ContentsKept(s, Alloc(s).0, Tables(nodes), {})
  {
    hide TreeInv, ListInv, CountInv, Alloc;
    AllocExact(s);
    var s' := Alloc(s).0;
    SeqBasics(s');
    TreeFrame(s.ram, s'.ram, nodes);
    CountFrame(s, s', nodes);
  }

  lemma ReleaseStep(s: State, nodes: Forest, f: nat)
    requires VmInv(s, nodes) && CountInv(s, nodes) && Valid(s)
    requires f < |s.owner| && !s.owner[f].Reserved? && !s.owner[f].Free? && f !in nodes
    ensures Release(s, 0, f).Done?
    ensures var s' := Release(s, 0, f).state;
            VmInv(s', nodes) && CountInv(s', nodes) && FrameSteps(s, s') && ContentsKept(s, s', Tables(nodes), {})
  {
    hide TreeInv, SeqInv, CountInv;
    if Idle(s, f) {
      PushBusy(s, nodes, f);
      CountFrame(s, Push(s, 0, f), nodes);
    } else {
      var s' := Release(s, 0, f).state;
      SameLists(s, s', nodes);
      CountFrame(s, s', nodes);
    }
  }

  lemma DrainStep(s: State, nodes: Forest, f: nat)
    requires VmInv(s, nodes) && Valid(s) && f < |s.owner|
    ensures Valid(Drain(s, 0, f)) && |Drain(s, 0, f).owner| == |s.owner|
    ensures VmInv(Drain(s, 0, f), nodes)
    ensures CountInv(s, nodes) ==> CountInv(Drain(s, 0, f), nodes)
  {
    hide TreeInv, ListInv, CountInv;
    DrainKeeps(s, nodes, f);
    SeqBasics(Drain(s, 0, f));
    if CountInv(s, nodes) { CountFrame(s, Drain(s, 0, f), nodes); }
  }

  lemma PinStep(s: State, nodes: Forest, f: nat)
    requires VmInv(s, nodes) && CountInv(s, nodes) && Valid(s) && f < |s.owner| && s.pinned[f] + 1 < U32
    ensures VmInv(Pin(s, f), nodes) && CountInv(Pin(s, f), nodes) && FrameSteps(s, Pin(s, f))
    ensures ContentsKept(s, Pin(s, f), Tables(nodes), {})
  {
    hide TreeInv, SeqInv, CountInv;
    SameLists(s, Pin(s, f), nodes);
    CountFrame(s, Pin(s, f), nodes);
  }

  lemma UnpinStep(s: State, nodes: Forest, f: nat)
    requires VmInv(s, nodes) && CountInv(s, nodes) && Valid(s) && f < |s.owner| && s.pinned[f] > 0
    ensures VmInv(Unpin(s, 0, f), nodes) && CountInv(Unpin(s, 0, f), nodes) && FrameSteps(s, Unpin(s, 0, f))
    ensures ContentsKept(s, Unpin(s, 0, f), Tables(nodes), {})
  {
    hide TreeInv, SeqInv, CountInv;
    var s1 := s.(pinned := s.pinned[f := (s.pinned[f] + U32 - 1) % U32]);
    SameLists(s, s1, nodes);
    CountFrame(s, s1, nodes);
    DrainStep(s1, nodes, f);
  }

  lemma RetypeStep(s: State, nodes: Forest, cap: Untyped.Cap, domain: nat)
    requires VmInv(s, nodes) && CountInv(s, nodes) && Valid(s) && Untyped.CursorOk(cap)
    ensures var s' := Untyped.Retype(s, cap, domain).0;
            VmInv(s', nodes) && CountInv(s', nodes) && FrameSteps(s, s') && ContentsKept(s, s', Tables(nodes), {})
  {
    hide TreeInv, SeqInv, CountInv, Untyped.Retype;
    Untyped.RetypeExact(s, cap, domain);
    var s' := Untyped.Retype(s, cap, domain).0;
    SameLists(s, s', nodes);
    CountFrame(s, s', nodes);
  }

  lemma WriteStep(s: State, nodes: Forest, f: nat, i: nat, w: nat)
    requires VmInv(s, nodes) && CountInv(s, nodes) && Valid(s)
    requires f < |s.owner| && i < WORDS && !s.owner[f].Free? && f !in nodes
    ensures var s' := s.(ram := Write(s.ram, f, i, w));
            VmInv(s', nodes) && CountInv(s', nodes) && FrameSteps(s, s') && ContentsKept(s, s', Tables(nodes), {f})
  {
    hide TreeInv, ListInv, CountInv;
    var ram' := Write(s.ram, f, i, w);
    BusyWrite(s, ram');
    TreeFrame(s.ram, ram', nodes);
    CountFrame(s, s.(ram := ram'), nodes);
  }

  lemma NewSpaceStep(s: State, nodes: Forest) returns (nodes': Forest)
    requires VmInv(s, nodes) && CountInv(s, nodes) && Valid(s)
    ensures var (s', r) := NewTable(s);
            && VmInv(s', nodes') && CountInv(s', nodes') && FrameSteps(s, s') && ContentsKept(s, s', Tables(nodes), {})
            && (forall q: nat :: IsRoot(nodes', q) <==> IsRoot(nodes, q) || r == Some(q))
  {
    hide TreeInv, SeqInv, CountInv, NewTable;
    var (s', r) := NewTable(s);
    nodes' := nodes;
    if r.Some? {
      NewTableEmpty(s, nodes);
      FreshCounts(s, nodes, s', r.value);
      SeqBasics(s');
      nodes' := nodes[r.value := Node(r.value, [], 0)];
    } else {
      NewTableFails(s);
    }
  }

  lemma NewKernelStep(s: State, nodes: Forest, ramEnd: nat, physmap: nat) returns (nodes': Forest)
    requires VmInv(s, nodes) && CountInv(s, nodes) && Valid(s) && KernelArguments(ramEnd, physmap)
    ensures var s', r := NewKernel(s, ramEnd, physmap).0, NewTable(s).1;
            && VmInv(s', nodes') && CountInv(s', nodes') && FrameSteps(s, s') && ContentsKept(s, s', Tables(nodes), {})
            && (forall q: nat :: IsRoot(nodes', q) <==> IsRoot(nodes, q) || r == Some(q))
  {
    hide TreeInv, SeqInv, CountInv, NewTable, NewKernel, KernelArguments, Lookup, TwoWindows;
    if NewTable(s).1.Some? {
      NewTableEmpty(s, nodes);
      nodes' := NewKernelExact(s, nodes, ramEnd, physmap);
      SeqBasics(NewKernel(s, ramEnd, physmap).0);
    } else {
      nodes' := nodes;
      NewTableFails(s);
      NewKernelFails(s, ramEnd, physmap);
    }
  }

  lemma NewKernelFails(s: State, ramEnd: nat, physmap: nat)
    requires |s.shards| > 0 && NewTable(s).1.None?
    ensures NewKernel(s, ramEnd, physmap).0 == NewTable(s).0
  {
    hide NewTable, AlignUp, MapWindow;
  }

  lemma NewTableFails(s: State)
    requires SeqInv(s) && Valid(s) && NewTable(s).1.None?
    ensures NewTable(s).0 == s
  {
    hide ListInv, Alloc;
    AllocExact(s);
  }

  lemma MapStep(s: State, nodes: Forest, root: nat, va: nat, pa: nat, flags: nat) returns (nodes': Forest)
    requires VmInv(s, nodes) && CountInv(s, nodes) && Valid(s) && IsRoot(nodes, root) && va < WORD
    requires FlagBits(flags) && pa < 0x10_0000_0000
    requires pa / FRAME_SIZE < |s.mappings| ==> s.mappings[pa / FRAME_SIZE] + 1 < U32
    ensures var s' := Map(s, root, va, pa, flags).0;
            && VmInv(s', nodes') && CountInv(s', nodes') && FrameSteps(s, s') && ContentsKept(s, s', Tables(nodes), {})
            && (forall q: nat :: IsRoot(nodes', q) <==> IsRoot(nodes, q))
  {
    hide TreeInv, SeqInv, CountInv, Map, Space, FlagBits, LeafEntry, IsCanonical, Absent, CountFree;
    nodes' := MapRefines(s, nodes, root, va, pa, flags);
    var s' := Map(s, root, va, pa, flags).0;
    SeqBasics(s');
  }

  lemma UnmapStep(s: State, nodes: Forest, root: nat, va: nat)
    requires VmInv(s, nodes) && CountInv(s, nodes) && Valid(s) && IsRoot(nodes, root) && va < WORD
    ensures var s' := Unmap(s, root, va).0;
            VmInv(s', nodes) && CountInv(s', nodes) && FrameSteps(s, s') && ContentsKept(s, s', Tables(nodes), {})
  {
    hide TreeInv, SeqInv, CountInv, Space, FindTable, LeafFrame, Index, Present, IsCanonical;
    UnmapRefines(s, nodes, root, va);
    var s' := Unmap(s, root, va).0;
    SeqBasics(s');
    if Unmap(s, root, va).1.Ok? { UnmapTouches(s, nodes, root, va); }
  }

  /** The frame that a client writes to. */
  function Written(op: Op): set<nat> {
    if op.ClientWrite? then {op.f} else {}
  }

  /**
   Every operation keeps the system invariant, moves frames only along the owner state machine, and
   changes the contents of a frame that is no table and stays in use only if it is a client's write
   to that frame.
   */
  lemma StepKeeps(sys: System, nodes: Forest, op: Op) returns (nodes': Forest)
    requires SystemInv(sys, nodes) && Allowed(sys, op)
    ensures SystemInv(Step(sys, op), nodes') && FrameSteps(sys.s, Step(sys, op).s)
    ensures ContentsKept(sys.s, Step(sys, op).s, (iset f: nat | IsTable(sys, f)), Written(op))
  {
    hide VmInv, CountInv, MetaInv, FrameSteps, Alloc, Release, Pin, Unpin, Untyped.Retype, Map, Unmap, NewTable,
      NewKernel,
      KernelArguments, FlagBits, IsTable, ContentsKept;
    var s := sys.s;
    assert Valid(s) by { MetaValid(sys); }
    nodes' := nodes;
    match op {
      case AllocFrame => AllocStep(s, nodes);
      case NewSpace => nodes' := NewSpaceStep(s, nodes);
      case NewKernelSpace(ramEnd, physmap) => nodes' := NewKernelStep(s, nodes, ramEnd, physmap);
      case ReleaseFrame(f) => TableIsNode(sys, nodes, f); ReleaseStep(s, nodes, f);
      case PinFrame(f) => PinStep(s, nodes, f);
      case UnpinFrame(f) => UnpinStep(s, nodes, f);
      case RetypeFrame(cap, domain) => RetypeStep(s, nodes, cap, domain);
      case MapPage(root, va, pa, flags) => nodes' := MapStep(s, nodes, root, va, pa, flags);
      case UnmapPage(root, va) => UnmapStep(s, nodes, root, va);
      case ClientWrite(f, i, w) => TableIsNode(sys, nodes, f); WriteStep(s, nodes, f, i, w);
    }
    MetaKeeps(sys, op);
    TablesAreNodes(sys, nodes);
  }

  lemma TablesAreNodes(sys: System, nodes: Forest)
    requires VmInv(sys.s, nodes) && forall r :: r in sys.roots <==> IsRoot(nodes, r)
    ensures Tables(nodes) == iset f: nat | IsTable(sys, f)
  {
    hide VmInv, IsTable;
    forall f: nat
      ensures IsTable(sys, f) <==> f in nodes
    {
      TableIsNode(sys, nodes, f);
    }
  }

  lemma MetaValid(sys: System)
    requires MetaInv(sys)
    ensures Valid(sys.s)
  {
  }

  // ---------- runs ----------

  /** `trace` is a run: each state follows from the one before by an allowed operation. */
  ghost predicate IsRun(trace: seq<System>, ops: seq<Op>) {
    && |trace| == |ops| + 1
    && forall k :: 0 <= k < |ops| ==>
         Valid(trace[k].s) && Allowed(trace[k], ops[k]) && trace[k + 1] == Step(trace[k], ops[k])
  }

  /** As boot leaves it: exact free lists, no address space, nothing pinned, mapped or freed yet. */
  ghost predicate Initial(sys: System) {
    var s := sys.s;
    && SeqInv(s) && sys.roots == {} && |sys.freed| == |sys.granted| == |s.owner|
    && forall f :: 0 <= f < |s.owner| ==>
         && s.mappings[f] == 0 && s.pinned[f] == 0 && s.gen[f] == 0 && !s.owner[f].Pending?
         && sys.freed[f] == 0 && sys.granted[f] == 0
  }

  lemma InitialInv(sys: System)
    requires Initial(sys)
    ensures SystemInv(sys, map[])
  {
  }

  /** The whole-run theorem: every state of every run satisfies the system invariant. */
  lemma {:induction false} RunsKeep(trace: seq<System>, ops: seq<Op>, k: nat) returns (nodes: Forest)
    requires IsRun(trace, ops) && Initial(trace[0]) && k < |trace|
    ensures SystemInv(trace[k], nodes)
  {
    hide SystemInv, Initial, Step, Allowed;
    if k == 0 {
      InitialInv(trace[0]);
      nodes := map[];
    } else {
      var before := RunsKeep(trace, ops, k - 1);
      nodes := StepKeeps(trace[k - 1], before, ops[k - 1]);
    }
  }

  /** The arguments of a successful `map` that the kernel leaves to its caller. */
  ghost predicate MapCall(sys: System, root: nat, va: nat, pa: nat, flags: nat) {
    && root in sys.roots && va < WORD && FlagBits(flags)
    && (pa / FRAME_SIZE < |sys.s.mappings| ==> sys.s.mappings[pa / FRAME_SIZE] + 1 < U32)
  }

  /**
   `map` followed by `unmap` restores every address space.  It restores the mapping counts if and
   only if the physical address is below 64 GiB, and then also every generation and owner, except
   that tables grown on the way stay.
   */
  lemma MapThenUnmap(sys: System, nodes: Forest, root: nat, va: nat, pa: nat, flags: nat)
    requires SystemInv(sys, nodes) && MapCall(sys, root, va, pa, flags) && Valid(sys.s)
    requires Map(sys.s, root, va, pa, flags).1.Ok?
    ensures var s, s1 := sys.s, Map(sys.s, root, va, pa, flags).0;
            && Valid(s1)
            && var (s2, r) := Unmap(s1, root, va);
            && r.Ok? && s2.pinned == s.pinned && |s2.owner| == |s.owner|
            && (forall q :: q in sys.roots ==> Space(s2.ram, q) == Space(s.ram, q))
            && (s2.mappings == s.mappings <==> pa < 0x10_0000_0000)
            && (pa < 0x10_0000_0000 ==>
                  && s2.gen == s.gen
                  && forall f :: 0 <= f < |s.owner| ==>
                       s2.owner[f] == s.owner[f] || (s.owner[f].Free? && s2.owner[f].Kernel?))
  {
    hide TreeInv, SeqInv, CountInv, Map, Unmap, Space, FlagBits, LeafEntry, LeafFrame, IsCanonical, Absent;
    var s, s1 := sys.s, Map(sys.s, root, va, pa, flags).0;
    var nodes1 := MapRefines(s, nodes, root, va, pa, flags);
    SeqBasics(s1);
    GrownRoots(s, nodes, s1, nodes1);
    UnmapRestores(s, s1, nodes1, root, va, pa, flags);
    if pa < 0x10_0000_0000 {
      UnmapRecounts(s, s1, nodes1, root, va, pa, flags);
    } else {
      UnmapMiscounts(s, s1, nodes1, root, va, pa, flags);
    }
  }

  /** State `s1` is `s` with page `va` mapped to `pa`, as far as spaces and counts go. */
  ghost predicate Mapped(s: State, s1: State, nodes1: Forest, root: nat, va: nat, pa: nat, flags: nat) {
    && Valid(s) && VmInv(s1, nodes1) && Valid(s1) && IsRoot(nodes1, root) && va < WORD && FlagBits(flags)
    && IsPage(va) && va !in Space(s.ram, root) && pa % FRAME_SIZE == 0 && pa / FRAME_SIZE < |s.mappings|
    && Space(s1.ram, root) == Space(s.ram, root)[va := Leaf(0, LeafEntry(pa, flags))]
    && s.mappings[pa / FRAME_SIZE] + 1 < U32 && s1.pinned == s.pinned
    && s1.mappings == s.mappings[pa / FRAME_SIZE := s.mappings[pa / FRAME_SIZE] + 1]
  }

  lemma UnmapRestores(s: State, s1: State, nodes1: Forest, root: nat, va: nat, pa: nat, flags: nat)
    requires Mapped(s, s1, nodes1, root, va, pa, flags)
    ensures var (s2, r) := Unmap(s1, root, va);
            && r.Ok? && s2.pinned == s.pinned && |s2.owner| == |s1.owner|
            && Space(s2.ram, root) == Space(s.ram, root)
            && (forall q :: IsRoot(nodes1, q) && q != root ==> Space(s2.ram, q) == Space(s1.ram, q))
  {
    hide TreeInv, SeqInv, CountInv, Unmap, Space, FlagBits, LeafEntry, LeafFrame, IsCanonical;
    UnmapRefines(s1, nodes1, root, va);
    UnmapTouches(s1, nodes1, root, va);
    var sp := Space(s.ram, root);
    assert sp[va := Leaf(0, LeafEntry(pa, flags))] - {va} == sp;
  }

  /** Below 64 GiB the count that `unmap` drops is the one that `map` added. */
  lemma UnmapRecounts(s: State, s1: State, nodes1: Forest, root: nat, va: nat, pa: nat, flags: nat)
    requires Mapped(s, s1, nodes1, root, va, pa, flags) && CountInv(s1, nodes1) && pa < 0x10_0000_0000
    requires s1.owner[pa / FRAME_SIZE].Pending? ==> s.mappings[pa / FRAME_SIZE] > 0 || s1.pinned[pa / FRAME_SIZE] > 0
    ensures var s2 := Unmap(s1, root, va).0;
            s2.mappings == s.mappings && s2.gen == s1.gen && s2.owner == s1.owner
  {
    hide TreeInv, SeqInv, CountInv, Unmap, Space, FlagBits, LeafEntry, LeafFrame, IsCanonical;
    UnmapRestores(s, s1, nodes1, root, va, pa, flags);
    UnmapRefines(s1, nodes1, root, va);
    LeafFrameExact(pa, flags);
    var f := pa / FRAME_SIZE;
    assert s1.mappings[f := s.mappings[f]] == s.mappings;
    UnmapOwner(s1, root, va, f, s.mappings[f]);
  }

  /** From 64 GiB on, `unmap` drops the count of another frame. */
  lemma UnmapMiscounts(s: State, s1: State, nodes1: Forest, root: nat, va: nat, pa: nat, flags: nat)
    requires Mapped(s, s1, nodes1, root, va, pa, flags) && pa >= 0x10_0000_0000
    ensures Unmap(s1, root, va).0.mappings != s.mappings
  {
    hide TreeInv, SeqInv, CountInv, Unmap, Space, FlagBits, LeafEntry, LeafFrame, IsCanonical;
    UnmapRestores(s, s1, nodes1, root, va, pa, flags);
    UnmapTouches(s1, nodes1, root, va);
    LeafFrameExact(pa, flags);
    var s2 := Unmap(s1, root, va).0;
    assert s2.mappings[pa / FRAME_SIZE] == s.mappings[pa / FRAME_SIZE] + 1;
  }

  /** Two forests for the same memory and roots hold the same tables at the same places. */
  lemma ForestUnique(s: State, a: Forest, b: Forest)
    requires VmInv(s, a) && VmInv(s, b) && forall r: nat :: IsRoot(a, r) <==> IsRoot(b, r)
    ensures forall f: nat :: f in a ==> f in b && b[f].path == a[f].path
  {
    hide SeqInv, NodeOk, EntryOk;
    forall f: nat | f in a
      ensures f in b && b[f].path == a[f].path
    {
      NodeIsReached(s.ram, a, f);
      NodeRoot(s.ram, a, f);
      ReachIsNode(s.ram, b, a[f].root, a[f].path);
      assert [] + a[f].path == a[f].path;
    }
  }

  lemma CountByForest(s: State, a: Forest, b: Forest)
    requires CountInv(s, a) && forall f: nat :: f in a <==> f in b
    requires forall f: nat :: f in a ==> b[f].path == a[f].path
    ensures CountInv(s, b)
  {
    hide Present, LeafFrame;
    forall f: nat
      ensures LeafSlots(s.ram, b, f) == LeafSlots(s.ram, a, f)
    {
    }
  }

  /** A successful `map` keeps the system invariant if and only if the address is below 64 GiB. */
  lemma MapKeepsExactly(sys: System, nodes: Forest, root: nat, va: nat, pa: nat, flags: nat)
    requires SystemInv(sys, nodes) && MapCall(sys, root, va, pa, flags) && Valid(sys.s)
    requires Map(sys.s, root, va, pa, flags).1.Ok?
    ensures (exists nodes' :: SystemInv(Step(sys, MapPage(root, va, pa, flags)), nodes')) <==> pa < 0x10_0000_0000
  {
    hide VmInv, CountInv, MetaInv, Map, Space, FlagBits, LeafEntry, IsCanonical, Absent;
    var op := MapPage(root, va, pa, flags);
    var sys' := Step(sys, op);
    if pa < 0x10_0000_0000 {
      var nodes' := StepKeeps(sys, nodes, op);
    } else {
      var nodes1 := MapRefines(sys.s, nodes, root, va, pa, flags);
      GrownRoots(sys.s, nodes, sys'.s, nodes1);
      assert !CountInv(sys'.s, nodes1);
      forall nodes' | SystemInv(sys', nodes')
        ensures false
      {
        ForestUnique(sys'.s, nodes', nodes1);
        ForestUnique(sys'.s, nodes1, nodes');
        CountByForest(sys'.s, nodes', nodes1);
      }
    }
  }

  lemma GrownRoots(s: State, nodes: Forest, s': State, nodes': Forest)
    requires OnlyTablesGrow(s, nodes, s', nodes')
    ensures VmInv(s', nodes') && forall r: nat :: IsRoot(nodes', r) <==> IsRoot(nodes, r)
  {
    hide VmInv;
  }

  /** `unmap` hands no frame on unless it is Pending and idle. */
  lemma UnmapOwner(s: State, root: nat, va: nat, f: nat, m: nat)
    requires Valid(s) && f < |s.owner| && s.mappings[f] == m + 1 < U32
    requires s.owner[f].Pending? ==> m > 0 || s.pinned[f] > 0
    requires Unmap(s, root, va).1.Ok? ==> Unmap(s, root, va).0.mappings == s.mappings[f := m]
    ensures var s' := Unmap(s, root, va).0;
            s'.owner == s.owner && s'.pinned == s.pinned && s'.gen == s.gen
  {
    hide FindTable, IsCanonical, LeafFrame, Index, Present;
  }
}
