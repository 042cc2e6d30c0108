/**
 A run that takes the kernel past its 4 KiB address mask (`kernel/src/vmm.rs:31`): on a machine
 with more than 64 GiB, a page mapped to physical address 2^36 reads as mapped to 0.
 */
module Limits {
  import opened Frames
  import opened Pmm
  import opened FreeLists
  import opened FrameAlloc
  import opened Census
  import opened PageEntries
  import opened PageTree
  import opened Vmm
  import opened Growth
  import opened Mapping
  import opened Windows
  import opened BootRegions
  import opened BootAlloc
  import opened BootStates
  import BootSpan
  import KernelRuns
  import PmmInit

  const SIXTY_FOUR_GIB: nat := 0x10_0000_0000

  // ---------- a machine as `pmm_init` leaves it ----------

  const FRAMES: nat := SIXTY_FOUR_GIB / FRAME_SIZE + 1
  const FIRST_FREE: nat := 98561 // the first frame behind the frame table

  /** RAM from 1 MiB to 64 GiB and one frame. */
  const BIG_MAP: seq<Region> := [Region(0x10_0000, FRAMES * FRAME_SIZE - 0x10_0000, true)]

  function BigInit(): (r: PmmInit.InitResult)
    ensures r.Started?
  {
    TailInit(FRAMES, FIRST_FREE, 0x10_0000, 0x10_0000 + FRAMES * PmmInit.FRAME_INFO_BYTES, 0)
  }

  lemma BigRegions()
    ensures Effective(BIG_MAP, Image(0, 0)) == BIG_MAP && PmmInit.MaxEnd(BIG_MAP) == FRAMES * FRAME_SIZE
    ensures forall x: nat :: InUsable(BIG_MAP, x) <==> 0x10_0000 <= x < FRAMES * FRAME_SIZE
  {
    var r := BIG_MAP[0];
    assert BIG_MAP == [r] && [r][..0] == [];
    assert Effective([], Image(0, 0)) == [] && PmmInit.MaxEnd([]) == 0;
    forall x: nat
      ensures InUsable(BIG_MAP, x) <==> 0x10_0000 <= x < FRAMES * FRAME_SIZE
    {
      OneRegion(r, x);
    }
  }

  /** The result is one that `pmm_init` promises for this map, with no image, no specs and no heap. */
  lemma BigBoot()
    ensures PmmInit.InitPost(BIG_MAP, Image(0, 0), [], 0, BigInit())
    ensures PmmInit.Place(BIG_MAP, FRAMES, 0) == PmmInit.Placed(BigInit().ftPhys, BigInit().heapPhys)
  {
    hide Bump, Effective, InRegion, TailState, InUsable, PmmInit.MaxEnd, PmmInit.InitPost;
    BigRegions();
    BigPlaced();
    TailPost(BIG_MAP, Image(0, 0), FRAMES, FIRST_FREE, BigInit().ftPhys, BigInit().heapPhys, 0, BigInit().heapEnd);
  }

  lemma BigPlaced()
    ensures Bump(BIG_MAP, Position(0, 0), FRAMES * PmmInit.FRAME_INFO_BYTES, FRAME_SIZE).0 == Some(0x10_0000)
    ensures InRegion(BIG_MAP, 0x10_0000, FRAMES * PmmInit.FRAME_INFO_BYTES)
  {
    hide Bits.AlignUp;
    assert BIG_MAP[0].usable;
    BootSpan.RoundedUp(0x10_0000);
  }

  /** A new address space in which nothing is mapped yet and three tables can still be grown. */
  lemma NewSpaceRoom(s: State)
    requires KernelRuns.Initial(PmmInit.Booted(s)) && CountFree(s.owner) >= 4 && Valid(s)
    ensures var (s', r) := NewTable(s);
            && r.Some? && CountFree(s'.owner) >= 3 && |s'.owner| == |s.owner| && s'.mappings == s.mappings
            && forall va :: Lookup(s'.ram, r.value, 3, va).None?
  {
    hide ListInv, Lookup, Alloc;
    AllocCounts(s);
    NewTableEmpty(s, map[]);
    CountFreeUpdate(s.owner, NewTable(s).1.value, Kernel);
  }

  /**
   From `pmm_init`, a new address space and one `map` of page 0 to physical address 2^36: it succeeds, the
   page translates to physical address 0, and no forest of tables accounts for the mapping counts.
   */
  lemma MapBeyondMask() returns (sys0: KernelRuns.System, root: nat)
    ensures sys0 == PmmInit.Booted(BigInit().state) && PmmInit.InitPost(BIG_MAP, Image(0, 0), [], 0, BigInit())
    ensures KernelRuns.Initial(sys0) && Valid(sys0.s)
    ensures var sys := KernelRuns.Step(sys0, KernelRuns.NewSpace);
            && root in sys.roots && Valid(sys.s)
            && var (s', r) := Map(sys.s, root, 0, SIXTY_FOUR_GIB, 0);
            && r.Ok? && Translate(s'.ram, root, 0) == Some(0)
            && var sys' := KernelRuns.Step(sys, KernelRuns.MapPage(root, 0, SIXTY_FOUR_GIB, 0));
               forall nodes :: !KernelRuns.SystemInv(sys', nodes)
  {
    hide KernelRuns.Initial, KernelRuns.SystemInv, NewTable, Map, Lookup, VmInv, CountInv, Absent, CountFree,
      Translate, FlagBits, TailState, SeqInv, PmmInit.InitPost;
    var s := TailState(FRAMES, FIRST_FREE);
    TailInv(FRAMES, FIRST_FREE);
    BigBoot();
    sys0 := PmmInit.Booted(s);
    NewSpaceRoom(s);
    root := NewTable(s).1.value;
    KernelRuns.InitialInv(sys0);
    var sys := KernelRuns.Step(sys0, KernelRuns.NewSpace);
    var nodes := KernelRuns.StepKeeps(sys0, map[], KernelRuns.NewSpace);
    MapsThere(sys, nodes, root);
    NoFlags();
    MapTranslates(sys.s, nodes, root, 0, SIXTY_FOUR_GIB, 0, 0);
    KernelRuns.MapKeepsExactly(sys, nodes, root, 0, SIXTY_FOUR_GIB, 0);
  }

  lemma NoFlags()
    ensures FlagBits(0)
  {
    ZeroShift(12);
    ZeroShift(40);
  }

  lemma MapsThere(sys: KernelRuns.System, nodes: Forest, root: nat)
    requires KernelRuns.SystemInv(sys, nodes) && root in sys.roots
    requires |sys.s.owner| > SIXTY_FOUR_GIB / FRAME_SIZE && CountFree(sys.s.owner) >= 3
    requires Lookup(sys.s.ram, root, 3, 0).None? && forall f :: 0 <= f < |sys.s.mappings| ==> sys.s.mappings[f] == 0
    ensures Valid(sys.s) && VmInv(sys.s, nodes) && IsRoot(nodes, root)
    ensures Map(sys.s, root, 0, SIXTY_FOUR_GIB, 0).1.Ok? && KernelRuns.MapCall(sys, root, 0, SIXTY_FOUR_GIB, 0)
  {
    hide VmInv, CountInv, Absent, CountFree, Map, Lookup;
    KernelRuns.MetaValid(sys);
    CanonicalRange(0);
    AbsentBound(sys.s.ram, root, 3, 1, 0);
    var nodes' := MapRefines(sys.s, nodes, root, 0, SIXTY_FOUR_GIB, 0);
    NoFlags();
  }
}
