/**
 Building an address space (`kernel/src/vmm.rs`): `new`, `map_window` and `new_kernel`, which maps
 all of RAM twice with 2 MiB pages.
 */
module Windows {
  import opened Frames
  import opened Bits
  import opened Pmm
  import opened FreeLists
  import opened FrameAlloc
  import opened PageEntries
  import opened PageTree
  import opened Vmm
  import opened Mapping
  import opened Census
  import opened Growth

  const KERNEL_FLAGS: nat := 3 // PRESENT and WRITABLE

  // ---------- the operations ----------

  /** `PageTable::new` */
  function NewTable(s: State): (r: (State, Option<nat>))
    requires |s.shards| > 0
    ensures |r.0.shards| == |s.shards|
  {
    var (s1, r) := Alloc(s);
    if r.None? then (s1, None) else (s1.(ram := Zeroed(s1.ram, r.value)), r)
  }

  /** One iteration of `map_window`. */
  function WindowStep(s: State, root: nat, va: nat, pa: nat, flags: nat): (r: (State, Result))
    requires |s.shards| > 0
    ensures |r.0.shards| == |s.shards|
  {
    match Descend(s, root, va, 3, 2, 0)
    case Failed(s1, error) => (s1, Err(error))
    case Reached(s1, table) =>
      if Present(Read(s1.ram, table, Index(va, 1))) then (s1, Err(Conflict))
      else (SetEntry(s1, table, Index(va, 1), WindowEntry(pa, flags)), Ok)
  }

  function WindowLoop(s: State, root: nat, va: nat, pa: nat, pages: nat, flags: nat): (r: (State, Result))
    requires |s.shards| > 0
    ensures |r.0.shards| == |s.shards|
    decreases pages, va
  {
    if pages == 0 then (s, Ok)
    else
      var (s1, r) := WindowStep(s, root, va, pa, flags);
      if r.Err? then (s1, r)
      else WindowLoop(s1, root, va + LARGE_PAGE, pa + LARGE_PAGE, pages - 1, flags)
  }

  /** `map_window` */
  function MapWindow(s: State, root: nat, va: nat, pa: nat, bytes: nat, flags: nat): (r: (State, Result))
    requires |s.shards| > 0
    ensures |r.0.shards| == |s.shards|
  {
    if bytes == 0 then (s, Ok)
    else if va % LARGE_PAGE != 0 || pa % LARGE_PAGE != 0 || bytes % LARGE_PAGE != 0 then (s, Err(NotAligned))
    else WindowLoop(s, root, va, pa, WindowPages(va, bytes), flags)
  }

  /** How often the loop runs: the end of the window is computed modulo 2^64. */
  function WindowPages(va: nat, bytes: nat): nat {
    var end := (va + bytes) % WORD;
    if va < end then (end - va) / LARGE_PAGE else 0
  }

  /** `new_kernel`: the identity window and its mirror at `physmap`. */
  function NewKernel(s: State, ramEnd: nat, physmap: nat): (State, Option<nat>)
    requires |s.shards| > 0
  {
    var (s0, root) := NewTable(s);
    if root.None? then (s0, None)
    else
      var window := AlignUp(ramEnd, LARGE_PAGE);
      var (s1, r1) := MapWindow(s0, root.value, 0, 0, window, KERNEL_FLAGS);
      if r1.Err? then (s1, None)
      else
        var (s2, r2) := MapWindow(s1, root.value, physmap, 0, window, KERNEL_FLAGS);
        if r2.Err? then (s2, None) else (s2, root)
  }

  // ---------- a fresh root ----------

  /** A new table is an empty address space; every other one is as it was. */
  lemma NewTableEmpty(s: State, nodes: Forest)
    requires VmInv(s, nodes) && |s.shards| == SHARD_COUNT && NewTable(s).1.Some?
    ensures var (s', r) := NewTable(s);
            var root := r.value;
            var nodes' := nodes[root := Node(root, [], 0)];
            && root !in nodes && VmInv(s', nodes') && IsRoot(nodes', root) && |s'.shards| == SHARD_COUNT
            && (forall va :: Lookup(s'.ram, root, 3, va).None?)
            && (forall q, va :: IsRoot(nodes, q) ==> Lookup(s'.ram, q, 3, va) == Lookup(s.ram, q, 3, va))
            && Fresh(s, nodes, s', root)
  {
    hide SeqInv, TreeInv, Lookup, Alloc, ZeroTable;
    FreshFrame(s, nodes);
    var (s', r) := NewTable(s);
    var root := r.value;
    NewRoot(s'.ram, nodes, root);
    SeqBasics(s');
    forall va
      ensures Lookup(s'.ram, root, 3, va).None?
    {
      ZeroLookup(s'.ram, root, va);
    }
    forall q, va | IsRoot(nodes, q)
      ensures Lookup(s'.ram, q, 3, va) == Lookup(s.ram, q, 3, va)
    {
      LookupFrame(s.ram, s'.ram, nodes, q, va);
    }
  }

  lemma ZeroLookup(ram: Ram, root: nat, va: nat)
    requires ZeroTable(ram, root)
    ensures Lookup(ram, root, 3, va).None?
  {
    PathBound(va);
    ZeroNotPresent();
  }

  lemma NewRoot(ram: Ram, nodes: Forest, root: nat)
    requires TreeInv(ram, nodes) && root !in nodes && root < |ram| && ZeroTable(ram, root)
    ensures TreeInv(ram, nodes[root := Node(root, [], 0)])
  {
    var nodes' := nodes[root := Node(root, [], 0)];
    ZeroNotPresent();
    forall f | f in nodes'
      ensures NodeOk(ram, nodes', f)
    {
      if f != root {
        assert NodeOk(ram, nodes, f);
        assert NodeOk(ram, nodes, nodes[f].root);
      }
    }
    forall f, i: nat | f in nodes' && i < ENTRIES
      ensures EntryOk(ram, nodes', f, i)
    {
      if f != root { assert EntryOk(ram, nodes, f, i) && NodeOk(ram, nodes, f); }
    }
  }

  // ---------- one large page ----------

  predicate InWord(a: nat) {
    a < WORD && IsCanonical(a)
  }

  /** Two canonical addresses agree on the three upper indices exactly when they share a large page. */
  lemma SameLargePage(a: nat, b: nat)
    requires InWord(a) && InWord(b)
    ensures Index(a, 3) == Index(b, 3) && Index(a, 2) == Index(b, 2) && Index(a, 1) == Index(b, 1)
            <==> a / LARGE_PAGE == b / LARGE_PAGE
  {
    hide Index, IsCanonical;
    IndexValue(a); IndexValue(b);
    if Index(a, 3) == Index(b, 3) && Index(a, 2) == Index(b, 2) && Index(a, 1) == Index(b, 1) {
      var a0, b0 := a - a % LARGE_PAGE, b - b % LARGE_PAGE;
      LargeBase(a); LargeBase(b);
      IndicesDetermine(a0, b0);
    } else {
      LargeQuotients(a); LargeQuotients(b);
    }
  }

  lemma LargeQuotients(a: nat)
    ensures a / 0x4000_0000 == a / LARGE_PAGE / 512
    ensures a / 0x80_0000_0000 == a / LARGE_PAGE / 0x4_0000
  {
  }

  lemma LargeBase(a: nat)
    requires InWord(a)
    ensures var b := a - a % LARGE_PAGE;
            && InWord(b) && Index(b, 0) == 0 && b % FRAME_SIZE == 0
            && Index(b, 1) == Index(a, 1) && Index(b, 2) == Index(a, 2) && Index(b, 3) == Index(a, 3)
  {
    hide Index, IsCanonical;
    var b := a - a % LARGE_PAGE;
    LargeRange(a);
    CanonicalRange(a); CanonicalRange(b);
    IndexValue(a); IndexValue(b);
    LargeIndices(a);
  }

  /** Rounding down to a large page does not leave the half of the address space. */
  lemma LargeRange(a: nat)
    ensures var b := a - a % LARGE_PAGE;
            && b <= a && b % FRAME_SIZE == 0
            && (a >= WORD - 0x8000_0000_0000 ==> b >= WORD - 0x8000_0000_0000)
  {
    var q, m := a / LARGE_PAGE, (WORD - 0x8000_0000_0000) / LARGE_PAGE;
    assert m * LARGE_PAGE == WORD - 0x8000_0000_0000;
    assert a - a % LARGE_PAGE == q * LARGE_PAGE == q * 512 * FRAME_SIZE;
    DivUnique(q * LARGE_PAGE, FRAME_SIZE, q * 512, 0);
  }

  lemma LargeIndices(a: nat)
    ensures var b := a - a % LARGE_PAGE;
            && b / 0x1000 % 512 == 0 && b / 0x20_0000 == a / 0x20_0000
            && b / 0x4000_0000 == a / 0x4000_0000 && b / 0x80_0000_0000 == a / 0x80_0000_0000
  {
    var q := a / LARGE_PAGE;
    assert a - a % LARGE_PAGE == q * LARGE_PAGE;
    LargeMultiple(q);
    LargeQuotients(a); LargeQuotients(q * LARGE_PAGE);
  }

  lemma LargeMultiple(q: nat)
    ensures q * LARGE_PAGE / LARGE_PAGE == q && q * LARGE_PAGE / 0x1000 % 512 == 0
  {
    assert q * LARGE_PAGE == q * 512 * 0x1000;
    DivUnique(q * LARGE_PAGE, 0x1000, q * 512, 0);
    DivUnique(q * LARGE_PAGE, LARGE_PAGE, q, 0);
  }

  /** Writing a large leaf into a vacant entry changes exactly the addresses of that large page. */
  lemma WindowWrite(ram: Ram, nodes: Forest, root: nat, t: nat, va: nat, w: nat, a: nat)
    requires TreeInv(ram, nodes) && IsRoot(nodes, root) && InWord(va) && InWord(a)
    requires t in nodes && |nodes[t].path| == 2 && OnWalk(nodes[t], root, va)
    requires !Present(Read(ram, t, Index(va, 1))) && Present(w) && Huge(w)
    requires TreeInv(Write(ram, t, Index(va, 1), w), nodes)
    ensures Lookup(Write(ram, t, Index(va, 1), w), root, 3, a)
         == if a / LARGE_PAGE == va / LARGE_PAGE then Some(Leaf(1, w)) else Lookup(ram, root, 3, a)
    ensures a / LARGE_PAGE == va / LARGE_PAGE ==> Lookup(ram, root, 3, a).None?
  {
    hide TreeInv, Index, IsCanonical;
    var i := Index(va, 1);
    var ram' := Write(ram, t, i, w);
    PathBound(va);
    TreeBasics(ram, nodes, t);
    SameLargePage(a, va);
    ReadOfWrite(ram, t, i, w, t, i);
    if a / LARGE_PAGE == va / LARGE_PAGE {
      assert Path(a)[..2] == Path(va)[..2];
      LookupFromNode(ram', nodes, t, a);
      LookupFromNode(ram, nodes, t, a);
    } else {
      if OnWalk(nodes[t], root, a) {
        assert Path(a)[..2][0] == Path(va)[..2][0] && Path(a)[..2][1] == Path(va)[..2][1];
      }
      LookupWrite(ram, nodes, t, i, w, root, a);
    }
  }

  lemma WindowWriteOther(ram: Ram, nodes: Forest, root: nat, t: nat, va: nat, w: nat, q: nat, a: nat)
    requires TreeInv(ram, nodes) && t in nodes && |nodes[t].path| == 2 && nodes[t].root == root
    requires IsRoot(nodes, q) && q != root
    ensures Lookup(Write(ram, t, Index(va, 1), w), q, 3, a) == Lookup(ram, q, 3, a)
  {
    hide TreeInv, Index, Lookup;
    PathBound(va);
    LookupWrite(ram, nodes, t, Index(va, 1), w, q, a);
  }

  /** What a window may do: grow tables and add large leaves to one address space. */
  ghost predicate WindowGrows(s: State, nodes: Forest, root: nat, s': State, nodes': Forest) {
    && VmInv(s', nodes') && |s'.shards| == SHARD_COUNT
    && IsRoot(nodes', root)
    && s'.mappings == s.mappings && s'.pinned == s.pinned && s'.gen == s.gen && |s'.owner| == |s.owner|
    && (forall f :: f in nodes ==> f in nodes' && nodes'[f] == nodes[f])
    && (forall f :: f in nodes' && f !in nodes ==> IsFree(s, f) && nodes'[f].path != [])
    && (forall f :: 0 <= f < |s.owner| ==> s'.owner[f] == if f in nodes' then Kernel else s.owner[f])
    && (CountInv(s, nodes) ==> CountInv(s', nodes'))
    && |s'.ram| == |s.ram|
    && (forall f :: 0 <= f < |s.ram| && f !in nodes && !IsFree(s, f) ==> s'.ram[f] == s.ram[f])
    && (forall q, a :: IsRoot(nodes, q) && q != root ==> Lookup(s'.ram, q, 3, a) == Lookup(s.ram, q, 3, a))
  }

  lemma WindowLeafKeeps(s: State, nodes: Forest, root: nat, t: nat, va: nat, pa: nat, flags: nat)
    requires VmInv(s, nodes) && |s.shards| == SHARD_COUNT && IsRoot(nodes, root) && pa % LARGE_PAGE == 0
    requires t in nodes && |nodes[t].path| == 2 && OnWalk(nodes[t], root, va)
    requires !Present(Read(s.ram, t, Index(va, 1)))
    ensures WindowGrows(s, nodes, root, SetEntry(s, t, Index(va, 1), WindowEntry(pa, flags)), nodes)
  {
    hide SeqInv, TreeInv, Lookup, Index, WindowEntry, Present, User, Huge, LeafFrame;
    var i, w := Index(va, 1), WindowEntry(pa, flags);
    WindowEntryBits(pa, flags);
    PathBound(va);
    TableWrite(s, nodes, t, i, w);
    var s' := SetEntry(s, t, i, w);
    if CountInv(s, nodes) { LargeLeafCounts(s, nodes, t, i, w); }
    forall q, a | IsRoot(nodes, q) && q != root
      ensures Lookup(s'.ram, q, 3, a) == Lookup(s.ram, q, 3, a)
    {
      WindowWriteOther(s.ram, nodes, root, t, va, w, q, a);
    }
  }

  lemma LargeLeafCounts(s: State, nodes: Forest, t: nat, i: nat, w: nat)
    requires CountInv(s, nodes) && ValidRam(s.ram) && t in nodes && t < |s.ram| && |nodes[t].path| == 2 && i < ENTRIES
    ensures CountInv(SetEntry(s, t, i, w), nodes)
  {
    hide Present, LeafFrame;
    forall f: nat
      ensures LeafSlots(Write(s.ram, t, i, w), nodes, f) == LeafSlots(s.ram, nodes, f)
    {
      forall u, j: nat | u in nodes && j < ENTRIES
        ensures IsLeafSlot(Write(s.ram, t, i, w), nodes, u, j, f) <==> IsLeafSlot(s.ram, nodes, u, j, f)
      {
        ReadOfWrite(s.ram, t, i, w, u, j);
      }
    }
  }

  lemma EvolvesIsWindow(s: State, nodes: Forest, root: nat, s': State, nodes': Forest)
    requires Evolves(s, nodes, s', nodes') && IsRoot(nodes, root)
    ensures WindowGrows(s, nodes, root, s', nodes')
  {
    hide SeqInv, TreeInv, Lookup, CountInv;
    SeqBasics(s');
    if CountInv(s, nodes) { CountEvolves(s, nodes, s', nodes'); }
  }

  lemma WindowTrans(s: State, nodes: Forest, root: nat, s1: State, nodes1: Forest, s2: State, nodes2: Forest)
    requires WindowGrows(s, nodes, root, s1, nodes1) && WindowGrows(s1, nodes1, root, s2, nodes2)
    ensures WindowGrows(s, nodes, root, s2, nodes2)
  {
    hide VmInv, Lookup, CountInv;
    forall q, a | IsRoot(nodes, q) && q != root
      ensures Lookup(s2.ram, q, 3, a) == Lookup(s.ram, q, 3, a)
    {
      assert IsRoot(nodes1, q);
    }
  }

  /** Between `s` and `s'` exactly the large page at `va`, unmapped before, became mapped by `w`. */
  ghost predicate PageDone(s: State, root: nat, va: nat, w: nat, s': State) {
    forall a: nat :: InWord(a) ==>
      && Lookup(s'.ram, root, 3, a)
         == (if a / LARGE_PAGE == va / LARGE_PAGE then Some(Leaf(1, w)) else Lookup(s.ram, root, 3, a))
      && (a / LARGE_PAGE == va / LARGE_PAGE ==> Lookup(s.ram, root, 3, a).None?)
  }

  /** The address space at `root` is as it was. */
  ghost predicate SameSpace(s: State, root: nat, s': State) {
    forall a :: Lookup(s'.ram, root, 3, a) == Lookup(s.ram, root, 3, a)
  }

  /** Why one iteration fails: too few frames, or the entry of the large page is taken. */
  lemma WindowStepFails(s: State, nodes: Forest, root: nat, va: nat, pa: nat, flags: nat)
    requires VmInv(s, nodes) && |s.shards| == SHARD_COUNT && IsRoot(nodes, root)
    ensures var r := WindowStep(s, root, va, pa, flags).1;
            && (r == Err(AllocFailed) <==> CountFree(s.owner) < Absent(s.ram, root, 3, 2, va))
            && (r == Err(Conflict) <==> Absent(s.ram, root, 3, 1, va) == 0)
            && (r.Ok? || r == Err(AllocFailed) || r == Err(Conflict))
  {
    hide SeqInv, TreeInv, Lookup, Descend, Index, WindowEntry, Present, Huge, Absent;
    assert Path(va)[..0] == [];
    DescendNeeds(s, nodes, root, root, va, 3, 2, 0);
    DescentErrors(s, root, va, 3, 2, 0);
    if Absent(s.ram, root, 3, 1, va) == 0 { AbsentAbove(s.ram, root, 3, 1, va); }
  }

  /**
   One iteration: on success exactly one unmapped large page becomes mapped; on failure no
   translation changes.
   */
  lemma WindowStepExact(s: State, nodes: Forest, root: nat, va: nat, pa: nat, flags: nat) returns (nodes': Forest)
    requires VmInv(s, nodes) && |s.shards| == SHARD_COUNT && IsRoot(nodes, root)
    requires pa % LARGE_PAGE == 0
    ensures var (s', r) := WindowStep(s, root, va, pa, flags);
            && WindowGrows(s, nodes, root, s', nodes')
            && (r.Ok? && InWord(va) ==> PageDone(s, root, va, WindowEntry(pa, flags), s'))
            && (r.Err? ==> SameSpace(s, root, s'))
            && (r.Ok? <==> && Absent(s.ram, root, 3, 2, va) <= CountFree(s.owner)
                           && Absent(s.ram, root, 3, 1, va) > 0)
            && (r == Err(AllocFailed) <==> CountFree(s.owner) < Absent(s.ram, root, 3, 2, va))
            && (r == Err(Conflict) <==> Absent(s.ram, root, 3, 1, va) == 0)
  {
    hide SeqInv, TreeInv, Lookup, Descend, Index, WindowEntry, Present, Huge, User, IsCanonical, CountInv, Absent,
      PageDone, InWord;
    assert Path(va)[..0] == [];
    WindowStepFails(s, nodes, root, va, pa, flags);
    nodes' := DescendKeeps(s, nodes, root, root, va, 3, 2, 0);
    var d := Descend(s, root, va, 3, 2, 0);
    EvolvesIsWindow(s, nodes, root, d.state, nodes');
    assert SameSpace(s, root, d.state);
    if d.Reached? && !Present(Read(d.state.ram, d.table, Index(va, 1))) {
      WindowLeafDone(s, nodes, root, d.state, nodes', d.table, va, pa, flags);
    }
  }

  /** The last step of a successful iteration, at the table `t` that the descent reached. */
  lemma WindowLeafDone(s: State, nodes: Forest, root: nat, s1: State, nodes': Forest, t: nat, va: nat, pa: nat,
                       flags: nat)
    requires WindowGrows(s, nodes, root, s1, nodes') && SameSpace(s, root, s1) && pa % LARGE_PAGE == 0
    requires t in nodes' && |nodes'[t].path| == 2 && OnWalk(nodes'[t], root, va)
    requires !Present(Read(s1.ram, t, Index(va, 1)))
    ensures var s' := SetEntry(s1, t, Index(va, 1), WindowEntry(pa, flags));
            && WindowGrows(s, nodes, root, s', nodes')
            && (InWord(va) ==> PageDone(s, root, va, WindowEntry(pa, flags), s'))
  {
    hide SeqInv, TreeInv, Lookup, Index, WindowEntry, Present, Huge, User, IsCanonical, CountInv;
    var w := WindowEntry(pa, flags);
    WindowLeafKeeps(s1, nodes', root, t, va, pa, flags);
    var s' := SetEntry(s1, t, Index(va, 1), w);
    WindowTrans(s, nodes, root, s1, nodes', s', nodes');
    WindowEntryBits(pa, flags);
    if InWord(va) {
      forall a: nat | InWord(a)
        ensures Lookup(s'.ram, root, 3, a)
             == (if a / LARGE_PAGE == va / LARGE_PAGE then Some(Leaf(1, w)) else Lookup(s.ram, root, 3, a))
        ensures a / LARGE_PAGE == va / LARGE_PAGE ==> Lookup(s.ram, root, 3, a).None?
      {
        WindowWrite(s1.ram, nodes', root, t, va, w, a);
      }
    }
  }

  // ---------- the loop ----------

  /** Address `a` lies in the window of `pages` large pages at `va`. */
  predicate InWindow(a: nat, va: nat, pages: nat) {
    va <= a < va + pages * LARGE_PAGE
  }

  /** The leaf for an address of a window that maps `va` to `pa`. */
  function WindowLeaf(a: nat, va: nat, pa: nat, flags: nat): Leaf
    requires va <= a
  {
    Leaf(1, WindowEntry(pa + (a - va) / LARGE_PAGE * LARGE_PAGE, flags))
  }

  ghost predicate WindowDone(s: State, root: nat, va: nat, pa: nat, pages: nat, flags: nat, s': State) {
    forall a: nat :: InWord(a) ==>
      && Lookup(s'.ram, root, 3, a)
         == (if InWindow(a, va, pages) then Some(WindowLeaf(a, va, pa, flags)) else Lookup(s.ram, root, 3, a))
      && (InWindow(a, va, pages) ==> Lookup(s.ram, root, 3, a).None?)
  }

  lemma WindowShift(a: nat, va: nat, pages: nat)
    requires pages > 0 && va % LARGE_PAGE == 0
    ensures InWindow(a, va, pages) <==> a / LARGE_PAGE == va / LARGE_PAGE || InWindow(a, va + LARGE_PAGE, pages - 1)
    ensures a / LARGE_PAGE == va / LARGE_PAGE ==>
              va <= a && (a - va) / LARGE_PAGE == 0 && !InWindow(a, va + LARGE_PAGE, pages - 1)
    ensures InWindow(a, va + LARGE_PAGE, pages - 1) ==>
              (a - va) / LARGE_PAGE == (a - (va + LARGE_PAGE)) / LARGE_PAGE + 1
  {
  }

  /** The loop maps the window page by page, in order; it stops where a page cannot be mapped. */
  lemma {:induction false} WindowLoopExact(s: State, nodes: Forest, root: nat, va: nat, pa: nat, pages: nat, flags: nat)
    returns (nodes': Forest, done: nat)
    requires VmInv(s, nodes) && |s.shards| == SHARD_COUNT && IsRoot(nodes, root)
    requires va % LARGE_PAGE == 0 && pa % LARGE_PAGE == 0
    requires forall a :: InWindow(a, va, pages) ==> InWord(a)
    ensures var (s', r) := WindowLoop(s, root, va, pa, pages, flags);
            && WindowGrows(s, nodes, root, s', nodes')
            && done <= pages && (r.Ok? <==> done == pages)
            && WindowDone(s, root, va, pa, done, flags, s')
    decreases pages
  {
    hide SeqInv, TreeInv, Lookup, CountInv, WindowStep, WindowEntry, User, InWord, PageDone, WindowDone, Absent;
    if pages == 0 {
      nodes', done := nodes, 0;
      NoPages(s, root, va, pa, flags, s);
    } else {
      assert InWindow(va, va, pages);
      var nodes1 := WindowStepExact(s, nodes, root, va, pa, flags);
      var (s1, r1) := WindowStep(s, root, va, pa, flags);
      nodes', done := nodes1, 0;
      if r1.Ok? {
        forall a | InWindow(a, va + LARGE_PAGE, pages - 1)
          ensures InWord(a)
        {
          assert InWindow(a, va, pages);
        }
        var rest;
        nodes', rest := WindowLoopExact(s1, nodes1, root, va + LARGE_PAGE, pa + LARGE_PAGE, pages - 1, flags);
        var s' := WindowLoop(s1, root, va + LARGE_PAGE, pa + LARGE_PAGE, pages - 1, flags).0;
        WindowTrans(s, nodes, root, s1, nodes1, s', nodes');
        done := rest + 1;
        WindowJoin(s, root, va, pa, done, flags, s1, s');
      } else {
        NoPages(s, root, va, pa, flags, s1);
      }
    }
  }

  lemma NoPages(s: State, root: nat, va: nat, pa: nat, flags: nat, s': State)
    requires SameSpace(s, root, s')
    ensures WindowDone(s, root, va, pa, 0, flags, s')
  {
    hide Lookup, InWord;
  }

  lemma WindowJoin(s: State, root: nat, va: nat, pa: nat, pages: nat, flags: nat, s1: State, s': State)
    requires pages > 0 && va % LARGE_PAGE == 0
    requires PageDone(s, root, va, WindowEntry(pa, flags), s1)
    requires WindowDone(s1, root, va + LARGE_PAGE, pa + LARGE_PAGE, pages - 1, flags, s')
    ensures WindowDone(s, root, va, pa, pages, flags, s')
  {
    hide Lookup, WindowEntry, InWord;
    forall a: nat | InWord(a)
      ensures Lookup(s'.ram, root, 3, a)
                == (if InWindow(a, va, pages) then Some(WindowLeaf(a, va, pa, flags)) else Lookup(s.ram, root, 3, a))
      ensures InWindow(a, va, pages) ==> Lookup(s.ram, root, 3, a).None?
    {
      WindowShift(a, va, pages);
    }
  }

  // ---------- the kernel's address space ----------

  lemma KernelFlags()
    ensures !User(KERNEL_FLAGS) && FlagBits(KERNEL_FLAGS) && Bit(KERNEL_FLAGS, 1)
  {
    assert Shr(3, 1) == 1;
    UserFlag(KERNEL_FLAGS);
    assert And(3, 4) == 0;
    SmallShift(KERNEL_FLAGS);
    ZeroShift(40);
  }

  lemma WindowPhysical(a: nat, va: nat, pa: nat, flags: nat)
    requires va <= a && va % LARGE_PAGE == 0 && pa % LARGE_PAGE == 0 && FlagBits(flags)
    requires pa + (a - va) < 0x1000_0000_0000
    ensures Physical(WindowLeaf(a, va, pa, flags), a) == pa + (a - va)
  {
    hide WindowEntry, FlagBits, And;
    var p := pa + (a - va) / LARGE_PAGE * LARGE_PAGE;
    assert p % LARGE_PAGE == 0 && p + a % LARGE_PAGE == pa + (a - va);
    WindowAddress(p, flags);
    OffsetValue(a);
  }

  /**
   `map_window` maps the asked window from its start, `done` pages of it, and nothing else.  It
   reports success exactly when the loop got through, and then the window is mapped in full if and
   only if its end is below 2^64; a window that reaches 2^64 is reported as mapped though none of
   it is.
   */
  lemma MapWindowExact(s: State, nodes: Forest, root: nat, va: nat, pa: nat, bytes: nat, flags: nat)
    returns (nodes': Forest, done: nat)
    requires VmInv(s, nodes) && |s.shards| == SHARD_COUNT && IsRoot(nodes, root)
    requires va < WORD && bytes < WORD && forall a: nat :: va <= a < va + bytes && a < WORD ==> InWord(a)
    ensures var (s', r) := MapWindow(s, root, va, pa, bytes, flags);
            var aligned := va % LARGE_PAGE == 0 && pa % LARGE_PAGE == 0 && bytes % LARGE_PAGE == 0;
            && WindowGrows(s, nodes, root, s', nodes')
            && WindowDone(s, root, va, pa, done, flags, s') && done * LARGE_PAGE <= bytes
            && (r == Err(NotAligned) <==> bytes > 0 && !aligned)
            && (r.Ok? && bytes > 0 ==> aligned && done * LARGE_PAGE == if va + bytes < WORD then bytes else 0)
            && (bytes > 0 && aligned && va + bytes >= WORD ==> r.Ok? && s' == s)
  {
    hide SeqInv, TreeInv, Lookup, CountInv, WindowLoop, WindowEntry, User, InWord, WindowDone, WindowGrows;
    nodes', done := nodes, 0;
    NoPages(s, root, va, pa, flags, s);
    WindowSelf(s, nodes, root);
    if bytes > 0 && va % LARGE_PAGE == 0 && pa % LARGE_PAGE == 0 && bytes % LARGE_PAGE == 0 {
      WholePages(va, bytes);
      if va + bytes >= WORD { NoLoop(s, root, va, pa, flags); }
      nodes', done := WindowLoopExact(s, nodes, root, va, pa, WindowPages(va, bytes), flags);
      WindowLoopErrors(s, root, va, pa, WindowPages(va, bytes), flags);
    }
  }

  lemma NoLoop(s: State, root: nat, va: nat, pa: nat, flags: nat)
    requires |s.shards| > 0
    ensures WindowLoop(s, root, va, pa, 0, flags) == (s, Ok)
  {
  }

  /** The last large page of the address space cannot be mapped, and nobody is told. */
  lemma LastPageIgnored(s: State, root: nat, pa: nat, flags: nat)
    requires |s.shards| > 0 && pa % LARGE_PAGE == 0
    ensures MapWindow(s, root, WORD - LARGE_PAGE, pa, LARGE_PAGE, flags) == (s, Ok)
  {
    WholePages(WORD - LARGE_PAGE, LARGE_PAGE);
    NoLoop(s, root, WORD - LARGE_PAGE, pa, flags);
  }

  lemma WindowSelf(s: State, nodes: Forest, root: nat)
    requires VmInv(s, nodes) && |s.shards| == SHARD_COUNT && IsRoot(nodes, root)
    ensures WindowGrows(s, nodes, root, s, nodes)
  {
  }

  lemma WholePages(va: nat, bytes: nat)
    requires va < WORD && 0 < bytes < WORD && bytes % LARGE_PAGE == 0
    ensures WindowPages(va, bytes) * LARGE_PAGE == if va + bytes < WORD then bytes else 0
  {
    if va + bytes >= WORD { assert (va + bytes) % WORD == va + bytes - WORD; }
  }

  lemma {:induction false} WindowLoopErrors(s: State, root: nat, va: nat, pa: nat, pages: nat, flags: nat)
    requires |s.shards| > 0
    ensures WindowLoop(s, root, va, pa, pages, flags).1 != Err(NotAligned)
    decreases pages
  {
    hide Descend, Index, Present, WindowEntry;
    if pages > 0 {
      DescentErrors(s, root, va, 3, 2, 0);
      var (s1, r) := WindowStep(s, root, va, pa, flags);
      if r.Ok? { WindowLoopErrors(s1, root, va + LARGE_PAGE, pa + LARGE_PAGE, pages - 1, flags); }
    }
  }

  /** The two windows, and nothing else; the kernel can write and execute all of it, and the user none. */
  ghost predicate TwoWindows(ram: Ram, root: nat, physmap: nat, window: nat) {
    forall a: nat :: InWord(a) ==>
      && Translate(ram, root, a) == TwoWindowTarget(a, physmap, window)
      && !UserWalk(ram, root, 3, a)
      && (WriteWalk(ram, root, 3, a) <==> TwoWindowTarget(a, physmap, window).Some?)
      && (ExecWalk(ram, root, 3, a) <==> TwoWindowTarget(a, physmap, window).Some?)
  }

  function TwoWindowTarget(a: nat, physmap: nat, window: nat): Option<nat> {
    if a < window then Some(a)
    else if physmap <= a < physmap + window then Some(a - physmap)
    else None
  }

  /** The leaves left by two successful windows on an empty address space. */
  lemma TwoWindowLeaves(s0: State, s1: State, s2: State, nodes2: Forest, root: nat, physmap: nat, window: nat)
    requires TreeInv(s2.ram, nodes2) && IsRoot(nodes2, root)
    requires window % LARGE_PAGE == 0 && window <= 0x1000_0000_0000 && (window > 0 ==> physmap % LARGE_PAGE == 0)
    requires forall a: nat :: physmap <= a < physmap + window ==> InWord(a)
    requires forall va :: Lookup(s0.ram, root, 3, va).None?
    requires WindowDone(s0, root, 0, 0, window / LARGE_PAGE, KERNEL_FLAGS, s1)
    requires WindowDone(s1, root, physmap, 0, window / LARGE_PAGE, KERNEL_FLAGS, s2)
    ensures TwoWindows(s2.ram, root, physmap, window)
    ensures window > 0 ==> physmap >= window
  {
    hide TreeInv, Lookup, WindowEntry, Physical, UserWalk, WriteWalk, ExecWalk, User, Bit, InWord, WindowLeaf;
    var n := window / LARGE_PAGE;
    KernelFlags();
    if window > 0 {
      assert InWord(physmap) && InWindow(physmap, physmap, n);
      assert !InWindow(physmap, 0, n);
    }
    forall a: nat | InWord(a)
      ensures Translate(s2.ram, root, a) == TwoWindowTarget(a, physmap, window) && !UserWalk(s2.ram, root, 3, a)
      ensures WriteWalk(s2.ram, root, 3, a) <==> TwoWindowTarget(a, physmap, window).Some?
      ensures ExecWalk(s2.ram, root, 3, a) <==> TwoWindowTarget(a, physmap, window).Some?
    {
      assert Path(a)[..0] == [];
      UserExact(s2.ram, nodes2, root, 3, a);
      RightsExact(s2.ram, nodes2, root, 3, a);
      InWordCanonical(a);
      if InWindow(a, physmap, n) {
        WindowPhysical(a, physmap, 0, KERNEL_FLAGS);
        KernelLeaf(a, physmap);
        assert !InWindow(a, 0, n);
      } else if InWindow(a, 0, n) {
        WindowPhysical(a, 0, 0, KERNEL_FLAGS);
        KernelLeaf(a, 0);
      }
    }
  }

  lemma InWordCanonical(a: nat)
    requires InWord(a)
    ensures IsCanonical(a)
  {
  }

  /** The kernel's windows are writable, executable and closed to the user. */
  lemma KernelLeaf(a: nat, va: nat)
    requires va <= a && a - va < 0x1000_0000_0000
    ensures var e := WindowLeaf(a, va, 0, KERNEL_FLAGS).entry; !User(e) && Bit(e, 1) && !Bit(e, 63)
  {
    hide WindowEntry, User, Bit;
    var p := (a - va) / LARGE_PAGE * LARGE_PAGE;
    DivUnique(p, LARGE_PAGE, (a - va) / LARGE_PAGE, 0);
    assert p <= a - va;
    KernelFlags();
    WindowEntryBits(p, KERNEL_FLAGS);
    WindowEntryExact(p, KERNEL_FLAGS, 1);
    WindowEntryExact(p, KERNEL_FLAGS, 63);
    LowAddress(p);
    LowAddress(KERNEL_FLAGS);
  }

  lemma LargeRound(v: nat)
    requires v <= 0x1000_0000_0000
    ensures AlignUp(v, LARGE_PAGE) % LARGE_PAGE == 0 && v <= AlignUp(v, LARGE_PAGE) < v + LARGE_PAGE
    ensures AlignUp(v, LARGE_PAGE) <= 0x1000_0000_0000
    ensures forall a: nat :: a < AlignUp(v, LARGE_PAGE) ==> InWord(a)
  {
    hide AlignUp;
    Pow2Value(21);
    assert IsPow2(LARGE_PAGE);
    AlignUpExact(v, LARGE_PAGE);
    forall a: nat | a < AlignUp(v, LARGE_PAGE)
      ensures InWord(a)
    {
      CanonicalRange(a);
    }
  }

  /** The arguments of `new_kernel`: RAM up to 16 TiB and a physmap window of canonical addresses. */
  ghost predicate KernelArguments(ramEnd: nat, physmap: nat) {
    && ramEnd <= 0x1000_0000_0000 && physmap < WORD
    && forall a: nat :: physmap <= a < physmap + AlignUp(ramEnd, LARGE_PAGE) && a < WORD ==> InWord(a)
  }

  /** A mirror that reaches 2^64 is skipped, so its first address stays unmapped. */
  lemma MirrorSkipped(s0: State, s1: State, s2: State, root: nat, physmap: nat, window: nat)
    requires 0 < window <= 0x1000_0000_0000 && physmap < WORD <= physmap + window && InWord(physmap)
    requires forall va :: Lookup(s0.ram, root, 3, va).None?
    requires WindowDone(s0, root, 0, 0, window / LARGE_PAGE, KERNEL_FLAGS, s1)
    requires WindowDone(s1, root, physmap, 0, 0, KERNEL_FLAGS, s2)
    ensures !TwoWindows(s2.ram, root, physmap, window)
  {
    hide Lookup, WindowEntry, Physical, UserWalk, InWord;
    InWordCanonical(physmap);
    assert !InWindow(physmap, 0, window / LARGE_PAGE) && !InWindow(physmap, physmap, 0);
  }

  /**
   `new_kernel`, when it succeeds, yields two windows of RAM rounded up to 2 MiB, the identity
   window and its mirror at the physmap base, exactly if the mirror ends below 2^64.  Then every
   other canonical address is unmapped, and nothing is user-accessible.  That the windows do not
   overlap follows from success.  When it fails, the tables it had built stay allocated and no
   other busy frame changed.
   */
  lemma NewKernelExact(s: State, nodes: Forest, ramEnd: nat, physmap: nat) returns (nodes': Forest)
    requires VmInv(s, nodes) && |s.shards| == SHARD_COUNT && KernelArguments(ramEnd, physmap)
    requires NewTable(s).1.Some?
    ensures var root := NewTable(s).1.value;
            var nodes0 := nodes[root := Node(root, [], 0)];
            var (s', r) := NewKernel(s, ramEnd, physmap);
            var window := AlignUp(ramEnd, LARGE_PAGE);
            && root !in nodes && (r == None || r == Some(root))
            && WindowGrows(NewTable(s).0, nodes0, root, s', nodes')
            && (CountInv(s, nodes) ==> CountInv(s', nodes'))
            && (MapWindow(NewTable(s).0, root, 0, 0, window, KERNEL_FLAGS).1.Ok? && physmap % LARGE_PAGE == 0 ==>
                  physmap + window >= WORD ==> r.Some?)
            && (r.Some? ==>
                  && ramEnd <= window < ramEnd + LARGE_PAGE
                  && (window > 0 && physmap + window < WORD ==> physmap >= window)
                  && (TwoWindows(s'.ram, root, physmap, window) <==> physmap + window < WORD || window == 0))
  {
    hide SeqInv, TreeInv, Lookup, CountInv, AlignUp, TwoWindows, WindowDone, MapWindow, NewTable, User, InWord,
      WindowGrows, VmInv;
    var window := AlignUp(ramEnd, LARGE_PAGE);
    LargeRound(ramEnd);
    KernelFlags();
    var (s0, r) := NewTable(s);
    NewTableEmpty(s, nodes);
    var root := r.value;
    var nodes0 := nodes[root := Node(root, [], 0)];
    FreshCounts(s, nodes, s0, root);
    var done;
    nodes', done := MapWindowExact(s0, nodes0, root, 0, 0, window, KERNEL_FLAGS);
    var (s1, r1) := MapWindow(s0, root, 0, 0, window, KERNEL_FLAGS);
    WindowCounts(s0, nodes0, root, s1, nodes');
    if r1.Ok? {
      var nodes1 := nodes';
      assert done == window / LARGE_PAGE;
      nodes', done := MapWindowExact(s1, nodes1, root, physmap, 0, window, KERNEL_FLAGS);
      var (s2, r2) := MapWindow(s1, root, physmap, 0, window, KERNEL_FLAGS);
      WindowTrans(s0, nodes0, root, s1, nodes1, s2, nodes');
      WindowCounts(s0, nodes0, root, s2, nodes');
      if r2.Ok? {
        if physmap + window < WORD || window == 0 {
          assert done == window / LARGE_PAGE;
          TwoWindowLeaves(s0, s1, s2, nodes', root, physmap, window);
        } else {
          WholePages(physmap, window);
          MirrorSkipped(s0, s1, s2, root, physmap, window);
        }
      }
    }
  }

  lemma WindowCounts(s: State, nodes: Forest, root: nat, s': State, nodes': Forest)
    requires WindowGrows(s, nodes, root, s', nodes')
    ensures CountInv(s, nodes) ==> CountInv(s', nodes')
    ensures VmInv(s', nodes') && TreeInv(s'.ram, nodes') && |s'.shards| == SHARD_COUNT && IsRoot(nodes', root)
  {
  }

  lemma FreshCounts(s: State, nodes: Forest, s0: State, root: nat)
    requires VmInv(s, nodes) && Fresh(s, nodes, s0, root)
    ensures CountInv(s, nodes) ==> CountInv(s0, nodes[root := Node(root, [], 0)])
  {
    hide SeqInv, TreeInv, Present, LeafFrame;
    var nodes0 := nodes[root := Node(root, [], 0)];
    SeqBasics(s);
    forall f: nat
      ensures LeafSlots(s0.ram, nodes0, f) == LeafSlots(s.ram, nodes, f)
    {
      forall t, i: nat | t in nodes0 && i < ENTRIES
        ensures IsLeafSlot(s0.ram, nodes0, t, i, f) <==> t in nodes && IsLeafSlot(s.ram, nodes, t, i, f)
      {
      }
    }
  }
}
