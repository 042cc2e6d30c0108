/**
 Address spaces in their imperative form (`kernel/src/vmm.rs`): the level loops of `map`, `unmap`
 and `map_window` read and write table entries in the machine's memory.  Every method computes
 exactly the function of module `Vmm`, `Mapping` or `Windows` that the properties are proved about.
 */
module AddressSpace {
  import opened Frames
  import opened Bits
  import opened Pmm
  import opened FrameAlloc
  import opened PageEntries
  import opened PageTree
  import opened Vmm
  import opened Mapping
  import opened Windows
  import opened Growth
  import opened FrameManager

  /** Handles to one address space: the machine and the frame of its top table. */
  class PageTable {
    const m: Machine
    const root: nat

    constructor (m: Machine, root: nat)
      ensures this.m == m && this.root == root
    {
      this.m, this.root := m, root;
    }

    /** The forest `nodes` of tables is intact and this table is one of its roots. */
    ghost predicate Valid(nodes: Forest)
      reads m
    {
      VmInv(m.View(), nodes) && |m.shards| == SHARD_COUNT && IsRoot(nodes, root)
    }

    /** Hang a fresh, zeroed table below entry `i` of `frame`. */
    method Grow(frame: nat, i: nat, user: nat) returns (table: Option<nat>)
      requires SeqInv(m.View())
      modifies m
      ensures table == Alloc(old(m.View())).1
      ensures var s := Alloc(old(m.View())).0;
              m.View() == if table.Some? then Hang(s, frame, i, table.value, user) else s
    {
      hide Alloc, SeqInv, TableEntry;
      table := m.AllocFrame();
      if table.None? { return; }
      m.ram := Zeroed(m.ram, table.value);
      m.ram := Write(m.ram, frame, i, TableEntry(table.value, user));
    }

    /** The walk of `map` and `map_window` from the top down to level `stop`, growing tables. */
    method Walk(va: nat, stop: nat, user: nat, ghost nodes: Forest) returns (r: Result, table: nat)
      requires Valid(nodes) && 1 <= stop <= 3 && (user == 0 || user == PTE_USER)
      modifies m
      ensures Descend(old(m.View()), root, va, 3, stop, user)
           == if r.Ok? then Reached(m.View(), table) else Failed(m.View(), r.error)
    {
      hide Lookup, Alloc, SeqInv, TreeInv, EntryTo, OnWalk, Index, Present, Huge, Or, Hang, TableFrame, Evolves;
      ghost var forest: Forest := nodes;
      ghost var d := Descend(m.View(), root, va, 3, stop, user);
      assert Path(va)[..0] == [];
      var frame, level := root, 3;
      StartOfWalk(m.View(), nodes, root, va, user);
      while level >= stop
        invariant stop - 1 <= level <= 3
        invariant DescentAt(m.View(), forest, root, frame, va, level, user)
        invariant d == Descend(m.View(), frame, va, level, stop, user)
        decreases level
      {
        ghost var s := m.View();
        var i := Index(va, level);
        var entry := Read(m.ram, frame, i);
        if !Present(entry) {
          var table' := Grow(frame, i, user);
          if table'.None? { return Err(AllocFailed), frame; }
          DescendGrow(s, forest, root, frame, va, level, user);
          forest := forest[table'.value := Place(forest, frame, i)];
          frame := table'.value;
        } else {
          if Huge(entry) { return Err(Conflict), frame; }
          if user != 0 {
            DescendPromote(s, forest, root, frame, va, level);
            m.ram := Write(m.ram, frame, i, Or(entry, user));
          } else {
            DescendFollow(s, forest, root, frame, va, level);
          }
          frame := TableFrame(entry);
        }
        level := level - 1;
      }
      return Ok, frame;
    }

    /** `PageTable::map` */
    method Map(va: nat, pa: nat, flags: nat, ghost nodes: Forest) returns (r: Result, ghost nodes': Forest)
      requires Valid(nodes) && va < WORD
      modifies m
      ensures (m.View(), r) == Mapping.Map(old(m.View()), root, va, pa, flags)
      ensures Valid(nodes')
      ensures r.Ok? ==> Space(m.ram, root) == Space(old(m.ram), root)[va := Leaf(0, LeafEntry(pa, flags))]
      ensures r.Err? ==> Space(m.ram, root) == Space(old(m.ram), root)
    {
      hide Lookup, Descend, SeqInv, TreeInv, Index, Present, IsCanonical, And, LeafEntry, Space;
      SeqBasics(m.View());
      nodes' := MapRefines(m.View(), nodes, root, va, pa, flags);
      MapShards(m.View(), nodes, root, va, pa, flags, nodes');
      if !IsCanonical(va) { return Err(NonCanonical), nodes'; }
      if va % FRAME_SIZE != 0 || pa % FRAME_SIZE != 0 { return Err(NotAligned), nodes'; }
      if pa >= |m.owner| * FRAME_SIZE { return Err(OutOfRange), nodes'; }
      UserFlag(flags);
      var table;
      r, table := Walk(va, 1, And(flags, PTE_USER), nodes);
      if r.Err? { return; }
      if Present(Read(m.ram, table, Index(va, 0))) { return Err(Conflict), nodes'; }
      m.ram := Write(m.ram, table, Index(va, 0), LeafEntry(pa, flags));
      var n := m.AddMapping(pa / FRAME_SIZE);
    }

    /** `PageTable::unmap`; a leaf that names no frame of the table stops the kernel. */
    method Unmap(va: nat, ghost nodes: Forest) returns (r: Result)
      requires Valid(nodes) && va < WORD
      modifies m
      ensures (m.View(), r) == Mapping.Unmap(old(m.View()), root, va)
      ensures Valid(nodes)
      ensures Space(m.ram, root) == if r.Ok? then Space(old(m.ram), root) - {va} else Space(old(m.ram), root)
    {
      hide Lookup, SeqInv, TreeInv, Index, Present, Huge, IsCanonical, And, Space, TableFrame, LeafFrame;
      SeqBasics(m.View());
      UnmapRefines(m.View(), nodes, root, va);
      UnmapShards(m.View(), root, va);
      if !IsCanonical(va) { return Err(NonCanonical); }
      if va % FRAME_SIZE != 0 { return Err(NotAligned); }
      var frame, level := root, 3;
      while level >= 1
        invariant 0 <= level <= 3 && m.View() == old(m.View())
        invariant FindTable(m.ram, root, 3, va) == FindTable(m.ram, frame, level, va)
        decreases level
      {
        var entry := Read(m.ram, frame, Index(va, level));
        if !Present(entry) { return Err(NotMapped); }
        if Huge(entry) { return Err(Conflict); }
        frame := TableFrame(entry);
        level := level - 1;
      }
      var entry := Read(m.ram, frame, Index(va, 0));
      if !Present(entry) { return Err(NotMapped); }
      m.ram := Write(m.ram, frame, Index(va, 0), 0);
      if LeafFrame(entry) < |m.owner| {
        var n := m.RemoveMapping(LeafFrame(entry));
      }
      return Ok;
    }

    /** `PageTable::translate`: the four levels written out. */
    method Translate(va: nat) returns (r: Option<nat>)
      ensures r == Mapping.Translate(m.ram, root, va)
    {
      hide Present, Huge, IsCanonical, Index, And, TableFrame, Read;
      if !IsCanonical(va) { return None; }
      var e0 := Read(m.ram, root, Index(va, 3));
      if !Present(e0) { return None; }
      assert Lookup(m.ram, root, 3, va) == Lookup(m.ram, TableFrame(e0), 2, va);
      var e1 := Read(m.ram, TableFrame(e0), Index(va, 2));
      if !Present(e1) { return None; }
      if Huge(e1) { return Some(And(e1, ADDR_MASK_1G) + And(va, 0x3fff_ffff)); }
      assert Lookup(m.ram, root, 3, va) == Lookup(m.ram, TableFrame(e1), 1, va);
      var e2 := Read(m.ram, TableFrame(e1), Index(va, 1));
      if !Present(e2) { return None; }
      if Huge(e2) { return Some(And(e2, ADDR_MASK_2M) + And(va, 0x1f_ffff)); }
      assert Lookup(m.ram, root, 3, va) == Lookup(m.ram, TableFrame(e2), 0, va);
      var e3 := Read(m.ram, TableFrame(e2), Index(va, 0));
      if !Present(e3) { return None; }
      return Some(And(e3, ADDR_MASK_4K) + And(va, 0xfff));
    }

    /** `map_window`; the end of the window is computed modulo 2^64. */
    method MapWindow(baseVa: nat, basePa: nat, bytes: nat, flags: nat, ghost nodes: Forest)
      returns (r: Result, ghost nodes': Forest)
      requires Valid(nodes)
      modifies m
      ensures (m.View(), r) == Windows.MapWindow(old(m.View()), root, baseVa, basePa, bytes, flags)
      ensures Valid(nodes')
    {
      hide Lookup, Descend, SeqInv, TreeInv, Index, Present, InWord, WindowEntry, WindowGrows, User, PageDone,
        SameSpace,
        Absent, WindowPages, WindowStep;
      nodes' := nodes;
      if bytes == 0 { return Ok, nodes; }
      if baseVa % LARGE_PAGE != 0 || basePa % LARGE_PAGE != 0 || bytes % LARGE_PAGE != 0 {
        return Err(NotAligned), nodes;
      }
      ghost var left: nat := WindowPages(baseVa, bytes);
      ghost var d := WindowLoop(m.View(), root, baseVa, basePa, left, flags);
      var va: nat, pa: nat := baseVa, basePa;
      var end := (baseVa + bytes) % WORD;
      PagesFill(baseVa, bytes);
      while va < end
        invariant Valid(nodes') && baseVa <= va && pa % LARGE_PAGE == 0
        invariant if left == 0 then end <= va else end == va + left * LARGE_PAGE
        invariant d == WindowLoop(m.View(), root, va, pa, left, flags)
        decreases left
      {
        ghost var s := m.View();
        ghost var forest := WindowStepExact(s, nodes', root, va, pa, flags);
        WindowValid(s, nodes', root, WindowStep(s, root, va, pa, flags).0, forest);
        r := StoreLarge(va, pa, flags, nodes');
        nodes' := forest;
        if r.Err? { return; }
        va, pa := va + LARGE_PAGE, pa + LARGE_PAGE;
        left := left - 1;
      }
      r := Ok;
    }

    /** The body of the loop of `map_window`. */
    method StoreLarge(va: nat, pa: nat, flags: nat, ghost nodes: Forest) returns (r: Result)
      requires Valid(nodes)
      modifies m
      ensures (m.View(), r) == WindowStep(old(m.View()), root, va, pa, flags)
    {
      hide Lookup, Descend, SeqInv, TreeInv, Index, Present, WindowEntry;
      var table;
      r, table := Walk(va, 2, 0, nodes);
      if r.Err? { return; }
      if Present(Read(m.ram, table, Index(va, 1))) { return Err(Conflict); }
      m.ram := Write(m.ram, table, Index(va, 1), WindowEntry(pa, flags));
    }
  }

  /** `PageTable::new` */
  method NewSpace(m: Machine, ghost nodes: Forest) returns (r: Option<PageTable>)
    requires VmInv(m.View(), nodes) && |m.shards| == SHARD_COUNT
    modifies m
    ensures m.View() == NewTable(old(m.View())).0
    ensures match NewTable(old(m.View())).1
            case None => r.None?
            case Some(root) =>
              && r.Some? && fresh(r.value) && r.value.m == m && r.value.root == root && root !in nodes
              && r.value.Valid(nodes[root := Node(root, [], 0)])
              && Space(m.ram, root) == imap[]
  {
    hide Lookup, Alloc, SeqInv, TreeInv, IsPage;
    if NewTable(m.View()).1.Some? { NewTableEmpty(m.View(), nodes); }
    var root := m.AllocFrame();
    if root.None? { return None; }
    m.ram := Zeroed(m.ram, root.value);
    var table := new PageTable(m, root.value);
    return Some(table);
  }

  /** `PageTable::new_kernel` */
  method NewKernelSpace(m: Machine, ramEnd: nat, physmap: nat, ghost nodes: Forest) returns (r: Option<PageTable>)
    requires VmInv(m.View(), nodes) && |m.shards| == SHARD_COUNT && KernelArguments(ramEnd, physmap)
    modifies m
    ensures m.View() == NewKernel(old(m.View()), ramEnd, physmap).0
    ensures match NewKernel(old(m.View()), ramEnd, physmap).1
            case None => r.None?
            case Some(root) =>
              && r.Some? && fresh(r.value) && r.value.m == m && r.value.root == root
              && (physmap + AlignUp(ramEnd, LARGE_PAGE) < WORD ==>
                    TwoWindows(m.ram, root, physmap, AlignUp(ramEnd, LARGE_PAGE)))
  {
    hide Lookup, Alloc, SeqInv, TreeInv, AlignUp, TwoWindows, NewTable, Windows.MapWindow, WindowGrows, User, InWord;
    ghost var s := m.View();
    if NewTable(s).1.Some? { ghost var n := NewKernelExact(s, nodes, ramEnd, physmap); }
    r := NewSpace(m, nodes);
    if r.None? { return; }
    var table := r.value;
    ghost var nodes0 := nodes[table.root := Node(table.root, [], 0)];
    var window := AlignUp(ramEnd, LARGE_PAGE);
    KernelFlags();
    var done;
    ghost var nodes1;
    done, nodes1 := table.MapWindow(0, 0, window, KERNEL_FLAGS, nodes0);
    if done.Err? { return None; }
    done, nodes1 := table.MapWindow(physmap, 0, window, KERNEL_FLAGS, nodes1);
    if done.Err? { return None; }
    return Some(table);
  }

  // ---------- small facts ----------

  lemma StartOfWalk(s: State, nodes: Forest, root: nat, va: nat, user: nat)
    requires VmInv(s, nodes) && |s.shards| == SHARD_COUNT && IsRoot(nodes, root) && (user == 0 || user == PTE_USER)
    ensures DescentAt(s, nodes, root, root, va, 3, user)
  {
    assert Path(va)[..0] == [];
  }

  lemma MapShards(s: State, nodes: Forest, root: nat, va: nat, pa: nat, flags: nat, nodes': Forest)
    requires Pmm.Valid(s) && IsRoot(nodes, root)
    requires OnlyTablesGrow(s, nodes, Mapping.Map(s, root, va, pa, flags).0, nodes')
    ensures |Mapping.Map(s, root, va, pa, flags).0.shards| == SHARD_COUNT && IsRoot(nodes', root)
  {
    hide SeqInv, TreeInv, Descend;
  }

  lemma UnmapShards(s: State, root: nat, va: nat)
    requires Pmm.Valid(s)
    ensures |Mapping.Unmap(s, root, va).0.shards| == SHARD_COUNT
  {
  }

  lemma WindowValid(s: State, nodes: Forest, root: nat, s': State, nodes': Forest)
    requires WindowGrows(s, nodes, root, s', nodes')
    ensures VmInv(s', nodes') && |s'.shards| == SHARD_COUNT && IsRoot(nodes', root)
  {
  }

  /** The pages of a window whose end does not wrap fill it; one whose end wraps has none. */
  lemma PagesFill(va: nat, bytes: nat)
    requires va % LARGE_PAGE == 0 && bytes % LARGE_PAGE == 0
    ensures var end, pages := (va + bytes) % WORD, WindowPages(va, bytes);
            if pages == 0 then end <= va else end == va + pages * LARGE_PAGE
  {
    var n := (va + bytes) / LARGE_PAGE;
    assert (va + bytes) % LARGE_PAGE == 0;
    WordOfPages(n);
  }

  lemma WordOfPages(n: nat)
    ensures n * LARGE_PAGE % WORD % LARGE_PAGE == 0
  {
    var m := WORD / LARGE_PAGE;
    assert m * LARGE_PAGE == WORD;
    var q, r := n / m, n % m;
    assert n * LARGE_PAGE == q * WORD + r * LARGE_PAGE;
    DivUnique(n * LARGE_PAGE, WORD, q, r * LARGE_PAGE);
    DivUnique(r * LARGE_PAGE, LARGE_PAGE, r, 0);
  }
}
