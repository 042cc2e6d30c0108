/**
 Who may use a window (`kernel/src/vmm.rs`).  Unlike `map`, `map_window` does not open the tables
 above a leaf with USER, so whether the user gets at the window depends on who built those tables.
 */
module WindowAccess {
  import opened Frames
  import opened Pmm
  import opened Census
  import opened PageEntries
  import opened PageTree
  import opened Vmm
  import opened FrameAlloc
  import opened Growth
  import opened Bits
  import opened Mapping
  import opened Windows

  /** Hanging a new table writes no table but the one it is hung in. */
  lemma HangElsewhere(s: State, nodes: Forest, f: nat, i: nat, g: nat, j: nat)
    requires VmInv(s, nodes) && f in nodes && i < ENTRIES && g in nodes && Alloc(s).1.Some? && |s.shards| > 0
    ensures var (s1, r) := Alloc(s);
            Read(Hang(s1, f, i, r.value, 0).ram, g, j) ==
            if g == f && j == i then TableEntry(r.value, 0) else Read(s.ram, g, j)
  {
    hide SeqInv, Alloc, TableEntry;
    FreshFrame(s, nodes);
    assert NodeOk(s.ram, nodes, f) && NodeOk(s.ram, nodes, g);
    var (s1, r) := Alloc(s);
    ReadOfWrite(Zeroed(s1.ram, r.value), f, i, TableEntry(r.value, 0), g, j);
  }

  /** A descent for the kernel leaves the tables above its start alone. */
  lemma {:induction false} DescendBelow(s: State, nodes: Forest, root: nat, frame: nat, va: nat, level: nat, stop: nat,
                                        g: nat, j: nat)
    requires DescentAt(s, nodes, root, frame, va, level, 0) && 1 <= stop <= level + 1
    requires g in nodes && Level(nodes[g]) > level
    ensures Read(Descend(s, frame, va, level, stop, 0).state.ram, g, j) == Read(s.ram, g, j)
    decreases level
  {
    hide VmInv, Evolves, Alloc, Hang, SetEntry, OnWalk, EntryTo, Index, Present, Huge, TableFrame, Read, Place;
    var i := Index(va, level);
    var e := Read(s.ram, frame, i);
    if level >= stop && !Present(e) {
      var (s1, r) := Alloc(s);
      if r.Some? {
        GrowsBelow(s, nodes, root, frame, va, level, g, j);
        DescendBelow(Hang(s1, frame, i, r.value, 0), nodes[r.value := Place(nodes, frame, i)], root, r.value, va,
          level - 1, stop, g, j);
      } else {
        AllocFails(s, nodes);
      }
    } else if level >= stop && !Huge(e) {
      DescendFollow(s, nodes, root, frame, va, level);
      DescendBelow(s, nodes, root, TableFrame(e), va, level - 1, stop, g, j);
    }
  }

  lemma AllocFails(s: State, nodes: Forest)
    requires VmInv(s, nodes) && |s.shards| > 0 && Alloc(s).1.None?
    ensures Alloc(s).0 == s
  {
    hide SeqInv, TreeInv, Alloc;
    AllocExact(s);
  }

  /** One table hung at `frame`: what the tables hold afterwards, and where the descent goes on. */
  lemma GrowsBelow(s: State, nodes: Forest, root: nat, frame: nat, va: nat, level: nat, g: nat, j: nat)
    requires DescentAt(s, nodes, root, frame, va, level, 0) && level > 0 && g in nodes
    requires !Present(Read(s.ram, frame, Index(va, level))) && Alloc(s).1.Some?
    ensures var (s1, r) := Alloc(s);
            var i := Index(va, level);
            var s2, nodes2 := Hang(s1, frame, i, r.value, 0), nodes[r.value := Place(nodes, frame, i)];
            && DescentAt(s2, nodes2, root, r.value, va, level - 1, 0)
            && frame in nodes2 && nodes2[frame] == nodes[frame] && g in nodes2 && nodes2[g] == nodes[g]
            && Read(s2.ram, g, j) == (if g == frame && j == i then TableEntry(r.value, 0) else Read(s.ram, g, j))
            && !User(TableEntry(r.value, 0))
  {
    hide SeqInv, TreeInv, Alloc, TableEntry, OnWalk, EntryTo, Index, Present, Huge, TableFrame, Read, Hang, User,
      Place;
    PathBound(va);
    DescendGrow(s, nodes, root, frame, va, level, 0);
    HangElsewhere(s, nodes, frame, Index(va, level), g, j);
    FreshFrame(s, nodes);
    TableEntryFields(Alloc(s).1.value, 0);
  }

  /** A descent for the kernel opens nothing: what it passes was open before. */
  lemma {:induction false} DescendOpensNothing(s: State, nodes: Forest, root: nat, frame: nat, va: nat, level: nat,
                                               stop: nat)
    requires DescentAt(s, nodes, root, frame, va, level, 0) && 1 <= stop <= level + 1
    ensures var d := Descend(s, frame, va, level, stop, 0);
            d.Reached? ==> (TablesOpen(d.state.ram, frame, level, stop, va)
                            <==> TablesOpen(s.ram, frame, level, stop, va))
    decreases level
  {
    hide VmInv, Evolves, Alloc, Hang, SetEntry, OnWalk, EntryTo, Index, Present, Huge, TableFrame, Read, Place,
      User, TableEntry;
    var i := Index(va, level);
    var e := Read(s.ram, frame, i);
    if level >= stop && !Present(e) {
      var (s1, r) := Alloc(s);
      if r.Some? {
        GrowsBelow(s, nodes, root, frame, va, level, frame, i);
        DescendBelow(Hang(s1, frame, i, r.value, 0), nodes[r.value := Place(nodes, frame, i)], root, r.value, va,
          level - 1, stop, frame, i);
      }
    } else if level >= stop && !Huge(e) {
      DescendFollow(s, nodes, root, frame, va, level);
      DescendBelow(s, nodes, root, TableFrame(e), va, level - 1, stop, frame, i);
      DescendOpensNothing(s, nodes, root, TableFrame(e), va, level - 1, stop);
    }
  }

  /** Access on a whole walk is open tables down to the one at level 1, and access from there. */
  lemma AccessAt(ram: Ram, nodes: Forest, t: nat, va: nat)
    requires TreeInv(ram, nodes) && t in nodes && OnWalk(nodes[t], nodes[t].root, va) && |nodes[t].path| == 2
    ensures var root := nodes[t].root;
            UserWalk(ram, root, 3, va) <==> TablesOpen(ram, root, 3, 2, va) && UserWalk(ram, t, 1, va)
  {
    hide TreeInv, Index, Present, Huge, TableFrame, OnWalk, Read, User;
    var p := nodes[t].parent;
    NodePlace(ram, nodes, t, va);
    NodePlace(ram, nodes, p, va);
    NodePlace(ram, nodes, nodes[p].parent, va);
    assert TablesOpen(ram, t, 1, 2, va);
    assert TablesOpen(ram, p, 2, 2, va) <==> User(Read(ram, p, Index(va, 2)));
  }

  /** Writing the table at level 1 closes and opens nothing above it. */
  lemma LeafOpensNothing(ram: Ram, nodes: Forest, t: nat, i: nat, w: nat, va: nat)
    requires TreeInv(ram, nodes) && t in nodes && OnWalk(nodes[t], nodes[t].root, va) && |nodes[t].path| == 2
    ensures TablesOpen(Write(ram, t, i, w), nodes[t].root, 3, 2, va) <==> TablesOpen(ram, nodes[t].root, 3, 2, va)
  {
    hide TreeInv, Index, Present, Huge, TableFrame, OnWalk, User, Write, Read;
    var ram' := Write(ram, t, i, w);
    var p := nodes[t].parent;
    NodePlace(ram, nodes, t, va);
    NodePlace(ram, nodes, p, va);
    var root := nodes[p].parent;
    NodePlace(ram, nodes, root, va);
    EntryOf(ram, t, i, w, p, Index(va, 2));
    EntryOf(ram, t, i, w, root, Index(va, 3));
    assert TablesOpen(ram, t, 1, 2, va) && TablesOpen(ram', t, 1, 2, va);
    assert TablesOpen(ram, p, 2, 2, va) <==> TablesOpen(ram', p, 2, 2, va);
  }

  lemma {:induction false} OpenSamePage(ram: Ram, frame: nat, level: nat, va: nat, a: nat)
    requires level <= 3 && forall k :: 2 <= k <= 3 ==> Index(a, k) == Index(va, k)
    ensures TablesOpen(ram, frame, level, 2, a) <==> TablesOpen(ram, frame, level, 2, va)
    decreases level
  {
    hide Index, Present, TableFrame, Read, User;
    if level >= 2 { OpenSamePage(ram, TableFrame(Read(ram, frame, Index(va, level))), level - 1, va, a); }
  }

  /**
   After a successful iteration of `map_window` the user gets at the new large page if and only if
   the flags have USER and both tables above it were there before, and open.
   */
  lemma WindowUserExact(s: State, nodes: Forest, root: nat, va: nat, pa: nat, flags: nat, a: nat)
    requires VmInv(s, nodes) && |s.shards| == SHARD_COUNT && IsRoot(nodes, root) && pa % LARGE_PAGE == 0
    requires InWord(va) && InWord(a) && a / LARGE_PAGE == va / LARGE_PAGE
    requires WindowStep(s, root, va, pa, flags).1.Ok?
    ensures UserWalk(WindowStep(s, root, va, pa, flags).0.ram, root, 3, a) <==>
              User(flags) && TablesOpen(s.ram, root, 3, 2, va)
  {
    hide SeqInv, TreeInv, Lookup, Descend, Index, WindowEntry, Present, Huge, User, IsCanonical, UserWalk,
      TablesOpen, Read;
    assert Path(va)[..0] == [];
    var nodes' := DescendKeeps(s, nodes, root, root, va, 3, 2, 0);
    var d := Descend(s, root, va, 3, 2, 0);
    DescendOpensNothing(s, nodes, root, root, va, 3, 2);
    PageAccess(d.state, nodes', root, d.table, va, pa, flags, a);
  }

  lemma PageAccess(s: State, nodes: Forest, root: nat, t: nat, va: nat, pa: nat, flags: nat, a: nat)
    requires VmInv(s, nodes) && |s.shards| == SHARD_COUNT && IsRoot(nodes, root) && pa % LARGE_PAGE == 0
    requires InWord(va) && InWord(a) && a / LARGE_PAGE == va / LARGE_PAGE
    requires t in nodes && |nodes[t].path| == 2 && OnWalk(nodes[t], root, va)
    requires !Present(Read(s.ram, t, Index(va, 1)))
    ensures UserWalk(SetEntry(s, t, Index(va, 1), WindowEntry(pa, flags)).ram, root, 3, a) <==>
              User(flags) && TablesOpen(s.ram, root, 3, 2, va)
  {
    hide SeqInv, TreeInv, Lookup, Index, WindowEntry, Present, Huge, User, IsCanonical, TablesOpen, InWord,
      WindowGrows;
    var i, w := Index(va, 1), WindowEntry(pa, flags);
    var ram' := Write(s.ram, t, i, w);
    PathBound(va);
    SameLargePage(a, va);
    assert Path(a)[..2] == Path(va)[..2];
    WindowEntryBits(pa, flags);
    TableWrite(s, nodes, t, i, w);
    ReadOfWrite(s.ram, t, i, w, t, i);
    AccessAt(ram', nodes, t, a);
    OpenSamePage(ram', root, 3, va, a);
    LeafOpensNothing(s.ram, nodes, t, i, w, va);
  }

  /** On a new root with two Free frames left, a USER page is mapped and the user cannot get at it. */
  lemma FreshUserPageShut(s: State, nodes: Forest, va: nat, pa: nat, flags: nat)
    requires VmInv(s, nodes) && |s.shards| == SHARD_COUNT && NewTable(s).1.Some?
    requires InWord(va) && pa % LARGE_PAGE == 0 && User(flags)
    requires CountFree(NewTable(s).0.owner) >= 2
    ensures var (s0, root) := NewTable(s);
            var (s', r) := WindowStep(s0, root.value, va, pa, flags);
            && r.Ok? && !UserWalk(s'.ram, root.value, 3, va)
            && Lookup(s'.ram, root.value, 3, va) == Some(Leaf(1, WindowEntry(pa, flags)))
            && User(WindowEntry(pa, flags))
  {
    hide TreeInv, Lookup, NewTable, WindowStep, WindowEntry, User, InWord, UserWalk, WindowGrows, VmInv;
    NewTableEmpty(s, nodes);
    var (s0, r) := NewTable(s);
    var root := r.value;
    var nodes0 := nodes[root := Node(root, [], 0)];
    FreshShut(s0.ram, root, va);
    var nodes' := WindowStepExact(s0, nodes0, root, va, pa, flags);
    WindowUserExact(s0, nodes0, root, va, pa, flags, va);
    WindowEntryBits(pa, flags);
  }

  lemma FreshShut(ram: Ram, root: nat, va: nat)
    requires ZeroTable(ram, root)
    ensures Absent(ram, root, 3, 2, va) == 2 && Absent(ram, root, 3, 1, va) == 3 && !TablesOpen(ram, root, 3, 2, va)
  {
    hide Present;
    PathBound(va);
    ZeroNotPresent();
  }

  // ---------- what `map` opens ----------

  /** Writing the table at level 0 closes and opens nothing above it. */
  lemma PageOpensNothing(ram: Ram, nodes: Forest, t: nat, i: nat, w: nat, va: nat)
    requires TreeInv(ram, nodes) && t in nodes && OnWalk(nodes[t], nodes[t].root, va) && |nodes[t].path| == 3
    ensures TablesOpen(Write(ram, t, i, w), nodes[t].root, 3, 1, va) <==> TablesOpen(ram, nodes[t].root, 3, 1, va)
  {
    hide TreeInv, Index, Present, Huge, TableFrame, OnWalk, User, Write, Read;
    var ram' := Write(ram, t, i, w);
    var p := nodes[t].parent;
    NodePlace(ram, nodes, t, va);
    NodePlace(ram, nodes, p, va);
    var q := nodes[p].parent;
    NodePlace(ram, nodes, q, va);
    var root := nodes[q].parent;
    NodePlace(ram, nodes, root, va);
    EntryOf(ram, t, i, w, p, Index(va, 1));
    EntryOf(ram, t, i, w, q, Index(va, 2));
    EntryOf(ram, t, i, w, root, Index(va, 3));
    assert TablesOpen(ram, t, 0, 1, va) && TablesOpen(ram', t, 0, 1, va);
    assert TablesOpen(ram, p, 1, 1, va) <==> TablesOpen(ram', p, 1, 1, va);
    assert TablesOpen(ram, q, 2, 1, va) <==> TablesOpen(ram', q, 2, 1, va);
  }

  /** Access to a 4 KiB page needs all tables above it open. */
  lemma {:induction false} AccessOpens(ram: Ram, frame: nat, level: nat, va: nat)
    requires UserWalk(ram, frame, level, va) && Lookup(ram, frame, level, va).Some?
    requires Lookup(ram, frame, level, va).value.level == 0
    ensures TablesOpen(ram, frame, level, 1, va)
    decreases level
  {
    hide Index, Present, Huge, TableFrame, Read, User;
    if level > 0 { AccessOpens(ram, TableFrame(Read(ram, frame, Index(va, level))), level - 1, va); }
  }

  /**
   A successful `map` opens the tables above its page to the user if the flags have USER, and otherwise
   leaves them as they were.
   */
  lemma MapOpens(s: State, nodes: Forest, root: nat, va: nat, pa: nat, flags: nat)
    requires VmInv(s, nodes) && Valid(s) && IsRoot(nodes, root) && va < WORD && Map(s, root, va, pa, flags).1.Ok?
    ensures TablesOpen(Map(s, root, va, pa, flags).0.ram, root, 3, 1, va) <==>
              User(flags) || TablesOpen(s.ram, root, 3, 1, va)
  {
    hide SeqInv, TreeInv, Lookup, Descend, Index, LeafEntry, Present, Huge, User, IsCanonical, UserWalk, Bit,
      TablesOpen, Evolves, Read, And;
    if User(flags) {
      MapRights(s, nodes, root, va, pa, flags, 0);
      EntryBits(flags);
      MapEntryExact(s, nodes, root, va, pa, flags, 0);
      AccessOpens(Map(s, root, va, pa, flags).0.ram, root, 3, va);
    } else {
      UserFlag(flags);
      assert Path(va)[..0] == [];
      var nodes' := DescendKeeps(s, nodes, root, root, va, 3, 1, 0);
      var d := Descend(s, root, va, 3, 1, 0);
      DescendOpensNothing(s, nodes, root, root, va, 3, 1);
      DescentTree(s, nodes, d, nodes');
      PageOpensNothing(d.state.ram, nodes', d.table, Index(va, 0), LeafEntry(pa, flags), va);
    }
  }

  lemma DescentTree(s: State, nodes: Forest, d: Descent, nodes': Forest)
    requires Evolves(s, nodes, d.state, nodes')
    ensures TreeInv(d.state.ram, nodes')
  {
  }
}
