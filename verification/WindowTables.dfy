/**
 What `map_window` and `new_kernel` need (`kernel/src/vmm.rs`): one frame for every 1 GiB and every
 512 GiB block that the windows touch and that has no table yet.
 */
module WindowTables {
  import opened Bits
  import opened Pmm
  import opened FrameAlloc
  import opened Census
  import opened PageEntries
  import opened PageTree
  import opened Vmm
  import opened Growth
  import opened Windows
  import opened WindowAccess

  const TOP_BLOCK: nat := 0x80_0000_0000 // what one entry of the root spans
  const MID_BLOCK: nat := 0x4000_0000 // what one entry of the next table spans

  // ---------- which entries are there ----------

  /** The entry for `a` at level `k`, or a huge one above it, is present. */
  predicate Have(ram: Ram, root: nat, a: nat, k: nat)
    requires k >= 1
  {
    Absent(ram, root, 3, k, a) == 0
  }

  /** Walks for `a` and `b` read the same entries down to level `k`. */
  predicate SamePrefix(a: nat, b: nat, k: nat) {
    && (k <= 3 ==> Index(a, 3) == Index(b, 3))
    && (k <= 2 ==> Index(a, 2) == Index(b, 2))
    && (k <= 1 ==> Index(a, 1) == Index(b, 1))
  }

  /** What is absent from the root is what is absent from any table on the walk. */
  lemma {:induction false} AbsentFromNode(ram: Ram, nodes: Forest, t: nat, a: nat, k: nat)
    requires TreeInv(ram, nodes) && t in nodes && OnWalk(nodes[t], nodes[t].root, a)
    requires 1 <= k <= Level(nodes[t])
    ensures Absent(ram, nodes[t].root, 3, k, a) == Absent(ram, t, Level(nodes[t]), k, a)
    decreases |nodes[t].path|
  {
    hide TreeInv, Index, Present, Huge, TableFrame, OnWalk, Read;
    NodePlace(ram, nodes, t, a);
    if nodes[t].path != [] { AbsentFromNode(ram, nodes, nodes[t].parent, a, k); }
  }

  /** Memories that agree on the entries of a walk down to level `k` lack the same tables there. */
  lemma {:induction false} AbsentAlike(ram: Ram, ram': Ram, nodes: Forest, frame: nat, level: nat, k: nat, a: nat)
    requires TreeInv(ram, nodes) && frame in nodes && Level(nodes[frame]) == level && k >= 1
    requires OnWalk(nodes[frame], nodes[frame].root, a)
    requires forall g :: g in nodes && OnWalk(nodes[g], nodes[frame].root, a) && Level(nodes[g]) >= k ==>
               Read(ram', g, Slot(nodes[g], a)) == Read(ram, g, Slot(nodes[g], a))
    ensures Absent(ram', frame, level, k, a) == Absent(ram, frame, level, k, a)
    decreases level
  {
    hide TreeInv, Index, Present, Huge, TableFrame, OnWalk, Read;
    if level >= k {
      var e := Read(ram, frame, Index(a, level));
      assert Slot(nodes[frame], a) == Index(a, level);
      if Present(e) {
        WalkDown(ram, nodes, frame, level, a);
        if !Huge(e) { AbsentAlike(ram, ram', nodes, TableFrame(e), level - 1, k, a); }
      }
    }
  }

  /** `ram'` differs on the tables only in the entry `(f, i)`, which is `w`. */
  ghost predicate Filled(ram: Ram, ram': Ram, nodes: Forest, f: nat, i: nat, w: nat) {
    forall g, j: nat :: g in nodes ==> Read(ram', g, j) == if g == f && j == i then w else Read(ram, g, j)
  }

  /** Filling a vacant entry, by a huge leaf or an empty table, adds that entry and no other. */
  lemma FillExact(ram: Ram, nodes: Forest, ram': Ram, nodes': Forest, root: nat, f: nat, va: nat, w: nat, a: nat,
                  k: nat)
    requires TreeInv(ram, nodes) && TreeInv(ram', nodes') && IsRoot(nodes, root)
    requires f in nodes && f in nodes' && nodes'[f] == nodes[f] && OnWalk(nodes[f], root, va)
    requires 1 <= Level(nodes[f]) <= 3 && 1 <= k <= 3
    requires !Present(Read(ram, f, Slot(nodes[f], va))) && Present(w)
    requires if Huge(w) then Level(nodes[f]) == 1 else ZeroTable(ram', TableFrame(w))
    requires Filled(ram, ram', nodes, f, Slot(nodes[f], va), w)
    ensures Have(ram', root, a, k) <==>
              Have(ram, root, a, k) || (k == Level(nodes[f]) && SamePrefix(a, va, k))
  {
    hide TreeInv, Index, Present, Huge, TableFrame, Read, ZeroTable, Absent;
    var level := Level(nodes[f]);
    PrefixIsWalk(nodes[f], root, va, a);
    if k <= level && SamePrefix(a, va, level) {
      AbsentFromNode(ram, nodes, f, a, k);
      AbsentFromNode(ram', nodes', f, a, k);
      AbsentFilled(ram, ram', f, level, k, a, w);
    } else {
      assert Path(a)[..0] == [];
      AbsentAlike(ram, ram', nodes, root, 3, k, a);
    }
  }

  /** The walk for `a` passes through the entry that the walk for `va` reads in the table of `n`. */
  lemma PrefixIsWalk(n: Node, root: nat, va: nat, a: nat)
    requires OnWalk(n, root, va) && 1 <= Level(n) <= 3
    ensures SamePrefix(a, va, Level(n)) <==> OnWalk(n, root, a) && Slot(n, a) == Slot(n, va)
  {
    hide Index;
    var m := |n.path|;
    if SamePrefix(a, va, Level(n)) { assert Path(a)[..m] == Path(va)[..m]; }
    if OnWalk(n, root, a) {
      assert m > 0 ==> Path(a)[0] == n.path[0] == Path(va)[0];
      assert m > 1 ==> Path(a)[1] == n.path[1] == Path(va)[1];
    }
  }

  lemma AbsentFilled(ram: Ram, ram': Ram, f: nat, level: nat, k: nat, a: nat, w: nat)
    requires 1 <= k <= level <= 3 && !Present(Read(ram, f, Index(a, level)))
    requires Read(ram', f, Index(a, level)) == w && Present(w)
    requires if Huge(w) then level == 1 else ZeroTable(ram', TableFrame(w))
    ensures Absent(ram, f, level, k, a) > 0
    ensures Absent(ram', f, level, k, a) == 0 <==> k == level
  {
    hide Index, Present, Huge, TableFrame, Read;
    if !Huge(w) { EmptyBelow(ram', TableFrame(w), level - 1, k, a); }
  }

  lemma EmptyBelow(ram: Ram, g: nat, level: nat, k: nat, a: nat)
    requires ZeroTable(ram, g) && 1 <= k <= level + 1 <= 4
    ensures Absent(ram, g, level, k, a) == level + 1 - k
  {
    hide Index, Present;
    PathBound(a);
    ZeroNotPresent();
  }

  // ---------- one iteration ----------

  /** A descent adds the entries on its way and no other. */
  lemma {:induction false} DescendAdds(s: State, nodes: Forest, root: nat, frame: nat, va: nat, level: nat, stop: nat,
                                       a: nat, k: nat)
    requires DescentAt(s, nodes, root, frame, va, level, 0) && 1 <= stop <= level + 1 <= 4 && 1 <= k <= 3
    ensures var d := Descend(s, frame, va, level, stop, 0);
            d.Reached? ==> (Have(d.state.ram, root, a, k) <==>
                              Have(s.ram, root, a, k) || (stop <= k <= level && SamePrefix(a, va, k)))
    decreases level
  {
    hide VmInv, Evolves, Alloc, Hang, OnWalk, EntryTo, Index, Present, Huge, TableFrame, Read, Place, Have,
      SamePrefix;
    var i := Index(va, level);
    var e := Read(s.ram, frame, i);
    if level >= stop && !Present(e) {
      var (s1, r) := Alloc(s);
      if r.Some? {
        HangAdds(s, nodes, root, frame, va, level, a, k);
        DescendAdds(Hang(s1, frame, i, r.value, 0), nodes[r.value := Place(nodes, frame, i)], root, r.value, va,
          level - 1, stop, a, k);
      }
    } else if level >= stop && !Huge(e) {
      DescendFollow(s, nodes, root, frame, va, level);
      DescendAdds(s, nodes, root, TableFrame(e), va, level - 1, stop, a, k);
      if SamePrefix(a, va, level) { HaveThere(s, nodes, root, frame, va, level, a); }
    }
  }

  lemma HaveThere(s: State, nodes: Forest, root: nat, frame: nat, va: nat, level: nat, a: nat)
    requires DescentAt(s, nodes, root, frame, va, level, 0) && 1 <= level <= 3
    requires Present(Read(s.ram, frame, Index(va, level))) && SamePrefix(a, va, level)
    ensures Have(s.ram, root, a, level)
  {
    hide SeqInv, TreeInv, Index, Present, Huge, TableFrame, Read, Absent;
    PrefixIsWalk(nodes[frame], root, va, a);
    AbsentFromNode(s.ram, nodes, frame, a, level);
    AbsentHere(s.ram, frame, level, a);
  }

  lemma HangAdds(s: State, nodes: Forest, root: nat, frame: nat, va: nat, level: nat, a: nat, k: nat)
    requires DescentAt(s, nodes, root, frame, va, level, 0) && 1 <= level <= 3 && 1 <= k <= 3
    requires !Present(Read(s.ram, frame, Index(va, level))) && Alloc(s).1.Some?
    ensures var (s1, r) := Alloc(s);
            var i := Index(va, level);
            var s2, nodes2 := Hang(s1, frame, i, r.value, 0), nodes[r.value := Place(nodes, frame, i)];
            && DescentAt(s2, nodes2, root, r.value, va, level - 1, 0)
            && (Have(s2.ram, root, a, k) <==> Have(s.ram, root, a, k) || (k == level && SamePrefix(a, va, k)))
  {
    hide SeqInv, TreeInv, Alloc, TableEntry, EntryTo, Index, Present, Huge, TableFrame, Read, Hang, Place, OnWalk, Have,
      SamePrefix;
    PathBound(va);
    DescendGrow(s, nodes, root, frame, va, level, 0);
    FreshFrame(s, nodes);
    var (s1, r) := Alloc(s);
    var g, i := r.value, Index(va, level);
    var s2, nodes2 := Hang(s1, frame, i, g, 0), nodes[g := Place(nodes, frame, i)];
    TableEntryFields(g, 0);
    forall h, j: nat | h in nodes
      ensures Read(s2.ram, h, j) == if h == frame && j == i then TableEntry(g, 0) else Read(s.ram, h, j)
    {
      HangElsewhere(s, nodes, frame, i, h, j);
    }
    HungZero(s, nodes, frame, i);
    FillExact(s.ram, nodes, s2.ram, nodes2, root, frame, va, TableEntry(g, 0), a, k);
  }

  lemma HungZero(s: State, nodes: Forest, frame: nat, i: nat)
    requires VmInv(s, nodes) && frame in nodes && |s.shards| > 0 && Alloc(s).1.Some?
    ensures var (s1, r) := Alloc(s); ZeroTable(Hang(s1, frame, i, r.value, 0).ram, r.value)
  {
    hide SeqInv, TreeInv, Alloc;
    GrownElsewhere(s, nodes, frame);
    AllocCounts(s);
    var (s1, r) := Alloc(s);
    HungIsZero(s1, frame, i, r.value, 0);
  }

  /** A successful iteration adds the entries for its page and no other, and takes a frame for each absent table. */
  lemma StepAdds(s: State, nodes: Forest, root: nat, va: nat, pa: nat, flags: nat, a: nat, k: nat)
    requires VmInv(s, nodes) && |s.shards| == SHARD_COUNT && IsRoot(nodes, root) && pa % LARGE_PAGE == 0
    requires WindowStep(s, root, va, pa, flags).1.Ok? && 1 <= k <= 3
    ensures var s' := WindowStep(s, root, va, pa, flags).0;
            && (Have(s'.ram, root, a, k) <==> Have(s.ram, root, a, k) || SamePrefix(a, va, k))
            && CountFree(s'.owner) + Absent(s.ram, root, 3, 2, va) == CountFree(s.owner)
  {
    hide SeqInv, TreeInv, Lookup, Descend, Index, WindowEntry, Present, Huge, Read, Absent, SamePrefix, WindowGrows;
    assert Path(va)[..0] == [];
    var nodes' := DescendKeeps(s, nodes, root, root, va, 3, 2, 0);
    var d := Descend(s, root, va, 3, 2, 0);
    DescendAdds(s, nodes, root, root, va, 3, 2, a, k);
    DescendNeeds(s, nodes, root, root, va, 3, 2, 0);
    PageAdds(d.state, nodes', root, d.table, va, pa, flags, a, k);
  }

  lemma PageAdds(s: State, nodes: Forest, root: nat, t: nat, va: nat, pa: nat, flags: nat, a: nat, k: nat)
    requires VmInv(s, nodes) && |s.shards| == SHARD_COUNT && IsRoot(nodes, root) && pa % LARGE_PAGE == 0
    requires t in nodes && |nodes[t].path| == 2 && OnWalk(nodes[t], root, va) && 1 <= k <= 3
    requires !Present(Read(s.ram, t, Index(va, 1)))
    ensures var s' := SetEntry(s, t, Index(va, 1), WindowEntry(pa, flags));
            Have(s'.ram, root, a, k) <==> Have(s.ram, root, a, k) || (k == 1 && SamePrefix(a, va, 1))
  {
    hide SeqInv, TreeInv, Lookup, Index, WindowEntry, Present, Huge, Have, SamePrefix, User;
    var i, w := Index(va, 1), WindowEntry(pa, flags);
    PathBound(va);
    WindowEntryBits(pa, flags);
    TableWrite(s, nodes, t, i, w);
    forall g, j: nat | g in nodes
      ensures Read(Write(s.ram, t, i, w), g, j) == if g == t && j == i then w else Read(s.ram, g, j)
    {
      ReadOfWrite(s.ram, t, i, w, g, j);
    }
    FillExact(s.ram, nodes, Write(s.ram, t, i, w), nodes, root, t, va, w, a, k);
  }

  /** The tables that the first two levels lack. */
  lemma AbsentSplit(ram: Ram, nodes: Forest, root: nat, a: nat)
    requires TreeInv(ram, nodes) && IsRoot(nodes, root)
    ensures Absent(ram, root, 3, 2, a) ==
              (if Have(ram, root, a, 3) then 0 else 1) + (if Have(ram, root, a, 2) then 0 else 1)
    ensures Have(ram, root, a, 1) ==> Have(ram, root, a, 2) && Have(ram, root, a, 3)
  {
    hide Index, Present, Huge, TableFrame, Read;
    PathBound(a);
    assert EntryOk(ram, nodes, root, Index(a, 3));
    var e := Read(ram, root, Index(a, 3));
    if Present(e) {
      AbsentHere(ram, TableFrame(e), 2, a);
      assert Absent(ram, TableFrame(e), 2, 3, a) == 0;
      if Have(ram, root, a, 1) { AbsentAbove(ram, root, 3, 1, a); }
    }
  }

  // ---------- blocks of the address space ----------

  /** Which blocks have entries: of the root, of the tables below it, and large pages. */
  datatype Cover = Cover(tops: set<nat>, mids: set<nat>, pages: set<nat>)

  /** The tables below the root. */
  function Tables(c: Cover): nat {
    |c.tops| + |c.mids|
  }

  function Mark(c: Cover, va: nat): Cover {
    Cover(c.tops + {va / TOP_BLOCK}, c.mids + {va / MID_BLOCK}, c.pages + {va / LARGE_PAGE})
  }

  function MarkAll(c: Cover, va: nat, pages: nat): Cover
    decreases pages
  {
    if pages == 0 then c else MarkAll(Mark(c, va), va + LARGE_PAGE, pages - 1)
  }

  /** The address space at `root` has entries for exactly the blocks of `c`. */
  ghost predicate Covers(ram: Ram, root: nat, c: Cover) {
    forall a: nat :: InWord(a) ==>
      && (Have(ram, root, a, 3) <==> a / TOP_BLOCK in c.tops)
      && (Have(ram, root, a, 2) <==> a / MID_BLOCK in c.mids)
      && (Have(ram, root, a, 1) <==> a / LARGE_PAGE in c.pages)
  }

  lemma PrefixIsBlock(a: nat, b: nat)
    requires InWord(a) && InWord(b)
    ensures SamePrefix(a, b, 3) <==> a / TOP_BLOCK == b / TOP_BLOCK
    ensures SamePrefix(a, b, 2) <==> a / MID_BLOCK == b / MID_BLOCK
    ensures SamePrefix(a, b, 1) <==> a / LARGE_PAGE == b / LARGE_PAGE
  {
    hide Index, IsCanonical;
    SameLargePage(a, b);
    IndexValue(a); IndexValue(b);
    TopIndex(a); TopIndex(b);
    MidIndex(a); MidIndex(b);
  }

  /** In a canonical address the index into the root determines the block. */
  lemma TopIndex(a: nat)
    requires InWord(a)
    ensures a / TOP_BLOCK == if a / TOP_BLOCK % 512 < 256 then a / TOP_BLOCK % 512 else 0x1ff_fe00 + a / TOP_BLOCK % 512
  {
    hide IsCanonical;
    CanonicalRange(a);
    var q := a / TOP_BLOCK;
    if a < 0x8000_0000_0000 {
      DivUnique(q, 512, 0, q);
    } else {
      DivUnique(q, 512, 0xffff, q - 0x1ff_fe00);
    }
  }

  lemma MidIndex(a: nat)
    ensures a / MID_BLOCK == a / TOP_BLOCK * 512 + a / MID_BLOCK % 512
  {
    var q := a / MID_BLOCK;
    DivUnique(a, TOP_BLOCK, q / 512, q % 512 * MID_BLOCK + a % MID_BLOCK);
  }

  /** A successful iteration marks the blocks of its page, for one frame each that had no table. */
  lemma StepCovers(s: State, nodes: Forest, root: nat, va: nat, pa: nat, flags: nat, c: Cover)
    requires VmInv(s, nodes) && |s.shards| == SHARD_COUNT && IsRoot(nodes, root) && pa % LARGE_PAGE == 0
    requires InWord(va) && Covers(s.ram, root, c) && WindowStep(s, root, va, pa, flags).1.Ok?
    ensures var s' := WindowStep(s, root, va, pa, flags).0;
            && Covers(s'.ram, root, Mark(c, va))
            && CountFree(s'.owner) + Tables(Mark(c, va)) == CountFree(s.owner) + Tables(c)
  {
    hide VmInv, WindowStep, Have, SamePrefix, InWord;
    var s' := WindowStep(s, root, va, pa, flags).0;
    forall a: nat | InWord(a)
      ensures && (Have(s'.ram, root, a, 3) <==> a / TOP_BLOCK in Mark(c, va).tops)
              && (Have(s'.ram, root, a, 2) <==> a / MID_BLOCK in Mark(c, va).mids)
              && (Have(s'.ram, root, a, 1) <==> a / LARGE_PAGE in Mark(c, va).pages)
    {
      PrefixIsBlock(a, va);
      StepAdds(s, nodes, root, va, pa, flags, a, 3);
      StepAdds(s, nodes, root, va, pa, flags, a, 2);
      StepAdds(s, nodes, root, va, pa, flags, a, 1);
    }
    StepAdds(s, nodes, root, va, pa, flags, va, 3);
    StepNeeds(s, nodes, root, va, c);
  }

  /** Why an iteration succeeds, in terms of blocks. */
  lemma StepNeeds(s: State, nodes: Forest, root: nat, va: nat, c: Cover)
    requires VmInv(s, nodes) && IsRoot(nodes, root) && InWord(va) && Covers(s.ram, root, c)
    ensures Absent(s.ram, root, 3, 2, va) + Tables(c) == Tables(Mark(c, va))
    ensures Absent(s.ram, root, 3, 1, va) > 0 <==> va / LARGE_PAGE !in c.pages
  {
    hide TreeInv, InWord;
    AbsentSplit(s.ram, nodes, root, va);
    if va / TOP_BLOCK in c.tops { assert c.tops + {va / TOP_BLOCK} == c.tops; }
    if va / MID_BLOCK in c.mids { assert c.mids + {va / MID_BLOCK} == c.mids; }
  }

  // ---------- whole windows ----------

  /** No large page of the window is taken. */
  ghost predicate Untouched(c: Cover, va: nat, pages: nat) {
    forall p :: p in c.pages ==> !(va / LARGE_PAGE <= p < va / LARGE_PAGE + pages)
  }

  lemma {:induction false} MarkAllGrows(c: Cover, va: nat, pages: nat)
    ensures var c' := MarkAll(c, va, pages); c.tops <= c'.tops && c.mids <= c'.mids && Tables(c) <= Tables(c')
    decreases pages
  {
    if pages > 0 { MarkAllGrows(Mark(c, va), va + LARGE_PAGE, pages - 1); }
    var c' := MarkAll(c, va, pages);
    SubsetSize(c.tops, c'.tops);
    SubsetSize(c.mids, c'.mids);
  }

  lemma SubsetSize(a: set<nat>, b: set<nat>)
    requires a <= b
    ensures |a| <= |b|
  {
    assert b == a + (b - a);
  }

  lemma UntouchedStep(c: Cover, va: nat, pages: nat)
    requires pages > 0
    ensures Untouched(c, va, pages) <==>
              va / LARGE_PAGE !in c.pages && Untouched(Mark(c, va), va + LARGE_PAGE, pages - 1)
  {
    assert (va + LARGE_PAGE) / LARGE_PAGE == va / LARGE_PAGE + 1;
  }

  /**
   The loop of `map_window` gets through if and only if no page of the window is taken and there is
   a Free frame for every block that lacks a table; it takes exactly those frames.
   */
  lemma {:induction false} WindowLoopNeeds(s: State, nodes: Forest, root: nat, va: nat, pa: nat, pages: nat, flags: nat,
                                           c: Cover)
    requires VmInv(s, nodes) && |s.shards| == SHARD_COUNT && IsRoot(nodes, root) && Covers(s.ram, root, c)
    requires va % LARGE_PAGE == 0 && pa % LARGE_PAGE == 0
    requires forall a :: InWindow(a, va, pages) ==> InWord(a)
    ensures var (s', r) := WindowLoop(s, root, va, pa, pages, flags);
            var c' := MarkAll(c, va, pages);
            && (r.Ok? <==> Untouched(c, va, pages) && Tables(c') <= CountFree(s.owner) + Tables(c))
            && (r.Ok? ==>
                  Covers(s'.ram, root, c') && CountFree(s'.owner) + Tables(c') == CountFree(s.owner) + Tables(c))
    decreases pages
  {
    hide VmInv, WindowStep, InWord, Covers, Tables, Mark, Untouched;
    if pages == 0 {
      NoneTouched(c, va);
    } else {
      assert InWindow(va, va, pages);
      var nodes1 := StepFits(s, nodes, root, va, pa, flags, c);
      UntouchedStep(c, va, pages);
      MarkAllGrows(Mark(c, va), va + LARGE_PAGE, pages - 1);
      var (s1, r1) := WindowStep(s, root, va, pa, flags);
      if r1.Ok? {
        forall a | InWindow(a, va + LARGE_PAGE, pages - 1)
          ensures InWord(a)
        {
          assert InWindow(a, va, pages);
        }
        WindowLoopNeeds(s1, nodes1, root, va + LARGE_PAGE, pa + LARGE_PAGE, pages - 1, flags, Mark(c, va));
      }
    }
  }

  /** One iteration: when it succeeds, and what it leaves. */
  lemma StepFits(s: State, nodes: Forest, root: nat, va: nat, pa: nat, flags: nat, c: Cover) returns (nodes': Forest)
    requires VmInv(s, nodes) && |s.shards| == SHARD_COUNT && IsRoot(nodes, root) && Covers(s.ram, root, c)
    requires pa % LARGE_PAGE == 0 && InWord(va)
    ensures var (s', r) := WindowStep(s, root, va, pa, flags);
            && VmInv(s', nodes') && |s'.shards| == SHARD_COUNT && IsRoot(nodes', root)
            && (r.Ok? <==> va / LARGE_PAGE !in c.pages && Tables(Mark(c, va)) <= CountFree(s.owner) + Tables(c))
            && (r.Ok? ==>
                  && Covers(s'.ram, root, Mark(c, va))
                  && CountFree(s'.owner) + Tables(Mark(c, va)) == CountFree(s.owner) + Tables(c))
  {
    hide VmInv, WindowStep, InWord, Covers, Absent, Tables, Mark, WindowGrows, PageDone, SameSpace;
    nodes' := WindowStepExact(s, nodes, root, va, pa, flags);
    StepNeeds(s, nodes, root, va, c);
    var (s', r) := WindowStep(s, root, va, pa, flags);
    WindowCounts(s, nodes, root, s', nodes');
    if r.Ok? { StepCovers(s, nodes, root, va, pa, flags, c); }
  }

  lemma NoneTouched(c: Cover, va: nat)
    ensures Untouched(c, va, 0)
  {
  }

  // ---------- the kernel's address space ----------

  const NOTHING: Cover := Cover({}, {}, {})

  /** What the identity window alone needs, and what both windows need. */
  function IdentityCover(window: nat): Cover {
    MarkAll(NOTHING, 0, window / LARGE_PAGE)
  }

  function KernelCover(window: nat, physmap: nat): Cover {
    MarkAll(IdentityCover(window), physmap, window / LARGE_PAGE)
  }

  lemma FreshCovers(ram: Ram, root: nat)
    requires ZeroTable(ram, root)
    ensures Covers(ram, root, NOTHING)
  {
    hide InWord, Absent;
    forall a: nat | InWord(a)
      ensures !Have(ram, root, a, 3) && !Have(ram, root, a, 2) && !Have(ram, root, a, 1)
    {
      EmptyBelow(ram, root, 3, 3, a);
      EmptyBelow(ram, root, 3, 2, a);
      EmptyBelow(ram, root, 3, 1, a);
    }
  }

  lemma {:induction false} MarkedPages(c: Cover, va: nat, pages: nat, p: nat)
    ensures p in MarkAll(c, va, pages).pages <==> p in c.pages || va / LARGE_PAGE <= p < va / LARGE_PAGE + pages
    decreases pages
  {
    if pages > 0 {
      assert (va + LARGE_PAGE) / LARGE_PAGE == va / LARGE_PAGE + 1;
      MarkedPages(Mark(c, va), va + LARGE_PAGE, pages - 1, p);
    }
  }

  /** The mirror finds its pages vacant exactly when it lies above the identity window. */
  lemma MirrorUntouched(window: nat, physmap: nat)
    requires window > 0 && window % LARGE_PAGE == 0 && physmap % LARGE_PAGE == 0
    ensures Untouched(IdentityCover(window), physmap, window / LARGE_PAGE) <==> physmap >= window
  {
    var n := window / LARGE_PAGE;
    var c := IdentityCover(window);
    forall p
      ensures p in c.pages <==> 0 <= p < n
    {
      if p >= 0 { MarkedPages(NOTHING, 0, n, p); }
    }
    if physmap < window { assert physmap / LARGE_PAGE in c.pages; }
  }

  /** One window of `new_kernel`. */
  lemma KernelWindow(s: State, nodes: Forest, root: nat, va: nat, window: nat, c: Cover) returns (nodes': Forest)
    requires VmInv(s, nodes) && |s.shards| == SHARD_COUNT && IsRoot(nodes, root) && Covers(s.ram, root, c)
    requires va < WORD && 0 < window < WORD && window % LARGE_PAGE == 0
    requires forall a: nat :: va <= a < va + window && a < WORD ==> InWord(a)
    ensures var (s', r) := MapWindow(s, root, va, 0, window, KERNEL_FLAGS);
            var c' := MarkAll(c, va, window / LARGE_PAGE);
            && VmInv(s', nodes') && |s'.shards| == SHARD_COUNT && IsRoot(nodes', root)
            && (va % LARGE_PAGE != 0 ==> r.Err?)
            && (va % LARGE_PAGE == 0 && va + window >= WORD ==> r.Ok?)
            && (va % LARGE_PAGE == 0 && va + window < WORD ==>
                  && (r.Ok? <==> Untouched(c, va, window / LARGE_PAGE) && Tables(c') <= CountFree(s.owner) + Tables(c))
                  && (r.Ok? ==>
                        Covers(s'.ram, root, c') && CountFree(s'.owner) + Tables(c') == CountFree(s.owner) + Tables(c)))
  {
    hide SeqInv, TreeInv, InWord, Covers, Tables, Untouched, WindowGrows, WindowDone, WindowLoop, VmInv;
    var done;
    nodes', done := MapWindowExact(s, nodes, root, va, 0, window, KERNEL_FLAGS);
    WindowCounts(s, nodes, root, MapWindow(s, root, va, 0, window, KERNEL_FLAGS).0, nodes');
    if va % LARGE_PAGE == 0 && va + window < WORD {
      WholePages(va, window);
      WindowLoopNeeds(s, nodes, root, va, 0, WindowPages(va, window), KERNEL_FLAGS, c);
    }
  }

  /**
   `new_kernel` succeeds if and only if there is a Free frame for the root and for every table of the
   identity window and, unless there is no RAM, the mirror is aligned and either reaches 2^64, where
   it is skipped, or lies above the identity window and there are frames for its tables too.
   */
  lemma NewKernelNeeds(s: State, nodes: Forest, ramEnd: nat, physmap: nat)
    requires VmInv(s, nodes) && |s.shards| == SHARD_COUNT && KernelArguments(ramEnd, physmap)
    ensures var window := AlignUp(ramEnd, LARGE_PAGE);
            NewKernel(s, ramEnd, physmap).1.Some? <==>
              && 1 + Tables(IdentityCover(window)) <= CountFree(s.owner)
              && (window > 0 ==>
                    && physmap % LARGE_PAGE == 0
                    && (physmap + window < WORD ==>
                          physmap >= window && 1 + Tables(KernelCover(window, physmap)) <= CountFree(s.owner)))
  {
    hide SeqInv, TreeInv, VmInv, AlignUp, NewTable, InWord, Covers, Tables, Untouched, MapWindow, Alloc, ZeroTable,
      Lookup, MarkAll;
    var window := AlignUp(ramEnd, LARGE_PAGE);
    LargeRound(ramEnd);
    NewTableCounts(s, nodes);
    MarkNothing(window, physmap);
    var (s0, r) := NewTable(s);
    if r.Some? {
      NewTableEmpty(s, nodes);
      var root := r.value;
      FreshCovers(s0.ram, root);
      if window > 0 {
        MirrorOrder(window, physmap);
        var nodes1 := KernelWindow(s0, nodes[root := Node(root, [], 0)], root, 0, window, NOTHING);
        var (s1, r1) := MapWindow(s0, root, 0, 0, window, KERNEL_FLAGS);
        if r1.Ok? {
          var nodes2 := KernelWindow(s1, nodes1, root, physmap, window, IdentityCover(window));
        }
      } else {
        NoWindow(s0, root, 0);
        NoWindow(s0, root, physmap);
      }
    }
  }

  lemma NoWindow(s: State, root: nat, va: nat)
    requires |s.shards| > 0
    ensures MapWindow(s, root, va, 0, 0, KERNEL_FLAGS) == (s, Ok)
  {
  }

  lemma MarkNothing(window: nat, physmap: nat)
    ensures Tables(NOTHING) == 0 && Untouched(NOTHING, 0, window / LARGE_PAGE)
    ensures window == 0 ==> Tables(IdentityCover(window)) == 0
    ensures Tables(IdentityCover(window)) <= Tables(KernelCover(window, physmap))
  {
    MarkAllGrows(IdentityCover(window), physmap, window / LARGE_PAGE);
  }

  lemma MirrorOrder(window: nat, physmap: nat)
    requires window > 0 && window % LARGE_PAGE == 0
    ensures physmap % LARGE_PAGE == 0 ==>
              (Untouched(IdentityCover(window), physmap, window / LARGE_PAGE) <==> physmap >= window)
  {
    if physmap % LARGE_PAGE == 0 { MirrorUntouched(window, physmap); }
  }

  lemma NewTableCounts(s: State, nodes: Forest)
    requires VmInv(s, nodes) && |s.shards| > 0
    ensures var (s0, r) := NewTable(s);
            && (r.Some? <==> CountFree(s.owner) > 0)
            && (r.Some? ==> CountFree(s0.owner) + 1 == CountFree(s.owner))
  {
    hide SeqInv, TreeInv, Alloc;
    AllocCounts(s);
  }

  // ---------- how many tables that is ----------

  /** The blocks from `lo` to `hi`. */
  function Span(lo: nat, hi: nat): (r: set<nat>)
    requires lo <= hi
    ensures |r| == hi - lo + 1 && forall x :: x in r <==> lo <= x <= hi
    decreases hi
  {
    if lo == hi then {lo} else Span(lo, hi - 1) + {hi}
  }

  function BlockOf(va: nat, size: nat): nat
    requires size > 0
  {
    va / size
  }

  /** The blocks of one size that consecutive pages touch. */
  function Blocks(va: nat, pages: nat, size: nat): set<nat>
    requires size > 0
    decreases pages
  {
    if pages == 0 then {} else {BlockOf(va, size)} + Blocks(va + LARGE_PAGE, pages - 1, size)
  }

  lemma {:induction false} MarkAllBlocks(c: Cover, va: nat, pages: nat)
    ensures MarkAll(c, va, pages).tops == c.tops + Blocks(va, pages, TOP_BLOCK)
    ensures MarkAll(c, va, pages).mids == c.mids + Blocks(va, pages, MID_BLOCK)
    decreases pages
  {
    if pages > 0 { MarkAllBlocks(Mark(c, va), va + LARGE_PAGE, pages - 1); }
  }

  /** Consecutive pages touch consecutive blocks. */
  lemma {:induction false} BlocksSpan(va: nat, pages: nat, size: nat)
    requires pages > 0 && size >= LARGE_PAGE
    ensures var last := va + (pages - 1) * LARGE_PAGE;
            && BlockOf(va, size) <= BlockOf(last, size)
            && Blocks(va, pages, size) == Span(BlockOf(va, size), BlockOf(last, size))
    decreases pages
  {
    hide Span, BlockOf;
    if pages > 1 {
      BlocksSpan(va + LARGE_PAGE, pages - 1, size);
      SpanStep(va, va + (pages - 1) * LARGE_PAGE, size);
    } else {
      assert Blocks(va + LARGE_PAGE, 0, size) == {};
      OneBlock(BlockOf(va, size));
    }
  }

  lemma OneBlock(x: nat)
    ensures Span(x, x) == {x}
  {
  }

  lemma SpanStep(va: nat, last: nat, size: nat)
    requires size >= LARGE_PAGE && va + LARGE_PAGE <= last
    ensures var x, y, z := BlockOf(va, size), BlockOf(va + LARGE_PAGE, size), BlockOf(last, size);
            x <= y <= z && Span(x, z) == {x} + Span(y, z)
  {
    hide Span, BlockOf;
    BlockOrder(va, va + LARGE_PAGE, size);
    BlockOrder(va + LARGE_PAGE, last, size);
    NextBlock(va, LARGE_PAGE, size);
    SpanFrom(BlockOf(va, size), BlockOf(va + LARGE_PAGE, size), BlockOf(last, size));
  }

  lemma SpanFrom(x: nat, y: nat, z: nat)
    requires x <= y <= x + 1 && y <= z
    ensures Span(x, z) == {x} + Span(y, z)
  {
    hide Span;
  }

  lemma AddBlocks(k: nat, x: nat, size: nat)
    requires size > 0
    ensures (k * size + x) / size == k + x / size && k * size / size == k
  {
    var q, r := x / size, x % size;
    assert x == q * size + r;
    DistributeBlocks(k, q, size);
    DivUnique(k * size + x, size, k + q, r);
    DivUnique(k * size, size, k, 0);
  }

  lemma BlockOrder(a: nat, b: nat, size: nat)
    requires a <= b && size > 0
    ensures BlockOf(a, size) <= BlockOf(b, size)
  {
    QuotientOrder(a, b, a / size, a % size, b / size, b % size, size);
  }

  lemma QuotientOrder(a: nat, b: nat, q: nat, r: nat, p: nat, s: nat, size: nat)
    requires a <= b && a == q * size + r && b == p * size + s && s < size
    ensures q <= p
  {
    ScaledOrder(q, p, size);
  }

  lemma BelowBlock(x: nat, k: nat, size: nat)
    requires size > 0 && x < k * size
    ensures x / size < k
  {
    var q := x / size;
    assert x == q * size + x % size;
    MulOrder(k, q, size);
  }

  lemma MulOrder(k: nat, q: nat, size: nat)
    ensures k <= q ==> k * size <= q * size
  {
    if k <= q { DistributeBlocks(k, q - k, size); }
  }

  /** A step of at most a block enters at most the next block. */
  lemma NextBlock(va: nat, step: nat, size: nat)
    requires 0 < step <= size
    ensures BlockOf(va + step, size) <= BlockOf(va, size) + 1
  {
    var q, r := va / size, va % size;
    assert va == q * size + r;
    AddBlocks(q, r + step, size);
    BelowBlock(r + step, 2, size);
  }

  lemma DistributeBlocks(q: nat, p: nat, size: nat)
    ensures (q + p) * size == q * size + p * size
  {
  }

  /** The number of blocks of a size that `window` bytes from 0 touch. */
  function BlocksOf(window: nat, size: nat): nat
    requires size > 0
  {
    if window == 0 then 0 else (window - 1) / size + 1
  }

  /**
   With the mirror at a multiple of 512 GiB above RAM, the kernel's windows need two tables for every
   512 GiB and two for every 1 GiB.
   */
  lemma KernelTables(window: nat, physmap: nat)
    requires window % LARGE_PAGE == 0 && physmap % TOP_BLOCK == 0 && physmap >= window
    ensures Tables(IdentityCover(window)) == BlocksOf(window, TOP_BLOCK) + BlocksOf(window, MID_BLOCK)
    ensures Tables(KernelCover(window, physmap)) == 2 * Tables(IdentityCover(window))
  {
    hide MarkAll, Blocks, BlocksOf;
    var n := window / LARGE_PAGE;
    MarkAllBlocks(NOTHING, 0, n);
    MarkAllBlocks(IdentityCover(window), physmap, n);
    SameBlocks(window, physmap, TOP_BLOCK, 1);
    SameBlocks(window, physmap, MID_BLOCK, 512);
    assert {} + Blocks(0, n, TOP_BLOCK) == Blocks(0, n, TOP_BLOCK);
    assert {} + Blocks(0, n, MID_BLOCK) == Blocks(0, n, MID_BLOCK);
  }

  /** Both windows touch as many blocks, and no block in common. */
  lemma SameBlocks(window: nat, physmap: nat, size: nat, ratio: nat)
    requires size >= LARGE_PAGE && size % LARGE_PAGE == 0 && TOP_BLOCK == ratio * size
    requires window % LARGE_PAGE == 0 && physmap % TOP_BLOCK == 0 && physmap >= window
    ensures var n := window / LARGE_PAGE;
            var low, high := Blocks(0, n, size), Blocks(physmap, n, size);
            |low| == BlocksOf(window, size) && |low + high| == 2 * |low|
  {
    hide Blocks, Span;
    var n := window / LARGE_PAGE;
    if window == 0 {
      NoBlocks(0, size);
      NoBlocks(physmap, size);
    } else {
      BlocksSpan(0, n, size);
      BlocksSpan(physmap, n, size);
      BlockArithmetic(window, physmap, size, ratio);
      SpansApart((window - 1) / size, physmap / size);
    }
  }

  lemma SpansApart(q: nat, k: nat)
    requires q < k
    ensures |Span(0, q) + Span(k, k + q)| == 2 * |Span(0, q)| && |Span(0, q)| == q + 1
  {
    hide Span;
    assert Span(0, q) !! Span(k, k + q);
  }

  lemma NoBlocks(va: nat, size: nat)
    requires size > 0
    ensures Blocks(va, 0, size) == {}
  {
  }

  lemma BlockArithmetic(window: nat, physmap: nat, size: nat, ratio: nat)
    requires size >= LARGE_PAGE && size % LARGE_PAGE == 0 && TOP_BLOCK == ratio * size
    requires window > 0 && window % LARGE_PAGE == 0 && physmap % TOP_BLOCK == 0 && physmap >= window
    ensures var last := (window / LARGE_PAGE - 1) * LARGE_PAGE;
            && last == window - LARGE_PAGE >= 0
            && last / size == (window - 1) / size < physmap / size
            && (physmap + last) / size == physmap / size + last / size
  {
    var last := (window / LARGE_PAGE - 1) * LARGE_PAGE;
    assert last == window - LARGE_PAGE;
    var k := physmap / TOP_BLOCK * ratio;
    MulAssociates(physmap / TOP_BLOCK, ratio, size);
    assert physmap == k * size;
    AddBlocks(k, last, size);
    BelowBlock(last, k, size);
    RoomInBlock(last, size);
    var q, r := last / size, last % size;
    assert last == q * size + r;
    DivUnique(window - 1, size, q, r + LARGE_PAGE - 1);
  }

  lemma MulAssociates(a: nat, b: nat, c: nat)
    ensures a * b * c == a * (b * c)
  {
  }

  /** A page that starts in a block ends in it. */
  lemma RoomInBlock(last: nat, size: nat)
    requires size >= LARGE_PAGE && size % LARGE_PAGE == 0 && last % LARGE_PAGE == 0
    ensures last % size + LARGE_PAGE <= size
  {
    var m, r := size / LARGE_PAGE, last % size;
    var p := last / LARGE_PAGE;
    var u, v := p / m, p % m;
    assert last == p * LARGE_PAGE && size == m * LARGE_PAGE && p == u * m + v;
    assert u * size == u * m * LARGE_PAGE;
    assert last == u * size + v * LARGE_PAGE;
    assert v * LARGE_PAGE + LARGE_PAGE <= size;
    DivUnique(last, size, u, v * LARGE_PAGE);
  }
}
