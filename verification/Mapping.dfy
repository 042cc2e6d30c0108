/**
 `map`, `unmap` and `translate` (`kernel/src/vmm.rs`): the radix tree of tables behaves as a plain
 map from pages to leaf entries.
 */
module Mapping {
  import opened Frames
  import opened Bits
  import opened Pmm
  import opened FreeLists
  import opened FrameAlloc
  import opened PageEntries
  import opened PageTree
  import opened Vmm
  import opened Census
  import opened Growth

  // ---------- the operations ----------

  /** `PageTable::map` */
  function Map(s: State, root: nat, va: nat, pa: nat, flags: nat): (State, Result)
    requires |s.shards| > 0 && |s.mappings| == |s.owner|
  {
    if !IsCanonical(va) then (s, Err(NonCanonical))
    else if va % FRAME_SIZE != 0 || pa % FRAME_SIZE != 0 then (s, Err(NotAligned))
    else if pa >= |s.owner| * FRAME_SIZE then (s, Err(OutOfRange))
    else
      match Descend(s, root, va, 3, 1, And(flags, PTE_USER))
      case Failed(s1, error) => (s1, Err(error))
      case Reached(s1, table) =>
        if Present(Read(s1.ram, table, Index(va, 0))) then (s1, Err(Conflict))
        else (AddMapping(SetEntry(s1, table, Index(va, 0), LeafEntry(pa, flags)), pa / FRAME_SIZE), Ok)
  }

  datatype Search = Found(table: nat) | Missing(error: MapError)

  /** The walk of `unmap`, from `level` down to the table of 4 KiB entries. */
  function FindTable(ram: Ram, frame: nat, level: nat, va: nat): Search
    decreases level, va
  {
    if level == 0 then Found(frame)
    else
      var e := Read(ram, frame, Index(va, level));
      if !Present(e) then Missing(NotMapped)
      else if Huge(e) then Missing(Conflict)
      else FindTable(ram, TableFrame(e), level - 1, va)
  }

  /** The frame that a 4 KiB entry refers to, as the kernel reads it back. */
  function LeafFrame(e: nat): nat {
    And(e, ADDR_MASK_4K) / FRAME_SIZE
  }

  /** `PageTable::unmap`; a frame index beyond the frame table stops the kernel. */
  function Unmap(s: State, root: nat, va: nat): (State, Result)
    requires Valid(s)
  {
    if !IsCanonical(va) then (s, Err(NonCanonical))
    else if va % FRAME_SIZE != 0 then (s, Err(NotAligned))
    else
      match FindTable(s.ram, root, 3, va)
      case Missing(error) => (s, Err(error))
      case Found(table) =>
        var e := Read(s.ram, table, Index(va, 0));
        if !Present(e) then (s, Err(NotMapped))
        else
          var s1 := SetEntry(s, table, Index(va, 0), 0);
          if LeafFrame(e) < |s.owner| then (RemoveMapping(s1, 0, LeafFrame(e)), Ok) else (s1, Ok)
  }

  function Physical(l: Leaf, va: nat): nat {
    match l.level
    case 0 => And(l.entry, ADDR_MASK_4K) + And(va, 0xfff)
    case 1 => And(l.entry, ADDR_MASK_2M) + And(va, 0x1f_ffff)
    case _ => And(l.entry, ADDR_MASK_1G) + And(va, 0x3fff_ffff)
  }

  /** `PageTable::translate` */
  function Translate(ram: Ram, root: nat, va: nat): Option<nat> {
    if !IsCanonical(va) then None
    else
      match Lookup(ram, root, 3, va)
      case None => None
      case Some(l) => Some(Physical(l, va))
  }

  /** What a leaf of each size translates to, in numbers: 24, 23 or 22 bits of the entry and the offset. */
  lemma PhysicalExact(l: Leaf, va: nat)
    ensures l.level == 0 ==> Physical(l, va) == l.entry / 0x1000 % 0x100_0000 * 0x1000 + va % 0x1000
    ensures l.level == 1 ==> Physical(l, va) == l.entry / 0x20_0000 % 0x80_0000 * 0x20_0000 + va % 0x20_0000
    ensures l.level == 2 ==> Physical(l, va) == l.entry / 0x4000_0000 % 0x40_0000 * 0x4000_0000 + va % 0x4000_0000
  {
    hide And, Shr, Low;
    OffsetValue(va);
    MaskedAddress(l.entry, l.entry, 12, 24);
    MaskedAddress(l.entry, l.entry, 21, 23);
    MaskedAddress(l.entry, l.entry, 30, 22);
    ShrValue(l.entry, 12); ShrValue(l.entry, 21); ShrValue(l.entry, 30);
    ShrValue(l.entry / 0x1000, 24); ShrValue(l.entry / 0x20_0000, 23); ShrValue(l.entry / 0x4000_0000, 22);
  }

  // ---------- the abstract address space ----------

  /** A page-aligned canonical address. */
  predicate IsPage(va: nat) {
    va < WORD && IsCanonical(va) && va % FRAME_SIZE == 0
  }

  /** The address space as a map from pages to leaf entries. */
  ghost function Space(ram: Ram, root: nat): imap<nat, Leaf> {
    imap va: nat | IsPage(va) && Lookup(ram, root, 3, va).Some? :: Lookup(ram, root, 3, va).value
  }

  lemma PageBase(va: nat)
    requires va < WORD && IsCanonical(va)
    ensures IsPage(va - va % FRAME_SIZE)
    ensures forall level: nat :: level < 4 ==> Index(va - va % FRAME_SIZE, level) == Index(va, level)
  {
    hide Index;
    var b := va - va % FRAME_SIZE;
    CanonicalRange(va); CanonicalRange(b);
    IndexValue(va); IndexValue(b);
    SamePageIndices(va);
    forall level: nat | level < 4
      ensures Index(b, level) == Index(va, level)
    {
      if level == 0 { } else if level == 1 { } else if level == 2 { } else { assert level == 3; }
    }
  }

  lemma SamePageIndices(va: nat)
    ensures var b := va - va % FRAME_SIZE;
            && b / 0x1000 == va / 0x1000 && b / 0x20_0000 == va / 0x20_0000
            && b / 0x4000_0000 == va / 0x4000_0000 && b / 0x80_0000_0000 == va / 0x80_0000_0000
  {
    PageQuotients(va);
    PageQuotients(va - va % FRAME_SIZE);
  }

  lemma PageQuotients(a: nat)
    ensures a / 0x20_0000 == a / 0x1000 / 0x200
    ensures a / 0x4000_0000 == a / 0x1000 / 0x4_0000
    ensures a / 0x80_0000_0000 == a / 0x1000 / 0x800_0000
  {
  }

  lemma {:induction false} SameIndicesSameLeaf(ram: Ram, frame: nat, level: nat, a: nat, b: nat)
    requires level < 4 && forall l: nat :: l < 4 ==> Index(a, l) == Index(b, l)
    ensures Lookup(ram, frame, level, a) == Lookup(ram, frame, level, b)
    decreases level
  {
    var e := Read(ram, frame, Index(a, level));
    assert Index(a, level) == Index(b, level);
    if level > 0 && Present(e) { SameIndicesSameLeaf(ram, TableFrame(e), level - 1, a, b); }
  }

  /** Translation of any address is decided by the abstract map at its page. */
  lemma TranslateBySpace(ram: Ram, root: nat, va: nat)
    requires va < WORD && IsCanonical(va)
    ensures var b := va - va % FRAME_SIZE;
            && IsPage(b)
            && Translate(ram, root, va) ==
               if b in Space(ram, root) then Some(Physical(Space(ram, root)[b], va)) else None
  {
    hide Lookup, Physical, IsCanonical;
    PageBase(va);
    SameIndicesSameLeaf(ram, root, 3, va, va - va % FRAME_SIZE);
  }

  // ---------- map ----------

  lemma SamePath(nodes: Forest, t: nat, a: nat, b: nat)
    requires t in nodes && |nodes[t].path| == 3
    requires OnWalk(nodes[t], nodes[t].root, a) && OnWalk(nodes[t], nodes[t].root, b)
    requires Index(a, 0) == Index(b, 0) && IsPage(a) && IsPage(b)
    ensures a == b
  {
    hide Index, IsCanonical;
    assert Path(a)[..3] == Path(b)[..3];
    assert Path(a)[..3][0] == Path(b)[..3][0];
    assert Path(a)[..3][1] == Path(b)[..3][1];
    assert Path(a)[..3][2] == Path(b)[..3][2];
    IndicesDetermine(a, b);
  }

  lemma LeafWriteElsewhere(ram: Ram, nodes: Forest, t: nat, va: nat, w: nat, root: nat, r: nat, a: nat)
    requires TreeInv(ram, nodes) && IsPage(va) && t in nodes && |nodes[t].path| == 3 && OnWalk(nodes[t], root, va)
    requires IsRoot(nodes, r) && IsPage(a) && (r != root || a != va)
    ensures Lookup(Write(ram, t, Index(va, 0), w), r, 3, a) == Lookup(ram, r, 3, a)
  {
    hide TreeInv, Index, Lookup;
    PathBound(va);
    if OnWalk(nodes[t], r, a) && Index(a, 0) == Index(va, 0) { SamePath(nodes, t, a, va); }
    LookupWrite(ram, nodes, t, Index(va, 0), w, r, a);
  }

  lemma LeafWriteHere(ram: Ram, nodes: Forest, t: nat, va: nat, w: nat, root: nat)
    requires TreeInv(ram, nodes) && t in nodes && |nodes[t].path| == 3 && OnWalk(nodes[t], root, va)
    requires TreeInv(Write(ram, t, Index(va, 0), w), nodes)
    ensures Lookup(Write(ram, t, Index(va, 0), w), root, 3, va) == if Present(w) then Some(Leaf(0, w)) else None
  {
    hide TreeInv, Index;
    PathBound(va);
    TreeBasics(ram, nodes, t);
    ReadOfWrite(ram, t, Index(va, 0), w, t, Index(va, 0));
    LookupFromNode(Write(ram, t, Index(va, 0), w), nodes, t, va);
  }

  /** Overwriting the 4 KiB entry of page `va` changes the abstract map at `va` only. */
  lemma LeafWrite(ram: Ram, nodes: Forest, t: nat, va: nat, w: nat, root: nat)
    requires TreeInv(ram, nodes) && IsPage(va) && IsRoot(nodes, root)
    requires t in nodes && |nodes[t].path| == 3 && OnWalk(nodes[t], root, va)
    requires TreeInv(Write(ram, t, Index(va, 0), w), nodes)
    ensures var ram' := Write(ram, t, Index(va, 0), w);
            && Space(ram', root) == (if Present(w) then Space(ram, root)[va := Leaf(0, w)] else Space(ram, root) - {va})
            && forall r :: IsRoot(nodes, r) && r != root ==> Space(ram', r) == Space(ram, r)
  {
    hide TreeInv, Lookup, IsPage, OnWalk, Write, Index;
    var ram' := Write(ram, t, Index(va, 0), w);
    forall r, a | IsRoot(nodes, r) && IsPage(a) && (r != root || a != va)
      ensures Lookup(ram', r, 3, a) == Lookup(ram, r, 3, a)
    {
      LeafWriteElsewhere(ram, nodes, t, va, w, root, r, a);
    }
    LeafWriteHere(ram, nodes, t, va, w, root);
    var sp := if Present(w) then Space(ram, root)[va := Leaf(0, w)] else Space(ram, root) - {va};
    assert Space(ram', root) == sp;
    forall r | IsRoot(nodes, r) && r != root
      ensures Space(ram', r) == Space(ram, r)
    {
    }
  }

  // ---------- mapping counts ----------

  /** The present 4 KiB entries, in all tables of all address spaces, that refer to frame `f`. */
  ghost function LeafSlots(ram: Ram, nodes: Forest, f: nat): set<(nat, nat)> {
    set t, i | t in nodes && 0 <= i < ENTRIES && IsLeafSlot(ram, nodes, t, i, f) :: (t, i)
  }

  predicate IsLeafSlot(ram: Ram, nodes: Forest, t: nat, i: nat, f: nat)
    requires t in nodes
  {
    |nodes[t].path| == 3 && Present(Read(ram, t, i)) && LeafFrame(Read(ram, t, i)) == f
  }

  function Count(s: State, f: nat): nat {
    if f < |s.mappings| then s.mappings[f] else 0
  }

  /** A frame's mapping count is the number of entries that refer to it, and no entry refers beyond the table. */
  ghost predicate CountInv(s: State, nodes: Forest) {
    forall f: nat :: Count(s, f) == |LeafSlots(s.ram, nodes, f)| && Count(s, f) < U32
  }

  lemma CountFrame(s: State, s': State, nodes: Forest)
    requires CountInv(s, nodes) && s'.mappings == s.mappings
    requires forall t, i: nat :: t in nodes ==> Read(s'.ram, t, i) == Read(s.ram, t, i)
    ensures CountInv(s', nodes)
  {
    hide Present, LeafFrame;
    forall f: nat
      ensures LeafSlots(s'.ram, nodes, f) == LeafSlots(s.ram, nodes, f)
    {
    }
  }

  lemma CountEvolves(s: State, nodes: Forest, s': State, nodes': Forest)
    requires Evolves(s, nodes, s', nodes') && CountInv(s, nodes)
    ensures CountInv(s', nodes')
  {
    hide VmInv, Lookup;
    ZeroNotPresent();
    forall f: nat
      ensures LeafSlots(s'.ram, nodes', f) == LeafSlots(s.ram, nodes, f)
    {
      forall t, i: nat | t in nodes' && i < ENTRIES
        ensures IsLeafSlot(s'.ram, nodes', t, i, f) <==> t in nodes && IsLeafSlot(s.ram, nodes, t, i, f)
      {
      }
    }
  }

  lemma SlotsWrite(ram: Ram, nodes: Forest, t: nat, i: nat, w: nat, f: nat)
    requires ValidRam(ram) && t in nodes && t < |ram| && i < ENTRIES && |nodes[t].path| == 3
    ensures var now := LeafSlots(Write(ram, t, i, w), nodes, f);
            var rest := LeafSlots(ram, nodes, f) - {(t, i)};
            now == if Present(w) && LeafFrame(w) == f then rest + {(t, i)} else rest
  {
  }

  /** Filling a vacant entry and counting the new reference. */
  lemma CountAdd(s: State, nodes: Forest, t: nat, i: nat, w: nat, f: nat)
    requires CountInv(s, nodes) && ValidRam(s.ram)
    requires t in nodes && t < |s.ram| && i < ENTRIES && |nodes[t].path| == 3 && !Present(Read(s.ram, t, i))
    requires Present(w) && LeafFrame(w) == f < |s.mappings| && s.mappings[f] + 1 < U32
    ensures CountInv(AddMapping(SetEntry(s, t, i, w), f), nodes)
  {
    hide Present, LeafFrame;
    forall g: nat
      ensures |LeafSlots(Write(s.ram, t, i, w), nodes, g)| == Count(s, g) + (if g == f then 1 else 0)
    {
      SlotsWrite(s.ram, nodes, t, i, w, g);
      assert !IsLeafSlot(s.ram, nodes, t, i, g);
      assert (t, i) !in LeafSlots(s.ram, nodes, g);
      assert LeafSlots(s.ram, nodes, g) - {(t, i)} == LeafSlots(s.ram, nodes, g);
    }
  }

  /** Clearing an entry drops one reference, which had been counted. */
  lemma CountRemove(s: State, nodes: Forest, t: nat, i: nat, f: nat)
    requires CountInv(s, nodes) && ValidRam(s.ram)
    requires t in nodes && t < |s.ram| && i < ENTRIES && |nodes[t].path| == 3
    requires Present(Read(s.ram, t, i)) && LeafFrame(Read(s.ram, t, i)) == f
    ensures f < |s.mappings| && 0 < s.mappings[f] < U32
    ensures CountInv(s.(ram := Write(s.ram, t, i, 0), mappings := s.mappings[f := s.mappings[f] - 1]), nodes)
  {
    hide LeafFrame;
    ZeroNotPresent();
    assert IsLeafSlot(s.ram, nodes, t, i, f);
    assert (t, i) in LeafSlots(s.ram, nodes, f);
    forall g: nat
      ensures |LeafSlots(Write(s.ram, t, i, 0), nodes, g)| == Count(s, g) - (if g == f then 1 else 0)
    {
      SlotsWrite(s.ram, nodes, t, i, 0, g);
      if g != f {
        assert !IsLeafSlot(s.ram, nodes, t, i, g);
        assert (t, i) !in LeafSlots(s.ram, nodes, g);
        assert LeafSlots(s.ram, nodes, g) - {(t, i)} == LeafSlots(s.ram, nodes, g);
      }
    }
  }

  // ---------- map ----------

  /** The arguments that `map` accepts. */
  predicate GoodArguments(s: State, va: nat, pa: nat) {
    IsCanonical(va) && va % FRAME_SIZE == 0 && pa % FRAME_SIZE == 0 && pa < |s.owner| * FRAME_SIZE
  }

  lemma UserFlag(flags: nat)
    ensures And(flags, PTE_USER) == (if User(flags) then PTE_USER else 0)
  {
    assert Pow2(2) == 4;
    MaskOne(2);
    AndMask(flags, 2, 1);
    AndBit(flags, 2);
    assert Low(Shr(flags, 2), 1) == 2 * Low(Shr(flags, 2) / 2, 0) + Shr(flags, 2) % 2;
    assert Shl(Low(Shr(flags, 2), 1), 2) == 4 * Low(Shr(flags, 2), 1);
  }

  /** Where a good `map` call gets to, and what it then writes. */
  lemma MapDescent(s: State, nodes: Forest, root: nat, va: nat, flags: nat) returns (nodes': Forest)
    requires VmInv(s, nodes) && IsRoot(nodes, root) && |s.shards| == SHARD_COUNT
    ensures var user := And(flags, PTE_USER);
            DescentOk(s, nodes, root, va, 1, user, Descend(s, root, va, 3, 1, user), nodes')
  {
    hide SeqInv, TreeInv, DescentOk, Descend;
    UserFlag(flags);
    assert Path(va)[..0] == [];
    nodes' := DescendKeeps(s, nodes, root, root, va, 3, 1, And(flags, PTE_USER));
  }

  /** The last step of a good `map` call, at the table `t` that the descent reached. */
  lemma MapLeaf(s: State, nodes: Forest, root: nat, t: nat, va: nat, pa: nat, flags: nat)
    requires VmInv(s, nodes) && IsRoot(nodes, root) && IsPage(va) && pa % FRAME_SIZE == 0
    requires t in nodes && |nodes[t].path| == 3 && OnWalk(nodes[t], root, va)
    requires User(flags) ==> User(EntryTo(s.ram, nodes[t]))
    requires !Present(Read(s.ram, t, Index(va, 0)))
    ensures var s' := SetEntry(s, t, Index(va, 0), LeafEntry(pa, flags));
            && VmInv(s', nodes)
            && va !in Space(s.ram, root)
            && Space(s'.ram, root) == Space(s.ram, root)[va := Leaf(0, LeafEntry(pa, flags))]
            && forall r :: IsRoot(nodes, r) && r != root ==> Space(s'.ram, r) == Space(s.ram, r)
  {
    hide SeqInv, TreeInv, LeafEntry;
    PathBound(va);
    LeafEntryBits(pa, flags);
    var w := LeafEntry(pa, flags);
    TableWrite(s, nodes, t, Index(va, 0), w);
    LookupFromNode(s.ram, nodes, t, va);
    LeafWrite(s.ram, nodes, t, va, w, root);
  }

  /** Frames outside the count are untouched by a mapping count change. */
  lemma CountKeeps(s: State, nodes: Forest, mappings: seq<nat>)
    requires VmInv(s, nodes) && |mappings| == |s.mappings|
    ensures VmInv(s.(mappings := mappings), nodes)
  {
    var s' := s.(mappings := mappings);
    assert Anchors(s', []) == Anchors(s, []);
    forall f: nat
      ensures Meetings(s'.ram, Anchors(s', []), f) == if IsFree(s', f) then 1 else 0
    {
      assert IsFree(s', f) == IsFree(s, f);
    }
  }

  lemma SpacesEvolve(s: State, nodes: Forest, s': State, nodes': Forest)
    requires Evolves(s, nodes, s', nodes')
    ensures forall r :: IsRoot(nodes, r) ==> Space(s'.ram, r) == Space(s.ram, r) && IsRoot(nodes', r)
  {
  }

  /** What `map` may do to frames: take Free frames for tables, and nothing else but the count. */
  ghost predicate OnlyTablesGrow(s: State, nodes: Forest, s': State, nodes': Forest) {
    && VmInv(s', nodes')
    && s'.pinned == s.pinned && s'.gen == s.gen && |s'.owner| == |s.owner| && |s'.ram| == |s.ram|
    && (forall f :: f in nodes ==> f in nodes' && nodes'[f] == nodes[f])
    && (forall f :: f in nodes' && f !in nodes ==> IsFree(s, f) && nodes'[f].path != [])
    && (forall f :: 0 <= f < |s.owner| ==> s'.owner[f] == if f in nodes' then Kernel else s.owner[f])
    && (forall f :: 0 <= f < |s.ram| && f !in nodes && !IsFree(s, f) ==> s'.ram[f] == s.ram[f])
  }

  /** The kernel reads the frame of a 4 KiB entry back correctly just below 64 GiB. */
  lemma LeafFrameExact(pa: nat, flags: nat)
    requires pa % FRAME_SIZE == 0 && FlagBits(flags)
    ensures LeafFrame(LeafEntry(pa, flags)) == pa % 0x10_0000_0000 / FRAME_SIZE
    ensures LeafFrame(LeafEntry(pa, flags)) == pa / FRAME_SIZE <==> pa < 0x10_0000_0000
  {
    LeafAddress(pa, flags);
  }

  /** One entry more, and one count more: of the same frame exactly below 64 GiB. */
  lemma MapCounts(s: State, nodes: Forest, t: nat, va: nat, pa: nat, flags: nat)
    requires VmInv(s, nodes) && CountInv(s, nodes) && Valid(s)
    requires t in nodes && |nodes[t].path| == 3 && !Present(Read(s.ram, t, Index(va, 0)))
    requires pa % FRAME_SIZE == 0 && FlagBits(flags) && pa < |s.owner| * FRAME_SIZE
    requires s.mappings[pa / FRAME_SIZE] + 1 < U32
    ensures CountInv(AddMapping(SetEntry(s, t, Index(va, 0), LeafEntry(pa, flags)), pa / FRAME_SIZE), nodes)
            <==> pa < 0x10_0000_0000
  {
    hide SeqInv, TreeInv, LeafEntry, LeafFrame, FlagBits, Present, CountInv;
    PathBound(va);
    TreeBasics(s.ram, nodes, t);
    LeafEntryBits(pa, flags);
    LeafFrameExact(pa, flags);
    if pa < 0x10_0000_0000 {
      CountAdd(s, nodes, t, Index(va, 0), LeafEntry(pa, flags), pa / FRAME_SIZE);
    } else {
      CountAstray(s, nodes, t, Index(va, 0), LeafEntry(pa, flags), pa / FRAME_SIZE);
    }
  }

  /** Counting a frame that the new entry does not refer to. */
  lemma CountAstray(s: State, nodes: Forest, t: nat, i: nat, w: nat, f: nat)
    requires CountInv(s, nodes) && ValidRam(s.ram)
    requires t in nodes && t < |s.ram| && i < ENTRIES && |nodes[t].path| == 3 && !Present(Read(s.ram, t, i))
    requires Present(w) && LeafFrame(w) != f < |s.mappings|
    ensures !CountInv(AddMapping(SetEntry(s, t, i, w), f), nodes)
  {
    hide Present, LeafFrame;
    var g := LeafFrame(w);
    var s' := AddMapping(SetEntry(s, t, i, w), f);
    SlotsWrite(s.ram, nodes, t, i, w, g);
    assert !IsLeafSlot(s.ram, nodes, t, i, g);
    assert (t, i) !in LeafSlots(s.ram, nodes, g);
    assert LeafSlots(s.ram, nodes, g) - {(t, i)} == LeafSlots(s.ram, nodes, g);
    assert |LeafSlots(s'.ram, nodes, g)| == Count(s, g) + 1 && Count(s', g) == Count(s, g);
  }

  /** The argument checks of `map`, in their order. */
  lemma MapRefuses(s: State, root: nat, va: nat, pa: nat, flags: nat)
    requires Valid(s)
    ensures var (s', r) := Map(s, root, va, pa, flags);
            && (!GoodArguments(s, va, pa) ==> s' == s && r.Err?)
            && (r == Err(NonCanonical) <==> !IsCanonical(va))
            && (r == Err(NotAligned) <==> IsCanonical(va) && (va % FRAME_SIZE != 0 || pa % FRAME_SIZE != 0))
            && (r == Err(OutOfRange) <==>
                  IsCanonical(va) && va % FRAME_SIZE == 0 && pa % FRAME_SIZE == 0 && pa >= |s.owner| * FRAME_SIZE)
            && r != Err(NotMapped)
            && (r.Ok? || r == Err(Conflict) || r == Err(AllocFailed) <==> GoodArguments(s, va, pa))
  {
    hide IsCanonical, Index, Present, And, LeafEntry;
    if GoodArguments(s, va, pa) { DescentErrors(s, root, va, 3, 1, And(flags, PTE_USER)); }
  }

  lemma {:induction false} DescentErrors(s: State, frame: nat, va: nat, level: nat, stop: nat, user: nat)
    requires |s.shards| > 0 && stop >= 1
    ensures var d := Descend(s, frame, va, level, stop, user);
            d.Failed? ==> d.error == AllocFailed || d.error == Conflict
    decreases level
  {
    hide Index, Present, Huge, Or, Alloc, Hang, TableFrame;
    if level >= stop {
      var i := Index(va, level);
      var e := Read(s.ram, frame, i);
      if !Present(e) {
        var (s1, g) := Alloc(s);
        if g.Some? {
          HangShards(s1, frame, i, g.value, user);
          DescentErrors(Hang(s1, frame, i, g.value, user), g.value, va, level - 1, stop, user);
        }
      } else if !Huge(e) {
        var s1 := if user != 0 then SetEntry(s, frame, i, Or(e, user)) else s;
        DescentErrors(s1, TableFrame(e), va, level - 1, stop, user);
      }
    }
  }

  lemma HangShards(s: State, f: nat, i: nat, g: nat, user: nat)
    ensures Hang(s, f, i, g, user).shards == s.shards
  {
  }

  /** With good arguments, why `map` fails: the page is mapped, or the absent tables outnumber the Free frames. */
  lemma MapFails(s: State, nodes: Forest, root: nat, va: nat, pa: nat, flags: nat)
    requires VmInv(s, nodes) && Valid(s) && IsRoot(nodes, root) && va < WORD && GoodArguments(s, va, pa)
    ensures var r := Map(s, root, va, pa, flags).1;
            && (r == Err(Conflict) <==> va in Space(s.ram, root))
            && (r == Err(AllocFailed) <==> CountFree(s.owner) < Absent(s.ram, root, 3, 1, va))
  {
    hide SeqInv, TreeInv, Lookup, LeafEntry, Descend, IsCanonical, Index, Present, And, Absent, Evolves;
    var user := And(flags, PTE_USER);
    UserFlag(flags);
    var nodes' := MapDescent(s, nodes, root, va, flags);
    var d := Descend(s, root, va, 3, 1, user);
    assert Path(va)[..0] == [];
    DescendNeeds(s, nodes, root, root, va, 3, 1, user);
    if Lookup(s.ram, root, 3, va).Some? { MappedLacksNothing(s.ram, root, 3, 1, va); }
    if d.Reached? {
      EvolvedLookup(s, nodes, d.state, nodes', root, va);
      LookupFromNode(d.state.ram, nodes', d.table, va);
      LeafLookup(d.state.ram, d.table, va);
    }
  }

  lemma EvolvedLookup(s: State, nodes: Forest, s': State, nodes': Forest, root: nat, va: nat)
    requires Evolves(s, nodes, s', nodes') && IsRoot(nodes, root)
    ensures Lookup(s'.ram, root, 3, va) == Lookup(s.ram, root, 3, va) && TreeInv(s'.ram, nodes')
  {
  }

  lemma LeafLookup(ram: Ram, t: nat, va: nat)
    ensures Lookup(ram, t, 0, va).Some? <==> Present(Read(ram, t, Index(va, 0)))
  {
  }

  /** With good arguments, what `map` does to tables, spaces and counts. */
  lemma MapEffect(s: State, nodes: Forest, root: nat, va: nat, pa: nat, flags: nat) returns (nodes': Forest)
    requires VmInv(s, nodes) && Valid(s) && IsRoot(nodes, root) && va < WORD && GoodArguments(s, va, pa)
    ensures var (s', r) := Map(s, root, va, pa, flags);
            && OnlyTablesGrow(s, nodes, s', nodes')
            && (r.Ok? ==>
                  && Space(s'.ram, root) == Space(s.ram, root)[va := Leaf(0, LeafEntry(pa, flags))]
                  && s'.mappings == AddMapping(s, pa / FRAME_SIZE).mappings)
            && (r.Err? ==> Space(s'.ram, root) == Space(s.ram, root) && s'.mappings == s.mappings)
            && (forall q :: IsRoot(nodes, q) && q != root ==> Space(s'.ram, q) == Space(s.ram, q))
            && (CountInv(s, nodes) ==>
                  && (r.Err? ==> CountInv(s', nodes'))
                  && (r.Ok? && FlagBits(flags) && s.mappings[pa / FRAME_SIZE] + 1 < U32 ==>
                        (CountInv(s', nodes') <==> pa < 0x10_0000_0000)))
  {
    hide SeqInv, TreeInv, Lookup, LeafEntry, Descend, IsCanonical, Index, Present, And, CountInv, FlagBits, Space;
    nodes' := MapDescent(s, nodes, root, va, flags);
    var d := Descend(s, root, va, 3, 1, And(flags, PTE_USER));
    SpacesEvolve(s, nodes, d.state, nodes');
    if CountInv(s, nodes) { CountEvolves(s, nodes, d.state, nodes'); }
    if d.Reached? {
      var s1, t := d.state, d.table;
      UserFlag(flags);
      SeqBasics(s1);
      if !Present(Read(s1.ram, t, Index(va, 0))) {
        MapLeaf(s1, nodes', root, t, va, pa, flags);
        var s2 := SetEntry(s1, t, Index(va, 0), LeafEntry(pa, flags));
        CountKeeps(s2, nodes', AddMapping(s2, pa / FRAME_SIZE).mappings);
        if CountInv(s, nodes) && FlagBits(flags) && s.mappings[pa / FRAME_SIZE] + 1 < U32 {
          MapCounts(s1, nodes', t, va, pa, flags);
        }
      }
    }
  }

  /**
   `map` refines insertion into the abstract map.  It succeeds exactly on a page that is not mapped,
   with good arguments and a Free frame for every absent table; then that page gets the new leaf and
   no other page of any address space changes.  When it fails, for whichever reason and however many
   tables it had grown, no page changes at all.  Mapping counts stay exact on failure, and on success
   if and only if the physical address is below 64 GiB.
   */
  lemma MapRefines(s: State, nodes: Forest, root: nat, va: nat, pa: nat, flags: nat) returns (nodes': Forest)
    requires VmInv(s, nodes) && Valid(s) && IsRoot(nodes, root) && va < WORD
    ensures var (s', r) := Map(s, root, va, pa, flags);
            && OnlyTablesGrow(s, nodes, s', nodes')
            && (r.Ok? ==>
                  && Space(s'.ram, root) == Space(s.ram, root)[va := Leaf(0, LeafEntry(pa, flags))]
                  && s'.mappings == AddMapping(s, pa / FRAME_SIZE).mappings)
            && (r.Err? ==> Space(s'.ram, root) == Space(s.ram, root) && s'.mappings == s.mappings)
            && (forall q :: IsRoot(nodes, q) && q != root ==> Space(s'.ram, q) == Space(s.ram, q))
            && (!GoodArguments(s, va, pa) ==> s' == s)
            && (r.Ok? <==> && GoodArguments(s, va, pa) && va !in Space(s.ram, root)
                           && Absent(s.ram, root, 3, 1, va) <= CountFree(s.owner))
            && (r == Err(NonCanonical) <==> !IsCanonical(va))
            && (r == Err(NotAligned) <==> IsCanonical(va) && (va % FRAME_SIZE != 0 || pa % FRAME_SIZE != 0))
            && (r == Err(OutOfRange) <==>
                  IsCanonical(va) && va % FRAME_SIZE == 0 && pa % FRAME_SIZE == 0 && pa >= |s.owner| * FRAME_SIZE)
            && (r == Err(Conflict) <==> GoodArguments(s, va, pa) && va in Space(s.ram, root))
            && (r == Err(AllocFailed) <==>
                  GoodArguments(s, va, pa) && CountFree(s.owner) < Absent(s.ram, root, 3, 1, va))
            && (CountInv(s, nodes) ==>
                  && (r.Err? ==> CountInv(s', nodes'))
                  && (r.Ok? && FlagBits(flags) && s.mappings[pa / FRAME_SIZE] + 1 < U32 ==>
                        (CountInv(s', nodes') <==> pa < 0x10_0000_0000)))
  {
    hide VmInv, Map, IsCanonical, CountInv, FlagBits, Space, LeafEntry, Absent, OnlyTablesGrow;
    MapRefuses(s, root, va, pa, flags);
    if GoodArguments(s, va, pa) {
      nodes' := MapEffect(s, nodes, root, va, pa, flags);
      MapFails(s, nodes, root, va, pa, flags);
    } else {
      nodes' := nodes;
      NothingGrows(s, nodes);
    }
  }

  lemma NothingGrows(s: State, nodes: Forest)
    requires VmInv(s, nodes)
    ensures OnlyTablesGrow(s, nodes, s, nodes)
  {
  }

  /**
   After a successful `map`, every address of the page translates to `pa` plus its offset exactly
   when `pa` is below 64 GiB; beyond that the kernel's mask drops address bits.
   */
  lemma MapTranslates(s: State, nodes: Forest, root: nat, va: nat, pa: nat, flags: nat, off: nat)
    requires VmInv(s, nodes) && Valid(s) && IsRoot(nodes, root) && va < WORD && FlagBits(flags) && off < FRAME_SIZE
    requires Map(s, root, va, pa, flags).1.Ok?
    ensures var ram' := Map(s, root, va, pa, flags).0.ram;
            && Translate(ram', root, va + off) == Some(pa % 0x10_0000_0000 + off)
            && (Translate(ram', root, va + off) == Some(pa + off) <==> pa < 0x10_0000_0000)
  {
    hide VmInv, Lookup, LeafEntry, Map, Translate, FlagBits, Physical, IsCanonical;
    var nodes' := MapRefines(s, nodes, root, va, pa, flags);
    InPage(va, off);
    TranslateBySpace(Map(s, root, va, pa, flags).0.ram, root, va + off);
    LeafPhysical(pa, flags, va + off);
  }

  /**
   After a successful `map` the page has a 4 KiB leaf, each of whose bits is that of the address or
   of the flags, with PRESENT.
   */
  lemma MapEntryExact(s: State, nodes: Forest, root: nat, va: nat, pa: nat, flags: nat, k: nat)
    requires VmInv(s, nodes) && Valid(s) && IsRoot(nodes, root) && va < WORD
    requires Map(s, root, va, pa, flags).1.Ok?
    ensures var sp := Space(Map(s, root, va, pa, flags).0.ram, root);
            && va in sp && sp[va].level == 0
            && (Bit(sp[va].entry, k) <==> k == 0 || Bit(pa, k) || Bit(flags, k))
  {
    hide VmInv, Lookup, LeafEntry, Map, IsCanonical, Bit, Space;
    var nodes' := MapRefines(s, nodes, root, va, pa, flags);
    LeafEntryExact(pa, flags, k);
  }

  /**
   After a successful `map`, the user gets at every address of the page, it can be written, and it can
   be executed, exactly as the flags say; the tables on the way take no right away.
   */
  lemma MapRights(s: State, nodes: Forest, root: nat, va: nat, pa: nat, flags: nat, off: nat)
    requires VmInv(s, nodes) && Valid(s) && IsRoot(nodes, root) && va < WORD && off < FRAME_SIZE
    requires Map(s, root, va, pa, flags).1.Ok?
    ensures var ram' := Map(s, root, va, pa, flags).0.ram;
            && (UserWalk(ram', root, 3, va + off) <==> Bit(flags, 2))
            && (WriteWalk(ram', root, 3, va + off) <==> Bit(flags, 1))
            && (ExecWalk(ram', root, 3, va + off) <==> !Bit(flags, 63))
  {
    hide SeqInv, TreeInv, LeafEntry, Map, IsCanonical, Bit, UserWalk, WriteWalk, ExecWalk, User, Index, Lookup;
    var nodes' := MapRefines(s, nodes, root, va, pa, flags);
    var ram' := Map(s, root, va, pa, flags).0.ram;
    InPage(va, off);
    PageBase(va + off);
    SameIndicesSameLeaf(ram', root, 3, va + off, va);
    assert va in Space(ram', root) && Path(va + off)[..0] == [];
    UserExact(ram', nodes', root, 3, va + off);
    RightsExact(ram', nodes', root, 3, va + off);
    EntryBits(LeafEntry(pa, flags));
    AlignedBits(pa);
    LowAddress(pa);
    LeafEntryExact(pa, flags, 1); LeafEntryExact(pa, flags, 2); LeafEntryExact(pa, flags, 63);
  }

  lemma LeafPhysical(pa: nat, flags: nat, a: nat)
    requires pa % FRAME_SIZE == 0 && FlagBits(flags)
    ensures Physical(Leaf(0, LeafEntry(pa, flags)), a) == pa % 0x10_0000_0000 + a % FRAME_SIZE
  {
    hide LeafEntry, FlagBits, And;
    LeafAddress(pa, flags);
    OffsetValue(a);
  }

  lemma InPage(va: nat, off: nat)
    requires IsPage(va) && off < FRAME_SIZE
    ensures va + off < WORD && IsCanonical(va + off) && (va + off) % FRAME_SIZE == off
  {
    CanonicalRange(va);
    assert va + off < WORD;
    CanonicalRange(va + off);
  }

  // ---------- unmap ----------

  /** Returning a frame that is not a table to the lists touches no table. */
  lemma PushBusy(s: State, nodes: Forest, f: nat)
    requires VmInv(s, nodes) && Valid(s) && f < |s.owner| && f !in nodes && !s.owner[f].Free?
    ensures VmInv(Push(s, 0, f), nodes)
    ensures var s' := Push(s, 0, f);
            |s'.ram| == |s.ram| && forall g :: 0 <= g < |s.ram| && g != f ==> s'.ram[g] == s.ram[g]
  {
    hide TreeInv, ListInv;
    PushKeeps(s, [], 0, f);
    SeqBasics(s);
    TreeFrame(s.ram, Push(s, 0, f).ram, nodes);
  }

  lemma DrainKeeps(s: State, nodes: Forest, f: nat)
    requires VmInv(s, nodes) && Valid(s) && f < |s.owner|
    ensures VmInv(Drain(s, 0, f), nodes)
    ensures forall r :: IsRoot(nodes, r) ==> Space(Drain(s, 0, f).ram, r) == Space(s.ram, r)
    ensures forall t, i: nat :: t in nodes ==> Read(Drain(s, 0, f).ram, t, i) == Read(s.ram, t, i)
  {
    hide TreeInv, SeqInv, Lookup;
    if s.owner[f].Pending? && Idle(s, f) {
      PushBusy(s, nodes, f);
      var ram' := Push(s, 0, f).ram;
      forall r | IsRoot(nodes, r)
        ensures Space(ram', r) == Space(s.ram, r)
      {
        forall va
          ensures Lookup(ram', r, 3, va) == Lookup(s.ram, r, 3, va)
        {
          LookupFrame(s.ram, ram', nodes, r, va);
        }
      }
    }
  }

  lemma {:induction false} FindTableExact(ram: Ram, nodes: Forest, frame: nat, level: nat, va: nat)
    requires TreeInv(ram, nodes) && frame in nodes && Level(nodes[frame]) == level
    requires OnWalk(nodes[frame], nodes[frame].root, va)
    ensures match FindTable(ram, frame, level, va)
            case Found(t) =>
              && t in nodes && |nodes[t].path| == 3 && OnWalk(nodes[t], nodes[frame].root, va)
            case Missing(error) =>
              || (error == NotMapped && Lookup(ram, frame, level, va).None?)
              || (error == Conflict && var l := Lookup(ram, frame, level, va); l.Some? && l.value.level > 0)
    decreases level
  {
    hide TreeInv, Index, Read, Present, Huge, TableFrame, OnWalk;
    if level > 0 {
      var e := Read(ram, frame, Index(va, level));
      if Present(e) {
        WalkDown(ram, nodes, frame, level, va);
        if !Huge(e) { FindTableExact(ram, nodes, TableFrame(e), level - 1, va); }
      }
    }
  }

  /** Clearing the entry of a mapped page. */
  lemma UnmapLeaf(s: State, nodes: Forest, root: nat, t: nat, va: nat)
    requires VmInv(s, nodes) && IsRoot(nodes, root) && IsPage(va)
    requires t in nodes && |nodes[t].path| == 3 && OnWalk(nodes[t], root, va)
    requires Present(Read(s.ram, t, Index(va, 0)))
    ensures var s' := SetEntry(s, t, Index(va, 0), 0);
            && VmInv(s', nodes) && Valid(s')
            && va in Space(s.ram, root) && Space(s.ram, root)[va] == Leaf(0, Read(s.ram, t, Index(va, 0)))
            && Space(s'.ram, root) == Space(s.ram, root) - {va}
            && forall r :: IsRoot(nodes, r) && r != root ==> Space(s'.ram, r) == Space(s.ram, r)
  {
    hide SeqInv, TreeInv;
    PathBound(va);
    ZeroNotPresent();
    TableWrite(s, nodes, t, Index(va, 0), 0);
    SeqBasics(s);
    LookupFromNode(s.ram, nodes, t, va);
    LeafWrite(s.ram, nodes, t, va, 0, root);
  }

  /**
   `unmap` refines removal from the abstract map: it succeeds exactly on pages mapped by a 4 KiB
   entry, removes that page and no other, keeps the mapping counts exact, and on failure does
   nothing.
   */
  lemma UnmapRefines(s: State, nodes: Forest, root: nat, va: nat)
    requires VmInv(s, nodes) && Valid(s) && IsRoot(nodes, root) && va < WORD
    ensures var (s', r) := Unmap(s, root, va);
            var sp := Space(s.ram, root);
            && VmInv(s', nodes)
            && (r.Err? ==> s' == s)
            && (r.Ok? <==> IsPage(va) && va in sp && sp[va].level == 0)
            && (r.Ok? ==> Space(s'.ram, root) == sp - {va})
            && (forall q :: IsRoot(nodes, q) && q != root ==> Space(s'.ram, q) == Space(s.ram, q))
            && (r == Err(NonCanonical) <==> !IsCanonical(va))
            && (r == Err(NotAligned) <==> IsCanonical(va) && va % FRAME_SIZE != 0)
            && (r == Err(NotMapped) <==> IsPage(va) && va !in sp)
            && (r == Err(Conflict) <==> IsPage(va) && va in sp && sp[va].level > 0)
    ensures CountInv(s, nodes) ==> CountInv(Unmap(s, root, va).0, nodes)
    ensures CountInv(s, nodes) && Unmap(s, root, va).1.Ok? ==>
              var f := LeafFrame(Space(s.ram, root)[va].entry);
              && f < |s.owner| && s.mappings[f] > 0
              && Unmap(s, root, va).0.mappings == s.mappings[f := s.mappings[f] - 1]
  {
    hide SeqInv, TreeInv, Lookup, IsCanonical, Index, Present, And, FindTable, CountInv, LeafFrame;
    if IsPage(va) {
      assert Path(va)[..0] == [];
      FindTableExact(s.ram, nodes, root, 3, va);
      var found := FindTable(s.ram, root, 3, va);
      if found.Found? {
        var t := found.table;
        var e := Read(s.ram, t, Index(va, 0));
        if Present(e) {
          UnmapLeaf(s, nodes, root, t, va);
          var s1 := SetEntry(s, t, Index(va, 0), 0);
          if LeafFrame(e) < |s.owner| {
            var f := LeafFrame(e);
            var m := s1.mappings[f := (s1.mappings[f] + U32 - 1) % U32];
            CountKeeps(s1, nodes, m);
            DrainKeeps(s1.(mappings := m), nodes, f);
          }
          if CountInv(s, nodes) { UnmapCounts(s, nodes, root, t, va); }
        } else {
          AbsentIsUnmapped(s.ram, nodes, root, t, va);
        }
      }
    }
  }

  /** What a successful `unmap` changes: one table entry, the count of the leaf's frame, and that frame if it drains. */
  lemma UnmapTouches(s: State, nodes: Forest, root: nat, va: nat)
    requires VmInv(s, nodes) && Valid(s) && IsRoot(nodes, root) && va < WORD && Unmap(s, root, va).1.Ok?
    ensures IsPage(va) && va in Space(s.ram, root)
    ensures var s' := Unmap(s, root, va).0;
            var f := LeafFrame(Space(s.ram, root)[va].entry);
            && |s'.ram| == |s.ram| && |s'.mappings| == |s.mappings| && s'.pinned == s.pinned && |s'.owner| == |s.owner|
            && (forall h :: 0 <= h < |s.ram| && h !in nodes && (h != f || s'.owner[h] == s.owner[h]) ==>
                  s'.ram[h] == s.ram[h])
            && (forall h :: 0 <= h < |s.owner| && h != f ==>
                  s'.mappings[h] == s.mappings[h] && s'.owner[h] == s.owner[h])
            && (f < |s.owner| && s'.owner[f] != s.owner[f] ==> s'.owner[f].Free?)
  {
    hide SeqInv, TreeInv, Lookup, IsCanonical, Index, Present, And, FindTable, LeafFrame;
    assert Path(va)[..0] == [];
    FindTableExact(s.ram, nodes, root, 3, va);
    UnmapLeaf(s, nodes, root, FindTable(s.ram, root, 3, va).table, va);
  }

  lemma UnmapCounts(s: State, nodes: Forest, root: nat, t: nat, va: nat)
    requires VmInv(s, nodes) && Valid(s) && IsPage(va) && CountInv(s, nodes)
    requires t in nodes && |nodes[t].path| == 3 && Present(Read(s.ram, t, Index(va, 0)))
    requires VmInv(SetEntry(s, t, Index(va, 0), 0), nodes)
    ensures var f := LeafFrame(Read(s.ram, t, Index(va, 0)));
            && f < |s.owner| && s.mappings[f] > 0
            && CountInv(RemoveMapping(SetEntry(s, t, Index(va, 0), 0), 0, f), nodes)
            && RemoveMapping(SetEntry(s, t, Index(va, 0), 0), 0, f).mappings == s.mappings[f := s.mappings[f] - 1]
  {
    hide SeqInv, TreeInv, Present, And, LeafFrame, Index, CountInv;
    var i := Index(va, 0);
    var f := LeafFrame(Read(s.ram, t, i));
    PathBound(va);
    TreeBasics(s.ram, nodes, t);
    CountRemove(s, nodes, t, i, f);
    var s1 := SetEntry(s, t, i, 0);
    var s2 := s1.(mappings := s.mappings[f := s.mappings[f] - 1]);
    CountKeeps(s1, nodes, s2.mappings);
    DrainKeeps(s2, nodes, f);
    CountFrame(s2, Drain(s2, 0, f), nodes);
  }

  lemma AbsentIsUnmapped(ram: Ram, nodes: Forest, root: nat, t: nat, va: nat)
    requires TreeInv(ram, nodes) && IsPage(va)
    requires t in nodes && |nodes[t].path| == 3 && OnWalk(nodes[t], root, va)
    requires !Present(Read(ram, t, Index(va, 0)))
    ensures va !in Space(ram, root)
  {
    LookupFromNode(ram, nodes, t, va);
  }
}
