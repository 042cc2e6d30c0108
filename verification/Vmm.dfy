/**
 Address spaces (`kernel/src/vmm.rs`) over the physical memory manager: growing tables, mapping,
 unmapping and translating.
 */
module Vmm {
  import opened Frames
  import opened Bits
  import opened Pmm
  import opened FreeLists
  import opened FrameAlloc
  import opened PageEntries
  import opened PageTree

  datatype MapError = NotAligned | NonCanonical | OutOfRange | AllocFailed | Conflict | NotMapped

  datatype Result = Ok | Err(error: MapError)

  // ---------- the operations ----------

  function Zeroed(ram: Ram, f: nat): Ram {
    if f < |ram| then ram[f := seq(WORDS, _ => 0)] else ram
  }

  function SetEntry(s: State, f: nat, i: nat, w: nat): State {
    s.(ram := Write(s.ram, f, i, w))
  }

  /** Hang the fresh frame `g` below entry `(f, i)`. */
  function Hang(s: State, f: nat, i: nat, g: nat, user: nat): State {
    SetEntry(s.(ram := Zeroed(s.ram, g)), f, i, TableEntry(g, user))
  }

  datatype Descent = Reached(state: State, table: nat) | Failed(state: State, error: MapError)

  /** The walk of `map` and `map_window` from `level` down to `stop`, growing missing tables. */
  function Descend(s: State, frame: nat, va: nat, level: nat, stop: nat, user: nat): (d: Descent)
    requires |s.shards| > 0 && stop >= 1
    ensures d.state.mappings == s.mappings && |d.state.shards| == |s.shards|
    decreases level, va
  {
    if level < stop then Reached(s, frame)
    else
      var i := Index(va, level);
      var e := Read(s.ram, frame, i);
      if !Present(e) then
        var (s1, g) := Alloc(s);
        if g.None? then Failed(s1, AllocFailed)
        else Descend(Hang(s1, frame, i, g.value, user), g.value, va, level - 1, stop, user)
      else if Huge(e) then Failed(s, Conflict)
      else
        var s1 := if user != 0 then SetEntry(s, frame, i, Or(e, user)) else s;
        Descend(s1, TableFrame(e), va, level - 1, stop, user)
  }

  // ---------- invariant ----------

  /** Tables form a forest of kernel-owned frames, so no free list ever touches one. */
  ghost predicate VmInv(s: State, nodes: Forest) {
    && SeqInv(s) && TreeInv(s.ram, nodes)
    && forall f :: f in nodes ==> f < |s.owner| && s.owner[f].Kernel?
  }

  /** What growing and promoting tables may do: new empty tables, and nothing a walk can see. */
  ghost predicate Evolves(s: State, nodes: Forest, s': State, nodes': Forest) {
    && VmInv(s', nodes')
    && s'.mappings == s.mappings && s'.pinned == s.pinned && s'.gen == s.gen
    && |s'.owner| == |s.owner| && |s'.ram| == |s.ram|
    && (forall f :: f in nodes ==> f in nodes' && nodes'[f] == nodes[f])
    && (forall f :: f in nodes' && f !in nodes ==> IsFree(s, f) && nodes'[f].path != [])
    && (forall f :: 0 <= f < |s.owner| ==>
          s'.owner[f] == if f in nodes' then Kernel else s.owner[f])
    && (forall f, i: nat :: f in nodes' && |nodes'[f].path| == 3 && i < ENTRIES ==>
          Read(s'.ram, f, i) == if f in nodes then Read(s.ram, f, i) else 0)
    && (forall f :: 0 <= f < |s.ram| && f !in nodes && !IsFree(s, f) ==> s'.ram[f] == s.ram[f])
    && (forall r, va :: IsRoot(nodes, r) ==> Lookup(s'.ram, r, 3, va) == Lookup(s.ram, r, 3, va))
  }

  lemma EvolvesSelf(s: State, nodes: Forest)
    requires VmInv(s, nodes)
    ensures Evolves(s, nodes, s, nodes)
  {
  }

  lemma EvolvesTrans(s: State, nodes: Forest, s1: State, nodes1: Forest, s2: State, nodes2: Forest)
    requires VmInv(s, nodes) && Evolves(s, nodes, s1, nodes1) && Evolves(s1, nodes1, s2, nodes2)
    ensures Evolves(s, nodes, s2, nodes2)
  {
    forall r, va | IsRoot(nodes, r)
      ensures Lookup(s2.ram, r, 3, va) == Lookup(s.ram, r, 3, va)
    {
      assert IsRoot(nodes1, r);
    }
    forall f | f in nodes2 && f !in nodes
      ensures IsFree(s, f) && nodes2[f].path != []
    {
      if f in nodes1 { } else { assert IsFree(s1, f); }
    }
    forall f, i: nat | f in nodes2 && |nodes2[f].path| == 3 && i < ENTRIES
      ensures Read(s2.ram, f, i) == if f in nodes then Read(s.ram, f, i) else 0
    {
      if f in nodes1 {
        assert Read(s2.ram, f, i) == Read(s1.ram, f, i);
      }
    }
  }

  /** Memory of frames that are not Free is not list memory. */
  lemma BusyWrite(s: State, ram': Ram)
    requires SeqInv(s) && ValidRam(ram') && |ram'| == |s.ram|
    requires forall f: nat :: IsFree(s, f) ==> ram'[f] == s.ram[f]
    ensures SeqInv(s.(ram := ram'))
  {
    var an := Anchors(s, []);
    forall f | Meetings(s.ram, an, f) > 0
      ensures Next(ram', f) == Next(s.ram, f)
    {
      assert IsFree(s, f);
    }
    MeetingsFrame(s.ram, ram', an);
    var s' := s.(ram := ram');
    assert Anchors(s', []) == an;
    forall k | 0 <= k < |s'.shards|
      ensures Terminated(s'.ram, s'.shards[k])
    {
      assert an[k] == s.shards[k];
    }
    assert an[|s.shards|] == s.global;
  }

  /** Overwriting an entry of a table touches no list. */
  lemma TableWrite(s: State, nodes: Forest, f: nat, i: nat, w: nat)
    requires VmInv(s, nodes) && f in nodes && i < ENTRIES
    requires KeepsShape(nodes[f], Read(s.ram, f, i), w)
    requires MustBeOpen(nodes[f], w) ==> User(EntryTo(s.ram, nodes[f]))
    ensures VmInv(SetEntry(s, f, i, w), nodes)
    ensures f < |s.ram| && ValidRam(s.ram) && |s.ram| == |s.owner|
  {
    hide TreeInv, ListInv;
    TreeBasics(s.ram, nodes, f);
    WriteKeeps(s.ram, nodes, f, i, w);
    SeqBasics(s);
    ReadOfWrite(s.ram, f, i, w, f, i);
    BusyWrite(s, Write(s.ram, f, i, w));
  }

  lemma SeqBasics(s: State)
    requires SeqInv(s)
    ensures Valid(s)
  {
  }

  /** Setting the USER bit of an intermediate entry. */
  lemma PromoteStep(s: State, nodes: Forest, f: nat, i: nat)
    requires VmInv(s, nodes) && f in nodes && |nodes[f].path| < 3 && i < ENTRIES
    requires TablePointer(Read(s.ram, f, i))
    requires nodes[f].path != [] ==> User(EntryTo(s.ram, nodes[f]))
    ensures Evolves(s, nodes, SetEntry(s, f, i, Or(Read(s.ram, f, i), PTE_USER)), nodes)
  {
    hide TreeInv, SeqInv, Or;
    var e := Read(s.ram, f, i);
    var w := Or(e, PTE_USER);
    PromotedFields(e);
    TableWrite(s, nodes, f, i, w);
    var ram' := Write(s.ram, f, i, w);
    forall r, va | IsRoot(nodes, r)
      ensures Lookup(ram', r, 3, va) == Lookup(s.ram, r, 3, va)
    {
      LookupWrite(s.ram, nodes, f, i, w, r, va);
    }
    forall g, j: nat
      ensures Read(ram', g, j) == if g == f && j == i then w else Read(s.ram, g, j)
    {
      ReadOfWrite(s.ram, f, i, w, g, j);
    }
  }

  /** `s2` is `s` after handing out and zeroing the frame `g`. */
  ghost predicate Fresh(s: State, nodes: Forest, s2: State, g: nat) {
    && IsFree(s, g) && g !in nodes && g < U32
    && |s2.ram| == |s.ram| && g < |s.ram|
    && s2.owner == s.owner[g := Kernel]
    && s2.mappings == s.mappings && s2.pinned == s.pinned && s2.gen == s.gen
    && VmInv(s2, nodes) && ZeroTable(s2.ram, g)
    && (forall f :: 0 <= f < |s.ram| && !IsFree(s, f) ==> s2.ram[f] == s.ram[f])
  }

  /** The frame handed out for a table is new to the forest, and taking it disturbs no table. */
  lemma FreshFrame(s: State, nodes: Forest)
    requires VmInv(s, nodes) && Alloc(s).1.Some?
    ensures var (s1, r) := Alloc(s);
            Fresh(s, nodes, s1.(ram := Zeroed(s1.ram, r.value)), r.value)
  {
    AllocExact(s);
    var (s1, r) := Alloc(s);
    var ram2 := Zeroed(s1.ram, r.value);
    BusyWrite(s1, ram2);
    TreeFrame(s.ram, ram2, nodes);
  }

  lemma HangKeeps(s: State, nodes: Forest, s2: State, f: nat, i: nat, g: nat, user: nat)
    requires VmInv(s, nodes) && Fresh(s, nodes, s2, g) && CanGrow(s2.ram, nodes, f, i, g, user)
    ensures VmInv(SetEntry(s2, f, i, TableEntry(g, user)), nodes[g := Place(nodes, f, i)])
    ensures forall r, va :: IsRoot(nodes, r) ==>
              Lookup(Write(s2.ram, f, i, TableEntry(g, user)), r, 3, va) == Lookup(s.ram, r, 3, va)
  {
    var ram' := Write(s2.ram, f, i, TableEntry(g, user));
    GrowKeeps(s2.ram, nodes, f, i, g, user);
    BusyWrite(s2, ram');
    forall r, va | IsRoot(nodes, r)
      ensures Lookup(ram', r, 3, va) == Lookup(s.ram, r, 3, va)
    {
      GrowLookup(s2.ram, nodes, f, i, g, user, r, va);
      LookupFrame(s.ram, s2.ram, nodes, r, va);
    }
  }

  lemma HangEvolves(s: State, nodes: Forest, s2: State, f: nat, i: nat, g: nat, user: nat)
    requires VmInv(s, nodes) && Fresh(s, nodes, s2, g) && CanGrow(s2.ram, nodes, f, i, g, user)
    ensures Evolves(s, nodes, SetEntry(s2, f, i, TableEntry(g, user)), nodes[g := Place(nodes, f, i)])
  {
    hide SeqInv, TreeInv, Lookup, TableEntry;
    TreeBasics(s2.ram, nodes, f);
    HangKeeps(s, nodes, s2, f, i, g, user);
    var w := TableEntry(g, user);
    var nodes' := nodes[g := Place(nodes, f, i)];
    var ram' := Write(s2.ram, f, i, w);
    forall h, j: nat | h in nodes' && |nodes'[h].path| == 3 && j < ENTRIES
      ensures Read(ram', h, j) == if h in nodes then Read(s.ram, h, j) else 0
    {
      ReadOfWrite(s2.ram, f, i, w, h, j);
    }
  }

  /** Growing one table. */
  lemma GrowStep(s: State, nodes: Forest, f: nat, i: nat, user: nat)
    requires VmInv(s, nodes) && f in nodes && |nodes[f].path| < 3 && i < ENTRIES
    requires !Present(Read(s.ram, f, i)) && Alloc(s).1.Some?
    requires user == 0 || user == PTE_USER
    requires nodes[f].path != [] && user == PTE_USER ==> User(EntryTo(s.ram, nodes[f]))
    ensures var (s1, r) := Alloc(s);
            && r.value !in nodes && r.value < U32
            && Evolves(s, nodes, Hang(s1, f, i, r.value, user), nodes[r.value := Place(nodes, f, i)])
            && Read(Hang(s1, f, i, r.value, user).ram, f, i) == TableEntry(r.value, user)
  {
    FreshFrame(s, nodes);
    var (s1, r) := Alloc(s);
    var g := r.value;
    var s2 := s1.(ram := Zeroed(s1.ram, g));
    assert NodeOk(s.ram, nodes, f);
    if nodes[f].path != [] { assert EntryTo(s2.ram, nodes[f]) == EntryTo(s.ram, nodes[f]); }
    HangEvolves(s, nodes, s2, f, i, g, user);
    ReadOfWrite(s2.ram, f, i, TableEntry(g, user), f, i);
  }

  lemma GrowLookup(ram: Ram, nodes: Forest, f: nat, i: nat, g: nat, user: nat, r: nat, va: nat)
    requires CanGrow(ram, nodes, f, i, g, user) && IsRoot(nodes, r)
    ensures Lookup(Write(ram, f, i, TableEntry(g, user)), r, 3, va) == Lookup(ram, r, 3, va)
  {
    var w := TableEntry(g, user);
    TableEntryFields(g, user);
    assert NodeOk(ram, nodes, f);
    assert ZeroTable(Write(ram, f, i, w), g) by {
      forall j: nat | j < ENTRIES
        ensures Read(Write(ram, f, i, w), g, j) == 0
      {
        ReadOfWrite(ram, f, i, w, g, j);
      }
    }
    LookupWrite(ram, nodes, f, i, w, r, va);
  }

  /** The outcome `d` of a descent for `va` below `root` down to level `stop - 1`. */
  ghost predicate DescentOk(s: State, nodes: Forest, root: nat, va: nat, stop: nat, user: nat, d: Descent,
                            nodes': Forest) {
    && Evolves(s, nodes, d.state, nodes')
    && match d
       case Reached(s', t) =>
         && t in nodes' && |nodes'[t].path| <= 3 && Level(nodes'[t]) == stop - 1
         && OnWalk(nodes'[t], root, va)
         && (user == PTE_USER && nodes'[t].path != [] ==> User(EntryTo(s'.ram, nodes'[t])))
       case Failed(s', error) =>
         || (error == Conflict && Lookup(s.ram, root, 3, va).Some?)
         || (error == AllocFailed && Lookup(s.ram, root, 3, va).None? && forall f: nat :: !IsFree(s', f))
  }

  lemma DescentTrans(s: State, nodes: Forest, s1: State, nodes1: Forest, root: nat, va: nat, stop: nat, user: nat,
                     d: Descent, nodes': Forest)
    requires VmInv(s, nodes) && Evolves(s, nodes, s1, nodes1) && IsRoot(nodes, root)
    requires DescentOk(s1, nodes1, root, va, stop, user, d, nodes')
    ensures DescentOk(s, nodes, root, va, stop, user, d, nodes')
  {
    EvolvesTrans(s, nodes, s1, nodes1, d.state, nodes');
    assert Lookup(s1.ram, root, 3, va) == Lookup(s.ram, root, 3, va);
  }

  /** `frame` is the table for `va` at `level`, and the way to it is open to the user if need be. */
  ghost predicate DescentAt(s: State, nodes: Forest, root: nat, frame: nat, va: nat, level: int, user: nat) {
    && VmInv(s, nodes) && |s.shards| == SHARD_COUNT && IsRoot(nodes, root)
    && frame in nodes && |nodes[frame].path| <= 3 && Level(nodes[frame]) == level && OnWalk(nodes[frame], root, va)
    && (user == 0 || user == PTE_USER)
    && (user == PTE_USER && nodes[frame].path != [] ==> User(EntryTo(s.ram, nodes[frame])))
  }

  lemma DescendGrow(s: State, nodes: Forest, root: nat, frame: nat, va: nat, level: nat, user: nat)
    requires DescentAt(s, nodes, root, frame, va, level, user) && level > 0
    requires !Present(Read(s.ram, frame, Index(va, level))) && Alloc(s).1.Some?
    ensures var (s1, r) := Alloc(s);
            var g, i := r.value, Index(va, level);
            var s2, nodes2 := Hang(s1, frame, i, g, user), nodes[g := Place(nodes, frame, i)];
            Evolves(s, nodes, s2, nodes2) && DescentAt(s2, nodes2, root, g, va, level - 1, user)
  {
    var i := Index(va, level);
    PathBound(va);
    GrowStep(s, nodes, frame, i, user);
    var (s1, r) := Alloc(s);
    TableEntryFields(r.value, user);
    NextOnWalk(nodes, frame, i, Place(nodes, frame, i), va);
  }

  lemma DescendPromote(s: State, nodes: Forest, root: nat, frame: nat, va: nat, level: nat)
    requires DescentAt(s, nodes, root, frame, va, level, PTE_USER) && level > 0
    requires TablePointer(Read(s.ram, frame, Index(va, level)))
    ensures var e, i := Read(s.ram, frame, Index(va, level)), Index(va, level);
            var s1 := SetEntry(s, frame, i, Or(e, PTE_USER));
            Evolves(s, nodes, s1, nodes) && DescentAt(s1, nodes, root, TableFrame(e), va, level - 1, PTE_USER)
  {
    var i := Index(va, level);
    var e := Read(s.ram, frame, i);
    PathBound(va);
    PromoteStep(s, nodes, frame, i);
    PromotedFields(e);
    assert NodeOk(s.ram, nodes, frame);
    ReadOfWrite(s.ram, frame, i, Or(e, PTE_USER), frame, i);
    assert EntryOk(s.ram, nodes, frame, i);
    NextOnWalk(nodes, frame, i, nodes[TableFrame(e)], va);
  }

  lemma DescendFollow(s: State, nodes: Forest, root: nat, frame: nat, va: nat, level: nat)
    requires DescentAt(s, nodes, root, frame, va, level, 0) && level > 0
    requires TablePointer(Read(s.ram, frame, Index(va, level)))
    ensures DescentAt(s, nodes, root, TableFrame(Read(s.ram, frame, Index(va, level))), va, level - 1, 0)
  {
    hide SeqInv;
    var i := Index(va, level);
    PathBound(va);
    assert EntryOk(s.ram, nodes, frame, i);
    NextOnWalk(nodes, frame, i, nodes[TableFrame(Read(s.ram, frame, i))], va);
  }

  /** The three ways to stop at once. */
  lemma DescendStop(s: State, nodes: Forest, root: nat, frame: nat, va: nat, level: nat, stop: nat, user: nat)
    requires DescentAt(s, nodes, root, frame, va, level, user) && 1 <= stop <= level + 1
    requires
      var e := Read(s.ram, frame, Index(va, level));
      level < stop || (!Present(e) && Alloc(s).1.None?) || (Present(e) && Huge(e))
    ensures DescentOk(s, nodes, root, va, stop, user, Descend(s, frame, va, level, stop, user), nodes)
  {
    hide ListInv;
    EvolvesSelf(s, nodes);
    if level >= stop {
      var e := Read(s.ram, frame, Index(va, level));
      LookupFromNode(s.ram, nodes, frame, va);
      if !Present(e) {
        AllocExact(s);
      } else {
        HugeIsLeaf(s.ram, nodes, frame, va, level);
      }
    }
  }

  /** The descent keeps the invariant and every translation, and says why it stopped. */
  lemma {:induction false} DescendKeeps(s: State, nodes: Forest, root: nat, frame: nat, va: nat, level: nat,
                                        stop: nat, user: nat)
    returns (nodes': Forest)
    requires DescentAt(s, nodes, root, frame, va, level, user) && 1 <= stop <= level + 1
    ensures DescentOk(s, nodes, root, va, stop, user, Descend(s, frame, va, level, stop, user), nodes')
    decreases level
  {
    hide SeqInv, TreeInv, Evolves, DescentOk, Alloc, Hang, SetEntry, Lookup, OnWalk, EntryTo;
    var i := Index(va, level);
    var e := Read(s.ram, frame, i);
    if level < stop || (!Present(e) && Alloc(s).1.None?) || (Present(e) && Huge(e)) {
      DescendStop(s, nodes, root, frame, va, level, stop, user);
      nodes' := nodes;
    } else if !Present(e) {
      var (s1, r) := Alloc(s);
      DescendGrow(s, nodes, root, frame, va, level, user);
      var s2, nodes2 := Hang(s1, frame, i, r.value, user), nodes[r.value := Place(nodes, frame, i)];
      nodes' := DescendKeeps(s2, nodes2, root, r.value, va, level - 1, stop, user);
      DescentTrans(s, nodes, s2, nodes2, root, va, stop, user, Descend(s2, r.value, va, level - 1, stop, user), nodes');
    } else if user != 0 {
      DescendPromote(s, nodes, root, frame, va, level);
      var s1 := SetEntry(s, frame, i, Or(e, user));
      nodes' := DescendKeeps(s1, nodes, root, TableFrame(e), va, level - 1, stop, user);
      var d := Descend(s1, TableFrame(e), va, level - 1, stop, user);
      DescentTrans(s, nodes, s1, nodes, root, va, stop, user, d, nodes');
    } else {
      DescendFollow(s, nodes, root, frame, va, level);
      nodes' := DescendKeeps(s, nodes, root, TableFrame(e), va, level - 1, stop, user);
    }
  }

  lemma HugeIsLeaf(ram: Ram, nodes: Forest, frame: nat, va: nat, level: nat)
    requires TreeInv(ram, nodes) && frame in nodes && Level(nodes[frame]) == level <= 3
    requires Present(Read(ram, frame, Index(va, level))) && Huge(Read(ram, frame, Index(va, level)))
    ensures Lookup(ram, frame, level, va).Some?
  {
    PathBound(va);
    assert NodeOk(ram, nodes, frame);
    assert EntryOk(ram, nodes, frame, Index(va, level));
  }
}
