/**
 The tables of all address spaces as a forest.  A ghost map `nodes` places every table frame: the
 root it belongs to, the indices that lead to it, and the table above it.  As a map gives each
 frame one place, an invariant that is local to single entries says that no two entries share a
 table.
 */
module PageTree {
  import opened Frames
  import opened Bits
  import opened Pmm
  import opened PageEntries

  datatype Node = Node(root: nat, path: seq<nat>, parent: nat)

  type Forest = map<nat, Node>

  predicate IsRoot(nodes: Forest, r: nat) {
    r in nodes && nodes[r].path == [] && nodes[r].root == r
  }

  /** 3 for a root, 0 for a table of 4 KiB entries. */
  function Level(n: Node): int {
    3 - |n.path|
  }

  predicate TablePointer(e: nat) {
    Present(e) && !Huge(e)
  }

  /** The entry that points at the non-root table `n`. */
  function EntryTo(ram: Ram, n: Node): nat
    requires n.path != []
  {
    Read(ram, n.parent, n.path[|n.path| - 1])
  }

  predicate NodeOk(ram: Ram, nodes: Forest, f: nat)
    requires f in nodes
  {
    var n := nodes[f];
    && f < |ram| && |n.path| <= 3
    && IsRoot(nodes, n.root)
    && (n.path == [] ==> n.root == f)
    && (n.path != [] ==>
          && n.parent in nodes
          && nodes[n.parent].root == n.root && nodes[n.parent].path == n.path[..|n.path| - 1]
          && n.path[|n.path| - 1] < ENTRIES
          && TablePointer(EntryTo(ram, n)) && TableFrame(EntryTo(ram, n)) == f)
  }

  /** A table pointer or 4 KiB leaf `e` with USER, in the table of `n`: the entry above must have USER too. */
  predicate MustBeOpen(n: Node, e: nat) {
    n.path != [] && Present(e) && User(e) && (|n.path| == 3 || !Huge(e))
  }

  predicate EntryOk(ram: Ram, nodes: Forest, f: nat, i: nat)
    requires f in nodes
  {
    var n, e := nodes[f], Read(ram, f, i);
    Present(e) ==>
      && (n.path == [] ==> !Huge(e))
      && (|n.path| < 3 && !Huge(e) ==>
            && TableFrame(e) in nodes && nodes[TableFrame(e)] == Node(n.root, n.path + [i], f)
            && Permissive(e))
      && (MustBeOpen(n, e) ==> User(EntryTo(ram, n)))
  }

  ghost predicate TreeInv(ram: Ram, nodes: Forest) {
    && ValidRam(ram)
    && (forall f :: f in nodes ==> NodeOk(ram, nodes, f))
    && (forall f, i: nat :: f in nodes && i < ENTRIES ==> EntryOk(ram, nodes, f, i))
  }

  lemma TreeBasics(ram: Ram, nodes: Forest, f: nat)
    requires TreeInv(ram, nodes) && f in nodes
    ensures ValidRam(ram) && f < |ram|
  {
    assert NodeOk(ram, nodes, f);
  }

  // ---------- the software walk ----------

  datatype Leaf = Leaf(level: nat, entry: nat)

  /** The entry that maps `va`, walking from `frame` at `level`.  The top level has no huge pages. */
  function Lookup(ram: Ram, frame: nat, level: nat, va: nat): Option<Leaf>
    decreases level, va
  {
    var e := Read(ram, frame, Index(va, level));
    if !Present(e) then None
    else if level == 0 || (level < 3 && Huge(e)) then Some(Leaf(level, e))
    else Lookup(ram, TableFrame(e), level - 1, va)
  }

  /** Whether every entry on the walk, leaf included, allows user access. */
  predicate UserWalk(ram: Ram, frame: nat, level: nat, va: nat)
    decreases level, va
  {
    var e := Read(ram, frame, Index(va, level));
    && Present(e) && User(e)
    && (level == 0 || (level < 3 && Huge(e)) || UserWalk(ram, TableFrame(e), level - 1, va))
  }

  /** Whether every entry on the walk allows writing. */
  predicate WriteWalk(ram: Ram, frame: nat, level: nat, va: nat)
    decreases level, va
  {
    var e := Read(ram, frame, Index(va, level));
    && Present(e) && Bit(e, 1)
    && (level == 0 || (level < 3 && Huge(e)) || WriteWalk(ram, TableFrame(e), level - 1, va))
  }

  /** Whether no entry on the walk forbids execution. */
  predicate ExecWalk(ram: Ram, frame: nat, level: nat, va: nat)
    decreases level, va
  {
    var e := Read(ram, frame, Index(va, level));
    && Present(e) && !Bit(e, 63)
    && (level == 0 || (level < 3 && Huge(e)) || ExecWalk(ram, TableFrame(e), level - 1, va))
  }

  /** On the walk for `va` from `frame` at `level` down to `stop`, every entry is there and has USER. */
  predicate TablesOpen(ram: Ram, frame: nat, level: nat, stop: nat, va: nat)
    requires stop >= 1
    decreases level, va
  {
    level < stop
    || (var e := Read(ram, frame, Index(va, level));
        Present(e) && User(e) && TablesOpen(ram, TableFrame(e), level - 1, stop, va))
  }

  function Path(va: nat): seq<nat> {
    [Index(va, 3), Index(va, 2), Index(va, 1), Index(va, 0)]
  }

  lemma PathBound(va: nat)
    ensures Index(va, 0) < ENTRIES && Index(va, 1) < ENTRIES && Index(va, 2) < ENTRIES && Index(va, 3) < ENTRIES
  {
    IndexIsField(va, 0); IndexIsField(va, 1); IndexIsField(va, 2); IndexIsField(va, 3);
  }

  /** The table of node `n` is on the walk for `va` from `root`. */
  predicate OnWalk(n: Node, root: nat, va: nat) {
    n.root == root && |n.path| <= 3 && n.path == Path(va)[..|n.path|]
  }

  function Slot(n: Node, va: nat): nat
    requires |n.path| <= 3
  {
    Path(va)[|n.path|]
  }

  predicate ZeroTable(ram: Ram, f: nat) {
    forall i: nat :: i < ENTRIES ==> Read(ram, f, i) == 0
  }

  /** `e'` behaves in a walk as `e` does: it may gain the USER bit or lead to an empty table. */
  predicate Alike(ram': Ram, level: int, e: nat, e': nat) {
    if !Present(e) then
      !Present(e') || (level > 0 && !Huge(e') && ZeroTable(ram', TableFrame(e')))
    else
      && Present(e') && (Huge(e') <==> Huge(e)) && TableFrame(e') == TableFrame(e)
      && (level == 0 || Huge(e) ==> e' == e)
  }

  lemma ZeroNotPresent()
    ensures !Present(0)
  {
  }

  function Place(nodes: Forest, f: nat, i: nat): Node
    requires f in nodes
  {
    Node(nodes[f].root, nodes[f].path + [i], f)
  }

  lemma NextOnWalk(nodes: Forest, f: nat, i: nat, m: Node, va: nat)
    requires f in nodes && |nodes[f].path| < 3 && OnWalk(nodes[f], nodes[f].root, va)
    requires i == Index(va, Level(nodes[f])) && m == Place(nodes, f, i)
    ensures OnWalk(m, nodes[f].root, va) && Level(m) == Level(nodes[f]) - 1
  {
    assert m.path == Path(va)[..|m.path|];
  }

  /** A present entry leads one table down the walk, or is a huge leaf below the top level. */
  lemma WalkDown(ram: Ram, nodes: Forest, frame: nat, level: nat, va: nat)
    requires TreeInv(ram, nodes) && frame in nodes && Level(nodes[frame]) == level > 0
    requires OnWalk(nodes[frame], nodes[frame].root, va) && Present(Read(ram, frame, Index(va, level)))
    ensures var e := Read(ram, frame, Index(va, level));
            if Huge(e) then level < 3
            else
              && TableFrame(e) in nodes && nodes[TableFrame(e)].root == nodes[frame].root
              && Level(nodes[TableFrame(e)]) == level - 1 && OnWalk(nodes[TableFrame(e)], nodes[frame].root, va)
  {
    hide Index, Read, Present, Huge, TableFrame, OnWalk;
    var i := Index(va, level);
    var e := Read(ram, frame, i);
    PathBound(va);
    assert NodeOk(ram, nodes, frame) && EntryOk(ram, nodes, frame, i);
    if !Huge(e) { NextOnWalk(nodes, frame, i, nodes[TableFrame(e)], va); }
  }

  lemma SlotIndex(n: Node, root: nat, va: nat)
    requires OnWalk(n, root, va)
    ensures |n.path| <= 3 && Slot(n, va) == Index(va, Level(n))
  {
    hide Index;
  }

  /** Walks over alike entries find the same leaf. */
  lemma {:induction false} LookupAlike(ram: Ram, ram': Ram, nodes: Forest, frame: nat, level: nat, va: nat)
    requires TreeInv(ram, nodes) && frame in nodes && Level(nodes[frame]) == level
    requires OnWalk(nodes[frame], nodes[frame].root, va)
    requires forall f :: f in nodes && OnWalk(nodes[f], nodes[frame].root, va) ==>
               Alike(ram', Level(nodes[f]), Read(ram, f, Slot(nodes[f], va)), Read(ram', f, Slot(nodes[f], va)))
    ensures Lookup(ram', frame, level, va) == Lookup(ram, frame, level, va)
    decreases level
  {
    hide TreeInv, Index, Present, Huge, TableFrame, OnWalk, Read;
    SlotIndex(nodes[frame], nodes[frame].root, va);
    var e, e' := Read(ram, frame, Index(va, level)), Read(ram', frame, Index(va, level));
    assert Alike(ram', level, e, e');
    if Present(e) {
      if level > 0 {
        WalkDown(ram, nodes, frame, level, va);
        if !Huge(e) { LookupAlike(ram, ram', nodes, TableFrame(e), level - 1, va); }
      }
    } else if Present(e') {
      ZeroNotPresent();
      IndexIsField(va, level - 1);
      assert Read(ram', TableFrame(e'), Index(va, level - 1)) == 0;
    }
  }

  /**
   The user gets at an address exactly when its leaf has USER and, for a huge leaf, the tables above
   it are open.  Above a 4 KiB leaf with USER they always are.
   */
  lemma {:induction false} UserExact(ram: Ram, nodes: Forest, frame: nat, level: nat, va: nat)
    requires TreeInv(ram, nodes) && frame in nodes && Level(nodes[frame]) == level
    requires OnWalk(nodes[frame], nodes[frame].root, va)
    ensures var l := Lookup(ram, frame, level, va);
            && (l.Some? ==> l.value.level <= level)
            && (UserWalk(ram, frame, level, va) <==>
                  && l.Some? && User(l.value.entry)
                  && (l.value.level == 0 || TablesOpen(ram, frame, level, l.value.level + 1, va)))
            && (l.Some? && l.value.level == 0 && User(l.value.entry) ==>
                  level < 3 ==> User(EntryTo(ram, nodes[frame])))
    decreases level
  {
    hide TreeInv, Index, Present, Huge, TableFrame, OnWalk, Read, User;
    var e := Read(ram, frame, Index(va, level));
    if Present(e) {
      UserAbove(ram, nodes, frame, level, va);
      if level > 0 {
        WalkDown(ram, nodes, frame, level, va);
        if !Huge(e) { UserExact(ram, nodes, TableFrame(e), level - 1, va); }
      }
    }
  }

  /** The leaf alone decides whether an address can be written and executed: no table takes a right away. */
  lemma {:induction false} RightsExact(ram: Ram, nodes: Forest, frame: nat, level: nat, va: nat)
    requires TreeInv(ram, nodes) && frame in nodes && Level(nodes[frame]) == level
    requires OnWalk(nodes[frame], nodes[frame].root, va)
    ensures var l := Lookup(ram, frame, level, va);
            && (WriteWalk(ram, frame, level, va) <==> l.Some? && Bit(l.value.entry, 1))
            && (ExecWalk(ram, frame, level, va) <==> l.Some? && !Bit(l.value.entry, 63))
    decreases level
  {
    hide TreeInv, Index, Present, Huge, TableFrame, OnWalk, Read, Bit;
    var e := Read(ram, frame, Index(va, level));
    if Present(e) && level > 0 {
      WalkDown(ram, nodes, frame, level, va);
      if !Huge(e) {
        TablePermissive(ram, nodes, frame, level, va);
        RightsExact(ram, nodes, TableFrame(e), level - 1, va);
      }
    }
  }

  lemma TablePermissive(ram: Ram, nodes: Forest, frame: nat, level: nat, va: nat)
    requires TreeInv(ram, nodes) && frame in nodes && Level(nodes[frame]) == level > 0
    requires TablePointer(Read(ram, frame, Index(va, level)))
    ensures Permissive(Read(ram, frame, Index(va, level)))
  {
    hide Index, Present, Huge, TableFrame, Read, Permissive;
    IndexIsField(va, level);
    assert EntryOk(ram, nodes, frame, Index(va, level));
  }

  /** What leads to a user-accessible entry is user-accessible. */
  lemma UserAbove(ram: Ram, nodes: Forest, frame: nat, level: nat, va: nat)
    requires TreeInv(ram, nodes) && frame in nodes && Level(nodes[frame]) == level
    requires Present(Read(ram, frame, Index(va, level)))
    ensures var e := Read(ram, frame, Index(va, level));
            level < 3 && User(e) && (level == 0 || !Huge(e)) ==> User(EntryTo(ram, nodes[frame]))
    ensures level > 0 && !Huge(Read(ram, frame, Index(va, level))) ==>
              var g := TableFrame(Read(ram, frame, Index(va, level)));
              g in nodes && nodes[g].path != [] && EntryTo(ram, nodes[g]) == Read(ram, frame, Index(va, level))
  {
    hide Index, Present, Huge, TableFrame, Read, User;
    IndexIsField(va, level);
    assert NodeOk(ram, nodes, frame) && EntryOk(ram, nodes, frame, Index(va, level));
  }

  // ---------- writes ----------

  /** Changes outside the tables change nothing here. */
  lemma TreeFrame(ram: Ram, ram': Ram, nodes: Forest)
    requires TreeInv(ram, nodes) && ValidRam(ram') && |ram'| == |ram|
    requires forall f :: f in nodes && f < |ram| ==> ram'[f] == ram[f]
    ensures TreeInv(ram', nodes)
  {
    forall f | f in nodes
      ensures forall i: nat :: Read(ram', f, i) == Read(ram, f, i)
    {
      assert NodeOk(ram, nodes, f);
    }
    forall f | f in nodes
      ensures NodeOk(ram', nodes, f)
    {
      assert NodeOk(ram, nodes, f);
    }
    forall f, i: nat | f in nodes && i < ENTRIES
      ensures EntryOk(ram', nodes, f, i)
    {
      assert EntryOk(ram, nodes, f, i) && NodeOk(ram, nodes, f);
    }
  }

  lemma ReadOfWrite(ram: Ram, f: nat, i: nat, w: nat, g: nat, j: nat)
    requires ValidRam(ram) && f < |ram| && i < ENTRIES
    ensures Read(Write(ram, f, i, w), g, j) == if g == f && j == i then w else Read(ram, g, j)
    ensures ValidRam(Write(ram, f, i, w))
  {
  }

  /** Overwriting an entry without changing which table it points at. */
  predicate KeepsShape(n: Node, e: nat, w: nat) {
    || |n.path| == 3
    || (TablePointer(e) && TablePointer(w) && TableFrame(w) == TableFrame(e)
        && (User(e) ==> User(w)) && (Permissive(e) ==> Permissive(w)))
    || (0 < |n.path| && !Present(e) && Present(w) && Huge(w))
  }

  lemma WriteKeeps(ram: Ram, nodes: Forest, f: nat, i: nat, w: nat)
    requires TreeInv(ram, nodes) && f in nodes && i < ENTRIES
    requires KeepsShape(nodes[f], Read(ram, f, i), w)
    requires MustBeOpen(nodes[f], w) ==> User(EntryTo(ram, nodes[f]))
    ensures TreeInv(Write(ram, f, i, w), nodes)
  {
    var ram' := Write(ram, f, i, w);
    assert NodeOk(ram, nodes, f) && EntryOk(ram, nodes, f, i);
    forall g: nat, j: nat
      ensures Read(ram', g, j) == if g == f && j == i then w else Read(ram, g, j)
    {
      ReadOfWrite(ram, f, i, w, g, j);
    }
    ReadOfWrite(ram, f, i, w, 0, 0);
    forall g | g in nodes
      ensures NodeOk(ram', nodes, g)
    {
      assert NodeOk(ram, nodes, g);
    }
    forall g, j: nat | g in nodes && j < ENTRIES
      ensures EntryOk(ram', nodes, g, j)
    {
      assert EntryOk(ram, nodes, g, j) && NodeOk(ram, nodes, g);
    }
  }

  /** One write changes only the walks that pass through the entry. */
  lemma LookupWrite(ram: Ram, nodes: Forest, f: nat, i: nat, w: nat, r: nat, va: nat)
    requires TreeInv(ram, nodes) && f in nodes && i < ENTRIES && IsRoot(nodes, r)
    requires |nodes[f].path| <= 3
    requires OnWalk(nodes[f], r, va) && Slot(nodes[f], va) == i ==>
               Alike(Write(ram, f, i, w), Level(nodes[f]), Read(ram, f, i), w)
    ensures Lookup(Write(ram, f, i, w), r, 3, va) == Lookup(ram, r, 3, va)
  {
    var ram' := Write(ram, f, i, w);
    assert NodeOk(ram, nodes, f);
    forall g | g in nodes && OnWalk(nodes[g], r, va)
      ensures Alike(ram', Level(nodes[g]), Read(ram, g, Slot(nodes[g], va)), Read(ram', g, Slot(nodes[g], va)))
    {
      ReadOfWrite(ram, f, i, w, g, Slot(nodes[g], va));
    }
    assert Path(va)[..0] == [];
    LookupAlike(ram, ram', nodes, r, 3, va);
  }

  /** The same walk over memory that agrees on every table. */
  lemma LookupFrame(ram: Ram, ram': Ram, nodes: Forest, r: nat, va: nat)
    requires TreeInv(ram, nodes) && |ram'| == |ram| && IsRoot(nodes, r)
    requires forall f :: f in nodes && f < |ram| ==> ram'[f] == ram[f]
    ensures Lookup(ram', r, 3, va) == Lookup(ram, r, 3, va)
  {
    forall g | g in nodes && OnWalk(nodes[g], r, va)
      ensures Alike(ram', Level(nodes[g]), Read(ram, g, Slot(nodes[g], va)), Read(ram', g, Slot(nodes[g], va)))
    {
      assert NodeOk(ram, nodes, g);
    }
    assert Path(va)[..0] == [];
    LookupAlike(ram, ram', nodes, r, 3, va);
  }

  /** A walk from the root continues as the walk from any table on it. */
  lemma {:induction false} LookupFromNode(ram: Ram, nodes: Forest, t: nat, va: nat)
    requires TreeInv(ram, nodes) && t in nodes && OnWalk(nodes[t], nodes[t].root, va)
    ensures IsRoot(nodes, nodes[t].root)
    ensures Lookup(ram, nodes[t].root, 3, va) == Lookup(ram, t, Level(nodes[t]), va)
    decreases |nodes[t].path|
  {
    hide TreeInv, Index, Present, Huge, TableFrame, OnWalk, Read;
    NodePlace(ram, nodes, t, va);
    var n := nodes[t];
    if n.path != [] {
      LookupFromNode(ram, nodes, n.parent, va);
    }
  }

  /** The table above one that is on a walk is on it too, one entry before. */
  lemma NodePlace(ram: Ram, nodes: Forest, t: nat, va: nat)
    requires TreeInv(ram, nodes) && t in nodes && OnWalk(nodes[t], nodes[t].root, va)
    ensures var n := nodes[t];
            if n.path == [] then n.root == t && IsRoot(nodes, t)
            else
              && n.parent in nodes && nodes[n.parent].root == n.root && OnWalk(nodes[n.parent], n.root, va)
              && |nodes[n.parent].path| == |n.path| - 1 && Level(nodes[n.parent]) > 0
              && var e := Read(ram, n.parent, Index(va, Level(nodes[n.parent])));
                 Present(e) && !Huge(e) && TableFrame(e) == t
  {
    hide Index, Present, Huge, TableFrame, Read;
    var n := nodes[t];
    assert NodeOk(ram, nodes, t);
    if n.path != [] {
      var p := nodes[n.parent];
      assert p.path == Path(va)[..|p.path|];
      assert n.path[|n.path| - 1] == Index(va, Level(p));
      assert NodeOk(ram, nodes, n.parent);
    }
  }

  /** An empty table `g`, not yet in the forest, can be hung below the vacant entry `(f, i)`. */
  ghost predicate CanGrow(ram: Ram, nodes: Forest, f: nat, i: nat, g: nat, user: nat) {
    && TreeInv(ram, nodes) && f in nodes && i < ENTRIES && |nodes[f].path| < 3
    && !Present(Read(ram, f, i))
    && g !in nodes && g < |ram| && g < U32 && ZeroTable(ram, g)
    && (user == 0 || user == PTE_USER)
    && (nodes[f].path != [] && user == PTE_USER ==> User(EntryTo(ram, nodes[f])))
  }

  lemma GrowNode(ram: Ram, nodes: Forest, f: nat, i: nat, g: nat, user: nat, h: nat)
    requires CanGrow(ram, nodes, f, i, g, user) && (h in nodes || h == g)
    ensures NodeOk(Write(ram, f, i, TableEntry(g, user)), nodes[g := Place(nodes, f, i)], h)
  {
    var w := TableEntry(g, user);
    TableEntryFields(g, user);
    assert NodeOk(ram, nodes, f);
    ReadOfWrite(ram, f, i, w, f, i);
    if h == g {
      assert (nodes[f].path + [i])[..|nodes[f].path|] == nodes[f].path;
      assert NodeOk(ram, nodes, nodes[f].root);
    } else {
      var n := nodes[h];
      assert NodeOk(ram, nodes, h);
      assert NodeOk(ram, nodes, n.root);
      if n.path != [] { ReadOfWrite(ram, f, i, w, n.parent, n.path[|n.path| - 1]); }
    }
  }

  lemma GrowEntry(ram: Ram, nodes: Forest, f: nat, i: nat, g: nat, user: nat, h: nat, j: nat)
    requires CanGrow(ram, nodes, f, i, g, user) && (h in nodes || h == g) && j < ENTRIES
    ensures EntryOk(Write(ram, f, i, TableEntry(g, user)), nodes[g := Place(nodes, f, i)], h, j)
  {
    var w := TableEntry(g, user);
    TableEntryFields(g, user);
    ZeroNotPresent();
    assert NodeOk(ram, nodes, f);
    ReadOfWrite(ram, f, i, w, h, j);
    if h != g {
      var n := nodes[h];
      assert NodeOk(ram, nodes, h) && EntryOk(ram, nodes, h, j);
      if n.path != [] { ReadOfWrite(ram, f, i, w, n.parent, n.path[|n.path| - 1]); }
    }
  }

  lemma GrowKeeps(ram: Ram, nodes: Forest, f: nat, i: nat, g: nat, user: nat)
    requires CanGrow(ram, nodes, f, i, g, user)
    ensures TreeInv(Write(ram, f, i, TableEntry(g, user)), nodes[g := Place(nodes, f, i)])
  {
    var ram' := Write(ram, f, i, TableEntry(g, user));
    var nodes' := nodes[g := Place(nodes, f, i)];
    assert NodeOk(ram, nodes, f);
    ReadOfWrite(ram, f, i, TableEntry(g, user), f, i);
    forall h | h in nodes'
      ensures NodeOk(ram', nodes', h)
    {
      GrowNode(ram, nodes, f, i, g, user, h);
    }
    forall h, j: nat | h in nodes' && j < ENTRIES
      ensures EntryOk(ram', nodes', h, j)
    {
      GrowEntry(ram, nodes, f, i, g, user, h, j);
    }
  }
}
