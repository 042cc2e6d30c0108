/**
 How many frames the walk of `map` and `map_window` takes (`kernel/src/vmm.rs`): one for each table
 that is absent on the path, so running out of frames can be foreseen.
 */
module Growth {
  import opened Frames
  import opened Bits
  import opened Pmm
  import opened FreeLists
  import opened FrameAlloc
  import opened Census
  import opened PageEntries
  import opened PageTree
  import opened Vmm

  /** The absent tables on the walk for `va` from `frame` at `level` down to `stop`. */
  function Absent(ram: Ram, frame: nat, level: nat, stop: nat, va: nat): nat
    requires stop >= 1
    decreases level, va
  {
    if level < stop then 0
    else
      var e := Read(ram, frame, Index(va, level));
      if !Present(e) then level - stop + 1
      else if Huge(e) then 0
      else Absent(ram, TableFrame(e), level - 1, stop, va)
  }

  lemma {:induction false} AbsentBound(ram: Ram, frame: nat, level: nat, stop: nat, va: nat)
    requires 1 <= stop <= level + 1
    ensures Absent(ram, frame, level, stop, va) <= level + 1 - stop
    decreases level
  {
    var e := Read(ram, frame, Index(va, level));
    if level >= stop && Present(e) && !Huge(e) { AbsentBound(ram, TableFrame(e), level - 1, stop, va); }
  }

  /** Below a zeroed table everything is absent. */
  lemma AbsentBelowZero(ram: Ram, g: nat, level: nat, stop: nat, va: nat)
    requires stop >= 1 && stop <= level + 1 && forall i: nat :: Read(ram, g, i) == 0
    ensures Absent(ram, g, level, stop, va) == level + 1 - stop
  {
    ZeroNotPresent();
  }

  lemma HungIsZero(s: State, f: nat, i: nat, g: nat, user: nat)
    requires ValidRam(s.ram) && g < |s.ram| && f != g
    ensures forall j: nat :: Read(Hang(s, f, i, g, user).ram, g, j) == 0
    ensures Hang(s, f, i, g, user).owner == s.owner
  {
    hide TableEntry;
    var ram := Zeroed(s.ram, g);
    forall j: nat
      ensures Read(Write(ram, f, i, TableEntry(g, user)), g, j) == 0
    {
    }
  }

  /** Writing an entry of a table changes nothing below it on a walk. */
  lemma {:induction false} AbsentWrite(ram: Ram, nodes: Forest, f: nat, i: nat, w: nat, t: nat, level: nat,
                                       stop: nat, va: nat)
    requires TreeInv(ram, nodes) && f in nodes && t in nodes && stop >= 1
    requires Level(nodes[t]) == level < Level(nodes[f]) && OnWalk(nodes[t], nodes[t].root, va)
    ensures Absent(Write(ram, f, i, w), t, level, stop, va) == Absent(ram, t, level, stop, va)
    decreases level
  {
    hide TreeInv, Index, Present, Huge, TableFrame, OnWalk;
    if level >= stop {
      var e := Read(ram, t, Index(va, level));
      EntryOf(ram, f, i, w, t, Index(va, level));
      if Present(e) && !Huge(e) {
        WalkDown(ram, nodes, t, level, va);
        AbsentWrite(ram, nodes, f, i, w, TableFrame(e), level - 1, stop, va);
      }
    }
  }

  lemma EntryOf(ram: Ram, f: nat, i: nat, w: nat, t: nat, j: nat)
    requires t != f
    ensures Read(Write(ram, f, i, w), t, j) == Read(ram, t, j)
  {
  }

  /** A mapped address lacks no table. */
  lemma {:induction false} MappedLacksNothing(ram: Ram, frame: nat, level: nat, stop: nat, va: nat)
    requires stop >= 1 && Lookup(ram, frame, level, va).Some?
    ensures Absent(ram, frame, level, stop, va) == 0
    decreases level
  {
    var e := Read(ram, frame, Index(va, level));
    if level >= stop && Present(e) && !Huge(e) { MappedLacksNothing(ram, TableFrame(e), level - 1, stop, va); }
  }

  /** What an allocation leaves to count. */
  lemma AllocCounts(s: State)
    requires SeqInv(s)
    ensures var (s', r) := Alloc(s);
            if r.Some? then CountFree(s'.owner) + 1 == CountFree(s.owner) && r.value < |s'.ram| && ValidRam(s'.ram)
            else CountFree(s.owner) == 0 && s' == s
  {
    hide ListInv, Alloc;
    SeqBasics(s);
    AllocExact(s);
    var (s', r) := Alloc(s);
    SeqBasics(s');
    if r.Some? {
      CountFreeUpdate(s.owner, r.value, Kernel);
    } else {
      forall f | 0 <= f < |s.owner|
        ensures !s.owner[f].Free?
      {
        assert !IsFree(s, f);
      }
      NoneFree(s.owner);
    }
  }

  /** What is left of `free` frames when `need` are asked for. */
  function Left(free: nat, need: nat): nat {
    if free < need then 0 else free - need
  }

  /**
   The descent runs out of frames exactly when fewer are Free than tables are absent; it takes one
   frame for each absent table, and all there are when it fails.  Where it ends above the last
   level, the entry it reaches is taken exactly when nothing is absent there either.
   */
  ghost predicate NeedsExact(s: State, frame: nat, va: nat, level: nat, stop: nat, d: Descent)
    requires stop >= 1
  {
    var need := Absent(s.ram, frame, level, stop, va);
    && (d.Failed? && d.error == AllocFailed <==> CountFree(s.owner) < need)
    && CountFree(d.state.owner) == Left(CountFree(s.owner), need)
    && (stop >= 2 ==>
          var taken := Absent(s.ram, frame, level, stop - 1, va) == 0;
          && (d.Reached? ==> (Present(Read(d.state.ram, d.table, Index(va, stop - 1))) <==> taken))
          && (d.Failed? && d.error == Conflict ==> taken))
  }

  lemma {:induction false} DescendNeeds(s: State, nodes: Forest, root: nat, frame: nat, va: nat, level: nat,
                                        stop: nat, user: nat)
    requires DescentAt(s, nodes, root, frame, va, level, user) && 1 <= stop <= level + 1
    ensures NeedsExact(s, frame, va, level, stop, Descend(s, frame, va, level, stop, user))
    decreases level
  {
    hide SeqInv, TreeInv, Evolves, Alloc, Hang, SetEntry, OnWalk, EntryTo, Index, Or, Present, Huge;
    var e := Read(s.ram, frame, Index(va, level));
    if level >= stop && !Present(e) {
      AllocCounts(s);
      if Alloc(s).1.Some? { NeedsGrow(s, nodes, root, frame, va, level, stop, user); }
    } else if level >= stop && !Huge(e) {
      NeedsFollow(s, nodes, root, frame, va, level, stop, user);
    } else if level < stop && stop >= 2 {
      AbsentHere(s.ram, frame, level, va);
    }
  }

  lemma AbsentHere(ram: Ram, frame: nat, level: nat, va: nat)
    requires level >= 1
    ensures Absent(ram, frame, level, level, va) == if Present(Read(ram, frame, Index(va, level))) then 0 else 1
  {
    hide Index, Present, Huge, TableFrame;
    var e := Read(ram, frame, Index(va, level));
    assert Absent(ram, TableFrame(e), level - 1, level, va) == 0;
  }

  lemma {:induction false} NeedsGrow(s: State, nodes: Forest, root: nat, frame: nat, va: nat, level: nat, stop: nat,
                                     user: nat)
    requires DescentAt(s, nodes, root, frame, va, level, user) && 1 <= stop <= level
    requires !Present(Read(s.ram, frame, Index(va, level))) && Alloc(s).1.Some?
    ensures NeedsExact(s, frame, va, level, stop, Descend(s, frame, va, level, stop, user))
    decreases level, 0
  {
    hide SeqInv, TreeInv, Evolves, Alloc, OnWalk, EntryTo, Index, Present, Huge, TableFrame, Hang, Place;
    var i := Index(va, level);
    var (s1, r) := Alloc(s);
    AllocCounts(s);
    DescendGrow(s, nodes, root, frame, va, level, user);
    GrownElsewhere(s, nodes, frame);
    var s2, nodes2 := Hang(s1, frame, i, r.value, user), nodes[r.value := Place(nodes, frame, i)];
    HungIsZero(s1, frame, i, r.value, user);
    AbsentBelowZero(s2.ram, r.value, level - 1, stop, va);
    if stop >= 2 { AbsentBelowZero(s2.ram, r.value, level - 1, stop - 1, va); }
    DescendNeeds(s2, nodes2, root, r.value, va, level - 1, stop, user);
  }

  lemma GrownElsewhere(s: State, nodes: Forest, frame: nat)
    requires VmInv(s, nodes) && frame in nodes && Alloc(s).1.Some?
    ensures frame != Alloc(s).1.value
  {
    hide SeqInv, TreeInv, Alloc;
    AllocExact(s);
  }

  lemma {:induction false} NeedsFollow(s: State, nodes: Forest, root: nat, frame: nat, va: nat, level: nat,
                                       stop: nat, user: nat)
    requires DescentAt(s, nodes, root, frame, va, level, user) && 1 <= stop <= level
    requires TablePointer(Read(s.ram, frame, Index(va, level)))
    ensures NeedsExact(s, frame, va, level, stop, Descend(s, frame, va, level, stop, user))
    decreases level, 0
  {
    hide SeqInv, TreeInv, Evolves, OnWalk, EntryTo, Index, Or, Present, Huge, Alloc, Hang, TableFrame;
    var i := Index(va, level);
    var e := Read(s.ram, frame, i);
    if user != 0 {
      DescendPromote(s, nodes, root, frame, va, level);
      NodeOfWalk(nodes[frame], root, va);
      WalkDown(s.ram, nodes, frame, level, va);
      AbsentWrite(s.ram, nodes, frame, i, Or(e, user), TableFrame(e), level - 1, stop, va);
      if stop >= 2 { AbsentWrite(s.ram, nodes, frame, i, Or(e, user), TableFrame(e), level - 1, stop - 1, va); }
      DescendNeeds(SetEntry(s, frame, i, Or(e, user)), nodes, root, TableFrame(e), va, level - 1, stop, user);
    } else {
      DescendFollow(s, nodes, root, frame, va, level);
      DescendNeeds(s, nodes, root, TableFrame(e), va, level - 1, stop, user);
    }
  }

  lemma NodeOfWalk(n: Node, root: nat, va: nat)
    requires OnWalk(n, root, va)
    ensures OnWalk(n, n.root, va)
  {
  }

  /** Whoever lacks nothing down to a level lacks nothing above it. */
  lemma {:induction false} AbsentAbove(ram: Ram, frame: nat, level: nat, stop: nat, va: nat)
    requires stop >= 1 && Absent(ram, frame, level, stop, va) == 0
    ensures Absent(ram, frame, level, stop + 1, va) == 0
    decreases level
  {
    var e := Read(ram, frame, Index(va, level));
    if level > stop && Present(e) && !Huge(e) { AbsentAbove(ram, TableFrame(e), level - 1, stop, va); }
  }
}
