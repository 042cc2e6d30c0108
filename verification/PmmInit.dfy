/**
 `pmm_init` (`kernel/src/boot.rs`) and `build_global_freelist` (`kernel/src/allocator.rs`): from the
 boot memory map to the state that frame allocation starts from.
 */
module PmmInit {
  import opened Bits
  import opened Frames
  import opened Pmm
  import opened FreeLists
  import opened FrameAlloc
  import opened Census
  import opened BootRegions
  import opened BootAlloc
  import Untyped
  import KernelRuns
  import PageTree

  const LEGACY_END: nat := 0x10_0000
  const FRAME_INFO_BYTES: nat := 24
  /** RAM is bounded so that every frame index is below the list end marker. */
  const MAX_RAM: nat := 0xfff_ffff_e000

  // ---------- the global free list ----------

  predicate FreeAt(owner: seq<Owner>, f: nat) {
    f < |owner| && owner[f].Free?
  }

  /** The list from `head` meets exactly the Free frames below `upto`, and `prev` is its last frame. */
  ghost predicate ListUpTo(owner: seq<Owner>, ram: Ram, head: nat, prev: nat, count: nat, upto: nat) {
    && (forall f: nat :: Visits(ram, head, count, f) == if f < upto && FreeAt(owner, f) then 1 else 0)
    && (if count == 0 then head == LIST_END && prev == LIST_END
        else head < upto && prev < upto && FreeAt(owner, prev) && prev == Follow(ram, head, count - 1))
  }

  /** Linking `next` behind the last frame. */
  lemma ListLink(owner: seq<Owner>, ram: Ram, head: nat, prev: nat, count: nat, upto: nat, next: nat)
    requires ValidRam(ram) && |ram| == |owner| && upto <= |owner|
    requires ListUpTo(owner, ram, head, prev, count, upto) && count > 0 && next < U32
    ensures var ram' := SetNext(ram, prev, next);
            && ValidRam(ram')
            && (forall f: nat :: Visits(ram', head, count, f) == Visits(ram, head, count, f))
            && Follow(ram', head, count) == next
  {
    var ram' := SetNext(ram, prev, next);
    forall g
      ensures Next(ram', g) == if g == prev then next else Next(ram, g)
    {
      NextOfSetNext(ram, prev, next, g);
    }
    VisitsLast(ram, head, count, prev);
    SpliceBatch(ram, ram', Batch(head, prev, count), next);
  }

  lemma ListExtend(owner: seq<Owner>, ram: Ram, head: nat, prev: nat, count: nat, idx: nat)
    requires ValidRam(ram) && |ram| == |owner| < LIST_END && idx < |owner|
    requires ListUpTo(owner, ram, head, prev, count, idx)
    ensures !FreeAt(owner, idx) ==> ListUpTo(owner, ram, head, prev, count, idx + 1)
    ensures FreeAt(owner, idx) && count == 0 ==> ListUpTo(owner, ram, idx, idx, 1, idx + 1)
    ensures FreeAt(owner, idx) && count > 0 ==> ListUpTo(owner, SetNext(ram, prev, idx), head, idx, count + 1, idx + 1)
  {
    if FreeAt(owner, idx) && count == 0 {
      forall f: nat
        ensures Visits(ram, idx, 1, f) == if f < idx + 1 && FreeAt(owner, f) then 1 else 0
      {
        assert Visits(ram, head, 0, f) == 0;
        assert Visits(ram, idx, 1, f) == (if idx == f then 1 else 0) + Visits(ram, Next(ram, idx), 0, f);
      }
      assert Follow(ram, idx, 0) == idx;
    } else if FreeAt(owner, idx) {
      ListLink(owner, ram, head, prev, count, idx, idx);
      var ram' := SetNext(ram, prev, idx);
      forall f: nat
        ensures Visits(ram', head, count + 1, f) == if f < idx + 1 && FreeAt(owner, f) then 1 else 0
      {
        VisitsLast(ram', head, count + 1, f);
      }
    }
  }

  /** The lowest Free frame from `from` on, or the end marker. */
  ghost predicate NextFree(owner: seq<Owner>, from: nat, n: nat) {
    && (forall f: nat :: from <= f < n ==> !FreeAt(owner, f))
    && (n == LIST_END || (from <= n && FreeAt(owner, n)))
  }

  /** The list from `head` runs through the Free frames in address order. */
  ghost predicate InOrder(owner: seq<Owner>, ram: Ram, head: nat) {
    NextFree(owner, 0, head) && forall f: nat :: FreeAt(owner, f) ==> NextFree(owner, f + 1, Next(ram, f))
  }

  /** The same, up to the last frame `prev` below `upto`. */
  ghost predicate InOrderUpTo(owner: seq<Owner>, ram: Ram, head: nat, prev: nat, upto: nat) {
    && (if prev == LIST_END then forall f: nat :: f < upto ==> !FreeAt(owner, f)
        else
          && NextFree(owner, 0, head) && prev < upto && FreeAt(owner, prev)
          && (forall f: nat :: prev < f < upto ==> !FreeAt(owner, f)))
    && forall f: nat :: f < prev && f < upto && FreeAt(owner, f) ==> NextFree(owner, f + 1, Next(ram, f))
  }

  lemma OrderExtend(owner: seq<Owner>, ram: Ram, head: nat, prev: nat, idx: nat)
    requires ValidRam(ram) && |ram| == |owner| < LIST_END && idx < |owner|
    requires InOrderUpTo(owner, ram, head, prev, idx)
    ensures !FreeAt(owner, idx) ==> InOrderUpTo(owner, ram, head, prev, idx + 1)
    ensures FreeAt(owner, idx) && prev == LIST_END ==> InOrderUpTo(owner, ram, idx, idx, idx + 1)
    ensures FreeAt(owner, idx) && prev != LIST_END ==>
              InOrderUpTo(owner, SetNext(ram, prev, idx), head, idx, idx + 1)
  {
    hide Next, SetNext;
    if FreeAt(owner, idx) && prev != LIST_END {
      forall f: nat
        ensures Next(SetNext(ram, prev, idx), f) == if f == prev then idx else Next(ram, f)
      {
        NextOfSetNext(ram, prev, idx, f);
      }
    }
  }

  lemma OrderEnds(owner: seq<Owner>, ram: Ram, head: nat, prev: nat)
    requires ValidRam(ram) && |ram| == |owner| < LIST_END && InOrderUpTo(owner, ram, head, prev, |owner|)
    requires prev == LIST_END ==> head == LIST_END
    ensures InOrder(owner, if prev == LIST_END then ram else SetNext(ram, prev, LIST_END), head)
  {
    hide Next, SetNext;
    if prev != LIST_END {
      forall f: nat
        ensures Next(SetNext(ram, prev, LIST_END), f) == if f == prev then LIST_END else Next(ram, f)
      {
        NextOfSetNext(ram, prev, LIST_END, f);
      }
    }
  }

  /**
   `build_global_freelist`: the list meets every Free frame once and no other, in address order, ends
   at the marker, and only Free frames' memory is written.
   */
  method BuildList(owner: seq<Owner>, ram0: Ram) returns (ram: Ram, head: nat, count: nat)
    requires ValidRam(ram0) && |ram0| == |owner| < LIST_END
    ensures ValidRam(ram) && |ram| == |owner| && count == CountFree(owner)
    ensures forall f: nat :: Visits(ram, head, count, f) == if FreeAt(owner, f) then 1 else 0
    ensures Follow(ram, head, count) == LIST_END
    ensures forall f: nat :: f < |ram| && !FreeAt(owner, f) ==> ram[f] == ram0[f]
    ensures InOrder(owner, ram, head)
  {
    hide ListUpTo, InOrderUpTo, InOrder, Visits, Follow;
    ram, head, count := ram0, LIST_END, 0;
    var prev: nat := LIST_END;
    StartList(owner, ram0);
    for idx := 0 to |owner|
      invariant ValidRam(ram) && |ram| == |owner|
      invariant ListUpTo(owner, ram, head, prev, count, idx)
      invariant InOrderUpTo(owner, ram, head, prev, idx) && (prev == LIST_END <==> head == LIST_END)
      invariant count == CountFree(owner[..idx])
      invariant forall f: nat :: f < |ram| && !FreeAt(owner, f) ==> ram[f] == ram0[f]
    {
      OrderExtend(owner, ram, head, prev, idx);
      ListExtend(owner, ram, head, prev, count, idx);
      EmptyList(owner, ram, head, prev, count, idx);
      assert owner[..idx + 1][..idx] == owner[..idx];
      if owner[idx].Free? {
        if head == LIST_END {
          head := idx;
        } else {
          ram := SetNext(ram, prev, idx);
        }
        prev := idx;
        count := count + 1;
      }
    }
    assert owner[..|owner|] == owner;
    OrderEnds(owner, ram, head, prev);
    FinishList(owner, ram, head, prev, count);
    if prev != LIST_END {
      ram := SetNext(ram, prev, LIST_END);
    }
  }

  lemma StartList(owner: seq<Owner>, ram: Ram)
    ensures ListUpTo(owner, ram, LIST_END, LIST_END, 0, 0) && InOrderUpTo(owner, ram, LIST_END, LIST_END, 0)
  {
  }

  lemma FinishList(owner: seq<Owner>, ram: Ram, head: nat, prev: nat, count: nat)
    requires ValidRam(ram) && |ram| == |owner| < LIST_END && ListUpTo(owner, ram, head, prev, count, |owner|)
    ensures prev == LIST_END <==> count == 0
    ensures prev != LIST_END ==> FreeAt(owner, prev)
    ensures var ram' := if prev == LIST_END then ram else SetNext(ram, prev, LIST_END);
            && ValidRam(ram') && Follow(ram', head, count) == LIST_END
            && forall f: nat :: Visits(ram', head, count, f) == if FreeAt(owner, f) then 1 else 0
  {
    if count > 0 { ListLink(owner, ram, head, prev, count, |owner|, LIST_END); }
  }

  lemma EmptyList(owner: seq<Owner>, ram: Ram, head: nat, prev: nat, count: nat, upto: nat)
    requires ListUpTo(owner, ram, head, prev, count, upto) && upto < LIST_END
    ensures head == LIST_END <==> count == 0
    ensures count > 0 ==> prev < upto && FreeAt(owner, prev)
  {
  }

  lemma {:induction false} OnlyGlobal(ram: Ram, empties: seq<Shard>, g: Shard, f: nat)
    requires forall k :: 0 <= k < |empties| ==> empties[k].count == 0
    ensures Meetings(ram, empties + [g], f) == Visits(ram, g.head, g.count, f)
  {
    if empties == [] {
      assert empties + [g] == [g] && [g][1..] == [];
      assert Meetings(ram, [], f) == 0;
    } else {
      assert (empties + [g])[1..] == empties[1..] + [g];
      OnlyGlobal(ram, empties[1..], g, f);
    }
  }

  function FreshState(owner: seq<Owner>, ram: Ram, head: nat, count: nat): State {
    var zeros := seq(|owner|, _ => 0);
    State(owner, zeros, zeros, zeros, ram, seq(SHARD_COUNT, _ => Shard(LIST_END, 0)), Shard(head, count))
  }

  /** The state that boot leaves behind satisfies the free-list invariant. */
  lemma FreshInv(owner: seq<Owner>, ram: Ram, head: nat, count: nat)
    requires ValidRam(ram) && |ram| == |owner| < LIST_END && Follow(ram, head, count) == LIST_END
    requires forall f: nat :: Visits(ram, head, count, f) == if FreeAt(owner, f) then 1 else 0
    ensures SeqInv(FreshState(owner, ram, head, count))
  {
    var s := FreshState(owner, ram, head, count);
    assert Anchors(s, []) == s.shards + [s.global];
    forall f: nat
      ensures Meetings(s.ram, Anchors(s, []), f) == if IsFree(s, f) then 1 else 0
    {
      OnlyGlobal(s.ram, s.shards, s.global, f);
    }
    forall k | 0 <= k < |s.shards|
      ensures Terminated(s.ram, s.shards[k])
    {
      assert Follow(s.ram, LIST_END, 0) == LIST_END;
    }
  }

  // ---------- marking usable frames ----------

  function CeilDiv(a: nat): nat {
    (a + FRAME_SIZE - 1) / FRAME_SIZE
  }

  lemma CeilDivExact(a: nat)
    ensures CeilDiv(a) * FRAME_SIZE < a + FRAME_SIZE && a <= CeilDiv(a) * FRAME_SIZE
  {
  }

  /** Outside legacy memory and outside `[ftPhys, heapEnd)`. */
  predicate Eligible(f: nat, ftPhys: nat, heapEnd: nat) {
    f * FRAME_SIZE >= LEGACY_END && !(ftPhys <= f * FRAME_SIZE < heapEnd)
  }

  /** The frames that region `r` gives to the pool. */
  predicate Gives(r: Region, f: nat, ftPhys: nat, heapEnd: nat) {
    Holds(r, f * FRAME_SIZE) && Eligible(f, ftPhys, heapEnd)
  }

  /** One region of the marking loop; it fails on a frame that was marked before. */
  method MarkRegion(owner0: seq<Owner>, r: Region, ftPhys: nat, heapEnd: nat) returns (ok: bool, owner: seq<Owner>)
    requires r.usable && r.End() <= |owner0| * FRAME_SIZE
    ensures |owner| == |owner0|
    ensures ok <==> forall f: nat :: Gives(r, f, ftPhys, heapEnd) ==> owner0[f].Reserved?
    ensures ok ==> forall f: nat :: f < |owner| ==> owner[f] == if Gives(r, f, ftPhys, heapEnd) then Free else owner0[f]
  {
    owner := owner0;
    var first, last := CeilDiv(r.start), CeilDiv(r.End());
    var idx := first;
    while idx < last
      invariant first <= idx && (idx <= last || idx == first) && |owner| == |owner0|
      invariant forall f: nat :: f < |owner| ==>
                  owner[f] == if f < idx && Gives(r, f, ftPhys, heapEnd) then Free else owner0[f]
      invariant forall f: nat :: f < idx && Gives(r, f, ftPhys, heapEnd) ==> owner0[f].Reserved?
    {
      var phys := idx * FRAME_SIZE;
      assert Holds(r, phys);
      if phys >= LEGACY_END && !(ftPhys <= phys < heapEnd) {
        if !owner[idx].Reserved? {
          assert Gives(r, idx, ftPhys, heapEnd);
          return false, owner;
        }
        owner := owner[idx := Free];
      }
      idx := idx + 1;
    }
    ok := true;
    assert forall f: nat :: Gives(r, f, ftPhys, heapEnd) ==> f < last;
  }

  /** Frame `f` belongs to the pool. */
  ghost predicate InPool(regions: seq<Region>, f: nat, ftPhys: nat, heapEnd: nat) {
    InUsable(regions, f * FRAME_SIZE) && Eligible(f, ftPhys, heapEnd)
  }

  /** Two usable regions give frame `f`. */
  ghost predicate GivenTwice(regions: seq<Region>, f: nat, ftPhys: nat, heapEnd: nat) {
    exists i, j ::
      0 <= i < j < |regions| && Gives(regions[i], f, ftPhys, heapEnd) && Gives(regions[j], f, ftPhys, heapEnd)
  }

  /** The marking loop over all regions; it fails exactly when a frame is given twice. */
  method MarkUsable(regions: seq<Region>, total: nat, ftPhys: nat, heapEnd: nat) returns (ok: bool, owner: seq<Owner>)
    requires forall r :: r in regions && r.usable ==> r.End() <= total * FRAME_SIZE
    ensures |owner| == total
    ensures ok ==> forall f: nat :: f < total ==>
              owner[f] == if InPool(regions, f, ftPhys, heapEnd) then Free else Reserved
    ensures ok <==> forall f: nat :: !GivenTwice(regions, f, ftPhys, heapEnd)
  {
    owner := seq(total, _ => Reserved);
    for k := 0 to |regions|
      invariant |owner| == total
      invariant forall f: nat :: f < total ==>
                  owner[f] == if InPool(regions[..k], f, ftPhys, heapEnd) then Free else Reserved
      invariant forall f: nat :: !GivenTwice(regions[..k], f, ftPhys, heapEnd)
    {
      var r := regions[k];
      ghost var before, next := owner, regions[..k + 1];
      assert r in regions;
      PoolGrows(regions, k, ftPhys, heapEnd);
      if r.usable {
        ok, owner := MarkRegion(owner, r, ftPhys, heapEnd);
        if !ok {
          ghost var f: nat :| Gives(r, f, ftPhys, heapEnd) && !before[f].Reserved?;
          TwiceGrows(regions, k, f, ftPhys, heapEnd);
          TwiceStays(regions, k + 1, f, ftPhys, heapEnd);
          return;
        }
      }
      forall f: nat
        ensures !GivenTwice(next, f, ftPhys, heapEnd)
      {
        TwiceGrows(regions, k, f, ftPhys, heapEnd);
        if Gives(r, f, ftPhys, heapEnd) { assert before[f].Reserved?; }
      }
    }
    assert regions[..|regions|] == regions;
    ok := true;
  }

  lemma PoolGrows(regions: seq<Region>, k: nat, ftPhys: nat, heapEnd: nat)
    requires k < |regions|
    ensures forall f: nat :: InPool(regions[..k + 1], f, ftPhys, heapEnd) <==>
              InPool(regions[..k], f, ftPhys, heapEnd) || Gives(regions[k], f, ftPhys, heapEnd)
  {
  }

  lemma TwiceGrows(regions: seq<Region>, k: nat, f: nat, ftPhys: nat, heapEnd: nat)
    requires k < |regions|
    ensures GivenTwice(regions[..k + 1], f, ftPhys, heapEnd) <==>
              || GivenTwice(regions[..k], f, ftPhys, heapEnd)
              || (InPool(regions[..k], f, ftPhys, heapEnd) && Gives(regions[k], f, ftPhys, heapEnd))
  {
    var all, some := regions[..k + 1], regions[..k];
    if GivenTwice(all, f, ftPhys, heapEnd) {
      var i, j :| 0 <= i < j < |all| && Gives(all[i], f, ftPhys, heapEnd) && Gives(all[j], f, ftPhys, heapEnd);
      assert some[i] == all[i];
      if j < k { assert some[j] == all[j]; }
    }
    if GivenTwice(some, f, ftPhys, heapEnd) { TwiceStays(all, k, f, ftPhys, heapEnd); }
    if InPool(some, f, ftPhys, heapEnd) && Gives(regions[k], f, ftPhys, heapEnd) {
      var r :| r in some && Holds(r, f * FRAME_SIZE);
      var i :| 0 <= i < k && some[i] == r;
      assert Gives(all[i], f, ftPhys, heapEnd) && Gives(all[k], f, ftPhys, heapEnd);
    }
  }

  lemma TwiceStays(regions: seq<Region>, k: nat, f: nat, ftPhys: nat, heapEnd: nat)
    requires k <= |regions| && GivenTwice(regions[..k], f, ftPhys, heapEnd)
    ensures GivenTwice(regions, f, ftPhys, heapEnd)
  {
    var some := regions[..k];
    var i, j :| 0 <= i < j < |some| && Gives(some[i], f, ftPhys, heapEnd) && Gives(some[j], f, ftPhys, heapEnd);
    assert some[i] == regions[i] && some[j] == regions[j];
  }

  /** In address order without overlap nothing is given twice. */
  lemma OrderedOnce(regions: seq<Region>, f: nat, ftPhys: nat, heapEnd: nat)
    requires Ordered(regions)
    ensures !GivenTwice(regions, f, ftPhys, heapEnd)
  {
  }

  lemma {:induction false} TwiceConcat(a: seq<Region>, b: seq<Region>, f: nat, ftPhys: nat, heapEnd: nat)
    ensures GivenTwice(a + b, f, ftPhys, heapEnd) <==>
              || GivenTwice(a, f, ftPhys, heapEnd) || GivenTwice(b, f, ftPhys, heapEnd)
              || (InPool(a, f, ftPhys, heapEnd) && InPool(b, f, ftPhys, heapEnd))
    decreases |b|
  {
    if b == [] {
      assert a + b == a;
    } else {
      var n := |b| - 1;
      var all := a + b;
      assert all[..|a| + n] == a + b[..n] && all[..|all|] == all && b[..|b|] == b;
      TwiceConcat(a, b[..n], f, ftPhys, heapEnd);
      TwiceGrows(all, |a| + n, f, ftPhys, heapEnd);
      TwiceGrows(b, n, f, ftPhys, heapEnd);
      InUsableConcat(a, b[..n], f * FRAME_SIZE);
      PoolGrows(b, n, ftPhys, heapEnd);
    }
  }

  /** Two usable regions of the map claim frame `f`, which is neither in the image nor otherwise kept back. */
  ghost predicate ClaimedTwice(regions: seq<Region>, ki: Image, ftPhys: nat, heapEnd: nat, f: nat) {
    GivenTwice(regions, f, ftPhys, heapEnd) && !(ki.start <= f * FRAME_SIZE < ki.end)
  }

  /** Cutting out the image makes no overlap and hides only those inside it. */
  lemma {:induction false} TwiceEffective(regions: seq<Region>, ki: Image, f: nat, ftPhys: nat, heapEnd: nat)
    ensures GivenTwice(Effective(regions, ki), f, ftPhys, heapEnd) <==> ClaimedTwice(regions, ki, ftPhys, heapEnd, f)
  {
    hide Pieces;
    if regions != [] {
      var n := |regions| - 1;
      var init, last := regions[..n], regions[n];
      assert regions == init + [last] && regions[..n + 1] == regions;
      TwiceEffective(init, ki, f, ftPhys, heapEnd);
      TwiceConcat(Effective(init, ki), Pieces(last, ki), f, ftPhys, heapEnd);
      PiecesApart(last, ki);
      OrderedOnce(Pieces(last, ki), f, ftPhys, heapEnd);
      EffectiveExact(init, ki, f * FRAME_SIZE);
      PiecesCover(last, ki, f * FRAME_SIZE);
      TwiceGrows(regions, n, f, ftPhys, heapEnd);
    }
  }

  lemma PiecesApart(r: Region, ki: Image)
    ensures Ordered(Pieces(r, ki))
  {
  }

  // ---------- carving untyped regions ----------

  datatype Spec = Spec(base: nat, len: nat)

  predicate SpecCovers(spec: Spec, f: nat) {
    spec.base <= f * FRAME_SIZE < spec.base + spec.len
  }

  predicate SpecOk(spec: Spec) {
    && spec.base % FRAME_SIZE == 0 && spec.len % FRAME_SIZE == 0
    && spec.len / FRAME_SIZE > 0 && spec.base / FRAME_SIZE + spec.len / FRAME_SIZE < LIST_END
  }

  /** `carve_untyped_region`: every covered frame must be Free; it becomes Untyped with this id. */
  method Carve(owner0: seq<Owner>, spec: Spec, id: nat) returns (ok: bool, owner: seq<Owner>, cap: Untyped.Cap)
    ensures |owner| == |owner0|
    ensures ok <==> SpecOk(spec) && forall f: nat :: SpecCovers(spec, f) ==> FreeAt(owner0, f)
    ensures ok ==> forall f: nat :: f < |owner| ==>
              owner[f] == if SpecCovers(spec, f) then Owner.Untyped(id) else owner0[f]
    ensures ok ==> cap == Untyped.NewCap(id, spec.base / FRAME_SIZE, spec.len / FRAME_SIZE)
    ensures ok ==> forall f: nat :: Untyped.Covers(cap, f) <==> SpecCovers(spec, f)
  {
    owner := owner0;
    var base, num := spec.base / FRAME_SIZE, spec.len / FRAME_SIZE;
    cap := Untyped.NewCap(id, base, num);
    if !SpecOk(spec) { return false, owner, cap; }
    SpecFrames(spec);
    for i := 0 to num
      invariant |owner| == |owner0|
      invariant forall f: nat :: f < |owner| ==>
                  owner[f] == if base <= f < base + i then Owner.Untyped(id) else owner0[f]
      invariant forall f: nat :: base <= f < base + i ==> FreeAt(owner0, f)
    {
      if base + i >= |owner| || !owner[base + i].Free? {
        assert SpecCovers(spec, base + i);
        return false, owner, cap;
      }
      owner := owner[base + i := Owner.Untyped(id)];
    }
    ok := true;
  }

  lemma SpecFrames(spec: Spec)
    requires SpecOk(spec)
    ensures forall f: nat :: SpecCovers(spec, f) <==>
              spec.base / FRAME_SIZE <= f < spec.base / FRAME_SIZE + spec.len / FRAME_SIZE
  {
  }

  /** The owner of every frame once the first `n` specs are carved. */
  ghost predicate Carved(pool: seq<Owner>, owner: seq<Owner>, specs: seq<Spec>, n: nat)
    requires n <= |specs|
  {
    && |owner| == |pool|
    && (forall i :: 0 <= i < n ==> SpecDone(owner, specs[i], i))
    && (forall f: nat :: f < |owner| ==> owner[f] == pool[f] || (pool[f].Free? && CoveredBy(specs, n, owner, f)))
  }

  ghost predicate SpecDone(owner: seq<Owner>, spec: Spec, i: nat) {
    forall f: nat :: SpecCovers(spec, f) ==> f < |owner| && owner[f] == Owner.Untyped(i)
  }

  ghost predicate CoveredBy(specs: seq<Spec>, n: nat, owner: seq<Owner>, f: nat)
    requires f < |owner| && n <= |specs|
  {
    owner[f].Untyped? && owner[f].id < n && SpecCovers(specs[owner[f].id], f)
  }

  /** A spec that can be carved out of the pool. */
  ghost predicate SpecFits(pool: seq<Owner>, spec: Spec) {
    SpecOk(spec) && forall f: nat :: SpecCovers(spec, f) ==> FreeAt(pool, f)
  }

  ghost predicate SpecsApart(a: Spec, b: Spec) {
    forall f: nat :: !(SpecCovers(a, f) && SpecCovers(b, f))
  }

  /** The first `n` specs can be carved one after the other. */
  ghost predicate SpecsFit(pool: seq<Owner>, specs: seq<Spec>, n: nat)
    requires n <= |specs|
  {
    && (forall i :: 0 <= i < n ==> SpecFits(pool, specs[i]))
    && (forall i, j :: 0 <= i < j < n ==> SpecsApart(specs[i], specs[j]))
  }

  /** The carving loop: it succeeds exactly when every spec fits the pool and no two overlap. */
  method CarveAll(pool: seq<Owner>, specs: seq<Spec>) returns (ok: bool, owner: seq<Owner>, caps: seq<Untyped.Cap>)
    requires forall f :: 0 <= f < |pool| ==> pool[f].Free? || pool[f].Reserved?
    ensures |owner| == |pool|
    ensures ok <==> SpecsFit(pool, specs, |specs|)
    ensures ok ==> Carved(pool, owner, specs, |specs|) && |caps| == |specs|
    ensures ok ==> forall i :: 0 <= i < |specs| ==>
              caps[i] == Untyped.NewCap(i, specs[i].base / FRAME_SIZE, specs[i].len / FRAME_SIZE)
  {
    owner, caps := pool, [];
    for i := 0 to |specs|
      invariant Carved(pool, owner, specs, i) && SpecsFit(pool, specs, i) && |caps| == i
      invariant forall j :: 0 <= j < i ==>
                  caps[j] == Untyped.NewCap(j, specs[j].base / FRAME_SIZE, specs[j].len / FRAME_SIZE)
    {
      var cap;
      ghost var before := owner;
      ok, owner, cap := Carve(owner, specs[i], i);
      NextFits(pool, before, specs, i);
      if !ok { return; }
      CarvedStep(pool, before, owner, specs, i);
      caps := caps + [cap];
    }
    ok := true;
  }

  /** The next spec finds its frames Free exactly when it fits the pool and overlaps no earlier one. */
  lemma NextFits(pool: seq<Owner>, before: seq<Owner>, specs: seq<Spec>, i: nat)
    requires forall f :: 0 <= f < |pool| ==> pool[f].Free? || pool[f].Reserved?
    requires i < |specs| && Carved(pool, before, specs, i) && SpecsFit(pool, specs, i)
    ensures SpecFits(before, specs[i]) <==> SpecsFit(pool, specs, i + 1)
    ensures !SpecFits(before, specs[i]) ==> !SpecsFit(pool, specs, |specs|)
  {
    var spec := specs[i];
    if SpecFits(before, spec) {
      forall f: nat | SpecCovers(spec, f)
        ensures FreeAt(pool, f) && forall j :: 0 <= j < i ==> !SpecCovers(specs[j], f)
      {
        assert FreeAt(before, f);
        forall j | 0 <= j < i
          ensures !SpecCovers(specs[j], f)
        {
          assert SpecDone(before, specs[j], j);
        }
      }
      assert forall j :: 0 <= j < i ==> SpecsApart(specs[j], spec);
    } else if SpecOk(spec) {
      var f: nat :| SpecCovers(spec, f) && !FreeAt(before, f);
      if FreeAt(pool, f) {
        assert CoveredBy(specs, i, before, f);
        assert !SpecsApart(specs[before[f].id], spec);
      } else {
        assert !SpecFits(pool, spec);
      }
    }
  }

  lemma CarvedStep(pool: seq<Owner>, before: seq<Owner>, owner: seq<Owner>, specs: seq<Spec>, i: nat)
    requires i < |specs| && Carved(pool, before, specs, i) && |owner| == |before|
    requires forall f: nat :: SpecCovers(specs[i], f) ==> FreeAt(before, f)
    requires forall f: nat :: f < |owner| ==>
               owner[f] == if SpecCovers(specs[i], f) then Owner.Untyped(i) else before[f]
    ensures Carved(pool, owner, specs, i + 1)
  {
  }

  // ---------- pmm_init ----------

  datatype InitError =
    | BufferTooSmall | NotAligned | TooManyRegions | NoUsable | NoFrameTable | NoHeap | Overlapping | BadSpec
    | Panicked // not an error value: the kernel panics

  /** The state, the capabilities, and where the frame table and the heap were put. */
  datatype InitResult =
    | Failed(error: InitError)
    | Started(state: State, caps: seq<Untyped.Cap>, freeFrames: nat, ftPhys: nat, heapPhys: nat, heapEnd: nat)

  /** The highest usable end. */
  function MaxEnd(regions: seq<Region>): nat {
    if regions == [] then 0
    else
      var n := |regions| - 1;
      var m := MaxEnd(regions[..n]);
      if regions[n].usable then Max(m, regions[n].End()) else m
  }

  lemma {:induction false} MaxEndBounds(regions: seq<Region>)
    ensures forall r :: r in regions && r.usable ==> r.End() <= MaxEnd(regions)
    ensures MaxEnd(regions) > 0 ==> exists r :: r in regions && r.usable && r.End() == MaxEnd(regions)
  {
    if regions != [] {
      var n := |regions| - 1;
      MaxEndBounds(regions[..n]);
      assert regions == regions[..n] + [regions[n]];
    }
  }

  method HighestEnd(regions: seq<Region>) returns (m: nat)
    ensures m == MaxEnd(regions)
  {
    m := 0;
    for k := 0 to |regions|
      invariant m == MaxEnd(regions[..k])
    {
      assert regions[..k + 1][..k] == regions[..k];
      if regions[k].usable { m := Max(m, regions[k].End()); }
    }
    assert regions[..|regions|] == regions;
  }

  /** The caller's side: RAM that fits 32-bit frame indices. */
  ghost predicate GoodMap(regions: seq<Region>, ram: Ram) {
    && ValidRam(ram)
    && forall r :: r in regions && r.usable ==> r.End() <= MAX_RAM && r.End() <= |ram| * FRAME_SIZE
  }

  /**
   What `pmm_init` promises: a frame is Free or Untyped exactly when it lies in a usable region, not
   in the frame-rounded kernel image, at or above 1 MiB and outside the range from the start of the
   frame table to the end of the heap; it is Untyped with id `i` exactly when spec `i` covers it; and
   the free lists hold the Free frames.  Frame table and heap are apart and out of the pool.
   */
  ghost predicate InitPost(regions: seq<Region>, ki: Image, specs: seq<Spec>, heapLen: nat, r: InitResult)
    requires r.Started?
  {
    var s := r.state;
    && IsInitial(s) && |s.owner| == CeilDiv(MaxEnd(Effective(regions, ki)))
    && r.freeFrames == CountFree(s.owner) == s.global.count && InOrder(s.owner, s.ram, s.global.head)
    && OwnersExact(regions, ki, specs, r.ftPhys, r.heapEnd, s.owner)
    && |r.caps| == |specs|
    && (forall i :: 0 <= i < |specs| ==>
          r.caps[i] == Untyped.NewCap(i, specs[i].base / FRAME_SIZE, specs[i].len / FRAME_SIZE))
    && r.ftPhys % FRAME_SIZE == 0 && r.heapEnd == r.heapPhys + heapLen
    && (Ordered(regions) || heapLen == 0 ==> r.ftPhys + |s.owner| * FRAME_INFO_BYTES <= r.heapPhys)
    && SafePlace(r.ftPhys, |s.owner| * FRAME_INFO_BYTES, r.heapPhys, heapLen)
    && InRegion(Effective(regions, ki), r.ftPhys, |s.owner| * FRAME_INFO_BYTES)
    && (heapLen != 0 ==> r.heapPhys % FRAME_SIZE == 0 && InRegion(Effective(regions, ki), r.heapPhys, heapLen))
  }

  /**
   The frame table lies below the heap, or both lie in legacy memory and apart.  Otherwise the span
   from the one to the other does not keep both out of the pool and apart.
   */
  predicate SafePlace(ftPhys: nat, bytes: nat, heapPhys: nat, heapLen: nat) {
    || ftPhys + bytes <= heapPhys
    || (heapPhys + heapLen <= ftPhys && ftPhys + bytes <= LEGACY_END)
  }

  datatype Placement = NoTable | NoRoom | Placed(ftPhys: nat, heapPhys: nat)

  /** Where two allocations put the frame table and the heap. */
  function Place(regions: seq<Region>, total: nat, heapLen: nat): Placement {
    var bytes := total * FRAME_INFO_BYTES;
    var (ft, at) := Bump(regions, Position(0, 0), bytes, FRAME_SIZE);
    if ft.None? then NoTable
    else if heapLen == 0 then Placed(ft.value, ft.value + bytes)
    else
      match Bump(regions, at, heapLen, FRAME_SIZE).0
      case None => NoRoom
      case Some(hp) => Placed(ft.value, hp)
  }

  /**
   Both lie in usable regions, in order if the regions are; one is missing exactly when no region
   left has room for it.
   */
  lemma PlaceExact(regions: seq<Region>, total: nat, heapLen: nat)
    requires forall x :: x in regions && x.usable ==> x.End() <= MAX_RAM
    ensures var bytes := total * FRAME_INFO_BYTES;
            match Place(regions, total, heapLen)
            case NoTable => !RoomLeft(regions, Position(0, 0), bytes, FRAME_SIZE)
            case NoRoom =>
              && RoomLeft(regions, Position(0, 0), bytes, FRAME_SIZE)
              && heapLen > 0 && !RoomLeft(regions, AfterTable(regions, bytes), heapLen, FRAME_SIZE)
            case Placed(ftPhys, heapPhys) =>
              && RoomLeft(regions, Position(0, 0), bytes, FRAME_SIZE)
              && (heapLen > 0 ==> RoomLeft(regions, AfterTable(regions, bytes), heapLen, FRAME_SIZE))
              && ftPhys % FRAME_SIZE == 0 && (Ordered(regions) ==> ftPhys + bytes <= heapPhys)
              && InRegion(regions, ftPhys, bytes)
              && (heapLen != 0 ==> heapPhys % FRAME_SIZE == 0 && InRegion(regions, heapPhys, heapLen))
              && (heapLen == 0 ==> heapPhys == ftPhys + bytes)
  {
    hide IsPow2, Ordered, Bump, RoomLeft;
    var bytes := total * FRAME_INFO_BYTES;
    GoodBoot(regions);
    BumpExact(regions, Position(0, 0), bytes, FRAME_SIZE);
    var (ft, at) := Bump(regions, Position(0, 0), bytes, FRAME_SIZE);
    if ft.Some? && heapLen > 0 {
      BumpExact(regions, at, heapLen, FRAME_SIZE);
      if Bump(regions, at, heapLen, FRAME_SIZE).0.Some? { BumpNeedsRegion(regions, at, heapLen, FRAME_SIZE); }
    }
  }

  /** Where the boot allocator stands once the frame table is placed. */
  function AfterTable(regions: seq<Region>, bytes: nat): Position {
    Bump(regions, Position(0, 0), bytes, FRAME_SIZE).1
  }

  /** The frame table, then the heap, out of usable memory. */
  method Reserve(regions: seq<Region>, total: nat, heapLen: nat) returns (r: Placement)
    ensures r == Place(regions, total, heapLen)
  {
    hide Bump;
    var bytes := total * FRAME_INFO_BYTES;
    var boot := new BootAllocator(regions);
    var ft := boot.Alloc(bytes, FRAME_SIZE);
    if ft.None? { return NoTable; }
    if heapLen == 0 { return Placed(ft.value, ft.value + bytes); }
    var hp := boot.Alloc(heapLen, FRAME_SIZE);
    if hp.None? { return NoRoom; }
    r := Placed(ft.value, hp.value);
  }

  lemma BumpNeedsRegion(regions: seq<Region>, at: Position, size: nat, align: nat)
    requires 0 < align < WORD && Bump(regions, at, size, align).0.Some?
    ensures at.next < |regions|
  {
  }

  /** Why `pmm_init` fails before it marks a frame, if it does. */
  ghost function Trouble(regions: seq<Region>, ki: Image, specs: seq<Spec>, capSlots: nat,
                         heapLen: nat): Option<InitError> {
    var effective := Effective(regions, ki);
    var bytes := CeilDiv(MaxEnd(effective)) * FRAME_INFO_BYTES;
    if |specs| > capSlots then Some(BufferTooSmall)
    else if !FrameAligned(regions) then Some(NotAligned)
    else if exists k :: Bursts(regions, ki, k) then Some(Panicked)
    else if |effective| >= MAX_EFFECTIVE_REGIONS then Some(TooManyRegions)
    else if forall r :: r in effective && r.usable ==> r.End() == 0 then Some(NoUsable)
    else if !RoomLeft(effective, Position(0, 0), bytes, FRAME_SIZE) then Some(NoFrameTable)
    else if heapLen > 0 && !RoomLeft(effective, AfterTable(effective, bytes), heapLen, FRAME_SIZE) then Some(NoHeap)
    else None
  }

  /** Frame `f` is there to be given out. */
  ghost predicate Available(regions: seq<Region>, ki: Image, ftPhys: nat, heapEnd: nat, f: nat) {
    && InUsable(regions, f * FRAME_SIZE) && !(ki.start <= f * FRAME_SIZE < ki.end)
    && f * FRAME_SIZE >= LEGACY_END && !(ftPhys <= f * FRAME_SIZE < heapEnd)
  }

  /** Well-formed specs over available frames, no two overlapping. */
  ghost predicate SpecsPossible(regions: seq<Region>, ki: Image, ftPhys: nat, heapEnd: nat, specs: seq<Spec>) {
    && (forall i :: 0 <= i < |specs| ==> SpecOk(specs[i]))
    && (forall i, f: nat :: 0 <= i < |specs| && SpecCovers(specs[i], f) ==> Available(regions, ki, ftPhys, heapEnd, f))
    && (forall i, j :: 0 <= i < j < |specs| ==> SpecsApart(specs[i], specs[j]))
  }

  /**
   `pmm_init`: why it fails, and what it leaves behind when it does not, provided that frame table and
   heap are placed safely, as they are in address order.  If they are not, the kernel reports success
   all the same and then overwrites one of them.  The kernel panics on a heap length that is not a
   multiple of the frame size.
   */
  method Init(regions: seq<Region>, imageStart: nat, imageLen: nat, specs: seq<Spec>, capSlots: nat, heapLen: nat,
              ram0: Ram)
    returns (r: InitResult)
    requires GoodMap(regions, ram0) && heapLen % FRAME_SIZE == 0
    ensures r.Started? && SafePlace(r.ftPhys, |r.state.owner| * FRAME_INFO_BYTES, r.heapPhys, heapLen) ==>
              InitPost(regions, ImageOf(imageStart, imageLen), specs, heapLen, r)
    ensures r.Started? && Ordered(regions) ==>
              SafePlace(r.ftPhys, |r.state.owner| * FRAME_INFO_BYTES, r.heapPhys, heapLen)
    ensures var ki := ImageOf(imageStart, imageLen);
            var placed := Place(Effective(regions, ki), CeilDiv(MaxEnd(Effective(regions, ki))), heapLen);
            match Trouble(regions, ki, specs, capSlots, heapLen)
            case Some(error) => r == Failed(error)
            case None =>
              && placed.Placed?
              && var heapEnd := placed.heapPhys + heapLen;
                 if exists f: nat :: ClaimedTwice(regions, ki, placed.ftPhys, heapEnd, f) then r == Failed(Overlapping)
                 else if !SpecsPossible(regions, ki, placed.ftPhys, heapEnd, specs) then r == Failed(BadSpec)
                 else
                   && r.Started? && r.ftPhys == placed.ftPhys && r.heapPhys == placed.heapPhys
                   && |r.state.owner| == CeilDiv(MaxEnd(Effective(regions, ki)))
    ensures r.Started? ==> |r.state.ram| == |r.state.owner| <= |ram0|
    ensures r.Started? ==>
              forall f: nat :: f < |r.state.owner| && r.state.owner[f].Untyped? ==> r.state.ram[f] == ram0[f]
  {
    hide Ordered, Effective, IsInitial, OwnersExact, InRegion, CountFree, RoomLeft, Bursts, SpecsPossible, Place,
      FrameAligned, ClaimedTwice, MaxEnd;
    if |specs| > capSlots { return Failed(BufferTooSmall); }
    if !FrameAligned(regions) { return Failed(NotAligned); }
    var ki := ImageOf(imageStart, imageLen);
    var out := new Region[MAX_EFFECTIVE_REGIONS](_ => Region(0, 0, false));
    var built := BuildEffective(regions, ki, out);
    if built.OutOfBounds? { return Failed(Panicked); }
    if built.TooMany? { return Failed(TooManyRegions); }
    var effective := out[..built.n];
    EffectiveFacts(regions, ki, ram0);
    MaxEndBounds(effective);
    var maxEnd := HighestEnd(effective);
    if maxEnd == 0 { return Failed(NoUsable); }
    var total := CeilDiv(maxEnd);

    PlaceExact(effective, total, heapLen);
    var placed := Reserve(effective, total, heapLen);
    if !placed.Placed? { return Failed(if placed.NoTable? then NoFrameTable else NoHeap); }
    var ft, heapPhys, heapEnd := placed.ftPhys, placed.heapPhys, placed.heapPhys + heapLen;
    var error, state, caps := Populate(regions, ki, effective, total, ft, heapEnd, specs, ram0);
    if error.Some? { return Failed(error.value); }
    r := Started(state, caps, state.global.count, ft, heapPhys, heapEnd);
  }

  /** Every frame of `s` has the owner that the memory map and the specs prescribe. */
  ghost predicate OwnersExact(regions: seq<Region>, ki: Image, specs: seq<Spec>, ftPhys: nat, heapEnd: nat,
                              owner: seq<Owner>) {
    && (forall f: nat :: f < |owner| ==>
          && (owner[f].Free? || owner[f].Untyped? || owner[f].Reserved?)
          && (!owner[f].Reserved? <==> Available(regions, ki, ftPhys, heapEnd, f))
          && (owner[f].Untyped? ==> owner[f].id < |specs|)
          && (forall i :: 0 <= i < |specs| ==> (owner[f] == Owner.Untyped(i) <==> SpecCovers(specs[i], f))))
    && (forall i, f: nat :: 0 <= i < |specs| && SpecCovers(specs[i], f) ==> f < |owner|)
  }

  /** Nothing is left open: map, image, placement and specs determine every owner. */
  lemma OwnersDetermined(regions: seq<Region>, ki: Image, specs: seq<Spec>, ftPhys: nat, heapEnd: nat,
                         a: seq<Owner>, b: seq<Owner>)
    requires |a| == |b|
    requires OwnersExact(regions, ki, specs, ftPhys, heapEnd, a) && OwnersExact(regions, ki, specs, ftPhys, heapEnd, b)
    ensures a == b
    ensures forall f: nat :: f < |a| ==>
              (a[f].Free? <==> Available(regions, ki, ftPhys, heapEnd, f)
                               && forall i :: 0 <= i < |specs| ==> !SpecCovers(specs[i], f))
  {
    hide Available, SpecCovers;
    forall f: nat | f < |a|
      ensures a[f] == b[f]
    {
      if a[f].Untyped? { assert a[f] == Owner.Untyped(a[f].id) && SpecCovers(specs[a[f].id], f); }
      if b[f].Untyped? { assert b[f] == Owner.Untyped(b[f].id) && SpecCovers(specs[b[f].id], f); }
    }
  }

  /** Right after boot: no address space, and nothing freed or granted yet. */
  function Booted(s: State): KernelRuns.System {
    KernelRuns.System(s, {}, seq(|s.owner|, _ => 0), seq(|s.owner|, _ => 0))
  }

  ghost predicate IsInitial(s: State) {
    KernelRuns.Initial(Booted(s))
  }

  /** Mark the pool, carve the specs and build the free list. */
  method Populate(regions: seq<Region>, ki: Image, effective: seq<Region>, total: nat, ftPhys: nat, heapEnd: nat,
                  specs: seq<Spec>, ram0: Ram)
    returns (error: Option<InitError>, s: State, caps: seq<Untyped.Cap>)
    requires effective == Effective(regions, ki) && ValidRam(ram0) && total <= |ram0|
    requires total < LIST_END
    requires forall r :: r in effective && r.usable ==> r.End() <= total * FRAME_SIZE
    ensures error ==
              if exists f: nat :: ClaimedTwice(regions, ki, ftPhys, heapEnd, f) then Some(Overlapping)
              else if !SpecsPossible(regions, ki, ftPhys, heapEnd, specs) then Some(BadSpec)
              else None
    ensures error.None? ==>
              && IsInitial(s) && |s.owner| == total && s.global.count == CountFree(s.owner)
              && InOrder(s.owner, s.ram, s.global.head) && |s.ram| == total
              && (forall f: nat :: f < total && !FreeAt(s.owner, f) ==> s.ram[f] == ram0[f])
              && OwnersExact(regions, ki, specs, ftPhys, heapEnd, s.owner)
              && |caps| == |specs|
              && forall i :: 0 <= i < |specs| ==>
                   caps[i] == Untyped.NewCap(i, specs[i].base / FRAME_SIZE, specs[i].len / FRAME_SIZE)
  {
    hide InUsable, Effective, KernelRuns.Initial, SeqInv, Visits, Follow, GivenTwice, ClaimedTwice;
    caps := [];
    forall f: nat
      ensures GivenTwice(effective, f, ftPhys, heapEnd) <==> ClaimedTwice(regions, ki, ftPhys, heapEnd, f)
    {
      TwiceEffective(regions, ki, f, ftPhys, heapEnd);
    }
    var ok, pool := MarkUsable(effective, total, ftPhys, heapEnd);
    s := FreshState(pool, ram0, LIST_END, 0);
    if !ok { return Some(Overlapping), s, caps; }
    var owner;
    ok, owner, caps := CarveAll(pool, specs);
    PossibleFits(regions, ki, ftPhys, heapEnd, pool, specs);
    if !ok { return Some(BadSpec), s, caps; }
    var ram, head, count := BuildList(owner, ram0[..total]);
    error, s := None, FreshState(owner, ram, head, count);
    FreshInv(owner, ram, head, count);
    Classified(regions, ki, ftPhys, heapEnd, pool, owner, specs);
    FreshInitial(owner, ram, head, count);
  }

  /** Fitting the pool is what possible specs do. */
  lemma PossibleFits(regions: seq<Region>, ki: Image, ftPhys: nat, heapEnd: nat, pool: seq<Owner>, specs: seq<Spec>)
    requires forall f: nat :: f < |pool| ==>
               pool[f] == if InPool(Effective(regions, ki), f, ftPhys, heapEnd) then Free else Reserved
    requires forall r :: r in Effective(regions, ki) && r.usable ==> r.End() <= |pool| * FRAME_SIZE
    ensures SpecsFit(pool, specs, |specs|) <==> SpecsPossible(regions, ki, ftPhys, heapEnd, specs)
  {
    hide Effective, SpecOk;
    forall f: nat
      ensures FreeAt(pool, f) <==> Available(regions, ki, ftPhys, heapEnd, f)
    {
      EffectiveExact(regions, ki, f * FRAME_SIZE);
      assert InPool(Effective(regions, ki), f, ftPhys, heapEnd) <==> Available(regions, ki, ftPhys, heapEnd, f);
    }
  }

  lemma EffectiveFacts(regions: seq<Region>, ki: Image, ram: Ram)
    requires GoodMap(regions, ram)
    ensures Ordered(regions) ==> Ordered(Effective(regions, ki))
    ensures forall r :: r in Effective(regions, ki) && r.usable ==> r.End() <= MAX_RAM && r.End() <= |ram| * FRAME_SIZE
  {
    if Ordered(regions) { EffectiveOrdered(regions, ki); }
    forall p | p in Effective(regions, ki) && p.usable
      ensures p.End() <= MAX_RAM && p.End() <= |ram| * FRAME_SIZE
    {
      EffectiveInside(regions, ki, p);
      var r :| r in regions && p in Pieces(r, ki);
      PiecesInside(r, ki, p);
      PiecesUsable(r, ki, p);
    }
  }

  lemma PiecesUsable(r: Region, ki: Image, p: Region)
    requires p in Pieces(r, ki) && p.usable
    ensures r.usable
  {
  }

  lemma GoodBoot(regions: seq<Region>)
    requires forall r :: r in regions && r.usable ==> r.End() <= MAX_RAM
    ensures GoodRegions(regions, FRAME_SIZE)
  {
    assert Pow2(12) == FRAME_SIZE;
    assert IsPow2(FRAME_SIZE);
  }

  /** Marking and carving together give every frame the owner that the memory map prescribes. */
  lemma Classified(regions: seq<Region>, ki: Image, ftPhys: nat, heapEnd: nat, pool: seq<Owner>, owner: seq<Owner>,
                   specs: seq<Spec>)
    requires forall f: nat :: f < |pool| ==>
               pool[f] == if InPool(Effective(regions, ki), f, ftPhys, heapEnd) then Free else Reserved
    requires Carved(pool, owner, specs, |specs|)
    ensures OwnersExact(regions, ki, specs, ftPhys, heapEnd, owner)
  {
    forall f: nat | f < |owner|
      ensures owner[f].Free? || owner[f].Untyped? || owner[f].Reserved?
      ensures !owner[f].Reserved? <==>
                && InUsable(regions, f * FRAME_SIZE) && !(ki.start <= f * FRAME_SIZE < ki.end)
                && f * FRAME_SIZE >= LEGACY_END && !(ftPhys <= f * FRAME_SIZE < heapEnd)
      ensures forall i :: 0 <= i < |specs| ==> (owner[f] == Owner.Untyped(i) <==> SpecCovers(specs[i], f))
    {
      EffectiveExact(regions, ki, f * FRAME_SIZE);
      assert owner[f] == pool[f] || (pool[f].Free? && CoveredBy(specs, |specs|, owner, f));
      forall i | 0 <= i < |specs|
        ensures owner[f] == Owner.Untyped(i) <==> SpecCovers(specs[i], f)
      {
        assert SpecDone(owner, specs[i], i);
      }
    }
    forall i, f: nat | 0 <= i < |specs| && SpecCovers(specs[i], f)
      ensures f < |owner|
    {
      assert SpecDone(owner, specs[i], i);
    }
  }

  lemma FreshInitial(owner: seq<Owner>, ram: Ram, head: nat, count: nat)
    requires SeqInv(FreshState(owner, ram, head, count))
    requires forall f: nat :: f < |owner| ==> !owner[f].Pending?
    ensures var s := FreshState(owner, ram, head, count);
            IsInitial(s)
  {
    hide SeqInv;
  }

  /** Every run of the memory managers from a successful `pmm_init` keeps the system invariant. */
  lemma RunsFromBoot(regions: seq<Region>, ki: Image, specs: seq<Spec>, heapLen: nat, r: InitResult,
                     trace: seq<KernelRuns.System>, ops: seq<KernelRuns.Op>, k: nat) returns (nodes: PageTree.Forest)
    requires r.Started? && InitPost(regions, ki, specs, heapLen, r)
    requires KernelRuns.IsRun(trace, ops) && k < |trace|
    requires trace[0] == Booted(r.state)
    ensures KernelRuns.SystemInv(trace[k], nodes)
  {
    hide KernelRuns.SystemInv, KernelRuns.Initial, KernelRuns.IsRun, OwnersExact, InRegion, Effective, CountFree;
    nodes := KernelRuns.RunsKeep(trace, ops, k);
  }
}
