/**
 `pmm_init` (`kernel/src/boot.rs`) keeps everything from the start of the frame table to the end of the
 heap out of the pool.  When the heap does not fit behind the frame table, usable frames between the
 two are kept out as well, and nothing ever uses them.
 */
module BootSpan {
  import opened Bits
  import opened Frames
  import opened BootRegions
  import opened BootAlloc
  import opened PmmInit
  import opened BootStates

  function Min(a: nat, b: nat): nat {
    if a < b then a else b
  }

  function TableEnd(r: InitResult): nat
    requires r.Started?
  {
    r.ftPhys + |r.state.owner| * FRAME_INFO_BYTES
  }

  /** Frame `f` could be in the pool, holds no part of the frame table or heap, and is Reserved. */
  ghost predicate Wasted(regions: seq<Region>, ki: Image, r: InitResult, f: nat)
    requires r.Started?
  {
    var x := f * FRAME_SIZE;
    && f < |r.state.owner| && r.state.owner[f].Reserved?
    && InUsable(regions, x) && !(ki.start <= x < ki.end) && x >= LEGACY_END
    && !(r.ftPhys <= x < TableEnd(r)) && !(r.heapPhys <= x < r.heapEnd)
  }

  /** Some whole frame at or above 1 MiB lies in region `p` between the frame table and the heap. */
  predicate GapIn(p: Region, tableEnd: nat, heapPhys: nat) {
    p.usable && Max(Max(p.start, RoundUp(tableEnd)), LEGACY_END) < Min(p.End(), heapPhys)
  }

  lemma RoundUpLeast(v: nat, f: nat)
    ensures RoundUp(v) % FRAME_SIZE == 0 && v <= RoundUp(v) && (v <= f * FRAME_SIZE <==> RoundUp(v) <= f * FRAME_SIZE)
  {
    var q := (v + FRAME_SIZE - 1) / FRAME_SIZE;
    DivUnique(q * FRAME_SIZE, FRAME_SIZE, q, 0);
    FrameBounds(v, f);
  }

  /** Every frame between frame table and heap that could be in the pool is wasted, and no other frame. */
  lemma WastedBetween(regions: seq<Region>, ki: Image, specs: seq<Spec>, heapLen: nat, r: InitResult, f: nat)
    requires r.Started? && InitPost(regions, ki, specs, heapLen, r) && f < |r.state.owner|
    ensures var x := f * FRAME_SIZE;
            Wasted(regions, ki, r, f) <==>
              && InUsable(regions, x) && !(ki.start <= x < ki.end) && x >= LEGACY_END
              && TableEnd(r) <= x < r.heapPhys
  {
    hide IsInitial, InRegion, Effective, InUsable, Ordered;
    assert !r.state.owner[f].Reserved? <==> Available(regions, ki, r.ftPhys, r.heapEnd, f);
  }

  /** Some frame is wasted if and only if an effective region has a whole frame between frame table and heap. */
  lemma WastedExactly(regions: seq<Region>, ki: Image, specs: seq<Spec>, heapLen: nat, r: InitResult)
    requires r.Started? && InitPost(regions, ki, specs, heapLen, r) && FrameAligned(regions)
    requires ki.start % FRAME_SIZE == 0 && ki.end % FRAME_SIZE == 0
    ensures (exists f: nat :: Wasted(regions, ki, r, f)) <==>
              exists p :: p in Effective(regions, ki) && GapIn(p, TableEnd(r), r.heapPhys)
  {
    hide InitPost, Effective, InUsable, RoundUp, Wasted;
    var end := TableEnd(r);
    if f: nat :| Wasted(regions, ki, r, f) {
      var x := f * FRAME_SIZE;
      WastedIsFrame(regions, ki, r, f);
      WastedBetween(regions, ki, specs, heapLen, r, f);
      EffectiveExact(regions, ki, x);
      var p := HolderOf(Effective(regions, ki), x);
      RoundUpLeast(end, f);
      assert GapIn(p, end, r.heapPhys);
    }
    if p :| p in Effective(regions, ki) && GapIn(p, end, r.heapPhys) {
      var x := Max(Max(p.start, RoundUp(end)), LEGACY_END);
      RoundUpLeast(end, 0);
      EffectiveAligned(regions, ki, p);
      var f := x / FRAME_SIZE;
      assert x == f * FRAME_SIZE && x < p.End();
      HeldThere(Effective(regions, ki), p, x);
      EffectiveExact(regions, ki, x);
      InTable(regions, ki, specs, heapLen, r, p, f);
      WastedBetween(regions, ki, specs, heapLen, r, f);
    }
  }

  lemma WastedIsFrame(regions: seq<Region>, ki: Image, r: InitResult, f: nat)
    requires r.Started? && Wasted(regions, ki, r, f)
    ensures f < |r.state.owner| && InUsable(regions, f * FRAME_SIZE)
  {
  }

  lemma HolderOf(regions: seq<Region>, x: nat) returns (p: Region)
    requires InUsable(regions, x)
    ensures p in regions && Holds(p, x)
  {
    p :| p in regions && Holds(p, x);
  }

  lemma HeldThere(regions: seq<Region>, p: Region, x: nat)
    requires p in regions && Holds(p, x)
    ensures InUsable(regions, x)
  {
  }

  lemma InTable(regions: seq<Region>, ki: Image, specs: seq<Spec>, heapLen: nat, r: InitResult, p: Region, f: nat)
    requires r.Started? && InitPost(regions, ki, specs, heapLen, r)
    requires p in Effective(regions, ki) && p.usable && f * FRAME_SIZE < p.End()
    ensures f < |r.state.owner|
  {
    hide IsInitial, InRegion, Effective, OwnersExact;
    MaxEndBounds(Effective(regions, ki));
  }

  /** What the image leaves of aligned regions is aligned. */
  lemma EffectiveAligned(regions: seq<Region>, ki: Image, p: Region)
    requires FrameAligned(regions) && ki.start % FRAME_SIZE == 0 && ki.end % FRAME_SIZE == 0
    requires p in Effective(regions, ki) && p.usable
    ensures p.start % FRAME_SIZE == 0
  {
    hide Effective;
    EffectiveInside(regions, ki, p);
    var r :| r in regions && p in Pieces(r, ki);
    PiecesUsable(r, ki, p);
  }

  /** Nothing is wasted when the heap fits behind the frame table in its region. */
  lemma TogetherWastesNothing(regions: seq<Region>, total: nat, heapLen: nat)
    requires forall p :: p in regions && p.usable ==> p.End() <= MAX_RAM
    requires var at := AfterTable(regions, total * FRAME_INFO_BYTES);
             && at.next < |regions| && at.cursor > regions[at.next].start
             && HasRoom(regions, at, at.next, heapLen, FRAME_SIZE)
    requires Place(regions, total, heapLen).Placed? && heapLen > 0
    ensures var placed := Place(regions, total, heapLen);
            forall p :: p in regions ==> !GapIn(p, placed.ftPhys + total * FRAME_INFO_BYTES, placed.heapPhys)
  {
    hide IsPow2, AlignUp, RoundUp;
    var bytes := total * FRAME_INFO_BYTES;
    GoodBoot(regions);
    BumpExact(regions, Position(0, 0), bytes, FRAME_SIZE);
    var at := AfterTable(regions, bytes);
    assert regions[at.next] in regions;
    LeastAligned(at.cursor, heapLen, FRAME_SIZE, regions[at.next].End());
    CursorIsEnd(regions, Position(0, 0), bytes);
    RoundedUp(at.cursor);
  }

  /** A cursor that stands inside a region stands where the last range ended. */
  lemma {:induction false} CursorIsEnd(regions: seq<Region>, at: Position, size: nat)
    requires at.cursor == 0
    ensures var (r, at') := Bump(regions, at, size, FRAME_SIZE);
            r.Some? && at'.cursor > 0 ==> at'.cursor == r.value + size
    decreases |regions| - at.next
  {
    hide AlignUp;
    if at.next < |regions| { CursorIsEnd(regions, Position(at.next + 1, 0), size); }
  }

  lemma RoundedUp(v: nat)
    requires v + FRAME_SIZE <= WORD
    ensures AlignUp(v, FRAME_SIZE) == RoundUp(v)
  {
    hide AlignUp;
    assert Pow2(12) == FRAME_SIZE;
    assert IsPow2(FRAME_SIZE);
    AlignUpExact(v, FRAME_SIZE);
    FrameBounds(v, AlignUp(v, FRAME_SIZE) / FRAME_SIZE);
  }

  /** Effective regions without an image are the regions. */
  lemma {:induction false} NoImage(regions: seq<Region>)
    ensures Effective(regions, Image(0, 0)) == regions
  {
    if regions != [] {
      var n := |regions| - 1;
      NoImage(regions[..n]);
      assert regions == regions[..n] + [regions[n]];
    }
  }

  lemma TwoRegions(a: Region, b: Region)
    ensures forall x: nat :: InUsable([a, b], x) <==> Holds(a, x) || Holds(b, x)
    ensures MaxEnd([a, b]) == Max(if a.usable then a.End() else 0, if b.usable then b.End() else 0)
  {
    var regions := [a, b];
    assert regions[..1] == [a] && [a][..0] == [];
    assert MaxEnd([]) == 0;
    forall x: nat
      ensures InUsable(regions, x) <==> Holds(a, x) || Holds(b, x)
    {
      assert a in regions && b in regions;
    }
  }

  /** Where two allocations go, the first of which fits region `a`, and the second only region `b`. */
  lemma TwoPlaces(a: Region, b: Region, total: nat, heapLen: nat)
    requires a.usable && b.usable && a.start % FRAME_SIZE == 0 && b.start % FRAME_SIZE == 0 && heapLen > 0
    requires a.End() <= MAX_RAM && b.start <= MAX_RAM
    requires var bytes := total * FRAME_INFO_BYTES;
             && a.start + bytes <= a.End() && b.start + heapLen <= b.End() && a.start + bytes + heapLen > a.End()
    ensures Place([a, b], total, heapLen) == Placed(a.start, b.start)
  {
    hide AlignUp;
    var regions, bytes := [a, b], total * FRAME_INFO_BYTES;
    var end := a.start + bytes;
    WholeRound(a.start);
    WholeRound(b.start);
    RoundedUp(end);
    RoundUpLeast(end, 0);
    assert Bump(regions, Position(1, 0), heapLen, FRAME_SIZE).0 == Some(b.start);
    var at := if end == a.End() then Position(1, 0) else Position(0, end);
    assert Bump(regions, Position(0, 0), bytes, FRAME_SIZE) == (Some(a.start), at);
    assert Bump(regions, at, heapLen, FRAME_SIZE).0 == Some(b.start);
  }

  /** Two aligned regions with room for both: nothing is wrong before frames are marked. */
  lemma TwoNoTrouble(a: Region, b: Region, total: nat, heapLen: nat)
    requires a.usable && b.usable && FrameAligned([a, b]) && a.End() > 0
    requires a.End() <= MAX_RAM && b.End() <= MAX_RAM && heapLen > 0
    requires total == CeilDiv(MaxEnd([a, b])) && Place([a, b], total, heapLen).Placed?
    ensures Trouble([a, b], Image(0, 0), [], 0, heapLen) == None
  {
    hide Bump, MaxEnd, Effective, Place, RoomLeft, Bursts;
    var regions := [a, b];
    NoImage(regions);
    PlaceExact(regions, total, heapLen);
    forall k: nat
      ensures !Bursts(regions, Image(0, 0), k)
    {
      FewDontBurst(regions, k);
    }
    assert a in Effective(regions, Image(0, 0));
  }

  lemma FewDontBurst(regions: seq<Region>, k: nat)
    requires |regions| < MAX_EFFECTIVE_REGIONS - 1
    ensures !Bursts(regions, Image(0, 0), k)
  {
    if k <= |regions| { NoImage(regions[..k]); }
  }

  lemma WholeRound(v: nat)
    requires v % FRAME_SIZE == 0 && v + FRAME_SIZE <= WORD
    ensures AlignUp(v, FRAME_SIZE) == v
  {
    hide AlignUp;
    RoundedUp(v);
    var q := v / FRAME_SIZE;
    DivUnique(v + FRAME_SIZE - 1, FRAME_SIZE, q, FRAME_SIZE - 1);
  }

  // ---------- a gap ----------

  const GAP_MAP: seq<Region> := [Region(0x10_0000, 0x10_0000, true), Region(0x40_0000, 0x100_0000, true)]

  /**
   1 MiB of RAM, a hole and 16 MiB more: a heap of 2 MiB skips the rest of the first region, and the
   frame behind the frame table is wasted.
   */
  lemma SplitPlacement() returns (r: InitResult)
    ensures Ordered(GAP_MAP) && Place(GAP_MAP, 0x1400, 0x20_0000) == Placed(0x10_0000, 0x40_0000)
    ensures r.Started? && r.ftPhys == 0x10_0000 && r.heapPhys == 0x40_0000
    ensures InitPost(GAP_MAP, Image(0, 0), [], 0x20_0000, r) && Wasted(GAP_MAP, Image(0, 0), r, 0x11e)
  {
    hide Bump, InUsable, MaxEnd, Effective, InitPost, TailState;
    var a, b := GAP_MAP[0], GAP_MAP[1];
    assert GAP_MAP == [a, b];
    NoImage(GAP_MAP);
    TwoRegions(a, b);
    TwoPlaces(a, b, 0x1400, 0x20_0000);
    r := TailInit(0x1400, 0x600, 0x10_0000, 0x40_0000, 0x20_0000);
    assert InRegion(GAP_MAP, 0x10_0000, 0x1400 * FRAME_INFO_BYTES) by { assert GAP_MAP[0].usable; }
    assert InRegion(GAP_MAP, 0x40_0000, 0x20_0000) by { assert GAP_MAP[1].usable; }
    TailPost(GAP_MAP, Image(0, 0), 0x1400, 0x600, 0x10_0000, 0x40_0000, 0x20_0000, 0x60_0000);
    TailInv(0x1400, 0x600);
    WastedBetween(GAP_MAP, Image(0, 0), [], 0x20_0000, r, 0x11e);
  }

  // ---------- an unsafe placement ----------

  /** Frame `f` holds a part of the frame table or the heap. */
  predicate InUse(ftPhys: nat, bytes: nat, heapPhys: nat, heapLen: nat, f: nat) {
    ftPhys <= f * FRAME_SIZE < ftPhys + bytes || heapPhys <= f * FRAME_SIZE < heapPhys + heapLen
  }

  /** Frame table and heap are apart, and no frame of either is there to be given out. */
  ghost predicate KeptOut(regions: seq<Region>, ki: Image, ftPhys: nat, bytes: nat, heapPhys: nat, heapLen: nat) {
    && (ftPhys + bytes <= heapPhys || heapPhys + heapLen <= ftPhys)
    && var heapEnd := heapPhys + heapLen;
       forall f: nat :: InUse(ftPhys, bytes, heapPhys, heapLen, f) ==> !Available(regions, ki, ftPhys, heapEnd, f)
  }

  /** The span keeps frame table and heap apart and out of the pool exactly when the placement is safe. */
  lemma SafeExactly(regions: seq<Region>, ki: Image, ftPhys: nat, bytes: nat, heapPhys: nat, heapLen: nat)
    requires bytes > 0 && ftPhys % FRAME_SIZE == 0 && InRegion(Effective(regions, ki), ftPhys, bytes)
    ensures KeptOut(regions, ki, ftPhys, bytes, heapPhys, heapLen) <==> SafePlace(ftPhys, bytes, heapPhys, heapLen)
  {
    hide Effective, InUsable;
    var end := ftPhys + bytes;
    if heapPhys + heapLen <= ftPhys && end > heapPhys && end > LEGACY_END {
      var f := (end - 1) / FRAME_SIZE;
      LastFrameOf(ftPhys, end);
      TableUsable(Effective(regions, ki), ftPhys, bytes, f * FRAME_SIZE);
      EffectiveExact(regions, ki, f * FRAME_SIZE);
      assert InUse(ftPhys, bytes, heapPhys, heapLen, f);
      assert Available(regions, ki, ftPhys, heapPhys + heapLen, f);
    }
  }

  lemma LastFrameOf(start: nat, end: nat)
    requires start % FRAME_SIZE == 0 && start < end
    ensures var x := (end - 1) / FRAME_SIZE * FRAME_SIZE; start <= x < end && (end > LEGACY_END ==> x >= LEGACY_END)
  {
    FrameBounds(end - 1, start / FRAME_SIZE);
    FrameBounds(end - 1, LEGACY_END / FRAME_SIZE);
  }

  lemma TableUsable(regions: seq<Region>, p: nat, size: nat, x: nat)
    requires InRegion(regions, p, size) && p <= x < p + size
    ensures InUsable(regions, x)
  {
    var k :| 0 <= k < |regions| && regions[k].usable && regions[k].start <= p && p + size <= regions[k].End();
    assert regions[k] in regions && Holds(regions[k], x);
  }

  const UNORDERED_MAP: seq<Region> := [Region(0x400_0000, 0x10_0000, true), Region(0x10_0000, 0x100_0000, true)]

  /** With the higher region first, the heap comes to lie below the frame table and both are in the pool. */
  lemma UnorderedUnsafe()
    ensures var ki, bytes := Image(0, 0), 0x4100 * FRAME_INFO_BYTES;
            && Trouble(UNORDERED_MAP, ki, [], 0, 0x20_0000) == None
            && CeilDiv(MaxEnd(Effective(UNORDERED_MAP, ki))) == 0x4100
            && Place(Effective(UNORDERED_MAP, ki), 0x4100, 0x20_0000) == Placed(0x400_0000, 0x10_0000)
            && !SafePlace(0x400_0000, bytes, 0x10_0000, 0x20_0000)
            && (forall f: nat :: !ClaimedTwice(UNORDERED_MAP, ki, 0x400_0000, 0x30_0000, f))
            && Available(UNORDERED_MAP, ki, 0x400_0000, 0x30_0000, 0x4000)
            && Available(UNORDERED_MAP, ki, 0x400_0000, 0x30_0000, 0x100)
  {
    hide Bump, InUsable, MaxEnd, Effective, Place;
    var a, b := UNORDERED_MAP[0], UNORDERED_MAP[1];
    assert UNORDERED_MAP == [a, b];
    NoImage(UNORDERED_MAP);
    TwoRegions(a, b);
    TwoPlaces(a, b, 0x4100, 0x20_0000);
    TwoNoTrouble(a, b, 0x4100, 0x20_0000);
  }

  const NESTED_MAP: seq<Region> := [Region(0x20_0000, 0x1_b000, true), Region(0x20_0000, 0x100_0000, true)]

  /**
   Regions sorted by their start, the first just large enough for the frame table and inside the
   second: the heap is placed over the frame table, and the overlap is not reported.
   */
  lemma HeapOverTable()
    ensures var ki, bytes := Image(0, 0), 0x1200 * FRAME_INFO_BYTES;
            && Trouble(NESTED_MAP, ki, [], 0, 0x20_0000) == None
            && CeilDiv(MaxEnd(Effective(NESTED_MAP, ki))) == 0x1200
            && Place(Effective(NESTED_MAP, ki), 0x1200, 0x20_0000) == Placed(0x20_0000, 0x20_0000)
            && !SafePlace(0x20_0000, bytes, 0x20_0000, 0x20_0000)
            && forall f: nat :: !ClaimedTwice(NESTED_MAP, ki, 0x20_0000, 0x40_0000, f)
  {
    hide Bump, InUsable, MaxEnd, Effective, Place;
    var a, b := NESTED_MAP[0], NESTED_MAP[1];
    assert NESTED_MAP == [a, b];
    NoImage(NESTED_MAP);
    TwoRegions(a, b);
    TwoPlaces(a, b, 0x1200, 0x20_0000);
    TwoNoTrouble(a, b, 0x1200, 0x20_0000);
  }
}
