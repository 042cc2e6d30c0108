/**
 The bump allocator used before the frame table exists (`BootAllocator` in `kernel/src/boot.rs`).
 */
module BootAlloc {
  import opened Bits
  import opened Frames
  import opened BootRegions

  /** Where the allocator stands: a region and a cursor inside it, 0 for its start. */
  datatype Position = Position(next: nat, cursor: nat)

  function Max(a: nat, b: nat): nat {
    if a < b then b else a
  }

  /** `alloc` from position `at`: the first usable region, in order, with room. */
  function Bump(regions: seq<Region>, at: Position, size: nat, align: nat): (Option<nat>, Position)
    requires 0 < align < WORD
    decreases |regions| - at.next
  {
    if at.next >= |regions| then (None, at)
    else
      var r, skip := regions[at.next], Position(at.next + 1, 0);
      var start := AlignUp(Max(at.cursor, r.start), align);
      if r.usable && start + size <= r.End() then
        (Some(start), if start + size == r.End() then skip else Position(at.next, start + size))
      else Bump(regions, skip, size, align)
  }

  /** Room for an alignment round-up below the top of the address space. */
  predicate GoodRegions(regions: seq<Region>, align: nat) {
    && 0 < align < WORD && IsPow2(align)
    && forall r :: r in regions && r.usable ==> r.End() + align <= WORD
  }

  /** Everything below the frontier `at` lies below `p`, and `size` bytes from `p` lie below the frontier `at'`. */
  ghost predicate Between(regions: seq<Region>, at: Position, p: nat, size: nat, at': Position) {
    && (forall x: nat :: Above(regions, at, x) && at.next < |regions| ==> x <= p)
    && Above(regions, at', p + size)
  }

  /** Everything handed out so far lies below the frontier. */
  predicate Above(regions: seq<Region>, at: Position, x: nat) {
    at.next < |regions| ==> x <= Max(at.cursor, regions[at.next].start)
  }

  predicate PositionOk(regions: seq<Region>, at: Position) {
    at.next < |regions| ==> at.cursor <= regions[at.next].End()
  }

  /** Some aligned range of `size` bytes fits in region `k` past the cursor. */
  ghost predicate HasRoom(regions: seq<Region>, at: Position, k: nat, size: nat, align: nat)
    requires k < |regions| && 0 < align
  {
    var from := From(regions, at, k);
    regions[k].usable && exists q: nat :: q % align == 0 && from <= q && q + size <= regions[k].End()
  }

  /** Where the unused part of region `k` starts. */
  function From(regions: seq<Region>, at: Position, k: nat): nat
    requires k < |regions|
  {
    if k == at.next then Max(at.cursor, regions[k].start) else regions[k].start
  }

  /** Range `p` is the lowest that fits in region `k`, no region before has room, and the allocator stands behind it. */
  ghost predicate FirstFit(regions: seq<Region>, at: Position, k: nat, p: nat, size: nat, align: nat, at': Position)
    requires 0 < align
  {
    && at.next <= k < |regions| && regions[k].usable
    && (forall j: nat :: at.next <= j < k ==> !HasRoom(regions, at, j, size, align))
    && p % align == 0 && From(regions, at, k) <= p && p + size <= regions[k].End()
    && (forall q: nat :: q % align == 0 && From(regions, at, k) <= q ==> p <= q)
    && at' == if p + size == regions[k].End() then Position(k + 1, 0) else Position(k, p + size)
  }

  /** A range inside one usable region. */
  predicate InRegion(regions: seq<Region>, p: nat, size: nat) {
    exists k :: 0 <= k < |regions| && regions[k].usable && regions[k].start <= p && p + size <= regions[k].End()
  }

  /** Some region from the current one on has room. */
  ghost predicate RoomLeft(regions: seq<Region>, at: Position, size: nat, align: nat)
    requires 0 < align
  {
    exists k: nat :: at.next <= k < |regions| && HasRoom(regions, at, k, size, align)
  }

  lemma LeastAligned(from: nat, size: nat, align: nat, end: nat)
    requires IsPow2(align) && 0 < align < WORD && from <= end && end + align <= WORD
    ensures var p := AlignUp(from, align);
            && p % align == 0 && from <= p
            && (p + size <= end <==> exists q: nat :: q % align == 0 && from <= q && q + size <= end)
  {
    hide AlignUp, IsPow2;
    AlignUpExact(from, align);
    var p := AlignUp(from, align);
    forall q: nat | q % align == 0 && from <= q && q + size <= end
      ensures p <= q
    {
      NoMultipleBetween(from, p, q, align);
    }
  }

  /**
   A range handed out is aligned and lies in a usable region; in address order it lies above
   everything handed out before and below everything to come.  `None` is returned exactly when no
   region left has room.
   */
  lemma {:induction false} BumpExact(regions: seq<Region>, at: Position, size: nat, align: nat)
    requires GoodRegions(regions, align) && PositionOk(regions, at)
    ensures var (r, at') := Bump(regions, at, size, align);
            && PositionOk(regions, at') && at.next <= at'.next
            && match r
               case Some(p) =>
                 && p % align == 0
                 && (Ordered(regions) ==> Between(regions, at, p, size, at'))
                 && RoomLeft(regions, at, size, align)
                 && InRegion(regions, p, size)
               case None => at'.next >= |regions| && !RoomLeft(regions, at, size, align)
    decreases |regions| - at.next
  {
    hide IsPow2, AlignUp, HasRoom, RoomLeft;
    RoomStep(regions, at, size, align);
    if at.next < |regions| {
      var r, skip := regions[at.next], Position(at.next + 1, 0);
      var from := Max(at.cursor, r.start);
      assert r in regions;
      if r.usable { LeastAligned(from, size, align, r.End()); }
      if !(r.usable && AlignUp(from, align) + size <= r.End()) {
        BumpExact(regions, skip, size, align);
        var res := Bump(regions, skip, size, align).0;
        if res.Some? && Ordered(regions) {
          forall x: nat | Above(regions, at, x)
            ensures x <= res.value
          {
            if skip.next < |regions| { assert Above(regions, skip, x); }
          }
        }
      }
    }
  }

  /** Room is left in the current region, where the rounded-up cursor leaves enough, or in a later one. */
  lemma RoomStep(regions: seq<Region>, at: Position, size: nat, align: nat)
    requires GoodRegions(regions, align) && PositionOk(regions, at)
    ensures RoomLeft(regions, at, size, align) <==>
              && at.next < |regions|
              && var r := regions[at.next];
                 || (r.usable && AlignUp(Max(at.cursor, r.start), align) + size <= r.End())
                 || RoomLeft(regions, Position(at.next + 1, 0), size, align)
  {
    hide IsPow2, AlignUp;
    if at.next < |regions| {
      var r, skip := regions[at.next], Position(at.next + 1, 0);
      assert r in regions;
      if r.usable { LeastAligned(Max(at.cursor, r.start), size, align, r.End()); }
      assert HasRoom(regions, at, at.next, size, align) <==>
               r.usable && AlignUp(Max(at.cursor, r.start), align) + size <= r.End();
      assert forall k: nat :: skip.next <= k < |regions| ==>
               HasRoom(regions, skip, k, size, align) == HasRoom(regions, at, k, size, align);
    }
  }

  /** A range handed out is the lowest one in the first region with room, and nothing behind it is skipped. */
  lemma {:induction false} BumpFirst(regions: seq<Region>, at: Position, size: nat, align: nat)
    requires GoodRegions(regions, align) && PositionOk(regions, at)
    ensures var (r, at') := Bump(regions, at, size, align);
            r.Some? ==> exists k: nat :: FirstFit(regions, at, k, r.value, size, align, at')
    decreases |regions| - at.next
  {
    hide IsPow2, AlignUp;
    if at.next < |regions| {
      var r, skip := regions[at.next], Position(at.next + 1, 0);
      var from := Max(at.cursor, r.start);
      assert r in regions;
      if r.usable { LeastAligned(from, size, align, r.End()); }
      if r.usable && AlignUp(from, align) + size <= r.End() {
        LowestAligned(from, align, r.End());
        assert FirstFit(regions, at, at.next, AlignUp(from, align), size, align, Bump(regions, at, size, align).1);
      } else {
        BumpFirst(regions, skip, size, align);
        assert !HasRoom(regions, at, at.next, size, align);
        var (p, at') := Bump(regions, skip, size, align);
        if p.Some? {
          var k: nat :| FirstFit(regions, skip, k, p.value, size, align, at');
          FitsLater(regions, at, skip, k, p.value, size, align, at');
        }
      }
    }
  }

  lemma LowestAligned(from: nat, align: nat, end: nat)
    requires IsPow2(align) && 0 < align < WORD && from <= end && end + align <= WORD
    ensures forall q: nat :: q % align == 0 && from <= q ==> AlignUp(from, align) <= q
  {
    hide AlignUp, IsPow2;
    AlignUpExact(from, align);
    forall q: nat | q % align == 0 && from <= q
      ensures AlignUp(from, align) <= q
    {
      NoMultipleBetween(from, AlignUp(from, align), q, align);
    }
  }

  lemma FitsLater(regions: seq<Region>, at: Position, skip: Position, k: nat, p: nat, size: nat, align: nat,
                  at': Position)
    requires 0 < align && skip == Position(at.next + 1, 0) && at.next < |regions|
    requires !HasRoom(regions, at, at.next, size, align) && FirstFit(regions, skip, k, p, size, align, at')
    ensures FirstFit(regions, at, k, p, size, align, at')
  {
    forall j: nat | at.next <= j < k
      ensures !HasRoom(regions, at, j, size, align)
    {
      if j > at.next { assert HasRoom(regions, skip, j, size, align) == HasRoom(regions, at, j, size, align); }
    }
  }

  class BootAllocator {
    const regions: seq<Region>
    var nextRegion: nat
    var cursor: nat

    constructor (regions: seq<Region>)
      ensures this.regions == regions && Position(nextRegion, cursor) == Position(0, 0)
    {
      this.regions, nextRegion, cursor := regions, 0, 0;
    }

    /** `alloc`: skip regions until one has room, then bump the cursor in it. */
    method Alloc(size: nat, align: nat) returns (r: Option<nat>)
      requires 0 < align < WORD
      modifies this
      ensures (r, Position(nextRegion, cursor)) == Bump(regions, old(Position(nextRegion, cursor)), size, align)
    {
      while nextRegion < |regions|
        invariant Bump(regions, Position(nextRegion, cursor), size, align)
               == Bump(regions, old(Position(nextRegion, cursor)), size, align)
      {
        var region := regions[nextRegion];
        if region.usable {
          var start := AlignUp(Max(cursor, region.start), align);
          if start + size <= region.End() {
            cursor := start + size;
            if cursor == region.End() { nextRegion, cursor := nextRegion + 1, 0; }
            return Some(start);
          }
        }
        nextRegion, cursor := nextRegion + 1, 0;
      }
      r := None;
    }
  }

  // ---------- runs ----------

  datatype Request = Request(size: nat, align: nat)

  /** The addresses handed out for a sequence of requests. */
  function Run(regions: seq<Region>, at: Position, reqs: seq<Request>): seq<Option<nat>>
    requires forall q :: q in reqs ==> 0 < q.align < WORD
    decreases |reqs|
  {
    if reqs == [] then []
    else
      var (r, at') := Bump(regions, at, reqs[0].size, reqs[0].align);
      [r] + Run(regions, at', reqs[1..])
  }

  lemma {:induction false} RunAbove(regions: seq<Region>, at: Position, reqs: seq<Request>, x: nat, j: nat)
    requires Ordered(regions) && PositionOk(regions, at) && Above(regions, at, x)
    requires forall q :: q in reqs ==> 0 < q.align < WORD && GoodRegions(regions, q.align)
    requires j < |reqs| && |Run(regions, at, reqs)| == |reqs| && Run(regions, at, reqs)[j].Some?
    ensures x <= Run(regions, at, reqs)[j].value
    decreases j
  {
    var q := reqs[0];
    assert q in reqs && GoodRegions(regions, q.align);
    BumpExact(regions, at, q.size, q.align);
    var (r, at') := Bump(regions, at, q.size, q.align);
    if at.next >= |regions| {
      RunEnd(regions, at, reqs, j);
    } else if j > 0 {
      StillAbove(regions, at, at', x, q.size, q.align);
      RunAbove(regions, at', reqs[1..], x, j - 1);
    }
  }

  lemma {:induction false} RunEnd(regions: seq<Region>, at: Position, reqs: seq<Request>, j: nat)
    requires at.next >= |regions| && j < |reqs| && forall q :: q in reqs ==> 0 < q.align < WORD
    ensures |Run(regions, at, reqs)| == |reqs| && Run(regions, at, reqs)[j].None?
    decreases |reqs|
  {
    if |reqs| > 1 { RunEnd(regions, at, reqs[1..], if j > 0 then j - 1 else 0); }
  }

  lemma {:induction false} RunLength(regions: seq<Region>, at: Position, reqs: seq<Request>)
    requires forall q :: q in reqs ==> 0 < q.align < WORD
    ensures |Run(regions, at, reqs)| == |reqs|
    decreases |reqs|
  {
    if reqs != [] { RunLength(regions, Bump(regions, at, reqs[0].size, reqs[0].align).1, reqs[1..]); }
  }

  /** The frontier only moves up. */
  lemma StillAbove(regions: seq<Region>, at: Position, at': Position, x: nat, size: nat, align: nat)
    requires Ordered(regions) && GoodRegions(regions, align) && PositionOk(regions, at) && Above(regions, at, x)
    requires at' == Bump(regions, at, size, align).1 && at.next < |regions|
    ensures Above(regions, at', x)
  {
    BumpExact(regions, at, size, align);
  }

  /** Over any run of requests, the ranges handed out are strictly increasing and never overlap. */
  lemma {:induction false} RunIncreasing(regions: seq<Region>, at: Position, reqs: seq<Request>, i: nat, j: nat)
    requires Ordered(regions) && PositionOk(regions, at)
    requires forall q :: q in reqs ==> 0 < q.align < WORD && GoodRegions(regions, q.align)
    requires i < j < |reqs|
    ensures |Run(regions, at, reqs)| == |reqs|
    ensures var out := Run(regions, at, reqs);
            out[i].Some? && out[j].Some? ==> out[i].value + reqs[i].size <= out[j].value
    decreases i
  {
    RunLength(regions, at, reqs);
    var q := reqs[0];
    assert q in reqs && GoodRegions(regions, q.align);
    BumpExact(regions, at, q.size, q.align);
    var (r, at') := Bump(regions, at, q.size, q.align);
    RunLength(regions, at', reqs[1..]);
    if i > 0 {
      RunIncreasing(regions, at', reqs[1..], i - 1, j - 1);
    } else if r.Some? && Run(regions, at, reqs)[j].Some? {
      RunAbove(regions, at', reqs[1..], r.value + q.size, j - 1);
    }
  }
}
