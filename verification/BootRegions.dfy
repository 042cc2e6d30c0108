/**
 The boot memory map: `fill_regions` (`boot/src/main.rs`) cleans and sorts the bootloader's entries,
 and `build_effective` (`kernel/src/boot.rs`) cuts the kernel image out of them.
 */
module BootRegions {
  import opened Bits
  import opened Frames

  const MAX_REGIONS: nat := 64
  const MAX_EFFECTIVE_REGIONS: nat := 128
  const MT_USABLE: nat := 1

  datatype Region = Region(start: nat, len: nat, usable: bool)
  {
    function End(): nat { start + len }
  }

  /** One entry as the bootloader reports it. */
  datatype Entry = Entry(start: nat, len: nat, kind: nat)

  function RoundDown(v: nat): nat {
    v / FRAME_SIZE * FRAME_SIZE
  }

  function RoundUp(v: nat): nat {
    (v + FRAME_SIZE - 1) / FRAME_SIZE * FRAME_SIZE
  }

  /** The mask that the kernel writes, `v & !(FRAME_SIZE - 1)`, rounds down. */
  lemma MaskRoundsDown(v: nat)
    requires v < WORD
    ensures And(v, WORD - FRAME_SIZE) == RoundDown(v)
  {
    assert Pow2(12) == FRAME_SIZE;
    MaskAt12();
    AndMask(v, 12, 52);
    Pow2Value(64);
    ShrSmall(v, 12, 52);
    LowSmall(Shr(v, 12), 52);
    ShrIsDiv(v, 12);
    ShlMul(Shr(v, 12), 12);
  }

  lemma MaskAt12()
    ensures Mask(12, 52) == WORD - FRAME_SIZE
  {
    MaskTop(12, 64);
    Pow2Value(64);
    assert Pow2(12) == FRAME_SIZE;
  }

  // ---------- fill_regions ----------

  /** The kernel's round-up of a 64-bit value: the addition wraps. */
  function RoundUpWord(v: nat): nat {
    RoundDown((v + FRAME_SIZE - 1) % WORD)
  }

  /** `checked_add(len).unwrap_or(start)` */
  function CheckedEnd(e: Entry): nat {
    if e.start + e.len < WORD then e.start + e.len else e.start
  }

  predicate IsKept(e: Entry) {
    e.kind == MT_USABLE ==> RoundUpWord(e.start) < RoundDown(CheckedEnd(e))
  }

  /** Usable entries shrink to whole frames; others pass unchanged. */
  function Shrunk(e: Entry): Region
    requires IsKept(e)
  {
    if e.kind == MT_USABLE then
      Region(RoundUpWord(e.start), RoundDown(CheckedEnd(e)) - RoundUpWord(e.start), true)
    else Region(e.start, e.len, false)
  }

  function Kept(entries: seq<Entry>): (r: seq<Region>)
    ensures |r| <= |entries|
  {
    if entries == [] then []
    else
      var n := |entries| - 1;
      Kept(entries[..n]) + (if IsKept(entries[n]) then [Shrunk(entries[n])] else [])
  }

  /** The entries that make region `r`. */
  ghost function Sources(entries: seq<Entry>, r: Region): set<nat> {
    set i: nat | i < |entries| && IsKept(entries[i]) && Shrunk(entries[i]) == r
  }

  /** Each region is there as often as entries make it, and each entry makes at most one. */
  lemma {:induction false} KeptExact(entries: seq<Entry>, r: Region)
    ensures multiset(Kept(entries))[r] == |Sources(entries, r)|
  {
    hide IsKept, Shrunk;
    if entries == [] {
      assert Sources(entries, r) == {};
    } else {
      var n := |entries| - 1;
      KeptExact(entries[..n], r);
      SourcesStep(entries, r);
      if IsKept(entries[n]) {
        Occurrences(Kept(entries[..n]), [Shrunk(entries[n])], r);
        OneOccurrence(Shrunk(entries[n]), r);
      }
    }
  }

  lemma SourcesStep(entries: seq<Entry>, r: Region)
    requires entries != []
    ensures var n := |entries| - 1;
            |Sources(entries, r)| ==
            |Sources(entries[..n], r)| + if IsKept(entries[n]) && Shrunk(entries[n]) == r then 1 else 0
  {
    hide IsKept, Shrunk;
    var n := |entries| - 1;
    var last := if IsKept(entries[n]) && Shrunk(entries[n]) == r then {n} else {};
    assert Sources(entries, r) == Sources(entries[..n], r) + last;
  }

  /** An entry that is not usable makes a region with its own bounds, and a usable one makes a usable region. */
  lemma ReservedKept(e: Entry)
    ensures e.kind != MT_USABLE ==> IsKept(e) && Shrunk(e) == Region(e.start, e.len, false)
    ensures e.kind == MT_USABLE && IsKept(e) ==> Shrunk(e).usable
  {
  }

  /** Frame `f` lies wholly in the range from `start` to `end`. */
  predicate FrameInside(start: nat, end: nat, f: nat) {
    start <= f * FRAME_SIZE && (f + 1) * FRAME_SIZE <= end
  }

  /** The region made of the entry holds frame `f` exactly when the reported range holds it whole. */
  ghost predicate FrameExact(e: Entry, f: nat) {
    FrameInside(e.start, e.start + e.len, f) <==> IsKept(e) && FrameInside(Shrunk(e).start, Shrunk(e).End(), f)
  }

  ghost predicate WholeFrames(e: Entry) {
    forall f: nat :: FrameExact(e, f)
  }

  /**
   Shrinking a 64-bit usable entry is exact if and only if the entry neither starts inside the last
   frame of the address space nor reaches its end.  One that starts inside the last frame rounds up
   to 0 and claims all of memory; any other that reaches the end is dropped whole.
   */
  lemma ShrunkExact(e: Entry)
    requires e.kind == MT_USABLE && e.start < WORD && e.len < WORD
    ensures WholeFrames(e) <==> e.start + FRAME_SIZE <= WORD && e.start + e.len < WORD
    ensures e.start + FRAME_SIZE > WORD ==> IsKept(e) && Shrunk(e) == Region(0, WORD - FRAME_SIZE, true)
    ensures e.start + FRAME_SIZE <= WORD <= e.start + e.len ==> !IsKept(e)
  {
    hide FrameExact;
    if e.start + FRAME_SIZE > WORD {
      LastFrameEntry(e);
    } else if e.start + e.len >= WORD {
      EndlessEntry(e);
    } else {
      forall f: nat
        ensures FrameExact(e, f)
      {
        ShrunkFrame(e, f);
      }
    }
  }

  lemma LastFrameEntry(e: Entry)
    requires e.kind == MT_USABLE && e.start < WORD && e.len < WORD && e.start + FRAME_SIZE > WORD
    ensures IsKept(e) && Shrunk(e) == Region(0, WORD - FRAME_SIZE, true) && !WholeFrames(e)
  {
    hide RoundUpWord, RoundDown;
    LastFrame(e.start);
    LastFrame(CheckedEnd(e));
    assert !FrameExact(e, 0);
  }

  lemma EndlessEntry(e: Entry)
    requires e.kind == MT_USABLE && e.start + FRAME_SIZE <= WORD <= e.start + e.len
    ensures !IsKept(e) && !WholeFrames(e)
  {
    RoundedApart(e.start);
    assert !FrameExact(e, WORD / FRAME_SIZE - 1);
  }

  lemma RoundedApart(v: nat)
    requires v + FRAME_SIZE <= WORD
    ensures RoundDown(v) <= RoundUpWord(v)
  {
    assert (v + FRAME_SIZE - 1) % WORD == v + FRAME_SIZE - 1;
    assert v / FRAME_SIZE <= (v + FRAME_SIZE - 1) / FRAME_SIZE;
  }

  /** All memory above 1 MiB, reported as one entry, is lost. */
  lemma AllMemoryDropped()
    ensures var e := Entry(0x10_0000, WORD - 0x10_0000, MT_USABLE);
            Kept([e]) == [] && FrameInside(e.start, e.start + e.len, 0x100)
  {
    var e := Entry(0x10_0000, WORD - 0x10_0000, MT_USABLE);
    EndlessEntry(e);
    assert [e][..0] == [];
  }

  /** A usable byte in the last frame makes a region of all memory below that frame. */
  lemma LastByteClaimsAll()
    ensures Kept([Entry(WORD - 1, 1, MT_USABLE)]) == [Region(0, WORD - FRAME_SIZE, true)]
  {
    var e := Entry(WORD - 1, 1, MT_USABLE);
    LastFrameEntry(e);
    assert [e][..0] == [];
  }

  lemma ShrunkAligned(e: Entry)
    requires e.kind == MT_USABLE && IsKept(e)
    ensures Shrunk(e).start % FRAME_SIZE == 0 && Shrunk(e).len % FRAME_SIZE == 0
  {
    var a, b := (e.start + FRAME_SIZE - 1) % WORD / FRAME_SIZE, CheckedEnd(e) / FRAME_SIZE;
    DivUnique(a * FRAME_SIZE, FRAME_SIZE, a, 0);
    DivUnique((b - a) * FRAME_SIZE, FRAME_SIZE, b - a, 0);
  }

  lemma ShrunkFrame(e: Entry, f: nat)
    requires e.kind == MT_USABLE && e.start + e.len < WORD && e.start + FRAME_SIZE <= WORD
    ensures FrameExact(e, f)
  {
    hide RoundUpWord, RoundDown, CheckedEnd;
    ShrunkEnds(e);
    FrameBounds(e.start, f);
    FrameBounds(e.start + e.len, f + 1);
  }

  lemma ShrunkEnds(e: Entry)
    requires e.start + e.len < WORD && e.start + FRAME_SIZE <= WORD
    ensures RoundUpWord(e.start) == (e.start + FRAME_SIZE - 1) / FRAME_SIZE * FRAME_SIZE
    ensures RoundDown(CheckedEnd(e)) == (e.start + e.len) / FRAME_SIZE * FRAME_SIZE
  {
  }

  lemma FrameBounds(v: nat, f: nat)
    ensures v <= f * FRAME_SIZE <==> (v + FRAME_SIZE - 1) / FRAME_SIZE <= f
    ensures f * FRAME_SIZE <= v <==> f <= v / FRAME_SIZE
  {
  }

  lemma LastFrame(v: nat)
    requires WORD - FRAME_SIZE < v < WORD
    ensures RoundUpWord(v) == 0 && RoundDown(v) == WORD - FRAME_SIZE
  {
    var q := (WORD - FRAME_SIZE) / FRAME_SIZE;
    DivUnique(v, FRAME_SIZE, q, v - (WORD - FRAME_SIZE));
    assert (v + FRAME_SIZE - 1) % WORD == v + FRAME_SIZE - 1 - WORD;
  }

  predicate SortedByStart(r: seq<Region>) {
    forall i, j :: 0 <= i < j < |r| ==> r[i].start <= r[j].start
  }

  /** Insert by shifting larger elements up, as the inner loop does. */
  function Insert(sorted: seq<Region>, key: Region): (r: seq<Region>)
    ensures |r| == |sorted| + 1
  {
    var n := |sorted| - 1;
    if sorted != [] && sorted[n].start > key.start then Insert(sorted[..n], key) + [sorted[n]]
    else sorted + [key]
  }

  lemma {:induction false} InsertSorts(sorted: seq<Region>, key: Region)
    requires SortedByStart(sorted)
    ensures SortedByStart(Insert(sorted, key))
  {
    var n := |sorted| - 1;
    if sorted != [] && sorted[n].start > key.start {
      InsertSorts(sorted[..n], key);
      InsertBounded(sorted[..n], key, sorted[n].start);
    }
  }

  lemma {:induction false} InsertPermutes(sorted: seq<Region>, key: Region)
    ensures multiset(Insert(sorted, key)) == multiset(sorted) + multiset{key}
  {
    var n := |sorted| - 1;
    if sorted != [] && sorted[n].start > key.start {
      InsertPermutes(sorted[..n], key);
      assert sorted == sorted[..n] + [sorted[n]];
    }
  }

  lemma {:induction false} InsertBounded(sorted: seq<Region>, key: Region, top: nat)
    requires key.start <= top && forall i :: 0 <= i < |sorted| ==> sorted[i].start <= top
    ensures forall i :: 0 <= i < |Insert(sorted, key)| ==> Insert(sorted, key)[i].start <= top
  {
    var n := |sorted| - 1;
    if sorted != [] && sorted[n].start > key.start { InsertBounded(sorted[..n], key, top); }
  }

  /** The insertion sort as a fold. */
  function Sorted(r: seq<Region>): (s: seq<Region>)
    ensures |s| == |r|
  {
    if r == [] then [] else Insert(Sorted(r[..|r| - 1]), r[|r| - 1])
  }

  lemma {:induction false} SortedIsSort(r: seq<Region>)
    ensures SortedByStart(Sorted(r)) && multiset(Sorted(r)) == multiset(r)
  {
    if r != [] {
      var n := |r| - 1;
      SortedIsSort(r[..n]);
      InsertSorts(Sorted(r[..n]), r[n]);
      InsertPermutes(Sorted(r[..n]), r[n]);
      assert r == r[..n] + [r[n]];
    }
  }

  /** `fill_regions`: the kept entries, whole frames only, sorted by start. */
  method FillRegions(out: array<Region>, raw: seq<Entry>) returns (count: nat)
    requires out.Length == MAX_REGIONS && |raw| <= MAX_REGIONS
    modifies out
    ensures count == |Kept(raw)|
    ensures SortedByStart(out[..count]) && multiset(out[..count]) == multiset(Kept(raw))
    ensures out[..count] == Sorted(Kept(raw))
    ensures GoodEntries(raw) ==> Ordered(out[..count]) && FrameAligned(out[..count])
  {
    hide GoodEntries, Ordered, FrameAligned;
    count := 0;
    for k := 0 to |raw|
      invariant count == |Kept(raw[..k])| <= k && out[..count] == Kept(raw[..k])
    {
      assert raw[..k + 1][..k] == raw[..k] && raw[..k + 1][k] == raw[k];
      var e := raw[k];
      var usable := e.kind == MT_USABLE;
      var start, len := e.start, e.len;
      if usable {
        start := RoundUpWord(start);
        var end := RoundDown(CheckedEnd(e));
        if end <= start { continue; }
        len := end - start;
      }
      out[count] := Region(start, len, usable);
      count := count + 1;
    }
    assert raw[..|raw|] == raw;
    SortPrefix(out, count);
    SortedIsSort(Kept(raw));
    if GoodEntries(raw) { FilledOrdered(raw); }
  }

  /** The insertion sort, in place on the first `count` elements. */
  method SortPrefix(out: array<Region>, count: nat)
    requires count <= out.Length
    modifies out
    ensures out[..count] == Sorted(old(out[..count]))
    ensures forall k :: count <= k < out.Length ==> out[k] == old(out[k])
  {
    hide Insert, Sorted;
    if count == 0 { SortedSmall(out[..0]); return; }
    ghost var was := out[..count];
    SortedSmall(was[..1]);
    for i := 1 to count
      invariant out[..i] == Sorted(was[..i])
      invariant forall k :: i <= k < out.Length ==> out[k] == old(out[k])
    {
      SortedStep(was, i);
      InsertKey(out, i);
    }
    assert was[..count] == was;
  }

  lemma SortedSmall(regions: seq<Region>)
    requires |regions| <= 1
    ensures Sorted(regions) == regions
  {
    if |regions| == 1 { assert regions[..0] == []; }
  }

  lemma SortedStep(regions: seq<Region>, i: nat)
    requires i < |regions|
    ensures Sorted(regions[..i + 1]) == Insert(Sorted(regions[..i]), regions[i])
  {
    assert regions[..i + 1][..i] == regions[..i];
  }

  /** One pass of the outer loop: element `i` goes down to its place among the sorted ones before it. */
  method InsertKey(out: array<Region>, i: nat)
    requires i < out.Length
    modifies out
    ensures out[..i + 1] == Insert(old(out[..i]), old(out[i]))
    ensures forall k :: i < k < out.Length ==> out[k] == old(out[k])
  {
    var key, j := out[i], i;
    ghost var sorted := out[..i];
    while j > 0 && out[j - 1].start > key.start
      invariant 0 <= j <= i
      invariant forall k :: 0 <= k < j ==> out[k] == sorted[k]
      invariant forall k :: j < k <= i ==> out[k] == sorted[k - 1]
      invariant forall k :: i < k < out.Length ==> out[k] == old(out[k])
      invariant forall k :: j <= k < i ==> sorted[k].start > key.start
    {
      out[j] := out[j - 1];
      j := j - 1;
    }
    out[j] := key;
    InsertAt(sorted, key, j);
    assert out[..i + 1] == sorted[..j] + [key] + sorted[j..];
  }

  /** Where `Insert` puts the key. */
  lemma {:induction false} InsertAt(sorted: seq<Region>, key: Region, j: nat)
    requires j <= |sorted| && (j == 0 || sorted[j - 1].start <= key.start)
    requires forall k :: j <= k < |sorted| ==> sorted[k].start > key.start
    ensures Insert(sorted, key) == sorted[..j] + [key] + sorted[j..]
  {
    var n := |sorted| - 1;
    if j < |sorted| {
      InsertAt(sorted[..n], key, j);
      assert sorted[..n][..j] == sorted[..j] && sorted[j..] == sorted[..n][j..] + [sorted[n]];
    } else {
      assert sorted[..j] == sorted && sorted[j..] == [];
    }
  }

  // ---------- build_effective ----------

  /** The frame-rounded kernel image; empty when there is none. */
  datatype Image = Image(start: nat, end: nat)

  function ImageOf(start: nat, len: nat): Image {
    if len == 0 then Image(0, 0) else Image(RoundDown(start), RoundUp(start + len))
  }

  /** The image's bounds are multiples of the frame size, and the nearest that enclose it. */
  lemma ImageExact(start: nat, len: nat)
    requires len > 0
    ensures var ki := ImageOf(start, len);
            && ki.start % FRAME_SIZE == 0 && ki.end % FRAME_SIZE == 0
            && ki.start <= start < ki.start + FRAME_SIZE
            && start + len <= ki.end < start + len + FRAME_SIZE
  {
    var a, b := start / FRAME_SIZE, (start + len + FRAME_SIZE - 1) / FRAME_SIZE;
    DivUnique(a * FRAME_SIZE, FRAME_SIZE, a, 0);
    DivUnique(b * FRAME_SIZE, FRAME_SIZE, b, 0);
  }

  predicate Overlaps(r: Region, ki: Image) {
    ki.start < ki.end && ki.start < r.End() && r.start < ki.end
  }

  /** What becomes of one region. */
  function Pieces(r: Region, ki: Image): (p: seq<Region>)
    ensures |p| <= 2
  {
    if !r.usable || !Overlaps(r, ki) then [r]
    else
      (if r.start < ki.start then [Region(r.start, ki.start - r.start, true)] else [])
      + (if ki.end < r.End() then [Region(ki.end, r.End() - ki.end, true)] else [])
  }

  function Effective(regions: seq<Region>, ki: Image): seq<Region> {
    if regions == [] then []
    else Effective(regions[..|regions| - 1], ki) + Pieces(regions[|regions| - 1], ki)
  }

  predicate Holds(r: Region, x: nat) {
    r.usable && r.start <= x < r.End()
  }

  /** Address `x` lies in a usable region. */
  ghost predicate InUsable(regions: seq<Region>, x: nat) {
    exists r :: r in regions && Holds(r, x)
  }

  lemma InUsableConcat(a: seq<Region>, b: seq<Region>, x: nat)
    ensures InUsable(a + b, x) <==> InUsable(a, x) || InUsable(b, x)
  {
    assert forall r :: r in a + b <==> r in a || r in b;
  }

  lemma PiecesCover(r: Region, ki: Image, x: nat)
    ensures InUsable(Pieces(r, ki), x) <==> Holds(r, x) && !(ki.start <= x < ki.end)
  {
    if r.usable && Overlaps(r, ki) {
      var lo := if r.start < ki.start then [Region(r.start, ki.start - r.start, true)] else [];
      var hi := if ki.end < r.End() then [Region(ki.end, r.End() - ki.end, true)] else [];
      InUsableConcat(lo, hi, x);
      if r.start < ki.start { OneRegion(lo[0], x); }
      if ki.end < r.End() { OneRegion(hi[0], x); }
    } else {
      OneRegion(r, x);
    }
  }

  lemma OneRegion(r: Region, x: nat)
    ensures InUsable([r], x) <==> Holds(r, x)
  {
    assert r in [r];
  }

  /** The effective list holds exactly the usable bytes outside the frame-rounded kernel image. */
  lemma {:induction false} EffectiveExact(regions: seq<Region>, ki: Image, x: nat)
    ensures InUsable(Effective(regions, ki), x) <==> InUsable(regions, x) && !(ki.start <= x < ki.end)
  {
    if regions != [] {
      var n := |regions| - 1;
      EffectiveExact(regions[..n], ki, x);
      PiecesCover(regions[n], ki, x);
      InUsableConcat(Effective(regions[..n], ki), Pieces(regions[n], ki), x);
      assert regions == regions[..n] + [regions[n]];
      InUsableConcat(regions[..n], [regions[n]], x);
      OneRegion(regions[n], x);
    }
  }

  /** Regions that are not usable pass unchanged. */
  lemma {:induction false} ReservedPass(regions: seq<Region>, ki: Image, r: Region)
    requires !r.usable
    ensures multiset(Effective(regions, ki))[r] == multiset(regions)[r]
  {
    hide Pieces;
    if regions != [] {
      var n := |regions| - 1;
      ReservedPass(regions[..n], ki, r);
      assert regions == regions[..n] + [regions[n]];
      ReservedPiece(regions[n], ki, r);
      Occurrences(regions[..n], [regions[n]], r);
      Occurrences(Effective(regions[..n], ki), Pieces(regions[n], ki), r);
      OneOccurrence(regions[n], r);
    }
  }

  lemma Occurrences(a: seq<Region>, b: seq<Region>, r: Region)
    ensures multiset(a + b)[r] == multiset(a)[r] + multiset(b)[r]
  {
  }

  lemma OneOccurrence(p: Region, r: Region)
    ensures multiset([p])[r] == if p == r then 1 else 0
  {
  }

  lemma ReservedPiece(p: Region, ki: Image, r: Region)
    requires !r.usable
    ensures multiset(Pieces(p, ki))[r] == if p == r then 1 else 0
  {
    if p.usable { assert forall x :: x in Pieces(p, ki) ==> x.usable; }
  }

  /** Address order without overlap. */
  predicate Ordered(regions: seq<Region>) {
    forall i, j :: 0 <= i < j < |regions| ==> regions[i].End() <= regions[j].start
  }

  predicate FrameAligned(regions: seq<Region>) {
    forall r :: r in regions && r.usable ==> r.start % FRAME_SIZE == 0 && r.len % FRAME_SIZE == 0
  }

  // ---------- from the bootloader's map to an ordered one ----------

  /** A nonempty entry, not starting inside the last frame if usable. */
  predicate GoodEntry(e: Entry) {
    e.len > 0 && (e.kind == MT_USABLE ==> e.start + FRAME_SIZE <= WORD)
  }

  predicate AllEntriesApart(raw: seq<Entry>, e: Entry) {
    forall i :: 0 <= i < |raw| ==> EntriesApart(raw[i], e)
  }

  /** Good entries that do not overlap. */
  ghost predicate GoodEntries(raw: seq<Entry>) {
    && (forall i :: 0 <= i < |raw| ==> GoodEntry(raw[i]))
    && (forall i :: 0 <= i < |raw| ==> AllEntriesApart(raw[..i], raw[i]))
  }

  predicate EntriesApart(a: Entry, b: Entry) {
    a.start + a.len <= b.start || b.start + b.len <= a.start
  }

  predicate RegionsApart(a: Region, b: Region) {
    a.End() <= b.start || b.End() <= a.start
  }

  predicate AllApart(regions: seq<Region>, x: Region) {
    forall i :: 0 <= i < |regions| ==> RegionsApart(regions[i], x)
  }

  /** Nonempty regions, each apart from the ones before it. */
  predicate Scattered(regions: seq<Region>) {
    && (forall i :: 0 <= i < |regions| ==> regions[i].len > 0)
    && (forall i :: 0 <= i < |regions| ==> AllApart(regions[..i], regions[i]))
  }

  lemma ShrunkInside(e: Entry)
    requires IsKept(e) && GoodEntry(e)
    ensures e.start <= Shrunk(e).start && Shrunk(e).End() <= e.start + e.len && Shrunk(e).len > 0
    ensures Shrunk(e).usable ==> Shrunk(e).start % FRAME_SIZE == 0 && Shrunk(e).len % FRAME_SIZE == 0
  {
    if e.kind == MT_USABLE { ShrunkAligned(e); }
  }

  lemma {:induction false} KeptApart(raw: seq<Entry>, e: Entry)
    requires GoodEntries(raw) && AllEntriesApart(raw, e) && IsKept(e) && GoodEntry(e)
    ensures AllApart(Kept(raw), Shrunk(e))
  {
    hide IsKept, Shrunk;
    if raw != [] {
      var n := |raw| - 1;
      GoodPrefix(raw);
      assert AllEntriesApart(raw[..n], e) && EntriesApart(raw[n], e);
      KeptApart(raw[..n], e);
      ShrunkInside(e);
      if IsKept(raw[n]) { ShrunkInside(raw[n]); }
    }
  }

  lemma GoodPrefix(raw: seq<Entry>)
    requires GoodEntries(raw) && raw != []
    ensures var n := |raw| - 1;
            GoodEntries(raw[..n]) && AllEntriesApart(raw[..n], raw[n]) && GoodEntry(raw[n])
  {
    var less := raw[..|raw| - 1];
    assert forall i :: 0 <= i < |less| ==> less[..i] == raw[..i];
  }

  lemma NoneScattered()
    ensures Scattered([])
  {
  }

  lemma {:induction false} KeptScattered(raw: seq<Entry>)
    requires GoodEntries(raw)
    ensures Scattered(Kept(raw)) && FrameAligned(Kept(raw))
  {
    hide IsKept, Shrunk, GoodEntries, Scattered, AllApart;
    if raw == [] {
      NoneScattered();
    } else {
      var n := |raw| - 1;
      GoodPrefix(raw);
      KeptScattered(raw[..n]);
      if IsKept(raw[n]) {
        KeptApart(raw[..n], raw[n]);
        ShrunkInside(raw[n]);
        ScatteredSnoc(Kept(raw[..n]), Shrunk(raw[n]));
      } else {
        assert Kept(raw) == Kept(raw[..n]);
      }
    }
  }

  lemma {:induction false} InsertApart(sorted: seq<Region>, key: Region, x: Region)
    requires AllApart(sorted, x) && RegionsApart(key, x)
    ensures AllApart(Insert(sorted, key), x)
  {
    var n := |sorted| - 1;
    if sorted != [] && sorted[n].start > key.start { InsertApart(sorted[..n], key, x); }
  }

  lemma {:induction false} InsertScattered(sorted: seq<Region>, key: Region)
    requires Scattered(sorted) && AllApart(sorted, key) && key.len > 0
    ensures Scattered(Insert(sorted, key))
  {
    var n := |sorted| - 1;
    if sorted != [] && sorted[n].start > key.start {
      var less := sorted[..n];
      assert forall i :: 0 <= i < n ==> less[..i] == sorted[..i];
      InsertScattered(less, key);
      InsertApart(less, key, sorted[n]);
      ScatteredSnoc(Insert(less, key), sorted[n]);
    } else {
      ScatteredSnoc(sorted, key);
    }
  }

  lemma ScatteredSnoc(regions: seq<Region>, x: Region)
    requires Scattered(regions) && AllApart(regions, x) && x.len > 0
    ensures Scattered(regions + [x])
  {
    var all := regions + [x];
    assert forall i :: 0 <= i < |all| ==> all[..i] == regions[..i];
    assert regions[..|regions|] == regions;
  }

  lemma {:induction false} SortedScattered(regions: seq<Region>)
    requires Scattered(regions)
    ensures Scattered(Sorted(regions))
    ensures forall x :: AllApart(regions, x) ==> AllApart(Sorted(regions), x)
  {
    if regions != [] {
      var n := |regions| - 1;
      var less := regions[..n];
      assert forall i :: 0 <= i < n ==> less[..i] == regions[..i];
      SortedScattered(less);
      assert AllApart(less, regions[n]);
      InsertScattered(Sorted(less), regions[n]);
      forall x | AllApart(regions, x)
        ensures AllApart(Sorted(regions), x)
      {
        assert AllApart(less, x) && RegionsApart(regions[n], x);
        InsertApart(Sorted(less), regions[n], x);
      }
    }
  }

  /** A bootloader map without overlaps becomes an ordered, frame-aligned one, as `pmm_init` needs it. */
  lemma FilledOrdered(raw: seq<Entry>)
    requires GoodEntries(raw)
    ensures Ordered(Sorted(Kept(raw))) && FrameAligned(Sorted(Kept(raw)))
  {
    var kept := Kept(raw);
    var out := Sorted(kept);
    KeptScattered(raw);
    SortedScattered(kept);
    SortedIsSort(kept);
    forall i, j | 0 <= i < j < |out|
      ensures out[i].End() <= out[j].start
    {
      assert AllApart(out[..j], out[j]) && RegionsApart(out[..j][i], out[j]);
    }
    forall r | r in out
      ensures r in kept
    {
      assert r in multiset(out) && r in multiset(kept);
    }
  }

  /** Every piece lies inside its region. */
  lemma PiecesInside(r: Region, ki: Image, p: Region)
    requires p in Pieces(r, ki)
    ensures r.start <= p.start && p.End() <= r.End()
    ensures && r.start % FRAME_SIZE == 0 && r.len % FRAME_SIZE == 0
            && ki.start % FRAME_SIZE == 0 && ki.end % FRAME_SIZE == 0
            ==> p.start % FRAME_SIZE == 0 && p.len % FRAME_SIZE == 0
  {
    if && r.start % FRAME_SIZE == 0 && r.len % FRAME_SIZE == 0
       && ki.start % FRAME_SIZE == 0 && ki.end % FRAME_SIZE == 0 {
      WholeSum(r.start, r.len);
      WholeDistance(r.start, ki.start);
      WholeDistance(ki.end, r.End());
    }
  }

  lemma WholeSum(a: nat, b: nat)
    requires a % FRAME_SIZE == 0 && b % FRAME_SIZE == 0
    ensures (a + b) % FRAME_SIZE == 0
  {
    DivUnique(a + b, FRAME_SIZE, a / FRAME_SIZE + b / FRAME_SIZE, 0);
  }

  lemma WholeDistance(a: nat, b: nat)
    requires a % FRAME_SIZE == 0 && b % FRAME_SIZE == 0
    ensures a <= b ==> (b - a) % FRAME_SIZE == 0
  {
    if a <= b {
      var p, q := a / FRAME_SIZE, b / FRAME_SIZE;
      DivUnique((q - p) * FRAME_SIZE, FRAME_SIZE, q - p, 0);
    }
  }

  lemma {:induction false} EffectiveInside(regions: seq<Region>, ki: Image, p: Region)
    requires p in Effective(regions, ki)
    ensures exists r :: r in regions && p in Pieces(r, ki)
  {
    var n := |regions| - 1;
    if p in Effective(regions[..n], ki) {
      EffectiveInside(regions[..n], ki, p);
      var r :| r in regions[..n] && p in Pieces(r, ki);
      assert r in regions;
    } else {
      assert regions[n] in regions;
    }
  }

  /** Cutting the image out keeps the regions in address order, and adds at most one region. */
  lemma {:induction false} EffectiveOrdered(regions: seq<Region>, ki: Image)
    requires Ordered(regions)
    ensures Ordered(Effective(regions, ki))
    ensures |Effective(regions, ki)| <= |regions| + 1
    ensures |Effective(regions, ki)| > |regions| ==> exists r :: r in regions && r.start < ki.start && ki.end < r.End()
  {
    if regions != [] {
      var n := |regions| - 1;
      var a, p := Effective(regions[..n], ki), Pieces(regions[n], ki);
      EffectiveOrdered(regions[..n], ki);
      forall i, j | 0 <= i < |a| && 0 <= j < |p|
        ensures a[i].End() <= p[j].start
      {
        EffectiveInside(regions[..n], ki, a[i]);
        var r :| r in regions[..n] && a[i] in Pieces(r, ki);
        PiecesInside(r, ki, a[i]);
        PiecesInside(regions[n], ki, p[j]);
      }
      assert Ordered(p);
      OrderedConcat(a, p);
      if |p| == 2 {
        assert regions[n] in regions;
      } else if |a| > n {
        var r :| r in regions[..n] && r.start < ki.start && ki.end < r.End();
        assert r in regions;
      }
    }
  }

  lemma OrderedConcat(a: seq<Region>, b: seq<Region>)
    requires Ordered(a) && Ordered(b) && forall i, j :: 0 <= i < |a| && 0 <= j < |b| ==> a[i].End() <= b[j].start
    ensures Ordered(a + b)
  {
  }

  datatype BuildResult = Built(n: nat) | TooMany | OutOfBounds

  /** Region `k` is cut in two when just one slot is left, so the second piece is written past the array. */
  predicate Bursts(regions: seq<Region>, ki: Image, k: nat) {
    && k < |regions|
    && |Effective(regions[..k], ki)| == MAX_EFFECTIVE_REGIONS - 1 && |Pieces(regions[k], ki)| == 2
  }

  lemma EffectiveSnoc(regions: seq<Region>, ki: Image, j: nat)
    requires j < |regions|
    ensures Effective(regions[..j + 1], ki) == Effective(regions[..j], ki) + Pieces(regions[j], ki)
  {
    hide Pieces;
    assert regions[..j + 1][..j] == regions[..j];
  }

  /** The one region that can burst the array is where the list reaches its capacity. */
  lemma BurstsOnlyThere(regions: seq<Region>, ki: Image, k: nat, j: nat)
    requires k <= |regions| && Bursts(regions, ki, j)
    ensures if |Effective(regions[..k], ki)| < MAX_EFFECTIVE_REGIONS then k <= j else j < k
  {
    hide Effective, Pieces;
    EffectiveSnoc(regions, ki, j);
    if j < k {
      EffectiveGrows(regions[..k], ki, j + 1);
      assert regions[..k][..j + 1] == regions[..j + 1];
    } else {
      EffectiveGrows(regions[..j], ki, k);
      assert regions[..j][..k] == regions[..k];
    }
  }

  /**
   `build_effective`: the capacity is checked after each region's pieces are written.  The call
   succeeds exactly when fewer than 128 regions result; it indexes past the array exactly when a
   region is cut in two with one slot left; every other map is refused.
   */
  method BuildEffective(regions: seq<Region>, ki: Image, out: array<Region>) returns (r: BuildResult)
    requires out.Length == MAX_EFFECTIVE_REGIONS
    modifies out
    ensures r.Built? <==> |Effective(regions, ki)| < MAX_EFFECTIVE_REGIONS
    ensures r.OutOfBounds? <==> exists k :: Bursts(regions, ki, k)
    ensures r.Built? ==> r.n == |Effective(regions, ki)| && out[..r.n] == Effective(regions, ki)
    ensures |regions| <= 126 && Ordered(regions) ==> r.Built?
  {
    hide Pieces;
    var n: nat := 0;
    if Ordered(regions) { EffectiveOrdered(regions, ki); }
    for k := 0 to |regions|
      invariant n < MAX_EFFECTIVE_REGIONS && out[..n] == Effective(regions[..k], ki)
    {
      assert regions[..k + 1][..k] == regions[..k] && regions[..k + 1][k] == regions[k];
      EffectiveGrows(regions, ki, k + 1);
      var ok;
      n, ok := AddPieces(regions[k], ki, out, n);
      if !ok {
        assert Bursts(regions, ki, k);
        return OutOfBounds;
      }
      if n >= MAX_EFFECTIVE_REGIONS {
        NoBurst(regions, ki, k);
        return TooMany;
      }
    }
    assert regions[..|regions|] == regions;
    forall j | Bursts(regions, ki, j)
      ensures false
    {
      BurstsOnlyThere(regions, ki, |regions|, j);
    }
    r := Built(n);
  }

  lemma BurstSize(regions: seq<Region>, ki: Image, k: nat)
    requires Bursts(regions, ki, k)
    ensures |Effective(regions[..k + 1], ki)| > MAX_EFFECTIVE_REGIONS
  {
    EffectiveSnoc(regions, ki, k);
  }

  lemma NoBurst(regions: seq<Region>, ki: Image, k: nat)
    requires k < |regions| && |Effective(regions[..k], ki)| < MAX_EFFECTIVE_REGIONS
    requires |Effective(regions[..k + 1], ki)| == MAX_EFFECTIVE_REGIONS
    ensures forall j :: !Bursts(regions, ki, j)
  {
    hide Effective, Pieces, Bursts;
    forall j | Bursts(regions, ki, j)
      ensures false
    {
      BurstsOnlyThere(regions, ki, k, j);
      BurstsOnlyThere(regions, ki, k + 1, j);
      BurstSize(regions, ki, k);
    }
  }

  /** Regions clear of the image pass unchanged. */
  lemma {:induction false} EffectiveClear(regions: seq<Region>, ki: Image)
    requires forall r :: r in regions ==> !r.usable || !Overlaps(r, ki)
    ensures Effective(regions, ki) == regions
  {
    if regions != [] {
      var n := |regions| - 1;
      EffectiveClear(regions[..n], ki);
      assert regions == regions[..n] + [regions[n]];
    }
  }

  /** 127 reserved frames and a usable region around a one-frame image: an ordered map that bursts. */
  lemma BurstingMap()
    ensures var low := seq(127, i requires 0 <= i < 127 => Region(i * FRAME_SIZE, FRAME_SIZE, false));
            var regions := low + [Region(127 * FRAME_SIZE, 3 * FRAME_SIZE, true)];
            Ordered(regions) && Bursts(regions, Image(128 * FRAME_SIZE, 129 * FRAME_SIZE), 127)
  {
    var low := seq(127, i requires 0 <= i < 127 => Region(i * FRAME_SIZE, FRAME_SIZE, false));
    var regions := low + [Region(127 * FRAME_SIZE, 3 * FRAME_SIZE, true)];
    assert regions[..127] == low;
    EffectiveClear(low, Image(128 * FRAME_SIZE, 129 * FRAME_SIZE));
  }

  /** The loop body of `build_effective`; `ok` is false where the kernel would index past the array. */
  method AddPieces(region: Region, ki: Image, out: array<Region>, count: nat) returns (n: nat, ok: bool)
    requires count < out.Length
    modifies out
    ensures ok <==> count + |Pieces(region, ki)| <= out.Length
    ensures ok ==> n == count + |Pieces(region, ki)| && out[..n] == old(out[..count]) + Pieces(region, ki)
  {
    n, ok := count, true;
    if !region.usable || !Overlaps(region, ki) {
      out[n] := region;
      n := n + 1;
    } else {
      if region.start < ki.start {
        out[n] := Region(region.start, ki.start - region.start, true);
        n := n + 1;
      }
      if ki.end < region.End() {
        if n >= out.Length { return n, false; }
        out[n] := Region(ki.end, region.End() - ki.end, true);
        n := n + 1;
      }
    }
  }

  lemma {:induction false} EffectiveGrows(regions: seq<Region>, ki: Image, k: nat)
    requires k <= |regions|
    ensures |Effective(regions[..k], ki)| <= |Effective(regions, ki)|
  {
    hide Pieces;
    if k == |regions| {
      assert regions[..k] == regions;
    } else {
      var n := |regions| - 1;
      EffectiveGrows(regions[..n], ki, k);
      assert regions[..n][..k] == regions[..k];
    }
  }
}
