/**
 What `heap_init` leaves, what the first request gets, and that the heap writes no word outside its
 region (`kernel/src/heap.rs`).
 */
module HeapEffects {
  import opened Bits
  import opened HeapLayout
  import opened HeapMemory
  import opened Heap
  import HeapRuns

  /**
   After `heap_init` the list starts at the region's start, where one header of the whole size is the
   end of the list; nothing is allocated, and no other word is written.
   */
  lemma InitExact(mem: Memory, start: nat, size: nat)
    ensures var h := InitImage(mem, start, size);
            && h.head == start && h.inUse == 0 && LiveCells(h.cells) == {}
            && At(h.mem, start) == size && At(h.mem, start + 8) == 0
            && forall a: nat :: a != start && a != start + 8 ==> At(h.mem, a) == At(mem, a)
  {
  }

  /** The first request, aligned to at most 16, is granted right behind the header if and only if it fits there. */
  lemma FirstRequest(mem: Memory, start: nat, size: nat, want: nat, align: nat)
    requires start > 0 && start % HEADER == 0 && size % HEADER == 0 && size >= MIN_FREE
    requires GoodRequest(align, start + size) && align <= HEADER
    ensures match Allocate(InitImage(mem, start, size).cells, want, align)
            case NoSpace => want > size - HEADER
            case Granted(_, payload) => want <= size - HEADER && payload == start + HEADER
  {
    hide AlignUp, IsPow2, Carve;
    var cells := InitImage(mem, start, size).cells;
    var c := cells[0];
    HeaderIsPow2();
    AlignUpExact(start + HEADER, HEADER);
    assert PayloadIn(c, align) == start + HEADER by { SixteenAligned(start); }
    assert cells[1..] == [] && Allocate([], want, align) == NoSpace;
  }

  lemma SixteenAligned(start: nat)
    requires start % HEADER == 0
    ensures (start + HEADER) % HEADER == 0
  {
  }

  // ---------- outside the region ----------

  /** No word outside the region has changed. */
  ghost predicate OutsideKept(mem: Memory, mem': Memory, start: nat, end: nat) {
    forall a: nat :: !(start <= a < end) ==> At(mem', a) == At(mem, a)
  }

  lemma CutOutside(h: Image, pre: Layout, c: Cell, post: Layout, want: nat, align: nat, start: nat, end: nat)
    requires CanCut(h, pre, c, post, want, align, start, end)
    ensures OutsideKept(h.mem, Cut(h, pre, c, post, want, align, start, end).mem, start, end)
  {
    hide Fits, Carve, PayloadIn, AlignUp, IsPow2, Tiles, Coalesced, LastFree, Linked, NextFree, Taken;
    TakeBounds(h.mem, pre, c, post, want, align, start, end);
    TakeKeeps(h.mem, pre, c, post, want, align, start, end);
    CellAt(h.mem, pre, c, post, start, end);
  }

  lemma FreeOutside(h: Image, i: nat, start: nat, end: nat)
    requires HeapInv(h, start, end) && i < |h.cells| && h.cells[i].Live?
    ensures OutsideKept(h.mem, FreeImage(h, i, start, end).mem, start, end)
  {
    hide Tiles, Coalesced, LastFree, Linked, NextFree, FreeBetween, Freed;
    var pre, c, post := h.cells[..i], h.cells[i], h.cells[i + 1..];
    assert h.cells == pre + [c] + post;
    FreeBounds(h.mem, pre, c, post, start, end);
    CellAt(h.mem, pre, c, post, start, end);
    FreeWrites(h.mem, LastFree(pre), c, NextFree(post, 0));
  }

  /** `heap_free` writes the headers of the block and of the free block before it. */
  lemma FreeWrites(mem: Memory, prev: nat, c: Cell, cur: nat)
    ensures forall a: nat :: a != c.base && a != c.base + 8 && (prev == 0 || (a != prev && a != prev + 8)) ==>
              At(Freed(mem, prev, c, cur), a) == At(mem, a)
  {
  }

  /** Over every run of allocations, frees and writes to live payloads, no word outside the region changes. */
  lemma {:induction false} RunsOutside(trace: seq<Image>, events: seq<HeapRuns.Event>, k: nat, start: nat, size: nat)
    requires HeapRuns.IsRun(trace, events, start, start + size) && k < |trace|
    requires HeapInv(trace[0], start, start + size) && start % HEADER == 0 && size % HEADER == 0 && size > 0
    ensures OutsideKept(trace[0].mem, trace[k].mem, start, start + size)
    decreases k
  {
    hide HeapInv, HeapRuns.Step;
    if k > 0 {
      RunsOutside(trace, events, k - 1, start, size);
      HeapRuns.RunsKeep(trace, events, k - 1, start, size);
      StepOutside(trace[k - 1], events[k - 1], trace[k], start, start + size);
    }
  }

  lemma StepOutside(h: Image, e: HeapRuns.Event, h': Image, start: nat, end: nat)
    requires HeapInv(h, start, end) && HeapRuns.Step(h, e, h', start, end)
    ensures OutsideKept(h.mem, h'.mem, start, end)
  {
    hide LayoutInv, Linked, NextFree, LiveBytes, Backed, Cut, FreeAt, IsPow2, FreeImage;
    match e {
      case Allocation(want, align) =>
        var i := FitIndex(h.cells, want, align);
        if i < |h.cells| {
          var pre, c, post := h.cells[..i], h.cells[i], h.cells[i + 1..];
          assert h.cells == pre + [c] + post;
          CutOutside(h, pre, c, post, want, align, start, end);
        }
      case Release(payload) =>
        var i :| IsPayload(h.cells, i, payload) && h' == FreeImage(h, i, start, end);
        FreeOutside(h, i, start, end);
      case ClientWrite(a, w) =>
        var c :| HeapRuns.InPayload(h, c, a);
        CellInside(h, c, start, end);
    }
  }

  lemma CellInside(h: Image, c: Cell, start: nat, end: nat)
    requires HeapInv(h, start, end) && c in h.cells
    ensures CellOk(c) && start <= c.base && c.End() <= end
  {
    TilesOrder(h.cells, start, end);
  }
}
