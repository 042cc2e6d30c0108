/**
 Whole runs of the heap on memory (`kernel/src/heap.rs`): any interleaving of allocations, frees and
 client writes inside live payloads.
 */
module HeapRuns {
  import opened Bits
  import opened HeapLayout
  import opened HeapMemory
  import opened Heap

  datatype Event =
    | Allocation(want: nat, align: nat)
    | Release(payload: nat)
    | ClientWrite(a: nat, w: nat)

  /** Address `a` is a word of the payload of a live block. */
  ghost predicate InPayload(h: Image, c: Cell, a: nat) {
    c in h.cells && c.Live? && c.payload <= a < c.payload + c.want && a in h.mem
  }

  ghost predicate Step(h: Image, e: Event, h': Image, start: nat, end: nat)
    requires HeapInv(h, start, end)
  {
    match e
    case Allocation(want, align) => GoodRequest(align, end) && h' == AllocImage(h, want, align, start, end)
    case Release(payload) => exists i :: IsPayload(h.cells, i, payload) && h' == FreeImage(h, i, start, end)
    case ClientWrite(a, w) => (exists c :: InPayload(h, c, a)) && h' == h.(mem := h.mem[a := w])
  }

  /** Every event keeps the heap in memory intact and touches no live block's words but by a write to them. */
  lemma StepKeeps(h: Image, e: Event, h': Image, start: nat, end: nat)
    requires HeapInv(h, start, end) && Step(h, e, h', start, end)
    ensures HeapInv(h', start, end) && h'.mem.Keys == h.mem.Keys
    ensures forall c, a :: c in h.cells && c in h'.cells && c.Live? && c.base <= a < c.End() && a in h.mem ==>
              h'.mem[a] == h.mem[a] || (e.ClientWrite? && e.a == a)
  {
    hide LayoutInv, Linked, NextFree, LiveBytes, Backed, Cut, FreeAt, IsPow2;
    match e {
      case Allocation(want, align) =>
        var i := FitIndex(h.cells, want, align);
        if i < |h.cells| {
          var pre, c, post := h.cells[..i], h.cells[i], h.cells[i + 1..];
          assert h.cells == pre + [c] + post;
          CutKeeps(h, pre, c, post, want, align, start, end);
        }
      case Release(payload) =>
        var i :| IsPayload(h.cells, i, payload) && h' == FreeImage(h, i, start, end);
        FreeImageKeeps(h, i, start, end);
        FreedGone(h, i, start, end);
      case ClientWrite(a, w) =>
        var c :| InPayload(h, c, a);
        WriteKeeps(h, c, a, w, start, end);
    }
  }

  /** A block that was freed is no longer live, and all others are at their old places. */
  lemma FreedGone(h: Image, i: nat, start: nat, end: nat)
    requires HeapInv(h, start, end) && i < |h.cells| && h.cells[i].Live?
    ensures forall c :: c in h.cells && c.Live? && c in FreeAt(h.cells, i) ==> c in h.cells[..i] + h.cells[i + 1..]
  {
    hide Linked, NextFree, LiveBytes, Backed, FreeAt, LayoutInv;
    FreeAtExact(h.cells, i, start, end);
    forall c | c in h.cells && c.Live? && c in FreeAt(h.cells, i)
      ensures c in h.cells[..i] + h.cells[i + 1..]
    {
      assert c in LiveCells(FreeAt(h.cells, i));
      assert h.cells == h.cells[..i] + [h.cells[i]] + h.cells[i + 1..];
    }
  }

  lemma WriteKeeps(h: Image, c: Cell, a: nat, w: nat, start: nat, end: nat)
    requires HeapInv(h, start, end) && InPayload(h, c, a)
    ensures HeapInv(h.(mem := h.mem[a := w]), start, end)
  {
    hide Linked, NextFree, LiveBytes, Tiles, Coalesced;
    PayloadWrite(h.mem, h.cells, c, a, w, start, end);
  }

  /** Each state follows from the one before; what an event does is defined on every intact heap. */
  ghost predicate IsRun(trace: seq<Image>, events: seq<Event>, start: nat, end: nat) {
    && |trace| == |events| + 1
    && forall k :: 0 <= k < |events| ==>
         HeapInv(trace[k], start, end) ==> Step(trace[k], events[k], trace[k + 1], start, end)
  }

  /**
   From `heap_init`, in every state of every run: the memory holds an exact coalesced tiling with
   all headers, links and back-pointers intact, the byte count is that of the live blocks, the
   layout is the only one with these live blocks, and once nothing is live the heap is as
   `heap_init` left it: one block of the whole size, and a byte count of 0.
   */
  lemma {:induction false} RunsKeep(trace: seq<Image>, events: seq<Event>, k: nat, start: nat, size: nat)
    requires IsRun(trace, events, start, start + size) && k < |trace|
    requires HeapInv(trace[0], start, start + size) && start % HEADER == 0 && size % HEADER == 0 && size > 0
    ensures HeapInv(trace[k], start, start + size) && trace[k].mem.Keys == trace[0].mem.Keys
    ensures forall other: Layout ::
              LayoutInv(other, start, start + size) && LiveCells(other) == LiveCells(trace[k].cells) ==>
                other == trace[k].cells
    ensures var h := trace[k];
            LiveCells(h.cells) == {} ==>
              h.head == start && h.inUse == 0 && At(h.mem, start) == size && At(h.mem, start + 8) == 0
    decreases k
  {
    hide LayoutInv, Linked, NextFree, LiveBytes, Backed, Step;
    if k > 0 {
      RunsKeep(trace, events, k - 1, start, size);
      StepKeeps(trace[k - 1], events[k - 1], trace[k], start, start + size);
    }
    forall other: Layout | LayoutInv(other, start, start + size) && LiveCells(other) == LiveCells(trace[k].cells)
      ensures other == trace[k].cells
    {
      LayoutUnique(other, trace[k].cells, start, start + size);
    }
    if LiveCells(trace[k].cells) == {} { NothingLeft(trace[k], start, size); }
  }

  lemma NothingLeft(h: Image, start: nat, size: nat)
    requires HeapInv(h, start, start + size) && LiveCells(h.cells) == {}
    requires start % HEADER == 0 && size % HEADER == 0 && size > 0
    ensures h.head == start && h.inUse == 0 && At(h.mem, start) == size && At(h.mem, start + 8) == 0
  {
    hide LayoutInv, Backed;
    NothingLive(h.cells, start, start + size);
    assert h.cells[1..] == [] && LiveBytes([]) == 0;
  }

  lemma PayloadInside(h: Image, c: Cell, start: nat, end: nat)
    requires HeapInv(h, start, end) && c in h.cells
    ensures CellOk(c)
  {
    TilesOrder(h.cells, start, end);
  }

  /** Client data lasts: a word of a block that stays live keeps its value until a client writes it. */
  lemma {:induction false} PayloadLasts(trace: seq<Image>, events: seq<Event>, i: nat, k: nat, c: Cell, a: nat,
                                        start: nat, size: nat)
    requires IsRun(trace, events, start, start + size) && i <= k < |trace|
    requires HeapInv(trace[0], start, start + size) && start % HEADER == 0 && size % HEADER == 0 && size > 0
    requires InPayload(trace[i], c, a)
    requires forall j :: i <= j <= k ==> c in trace[j].cells
    requires forall j :: i <= j < k ==> !(events[j].ClientWrite? && events[j].a == a)
    ensures a in trace[k].mem && trace[k].mem[a] == trace[i].mem[a]
    decreases k
  {
    hide HeapInv, Step;
    RunsKeep(trace, events, i, start, size);
    RunsKeep(trace, events, k, start, size);
    PayloadInside(trace[i], c, start, start + size);
    if i < k {
      PayloadLasts(trace, events, i, k - 1, c, a, start, size);
      RunsKeep(trace, events, k - 1, start, size);
      StepKeeps(trace[k - 1], events[k - 1], trace[k], start, start + size);
      assert c in trace[k - 1].cells && c in trace[k].cells;
    }
  }
}
