/**
 The kernel heap as the kernel runs it (`kernel/src/heap.rs`): a list head, a byte count and block
 headers inside the managed memory, rewritten in place.  The ghost field `cells` is the layout that
 the memory represents.
 */
module Heap {
  import opened Bits
  import opened HeapLayout
  import opened HeapMemory

  /** Every aligned word of the managed range exists. */
  ghost predicate Backed(mem: Memory, start: nat, end: nat) {
    forall a: nat :: start <= a < end && a % 8 == 0 ==> a in mem
  }

  /** The index of the first free cell, or the length. */
  ghost function FirstFree(cells: Layout): nat
    ensures FirstFree(cells) <= |cells|
  {
    if cells == [] then 0 else if cells[0].Free? then 0 else 1 + FirstFree(cells[1..])
  }

  /** Following a link skips exactly the live cells in between. */
  lemma {:induction false} SkipLive(cells: Layout, start: nat, end: nat)
    requires Tiles(cells, start, end) && start > 0
    ensures var i := FirstFree(cells);
            && (forall j :: 0 <= j < i ==> cells[j].Live?)
            && (if i < |cells| then cells[i].Free? && NextFree(cells, 0) == cells[i].base && cells[i].base > 0
                else NextFree(cells, 0) == 0)
  {
    if cells != [] && cells[0].Live? {
      SkipLive(cells[1..], cells[0].End(), end);
      var i := FirstFree(cells[1..]);
      forall j | 0 <= j < i + 1
        ensures cells[j].Live?
      {
        if j > 0 { assert cells[j] == cells[1..][j - 1]; }
      }
    }
  }

  lemma {:induction false} LastFreeLive(a: Layout, b: Layout)
    requires forall c :: c in b ==> c.Live?
    ensures LastFree(a + b) == LastFree(a)
  {
    if b == [] {
      assert a + b == a;
    } else {
      var n := |b| - 1;
      assert b[n] in b;
      assert (a + b)[..|a + b| - 1] == a + b[..n];
      LastFreeLive(a, b[..n]);
    }
  }

  lemma LastFreeSnoc(a: Layout, c: Cell)
    requires c.Free?
    ensures LastFree(a + [c]) == c.base
  {
  }

  /** What is not free or does not fit is passed over. */
  lemma {:induction false} AllocatePast(a: Layout, b: Layout, want: nat, align: nat)
    requires 0 < align < WORD && forall c :: c in a ==> !Fits(c, want, align)
    ensures Allocate(a + b, want, align) ==
              match Allocate(b, want, align)
              case NoSpace => NoSpace
              case Granted(cells, payload) => Granted(a + cells, payload)
  {
    hide Fits, Carve, PayloadIn;
    if a == [] {
      assert a + b == b;
      var g := Allocate(b, want, align);
      if g.Granted? { assert a + g.cells == g.cells; }
    } else {
      assert a[0] in a && (a + b)[0] == a[0] && (a + b)[1..] == a[1..] + b;
      assert forall c :: c in a[1..] ==> c in a;
      AllocatePast(a[1..], b, want, align);
      if Allocate(b, want, align).Granted? {
        assert [a[0]] + (a[1..] + Allocate(b, want, align).cells) == a + Allocate(b, want, align).cells;
      }
    }
  }

  /** What memory holds for the cell `c` between `pre` and `post`, and where it lies. */
  lemma CellAt(mem: Memory, pre: Layout, c: Cell, post: Layout, start: nat, end: nat)
    requires Tiles(pre + [c] + post, start, end) && start > 0 && Linked(mem, pre + [c] + post, 0)
    ensures CellOk(c) && start <= c.base && c.End() <= end
    ensures At(mem, c.base) == c.size
    ensures c.Free? ==> At(mem, c.base + 8) == NextFree(post, 0)
    ensures c.Live? ==> At(mem, c.payload - 8) == c.base
    ensures LastFree(pre) != 0 ==>
              start <= LastFree(pre) && LastFree(pre) + HEADER <= c.base && LastFree(pre) % HEADER == 0
    ensures NextFree(pre + [c] + post, 0) == if LastFree(pre) != 0 then NextFree(pre, 0) else NextFree([c] + post, 0)
  {
    hide LastFree;
    var b := TilesSplit(pre + [c], post, start, end);
    var a := TilesSplit(pre, [c], start, b);
    OneTile(c, a, b);
    TilesOrder(post, b, end);
    TilesOrder(pre, start, a);
    assert pre + [c] + post == pre + ([c] + post);
    LinkedConcat(mem, pre, [c] + post, 0);
    LinkedConcat(mem, [c], post, 0);
    assert [c][1..] == [];
    NextFreeConcat(pre, [c] + post, 0);
    if LastFree(pre) != 0 {
      LastFreeInside(pre, start, a);
      SomeFreeCell(pre, NextFree([c] + post, 0), 0);
    } else {
      NoFreeCells(pre, NextFree([c] + post, 0));
    }
  }

  lemma Aligned8(x: nat)
    requires x % HEADER == 0
    ensures x % 8 == 0 && (x + 8) % 8 == 0 && (x >= 8 ==> (x - 8) % 8 == 0)
  {
    var q := x / HEADER;
    DivUnique(x, 8, 2 * q, 0);
    DivUnique(x + 8, 8, 2 * q + 1, 0);
    if x >= 8 { DivUnique(x - 8, 8, 2 * q - 1, 0); }
  }

  /** The two shapes of a carved block, by what is left over. */
  lemma CarveShape(c: Cell, want: nat, align: nat, end: nat, post: Layout)
    requires CellOk(c) && GoodRequest(align, end) && c.End() <= end && Fits(c, want, align)
    ensures var p := PayloadIn(c, align);
            var t := AlignUp(p + want, HEADER);
            var k := Carve(c, want, align);
            && c.base + HEADER <= p <= t <= c.End() && p % HEADER == 0 && t % HEADER == 0
            && (if c.End() - t >= MIN_FREE
                then && k == [Live(c.base, t - c.base, p, want), Cell.Free(t, c.End() - t)]
                     && NextFree(k[1..] + post, 0) == t
                else k == [Live(c.base, c.size, p, want)] && NextFree(k[1..] + post, 0) == NextFree(post, 0))
  {
    hide PayloadIn, AlignUp, Fits, IsPow2;
    CarveBounds(c, want, align, end);
    var k := Carve(c, want, align);
    if |k| == 2 { assert k[1..] == [k[1]]; } else { assert k[1..] + post == post; }
  }

  // ---------- the operations on a memory image ----------

  /** The heap's memory with its list head and byte count, and the layout that it represents. */
  datatype Image = Image(mem: Memory, head: nat, inUse: nat, cells: Layout)

  ghost predicate HeapInv(h: Image, start: nat, end: nat) {
    && 0 < start && end <= WORD
    && LayoutInv(h.cells, start, end)
    && Linked(h.mem, h.cells, 0) && h.head == NextFree(h.cells, 0)
    && h.inUse == LiveBytes(h.cells)
    && Backed(h.mem, start, end)
  }

  /** `heap_init` */
  function InitImage(mem: Memory, start: nat, size: nat): Image {
    Image(mem[start := size][start + 8 := 0], start, 0, [Cell.Free(start, size)])
  }

  lemma InitKeeps(mem: Memory, start: nat, size: nat)
    requires start > 0 && start % HEADER == 0 && size % HEADER == 0 && size >= MIN_FREE
    requires start + size <= WORD && Backed(mem, start, start + size)
    ensures HeapInv(InitImage(mem, start, size), start, start + size)
  {
    var h := InitImage(mem, start, size);
    OneTile(h.cells[0], start, start + size);
    OneCoalesced(h.cells[0]);
    assert h.cells[1..] == [];
    assert NextFree([], 0) == 0 && Linked(h.mem, [], 0) && LiveBytes([]) == 0;
  }

  /** Cell `c` between `pre` and `post` can be cut for the request. */
  ghost predicate CanCut(h: Image, pre: Layout, c: Cell, post: Layout, want: nat, align: nat, start: nat, end: nat) {
    HeapInv(h, start, end) && GoodRequest(align, end) && h.cells == pre + [c] + post && Fits(c, want, align)
  }

  /** Unlink `c`, split off its tail and stamp the block. */
  ghost function Cut(h: Image, pre: Layout, c: Cell, post: Layout, want: nat, align: nat, start: nat, end: nat): Image
    requires CanCut(h, pre, c, post, want, align, start, end)
  {
    TakeBounds(h.mem, pre, c, post, want, align, start, end);
    var prev, next := LastFree(pre), NextFree(post, 0);
    var payload := PayloadIn(c, align);
    var tail := AlignUp(payload + want, HEADER);
    var split := c.End() - tail >= MIN_FREE;
    Image(
      Taken(h.mem, prev, c, payload, tail, next),
      if prev != 0 then h.head else if split then tail else next,
      h.inUse + (if split then tail - c.base else c.size),
      pre + Carve(c, want, align) + post)
  }

  /** The words that cutting reads and writes are there. */
  lemma CutBounds(h: Image, pre: Layout, c: Cell, post: Layout, want: nat, align: nat, start: nat, end: nat)
    requires CanCut(h, pre, c, post, want, align, start, end)
    ensures 0 < align < WORD
    ensures var p := PayloadIn(c, align);
            var t := AlignUp(p + want, HEADER);
            && c.base in h.mem && c.base + 8 in h.mem
            && h.mem[c.base] == c.size && h.mem[c.base + 8] == NextFree(post, 0)
            && p >= 8 && p - 8 in h.mem && c.base <= t <= c.End()
            && (c.End() - t >= MIN_FREE ==> t in h.mem && t + 8 in h.mem)
            && (LastFree(pre) != 0 ==> LastFree(pre) + 8 in h.mem)
  {
    TakeBounds(h.mem, pre, c, post, want, align, start, end);
  }

  lemma CutKeeps(h: Image, pre: Layout, c: Cell, post: Layout, want: nat, align: nat, start: nat, end: nat)
    requires CanCut(h, pre, c, post, want, align, start, end)
    ensures HeapInv(Cut(h, pre, c, post, want, align, start, end), start, end)
    ensures LiveIntact(h.cells, h.mem, Cut(h, pre, c, post, want, align, start, end).mem)
  {
    hide Fits, Carve, PayloadIn, AlignUp, IsPow2, Tiles, Coalesced, LastFree, Linked, NextFree, OnlyChanged,
      LiveIntact, Taken;
    TakeBounds(h.mem, pre, c, post, want, align, start, end);
    TakeKeeps(h.mem, pre, c, post, want, align, start, end);
    TakeIntact(h.cells, pre, c, post, h.mem, Cut(h, pre, c, post, want, align, start, end).mem, start, end);
  }

  /** The index of the first cell that fits, or the length. */
  ghost function FitIndex(cells: Layout, want: nat, align: nat): (i: nat)
    requires 0 < align < WORD
    ensures i <= |cells| && (i < |cells| ==> Fits(cells[i], want, align))
    ensures forall j :: 0 <= j < i ==> !Fits(cells[j], want, align)
  {
    if cells == [] || Fits(cells[0], want, align) then 0 else 1 + FitIndex(cells[1..], want, align)
  }

  /** `heap_alloc` */
  ghost function AllocImage(h: Image, want: nat, align: nat, start: nat, end: nat): Image
    requires HeapInv(h, start, end) && GoodRequest(align, end)
  {
    var i := FitIndex(h.cells, want, align);
    if i == |h.cells| then h
    else
      assert h.cells == h.cells[..i] + [h.cells[i]] + h.cells[i + 1..];
      Cut(h, h.cells[..i], h.cells[i], h.cells[i + 1..], want, align, start, end)
  }

  /** `heap_free`, of the live cell at index `i`. */
  ghost function FreeImage(h: Image, i: nat, start: nat, end: nat): Image
    requires HeapInv(h, start, end) && i < |h.cells| && h.cells[i].Live?
  {
    var pre, c, post := h.cells[..i], h.cells[i], h.cells[i + 1..];
    assert h.cells == pre + [c] + post;
    FreeBounds(h.mem, pre, c, post, start, end);
    Image(
      Freed(h.mem, LastFree(pre), c, NextFree(post, 0)),
      if LastFree(pre) != 0 then h.head else c.base,
      h.inUse - c.size,
      FreeBetween(pre, c, post))
  }

  lemma FreeImageKeeps(h: Image, i: nat, start: nat, end: nat)
    requires HeapInv(h, start, end) && i < |h.cells| && h.cells[i].Live?
    ensures HeapInv(FreeImage(h, i, start, end), start, end)
    ensures FreeImage(h, i, start, end).cells == FreeAt(h.cells, i)
    ensures LiveIntact(h.cells[..i] + h.cells[i + 1..], h.mem, FreeImage(h, i, start, end).mem)
  {
    hide Tiles, Coalesced, LastFree, Linked, NextFree, FreeBetween, LiveIntact, Freed;
    var pre, c, post := h.cells[..i], h.cells[i], h.cells[i + 1..];
    assert h.cells == pre + [c] + post;
    FreeBounds(h.mem, pre, c, post, start, end);
    FreeKeeps(h.mem, pre, c, post, start, end);
  }

  // ---------- the heap as it runs ----------

  class KernelHeap {
    const start: nat
    const total: nat
    var mem: Memory
    var head: nat
    var inUse: nat
    ghost var cells: Layout

    ghost function View(): Image
      reads this
    {
      Image(mem, head, inUse, cells)
    }

    ghost predicate Valid()
      reads this
    {
      HeapInv(View(), start, start + total)
    }

    /** `heap_init`: one free block over the whole region. */
    constructor (start: nat, size: nat, mem: Memory)
      requires start > 0 && start % HEADER == 0 && size % HEADER == 0 && size >= MIN_FREE
      requires start + size <= WORD && Backed(mem, start, start + size)
      ensures Valid() && this.start == start && total == size
      ensures View() == InitImage(mem, start, size)
      ensures head == start && inUse == 0 && LiveCells(cells) == {}
      ensures At(this.mem, start) == size && At(this.mem, start + 8) == 0
    {
      this.start, this.total := start, size;
      this.mem := mem[start := size][start + 8 := 0];
      this.head, this.inUse := start, 0;
      this.cells := [Cell.Free(start, size)];
      new;
      InitKeeps(mem, start, size);
    }

    /** The writes of `heap_alloc`: unlink the free cell `c`, split off its tail and stamp the block. */
    method Relink(prev: nat, cur: nat, payload: nat, tailStart: nat, ghost c: Cell)
      requires cur == c.base && cur in mem && cur + 8 in mem && mem[cur] == c.size
      requires payload >= 8 && c.base <= tailStart <= c.End()
      modifies this`mem, this`head, this`inUse
      ensures var next, split := old(mem)[cur + 8], c.End() - tailStart >= MIN_FREE;
              && mem == Taken(old(mem), prev, c, payload, tailStart, next)
              && head == (if prev != 0 then old(head) else if split then tailStart else next)
              && inUse == old(inUse) + if split then tailStart - cur else c.size
    {
      var blockSize, next := mem[cur], mem[cur + 8];
      var remainder := cur + blockSize - tailStart;
      assert remainder == c.End() - tailStart;
      if remainder >= MIN_FREE {
        // Split off the free tail and link it where `cur` was.
        mem := mem[tailStart := remainder][tailStart + 8 := next];
        if prev == 0 { head := tailStart; } else { mem := mem[prev + 8 := tailStart]; }
        mem := mem[cur := tailStart - cur];
      } else {
        if prev == 0 { head := next; } else { mem := mem[prev + 8 := next]; }
      }
      mem := mem[payload - 8 := cur];
      inUse := inUse + if remainder >= MIN_FREE then tailStart - cur else blockSize;
    }

    /** Cut the free cell `c` for the request. */
    method Take(prev: nat, cur: nat, payload: nat, want: nat, ghost align: nat, ghost pre: Layout, ghost c: Cell,
                ghost post: Layout)
      requires CanCut(View(), pre, c, post, want, align, start, start + total)
      requires prev == LastFree(pre) && cur == c.base && payload == PayloadIn(c, align)
      modifies this
      ensures Valid() && View() == Cut(old(View()), pre, c, post, want, align, start, start + total)
      ensures payload > 0 && cells == pre + Carve(c, want, align) + post
      ensures LiveIntact(old(cells), old(mem), mem)
    {
      hide CanCut, HeapInv, Carve, PayloadIn, AlignUp, LastFree, NextFree, LiveIntact, Taken;
      ghost var end := start + total;
      CutBounds(View(), pre, c, post, want, align, start, end);
      CutKeeps(View(), pre, c, post, want, align, start, end);
      Relink(prev, cur, payload, AlignUp(payload + want, HEADER), c);
      cells := pre + Carve(c, want, align) + post;
    }

    /** `heap_alloc`: first fit; 0 stands for the null pointer. */
    method Alloc(want: nat, align: nat) returns (ptr: nat)
      requires Valid() && GoodRequest(align, start + total)
      modifies this
      ensures Valid() && View() == AllocImage(old(View()), want, align, start, start + total)
      ensures match Allocate(old(cells), want, align)
              case NoSpace => ptr == 0 && View() == old(View())
              case Granted(cells', payload) => ptr == payload > 0 && cells == cells'
      ensures LiveIntact(old(cells), old(mem), mem)
    {
      hide Fits, Carve, PayloadIn, AlignUp, IsPow2, Tiles, Coalesced, LastFree, Linked, NextFree, Allocate, Cut,
        AllocImage,
        LiveIntact, CanCut;
      var alignment := if align < HEADER then HEADER else align;
      var prev, cur := 0, head;
      ghost var done: Layout, rest := [], cells;
      NothingBefore(cells);
      while cur != 0
        invariant Valid() && View() == old(View())
        invariant cells == done + rest && cur == NextFree(rest, 0) && prev == LastFree(done)
        invariant forall c :: c in done ==> !Fits(c, want, align)
        decreases |rest|
      {
        ghost var lives, c, more := WalkStep(mem, done, rest, start, start + total);
        var payload := AlignUp(cur + HEADER, alignment);
        PayloadAt(c, want, align);
        LivesDontFit(lives, want, align);
        if payload + want <= cur + mem[cur] {
          CutHere(View(), done, lives, c, more, want, align, start, start + total);
          Take(prev, cur, payload, want, align, done + lives, c, more);
          return payload;
        }
        prev := cur;
        cur := mem[cur + 8];
        done, rest := done + lives + [c], more;
      }
      ptr := 0;
      NoneFits(done, rest, want, align, start, start + total);
      FitsNowhere(View(), want, align, start, start + total);
      NothingChanged(cells, mem);
    }

    /** The walk of `heap_free` to the free neighbours, on the list, of the live block at index `i`. */
    method Locate(base: nat, ghost i: nat) returns (prev: nat, cur: nat)
      requires Valid() && i < |cells| && cells[i].Live? && base == cells[i].base
      ensures prev == LastFree(cells[..i]) && cur == NextFree(cells[i + 1..], 0)
    {
      hide Tiles, Coalesced, LastFree, Linked, NextFree;
      ghost var pre, c, post, end := cells[..i], cells[i], cells[i + 1..], start + total;
      assert cells == pre + [c] + post;
      prev, cur := 0, head;
      ghost var done: Layout, rest := [], cells;
      NothingBefore(cells);
      while cur != 0 && cur < base
        invariant cells == done + rest && cur == NextFree(rest, 0) && prev == LastFree(done)
        invariant |done| <= i
        decreases |rest|
      {
        ghost var lives, f, more := WalkStep(mem, done, rest, start, end);
        WalkShort(done, lives, f, more, pre, c, post, start, end);
        prev := cur;
        cur := mem[cur + 8];
        done, rest := done + lives + [f], more;
      }
      InsertionPoint(done, rest, pre, c, post, start, end);
    }

    /** Let the free block at `x` take over the adjacent one at `y`. */
    method Merge(x: nat, y: nat)
      requires x in mem && x + 8 in mem && y in mem && y + 8 in mem && y != x && y + 8 != x
      modifies this`mem
      ensures mem == MergedMemory(old(mem), x, y) && mem.Keys == old(mem.Keys)
    {
      mem := mem[x := mem[x] + mem[y]];
      mem := mem[x + 8 := mem[y + 8]];
    }

    /** `heap_free`: link the block into the address-sorted list and merge it both ways. */
    method Free(ptr: nat, ghost i: nat)
      requires Valid() && IsPayload(cells, i, ptr)
      modifies this
      ensures Valid() && View() == FreeImage(old(View()), i, start, start + total) && cells == FreeAt(old(cells), i)
      ensures LiveIntact(old(cells)[..i] + old(cells)[i + 1..], old(mem), mem)
    {
      hide Tiles, Coalesced, LastFree, Linked, NextFree, FreeBetween, LiveIntact, LayoutInv, Backed, LiveBytes, FreeAt;
      ghost var pre, c, post, end := cells[..i], cells[i], cells[i + 1..], start + total;
      assert cells == pre + [c] + post;
      BackPointer(mem, pre, c, post, start, end);
      var base := mem[ptr - 8];
      var prev, cur := Locate(base, i);
      FreeBounds(mem, pre, c, post, start, end);
      FreeImageKeeps(View(), i, start, end);
      var size := mem[base];
      mem := mem[base := size][base + 8 := cur];
      if prev == 0 { head := base; } else { mem := mem[prev + 8 := base]; }
      // Coalesce with the next neighbour, then with the previous one.
      if cur != 0 && base + size == cur { Merge(base, cur); }
      if prev != 0 && prev + mem[prev] == base { Merge(prev, base); }
      inUse := inUse - size;
      cells := FreeBetween(pre, c, post);
    }

    /** A caller writes a word inside the payload of the live block at index `i`. */
    method ClientWrite(a: nat, w: nat, ghost i: nat)
      requires Valid() && i < |cells| && cells[i].Live?
      requires cells[i].payload <= a < cells[i].payload + cells[i].want && a in mem
      modifies this`mem
      ensures Valid() && mem == old(mem)[a := w]
    {
      hide Tiles, Coalesced, Linked, NextFree;
      PayloadWrite(mem, cells, cells[i], a, w, start, start + total);
      mem := mem[a := w];
    }
  }

  lemma {:induction false} FitsHere(pre: Layout, c: Cell, post: Layout, want: nat, align: nat)
    requires 0 < align < WORD && Fits(c, want, align) && forall d :: d in pre ==> !Fits(d, want, align)
    ensures FitIndex(pre + [c] + post, want, align) == |pre|
    ensures var all := pre + [c] + post; all[..|pre|] == pre && all[|pre|] == c && all[|pre| + 1..] == post
  {
    hide Fits;
    var all := pre + [c] + post;
    if pre != [] {
      assert pre[0] in pre && all[1..] == pre[1..] + [c] + post;
      FitsHere(pre[1..], c, post, want, align);
    }
  }

  /** The walk has reached the first cell that fits. */
  lemma CutHere(h: Image, done: Layout, lives: Layout, c: Cell, more: Layout, want: nat, align: nat, start: nat,
                end: nat)
    requires HeapInv(h, start, end) && GoodRequest(align, end) && h.cells == done + lives + [c] + more
    requires Fits(c, want, align)
    requires (forall d :: d in done ==> !Fits(d, want, align)) && (forall d :: d in lives ==> d.Live?)
    ensures CanCut(h, done + lives, c, more, want, align, start, end)
    ensures AllocImage(h, want, align, start, end) == Cut(h, done + lives, c, more, want, align, start, end)
    ensures Allocate(h.cells, want, align) == Granted(done + lives + Carve(c, want, align) + more, PayloadIn(c, align))
  {
    hide HeapInv, Fits, Carve, PayloadIn, AlignUp, IsPow2, Allocate, Cut;
    AllocateHere(done, lives, c, more, want, align);
    LivesDontFit(lives, want, align);
    FitsHere(done + lives, c, more, want, align);
  }

  lemma FitsNowhere(h: Image, want: nat, align: nat, start: nat, end: nat)
    requires HeapInv(h, start, end) && GoodRequest(align, end) && Allocate(h.cells, want, align) == NoSpace
    ensures AllocImage(h, want, align, start, end) == h
  {
    hide HeapInv, IsPow2, Cut;
    var i := AllocateFirst(h.cells, want, align);
  }

  lemma NothingChanged(cells: Layout, mem: Memory)
    ensures LiveIntact(cells, mem, mem)
  {
  }

  /** Memory after `Take`. */
  function Taken(mem: Memory, prev: nat, c: Cell, payload: nat, tail: nat, next: nat): Memory
    requires payload >= 8 && c.base <= tail <= c.End()
  {
    var split := c.End() - tail >= MIN_FREE;
    var m1 := if split then mem[tail := c.End() - tail][tail + 8 := next] else mem;
    var m2 := if prev == 0 then m1 else m1[prev + 8 := if split then tail else next];
    var m3 := if split then m2[c.base := tail - c.base] else m2;
    m3[payload - 8 := c.base]
  }

  /** Only block `c` and the link of `prev` were written, and no word appeared or vanished. */
  ghost predicate OnlyChanged(mem: Memory, mem': Memory, c: Cell, prev: nat) {
    && mem'.Keys == mem.Keys
    && forall a :: a in mem && !(c.base <= a < c.End()) && (prev == 0 || a != prev + 8) ==> mem'[a] == mem[a]
  }

  /** The addresses that `Take` touches are words of the managed range. */
  lemma TakeBounds(mem: Memory, pre: Layout, c: Cell, post: Layout, want: nat, align: nat, start: nat, end: nat)
    requires LayoutInv(pre + [c] + post, start, end) && start > 0 && Linked(mem, pre + [c] + post, 0)
    requires GoodRequest(align, end) && Fits(c, want, align) && Backed(mem, start, end)
    ensures var p := PayloadIn(c, align);
            var t := AlignUp(p + want, HEADER);
            && c.base in mem && c.base + 8 in mem && mem[c.base] == c.size && mem[c.base + 8] == NextFree(post, 0)
            && p >= 8 && p - 8 in mem && c.base <= t <= c.End()
            && (c.End() - t >= MIN_FREE ==> t in mem && t + 8 in mem)
            && (LastFree(pre) != 0 ==> LastFree(pre) + 8 in mem)
            && CellOk(c) && c.Free? && start <= c.base && c.End() <= end
  {
    hide Fits, Carve, PayloadIn, AlignUp, IsPow2, Tiles, Coalesced, LastFree, Linked, NextFree;
    CellAt(mem, pre, c, post, start, end);
    CarveShape(c, want, align, end, post);
    FitsFree(c, want, align);
    var p := PayloadIn(c, align);
    var t := AlignUp(p + want, HEADER);
    Aligned8(c.base); Aligned8(p); Aligned8(LastFree(pre)); Aligned8(t);
    assert p - 8 >= start;
  }

  /** The writes of `Take` turn the memory of one layout into the memory of the carved one. */
  lemma TakeKeeps(mem: Memory, pre: Layout, c: Cell, post: Layout, want: nat, align: nat, start: nat, end: nat)
    requires LayoutInv(pre + [c] + post, start, end) && start > 0 && Linked(mem, pre + [c] + post, 0)
    requires GoodRequest(align, end) && Fits(c, want, align) && Backed(mem, start, end) && end <= WORD
    ensures var p, k := PayloadIn(c, align), Carve(c, want, align);
            var t := AlignUp(p + want, HEADER);
            p >= 8 && c.base <= t <= c.End()
            && var mem' := Taken(mem, LastFree(pre), c, p, t, NextFree(post, 0));
            && LayoutInv(pre + k + post, start, end)
            && Linked(mem', pre + k + post, 0)
            && Backed(mem', start, end)
            && OnlyChanged(mem, mem', c, LastFree(pre))
            && NextFree(pre + k + post, 0) ==
                 (if LastFree(pre) != 0 then NextFree(pre + [c] + post, 0)
                  else if c.End() - t >= MIN_FREE then t else NextFree(post, 0))
            && LiveBytes(pre + k + post)
               == LiveBytes(pre + [c] + post) + (if c.End() - t >= MIN_FREE then t - c.base else c.size)
  {
    hide Fits, Carve, PayloadIn, AlignUp, IsPow2, Tiles, Coalesced, LastFree, Linked, NextFree;
    TakeBounds(mem, pre, c, post, want, align, start, end);
    CellAt(mem, pre, c, post, start, end);
    CarveShape(c, want, align, end, post);
    GrantKeeps(pre, c, post, want, align, start, end);
    var p, k := PayloadIn(c, align), Carve(c, want, align);
    var t := AlignUp(p + want, HEADER);
    var mem' := Taken(mem, LastFree(pre), c, p, t, NextFree(post, 0));
    TakenWords(mem, LastFree(pre), c, p, t, NextFree(post, 0));
    CarveLinked(mem, mem', pre, c, post, want, align, start, end);
    HeadAfter(pre, c, post, k, start, end);
  }

  lemma TakenWords(mem: Memory, prev: nat, c: Cell, p: nat, t: nat, next: nat)
    requires c.base + HEADER <= p <= t <= c.End() && (prev != 0 ==> prev + HEADER <= c.base)
    requires c.base in mem && p - 8 in mem && mem[c.base] == c.size
    requires c.End() - t >= MIN_FREE ==> t in mem && t + 8 in mem
    requires prev != 0 ==> prev + 8 in mem
    ensures var mem' := Taken(mem, prev, c, p, t, next);
            var split := c.End() - t >= MIN_FREE;
            && OnlyChanged(mem, mem', c, prev)
            && At(mem', c.base) == (if split then t - c.base else c.size)
            && At(mem', p - 8) == c.base
            && (split ==> At(mem', t) == c.End() - t && At(mem', t + 8) == next)
            && (prev != 0 ==> At(mem', prev + 8) == if split then t else next)
            && forall x: nat :: !(c.base <= x < c.End()) && (prev == 0 || x != prev + 8) ==> At(mem', x) == At(mem, x)
  {
  }

  /** The head of the list after a free cell was replaced by a live block, with or without a tail. */
  lemma HeadAfter(pre: Layout, c: Cell, post: Layout, k: Layout, start: nat, end: nat)
    requires Tiles(pre + [c] + post, start, end) && start > 0 && c.Free? && k != [] && k[0].Live?
    ensures NextFree(pre + k + post, 0) == if LastFree(pre) != 0 then NextFree(pre, 0) else NextFree(k[1..] + post, 0)
    ensures NextFree(pre + [c] + post, 0) == if LastFree(pre) != 0 then NextFree(pre, 0) else c.base
  {
    hide LastFree;
    var b := TilesSplit(pre + [c], post, start, end);
    var a := TilesSplit(pre, [c], start, b);
    TilesOrder(pre, start, a);
    assert pre + k + post == pre + (k + post) && pre + [c] + post == pre + ([c] + post);
    NextFreeConcat(pre, k + post, 0);
    NextFreeConcat(pre, [c] + post, 0);
    assert (k + post)[1..] == k[1..] + post;
    if LastFree(pre) != 0 {
      SomeFreeCell(pre, NextFree(k + post, 0), 0);
      SomeFreeCell(pre, NextFree([c] + post, 0), 0);
    } else {
      NoFreeCells(pre, NextFree(k + post, 0));
      NoFreeCells(pre, NextFree([c] + post, 0));
    }
  }

  // ---------- walking the list ----------

  lemma NothingBefore(cells: Layout)
    ensures cells == [] + cells && LastFree([]) == 0
  {
  }

  /** From `done`, the next free cell `c` is reached past live cells only. */
  lemma WalkStep(mem: Memory, done: Layout, rest: Layout, start: nat, end: nat)
    returns (lives: Layout, c: Cell, more: Layout)
    requires LayoutInv(done + rest, start, end) && start > 0 && Linked(mem, done + rest, 0) && Backed(mem, start, end)
    requires NextFree(rest, 0) != 0
    ensures rest == lives + [c] + more && done + rest == (done + lives) + [c] + more
    ensures c.Free? && c.base == NextFree(rest, 0) && (forall d :: d in lives ==> d.Live?)
    ensures LastFree(done + lives) == LastFree(done) && LastFree(done + lives + [c]) == c.base
    ensures c.base in mem && c.base + 8 in mem && mem[c.base] == c.size && mem[c.base + 8] == NextFree(more, 0)
    ensures done + lives + [c] + more == done + rest
  {
    hide LastFree, Linked, Coalesced;
    var m := TilesSplit(done, rest, start, end);
    SkipLive(rest, m, end);
    var i := FirstFree(rest);
    lives, c, more := rest[..i], rest[i], rest[i + 1..];
    assert rest == lives + [c] + more;
    assert done + rest == (done + lives) + [c] + more;
    LastFreeLive(done, lives);
    LastFreeSnoc(done + lives, c);
    CellAt(mem, done + lives, c, more, start, end);
    Aligned8(c.base);
  }

  lemma PayloadAt(c: Cell, want: nat, align: nat)
    requires 0 < align < WORD && c.Free?
    ensures PayloadIn(c, align) == AlignUp(c.base + HEADER, if align < HEADER then HEADER else align)
    ensures Fits(c, want, align) <==> PayloadIn(c, align) + want <= c.base + c.size
  {
  }

  lemma LivesDontFit(lives: Layout, want: nat, align: nat)
    requires 0 < align < WORD && forall d :: d in lives ==> d.Live?
    ensures forall d :: d in lives ==> !Fits(d, want, align)
  {
  }

  lemma AllocateHere(done: Layout, lives: Layout, c: Cell, more: Layout, want: nat, align: nat)
    requires 0 < align < WORD && Fits(c, want, align)
    requires (forall d :: d in done ==> !Fits(d, want, align)) && (forall d :: d in lives ==> d.Live?)
    ensures Allocate(done + lives + [c] + more, want, align)
         == Granted(done + lives + Carve(c, want, align) + more, PayloadIn(c, align))
  {
    hide Fits, Carve, PayloadIn;
    LivesDontFit(lives, want, align);
    AllocatePast(done + lives, [c] + more, want, align);
    assert done + lives + [c] + more == (done + lives) + ([c] + more);
    assert ([c] + more)[0] == c && ([c] + more)[1..] == more;
    assert (done + lives) + (Carve(c, want, align) + more) == done + lives + Carve(c, want, align) + more;
  }

  lemma NoneFits(done: Layout, rest: Layout, want: nat, align: nat, start: nat, end: nat)
    requires 0 < align < WORD && Tiles(done + rest, start, end) && start > 0 && NextFree(rest, 0) == 0
    requires forall d :: d in done ==> !Fits(d, want, align)
    ensures Allocate(done + rest, want, align) == NoSpace
  {
    hide Fits, Carve, PayloadIn;
    var m := TilesSplit(done, rest, start, end);
    SkipLive(rest, m, end);
    LivesDontFit(rest, want, align);
    AllocatePast(done + rest, [], want, align);
    assert done + rest + [] == done + rest;
  }

  // ---------- client data ----------

  /** The words of every live block are as they were. */
  ghost predicate LiveIntact(cells: Layout, mem: Memory, mem': Memory) {
    && mem'.Keys == mem.Keys
    && forall d, a :: d in cells && d.Live? && d.base <= a < d.End() && a in mem ==> mem'[a] == mem[a]
  }

  lemma TakeIntact(cells: Layout, pre: Layout, c: Cell, post: Layout, mem: Memory, mem': Memory, start: nat, end: nat)
    requires Tiles(cells, start, end) && start > 0 && cells == pre + [c] + post && c.Free?
    requires OnlyChanged(mem, mem', c, LastFree(pre))
    ensures LiveIntact(cells, mem, mem')
  {
    hide LastFree;
    assert c in cells;
    var b := TilesSplit(pre + [c], post, start, end);
    var m := TilesSplit(pre, [c], start, b);
    if LastFree(pre) != 0 { LastFreeInside(pre, start, m); }
    TilesOrder(cells, start, end);
    forall d, a | d in cells && d.Live? && d.base <= a < d.End() && a in mem
      ensures mem'[a] == mem[a]
    {
      if c.base <= a < c.End() {
        OneCellPerAddress(cells, start, end, c, d);
      } else if LastFree(pre) != 0 && a == LastFree(pre) + 8 {
        var f :| f in pre && f.Free? && f.base == LastFree(pre);
        assert f in cells && CellOk(f);
        OneCellPerAddress(cells, start, end, f, d);
      }
    }
  }

  // ---------- freeing ----------

  lemma BackPointer(mem: Memory, pre: Layout, c: Cell, post: Layout, start: nat, end: nat)
    requires LayoutInv(pre + [c] + post, start, end) && start > 0 && Linked(mem, pre + [c] + post, 0)
    requires Backed(mem, start, end)
    requires c.Live?
    ensures c.payload >= 8 && c.payload - 8 in mem && mem[c.payload - 8] == c.base
    ensures c.base in mem && c.base + 8 in mem && mem[c.base] == c.size
  {
    hide LastFree, Linked, NextFree, Tiles, Coalesced;
    CellAt(mem, pre, c, post, start, end);
    Aligned8(c.base); Aligned8(c.payload);
  }

  /** A free cell below the block lies before it. */
  lemma WalkShort(done: Layout, lives: Layout, f: Cell, more: Layout, pre: Layout, c: Cell, post: Layout, start: nat,
                  end: nat)
    requires Tiles(pre + [c] + post, start, end) && done + lives + [f] + more == pre + [c] + post
    requires f.base < c.base
    ensures |done + lives + [f]| <= |pre|
  {
    var n := |done + lives|;
    var cells := pre + [c] + post;
    assert cells[n] == (done + lives + [f] + more)[n] == f;
    assert cells[|pre|] == c;
    if n >= |pre| { IndexOrder(cells, start, end, |pre|, n); }
  }

  lemma {:induction false} IndexOrder(cells: Layout, start: nat, end: nat, i: nat, j: nat)
    requires Tiles(cells, start, end) && i <= j < |cells|
    ensures cells[i].base <= cells[j].base
    ensures i < j ==> cells[i].End() <= cells[j].base && cells[i].base < cells[j].base
  {
    if i > 0 {
      IndexOrder(cells[1..], cells[0].End(), end, i - 1, j - 1);
    } else if j > 0 {
      TilesOrder(cells[1..], cells[0].End(), end);
      assert cells[j] == cells[1..][j - 1];
      assert cells[j] in cells[1..];
    }
  }

  /** Where the walk stops, the block's neighbours on the list are known. */
  lemma InsertionPoint(done: Layout, rest: Layout, pre: Layout, c: Cell, post: Layout, start: nat, end: nat)
    requires Tiles(pre + [c] + post, start, end) && start > 0 && done + rest == pre + [c] + post && c.Live?
    requires |done| <= |pre| && (NextFree(rest, 0) == 0 || NextFree(rest, 0) >= c.base)
    ensures LastFree(done) == LastFree(pre) && NextFree(rest, 0) == NextFree(post, 0)
  {
    var cells, n, k := pre + [c] + post, |done|, |pre|;
    var mid := pre[n..];
    assert done == cells[..n] == pre[..n];
    assert pre == done + mid;
    assert rest == cells[n..] == mid + ([c] + post);
    var m := TilesSplit(done, rest, start, end);
    SkipLive(rest, m, end);
    var i := FirstFree(rest);
    assert cells[k] == c;
    if i < |mid| {
      assert rest[i] == cells[n + i];
      IndexOrder(cells, start, end, n + i, k);
    }
    forall d | d in mid
      ensures d.Live?
    {
      var j :| 0 <= j < |mid| && mid[j] == d;
      assert rest[j] == d;
    }
    LastFreeLive(done, mid);
    LivesSkipped(mid, [c] + post);
    assert ([c] + post)[1..] == post;
  }

  lemma {:induction false} LivesSkipped(a: Layout, b: Layout)
    requires forall d :: d in a ==> d.Live?
    ensures NextFree(a + b, 0) == NextFree(b, 0)
  {
    if a == [] {
      assert a + b == b;
    } else {
      assert a[0] in a && (a + b)[1..] == a[1..] + b && forall d :: d in a[1..] ==> d in a;
      LivesSkipped(a[1..], b);
    }
  }

  /** Memory once block `c` is linked in, before merging. */
  function Uncarved(mem: Memory, prev: nat, c: Cell, cur: nat): Memory {
    var m := mem[c.base := c.size][c.base + 8 := cur];
    if prev == 0 then m else m[prev + 8 := c.base]
  }

  /** Memory once the free block at `x` has taken over the one at `y`. */
  function MergedMemory(mem: Memory, x: nat, y: nat): Memory {
    mem[x := At(mem, x) + At(mem, y)][x + 8 := At(mem, y + 8)]
  }

  /** Memory after `Free`. */
  function Freed(mem: Memory, prev: nat, c: Cell, cur: nat): Memory {
    var m1 := Uncarved(mem, prev, c, cur);
    var m2 := if cur != 0 && c.End() == cur then MergedMemory(m1, c.base, cur) else m1;
    if prev != 0 && prev + At(m2, prev) == c.base then MergedMemory(m2, prev, c.base) else m2
  }

  /** The addresses that `Free` touches are words of the managed range. */
  lemma FreeBounds(mem: Memory, pre: Layout, c: Cell, post: Layout, start: nat, end: nat)
    requires LayoutInv(pre + [c] + post, start, end) && start > 0 && Linked(mem, pre + [c] + post, 0)
    requires Backed(mem, start, end)
    requires c.Live?
    ensures c.base in mem && c.base + 8 in mem && mem[c.base] == c.size && c.size > 0
    ensures LastFree(pre) != 0 ==> LastFree(pre) in mem && LastFree(pre) + 8 in mem && LastFree(pre) + HEADER <= c.base
    ensures NextFree(post, 0) != 0 ==>
              NextFree(post, 0) in mem && NextFree(post, 0) + 8 in mem && NextFree(post, 0) >= c.End()
    ensures LiveBytes(pre + [c] + post) >= c.size
  {
    hide LastFree, Linked, Coalesced;
    CellAt(mem, pre, c, post, start, end);
    Aligned8(c.base); Aligned8(LastFree(pre));
    var b := TilesSplit(pre + [c], post, start, end);
    var a := TilesSplit(pre, [c], start, b);
    OneTile(c, a, b);
    SkipLive(post, b, end);
    TilesOrder(post, b, end);
    if NextFree(post, 0) != 0 {
      var f := post[FirstFree(post)];
      assert f in post && CellOk(f);
      Aligned8(f.base);
    }
    BytesConcat(pre, [c]); BytesConcat(pre + [c], post);
    assert LiveBytes([c]) == c.size by { assert [c][1..] == []; }
  }

  lemma RightAdjacent(post: Layout, mid: nat, end: nat)
    requires Tiles(post, mid, end) && mid > 0
    ensures NextFree(post, 0) == mid <==> post != [] && post[0].Free?
  {
    if post != [] && post[0].Live? {
      SkipLive(post[1..], post[0].End(), end);
      TilesOrder(post[1..], post[0].End(), end);
      var i := FirstFree(post[1..]);
      if i < |post[1..]| { assert post[1..][i] in post[1..]; }
    }
  }

  lemma LeftAdjacent(mem: Memory, pre: Layout, t: nat, start: nat, mid: nat)
    requires Tiles(pre, start, mid) && start > 0 && Linked(mem, pre, t)
    ensures LastFree(pre) != 0 && LastFree(pre) + At(mem, LastFree(pre)) == mid <==> pre != [] && pre[|pre| - 1].Free?
    ensures pre != [] && pre[|pre| - 1].Free? ==> LastFree(pre) == pre[|pre| - 1].base
  {
    TilesOrder(pre, start, mid);
    if pre != [] {
      var n := |pre| - 1;
      var l := pre[n];
      assert pre == pre[..n] + [l] && l in pre;
      var m := TilesSplit(pre[..n], [l], start, mid);
      OneTile(l, m, mid);
      LinkedConcat(mem, pre[..n], [l], t);
      if l.Live? && LastFree(pre) != 0 {
        LastFreeLive(pre[..n], [l]);
        LastFreeSize(mem, pre[..n], NextFree([l], t), start, m);
      }
    }
  }

  lemma {:induction false} LastFreeSize(mem: Memory, cells: Layout, t: nat, start: nat, end: nat)
    requires Tiles(cells, start, end) && start > 0 && Linked(mem, cells, t) && LastFree(cells) != 0
    ensures LastFree(cells) + At(mem, LastFree(cells)) <= end
    decreases |cells|
  {
    var c, rest := cells[0], cells[1..];
    assert cells == [c] + rest;
    TilesOrder(rest, c.End(), end);
    LastFreeCons(c, rest);
    if LastFree(rest) != 0 { LastFreeSize(mem, rest, t, c.End(), end); }
  }

  /** First merge: the block and its right neighbour. */
  lemma RightMerge(m1: Memory, pre: Layout, c: Cell, post: Layout, start: nat, end: nat)
    requires Tiles(pre + [Cell.Free(c.base, c.size)] + post, start, end) && start > 0
    requires Linked(m1, pre + [Cell.Free(c.base, c.size)] + post, 0)
    ensures var cur := NextFree(post, 0);
            var m2 := if cur != 0 && c.End() == cur then MergedMemory(m1, c.base, cur) else m1;
            var f2 := Merged([], c, RightFree(post));
            Tiles(pre + [f2] + RightRest(post), start, end) && Linked(m2, pre + [f2] + RightRest(post), 0)
  {
    hide Tiles, Linked, NextFree;
    var f := Cell.Free(c.base, c.size);
    var b := TilesSplit(pre + [f], post, start, end);
    var a := TilesSplit(pre, [f], start, b);
    OneTile(f, a, b);
    RightAdjacent(post, b, end);
    if post != [] && post[0].Free? {
      var y, post' := post[0], post[1..];
      assert post == [y] + post';
      assert pre + [f] + post == pre + [f, y] + post';
      MergeLinked(m1, pre, f, y, post', start, end);
    }
  }

  /** Second merge: the left neighbour and the block. */
  lemma LeftMerge(m2: Memory, pre: Layout, f: Cell, post: Layout, start: nat, end: nat)
    requires f.Free? && Tiles(pre + [f] + post, start, end) && start > 0 && Linked(m2, pre + [f] + post, 0)
    ensures var prev := LastFree(pre);
            var m3 := if prev != 0 && prev + At(m2, prev) == f.base then MergedMemory(m2, prev, f.base) else m2;
            var f3 := Merged(LeftFree(pre), f, []);
            Tiles(LeftRest(pre) + [f3] + post, start, end) && Linked(m3, LeftRest(pre) + [f3] + post, 0)
  {
    hide Tiles, Linked, NextFree, LastFree;
    var b := TilesSplit(pre + [f], post, start, end);
    var a := TilesSplit(pre, [f], start, b);
    OneTile(f, a, b);
    assert pre + [f] + post == pre + ([f] + post);
    LinkedConcat(m2, pre, [f] + post, 0);
    LeftAdjacent(m2, pre, NextFree([f] + post, 0), start, a);
    if pre != [] && pre[|pre| - 1].Free? {
      var x, pre' := pre[|pre| - 1], pre[..|pre| - 1];
      assert pre == pre' + [x];
      assert pre + [f] + post == pre' + [x, f] + post;
      MergeLinked(m2, pre', x, f, post, start, end);
    }
  }

  /** The head of the list after freeing: the block itself if nothing free lies below it. */
  lemma HeadFreed(pre: Layout, c: Cell, post: Layout, start: nat, end: nat)
    requires Tiles(pre + [c] + post, start, end) && start > 0 && c.Live?
    ensures NextFree(FreeBetween(pre, c, post), 0)
         == if LastFree(pre) != 0 then NextFree(pre + [c] + post, 0) else c.base
  {
    hide LastFree;
    var b := TilesSplit(pre + [c], post, start, end);
    var a := TilesSplit(pre, [c], start, b);
    TilesOrder(pre, start, a);
    var m, r := Merged(LeftFree(pre), c, RightFree(post)), RightRest(post);
    assert pre + [c] + post == pre + ([c] + post);
    NextFreeConcat(pre, [c] + post, 0);
    assert FreeBetween(pre, c, post) == LeftRest(pre) + ([m] + r);
    NextFreeConcat(LeftRest(pre), [m] + r, 0);
    if LastFree(pre) != 0 {
      SomeFreeCell(pre, NextFree([c] + post, 0), m.base);
      if LeftFree(pre) != [] {
        assert pre == LeftRest(pre) + LeftFree(pre);
        NextFreeConcat(LeftRest(pre), LeftFree(pre), m.base);
      }
    } else {
      NoFreeCells(pre, m.base);
      if pre != [] { assert pre[|pre| - 1] in pre; }
    }
  }

  /** The writes of `Free` turn the memory of one layout into the memory of the coalesced one. */
  lemma FreeKeeps(mem: Memory, pre: Layout, c: Cell, post: Layout, start: nat, end: nat)
    requires LayoutInv(pre + [c] + post, start, end) && start > 0 && Linked(mem, pre + [c] + post, 0)
    requires Backed(mem, start, end)
    requires c.Live?
    ensures var mem', cells' := Freed(mem, LastFree(pre), c, NextFree(post, 0)), FreeBetween(pre, c, post);
            && LayoutInv(cells', start, end) && Linked(mem', cells', 0) && Backed(mem', start, end)
            && NextFree(cells', 0) == (if LastFree(pre) != 0 then NextFree(pre + [c] + post, 0) else c.base)
            && LiveBytes(cells') + c.size == LiveBytes(pre + [c] + post)
            && LiveIntact(pre + post, mem, mem')
  {
    hide Tiles, Linked, NextFree, LastFree, Coalesced, LiveIntact;
    var prev, cur := LastFree(pre), NextFree(post, 0);
    FreeBetweenExact(pre, c, post, start, end);
    HeadFreed(pre, c, post, start, end);
    FreeBounds(mem, pre, c, post, start, end);
    UncarveLinked(mem, Uncarved(mem, prev, c, cur), pre, c, post, start, end);
    var m1 := Uncarved(mem, prev, c, cur);
    RightMerge(m1, pre, c, post, start, end);
    var m2 := if cur != 0 && c.End() == cur then MergedMemory(m1, c.base, cur) else m1;
    var f2 := Merged([], c, RightFree(post));
    LeftMerge(m2, pre, f2, RightRest(post), start, end);
    FreeIntact(mem, pre, c, post, start, end);
  }

  /** `Free` writes at most four words: the headers of the block and of its predecessor on the list. */
  lemma FreedWords(mem: Memory, prev: nat, c: Cell, cur: nat)
    requires c.base in mem && c.base + 8 in mem && (prev != 0 ==> prev in mem && prev + 8 in mem)
    ensures var mem' := Freed(mem, prev, c, cur);
            && mem'.Keys == mem.Keys
            && forall a :: a in mem && a != c.base && a != c.base + 8 && (prev == 0 || (a != prev && a != prev + 8)) ==>
                 mem'[a] == mem[a]
  {
  }

  /** Apart from the block itself, only free cells are written. */
  lemma FreeIntact(mem: Memory, pre: Layout, c: Cell, post: Layout, start: nat, end: nat)
    requires LayoutInv(pre + [c] + post, start, end) && start > 0 && Linked(mem, pre + [c] + post, 0)
    requires Backed(mem, start, end)
    requires c.Live?
    ensures LiveIntact(pre + post, mem, Freed(mem, LastFree(pre), c, NextFree(post, 0)))
    ensures Freed(mem, LastFree(pre), c, NextFree(post, 0)).Keys == mem.Keys
  {
    hide LastFree, NextFree, Linked, Freed, Coalesced;
    var prev, cells := LastFree(pre), pre + [c] + post;
    var mem' := Freed(mem, prev, c, NextFree(post, 0));
    FreeBounds(mem, pre, c, post, start, end);
    FreedWords(mem, prev, c, NextFree(post, 0));
    OnlyOnce(pre, [c], post, c, start, end);
    var b := TilesSplit(pre + [c], post, start, end);
    var m := TilesSplit(pre, [c], start, b);
    TilesOrder(cells, start, end);
    if prev != 0 { LastFreeInside(pre, start, m); }
    forall d, a | d in pre + post && d.Live? && d.base <= a < d.End() && a in mem
      ensures mem'[a] == mem[a]
    {
      assert d in cells && c in cells && d != c && CellOk(c);
      if a == c.base || a == c.base + 8 {
        OneCellPerAddress(cells, start, end, c, d);
      } else if prev != 0 && (a == prev || a == prev + 8) {
        var f :| f in pre && f.Free? && f.base == prev;
        assert f in cells && CellOk(f);
        OneCellPerAddress(cells, start, end, f, d);
      }
    }
  }
}
