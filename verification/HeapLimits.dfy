/**
 The fit check of `heap_alloc` (`kernel/src/heap.rs`) on 64-bit words: rounding up to a large alignment
 wraps around, and the check then passes for payload 0, which callers take for the null pointer.
 */
module HeapLimits {
  import opened Bits
  import opened HeapLayout
  import opened HeapMemory
  import opened Heap

  /** `align_up` on 64-bit words, without overflow checks. */
  function AlignUpWord(v: nat, a: nat): nat
    requires 0 < a < WORD
  {
    And((v + a - 1) % WORD, WORD - a)
  }

  function PayloadWord(c: Cell, align: nat): nat
    requires 0 < align < WORD
  {
    AlignUpWord(c.base + HEADER, Align(align))
  }

  /** The check as the kernel computes it, with its checked addition. */
  predicate FitsWord(c: Cell, want: nat, align: nat)
    requires 0 < align < WORD
  {
    c.Free? && PayloadWord(c, align) + want < WORD && PayloadWord(c, align) + want <= c.End()
  }

  /** Some aligned address behind the header has room for the request. */
  ghost predicate Room(c: Cell, want: nat, align: nat)
    requires 0 < align < WORD
  {
    exists q: nat :: q % Align(align) == 0 && c.base + HEADER <= q && q + want <= c.End()
  }

  /** Rounding up is right as long as it does not reach 2^64, and gives 0 otherwise. */
  lemma AlignUpWordExact(v: nat, a: nat)
    requires IsPow2(a) && 0 < a < WORD && v < WORD
    ensures AlignUpWord(v, a) == if v + a <= WORD then AlignUp(v, a) else 0
  {
    var k: nat :| k < 64 && a == Pow2(k);
    if v + a > WORD {
      var x := v + a - 1 - WORD;
      assert (v + a - 1) % WORD == x;
      WrapsToZero(x, k);
    }
  }

  lemma WrapsToZero(x: nat, k: nat)
    requires k < 64 && x < Pow2(k) < WORD
    ensures And(x, WORD - Pow2(k)) == 0
  {
    hide Shr, Low, Shl, Mask;
    Pow2Value(64);
    MaskTop(k, 64);
    AndMask(x, k, 64 - k);
    ShrBelow(x, k);
    Pow2Positive(64 - k);
    LowSmall(0, 64 - k);
    ShlMul(0, k);
  }

  lemma {:induction false} Pow2Positive(k: nat)
    ensures Pow2(k) > 0
  {
    if k > 0 { Pow2Positive(k - 1); }
  }

  lemma AlignOk(align: nat)
    requires 0 < align < WORD && IsPow2(align)
    ensures 0 < Align(align) < WORD && IsPow2(Align(align))
  {
    HeaderIsPow2();
  }

  /**
   The check is right, for a request that is not larger than the cell's end address, if and only if
   the alignment added to the end of the header does not pass 2^64.  Otherwise it passes, for payload
   0, though no aligned address is in the cell.
   */
  lemma FitCheckExact(c: Cell, want: nat, align: nat)
    requires CellOk(c) && c.Free? && c.End() < WORD && 0 < align < WORD && IsPow2(align)
    ensures (FitsWord(c, want, align) <==> Room(c, want, align)) <==>
              c.base + HEADER + Align(align) <= WORD || want > c.End()
    ensures c.base + HEADER + Align(align) > WORD ==> PayloadWord(c, align) == 0 && !Room(c, want, align)
    ensures c.base + HEADER + Align(align) <= WORD ==>
              PayloadWord(c, align) == PayloadIn(c, align) && (FitsWord(c, want, align) <==> Fits(c, want, align))
  {
    hide AlignUp, AlignUpWord, IsPow2;
    var a, v := Align(align), c.base + HEADER;
    AlignOk(align);
    AlignUpWordExact(v, a);
    if v + a <= WORD {
      AlignUpExact(v, a);
      var p := AlignUp(v, a);
      forall q: nat | q % a == 0 && v <= q
        ensures p <= q
      {
        NoMultipleBetween(v, p, q, a);
      }
    } else {
      forall q: nat | q % a == 0 && v <= q
        ensures q >= WORD
      {
        TopMultiple(q, align);
      }
    }
  }

  /** Above the last multiple of an alignment in the address space there is none. */
  lemma TopMultiple(q: nat, align: nat)
    requires 0 < align < WORD && IsPow2(align) && q % Align(align) == 0 && q + Align(align) > WORD
    ensures q >= WORD
  {
    hide Pow2;
    AlignOk(align);
    var a := Align(align);
    var k: nat :| k < 64 && a == Pow2(k);
    PowersDivide(k, 64 - k);
    Pow2Value(64);
    LastMultiple(q, a, Pow2(64 - k));
  }

  lemma LastMultiple(q: nat, a: nat, m: nat)
    requires a > 0 && q % a == 0 && q + a > m * a
    ensures q >= m * a
  {
    var t := q / a;
    assert q == t * a;
    ScaledOrder(m, t, a);
    AtLeast(m, t, a);
  }

  lemma AtLeast(m: nat, t: nat, a: nat)
    ensures m <= t ==> m * a <= t * a
  {
    if m <= t { assert t * a == m * a + (t - m) * a; }
  }

  lemma {:induction false} PowersDivide(k: nat, n: nat)
    ensures Pow2(k + n) == Pow2(n) * Pow2(k)
    decreases n
  {
    if n > 0 {
      PowersDivide(k, n - 1);
      assert Pow2(k + n) == 2 * Pow2(k + (n - 1)) && Pow2(n) == 2 * Pow2(n - 1);
      Doubled(Pow2(n - 1), Pow2(k));
    }
  }

  lemma Doubled(x: nat, y: nat)
    ensures 2 * (x * y) == (2 * x) * y
  {
  }

  /** A 4 KiB heap at the start of the upper half, asked for 16 bytes at a multiple of 2^62. */
  lemma NullPayload()
    ensures var c, align := Free(WORD - 0x8000_0000_0000, 0x1000), 0x4000_0000_0000_0000;
            && CellOk(c) && c.End() < WORD && IsPow2(align)
            && FitsWord(c, 16, align) && PayloadWord(c, align) == 0 && !Room(c, 16, align)
  {
    hide IsPow2, PayloadWord, Room;
    var c, align := Free(WORD - 0x8000_0000_0000, 0x1000), 0x4000_0000_0000_0000;
    BigAlign();
    FitCheckExact(c, 16, align);
  }

  lemma BigAlign()
    ensures IsPow2(0x4000_0000_0000_0000)
  {
    hide Pow2;
    Pow2Value(64);
    PowersDivide(62, 2);
    SmallPowers();
    assert 4 * Pow2(62) == WORD;
  }

  lemma SmallPowers()
    ensures Pow2(2) == 4
  {
  }

  // ---------- what follows the check ----------

  function Word(x: nat): (w: nat)
    ensures w < WORD
  {
    x % WORD
  }

  function WordDifference(a: nat, b: nat): (w: nat)
    requires a < WORD && b < WORD
    ensures w < WORD
  {
    (a + WORD - b) % WORD
  }

  /** What is left once a block is cut: memory, list head, byte count and the pointer returned. */
  datatype CutState = CutState(mem: Memory, head: nat, inUse: nat, ptr: nat)

  /** The tail's header, the link that leads to it, the new size of the block and the back-pointer. */
  function CutMemory(mem: Memory, prev: nat, cur: nat, tail: nat, remainder: nat, cut: nat, back: nat,
                     next: nat): Memory {
    var split := remainder >= MIN_FREE;
    var mem1 := if split then mem[tail := remainder][tail + 8 := next] else mem;
    var mem2 := if prev == 0 then mem1 else mem1[prev + 8 := if split then tail else next];
    var mem3 := if split then mem2[cur := cut] else mem2;
    mem3[back := cur]
  }

  lemma TakenMemory(mem: Memory, prev: nat, c: Cell, payload: nat, tail: nat, next: nat)
    requires payload >= 8 && c.base <= tail <= c.End()
    ensures CutMemory(mem, prev, c.base, tail, c.End() - tail, tail - c.base, payload - 8, next)
         == Taken(mem, prev, c, payload, tail, next)
  {
  }

  /** `heap_alloc` from a passed check on, on 64-bit words: every address and size is taken modulo 2^64. */
  function CutWord(mem: Memory, head: nat, inUse: nat, prev: nat, cur: nat, want: nat, align: nat): CutState
    requires 0 < align < WORD && cur < WORD && cur in mem && cur + 8 in mem
  {
    var payload := Word(AlignUpWord(cur + HEADER, Align(align)));
    var size, next, tail := mem[cur], mem[cur + 8], Word(AlignUpWord(payload + want, HEADER));
    var remainder := WordDifference(Word(cur + size), tail);
    var split := remainder >= MIN_FREE;
    CutState(
      CutMemory(mem, prev, cur, tail, remainder, WordDifference(tail, cur), WordDifference(payload, 8), next),
      if prev != 0 then head else if split then tail else next,
      Word(inUse + if split then WordDifference(tail, cur) else size),
      payload)
  }

  lemma {:induction false} LiveBytesBound(cells: Layout, start: nat, end: nat)
    requires Tiles(cells, start, end)
    ensures start + LiveBytes(cells) <= end
  {
    if cells != [] { LiveBytesBound(cells[1..], cells[0].End(), end); }
  }

  /** Where nothing wraps, this is the cut of the layout. */
  lemma CutWordAgrees(h: Image, pre: Layout, c: Cell, post: Layout, want: nat, align: nat, start: nat, end: nat)
    requires CanCut(h, pre, c, post, want, align, start, end) && end < WORD
    ensures c.base < WORD && c.base in h.mem && c.base + 8 in h.mem && 0 < align < WORD
    ensures var w := CutWord(h.mem, h.head, h.inUse, LastFree(pre), c.base, want, align);
            var cut := Cut(h, pre, c, post, want, align, start, end);
            w.mem == cut.mem && w.head == cut.head && w.inUse == cut.inUse && w.ptr == PayloadIn(c, align)
  {
    hide Tiles, Coalesced, Linked, NextFree, LastFree, LiveBytes, Carve, AlignUp, AlignUpWord, IsPow2, CanCut, HeapInv,
      CutWord, Taken, PayloadIn, LiveIntact;
    CutBounds(h, pre, c, post, want, align, start, end);
    CutInside(h, pre, c, post, want, align, start, end);
    CutKeeps(h, pre, c, post, want, align, start, end);
    CutCount(Cut(h, pre, c, post, want, align, start, end), start, end);
    var payload := PayloadIn(c, align);
    CutPlain(h, LastFree(pre), c, want, align, payload, AlignUp(payload + want, HEADER));
  }

  /** The same writes, when no address or size wraps. */
  lemma CutPlain(h: Image, prev: nat, c: Cell, want: nat, align: nat, payload: nat, tail: nat)
    requires 0 < align < WORD && c.End() < WORD && c.base in h.mem && c.base + 8 in h.mem && h.mem[c.base] == c.size
    requires payload == AlignUpWord(c.base + HEADER, Align(align)) && tail == AlignUpWord(payload + want, HEADER)
    requires 8 <= payload < WORD && c.base <= tail <= c.End()
    requires h.inUse + (if c.End() - tail >= MIN_FREE then tail - c.base else c.size) < WORD
    ensures var w := CutWord(h.mem, h.head, h.inUse, prev, c.base, want, align);
            var next, split := h.mem[c.base + 8], c.End() - tail >= MIN_FREE;
            && w.mem == Taken(h.mem, prev, c, payload, tail, next)
            && w.head == (if prev != 0 then h.head else if split then tail else next)
            && w.inUse == h.inUse + (if split then tail - c.base else c.size) && w.ptr == payload
  {
    hide AlignUpWord, CutMemory, Taken, Word, WordDifference;
    TakenMemory(h.mem, prev, c, payload, tail, h.mem[c.base + 8]);
    Plain(c.End(), tail);
    Plain(tail, c.base);
    Plain(payload, 8);
    Plain(h.inUse + if c.End() - tail >= MIN_FREE then tail - c.base else c.size, 0);
  }

  lemma Plain(a: nat, b: nat)
    requires b <= a < WORD
    ensures WordDifference(a, b) == a - b && Word(a) == a
  {
  }

  lemma CutCount(h: Image, start: nat, end: nat)
    requires HeapInv(h, start, end) && end < WORD
    ensures h.inUse < WORD
  {
    LiveBytesBound(h.cells, start, end);
  }

  /** The addresses of a proper cut, as words. */
  lemma CutInside(h: Image, pre: Layout, c: Cell, post: Layout, want: nat, align: nat, start: nat, end: nat)
    requires CanCut(h, pre, c, post, want, align, start, end) && end < WORD
    ensures 0 < align < WORD && c.End() < WORD
    ensures var p := PayloadIn(c, align);
            && AlignUpWord(c.base + HEADER, Align(align)) == p && 8 <= p < WORD
            && AlignUpWord(p + want, HEADER) == AlignUp(p + want, HEADER) < WORD
  {
    hide Coalesced, LiveBytes, AlignUp, AlignUpWord, IsPow2, Linked, NextFree, Tiles;
    TakeBounds(h.mem, pre, c, post, want, align, start, end);
    AlignOk(align);
    HeaderIsPow2();
    AlignUpWordExact(c.base + HEADER, Align(align));
    AlignUpWordExact(PayloadIn(c, align) + want, HEADER);
  }

  /**
   When the round-up wraps for every block, a request up to the heap's start cuts the first free block
   at payload 0.  The caller gets the null pointer; a block header is written at the rounded-up size
   of the request, below the heap; the list starts there; and the last word of the address space is
   overwritten.  No layout accounts for what is left, unless nothing was asked for: then the list is
   empty and all free memory is lost.
   */
  lemma WrappedAlloc(h: Image, want: nat, align: nat, start: nat, end: nat)
    requires HeapInv(h, start, end) && end < WORD && h.head != 0
    requires 0 < align < WORD && IsPow2(align) && start + HEADER + Align(align) > WORD && want + HEADER <= start
    ensures h.head < WORD && h.head in h.mem && h.head + 8 in h.mem
    ensures var tail := AlignUp(want, HEADER);
            var w := CutWord(h.mem, h.head, h.inUse, 0, h.head, want, align);
            && FitsWord(Free(h.head, h.mem[h.head]), want, align)
            && w.ptr == 0 && want <= tail < start && w.head == tail
            && At(w.mem, tail) == h.head + h.mem[h.head] - tail && At(w.mem, tail + 8) == h.mem[h.head + 8]
            && At(w.mem, WORD - 8) == h.head
            && (want > 0 ==> forall cells :: !HeapInv(Image(w.mem, w.head, w.inUse, cells), start, end))
  {
    hide Tiles, Coalesced, Linked, NextFree, LiveBytes, AlignUp, AlignUpWord, IsPow2, HeapInv, CutWord;
    var c := FirstBlock(h, start, end);
    AlignOk(align);
    HeaderIsPow2();
    AlignUpWordExact(h.head + HEADER, Align(align));
    AlignUpWordExact(want, HEADER);
    AlignUpExact(want, HEADER);
    CutAtNull(h, c, want, align, AlignUp(want, HEADER));
    var w := CutWord(h.mem, h.head, h.inUse, 0, h.head, want, align);
    if want > 0 {
      forall cells
        ensures !HeapInv(Image(w.mem, w.head, w.inUse, cells), start, end)
      {
        HeadInside(Image(w.mem, w.head, w.inUse, cells), start, end);
      }
    }
  }

  /** The writes for payload 0. */
  lemma CutAtNull(h: Image, c: Cell, want: nat, align: nat, tail: nat)
    requires 0 < align < WORD && CellOk(c) && c.base in h.mem && c.base + 8 in h.mem && h.mem[c.base] == c.size
    requires c.End() < WORD && tail < c.base && tail % HEADER == 0
    requires AlignUpWord(c.base + HEADER, Align(align)) == 0 && AlignUpWord(want, HEADER) == tail
    ensures var w := CutWord(h.mem, h.head, h.inUse, 0, c.base, want, align);
            && w.ptr == 0 && w.head == tail && At(w.mem, WORD - 8) == c.base
            && At(w.mem, tail) == c.End() - tail && At(w.mem, tail + 8) == h.mem[c.base + 8]
  {
    hide AlignUpWord;
    Plain(c.End(), tail);
    Plain(tail, 0);
    HeadersApart(c.base, tail);
    assert WordDifference(0, 8) == WORD - 8;
  }

  lemma HeadersApart(a: nat, b: nat)
    requires b < a && a % HEADER == 0 && b % HEADER == 0
    ensures b + HEADER <= a
  {
    var p, q := a / HEADER, b / HEADER;
    assert a == p * HEADER && b == q * HEADER;
  }

  /** The first free block of a heap, as memory shows it. */
  lemma FirstBlock(h: Image, start: nat, end: nat) returns (c: Cell)
    requires HeapInv(h, start, end) && h.head != 0
    ensures c == Free(h.head, At(h.mem, h.head)) && CellOk(c) && start <= c.base && c.End() <= end
    ensures h.head in h.mem && h.head + 8 in h.mem
  {
    SkipLive(h.cells, start, end);
    var i := FirstFree(h.cells);
    c := h.cells[i];
    var pre, post := h.cells[..i], h.cells[i + 1..];
    assert h.cells == pre + [c] + post;
    CellAt(h.mem, pre, c, post, start, end);
    Aligned8(c.base);
  }

  /** The list of a sound heap starts inside it. */
  lemma HeadInside(h: Image, start: nat, end: nat)
    ensures HeapInv(h, start, end) && h.head != 0 ==> h.head >= start
  {
    if HeapInv(h, start, end) && h.head != 0 {
      var c := FirstBlock(h, start, end);
    }
  }
}
