/**
 The kernel heap (`kernel/src/heap.rs`) as a tiling: the managed range is cut into cells, each free
 or handed out.  The free list is the free cells in address order.
 */
module HeapLayout {
  import opened Bits

  const HEADER: nat := 16
  const MIN_FREE: nat := 32

  /** A live cell also records the address handed out and the size asked for. */
  datatype Cell =
    | Free(base: nat, size: nat)
    | Live(base: nat, size: nat, payload: nat, want: nat)
  {
    function End(): nat { base + size }
  }

  type Layout = seq<Cell>

  predicate CellOk(c: Cell) {
    && c.size >= HEADER && c.size % HEADER == 0 && c.base % HEADER == 0
    && (c.Live? ==> c.base + HEADER <= c.payload && c.payload % HEADER == 0 && c.payload + c.want <= c.End())
  }

  /** The cells cover `[start, end)` without gap or overlap. */
  predicate Tiles(cells: Layout, start: nat, end: nat) {
    if cells == [] then start == end
    else cells[0].base == start && CellOk(cells[0]) && Tiles(cells[1..], cells[0].End(), end)
  }

  /** No two free cells are neighbours. */
  predicate Coalesced(cells: Layout) {
    forall i :: 0 <= i < |cells| - 1 ==> !(cells[i].Free? && cells[i + 1].Free?)
  }

  predicate LayoutInv(cells: Layout, start: nat, end: nat) {
    Tiles(cells, start, end) && Coalesced(cells)
  }

  function LiveCells(cells: Layout): set<Cell> {
    set c | c in cells && c.Live?
  }

  function LiveBytes(cells: Layout): nat {
    if cells == [] then 0 else (if cells[0].Live? then cells[0].size else 0) + LiveBytes(cells[1..])
  }

  // ---------- heap_alloc ----------

  function Align(align: nat): nat {
    if align < HEADER then HEADER else align
  }

  function PayloadIn(c: Cell, align: nat): nat
    requires 0 < align < WORD
  {
    AlignUp(c.base + HEADER, Align(align))
  }

  predicate Fits(c: Cell, want: nat, align: nat)
    requires 0 < align < WORD
  {
    c.Free? && PayloadIn(c, align) + want <= c.End()
  }

  /** Cut a live block off the front of a free cell; keep a tail of at least 32 bytes free. */
  function Carve(c: Cell, want: nat, align: nat): Layout
    requires 0 < align < WORD
  {
    var payload := PayloadIn(c, align);
    var tail := AlignUp(payload + want, HEADER);
    if tail + MIN_FREE <= c.End() && c.base <= tail then
      [Live(c.base, tail - c.base, payload, want), Free(tail, c.End() - tail)]
    else [Live(c.base, c.size, payload, want)]
  }

  datatype Grant = NoSpace | Granted(cells: Layout, payload: nat)

  /** First fit: the lowest free cell that can hold the aligned payload. */
  function Allocate(cells: Layout, want: nat, align: nat): Grant
    requires 0 < align < WORD
  {
    if cells == [] then NoSpace
    else if Fits(cells[0], want, align) then
      Granted(Carve(cells[0], want, align) + cells[1..], PayloadIn(cells[0], align))
    else
      match Allocate(cells[1..], want, align)
      case NoSpace => NoSpace
      case Granted(rest, payload) => Granted([cells[0]] + rest, payload)
  }

  // ---------- heap_free ----------

  function LeftFree(pre: Layout): Layout {
    if pre != [] && pre[|pre| - 1].Free? then [pre[|pre| - 1]] else []
  }

  function RightFree(post: Layout): Layout {
    if post != [] && post[0].Free? then [post[0]] else []
  }

  function LeftRest(pre: Layout): Layout {
    if pre != [] && pre[|pre| - 1].Free? then pre[..|pre| - 1] else pre
  }

  function RightRest(post: Layout): Layout {
    if post != [] && post[0].Free? then post[1..] else post
  }

  /** One free cell for `c` and its free neighbours `l` and `r`. */
  function Merged(l: Layout, c: Cell, r: Layout): Cell {
    Free(if l == [] then c.base else l[0].base,
         (if l == [] then 0 else l[0].size) + c.size + (if r == [] then 0 else r[0].size))
  }

  /** Free the cell `c` between `pre` and `post`, coalescing on both sides. */
  function FreeBetween(pre: Layout, c: Cell, post: Layout): Layout {
    LeftRest(pre) + [Merged(LeftFree(pre), c, RightFree(post))] + RightRest(post)
  }

  /** Free the live cell at index `i`. */
  function FreeAt(cells: Layout, i: nat): Layout
    requires i < |cells|
  {
    FreeBetween(cells[..i], cells[i], cells[i + 1..])
  }

  // ---------- tilings ----------

  lemma {:induction false} TilesConcat(a: Layout, b: Layout, start: nat, mid: nat, end: nat)
    requires Tiles(a, start, mid) && Tiles(b, mid, end)
    ensures Tiles(a + b, start, end)
  {
    if a == [] {
      assert a + b == b;
    } else {
      TilesConcat(a[1..], b, a[0].End(), mid, end);
      assert (a + b)[1..] == a[1..] + b;
    }
  }

  lemma {:induction false} TilesSplit(a: Layout, b: Layout, start: nat, end: nat) returns (mid: nat)
    requires Tiles(a + b, start, end)
    ensures Tiles(a, start, mid) && Tiles(b, mid, end)
    ensures start <= mid <= end
  {
    if a == [] {
      assert a + b == b;
      mid := start;
      TilesOrder(b, start, end);
    } else {
      assert (a + b)[1..] == a[1..] + b;
      mid := TilesSplit(a[1..], b, a[0].End(), end);
    }
  }

  lemma {:induction false} TilesOrder(cells: Layout, start: nat, end: nat)
    requires Tiles(cells, start, end)
    ensures start <= end
    ensures forall c :: c in cells ==> start <= c.base && c.End() <= end && CellOk(c)
  {
    if cells != [] {
      TilesOrder(cells[1..], cells[0].End(), end);
      forall c | c in cells
        ensures start <= c.base && c.End() <= end && CellOk(c)
      {
        if c != cells[0] { assert c in cells[1..]; }
      }
    }
  }

  /** Two cells of a tiling at the same address are the same cell. */
  lemma {:induction false} OneCellPerAddress(cells: Layout, start: nat, end: nat, c: Cell, d: Cell)
    requires Tiles(cells, start, end) && c in cells && d in cells && c.base < d.End() && d.base < c.End()
    ensures c == d
  {
    TilesOrder(cells[1..], cells[0].End(), end);
    assert forall x :: x in cells ==> x == cells[0] || x in cells[1..];
    if c != cells[0] && d != cells[0] {
      OneCellPerAddress(cells[1..], cells[0].End(), end, c, d);
    }
  }

  // ---------- the free list is the complement of the live blocks ----------

  lemma LiveTail(cells: Layout, start: nat, end: nat)
    requires Tiles(cells, start, end) && cells != []
    ensures LiveCells(cells[1..]) == set c | c in LiveCells(cells) && c.base >= cells[0].End()
    ensures cells[0].Live? ==> cells[0] in LiveCells(cells)
    ensures cells[0].Free? ==> forall c :: c in LiveCells(cells) ==> c.base >= cells[0].End()
  {
    TilesOrder(cells[1..], cells[0].End(), end);
    forall c | c in LiveCells(cells) && c.base >= cells[0].End()
      ensures c in LiveCells(cells[1..])
    {
      assert c != cells[0];
      assert c in cells[1..];
    }
    if cells[0].Free? {
      forall c | c in LiveCells(cells)
        ensures c.base >= cells[0].End()
      {
        assert c in cells[1..];
      }
    }
  }

  /** In a coalesced tiling a leading free cell reaches to the first live block, or to the end. */
  lemma FreeReach(cells: Layout, start: nat, end: nat)
    requires LayoutInv(cells, start, end) && cells != [] && cells[0].Free?
    ensures cells[0].End() == end || exists c :: c in LiveCells(cells) && c.base == cells[0].End()
  {
    if |cells| > 1 {
      assert cells[1..][0] == cells[1];
      assert !(cells[0].Free? && cells[0 + 1].Free?);
      assert Tiles(cells[1..], cells[0].End(), end) && cells[1].base == cells[0].End();
      assert cells[1] in LiveCells(cells);
    } else {
      assert cells[1..] == [];
      assert Tiles([], cells[0].End(), end);
    }
  }

  lemma CoalescedTail(cells: Layout)
    requires Coalesced(cells) && cells != []
    ensures Coalesced(cells[1..])
  {
  }

  /** The two leading cells of tilings with the same live blocks agree. */
  lemma SameHead(a: Layout, b: Layout, start: nat, end: nat)
    requires LayoutInv(a, start, end) && LayoutInv(b, start, end) && LiveCells(a) == LiveCells(b)
    requires a != [] && b != []
    ensures a[0] == b[0]
  {
    LiveTail(a, start, end); LiveTail(b, start, end);
    TilesOrder(a, start, end); TilesOrder(b, start, end);
    if a[0].Live? {
      OneCellPerAddress(b, start, end, a[0], b[0]);
    } else {
      FreeReach(a, start, end); FreeReach(b, start, end);
    }
  }

  /** The live blocks determine the whole layout, and so the free list. */
  lemma {:induction false} LayoutUnique(a: Layout, b: Layout, start: nat, end: nat)
    requires LayoutInv(a, start, end) && LayoutInv(b, start, end) && LiveCells(a) == LiveCells(b)
    ensures a == b
  {
    TilesOrder(a, start, end); TilesOrder(b, start, end);
    assert b != [] ==> b[0] in b;
    assert a != [] ==> a[0] in a;
    if a != [] && b != [] {
      SameHead(a, b, start, end);
      LiveTail(a, start, end); LiveTail(b, start, end);
      CoalescedTail(a); CoalescedTail(b);
      LayoutUnique(a[1..], b[1..], a[0].End(), end);
    }
  }

  /** With nothing live, the heap is one free block of the full size. */
  lemma NothingLive(cells: Layout, start: nat, end: nat)
    requires LayoutInv(cells, start, end) && LiveCells(cells) == {}
    requires start < end && start % HEADER == 0 && end % HEADER == 0
    ensures cells == [Free(start, end - start)]
  {
    var whole := [Free(start, end - start)];
    assert Tiles(whole, start, end) by { assert whole[1..] == []; }
    LayoutUnique(cells, whole, start, end);
  }

  // ---------- what the operations keep ----------

  /** The caller's side: a power-of-two alignment that cannot overflow an address. */
  predicate GoodRequest(align: nat, end: nat) {
    0 < align < WORD && IsPow2(align) && end + Align(align) <= WORD
  }

  lemma HeaderIsPow2()
    ensures IsPow2(HEADER)
  {
    assert Pow2(4) == 16;
  }

  /** Alignments of 16 and more are multiples of 16. */
  lemma AlignIsPow2(align: nat, end: nat)
    requires GoodRequest(align, end)
    ensures 0 < Align(align) < WORD && IsPow2(Align(align)) && Align(align) % HEADER == 0
  {
    HeaderIsPow2();
    if align >= HEADER {
      var k: nat :| k < 64 && align == Pow2(k);
      PowMultiple(k);
    }
  }

  lemma {:induction false} PowMultiple(k: nat)
    requires Pow2(k) >= 16
    ensures Pow2(k) % 16 == 0
  {
    if k > 4 {
      PowGrows(k - 1);
      PowMultiple(k - 1);
    } else {
      PowSmall(k);
    }
  }

  lemma {:induction false} PowGrows(k: nat)
    requires k >= 4
    ensures Pow2(k) >= 16
  {
    if k > 4 { PowGrows(k - 1); } else { assert Pow2(4) == 16; }
  }

  lemma PowSmall(k: nat)
    requires k <= 4 && Pow2(k) >= 16
    ensures Pow2(k) == 16
  {
    assert Pow2(4) == 16 && Pow2(3) == 8 && Pow2(2) == 4 && Pow2(1) == 2 && Pow2(0) == 1;
    if k == 0 { } else if k == 1 { } else if k == 2 { } else if k == 3 { } else { assert k == 4; }
  }

  /** Multiples of a power of two that is a multiple of 16 are multiples of 16. */
  lemma MultipleOf16(x: nat, a: nat)
    requires a > 0 && a % 16 == 0 && x % a == 0
    ensures x % 16 == 0
  {
    var q, m := x / a, a / 16;
    assert x == q * a && a == 16 * m;
    assert q * (16 * m) == (q * m) * 16;
    DivUnique(x, 16, q * m, 0);
  }

  /** Where the payload and the tail of a carved block lie. */
  lemma CarveBounds(c: Cell, want: nat, align: nat, end: nat)
    requires CellOk(c) && GoodRequest(align, end) && c.End() <= end && Fits(c, want, align)
    ensures var p := PayloadIn(c, align);
            var t := AlignUp(p + want, HEADER);
            && p % Align(align) == 0 && p % HEADER == 0 && c.base + HEADER <= p
            && t % HEADER == 0 && p + want <= t < p + want + HEADER && t <= c.End()
  {
    hide AlignUp, IsPow2, Align, PayloadIn, CellOk;
    PayloadAligned(c, align, end);
    EndAligned(c);
    RoundedInside(PayloadIn(c, align) + want, c.End());
  }

  lemma PayloadAligned(c: Cell, align: nat, end: nat)
    requires CellOk(c) && GoodRequest(align, end) && c.End() <= end
    ensures var p := PayloadIn(c, align);
            Align(align) > 0 && p % Align(align) == 0 && p % HEADER == 0 && c.base + HEADER <= p
  {
    hide AlignUp, IsPow2, Align, PayloadIn, CellOk;
    PayloadLeast(c, align, end);
    AlignIsPow2(align, end);
    MultipleOf16(PayloadIn(c, align), Align(align));
  }

  lemma EndAligned(c: Cell)
    requires CellOk(c)
    ensures c.End() % HEADER == 0
  {
  }

  lemma RoundedInside(x: nat, end: nat)
    requires x <= end < WORD && end % HEADER == 0
    ensures var t := AlignUp(x, HEADER);
            t % HEADER == 0 && x <= t < x + HEADER && t <= end
  {
    hide AlignUp, IsPow2;
    HeaderIsPow2();
    AlignUpExact(x, HEADER);
  }

  /** The payload is the least aligned address past the header. */
  lemma PayloadLeast(c: Cell, align: nat, end: nat)
    requires CellOk(c) && GoodRequest(align, end) && c.End() <= end
    ensures Align(align) > 0 && PayloadIn(c, align) % Align(align) == 0 && c.base + HEADER <= PayloadIn(c, align)
    ensures forall q: nat :: q % Align(align) == 0 && q >= c.base + HEADER ==> PayloadIn(c, align) <= q
  {
    hide AlignUp, IsPow2;
    AlignIsPow2(align, end);
    AlignUpExact(c.base + HEADER, Align(align));
    forall q: nat | q % Align(align) == 0 && q >= c.base + HEADER
      ensures PayloadIn(c, align) <= q
    {
      NoMultipleBetween(c.base + HEADER, PayloadIn(c, align), q, Align(align));
    }
  }

  /** A free cell fits a request exactly when some aligned payload of that size lies past its header. */
  lemma FitsExact(c: Cell, want: nat, align: nat, end: nat)
    requires CellOk(c) && GoodRequest(align, end) && c.End() <= end && c.Free?
    ensures Align(align) > 0
    ensures Fits(c, want, align) <==>
              exists q: nat :: q % Align(align) == 0 && c.base + HEADER <= q && q + want <= c.End()
  {
    hide PayloadIn, IsPow2;
    PayloadLeast(c, align, end);
  }

  lemma CarveTiles(c: Cell, want: nat, align: nat, end: nat)
    requires CellOk(c) && GoodRequest(align, end) && c.End() <= end && Fits(c, want, align)
    ensures Tiles(Carve(c, want, align), c.base, c.End())
    ensures var k := Carve(c, want, align);
            && 1 <= |k| <= 2 && k[0].Live? && k[0].base == c.base
            && (|k| == 2 ==> k[1].Free?)
  {
    hide AlignUp, PayloadIn, Fits;
    CarveBounds(c, want, align, end);
    var k := Carve(c, want, align);
    if |k| == 2 {
      assert k[1..] == [k[1]] && k[1..][1..] == [];
      assert CellOk(k[1]);
      assert Tiles([k[1]], k[1].base, c.End()) by { assert [k[1]][1..] == []; }
    } else {
      assert k[1..] == [];
    }
    assert CellOk(k[0]) by { FitsEnd(c, want, align); }
  }

  lemma FitsEnd(c: Cell, want: nat, align: nat)
    requires 0 < align < WORD && Fits(c, want, align)
    ensures PayloadIn(c, align) + want <= c.End()
  {
  }

  // ---------- concatenation ----------

  lemma CoalescedConcat(a: Layout, b: Layout)
    requires Coalesced(a) && Coalesced(b)
    requires a == [] || b == [] || a[|a| - 1].Live? || b[0].Live?
    ensures Coalesced(a + b)
  {
  }

  lemma CoalescedSplit(a: Layout, b: Layout)
    requires Coalesced(a + b)
    ensures Coalesced(a) && Coalesced(b)
    ensures a == [] || b == [] || a[|a| - 1].Live? || b[0].Live?
  {
    var ab := a + b;
    forall i | 0 <= i < |a| - 1
      ensures !(a[i].Free? && a[i + 1].Free?)
    {
      assert !(ab[i].Free? && ab[i + 1].Free?);
    }
    forall i | 0 <= i < |b| - 1
      ensures !(b[i].Free? && b[i + 1].Free?)
    {
      assert !(ab[|a| + i].Free? && ab[|a| + i + 1].Free?);
    }
    if a != [] && b != [] {
      assert !(ab[|a| - 1].Free? && ab[|a| - 1 + 1].Free?);
    }
  }

  lemma LiveConcat(a: Layout, b: Layout)
    ensures LiveCells(a + b) == LiveCells(a) + LiveCells(b)
  {
    assert forall c :: c in a + b <==> c in a || c in b;
  }

  lemma {:induction false} BytesConcat(a: Layout, b: Layout)
    ensures LiveBytes(a + b) == LiveBytes(a) + LiveBytes(b)
  {
    if a == [] {
      assert a + b == b;
    } else {
      BytesConcat(a[1..], b);
      assert (a + b)[1..] == a[1..] + b;
    }
  }

  /** Replacing the cells `mid` of a layout by `mid'` over the same range. */
  lemma Replace(pre: Layout, mid: Layout, mid': Layout, post: Layout, start: nat, end: nat)
    requires LayoutInv(pre + mid + post, start, end) && mid != [] && mid' != []
    requires forall s, e :: Tiles(mid, s, e) ==> Tiles(mid', s, e)
    requires Coalesced(mid')
    requires pre == [] || pre[|pre| - 1].Live? || mid'[0].Live?
    requires post == [] || post[0].Live? || mid'[|mid'| - 1].Live?
    ensures LayoutInv(pre + mid' + post, start, end)
    ensures LiveCells(pre + mid' + post) == LiveCells(pre) + LiveCells(mid') + LiveCells(post)
    ensures LiveBytes(pre + mid' + post) + LiveBytes(mid) == LiveBytes(pre + mid + post) + LiveBytes(mid')
  {
    hide Coalesced, Tiles, LiveCells, LiveBytes;
    var m2 := TilesSplit(pre + mid, post, start, end);
    var m1 := TilesSplit(pre, mid, start, m2);
    TilesConcat(pre, mid', start, m1, m2);
    TilesConcat(pre + mid', post, start, m2, end);
    CoalescedSplit(pre + mid, post);
    CoalescedSplit(pre, mid);
    CoalescedConcat(pre, mid');
    CoalescedConcat(pre + mid', post);
    LiveConcat(pre, mid'); LiveConcat(pre + mid', post);
    BytesConcat(pre, mid'); BytesConcat(pre + mid', post);
    BytesConcat(pre, mid); BytesConcat(pre + mid, post);
  }

  lemma OneTile(c: Cell, s: nat, e: nat)
    ensures Tiles([c], s, e) <==> c.base == s && CellOk(c) && c.End() == e
  {
    assert [c][1..] == [];
    assert Tiles([], c.End(), e) <==> c.End() == e;
  }

  // ---------- allocation ----------

  /** First fit, spelled out. */
  lemma {:induction false} AllocateFirst(cells: Layout, want: nat, align: nat)
    returns (i: nat)
    requires 0 < align < WORD
    ensures match Allocate(cells, want, align)
            case NoSpace => forall c :: c in cells ==> !Fits(c, want, align)
            case Granted(cells', payload) =>
              && i < |cells| && Fits(cells[i], want, align) && payload == PayloadIn(cells[i], align)
              && (forall j :: 0 <= j < i ==> !Fits(cells[j], want, align))
              && cells' == cells[..i] + Carve(cells[i], want, align) + cells[i + 1..]
  {
    hide Fits, Carve, PayloadIn;
    i := 0;
    if cells != [] {
      if Fits(cells[0], want, align) {
        assert cells[..0] == [];
      } else {
        var j := AllocateFirst(cells[1..], want, align);
        i := j + 1;
        if Allocate(cells[1..], want, align).Granted? {
          assert cells[..i] == [cells[0]] + cells[1..][..j];
          assert cells[i + 1..] == cells[1..][j + 1..];
          forall k | 0 <= k < i
            ensures !Fits(cells[k], want, align)
          {
            if k > 0 { assert cells[k] == cells[1..][k - 1]; }
          }
        }
      }
    }
  }

  /**
   Block `live`, carved from `c`, ends at the first multiple of 16 behind its data if that leaves at
   least 32 bytes, and takes all of `c` otherwise.
   */
  predicate Tight(c: Cell, live: Cell)
    requires live.Live?
  {
    var needed := (live.payload + live.want + 15) / 16 * 16;
    live.End() == if c.End() >= needed + 32 then needed else c.End()
  }

  /**
   `heap_alloc` fails exactly when no free block can hold the aligned payload; otherwise it carves
   the lowest one that can, at its lowest aligned address, keeps the tiling coalesced, and adds exactly
   one live block, which takes no more of the free block than it must.
   */
  lemma AllocateExact(cells: Layout, want: nat, align: nat, start: nat, end: nat) returns (i: nat)
    requires LayoutInv(cells, start, end) && GoodRequest(align, end)
    ensures match Allocate(cells, want, align)
            case NoSpace => forall c :: c in cells ==> !Fits(c, want, align)
            case Granted(cells', payload) =>
              && i < |cells| && i < |cells'| && Fits(cells[i], want, align)
              && (forall j :: 0 <= j < i ==> !Fits(cells[j], want, align))
              && LayoutInv(cells', start, end)
              && cells'[i].Live? && cells'[i].payload == payload && cells'[i].want == want
              && cells'[i].base == cells[i].base
              && payload % Align(align) == 0 && cells[i].base + HEADER <= payload
              && (forall q: nat :: q % Align(align) == 0 && cells[i].base + HEADER <= q ==> payload <= q)
              && Tight(cells[i], cells'[i])
              && cells'[i] !in LiveCells(cells)
              && LiveCells(cells') == LiveCells(cells) + {cells'[i]}
              && LiveBytes(cells') == LiveBytes(cells) + cells'[i].size
  {
    hide Fits, Carve, PayloadIn, IsPow2, Coalesced;
    i := AllocateFirst(cells, want, align);
    if Allocate(cells, want, align).Granted? {
      var pre, c, post := cells[..i], cells[i], cells[i + 1..];
      assert cells == pre + [c] + post;
      TilesOrder(cells, start, end);
      GrantKeeps(pre, c, post, want, align, start, end);
      var k := Carve(c, want, align);
      assert (pre + k + post)[i] == k[0];
      CarvePayload(c, want, align, end);
      PayloadLeast(c, align, end);
      FitsFree(c, want, align);
      if k[0] in LiveCells(cells) {
        OneCellPerAddress(cells, start, end, k[0], c);
      }
    }
  }

  lemma FitsFree(c: Cell, want: nat, align: nat)
    requires 0 < align < WORD && Fits(c, want, align)
    ensures c.Free?
  {
  }

  lemma CarvePayload(c: Cell, want: nat, align: nat, end: nat)
    requires CellOk(c) && GoodRequest(align, end) && c.End() <= end && Fits(c, want, align)
    ensures var k := Carve(c, want, align);
            && |k| >= 1 && k[0].Live? && k[0].payload == PayloadIn(c, align) && k[0].want == want && k[0].base == c.base
            && k[0].payload % Align(align) == 0 && Tight(c, k[0])
  {
    hide PayloadIn, Fits, AlignUp;
    CarveBounds(c, want, align, end);
    var p := PayloadIn(c, align);
    RoundedTail(p + want, AlignUp(p + want, HEADER));
  }

  lemma RoundedTail(x: nat, t: nat)
    requires t % HEADER == 0 && x <= t < x + HEADER
    ensures (x + 15) / 16 * 16 == t
  {
    DivUnique(x + 15, 16, t / 16, x + 15 - t);
  }

  lemma GrantKeeps(pre: Layout, c: Cell, post: Layout, want: nat, align: nat, start: nat, end: nat)
    requires LayoutInv(pre + [c] + post, start, end) && GoodRequest(align, end) && CellOk(c) && c.End() <= end
    requires Fits(c, want, align)
    ensures var k := Carve(c, want, align);
            var cells' := pre + k + post;
            && |k| >= 1 && k[0].Live?
            && LayoutInv(cells', start, end)
            && LiveCells(cells') == LiveCells(pre + [c] + post) + {k[0]}
            && LiveBytes(cells') == LiveBytes(pre + [c] + post) + k[0].size
  {
    hide Fits, Carve, IsPow2;
    CarveTiles(c, want, align, end);
    FitsFree(c, want, align);
    var k := Carve(c, want, align);
    forall s, e | Tiles([c], s, e)
      ensures Tiles(k, s, e)
    {
      OneTile(c, s, e);
    }
    assert Coalesced(k);
    CoalescedSplit(pre + [c], post);
    CoalescedSplit(pre, [c]);
    Replace(pre, [c], k, post, start, end);
    LiveConcat(pre, [c]); LiveConcat(pre + [c], post);
    assert LiveCells([c]) == {};
    assert LiveCells(k) == {k[0]};
    assert LiveBytes([c]) == 0 by { assert [c][1..] == []; }
    CarveBytes(k);
  }

  lemma CarveBytes(k: Layout)
    requires 1 <= |k| <= 2 && k[0].Live? && (|k| == 2 ==> k[1].Free?)
    ensures LiveBytes(k) == k[0].size
  {
    if |k| == 2 {
      assert k[1..] == [k[1]] && [k[1]][1..] == [];
      assert LiveBytes([k[1]]) == 0;
    } else {
      assert k[1..] == [];
    }
  }

  // ---------- freeing ----------

  lemma {:induction false} MergedTile(l: Layout, c: Cell, r: Layout, s: nat, e: nat)
    requires Tiles(l + [c] + r, s, e) && |l| <= 1 && |r| <= 1
    ensures Tiles([Merged(l, c, r)], s, e)
  {
    hide Tiles;
    var m2 := TilesSplit(l + [c], r, s, e);
    var m1 := TilesSplit(l, [c], s, m2);
    OneTile(c, m1, m2);
    if l == [] { NoTile(s, m1); } else { assert l == [l[0]]; OneTile(l[0], s, m1); SizesAdd(l[0].size, c.size); }
    if r == [] { NoTile(m2, e); } else { assert r == [r[0]]; OneTile(r[0], m2, e); SizesAdd(c.size, r[0].size); }
    if l != [] && r != [] { SizesAdd(l[0].size + c.size, r[0].size); }
    OneTile(Merged(l, c, r), s, e);
  }

  lemma NoTile(s: nat, e: nat)
    requires Tiles([], s, e)
    ensures s == e
  {
  }

  lemma SizesAdd(x: nat, y: nat)
    requires x % HEADER == 0 && y % HEADER == 0
    ensures (x + y) % HEADER == 0
  {
    var p, q := x / HEADER, y / HEADER;
    DivUnique(x + y, HEADER, p + q, 0);
  }

  lemma MergedLive(l: Layout, c: Cell, r: Layout)
    requires |l| <= 1 && |r| <= 1 && c.Live? && (l != [] ==> l[0].Free?) && (r != [] ==> r[0].Free?)
    ensures LiveCells(l + [c] + r) == {c} && LiveBytes(l + [c] + r) == c.size
  {
    LiveConcat(l, [c]); LiveConcat(l + [c], r);
    BytesConcat(l, [c]); BytesConcat(l + [c], r);
    assert [c][1..] == [];
    if l != [] { assert l == [l[0]] && l[1..] == []; }
    if r != [] { assert r == [r[0]] && r[1..] == []; }
    assert LiveCells(l) == {} && LiveCells(r) == {} && LiveCells([c]) == {c};
  }

  /** `heap_free` keeps the tiling coalesced and removes exactly the one live block. */
  lemma FreeBetweenExact(pre: Layout, c: Cell, post: Layout, start: nat, end: nat)
    requires LayoutInv(pre + [c] + post, start, end) && c.Live?
    ensures var cells, cells' := pre + [c] + post, FreeBetween(pre, c, post);
            && LayoutInv(cells', start, end)
            && LiveCells(cells') == LiveCells(cells) - {c}
            && LiveBytes(cells') + c.size == LiveBytes(cells)
  {
    hide Coalesced, LeftFree, RightFree, LeftRest, RightRest, Merged;
    var l, r := LeftFree(pre), RightFree(post);
    CoalescedSplit(pre + [c], post);
    CoalescedSplit(pre, [c]);
    LeftSplit(pre);
    RightSplit(post);
    var pre', post' := LeftRest(pre), RightRest(post);
    var mid, f := l + [c] + r, Merged(l, c, r);
    assert pre + [c] + post == pre' + mid + post';
    forall s, e | Tiles(mid, s, e)
      ensures Tiles([f], s, e)
    {
      MergedTile(l, c, r, s, e);
    }
    OneCoalesced(f);
    Replace(pre', mid, [f], post', start, end);
    MergedLive(l, c, r);
    OneFree(f, l, c, r);
    LiveConcat(pre', mid); LiveConcat(pre' + mid, post');
    OnlyOnce(pre', mid, post', c, start, end);
  }

  lemma OneFree(f: Cell, l: Layout, c: Cell, r: Layout)
    requires f == Merged(l, c, r)
    ensures LiveCells([f]) == {} && LiveBytes([f]) == 0
  {
    assert [f][1..] == [];
  }

  lemma FreeAtExact(cells: Layout, i: nat, start: nat, end: nat)
    requires LayoutInv(cells, start, end) && i < |cells| && cells[i].Live?
    ensures LayoutInv(FreeAt(cells, i), start, end)
    ensures LiveCells(FreeAt(cells, i)) == LiveCells(cells) - {cells[i]}
    ensures LiveBytes(FreeAt(cells, i)) + cells[i].size == LiveBytes(cells)
  {
    hide Coalesced, FreeBetween;
    assert cells == cells[..i] + [cells[i]] + cells[i + 1..];
    FreeBetweenExact(cells[..i], cells[i], cells[i + 1..], start, end);
  }

  lemma OneCoalesced(f: Cell)
    ensures Coalesced([f])
  {
  }

  /** Beyond a free neighbour there is a live cell or the edge of the heap. */
  lemma LeftSplit(pre: Layout)
    requires Coalesced(pre)
    ensures |LeftFree(pre)| <= 1 && pre == LeftRest(pre) + LeftFree(pre)
    ensures LeftFree(pre) != [] ==> LeftFree(pre)[0].Free?
    ensures LeftRest(pre) == [] || LeftRest(pre)[|LeftRest(pre)| - 1].Live?
  {
    if |pre| >= 2 { assert !(pre[|pre| - 2].Free? && pre[|pre| - 2 + 1].Free?); }
  }

  lemma RightSplit(post: Layout)
    requires Coalesced(post)
    ensures |RightFree(post)| <= 1 && post == RightFree(post) + RightRest(post)
    ensures RightFree(post) != [] ==> RightFree(post)[0].Free?
    ensures RightRest(post) == [] || RightRest(post)[0].Live?
  {
    if |post| >= 2 { assert !(post[0].Free? && post[0 + 1].Free?); }
  }

  /** A cell of the middle part occurs in neither outer part. */
  lemma OnlyOnce(pre: Layout, mid: Layout, post: Layout, c: Cell, start: nat, end: nat)
    requires Tiles(pre + mid + post, start, end) && c in mid
    ensures c !in pre && c !in post
  {
    var m2 := TilesSplit(pre + mid, post, start, end);
    var m1 := TilesSplit(pre, mid, start, m2);
    TilesOrder(pre, start, m1); TilesOrder(mid, m1, m2); TilesOrder(post, m2, end);
  }

  /** Freeing what was just allocated restores the identical layout. */
  lemma AllocateThenFree(cells: Layout, want: nat, align: nat, start: nat, end: nat) returns (i: nat)
    requires LayoutInv(cells, start, end) && GoodRequest(align, end) && Allocate(cells, want, align).Granted?
    ensures var g := Allocate(cells, want, align);
            i < |g.cells| && g.cells[i].Live? && g.cells[i].payload == g.payload && FreeAt(g.cells, i) == cells
  {
    hide FreeAt, Coalesced, Allocate, IsPow2;
    i := AllocateExact(cells, want, align, start, end);
    var g := Allocate(cells, want, align);
    FreeAtExact(g.cells, i, start, end);
    LayoutUnique(FreeAt(g.cells, i), cells, start, end);
  }

  // ---------- runs ----------

  datatype Op = Alloc(want: nat, align: nat) | FreeBlock(payload: nat)

  /** Which cell a payload belongs to. */
  predicate IsPayload(cells: Layout, i: nat, payload: nat) {
    i < |cells| && cells[i].Live? && cells[i].payload == payload
  }

  /** One operation on the layout; freeing takes the address of a live payload. */
  ghost predicate Step(cells: Layout, op: Op, cells': Layout, end: nat) {
    match op
    case Alloc(want, align) =>
      && GoodRequest(align, end)
      && cells' == (match Allocate(cells, want, align) case NoSpace => cells case Granted(c, _) => c)
    case FreeBlock(payload) =>
      exists i :: IsPayload(cells, i, payload) && cells' == FreeAt(cells, i)
  }

  ghost predicate IsRun(trace: seq<Layout>, ops: seq<Op>, end: nat) {
    && |trace| == |ops| + 1
    && forall k :: 0 <= k < |ops| ==> Step(trace[k], ops[k], trace[k + 1], end)
  }

  /**
   Every layout of every run is a coalesced tiling, and is a function of its live blocks alone: runs
   that end with the same blocks live end with the same free list, whatever their order of frees.
   */
  lemma {:induction false} RunsKeep(trace: seq<Layout>, ops: seq<Op>, k: nat, start: nat, end: nat)
    requires IsRun(trace, ops, end) && k < |trace|
    requires start + HEADER <= end && start % HEADER == 0 && end % HEADER == 0
    requires trace[0] == [Free(start, end - start)]
    ensures LayoutInv(trace[k], start, end)
    ensures forall other: Layout :: LayoutInv(other, start, end) && LiveCells(other) == LiveCells(trace[k]) ==>
              other == trace[k]
    ensures LiveCells(trace[k]) == {} ==> trace[k] == [Free(start, end - start)]
  {
    hide FreeAt, Allocate, Coalesced, IsPow2;
    if k == 0 {
      OneTile(trace[0][0], start, end);
      OneCoalesced(trace[0][0]);
    } else {
      RunsKeep(trace, ops, k - 1, start, end);
      var cells, op := trace[k - 1], ops[k - 1];
      assert Step(cells, op, trace[k], end);
      match op {
        case Alloc(want, align) =>
          var i := AllocateExact(cells, want, align, start, end);
        case FreeBlock(payload) =>
          var i :| IsPayload(cells, i, payload) && trace[k] == FreeAt(cells, i);
          FreeAtExact(cells, i, start, end);
      }
    }
    forall other: Layout | LayoutInv(other, start, end) && LiveCells(other) == LiveCells(trace[k])
      ensures other == trace[k]
    {
      LayoutUnique(other, trace[k], start, end);
    }
    if LiveCells(trace[k]) == {} { NothingLive(trace[k], start, end); }
  }
}
