/**
 How a heap layout is written into the managed memory (`kernel/src/heap.rs`): each block starts with
 its size, a free block's second word links to the next free block, and the word before a payload
 holds the base of its block.  Memory is a map from addresses to 64-bit words.
 */
module HeapMemory {
  import opened Bits
  import opened HeapLayout

  type Memory = map<nat, nat>

  function At(mem: Memory, a: nat): nat {
    if a in mem then mem[a] else 0
  }

  /** The base of the first free cell, or `tail`. */
  function NextFree(cells: Layout, tail: nat): nat {
    if cells == [] then tail
    else if cells[0].Free? then cells[0].base
    else NextFree(cells[1..], tail)
  }

  /** The base of the last free cell, or 0. */
  function LastFree(cells: Layout): nat {
    if cells == [] then 0
    else if cells[|cells| - 1].Free? then cells[|cells| - 1].base
    else LastFree(cells[..|cells| - 1])
  }

  /** Headers, links and back-pointers of all cells; the last free cell links to `tail`. */
  predicate Linked(mem: Memory, cells: Layout, tail: nat) {
    cells != [] ==>
    && At(mem, cells[0].base) == cells[0].size
    && (cells[0].Free? ==> At(mem, cells[0].base + 8) == NextFree(cells[1..], tail))
    && (cells[0].Live? ==> cells[0].payload >= 8 && At(mem, cells[0].payload - 8) == cells[0].base)
    && Linked(mem, cells[1..], tail)
  }

  /** The words of a cell that the allocator relies on. */
  predicate Matters(c: Cell, a: int) {
    a == c.base || (c.Free? && a == c.base + 8) || (c.Live? && a == c.payload - 8)
  }

  lemma {:induction false} LinkedFrame(mem: Memory, mem': Memory, cells: Layout, tail: nat)
    requires Linked(mem, cells, tail)
    requires forall c, a: nat :: c in cells && Matters(c, a) ==> At(mem', a) == At(mem, a)
    ensures Linked(mem', cells, tail)
  {
    if cells != [] {
      var c := cells[0];
      assert c in cells;
      assert Matters(c, c.base) && (c.Free? ==> Matters(c, c.base + 8)) && (c.Live? ==> Matters(c, c.payload - 8));
      assert forall d :: d in cells[1..] ==> d in cells;
      LinkedFrame(mem, mem', cells[1..], tail);
    }
  }

  lemma {:induction false} NextFreeConcat(a: Layout, b: Layout, tail: nat)
    ensures NextFree(a + b, tail) == NextFree(a, NextFree(b, tail))
  {
    if a == [] {
      assert a + b == b;
    } else {
      assert (a + b)[1..] == a[1..] + b;
      NextFreeConcat(a[1..], b, tail);
    }
  }

  lemma {:induction false} LinkedConcat(mem: Memory, a: Layout, b: Layout, tail: nat)
    ensures Linked(mem, a + b, tail) <==> Linked(mem, a, NextFree(b, tail)) && Linked(mem, b, tail)
  {
    if a == [] {
      assert a + b == b;
    } else {
      assert (a + b)[1..] == a[1..] + b;
      LinkedConcat(mem, a[1..], b, tail);
      NextFreeConcat(a[1..], b, tail);
    }
  }

  lemma {:induction false} LastFreeCons(c: Cell, rest: Layout)
    ensures LastFree([c] + rest) == if LastFree(rest) != 0 then LastFree(rest) else if c.Free? then c.base else 0
    requires forall d :: d in rest ==> d.base > 0
  {
    var all := [c] + rest;
    if rest == [] {
      assert all == [c] && all[..0] == [];
    } else {
      assert all[|all| - 1] == rest[|rest| - 1];
      assert all[..|all| - 1] == [c] + rest[..|rest| - 1];
      assert rest[|rest| - 1] in rest;
      assert forall d :: d in rest[..|rest| - 1] ==> d in rest;
      LastFreeCons(c, rest[..|rest| - 1]);
    }
  }

  lemma {:induction false} NoFreeCells(cells: Layout, t: nat)
    requires (forall d :: d in cells ==> d.base > 0) && LastFree(cells) == 0
    ensures NextFree(cells, t) == t && forall d :: d in cells ==> d.Live?
  {
    if cells != [] {
      assert cells == [cells[0]] + cells[1..];
      assert cells[0] in cells;
      LastFreeCons(cells[0], cells[1..]);
      NoFreeCells(cells[1..], t);
    }
  }

  lemma {:induction false} SomeFreeCell(cells: Layout, t: nat, t': nat)
    requires (forall d :: d in cells ==> d.base > 0) && LastFree(cells) != 0
    ensures NextFree(cells, t) == NextFree(cells, t')
    ensures exists d :: d in cells && d.Free? && d.base == LastFree(cells)
  {
    if cells != [] {
      assert cells == [cells[0]] + cells[1..];
      assert cells[0] in cells;
      LastFreeCons(cells[0], cells[1..]);
      if LastFree(cells[1..]) != 0 {
        SomeFreeCell(cells[1..], t, t');
        var d :| d in cells[1..] && d.Free? && d.base == LastFree(cells[1..]);
        assert d in cells;
      }
    }
  }

  /** Re-linking the last free cell makes a linked run lead elsewhere. */
  lemma {:induction false} Retarget(mem: Memory, mem': Memory, cells: Layout, t: nat, t': nat, start: nat, end: nat)
    requires Tiles(cells, start, end) && start > 0 && Linked(mem, cells, t)
    requires LastFree(cells) != 0 ==> At(mem', LastFree(cells) + 8) == t'
    requires forall a: nat :: start <= a < end && (LastFree(cells) == 0 || a != LastFree(cells) + 8) ==>
               At(mem', a) == At(mem, a)
    ensures Linked(mem', cells, t')
    decreases |cells|
  {
    if cells != [] {
      var c, rest := cells[0], cells[1..];
      TilesOrder(rest, c.End(), end);
      assert cells == [c] + rest;
      LastFreeCons(c, rest);
      if LastFree(rest) != 0 {
        SomeFreeCell(rest, t, t');
        Retarget(mem, mem', rest, t, t', c.End(), end);
      } else {
        NoFreeCells(rest, t);
        NoFreeCells(rest, t');
        LiveOnlyFrame(mem, mem', rest, t, t', c.End(), end);
      }
    }
  }

  lemma {:induction false} LiveOnlyFrame(mem: Memory, mem': Memory, cells: Layout, t: nat, t': nat, start: nat,
                                         end: nat)
    requires Tiles(cells, start, end) && Linked(mem, cells, t) && forall d :: d in cells ==> d.Live?
    requires forall a: nat :: start <= a < end ==> At(mem', a) == At(mem, a)
    ensures Linked(mem', cells, t')
    decreases |cells|
  {
    if cells != [] {
      assert cells[0] in cells && forall d :: d in cells[1..] ==> d in cells;
      TilesOrder(cells[1..], cells[0].End(), end);
      LiveOnlyFrame(mem, mem', cells[1..], t, t', cells[0].End(), end);
    }
  }

  /** Memory outside the cells does not matter. */
  lemma RangeFrame(mem: Memory, mem': Memory, cells: Layout, tail: nat, start: nat, end: nat)
    requires Tiles(cells, start, end) && Linked(mem, cells, tail)
    requires forall a: nat :: start <= a < end ==> At(mem', a) == At(mem, a)
    ensures Linked(mem', cells, tail)
  {
    TilesOrder(cells, start, end);
    forall c, a: nat | c in cells && Matters(c, a)
      ensures At(mem', a) == At(mem, a)
    {
      assert start <= c.base && c.End() <= end && CellOk(c);
    }
    LinkedFrame(mem, mem', cells, tail);
  }

  lemma LastFreeInside(cells: Layout, start: nat, end: nat)
    requires Tiles(cells, start, end) && start > 0 && LastFree(cells) != 0
    ensures start <= LastFree(cells) && LastFree(cells) + HEADER <= end && LastFree(cells) % HEADER == 0
    ensures exists d :: d in cells && d.Free? && d.base == LastFree(cells)
  {
    hide LastFree;
    TilesOrder(cells, start, end);
    SomeFreeCell(cells, 0, 0);
    var d :| d in cells && d.Free? && d.base == LastFree(cells);
    assert CellOk(d);
  }

  /** Replacing `mid` by `mid'` in a linked layout: only `mid`'s range and the link into it change. */
  lemma ReplaceLinked(mem: Memory, mem': Memory, pre: Layout, mid: Layout, mid': Layout, post: Layout, s: nat,
                      a: nat, b: nat, e: nat)
    requires Tiles(pre, s, a) && Tiles(mid, a, b) && Tiles(mid', a, b) && Tiles(post, b, e) && s > 0
    requires Linked(mem, pre + mid + post, 0)
    requires Linked(mem', mid', NextFree(post, 0))
    requires LastFree(pre) != 0 ==> At(mem', LastFree(pre) + 8) == NextFree(mid' + post, 0)
    requires forall x: nat :: s <= x < a && (LastFree(pre) == 0 || x != LastFree(pre) + 8) ==> At(mem', x) == At(mem, x)
    requires forall x: nat :: b <= x < e ==> At(mem', x) == At(mem, x)
    ensures Linked(mem', pre + mid' + post, 0)
  {
    assert pre + mid + post == pre + (mid + post) && pre + mid' + post == pre + (mid' + post);
    LinkedConcat(mem, pre, mid + post, 0);
    LinkedConcat(mem, mid, post, 0);
    Retarget(mem, mem', pre, NextFree(mid + post, 0), NextFree(mid' + post, 0), s, a);
    RangeFrame(mem, mem', post, 0, b, e);
    LinkedConcat(mem', mid', post, 0);
    LinkedConcat(mem', pre, mid' + post, 0);
  }

  /** What memory holds for two adjacent free cells. */
  lemma AdjacentFree(mem: Memory, pre: Layout, x: Cell, y: Cell, post: Layout, start: nat, end: nat)
    returns (a: nat, b: nat)
    requires Tiles(pre + [x, y] + post, start, end) && start > 0 && x.Free? && y.Free?
    requires Linked(mem, pre + [x, y] + post, 0)
    ensures Tiles(pre, start, a) && Tiles([x, y], a, b) && Tiles(post, b, end)
    ensures Tiles([Cell.Free(x.base, x.size + y.size)], a, b)
    ensures At(mem, x.base) == x.size && At(mem, y.base) == y.size && x.base == a && y.base == x.End() && CellOk(x)
    ensures At(mem, x.base + 8) == y.base && At(mem, y.base + 8) == NextFree(post, 0)
    ensures LastFree(pre) != 0 ==> At(mem, LastFree(pre) + 8) == x.base
  {
    hide Tiles, Linked, LastFree, CellOk;
    b := TilesSplit(pre + [x, y], post, start, end);
    a := TilesSplit(pre, [x, y], start, b);
    PairTiles(x, y, a, b);
    assert pre + [x, y] + post == pre + ([x, y] + post);
    LinkedConcat(mem, pre, [x, y] + post, 0);
    LinkedConcat(mem, [x, y], post, 0);
    PairLinked(mem, x, y, NextFree(post, 0));
    if LastFree(pre) != 0 {
      assert [x, y] + post == [x] + ([y] + post);
      PreLink(mem, pre, x, [y] + post, start, a);
    }
  }

  lemma PairTiles(x: Cell, y: Cell, a: nat, b: nat)
    requires Tiles([x, y], a, b) && x.Free? && y.Free?
    ensures x.base == a && y.base == x.End() && CellOk(x)
    ensures Tiles([Cell.Free(x.base, x.size + y.size)], a, b)
  {
    assert [x, y][1..] == [y] && [y][1..] == [];
    OneTile(y, x.End(), b);
    OneTile(Cell.Free(x.base, x.size + y.size), a, b);
  }

  lemma PairLinked(mem: Memory, x: Cell, y: Cell, t: nat)
    requires Linked(mem, [x, y], t) && x.Free? && y.Free?
    ensures At(mem, x.base) == x.size && At(mem, y.base) == y.size
    ensures At(mem, x.base + 8) == y.base && At(mem, y.base + 8) == t
  {
    assert [x, y][1..] == [y] && [y][1..] == [];
  }

  lemma FreeLinked(mem: Memory, m: Cell, t: nat)
    requires m.Free? && At(mem, m.base) == m.size && At(mem, m.base + 8) == t
    ensures Linked(mem, [m], t)
  {
    assert [m][1..] == [];
  }

  /** Two adjacent free cells `x` and `y`: growing `x` over `y` and taking over its link. */
  lemma MergeLinked(mem: Memory, pre: Layout, x: Cell, y: Cell, post: Layout, start: nat, end: nat)
    requires Tiles(pre + [x, y] + post, start, end) && start > 0 && x.Free? && y.Free?
    requires Linked(mem, pre + [x, y] + post, 0)
    ensures var m := Cell.Free(x.base, x.size + y.size);
            var mem' := mem[x.base := At(mem, x.base) + At(mem, y.base)][x.base + 8 := At(mem, y.base + 8)];
            && Linked(mem', pre + [m] + post, 0)
            && Tiles(pre + [m] + post, start, end)
            && At(mem, x.base) == x.size && At(mem, y.base) == y.size
            && y.base == x.End() && At(mem, x.base + 8) == y.base && At(mem, y.base + 8) == NextFree(post, 0)
  {
    hide Tiles, Linked, LastFree;
    var m := Cell.Free(x.base, x.size + y.size);
    var mem' := mem[x.base := At(mem, x.base) + At(mem, y.base)][x.base + 8 := At(mem, y.base + 8)];
    var a, b := AdjacentFree(mem, pre, x, y, post, start, end);
    TilesConcat(pre, [m], start, a, b);
    TilesConcat(pre + [m], post, start, b, end);
    TilesOrder(pre, start, a); TilesOrder([x, y], a, b);
    assert y in [x, y];
    FreeLinked(mem', m, NextFree(post, 0));
    NextFreeConcat([m], post, 0);
    if LastFree(pre) != 0 { LastFreeInside(pre, start, a); }
    ReplaceLinked(mem, mem', pre, [x, y], [m], post, start, a, b, end);
  }

  /** The last free cell before the free cell `x` links to `x`. */
  lemma {:induction false} PreLink(mem: Memory, pre: Layout, x: Cell, post: Layout, start: nat, mid: nat)
    requires Tiles(pre, start, mid) && start > 0 && x.Free? && LastFree(pre) != 0
    requires Linked(mem, pre, NextFree([x] + post, 0))
    ensures At(mem, LastFree(pre) + 8) == x.base
    decreases |pre|
  {
    var c, rest := pre[0], pre[1..];
    assert pre == [c] + rest;
    TilesOrder(rest, c.End(), mid);
    LastFreeCons(c, rest);
    if LastFree(rest) != 0 {
      PreLink(mem, rest, x, post, c.End(), mid);
    } else {
      NoFreeCells(rest, NextFree([x] + post, 0));
    }
  }

  // ---------- the two operations on memory ----------

  lemma CarvedHeaders(mem: Memory, k: Layout, t: nat)
    requires 1 <= |k| <= 2 && k[0].Live? && k[0].payload >= 8 && (|k| == 2 ==> k[1].Free?)
    requires At(mem, k[0].base) == k[0].size && At(mem, k[0].payload - 8) == k[0].base
    requires |k| == 2 ==> At(mem, k[1].base) == k[1].size && At(mem, k[1].base + 8) == t
    ensures Linked(mem, k, t)
  {
  }

  /** Carving a live block out of the free cell `c`. */
  lemma CarveLinked(mem: Memory, mem': Memory, pre: Layout, c: Cell, post: Layout, want: nat, align: nat, start: nat,
                    end: nat)
    requires Tiles(pre + [c] + post, start, end) && start > 0 && GoodRequest(align, end)
    requires Fits(c, want, align) && CellOk(c) && c.End() <= end && Linked(mem, pre + [c] + post, 0)
    requires var k := Carve(c, want, align);
             && At(mem', c.base) == k[0].size && k[0].Live? && k[0].payload >= 8 && At(mem', k[0].payload - 8) == c.base
             && (|k| == 2 ==> At(mem', k[1].base) == k[1].size && At(mem', k[1].base + 8) == NextFree(post, 0))
             && (LastFree(pre) != 0 ==> At(mem', LastFree(pre) + 8) == NextFree(k[1..] + post, 0))
    requires forall x: nat :: !(c.base <= x < c.End()) && (LastFree(pre) == 0 || x != LastFree(pre) + 8) ==>
               At(mem', x) == At(mem, x)
    ensures Linked(mem', pre + Carve(c, want, align) + post, 0)
  {
    hide Carve, Fits, LastFree, IsPow2, Tiles, Linked, NextFree;
    CarveTiles(c, want, align, end);
    var k := Carve(c, want, align);
    var b := TilesSplit(pre + [c], post, start, end);
    var a := TilesSplit(pre, [c], start, b);
    OneTile(c, a, b);
    if LastFree(pre) != 0 { LastFreeInside(pre, start, a); }
    LiveHead(k, post);
    CarvedHeaders(mem', k, NextFree(post, 0));
    ReplaceLinked(mem, mem', pre, [c], k, post, start, a, b, end);
  }

  lemma LiveHead(k: Layout, post: Layout)
    requires k != [] && k[0].Live?
    ensures NextFree(k + post, 0) == NextFree(k[1..] + post, 0)
  {
    assert (k + post)[1..] == k[1..] + post;
  }

  /** Turning the live cell `c` into a free one and linking it in, before any merging. */
  lemma UncarveLinked(mem: Memory, mem': Memory, pre: Layout, c: Cell, post: Layout, start: nat, end: nat)
    requires Tiles(pre + [c] + post, start, end) && start > 0 && c.Live? && Linked(mem, pre + [c] + post, 0)
    requires At(mem', c.base) == c.size && At(mem', c.base + 8) == NextFree(post, 0)
    requires LastFree(pre) != 0 ==> At(mem', LastFree(pre) + 8) == c.base
    requires forall x: nat :: x != c.base && x != c.base + 8 && (LastFree(pre) == 0 || x != LastFree(pre) + 8) ==>
               At(mem', x) == At(mem, x)
    ensures var f := Cell.Free(c.base, c.size);
            Linked(mem', pre + [f] + post, 0) && Tiles(pre + [f] + post, start, end)
  {
    hide LastFree;
    var f := Cell.Free(c.base, c.size);
    var b := TilesSplit(pre + [c], post, start, end);
    var a := TilesSplit(pre, [c], start, b);
    OneTile(c, a, b);
    OneTile(f, a, b);
    TilesConcat(pre, [f], start, a, b);
    TilesConcat(pre + [f], post, start, b, end);
    if LastFree(pre) != 0 { LastFreeInside(pre, start, a); }
    assert [f][1..] == [];
    NextFreeConcat([f], post, 0);
    ReplaceLinked(mem, mem', pre, [c], [f], post, start, a, b, end);
  }

  /** Client writes inside a live payload leave every header, link and back-pointer intact. */
  lemma PayloadWrite(mem: Memory, cells: Layout, c: Cell, x: nat, w: nat, start: nat, end: nat)
    requires Tiles(cells, start, end) && Linked(mem, cells, 0) && c in cells && c.Live?
    requires c.payload <= x < c.payload + c.want
    ensures Linked(mem[x := w], cells, 0)
  {
    TilesOrder(cells, start, end);
    forall d, y: nat | d in cells && Matters(d, y)
      ensures At(mem[x := w], y) == At(mem, y)
    {
      if y == x {
        assert CellOk(c) && CellOk(d);
        OneCellPerAddress(cells, start, end, c, d);
      }
    }
    LinkedFrame(mem, mem[x := w], cells, 0);
  }
}
