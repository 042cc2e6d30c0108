/**
 Page-table entries and virtual addresses (`kernel/src/vmm.rs`): what the kernel's masks and
 shifts pick out of a word.  The layout is that of 4-level paging in section 4.5 of the Intel
 Software Developer's Manual, volume 3A.
 */
module PageEntries {
  import opened Bits
  import opened Frames

  const LARGE_PAGE: nat := 0x20_0000
  const ENTRIES: nat := 512

  const PTE_PRESENT: nat := 1
  const PTE_WRITABLE: nat := 2
  const PTE_USER: nat := 4
  const PTE_HUGE: nat := 128

  const ADDR_MASK_4K: nat := 0x000f_ffff_f000
  const ADDR_MASK_2M: nat := 0x0000_0fff_ffe0_0000
  const ADDR_MASK_1G: nat := 0x000f_ffff_c000_0000

  predicate Present(e: nat) { And(e, PTE_PRESENT) != 0 }
  predicate User(e: nat) { And(e, PTE_USER) != 0 }
  predicate Huge(e: nat) { And(e, PTE_HUGE) != 0 }

  /** `phys_of`: 36 bits of the entry, then truncated to a 32-bit frame index. */
  function TableFrame(e: nat): (f: nat)
    ensures f < 0x1_0000_0000
  {
    And(Shr(e, 12), 0x000f_ffff_ffff) % 0x1_0000_0000
  }

  /** An intermediate entry pointing at table `frame`; `user` is `flags & PTE_USER`. */
  function TableEntry(frame: nat, user: nat): nat {
    Or(Or(Or(frame * FRAME_SIZE, PTE_PRESENT), PTE_WRITABLE), user)
  }

  /** The entry that `map` writes. */
  function LeafEntry(pa: nat, flags: nat): nat {
    Or(Or(pa, flags), PTE_PRESENT)
  }

  /** The entry that `map_window` writes. */
  function WindowEntry(pa: nat, flags: nat): nat {
    Or(pa, Or(Or(flags, PTE_PRESENT), PTE_HUGE))
  }

  /** Flag words have no address bits. */
  predicate FlagBits(flags: nat) {
    Low(Shr(flags, 12), 40) == 0
  }

  /** An entry that takes no right away: what it leads to can be written and executed. */
  predicate Permissive(e: nat) {
    Bit(e, 1) && !Bit(e, 63)
  }

  // ---------- bits ----------

  /** PRESENT, WRITABLE, USER and HUGE are bits 0, 1, 2 and 7. */
  lemma FlagValue(k: nat)
    ensures Bit(PTE_PRESENT, k) <==> k == 0
    ensures Bit(PTE_WRITABLE, k) <==> k == 1
    ensures Bit(PTE_USER, k) <==> k == 2
    ensures Bit(PTE_HUGE, k) <==> k == 7
  {
    Pow2Bit(0, k); Pow2Bit(1, k); Pow2Bit(2, k); Pow2Bit(7, k);
    assert Pow2(0) == 1 && Pow2(1) == 2 && Pow2(2) == 4 && Pow2(7) == 128;
  }

  /** Bit by bit, the entry that `map` writes is the address, the flags and PRESENT. */
  lemma LeafEntryExact(pa: nat, flags: nat, k: nat)
    ensures Bit(LeafEntry(pa, flags), k) <==> k == 0 || Bit(pa, k) || Bit(flags, k)
  {
    hide Or, Bit;
    OrBit(pa, flags, k);
    OrBit(Or(pa, flags), PTE_PRESENT, k);
    FlagValue(k);
  }

  /** Bit by bit, the entry that `map_window` writes is the address, the flags, PRESENT and HUGE. */
  lemma WindowEntryExact(pa: nat, flags: nat, k: nat)
    ensures Bit(WindowEntry(pa, flags), k) <==> k == 0 || k == 7 || Bit(pa, k) || Bit(flags, k)
  {
    hide Or, Bit;
    var g := Or(flags, PTE_PRESENT);
    OrBit(flags, PTE_PRESENT, k);
    OrBit(g, PTE_HUGE, k);
    OrBit(pa, Or(g, PTE_HUGE), k);
    FlagValue(k);
  }

  /** Bit by bit, an entry for a table is its address, PRESENT, WRITABLE and the USER bit asked for. */
  lemma TableEntryExact(frame: nat, user: nat, k: nat)
    ensures Bit(TableEntry(frame, user), k) <==> k == 0 || k == 1 || Bit(frame * FRAME_SIZE, k) || Bit(user, k)
  {
    hide Or, Bit;
    var a := frame * FRAME_SIZE;
    OrBit(a, PTE_PRESENT, k);
    OrBit(Or(a, PTE_PRESENT), PTE_WRITABLE, k);
    OrBit(Or(Or(a, PTE_PRESENT), PTE_WRITABLE), user, k);
    FlagValue(k);
  }

  /** Promotion sets the USER bit and changes no other. */
  lemma PromotedExact(e: nat, k: nat)
    ensures Bit(Or(e, PTE_USER), k) <==> k == 2 || Bit(e, k)
  {
    hide Or, Bit;
    OrBit(e, PTE_USER, k);
    FlagValue(k);
  }

  /** Physical addresses do not reach bit 63. */
  lemma LowAddress(a: nat)
    requires a < WORD / 2
    ensures !Bit(a, 63)
  {
    hide Pow2, Shr;
    Pow2Value(64);
    HalfWord();
    ShrBelow(a, 63);
  }

  lemma HalfWord()
    ensures Pow2(64) == 2 * Pow2(63)
  {
  }

  lemma EntryBits(e: nat)
    ensures Present(e) <==> Bit(e, 0)
    ensures User(e) <==> Bit(e, 2)
    ensures Huge(e) <==> Bit(e, 7)
  {
    AndBit(e, 0);
    AndBit(e, 2);
    AndBit(e, 7);
    assert Pow2(0) == 1 && Pow2(2) == 4 && Pow2(7) == 128;
  }

  lemma AlignedBits(e: nat)
    requires e % FRAME_SIZE == 0
    ensures !Bit(e, 0) && !Bit(e, 1) && !Bit(e, 2) && !Bit(e, 7)
  {
    ShrValue(e, 12);
    LowBit(e, 12, 0); LowBit(e, 12, 1); LowBit(e, 12, 2); LowBit(e, 12, 7);
    ZeroBit(0); ZeroBit(1); ZeroBit(2); ZeroBit(7);
  }

  lemma {:induction false} LowBit(x: nat, n: nat, k: nat)
    requires k < n
    ensures Bit(Low(x, n), k) <==> Bit(x, k)
    decreases k
  {
    if k > 0 { LowBit(x / 2, n - 1, k - 1); }
  }

  /** `Shr` and `Low` at the kernel's shift amounts, as quotient and remainder. */
  lemma ShrValue(x: nat, k: nat)
    ensures k == 12 ==> Shr(x, k) == x / 0x1000 && Low(x, k) == x % 0x1000
    ensures k == 21 ==> Shr(x, k) == x / 0x20_0000 && Low(x, k) == x % 0x20_0000
    ensures k == 30 ==> Shr(x, k) == x / 0x4000_0000 && Low(x, k) == x % 0x4000_0000
    ensures k == 39 ==> Shr(x, k) == x / 0x80_0000_0000
    ensures k == 47 ==> Shr(x, k) == x / 0x8000_0000_0000
    ensures k == 48 ==> Shr(x, k) == x / 0x1_0000_0000_0000
    ensures k == 9 ==> Low(x, k) == x % 512
    ensures k == 22 ==> Low(x, k) == x % 0x40_0000
    ensures k == 23 ==> Low(x, k) == x % 0x80_0000
    ensures k == 24 ==> Low(x, k) == x % 0x100_0000
    ensures k == 32 ==> Low(x, k) == x % 0x1_0000_0000
  {
    ShrIsDiv(x, k);
    Pow2Value(k);
    if k == 12 { Pow2Plus8(4); } else if k == 9 { Pow2Plus8(1); }
  }

  lemma ConstBits()
    ensures Bit(1, 0) && !Bit(1, 2) && !Bit(1, 7)
    ensures !Bit(2, 0) && !Bit(2, 2) && !Bit(2, 7)
    ensures !Bit(4, 0) && Bit(4, 2) && !Bit(4, 7)
    ensures !Bit(0, 0) && !Bit(0, 2) && !Bit(0, 7)
    ensures !Bit(128, 0) && !Bit(128, 2) && Bit(128, 7)
  {
    assert Shr(128, 7) == 1;
  }

  lemma SmallShift(c: nat)
    requires c < FRAME_SIZE
    ensures Shr(c, 12) == 0
  {
    ShrValue(c, 12);
  }

  /** Setting low bits does not disturb the address field. */
  lemma OrSmall(x: nat, c: nat)
    requires c < FRAME_SIZE
    ensures Shr(Or(x, c), 12) == Shr(x, 12)
  {
    OrShr(x, c, 12);
    SmallShift(c);
    OrZero(Shr(x, 12));
  }

  lemma LowMask(x: nat, n: nat)
    ensures And(x, Mask(0, n)) == Low(x, n)
  {
    AndMask(x, 0, n);
  }

  lemma OnesValue(n: nat)
    ensures n == 36 ==> Mask(0, n) == 0x000f_ffff_ffff
    ensures n == 9 ==> Mask(0, n) == 0x1ff
    ensures n == 12 ==> Mask(0, n) == 0xfff
    ensures n == 21 ==> Mask(0, n) == 0x1f_ffff
    ensures n == 30 ==> Mask(0, n) == 0x3fff_ffff
  {
    MaskTop(0, n);
    Pow2Value(n);
    if n == 9 { Pow2Plus8(1); } else if n == 12 { Pow2Plus8(4); }
  }

  lemma TableFrameIsField(e: nat)
    ensures TableFrame(e) == Low(Shr(e, 12), 32)
  {
    var x := Shr(e, 12);
    OnesValue(36);
    LowMask(x, 36);
    ShrValue(Low(x, 36), 32);
    LowLow(x, 36, 32);
  }

  lemma FrameAddress(frame: nat)
    ensures Shr(frame * FRAME_SIZE, 12) == frame && (frame * FRAME_SIZE) % FRAME_SIZE == 0
  {
    ShrValue(frame * FRAME_SIZE, 12);
  }

  lemma TableEntryBits(frame: nat, user: nat)
    requires user == 0 || user == PTE_USER
    ensures Present(TableEntry(frame, user)) && !Huge(TableEntry(frame, user))
    ensures User(TableEntry(frame, user)) <==> user == PTE_USER
  {
    var a := frame * FRAME_SIZE;
    var b := Or(a, PTE_PRESENT);
    var c := Or(b, PTE_WRITABLE);
    FrameAddress(frame);
    AlignedBits(a);
    ConstBits();
    EntryBits(TableEntry(frame, user));
    OrBit(a, PTE_PRESENT, 0); OrBit(b, PTE_WRITABLE, 0); OrBit(c, user, 0);
    OrBit(a, PTE_PRESENT, 2); OrBit(b, PTE_WRITABLE, 2); OrBit(c, user, 2);
    OrBit(a, PTE_PRESENT, 7); OrBit(b, PTE_WRITABLE, 7); OrBit(c, user, 7);
  }

  /** A table entry is present, not huge, points back at its frame, and carries the USER bit asked for. */
  lemma TableEntryFields(frame: nat, user: nat)
    requires frame < 0x1_0000_0000 && (user == 0 || user == PTE_USER)
    ensures Present(TableEntry(frame, user)) && !Huge(TableEntry(frame, user))
    ensures TableFrame(TableEntry(frame, user)) == frame
    ensures User(TableEntry(frame, user)) <==> user == PTE_USER
    ensures Permissive(TableEntry(frame, user))
  {
    TableEntryBits(frame, user);
    TableIsPermissive(frame, user);
    var a := frame * FRAME_SIZE;
    OrSmall(a, PTE_PRESENT);
    OrSmall(Or(a, PTE_PRESENT), PTE_WRITABLE);
    OrSmall(Or(Or(a, PTE_PRESENT), PTE_WRITABLE), user);
    FrameAddress(frame);
    TableFrameIsField(TableEntry(frame, user));
    Pow2Value(32);
    LowSmall(frame, 32);
  }

  lemma TableIsPermissive(frame: nat, user: nat)
    requires frame < 0x1_0000_0000 && (user == 0 || user == PTE_USER)
    ensures Permissive(TableEntry(frame, user))
  {
    hide Bit, TableEntry;
    TableEntryExact(frame, user, 1);
    TableEntryExact(frame, user, 63);
    LowAddress(frame * FRAME_SIZE);
    FlagValue(63);
    ZeroBit(63);
  }

  /** `*entry |= user` only sets the USER bit. */
  lemma PromotedFields(e: nat)
    ensures var p := Or(e, PTE_USER);
            && (Present(p) <==> Present(e)) && (Huge(p) <==> Huge(e))
            && TableFrame(p) == TableFrame(e) && User(p) && (Permissive(p) <==> Permissive(e))
  {
    var p := Or(e, PTE_USER);
    PromotedExact(e, 1);
    PromotedExact(e, 63);
    EntryBits(e); EntryBits(p);
    ConstBits();
    OrBit(e, PTE_USER, 0); OrBit(e, PTE_USER, 2); OrBit(e, PTE_USER, 7);
    OrSmall(e, PTE_USER);
  }

  lemma LeafEntryBits(pa: nat, flags: nat)
    requires pa % FRAME_SIZE == 0
    ensures Present(LeafEntry(pa, flags))
    ensures User(LeafEntry(pa, flags)) <==> User(flags)
  {
    hide Or, And, Bit, Present, User;
    var e := LeafEntry(pa, flags);
    EntryBits(e); EntryBits(flags);
    ConstBits();
    AlignedBits(pa);
    OrBit(pa, flags, 0); OrBit(Or(pa, flags), PTE_PRESENT, 0);
    OrBit(pa, flags, 2); OrBit(Or(pa, flags), PTE_PRESENT, 2);
  }

  lemma FieldWithFlags(x: nat, flags: nat, lo: nat, len: nat)
    requires FlagBits(flags) && 12 <= lo && lo + len <= 52
    ensures Low(Shr(Or(x, flags), lo), len) == Low(Shr(x, lo), len)
  {
    OrField(x, flags, lo, len);
    FlagField(flags, lo, len);
    OrZero(Low(Shr(x, lo), len));
  }

  lemma {:induction false} LowShr(x: nat, k: nat, n: nat)
    requires k <= n
    ensures Shr(Low(x, n), k) == Low(Shr(x, k), n - k)
    decreases k
  {
    if k > 0 { LowShr(x / 2, k - 1, n - 1); }
  }

  lemma FlagField(flags: nat, lo: nat, len: nat)
    requires FlagBits(flags) && 12 <= lo && lo + len <= 52
    ensures Low(Shr(flags, lo), len) == 0
  {
    hide Shr, Low;
    var x := Shr(flags, 12);
    ShrAdd(flags, 12, lo - 12);
    assert Low(Shr(flags, lo), 52 - lo) == 0 by {
      LowShr(x, lo - 12, 40);
      ZeroShift(lo - 12);
    }
    LowLow(Shr(flags, lo), 52 - lo, len);
    ZeroShift(len);
  }

  lemma {:induction false} ZeroShift(k: nat)
    ensures Shr(0, k) == 0 && Low(0, k) == 0
    decreases k
  {
    if k > 0 { ZeroShift(k - 1); }
  }

  lemma MaskValue(lo: nat, len: nat)
    ensures lo == 12 && len == 24 ==> Mask(lo, len) == ADDR_MASK_4K
    ensures lo == 21 && len == 23 ==> Mask(lo, len) == ADDR_MASK_2M
    ensures lo == 30 && len == 22 ==> Mask(lo, len) == ADDR_MASK_1G
  {
    hide Mask;
    MaskTop(lo, lo + len);
    if lo == 12 && len == 24 { Pow2Value(36); assert Pow2(12) == 0x1000; }
    if lo == 21 && len == 23 { Pow2Value(21); Pow2Value(36); Pow2Plus8(36); }
    if lo == 30 && len == 22 { Pow2Value(30); Pow2Value(52); }
  }

  /** What a 4 KiB entry translates to: the kernel's mask keeps only address bits 12 to 35. */
  lemma LeafAddress(pa: nat, flags: nat)
    requires pa % FRAME_SIZE == 0 && FlagBits(flags)
    ensures And(LeafEntry(pa, flags), ADDR_MASK_4K) == pa % 0x10_0000_0000
  {
    var e := LeafEntry(pa, flags);
    assert Low(Shr(e, 12), 24) == Low(Shr(pa, 12), 24) by {
      OrSmall(Or(pa, flags), PTE_PRESENT);
      FieldWithFlags(pa, flags, 12, 24);
    }
    MaskedAddress(e, pa, 12, 24);
    assert Low(Shr(pa, 12), 24) == pa / 0x1000 % 0x100_0000 by {
      ShrValue(pa, 12);
      ShrValue(pa / 0x1000, 24);
    }
    FrameField(pa);
  }

  lemma FrameField(pa: nat)
    ensures pa % 0x1000 == 0 ==> pa / 0x1000 % 0x100_0000 * 0x1000 == pa % 0x10_0000_0000
    ensures pa % 0x20_0000 == 0 ==> pa / 0x20_0000 % 0x80_0000 * 0x20_0000 == pa % 0x1000_0000_0000
  {
    if pa % 0x1000 == 0 { ScaledRemainder(pa / 0x1000, 0x1000, 0x100_0000); }
    if pa % 0x20_0000 == 0 { ScaledRemainder(pa / 0x20_0000, 0x20_0000, 0x80_0000); }
  }

  lemma ScaledRemainder(x: nat, c: nat, m: nat)
    requires c > 0 && m > 0
    ensures c * m > 0 && x * c % (m * c) == x % m * c
  {
    var q, r := x / m, x % m;
    ScaledOrder(r + 1, m, c);
    assert x * c == (q * m + r) * c == q * (m * c) + r * c;
    DivUnique(x * c, m * c, q, r * c);
  }

  /** If two words agree on a masked field, masking the one gives that field of the other. */
  lemma MaskedAddress(e: nat, pa: nat, lo: nat, len: nat)
    requires Low(Shr(e, lo), len) == Low(Shr(pa, lo), len)
    ensures lo == 12 && len == 24 ==> And(e, ADDR_MASK_4K) == Low(Shr(pa, lo), len) * 0x1000
    ensures lo == 21 && len == 23 ==> And(e, ADDR_MASK_2M) == Low(Shr(pa, lo), len) * 0x20_0000
    ensures lo == 30 && len == 22 ==> And(e, ADDR_MASK_1G) == Low(Shr(pa, lo), len) * 0x4000_0000
  {
    MaskValue(lo, len);
    AndMask(e, lo, len);
    ShlMul(Low(Shr(pa, lo), len), lo);
    Pow2Value(lo);
    if lo == 12 { Pow2Plus8(4); }
  }

  lemma WindowEntryBits(pa: nat, flags: nat)
    requires pa % LARGE_PAGE == 0
    ensures Present(WindowEntry(pa, flags)) && Huge(WindowEntry(pa, flags))
    ensures User(WindowEntry(pa, flags)) <==> User(flags)
  {
    hide Or, And, Bit, Present, Huge, User;
    var e := WindowEntry(pa, flags);
    var g := Or(flags, PTE_PRESENT);
    var h := Or(g, PTE_HUGE);
    LargeIsAligned(pa);
    EntryBits(e); EntryBits(flags);
    ConstBits();
    AlignedBits(pa);
    OrBit(flags, PTE_PRESENT, 0); OrBit(g, PTE_HUGE, 0); OrBit(pa, h, 0);
    OrBit(flags, PTE_PRESENT, 2); OrBit(g, PTE_HUGE, 2); OrBit(pa, h, 2);
    OrBit(g, PTE_HUGE, 7); OrBit(pa, h, 7);
  }

  lemma LargeIsAligned(pa: nat)
    requires pa % LARGE_PAGE == 0
    ensures pa % FRAME_SIZE == 0
  {
    DivUnique(pa, FRAME_SIZE, pa / LARGE_PAGE * 512, 0);
  }

  /** The 2 MiB mask keeps address bits 21 to 43. */
  lemma WindowAddress(pa: nat, flags: nat)
    requires pa % LARGE_PAGE == 0 && FlagBits(flags)
    ensures And(WindowEntry(pa, flags), ADDR_MASK_2M) == pa % 0x1000_0000_0000
  {
    var g := Or(Or(flags, PTE_PRESENT), PTE_HUGE);
    assert Low(Shr(Or(pa, g), 21), 23) == Low(Shr(pa, 21), 23) by {
      OrSmall(flags, PTE_PRESENT);
      OrSmall(Or(flags, PTE_PRESENT), PTE_HUGE);
      assert FlagBits(g);
      FieldWithFlags(pa, g, 21, 23);
    }
    MaskedAddress(Or(pa, g), pa, 21, 23);
    assert Low(Shr(pa, 21), 23) == pa / 0x20_0000 % 0x80_0000 by {
      ShrValue(pa, 21);
      ShrValue(pa / 0x20_0000, 23);
    }
    FrameField(pa);
  }

  // ---------- virtual addresses ----------

  /** Index within the table of `level` (0 = PT, 3 = PML4). */
  function Index(va: nat, level: nat): nat {
    And(Shr(va, 12 + 9 * level), 0x1ff)
  }

  predicate IsCanonical(va: nat) {
    var sign := And(Shr(va, 47), 1);
    var top := Shr(va, 48) % 0x1_0000;
    if sign == 0 then top == 0 else top == 0xffff
  }

  /** The canonical addresses are the lowest and the highest 2^47. */
  lemma CanonicalRange(va: nat)
    requires va < WORD
    ensures IsCanonical(va) <==> va < 0x8000_0000_0000 || va >= WORD - 0x8000_0000_0000
  {
    assert And(Shr(va, 47), 1) == va / 0x8000_0000_0000 % 2 by {
      AndOne(Shr(va, 47));
      ShrValue(va, 47);
    }
    ShrValue(va, 48);
    SignBit(va);
  }

  lemma SignBit(va: nat)
    requires va < WORD
    ensures var top := va / 0x1_0000_0000_0000;
            && top < 0x1_0000
            && (va < 0x8000_0000_0000 <==> va / 0x8000_0000_0000 % 2 == 0 && top == 0)
            && (va >= WORD - 0x8000_0000_0000 <==> va / 0x8000_0000_0000 % 2 == 1 && top == 0xffff)
  {
  }

  lemma AndOne(x: nat)
    ensures And(x, 1) == x % 2
  {
    AndZero(x / 2);
  }

  lemma IndexIsField(va: nat, level: nat)
    ensures Index(va, level) == Low(Shr(va, 12 + 9 * level), 9)
    ensures Index(va, level) < ENTRIES
  {
    OnesValue(9);
    LowMask(Shr(va, 12 + 9 * level), 9);
    SplitAt(Shr(va, 12 + 9 * level), 9);
    assert Pow2(9) == 512;
  }

  lemma IndexValue(va: nat)
    ensures Index(va, 0) == va / 0x1000 % 512
    ensures Index(va, 1) == va / 0x20_0000 % 512
    ensures Index(va, 2) == va / 0x4000_0000 % 512
    ensures Index(va, 3) == va / 0x80_0000_0000 % 512
  {
    hide Shr, Low, And;
    IndexIsField(va, 0); IndexIsField(va, 1); IndexIsField(va, 2); IndexIsField(va, 3);
    ShrValue(va, 12); ShrValue(va, 21); ShrValue(va, 30); ShrValue(va, 39);
    ShrValue(va / 0x1000, 9); ShrValue(va / 0x20_0000, 9);
    ShrValue(va / 0x4000_0000, 9); ShrValue(va / 0x80_0000_0000, 9);
  }

  /** Equal indices at every level and equal offsets are equal canonical addresses. */
  lemma IndicesDetermine(a: nat, b: nat)
    requires a < WORD && b < WORD && IsCanonical(a) && IsCanonical(b)
    requires Index(a, 0) == Index(b, 0) && Index(a, 1) == Index(b, 1)
    requires Index(a, 2) == Index(b, 2) && Index(a, 3) == Index(b, 3)
    requires a % FRAME_SIZE == b % FRAME_SIZE
    ensures a == b
  {
    assert a % 0x1_0000_0000_0000 == b % 0x1_0000_0000_0000 by {
      IndexValue(a); IndexValue(b);
      Recompose(a); Recompose(b);
    }
    CanonicalRange(a); CanonicalRange(b);
    CanonicalLow48(a, b);
  }

  lemma CanonicalLow48(a: nat, b: nat)
    requires a < 0x8000_0000_0000 || WORD - 0x8000_0000_0000 <= a < WORD
    requires b < 0x8000_0000_0000 || WORD - 0x8000_0000_0000 <= b < WORD
    requires a % 0x1_0000_0000_0000 == b % 0x1_0000_0000_0000
    ensures a == b
  {
  }

  lemma Recompose(a: nat)
    ensures a % 0x1_0000_0000_0000
         == a / 0x80_0000_0000 % 512 * 0x80_0000_0000 + a / 0x4000_0000 % 512 * 0x4000_0000
          + a / 0x20_0000 % 512 * 0x20_0000 + a / 0x1000 % 512 * 0x1000 + a % 0x1000
  {
    Radix512(a, 0x1000); Radix512(a, 0x20_0000); Radix512(a, 0x4000_0000); Radix512(a, 0x80_0000_0000);
  }

  lemma Radix512(a: nat, c: nat)
    requires c > 0
    ensures a % (512 * c) == a / c % 512 * c + a % c
  {
    var q, r := a / c, a % c;
    RadixStep(a, c, q / 512, q % 512, r);
  }

  lemma RadixStep(a: nat, c: nat, u: nat, v: nat, r: nat)
    requires a == (512 * u + v) * c + r && v < 512 && r < c
    ensures a % (512 * c) == v * c + r
  {
    assert (512 * u + v) * c == u * (512 * c) + v * c;
    if v < 511 { MulAtLeast(511 - v, c); }
    assert (511 - v) * c == 511 * c - v * c;
    DivUnique(a, 512 * c, u, v * c + r);
  }

  /** `va & mask` for the page offsets that `translate` adds. */
  lemma OffsetValue(va: nat)
    ensures And(va, 0xfff) == va % FRAME_SIZE
    ensures And(va, 0x1f_ffff) == va % LARGE_PAGE
    ensures And(va, 0x3fff_ffff) == va % 0x4000_0000
  {
    OnesValue(12); OnesValue(21); OnesValue(30);
    LowMask(va, 12); LowMask(va, 21); LowMask(va, 30);
    ShrValue(va, 12); ShrValue(va, 21); ShrValue(va, 30);
  }
}
