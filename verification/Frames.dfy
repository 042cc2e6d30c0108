/**
 Frame ownership words (`kernel/src/frame.rs`).  The kernel stores an owner as one tagged word,
 and every ownership change is a compare-and-swap of such words.
 */
module Frames {
  import opened Bits

  datatype Option<+T> = None | Some(value: T)

  const U32: nat := 0x1_0000_0000
  const FRAME_SIZE: nat := 0x1000

  datatype Owner = Reserved | Free | Kernel | Pending | Untyped(id: nat) | Domain(id: nat)

  predicate ValidOwner(o: Owner) {
    (o.Untyped? || o.Domain?) ==> o.id < U32
  }

  function Tag(o: Owner): nat {
    match o
    case Reserved => 0
    case Free => 1
    case Kernel => 2
    case Pending => 3
    case Untyped(_) => 4
    case Domain(_) => 5
  }

  function Id(o: Owner): nat {
    if o.Untyped? || o.Domain? then o.id else 0
  }

  /** `(tag as u64) | ((id as u64) << 8)` */
  function Encode(o: Owner): nat {
    Or(Tag(o), Shl(Id(o), 8))
  }

  /** `None` where the kernel reaches `unreachable!`. */
  function Decode(raw: nat): Option<Owner> {
    var tag := And(raw, 0xff);
    var id := And(Shr(raw, 8), 0xffff_ffff);
    match tag
    case 0 => Some(Reserved)
    case 1 => Some(Free)
    case 2 => Some(Kernel)
    case 3 => Some(Pending)
    case 4 => Some(Untyped(id))
    case 5 => Some(Domain(id))
    case _ => None
  }

  lemma ByteMask()
    ensures Mask(0, 8) == 0xff
  {
    MaskTop(0, 8);
  }

  lemma WordMask(k: nat)
    requires k == 32
    ensures Mask(0, k) == 0xffff_ffff
  {
    MaskTop(0, k);
    Pow2Value(k);
  }

  lemma PackLow(t: nat, i: nat, k: nat)
    requires t < Pow2(k)
    ensures Low(Or(t, Shl(i, k)), k) == t
  {
  }

  lemma PackHigh(t: nat, i: nat, k: nat)
    requires t < Pow2(k)
    ensures Shr(Or(t, Shl(i, k)), k) == i
  {
    ShrShl(i, k);
    OrShr(t, Shl(i, k), k);
    ShrSmall(t, k, 0);
    OrZero(i);
  }

  lemma LowByte(x: nat)
    ensures And(x, 0xff) == Low(x, 8)
  {
    ByteMask();
    AndMask(x, 0, 8);
  }

  /** The two fields of an encoded owner come apart again. */
  lemma EncodedFields(o: Owner)
    requires ValidOwner(o)
    ensures And(Encode(o), 0xff) == Tag(o)
    ensures And(Shr(Encode(o), 8), 0xffff_ffff) == Id(o)
  {
    LowByte(Encode(o));
    PackLow(Tag(o), Id(o), 8);
    PackHigh(Tag(o), Id(o), 8);
    IdMask(Id(o));
  }

  /** The words themselves. */
  lemma EncodedWords(i: nat)
    requires i < U32
    ensures Encode(Reserved) == 0 && Encode(Free) == 1 && Encode(Kernel) == 2 && Encode(Pending) == 3
    ensures Encode(Untyped(i)) == 4 + 256 * i && Encode(Domain(i)) == 5 + 256 * i
  {
    WordOf(Free); WordOf(Kernel); WordOf(Pending); WordOf(Untyped(i)); WordOf(Domain(i)); WordOf(Reserved);
  }

  lemma WordOf(o: Owner)
    requires ValidOwner(o)
    ensures Encode(o) == Tag(o) + 256 * Id(o)
  {
    hide Or, Shl, Shr, Low;
    BytePower();
    PackLow(Tag(o), Id(o), 8);
    PackHigh(Tag(o), Id(o), 8);
    SplitAt(Encode(o), 8);
    ShlMul(Id(o), 8);
  }

  lemma BytePower()
    ensures Pow2(8) == 256
  {
  }

  lemma IdMask(i: nat)
    requires i < U32
    ensures And(i, 0xffff_ffff) == i
  {
    WordMask(32);
    Pow2Value(32);
    AndMask(i, 0, 32);
    LowSmall(i, 32);
  }

  /** Decoding an encoded owner gives the owner back. */
  lemma DecodeEncode(o: Owner)
    requires ValidOwner(o)
    ensures Decode(Encode(o)) == Some(o)
  {
    EncodedFields(o);
  }

  /** A compare-and-swap of encoded words compares owners: equal words are equal owners. */
  lemma CompareExchangeIsExact(a: Owner, b: Owner)
    requires ValidOwner(a) && ValidOwner(b)
    ensures Encode(a) == Encode(b) <==> a == b
  {
    DecodeEncode(a);
    DecodeEncode(b);
  }

  /** A zeroed frame table reads as all-Reserved. */
  lemma ZeroIsReserved()
    ensures Decode(0) == Some(Reserved) && Encode(Reserved) == 0
  {
  }
}
