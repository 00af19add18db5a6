/** Ranges of BITCOUNT and BITPOS, and the masks for their edge bytes (bitops.c:811-849). */
module BitRange {
  import opened Bits

  /** The optional arguments start, end and BIT or BYTE. */
  datatype Range = Whole | Between(start: int, end: int, isBit: bool)

  function Max(a: int, b: int): int { if a < b then b else a }

  function Min(a: int, b: int): int { if a < b then a else b }

  /** Negative indexes count from the end; what is still negative becomes zero. */
  function Index(i: int, total: nat): nat { if i < 0 then Max(0, total + i) else i }

  /** The first bit of the range, and the bit behind its last one. */
  function First(r: Range, len: nat): nat {
    match r
    case Whole => 0
    case Between(start, _, isBit) => if isBit then Index(start, 8 * len) else 8 * Index(start, len)
  }

  function Behind(r: Range, len: nat): nat {
    match r
    case Whole => 8 * len
    case Between(_, end, isBit) =>
      if isBit then Min(Index(end, 8 * len) + 1, 8 * len) else 8 * Min(Index(end, len) + 1, len)
  }

  // ----- the masks for the edges -----

  /** The bits of the first byte in front of bit k, computed in int and cut to a byte. */
  function FirstMask(k: nat): bv8
    requires k < 8
  {
    (!(((1 as bv16) << (8 - k)) - 1) & 0xff) as bv8
  }

  /** The bits of the last byte behind bit k. */
  function LastMask(k: nat): bv8
    requires k < 8
  {
    ((((1 as bv16) << (7 - k)) - 1) & 0xff) as bv8
  }

  lemma FirstMaskIs(k: nat)
    requires k < 8
    ensures FirstMask(k) == if k == 0 then 0 else if k == 1 then 0x80 else if k == 2 then 0xc0 else if k == 3 then 0xe0
                            else if k == 4 then 0xf0 else if k == 5 then 0xf8 else if k == 6 then 0xfc else 0xfe
  {
    if k == 0 {} else if k == 1 {} else if k == 2 {} else if k == 3 {}
    else if k == 4 {} else if k == 5 {} else if k == 6 {} else {}
  }

  lemma LastMaskIs(k: nat)
    requires k < 8
    ensures LastMask(k) == if k == 0 then 0x7f else if k == 1 then 0x3f else if k == 2 then 0x1f else if k == 3 then 0x0f
                           else if k == 4 then 7 else if k == 5 then 3 else if k == 6 then 1 else 0
  {
    if k == 0 {} else if k == 1 {} else if k == 2 {} else if k == 3 {}
    else if k == 4 {} else if k == 5 {} else if k == 6 {} else {}
  }

  lemma FirstMaskBit(k: nat, j: nat)
    requires k < 8 && j < 8
    ensures HasBit(FirstMask(k), Mask8(j)) == (j < k)
  {
    hide FirstMask;
    FirstMaskIs(k);
  }

  lemma LastMaskBit(k: nat, j: nat)
    requires k < 8 && j < 8
    ensures HasBit(LastMask(k), Mask8(j)) == (j > k)
  {
    hide LastMask;
    LastMaskIs(k);
  }

  // A mask of one bit acts on the operands alone.
  lemma AndMasked(b: bv8, m: bv8, one: bv8)
    requires one & (one - 1) == 0
    ensures HasBit(b & m, one) == (HasBit(b, one) && HasBit(m, one))
  {}

  lemma AndNotMasked(b: bv8, m: bv8, one: bv8)
    requires one & (one - 1) == 0
    ensures HasBit(b & !m, one) == (HasBit(b, one) && !HasBit(m, one))
  {}

  lemma OrMasked(b: bv8, m: bv8, one: bv8)
    ensures HasBit(b | m, one) == (HasBit(b, one) || HasBit(m, one))
  {}

  lemma MaskIsOneBit(k: nat)
    requires k < 8
    ensures Mask8(k) & (Mask8(k) - 1) == 0 && Mask8(k) != 0
  {}

  /** Masking acts on each bit of a byte alone. */
  lemma AndBit(b: bv8, m: bv8, k: nat)
    requires k < 8
    ensures HasBit(b & m, Mask8(k)) == (HasBit(b, Mask8(k)) && HasBit(m, Mask8(k)))
    ensures HasBit(b & !m, Mask8(k)) == (HasBit(b, Mask8(k)) && !HasBit(m, Mask8(k)))
    ensures HasBit(b | m, Mask8(k)) == (HasBit(b, Mask8(k)) || HasBit(m, Mask8(k)))
  {
    hide HasBit, Mask8;
    MaskIsOneBit(k);
    var one := Mask8(k);
    AndMasked(b, m, one);
    AndNotMasked(b, m, one);
    OrMasked(b, m, one);
  }

  lemma WholeEdges()
    ensures FirstMask(0) == 0 && LastMask(7) == 0
  {
    hide FirstMask, LastMask;
    FirstMaskIs(0);
    LastMaskIs(7);
  }

  lemma MaskIsEdge(k1: nat, k2: nat)
    requires k1 < 8 && k2 < 8
    ensures (FirstMask(k1) == 0) == (k1 == 0) && (LastMask(k2) == 0) == (k2 == 7)
  {
    hide FirstMask, LastMask;
    FirstMaskIs(k1);
    LastMaskIs(k2);
  }
}
