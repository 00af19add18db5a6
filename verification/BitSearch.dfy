/** BITPOS (bitops.c:877-1003). */
module BitSearch {
  import opened Bits
  import opened BitRange
  import opened Wrappers
  import Bitpos
  import BitCount

  /** The optional arguments: none, only start, or start and end with a unit. */
  datatype Search = All | From(start: int) | Within(range: Range)

  function RangeOf(q: Search, len: nat): Range {
    match q
    case All => Whole
    case From(start) => Between(start, len - 1, false)
    case Within(range) => range
  }

  /** No bit at lo <= i < hi is the one looked for. */
  ghost predicate Absent(p: Bytes, bit: bool, lo: nat, hi: nat)
    requires hi <= 8 * |p|
  {
    forall i | lo <= i < hi :: BitAt(p, i) != bit
  }

  /** Position n is the first such bit from lo on. */
  ghost predicate IsFirst(p: Bytes, bit: bool, lo: nat, n: nat)
    requires n < 8 * |p|
  {
    lo <= n && BitAt(p, n) == bit && Absent(p, bit, lo, n)
  }

  /** MAIN RESULT: the first such bit of the clamped range, or -1. The bit behind the string
      counts as clear only when no end was given. */
  method BitPos(key: Option<Bytes>, address: nat, bit: bool, q: Search) returns (pos: int)
    ensures key.None? ==> pos == if bit then -1 else 0
    ensures key.Some? ==>
              var p := key.value;
              var lo, hi := First(RangeOf(q, |p|), |p|), Behind(RangeOf(q, |p|), |p|);
              if pos < 0 then pos == -1 && Absent(p, bit, lo, hi) && (lo < hi && !bit ==> q.Within?)
              else if pos < 8 * |p| then pos < hi && IsFirst(p, bit, lo, pos)
              else pos == 8 * |p| && Absent(p, bit, lo, hi) && lo < hi && !bit && !q.Within?
  {
    hide BitAt, FirstMask, LastMask;
    if key.None? {
      return if bit then -1 else 0;
    }
    var p := key.value;
    var range := RangeOf(q, |p|);
    var start, end := 0, |p| - 1;
    var firstMask: bv8, lastMask: bv8 := 0, 0;
    ghost var k1, k2 := 0, 7;
    WholeEdges();
    if range.Between? {
      var total := if range.isBit then 8 * |p| else |p|;
      start := Index(range.start, total);
      end := Index(range.end, total);
      if end >= total {
        end := total - 1;
      }
      if range.isBit && start <= end {
        firstMask, lastMask := FirstMask(start % 8), LastMask(end % 8);
        k1, k2 := start % 8, end % 8;
        start, end := start / 8, end / 8;
      }
    }
    if start > end {
      return -1;
    }
    var bytes: nat;
    pos, start, bytes := Find(p, address, bit, start, end, firstMask, lastMask, k1, k2);
    if q.Within? && !bit && pos == 8 * bytes {
      return -1;
    }
    if pos != -1 {
      pos := pos + 8 * start;
    }
  }

  /** Indexes in the wrong order and in front of the string: BITCOUNT counts nothing, BITPOS finds the
      first bit. */
  method CountAndFind(address: nat) returns (count: int, pos: int)
    ensures BitCount.Backwards(Between(-5, -9, false)) && count == 0 && pos == 0
  {
    var p: Bytes := [0xff];
    count := BitCount.BitCount(p, address, Between(-5, -9, false));
    pos := BitPos(Some(p), address, true, Within(Between(-5, -9, false)));
    assert BitAt(p, 0);
  }

  /** The three part search; what it returns is the position, counted from byte `base`, and
      the number of bytes that were left there. */
  method Find(p: Bytes, address: nat, bit: bool, start: nat, end: nat, firstMask: bv8, lastMask: bv8,
              ghost k1: nat, ghost k2: nat) returns (pos: int, base: nat, bytes: nat)
    requires start <= end < |p| && k1 < 8 && k2 < 8 && 8 * start + k1 <= 8 * end + k2
    requires firstMask == FirstMask(k1) && lastMask == LastMask(k2)
    ensures base + bytes == end + 1 && pos <= 8 * bytes
    ensures pos < 0 ==> pos == -1 && bit && Absent(p, bit, 8 * start + k1, 8 * end + k2 + 1)
    ensures pos == 8 * bytes ==> !bit && Absent(p, bit, 8 * start + k1, 8 * end + k2 + 1)
    ensures 0 <= pos < 8 * bytes ==> 8 * base + pos <= 8 * end + k2 && IsFirst(p, bit, 8 * start + k1, 8 * base + pos)
  {
    hide BitAt, FirstMask, LastMask, Absent, IsFirst, Cover, Shows;
    MaskIsEdge(k1, k2);
    base, bytes := start, end - start + 1;
    ghost var lo := 8 * start + k1;
    NothingYet(p, bit, lo);
    if firstMask != 0 {
      var tmp := Cover(p[start], firstMask, bit);
      CoverFirst(p, start, bit, k1);
      if lastMask != 0 && bytes == 1 {
        CoverLast(p, start, tmp, bit, k1, k2);
        tmp := Cover(tmp, lastMask, bit);
      }
      pos := SearchByte(p, start, tmp, bit, k1, if bytes == 1 then k2 + 1 else 8);
      if bytes == 1 || (pos != -1 && pos != 8) {
        return;
      }
      base, bytes := base + 1, bytes - 1;
    }
    Extends(p, bit, lo, 8 * base);
    var current := if lastMask != 0 then bytes - 1 else bytes;
    if current > 0 {
      pos := SearchBytes(p, address, base, current, bit);
      if bytes == current || (pos != -1 && pos != 8 * current) {
        return;
      }
      base, bytes := base + current, bytes - current;
      Extends(p, bit, lo, 8 * base);
    }
    ShowsAll(p, end, bit);
    CoverLast(p, end, p[end], bit, 0, k2);
    var tmp := Cover(p[end], lastMask, bit);
    pos := SearchByte(p, end, tmp, bit, 0, k2 + 1);
  }

  lemma NothingYet(p: Bytes, bit: bool, lo: nat)
    requires lo <= 8 * |p|
    ensures Absent(p, bit, lo, lo)
  {}

  /** After a stretch without the bit, a search from its end on is one from its start on. */
  lemma Extends(p: Bytes, bit: bool, lo: nat, mid: nat)
    requires lo <= mid <= 8 * |p| && Absent(p, bit, lo, mid)
    ensures forall n | 0 <= n < 8 * |p| && IsFirst(p, bit, mid, n) :: IsFirst(p, bit, lo, n)
    ensures forall hi | mid <= hi <= 8 * |p| && Absent(p, bit, mid, hi) :: Absent(p, bit, lo, hi)
  {}

  /** Hides the bits under a mask from a search for `bit`. */
  function Cover(b: bv8, mask: bv8, bit: bool): bv8 { if bit then b & !mask else b | mask }

  lemma CoverBit(b: bv8, mask: bv8, bit: bool, j: nat)
    requires j < 8
    ensures (HasBit(Cover(b, mask, bit), Mask8(j)) == bit) == (!HasBit(mask, Mask8(j)) && HasBit(b, Mask8(j)) == bit)
  {
    hide HasBit, Mask8;
    AndBit(b, mask, j);
  }

  /** In `tmp`, the bits of byte s at a <= j < b match like those of p, the others never do. */
  ghost predicate Shows(p: Bytes, s: nat, tmp: bv8, bit: bool, a: nat, b: nat)
    requires s < |p|
  {
    forall j | 0 <= j < 8 ::
      (HasBit(tmp, Mask8(j)) == bit) == (a <= j < b && HasBit(p[s], Mask8(j)) == bit)
  }

  lemma ShowsAll(p: Bytes, s: nat, bit: bool)
    requires s < |p|
    ensures Shows(p, s, p[s], bit, 0, 8)
  {
    hide HasBit, Mask8;
  }

  lemma CoverFirst(p: Bytes, s: nat, bit: bool, k: nat)
    requires s < |p| && k < 8
    ensures Shows(p, s, Cover(p[s], FirstMask(k), bit), bit, k, 8)
  {
    hide HasBit, Mask8, Cover, FirstMask;
    forall j | 0 <= j < 8
      ensures (HasBit(Cover(p[s], FirstMask(k), bit), Mask8(j)) == bit) == (k <= j && HasBit(p[s], Mask8(j)) == bit)
    {
      CoverBit(p[s], FirstMask(k), bit, j);
      FirstMaskBit(k, j);
    }
  }

  lemma CoverLast(p: Bytes, s: nat, tmp: bv8, bit: bool, a: nat, k: nat)
    requires s < |p| && k < 8 && Shows(p, s, tmp, bit, a, 8)
    ensures Shows(p, s, Cover(tmp, LastMask(k), bit), bit, a, k + 1)
  {
    hide HasBit, Mask8, Cover, LastMask;
    var t := Cover(tmp, LastMask(k), bit);
    forall j | 0 <= j < 8
      ensures (HasBit(t, Mask8(j)) == bit) == (a <= j < k + 1 && HasBit(p[s], Mask8(j)) == bit)
    {
      CoverBit(tmp, LastMask(k), bit, j);
      LastMaskBit(k, j);
    }
  }

  /** The search of a single byte, with some of its bits hidden. */
  method SearchByte(p: Bytes, s: nat, tmp: bv8, bit: bool, ghost a: nat, ghost b: nat) returns (pos: int)
    requires s < |p| && b <= 8 && Shows(p, s, tmp, bit, a, b)
    ensures -1 <= pos <= 8 && (pos == -1 ==> bit) && (pos == 8 ==> !bit)
    ensures pos == -1 || pos == 8 ==> Absent(p, bit, 8 * s + a, 8 * s + b)
    ensures 0 <= pos < 8 ==> pos < b && IsFirst(p, bit, 8 * s + a, 8 * s + pos)
  {
    hide HasBit, Mask8;
    var stack: nat := *;
    pos := Bitpos.Bitpos([tmp], stack, bit);
    assert pos <= 8 by { PastEnd([tmp], bit, pos); }
    forall i | 8 * s <= i < 8 * s + 8
      ensures (BitAt([tmp], i - 8 * s) == bit) == (8 * s + a <= i < 8 * s + b && BitAt(p, i) == bit)
    {
      BitOfByte(p, s, i - 8 * s);
      BitOfByte([tmp], 0, i - 8 * s);
    }
    assert forall i | 0 <= i < 8 :: ZeroPadded([tmp], i) == BitAt([tmp], i);
  }

  lemma PastEnd(t: Bytes, bit: bool, pos: int)
    requires pos >= 0 ==> Bitpos.FirstAt(t, bit, pos)
    requires pos < 0 ==> bit
    ensures pos <= 8 * |t| && (pos == 8 * |t| ==> !bit)
  {
    hide BitAt;
    assert !ZeroPadded(t, 8 * |t|);
  }

  /** The search of whole bytes. */
  method SearchBytes(p: Bytes, address: nat, base: nat, n: nat, bit: bool) returns (pos: int)
    requires base + n <= |p|
    ensures -1 <= pos <= 8 * n && (pos == -1 ==> bit) && (pos == 8 * n ==> !bit)
    ensures pos == -1 || pos == 8 * n ==> Absent(p, bit, 8 * base, 8 * (base + n))
    ensures 0 <= pos < 8 * n ==> IsFirst(p, bit, 8 * base, 8 * base + pos)
  {
    hide HasBit, Mask8;
    var t := p[base..base + n];
    pos := Bitpos.Bitpos(t, address + base, bit);
    PastEnd(t, bit, pos);
    forall i | 8 * base <= i < 8 * (base + n)
      ensures ZeroPadded(t, i - 8 * base) == BitAt(p, i)
    {
      ByteSame(t, p, (i - 8 * base) / 8, i / 8);
    }
  }
}
