/** BITCOUNT (bitops.c:796-874). */
module BitCount {
  import opened Bits
  import opened BitRange
  import Popcount

  /** Both indexes count from the end and name an empty range. */
  predicate Backwards(r: Range) { r.Between? && r.start < 0 && r.end < 0 && r.start > r.end }

  /** The range that such indexes are clamped to is empty, unless both lie in front of the string;
      then it is the first byte or bit. */
  lemma BackwardsRange(r: Range, len: nat)
    requires Backwards(r)
    ensures var total := if r.isBit then 8 * len else len;
            && (First(r, len) < Behind(r, len) <==> total > 0 && r.start <= -total)
            && (First(r, len) < Behind(r, len) ==> First(r, len) == 0 && Behind(r, len) == if r.isBit then 1 else 8)
  {}

  lemma {:induction false} CountsSome(p: Bytes, lo: nat, hi: nat)
    requires hi <= 8 * |p|
    ensures Count(p, lo, hi) > 0 <==> exists i :: lo <= i < hi && BitAt(p, i)
    decreases hi
  {
    hide BitAt;
    if lo < hi { CountsSome(p, lo, hi - 1); }
  }

  /** Exactly when the 0 that is returned for such indexes is not the count of the clamped range. */
  lemma BackwardsMisses(p: Bytes, r: Range)
    requires Backwards(r)
    ensures var total, n := if r.isBit then 8 * |p| else |p|, if r.isBit then 1 else 8;
            Count(p, First(r, |p|), Behind(r, |p|)) != 0
            <==> |p| > 0 && r.start <= -total && exists i :: 0 <= i < n && BitAt(p, i)
  {
    hide BitAt, Count;
    BackwardsRange(r, |p|);
    CountsSome(p, First(r, |p|), Behind(r, |p|));
  }

  /** MAIN RESULT: the number of set bits of the clamped range. */
  method BitCount(p: Bytes, address: nat, range: Range) returns (count: int)
    ensures count == if Backwards(range) then 0 else Count(p, First(range, |p|), Behind(range, |p|))
  {
    hide Count, FirstMask, LastMask;
    var start, end := 0, |p| - 1;
    var firstMask: bv8, lastMask: bv8 := 0, 0;
    ghost var k1, k2 := 0, 7;
    WholeEdges();
    if range.Between? {
      if Backwards(range) {
        return 0;
      }
      var total := if range.isBit then 8 * |p| else |p|;
      start := Index(range.start, total);
      end := Index(range.end, total);
      if end >= total {
        end := total - 1;
      }
      if range.isBit && start <= end {
        firstMask, lastMask := FirstMask(start % 8), LastMask(end % 8);
        k1, k2 := start % 8, end % 8;
        start, end := start / 8, end / 8;
      }
    }
    if start > end {
      EmptyCount(p, First(range, |p|), Behind(range, |p|));
      return 0;
    }
    count := CountBetween(p, address, start, end, firstMask, lastMask, k1, k2);
  }

  /** The bytes from start to end, less the bits under the two masks. */
  method CountBetween(p: Bytes, address: nat, start: nat, end: nat, firstMask: bv8, lastMask: bv8,
                      ghost k1: nat, ghost k2: nat) returns (count: int)
    requires start <= end < |p| && k1 < 8 && k2 < 8 && 8 * start + k1 <= 8 * end + k2
    requires firstMask == FirstMask(k1) && lastMask == LastMask(k2)
    ensures count == Count(p, 8 * start + k1, 8 * end + k2 + 1)
  {
    hide Count, FirstMask, LastMask, CountByte;
    count := Popcount.Popcount(p[start..end + 1], address + start);
    SliceCount(p, start, end + 1);
    MaskIsEdge(k1, k2);
    EdgeCount(p, start, end, k1, k2);
    if firstMask != 0 || lastMask != 0 {
      var stack: nat := *;
      var firstLast := [p[start] & firstMask, p[end] & lastMask];
      var out := Popcount.Popcount(firstLast, stack);
      PairCount(firstLast[0], firstLast[1]);
      count := count - out;
    }
  }

  lemma EmptyCount(p: Bytes, lo: nat, hi: nat)
    requires hi <= lo && hi <= 8 * |p|
    ensures Count(p, lo, hi) == 0
  {}

  lemma PairCount(a: bv8, b: bv8)
    ensures Count([a, b], 0, 16) == CountByte(a) + CountByte(b)
  {
    hide Count, CountByte;
    CountByteAt([a, b], 0);
    CountByteAt([a, b], 1);
    CountSplit([a, b], 0, 8, 16);
  }

  /** The bytes from s to e less the masked edges. */
  lemma EdgeCount(p: Bytes, s: nat, e: nat, k1: nat, k2: nat)
    requires s <= e < |p| && k1 < 8 && k2 < 8 && 8 * s + k1 <= 8 * e + k2
    ensures Count(p, 8 * s, 8 * (e + 1)) - CountByte(p[s] & FirstMask(k1)) - CountByte(p[e] & LastMask(k2))
         == Count(p, 8 * s + k1, 8 * e + k2 + 1)
  {
    hide Count, CountByte, FirstMask, LastMask;
    FirstMaskedCount(p, s, k1);
    LastMaskedCount(p, e, k2);
    CountSplit(p, 8 * s, 8 * s + k1, 8 * (e + 1));
    CountSplit(p, 8 * s + k1, 8 * e + k2 + 1, 8 * (e + 1));
  }

  lemma SliceCount(p: Bytes, from: nat, to: nat)
    requires from <= to <= |p|
    ensures Count(p[from..to], 0, 8 * (to - from)) == Count(p, 8 * from, 8 * to)
  {
    hide Count, BitAt;
    var t := p[from..to];
    forall i | 0 <= i < 8 * (to - from)
      ensures BitAt(t, i) == BitAt(p, 8 * from + (i - 0))
    {
      ByteSame(t, p, i / 8, from + i / 8);
    }
    CountSame(t, 0, 8 * (to - from), p, 8 * from);
  }

  /** The masked byte counts the bits in front of bit k, or behind it. */
  lemma FirstMaskedCount(p: Bytes, s: nat, k: nat)
    requires s < |p| && k < 8
    ensures CountByte(p[s] & FirstMask(k)) == Count(p, 8 * s, 8 * s + k)
  {
    hide Count, BitAt, FirstMask, HasBit, Mask8;
    var t := [p[s] & FirstMask(k)];
    forall i | 0 <= i < 8
      ensures BitAt(t, i) == (i < k && BitAt(p, 8 * s + i))
    {
      AndBit(p[s], FirstMask(k), i);
      FirstMaskBit(k, i);
      BitOfByte(t, 0, i);
      BitOfByte(p, s, i);
    }
    CountSplit(t, 0, k, 8);
    CountNone(t, k, 8);
    CountSame(t, 0, k, p, 8 * s);
  }

  lemma LastMaskedCount(p: Bytes, s: nat, k: nat)
    requires s < |p| && k < 8
    ensures CountByte(p[s] & LastMask(k)) == Count(p, 8 * s + k + 1, 8 * s + 8)
  {
    hide Count, BitAt, LastMask, HasBit, Mask8;
    var t := [p[s] & LastMask(k)];
    forall i | 0 <= i < 8
      ensures BitAt(t, i) == (i > k && BitAt(p, 8 * s + i))
    {
      AndBit(p[s], LastMask(k), i);
      LastMaskBit(k, i);
      BitOfByte(t, 0, i);
      BitOfByte(p, s, i);
    }
    CountSplit(t, 0, k + 1, 8);
    CountNone(t, 0, k + 1);
    CountSame(t, k + 1, 8, p, 8 * s + k + 1);
  }
}
