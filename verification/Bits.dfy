/** Bytes and the bits of a string: bit 0 is the most significant bit of the first byte. */
module Bits {
  type Bytes = seq<bv8>

  function Mask8(k: nat): bv8 {
    if k == 0 then 0x80 else if k == 1 then 0x40 else if k == 2 then 0x20 else if k == 3 then 0x10
    else if k == 4 then 8 else if k == 5 then 4 else if k == 6 then 2 else if k == 7 then 1 else 0
  }

  predicate HasBit(b: bv8, m: bv8) { b & m != 0 }

  predicate BitAt(s: Bytes, i: nat)
    requires i < 8 * |s|
  {
    HasBit(s[i / 8], Mask8(i % 8))
  }

  /** The string as zero padded on the right without end. */
  predicate ZeroPadded(s: Bytes, i: nat) { i < 8 * |s| && BitAt(s, i) }

  /** The number of set bits at positions lo <= i < hi. */
  function Count(s: Bytes, lo: nat, hi: nat): nat
    requires hi <= 8 * |s|
    decreases hi
  {
    if lo >= hi then 0 else Count(s, lo, hi - 1) + if BitAt(s, hi - 1) then 1 else 0
  }

  lemma {:induction false} CountSplit(s: Bytes, lo: nat, mid: nat, hi: nat)
    requires lo <= mid <= hi <= 8 * |s|
    ensures Count(s, lo, hi) == Count(s, lo, mid) + Count(s, mid, hi)
    decreases hi
  {
    if mid < hi { CountSplit(s, lo, mid, hi - 1); }
  }

  /** Equal bits, possibly at other positions, are counted alike. */
  lemma {:induction false} CountSame(s: Bytes, lo: nat, hi: nat, t: Bytes, to: nat)
    requires lo <= hi <= 8 * |s| && to + (hi - lo) <= 8 * |t|
    requires forall i | lo <= i < hi :: BitAt(s, i) == BitAt(t, to + (i - lo))
    ensures Count(s, lo, hi) == Count(t, to, to + (hi - lo))
    decreases hi
  {
    if lo < hi {
      CountSame(s, lo, hi - 1, t, to);
      assert BitAt(s, hi - 1) == BitAt(t, to + (hi - 1 - lo));
    }
  }

  lemma {:induction false} CountNone(s: Bytes, lo: nat, hi: nat)
    requires hi <= 8 * |s| && forall i | lo <= i < hi :: !BitAt(s, i)
    ensures Count(s, lo, hi) == 0
    decreases hi
  {
    if lo < hi { CountNone(s, lo, hi - 1); }
  }

  lemma ByteSame(s: Bytes, t: Bytes, j: nat, k: nat)
    requires j < |s| && k < |t| && s[j] == t[k]
    ensures forall i | 8 * j <= i < 8 * j + 8 :: BitAt(s, i) == BitAt(t, 8 * k + (i - 8 * j))
  {
    hide HasBit, Mask8;
    forall i | 8 * j <= i < 8 * j + 8
      ensures BitAt(s, i) == BitAt(t, 8 * k + (i - 8 * j))
    {
      assert i / 8 == j && (8 * k + (i - 8 * j)) / 8 == k;
      assert i % 8 == (8 * k + (i - 8 * j)) % 8;
    }
  }

  function CountByte(b: bv8): nat { Count([b], 0, 8) }

  lemma CountByteAt(s: Bytes, j: nat)
    requires j < |s|
    ensures Count(s, 8 * j, 8 * j + 8) == CountByte(s[j])
  {
    hide BitAt, Count;
    ByteSame(s, [s[j]], j, 0);
    CountSame(s, 8 * j, 8 * j + 8, [s[j]], 0);
  }

  lemma BitOfByte(p: Bytes, s: nat, i: nat)
    requires s < |p| && i < 8
    ensures BitAt(p, 8 * s + i) == HasBit(p[s], Mask8(i))
  {
    hide HasBit, Mask8;
    assert (8 * s + i) / 8 == s && (8 * s + i) % 8 == i;
  }

  /** A word as the machine loads it, lowest byte first. */
  function Loaded(a: bv8, b: bv8, c: bv8, d: bv8, e: bv8, f: bv8, g: bv8, h: bv8): bv64 {
    (a as bv64) | ((b as bv64) << 8) | ((c as bv64) << 16) | ((d as bv64) << 24)
    | ((e as bv64) << 32) | ((f as bv64) << 40) | ((g as bv64) << 48) | ((h as bv64) << 56)
  }

  function WordAt(s: Bytes, c: nat): bv64
    requires c + 8 <= |s|
  {
    Loaded(s[c], s[c + 1], s[c + 2], s[c + 3], s[c + 4], s[c + 5], s[c + 6], s[c + 7])
  }
}
