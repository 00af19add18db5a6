/** Integers of any width inside a bitmap (bitops.c:209-241). */
module Bitfield {
  import opened Bits
  import opened BitRange

  // ----- a bitmap as a sequence of bits -----

  function BitsOf(s: Bytes): (b: seq<bool>)
    ensures |b| == 8 * |s|
  {
    seq(8 * |s|, i requires 0 <= i < 8 * |s| => BitAt(s, i))
  }

  /** The bitmap reads as zero behind its end. */
  function At(b: seq<bool>, i: nat): nat { if i < |b| && b[i] then 1 else 0 }

  function Pow2(n: nat): (r: nat)
    ensures r > 0
  {
    if n == 0 then 1 else 2 * Pow2(n - 1)
  }

  /** The n bits from `off` on, most significant first. */
  function Field(b: seq<bool>, off: nat, n: nat): nat {
    if n == 0 then 0 else 2 * Field(b, off, n - 1) + At(b, off + n - 1)
  }

  /** Bit k of a value, counted from the least significant one. */
  function ValueBit(value: nat, k: nat): bool { value / Pow2(k) % 2 == 1 }

  /** The bitmap with the low n bits of the value stored from `off` on. */
  function Written(b: seq<bool>, off: nat, n: nat, value: nat): (r: seq<bool>)
    requires off + n <= |b|
    ensures |r| == |b|
  {
    seq(|b|, i requires 0 <= i < |b| =>
      if off <= i < off + n then ValueBit(value, n - 1 - (i - off)) else b[i])
  }

  lemma {:induction false} FieldBound(b: seq<bool>, off: nat, n: nat)
    ensures Field(b, off, n) < Pow2(n)
  {
    if n > 0 { FieldBound(b, off, n - 1); }
  }

  /** Fields whose bits agree are equal. */
  lemma {:induction false} FieldSame(b: seq<bool>, c: seq<bool>, off: nat, to: nat, n: nat)
    requires forall i | off <= i < off + n :: At(b, i) == At(c, to + (i - off))
    ensures Field(b, off, n) == Field(c, to, n)
  {
    if n > 0 {
      FieldSame(b, c, off, to, n - 1);
      assert At(b, off + n - 1) == At(c, to + (off + n - 1 - off));
    }
  }

  /** The field read after a write is the value reduced to the width. */
  lemma {:induction false} ReadBack(b: seq<bool>, off: nat, n: nat, value: nat, k: nat)
    requires off + n <= |b| && k <= n
    ensures Field(Written(b, off, n, value), off, k) == value / Pow2(n - k) % Pow2(k)
    decreases k
  {
    hide Written, Pow2;
    if k > 0 {
      ReadBack(b, off, n, value, k - 1);
      WrittenBit(b, off, n, value, off + k - 1);
      DivideTwice(value, n - k);
      NextDigit(value / Pow2(n - k), k);
    } else {
      assert Pow2(0) == 1 by { PowZero(); }
    }
  }

  lemma WrittenBit(b: seq<bool>, off: nat, n: nat, value: nat, i: nat)
    requires off + n <= |b|
    ensures At(Written(b, off, n, value), i)
         == if off <= i < off + n then value / Pow2(n - 1 - (i - off)) % 2 else At(b, i)
  {
    hide Pow2;
    if off <= i < off + n {
      var k := n - 1 - (i - off);
      assert Written(b, off, n, value)[i] == ValueBit(value, k);
      ZeroOrOne(value / Pow2(k));
    }
  }

  lemma ZeroOrOne(d: int)
    ensures d % 2 == 0 || d % 2 == 1
  {}

  lemma PowZero()
    ensures Pow2(0) == 1
  {}

  lemma DivideTwice(value: nat, m: nat)
    ensures value / Pow2(m + 1) == value / Pow2(m) / 2
  {
    var p := Pow2(m);
    assert value == p * (value / p) + value % p;
    assert value / p == 2 * (value / p / 2) + value / p % 2;
    var q, r := value / p / 2, p * (value / p % 2) + value % p;
    assert value == (2 * p) * q + r;
    assert 0 <= r < 2 * p;
    UniqueDivision(value, 2 * p, q, r);
  }

  lemma UniqueDivision(x: int, d: int, q: int, r: int)
    requires d > 0 && x == d * q + r && 0 <= r < d
    ensures x / d == q && x % d == r
  {
    var k := x / d - q;
    assert d * k == r - x % d;
    AtLeastOnce(d, k);
  }

  lemma AtLeastOnce(d: int, k: int)
    requires d > 0
    ensures k >= 1 ==> d * k >= d
    ensures k <= -1 ==> d * k <= -d
  {}

  lemma NextDigit(x: nat, k: nat)
    requires k > 0
    ensures x % Pow2(k) == 2 * (x / 2 % Pow2(k - 1)) + x % 2
  {
    var p := Pow2(k - 1);
    var q := x / 2 / p;
    var r := x / 2 % p;
    assert x / 2 == p * q + r;
    assert x == (2 * p) * q + (2 * r + x % 2);
    UniqueDivision(x, 2 * p, q, 2 * r + x % 2);
  }

  /** Whole fields outside the written one read as before. */
  lemma OtherField(b: seq<bool>, off: nat, n: nat, value: nat, off2: nat, n2: nat)
    requires off + n <= |b| && (off2 + n2 <= off || off + n <= off2)
    ensures Field(Written(b, off, n, value), off2, n2) == Field(b, off2, n2)
  {
    var w := Written(b, off, n, value);
    forall i | off2 <= i < off2 + n2
      ensures At(w, i) == At(b, off2 + (i - off2))
    {
      WrittenBit(b, off, n, value, i);
    }
    FieldSame(w, b, off2, off2, n2);
  }

  /** Writing back what a field holds changes nothing. */
  lemma WriteSame(b: seq<bool>, off: nat, n: nat, value: nat)
    requires off + n <= |b| && value % Pow2(n) == Field(b, off, n)
    ensures Written(b, off, n, value) == b
  {
    hide Pow2;
    var w := Written(b, off, n, value);
    ReadBack(b, off, n, value, n);
    PowZero();
    FieldInjective(w, b, off, n);
    forall i | 0 <= i < |b|
      ensures w[i] == b[i]
    {
      WrittenBit(b, off, n, value, i);
      if off <= i < off + n { assert At(w, i) == At(b, i); }
    }
  }

  lemma {:induction false} FieldInjective(b: seq<bool>, c: seq<bool>, off: nat, n: nat)
    requires Field(b, off, n) == Field(c, off, n)
    ensures forall i | off <= i < off + n :: At(b, i) == At(c, i)
  {
    if n > 0 {
      FieldInjective(b, c, off, n - 1);
    }
  }

  // ----- bytes -----

  /** Clears bit k of a byte and puts the new value there. */
  function SetBit(b: bv8, k: nat, v: bool): bv8 { (b & !Mask8(k)) | (if v then Mask8(k) else 0) }

  lemma SetMasked(b: bv8, m: bv8, x: bv8, v: bool)
    requires m & (m - 1) == 0 && m != 0 && x & (x - 1) == 0 && x != 0
    ensures HasBit((b & !m) | (if v then m else 0), x) == if x == m then v else HasBit(b, x)
  {}

  lemma MasksDiffer(k: nat, j: nat)
    requires k < 8 && j < 8
    ensures Mask8(k) == Mask8(j) <==> k == j
  {}

  lemma SetBitAt(b: bv8, k: nat, v: bool, j: nat)
    requires k < 8 && j < 8
    ensures HasBit(SetBit(b, k, v), Mask8(j)) == if j == k then v else HasBit(b, Mask8(j))
  {
    hide Mask8, HasBit;
    MaskIsOneBit(k);
    MaskIsOneBit(j);
    MasksDiffer(k, j);
    SetMasked(b, Mask8(k), Mask8(j), v);
  }

  lemma SetByte(s: Bytes, off: nat, v: bool)
    requires off < 8 * |s|
    ensures BitsOf(s[off / 8 := SetBit(s[off / 8], off % 8, v)]) == BitsOf(s)[off := v]
  {
    hide HasBit, Mask8, SetBit;
    var t := s[off / 8 := SetBit(s[off / 8], off % 8, v)];
    forall i | 0 <= i < 8 * |s|
      ensures BitsOf(t)[i] == BitsOf(s)[off := v][i]
    {
      SetBitAt(s[off / 8], off % 8, v, i % 8);
    }
  }

  /** setUnsignedBitfield: works in place, one bit after the other. */
  method SetUnsigned(p: array<bv8>, offset: nat, bits: nat, value: nat)
    requires offset + bits <= 8 * p.Length
    modifies p
    ensures BitsOf(p[..]) == Written(old(BitsOf(p[..])), offset, bits, value)
  {
    hide HasBit, Mask8, SetBit, BitAt, ValueBit;
    ghost var b := BitsOf(p[..]);
    var off := offset;
    var j := 0;
    while j < bits
      invariant 0 <= j <= bits && off == offset + j
      invariant BitsOf(p[..]) == Partly(b, offset, bits, value, j)
    {
      var v := ValueBit(value, bits - 1 - j);
      SetByte(p[..], off, v);
      ghost var s := p[..];
      p[off / 8] := SetBit(p[off / 8], off % 8, v);
      assert p[..] == s[off / 8 := SetBit(s[off / 8], off % 8, v)];
      off := off + 1;
      j := j + 1;
    }
  }

  /** After j rounds. */
  ghost function Partly(b: seq<bool>, off: nat, n: nat, value: nat, j: nat): (r: seq<bool>)
    requires off + n <= |b| && j <= n
    ensures |r| == |b|
  {
    seq(|b|, i requires 0 <= i < |b| =>
      if off <= i < off + j then ValueBit(value, n - 1 - (i - off)) else b[i])
  }

  /** getUnsignedBitfield */
  method GetUnsigned(p: Bytes, offset: nat, bits: nat) returns (value: nat)
    requires offset + bits <= 8 * |p|
    ensures value == Field(BitsOf(p), offset, bits) && value < Pow2(bits)
  {
    hide HasBit, Mask8, Pow2;
    value := 0;
    var off, j := offset, 0;
    while j < bits
      invariant 0 <= j <= bits && off == offset + j
      invariant value == Field(BitsOf(p), offset, j)
    {
      var bitval := if HasBit(p[off / 8], Mask8(off % 8)) then 1 else 0;
      value := 2 * value + bitval;
      off := off + 1;
      j := j + 1;
    }
    FieldBound(BitsOf(p), offset, bits);
  }
}
