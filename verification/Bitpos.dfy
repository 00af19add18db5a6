/** The word skipping bit search (bitops.c:101-186). */
module Bitpos {
  import opened Bits

  // ----- words of eight bytes -----

  const ALL_ONES: bv64 := 0xffff_ffff_ffff_ffff

  lemma LoadedSkips(a: bv8, b: bv8, c: bv8, d: bv8, e: bv8, f: bv8, g: bv8, h: bv8)
    ensures Loaded(a, b, c, d, e, f, g, h) == 0
       <==> a == 0 && b == 0 && c == 0 && d == 0 && e == 0 && f == 0 && g == 0 && h == 0
    ensures Loaded(a, b, c, d, e, f, g, h) == ALL_ONES
       <==> a == 0xff && b == 0xff && c == 0xff && d == 0xff && e == 0xff && f == 0xff && g == 0xff && h == 0xff
  {}

  /** One step of the loop that builds a word with the first byte on top. */
  function Append(w: bv64, b: bv8): bv64 { (w << 8) | (b as bv64) }

  predicate Has64(w: bv64, m: bv64) { w & m != 0 }

  lemma LowByte(w: bv64, b: bv8, m: bv8)
    ensures Append(w, b) & (m as bv64) == (b & m) as bv64
  {}

  lemma WideZero(b: bv8)
    ensures b as bv64 == 0 <==> b == 0
  {}

  lemma AppendLow(w: bv64, b: bv8, m: bv8)
    ensures Has64(Append(w, b), m as bv64) == HasBit(b, m)
  {
    hide Append;
    LowByte(w, b, m);
    WideZero(b & m);
  }

  lemma AppendHigh(w: bv64, b: bv8, m: bv64)
    requires m & 0xff00_0000_0000_0000 == 0
    ensures Has64(Append(w, b), m << 8) == Has64(w, m)
  {}

  /** The mask m moved to the byte that q more bytes follow. */
  function ByteMask(q: nat, m: bv8): bv64 {
    if q == 0 then m as bv64 else if q == 1 then (m as bv64) << 8 else if q == 2 then (m as bv64) << 16
    else if q == 3 then (m as bv64) << 24 else if q == 4 then (m as bv64) << 32
    else if q == 5 then (m as bv64) << 40 else if q == 6 then (m as bv64) << 48 else (m as bv64) << 56
  }

  lemma ByteMaskNext(q: nat, m: bv8)
    requires q < 7
    ensures ByteMask(q, m) & 0xff00_0000_0000_0000 == 0 && ByteMask(q + 1, m) == ByteMask(q, m) << 8
  {}

  /** The word built from bytes, the first byte on top. */
  function Built(t: Bytes): bv64 {
    if t == [] then 0 else Append(Built(t[..|t| - 1]), t[|t| - 1])
  }

  lemma {:induction false} BuiltByte(t: Bytes, i: nat, m: bv8)
    requires i < |t| <= 8
    ensures Has64(Built(t), ByteMask(|t| - 1 - i, m)) == HasBit(t[i], m)
    decreases |t|
  {
    hide Append, Has64, ByteMask, HasBit;
    var w, b := Built(t[..|t| - 1]), t[|t| - 1];
    if i == |t| - 1 {
      AppendLast(w, b, m);
    } else {
      BuiltByte(t[..|t| - 1], i, m);
      AppendNext(w, b, |t| - 2 - i, m);
    }
  }

  lemma AppendLast(w: bv64, b: bv8, m: bv8)
    ensures Has64(Append(w, b), ByteMask(0, m)) == HasBit(b, m)
  {
    hide Has64, Append, HasBit;
    AppendLow(w, b, m);
  }

  lemma AppendNext(w: bv64, b: bv8, q: nat, m: bv8)
    requires q < 7
    ensures Has64(Append(w, b), ByteMask(q + 1, m)) == Has64(w, ByteMask(q, m))
  {
    hide Has64, Append, ByteMask;
    ByteMaskNext(q, m);
    AppendHigh(w, b, ByteMask(q, m));
  }

  /** Bit i of a word, counted from the top. */
  function Mask64(i: nat): bv64 { if i < 64 then ByteMask(7 - i / 8, Mask8(i % 8)) else 0 }

  lemma MaskShift(q: nat, k: nat)
    requires q < 8 && k < 8
    ensures ByteMask(q, Mask8(k)) >> 1
         == if k < 7 then ByteMask(q, Mask8(k + 1)) else if q > 0 then ByteMask(q - 1, 0x80) else 0
    ensures ByteMask(q, Mask8(k)) != 0
  {}

  lemma Mask64Next(i: nat)
    requires i < 64
    ensures Mask64(i) >> 1 == Mask64(i + 1) && Mask64(i) != 0
  {
    hide ByteMask, Mask8;
    MaskShift(7 - i / 8, i % 8);
    TopMask8();
  }

  lemma TopMask8()
    ensures Mask8(0) == 0x80
  {}

  lemma TopMask()
    ensures Mask64(0) == !(ALL_ONES >> 1)
  {}

  // ----- the eight bytes from c on, padded with zeros -----

  function Block(s: Bytes, c: nat): (t: Bytes)
    ensures |t| == 8
  {
    seq(8, k requires 0 <= k < 8 => if c + k < |s| then s[c + k] else 0)
  }

  lemma BlockBit(s: Bytes, c: nat, i: nat)
    requires i < 64
    ensures HasBit(Block(s, c)[i / 8], Mask8(i % 8)) == ZeroPadded(s, 8 * c + i)
  {
    hide HasBit, Mask8;
    ZeroByte(Mask8(i % 8));
    assert (8 * c + i) / 8 == c + i / 8 && (8 * c + i) % 8 == i % 8;
  }

  lemma ZeroByte(m: bv8)
    ensures !HasBit(0, m)
  {}

  lemma WordBit(s: Bytes, c: nat, i: nat)
    requires i < 64
    ensures Has64(Built(Block(s, c)), Mask64(i)) == ZeroPadded(s, 8 * c + i)
  {
    hide Has64, Built, ByteMask, Mask8, HasBit, Block, ZeroPadded;
    BuiltByte(Block(s, c), i / 8, Mask8(i % 8));
    BlockBit(s, c, i);
  }

  /** A byte of `Skip` has no bit of the kind looked for, any other byte has one. */
  function Skip(bit: bool): bv8 { if bit then 0 else 0xff }

  lemma SkippedByte(bit: bool, k: nat)
    requires k < 8
    ensures HasBit(Skip(bit), Mask8(k)) != bit
  {}

  function BitIn(b: bv8, bit: bool): nat {
    if HasBit(b, 0x80) == bit then 0 else if HasBit(b, 0x40) == bit then 1 else if HasBit(b, 0x20) == bit then 2
    else if HasBit(b, 0x10) == bit then 3 else if HasBit(b, 8) == bit then 4 else if HasBit(b, 4) == bit then 5
    else if HasBit(b, 2) == bit then 6 else 7
  }

  lemma OtherByte(b: bv8, bit: bool)
    requires b != Skip(bit)
    ensures HasBit(b, Mask8(BitIn(b, bit))) == bit
  {}

  lemma OtherBlock(s: Bytes, c: nat, bit: bool, q: nat) returns (i: nat)
    requires q < 8 && Block(s, c)[q] != Skip(bit)
    ensures i < 64 && ZeroPadded(s, 8 * c + i) == bit
  {
    hide HasBit, Mask8, Block, ZeroPadded, BitIn, Skip;
    var k := BitIn(Block(s, c)[q], bit);
    OtherByte(Block(s, c)[q], bit);
    BitInRange(Block(s, c)[q], bit);
    i := 8 * q + k;
    assert i / 8 == q && i % 8 == k;
    BlockBit(s, c, i);
  }

  lemma BitInRange(b: bv8, bit: bool)
    ensures BitIn(b, bit) < 8
  {}

  // ----- redisBitpos -----

  /** No bit in front of n, in the zero padded string, is the one looked for. */
  ghost predicate Without(s: Bytes, bit: bool, n: nat) {
    forall i | 0 <= i < n :: ZeroPadded(s, i) != bit
  }

  /** Position n holds the first such bit. */
  ghost predicate FirstAt(s: Bytes, bit: bool, n: nat) { ZeroPadded(s, n) == bit && Without(s, bit, n) }

  lemma SkipByte(s: Bytes, bit: bool, c: nat)
    requires c < |s| && s[c] == Skip(bit) && Without(s, bit, 8 * c)
    ensures Without(s, bit, 8 * c + 8)
  {
    hide HasBit, Mask8, Skip;
    forall i | 0 <= i < 8 * c + 8
      ensures ZeroPadded(s, i) != bit
    {
      if i >= 8 * c { SkippedByte(bit, i % 8); }
    }
  }

  function SkipWord(bit: bool): bv64 { if bit then 0 else ALL_ONES }

  /** The eight bytes from c on hold nothing of interest. */
  ghost predicate Dull(s: Bytes, bit: bool, c: nat) {
    forall k | 0 <= k < 8 :: Block(s, c)[k] == Skip(bit)
  }

  lemma WordSkips(s: Bytes, bit: bool, c: nat)
    requires c + 8 <= |s|
    ensures WordAt(s, c) == SkipWord(bit) <==> Dull(s, bit, c)
  {
    hide Loaded;
    LoadedSkips(s[c], s[c + 1], s[c + 2], s[c + 3], s[c + 4], s[c + 5], s[c + 6], s[c + 7]);
    assert Block(s, c)[0] == s[c] && Block(s, c)[1] == s[c + 1] && Block(s, c)[2] == s[c + 2];
    assert Block(s, c)[3] == s[c + 3] && Block(s, c)[4] == s[c + 4] && Block(s, c)[5] == s[c + 5];
    assert Block(s, c)[6] == s[c + 6] && Block(s, c)[7] == s[c + 7];
  }

  lemma SkipBlock(s: Bytes, bit: bool, c: nat)
    requires Dull(s, bit, c) && Without(s, bit, 8 * c)
    ensures Without(s, bit, 8 * (c + 8))
  {
    hide HasBit, Mask8, Skip, Block, ZeroPadded;
    forall i | 0 <= i < 8 * (c + 8)
      ensures ZeroPadded(s, i) != bit
    {
      if i >= 8 * c {
        BlockBit(s, c, i - 8 * c);
        SkippedByte(bit, (i - 8 * c) % 8);
      }
    }
  }

  lemma ShortIsNotDull(s: Bytes, c: nat)
    requires c <= |s| < c + 8
    ensures Block(s, c)[7] != Skip(false)
  {}

  lemma ZeroIsDull(s: Bytes, c: nat)
    ensures Built(Block(s, c)) == 0 ==> Dull(s, true, c)
  {
    hide Built, Block, Has64, ZeroPadded, Mask64, Skip;
    if Built(Block(s, c)) == 0 {
      forall q | 0 <= q < 8
        ensures Block(s, c)[q] == Skip(true)
      {
        if Block(s, c)[q] != Skip(true) {
          var i := OtherBlock(s, c, true, q);
          WordBit(s, c, i);
          ZeroHasNone(Mask64(i));
          assert false;
        }
      }
    }
  }

  lemma DullIsZero(s: Bytes, c: nat)
    requires Dull(s, true, c)
    ensures Built(Block(s, c)) == 0
  {
    BuiltZeros(Block(s, c));
  }

  lemma {:induction false} BuiltZeros(t: Bytes)
    requires forall k | 0 <= k < |t| :: t[k] == 0
    ensures Built(t) == 0
  {
    if t != [] {
      BuiltZeros(t[..|t| - 1]);
      PadByte(0);
    }
  }

  lemma ZeroHasNone(m: bv64)
    ensures !Has64(0, m)
  {}

  /** Loads up to eight bytes with the first one on top. */
  method BuildWord(s: Bytes, from: nat) returns (word: bv64)
    requires from <= |s|
    ensures word == Built(Block(s, from))
  {
    hide Append;
    word := 0;
    var c, count, j := from, |s| - from, 0;
    while j < 8
      invariant 0 <= j <= 8 && 0 <= count && c + count == |s|
      invariant c == if from + j < |s| then from + j else |s|
      invariant word == Built(Block(s, from)[..j])
    {
      assert Block(s, from)[..j + 1][..j] == Block(s, from)[..j];
      PadByte(word);
      if count > 0 {
        word := Append(word, s[c]);
        c, count := c + 1, count - 1;
      } else {
        word := word << 8;
      }
      j := j + 1;
    }
    assert Block(s, from)[..8] == Block(s, from);
  }

  lemma PadByte(w: bv64)
    ensures Append(w, 0) == w << 8
  {}

  /** Scans a word bit by bit; the end of the word, where the source panics, is not reached. */
  method Scan(s: Bytes, c: nat, bit: bool, word: bv64, ghost there: nat) returns (pos: nat)
    requires word == Built(Block(s, c)) && there < 64 && ZeroPadded(s, 8 * c + there) == bit
    requires Without(s, bit, 8 * c)
    ensures FirstAt(s, bit, pos)
  {
    hide Built, Block, ZeroPadded, Mask64, Has64;
    pos := 8 * c;
    var one := !(ALL_ONES >> 1);
    TopMask();
    ghost var i := 0;
    while one != 0
      invariant 0 <= i <= there && pos == 8 * c + i && one == Mask64(i)
      invariant Without(s, bit, pos)
      decreases 64 - i
    {
      WordBit(s, c, i);
      if Has64(word, one) == bit {
        return;
      }
      Mask64Next(i);
      pos := pos + 1;
      one := one >> 1;
      i := i + 1;
    }
    Mask64Next(i);
    assert false;
  }

  /** MAIN RESULT: the first such bit of the string, taken as zero padded on the right; -1 only
      when a set bit is looked for and there is none. `address` is where the buffer starts. */
  method Bitpos(s: Bytes, address: nat, bit: bool) returns (pos: int)
    ensures pos >= 0 ==> FirstAt(s, bit, pos)
    ensures pos < 0 ==> pos == -1 && bit && Without(s, true, 8 * |s|)
  {
    hide WordAt, SkipWord, Without, Built, Block;
    var c, count, found := 0, |s|, false;
    assert Without(s, bit, 0) by { NoneYet(s, bit); }
    while (address + c) % 8 != 0 && count > 0
      invariant 0 <= count && c + count == |s| && Without(s, bit, 8 * c)
      invariant !found
      decreases count
    {
      if s[c] != Skip(bit) {
        found := true;
        break;
      }
      SkipByte(s, bit, c);
      c, count := c + 1, count - 1;
    }
    if !found {
      while count >= 8
        invariant 0 <= count && c + count == |s| && Without(s, bit, 8 * c)
      {
        if WordAt(s, c) != SkipWord(bit) {
          break;
        }
        WordSkips(s, bit, c);
        SkipBlock(s, bit, c);
        c, count := c + 8, count - 8;
      }
    }
    assert count < 8 || !Dull(s, bit, c) by {
      if found {
        BlockHead(s, c);
      } else if count >= 8 {
        WordSkips(s, bit, c);
      }
    }
    var word := BuildWord(s, c);
    if bit && word == 0 {
      ZeroIsDull(s, c);
      SkipBlock(s, bit, c);
      WithoutLess(s, bit, 8 * (c + 8), 8 * |s|);
      return -1;
    }
    ghost var there := Somewhere(s, c, bit);
    pos := Scan(s, c, bit, word, there);
  }

  lemma Somewhere(s: Bytes, c: nat, bit: bool) returns (i: nat)
    requires c <= |s| && (|s| < c + 8 || !Dull(s, bit, c)) && (bit ==> Built(Block(s, c)) != 0)
    ensures i < 64 && ZeroPadded(s, 8 * c + i) == bit
  {
    hide Built, Block, ZeroPadded, Skip;
    if !bit && |s| < c + 8 {
      ShortIsNotDull(s, c);
      i := OtherBlock(s, c, bit, 7);
    } else {
      if bit && Dull(s, bit, c) { DullIsZero(s, c); }
      var q :| 0 <= q < 8 && Block(s, c)[q] != Skip(bit);
      i := OtherBlock(s, c, bit, q);
    }
  }

  lemma BlockHead(s: Bytes, c: nat)
    requires c < |s|
    ensures Block(s, c)[0] == s[c]
  {}

  lemma WithoutLess(s: Bytes, bit: bool, n: nat, m: nat)
    requires Without(s, bit, n) && m <= n
    ensures Without(s, bit, m)
  {}

  lemma NoneYet(s: Bytes, bit: bool)
    ensures Without(s, bit, 0)
  {}
}
