/** Population count (bitops.c:40-92). */
module Popcount {
  import opened Bits

  // ----- the byte table -----

  function Pick(j: bv8, a: bv8, b: bv8, c: bv8, d: bv8, e: bv8, f: bv8, g: bv8, h: bv8): bv8 {
    if j < 4
    then if j < 2 then (if j == 0 then a else b) else (if j == 2 then c else d)
    else if j < 6 then (if j == 4 then e else f) else (if j == 6 then g else h)
  }

  /** Rows 0 to 15 of the table, eight entries each. */
  function Rows0(r: bv8, j: bv8): bv8 {
    if r == 0 then Pick(j, 0, 1, 1, 2, 1, 2, 2, 3)
    else if r == 1 then Pick(j, 1, 2, 2, 3, 2, 3, 3, 4)
    else if r == 2 then Pick(j, 1, 2, 2, 3, 2, 3, 3, 4)
    else if r == 3 then Pick(j, 2, 3, 3, 4, 3, 4, 4, 5)
    else if r == 4 then Pick(j, 1, 2, 2, 3, 2, 3, 3, 4)
    else if r == 5 then Pick(j, 2, 3, 3, 4, 3, 4, 4, 5)
    else if r == 6 then Pick(j, 2, 3, 3, 4, 3, 4, 4, 5)
    else if r == 7 then Pick(j, 3, 4, 4, 5, 4, 5, 5, 6)
    else if r == 8 then Pick(j, 1, 2, 2, 3, 2, 3, 3, 4)
    else if r == 9 then Pick(j, 2, 3, 3, 4, 3, 4, 4, 5)
    else if r == 10 then Pick(j, 2, 3, 3, 4, 3, 4, 4, 5)
    else if r == 11 then Pick(j, 3, 4, 4, 5, 4, 5, 5, 6)
    else if r == 12 then Pick(j, 2, 3, 3, 4, 3, 4, 4, 5)
    else if r == 13 then Pick(j, 3, 4, 4, 5, 4, 5, 5, 6)
    else if r == 14 then Pick(j, 3, 4, 4, 5, 4, 5, 5, 6)
    else Pick(j, 4, 5, 5, 6, 5, 6, 6, 7)
  }

  /** Rows 16 to 31 of the table, eight entries each. */
  function Rows1(r: bv8, j: bv8): bv8 {
    if r == 16 then Pick(j, 1, 2, 2, 3, 2, 3, 3, 4)
    else if r == 17 then Pick(j, 2, 3, 3, 4, 3, 4, 4, 5)
    else if r == 18 then Pick(j, 2, 3, 3, 4, 3, 4, 4, 5)
    else if r == 19 then Pick(j, 3, 4, 4, 5, 4, 5, 5, 6)
    else if r == 20 then Pick(j, 2, 3, 3, 4, 3, 4, 4, 5)
    else if r == 21 then Pick(j, 3, 4, 4, 5, 4, 5, 5, 6)
    else if r == 22 then Pick(j, 3, 4, 4, 5, 4, 5, 5, 6)
    else if r == 23 then Pick(j, 4, 5, 5, 6, 5, 6, 6, 7)
    else if r == 24 then Pick(j, 2, 3, 3, 4, 3, 4, 4, 5)
    else if r == 25 then Pick(j, 3, 4, 4, 5, 4, 5, 5, 6)
    else if r == 26 then Pick(j, 3, 4, 4, 5, 4, 5, 5, 6)
    else if r == 27 then Pick(j, 4, 5, 5, 6, 5, 6, 6, 7)
    else if r == 28 then Pick(j, 3, 4, 4, 5, 4, 5, 5, 6)
    else if r == 29 then Pick(j, 4, 5, 5, 6, 5, 6, 6, 7)
    else if r == 30 then Pick(j, 4, 5, 5, 6, 5, 6, 6, 7)
    else Pick(j, 5, 6, 6, 7, 6, 7, 7, 8)
  }

  function BitsInByte(b: bv8): bv8 {
    if b < 0x80 then Rows0(b >> 3, b & 7) else Rows1(b >> 3, b & 7)
  }

  function Ones(b: bv8): bv8 {
    (b >> 7) + ((b >> 6) & 1) + ((b >> 5) & 1) + ((b >> 4) & 1)
    + ((b >> 3) & 1) + ((b >> 2) & 1) + ((b >> 1) & 1) + (b & 1)
  }

  lemma TableLow(b: bv8)
    requires b < 0x80
    ensures BitsInByte(b) == Ones(b)
  {}

  lemma TableHigh(b: bv8)
    requires b >= 0x80
    ensures BitsInByte(b) == Ones(b)
  {}

  lemma AddBit(a: bv8, b: bv8, k: bv8, m: bv8)
    requires a < 8 && k < 8 && m == 1 << k
    ensures (a + ((b >> k) & 1)) as int == a as int + if HasBit(b, m) then 1 else 0
    ensures a + ((b >> k) & 1) <= a + 1
  {}

  lemma OnesIsCount(b: bv8)
    ensures Ones(b) as int == CountByte(b) && Ones(b) <= 8
  {
    hide HasBit;
    var a0 := 0 as bv8;
    var a1 := a0 + ((b >> 7) & 1);
    var a2 := a1 + ((b >> 6) & 1);
    var a3 := a2 + ((b >> 5) & 1);
    var a4 := a3 + ((b >> 4) & 1);
    var a5 := a4 + ((b >> 3) & 1);
    var a6 := a5 + ((b >> 2) & 1);
    var a7 := a6 + ((b >> 1) & 1);
    var a8 := a7 + ((b >> 0) & 1);
    AddBit(a0, b, 7, 0x80);
    AddBit(a1, b, 6, 0x40);
    AddBit(a2, b, 5, 0x20);
    AddBit(a3, b, 4, 0x10);
    AddBit(a4, b, 3, 8);
    AddBit(a5, b, 2, 4);
    AddBit(a6, b, 1, 2);
    AddBit(a7, b, 0, 1);
    assert a8 == Ones(b);
    CountByteUnrolled(b);
  }

  lemma CountByteUnrolled(b: bv8)
    ensures CountByte(b)
         == (if HasBit(b, 0x80) then 1 else 0) + (if HasBit(b, 0x40) then 1 else 0)
          + (if HasBit(b, 0x20) then 1 else 0) + (if HasBit(b, 0x10) then 1 else 0)
          + (if HasBit(b, 8) then 1 else 0) + (if HasBit(b, 4) then 1 else 0)
          + (if HasBit(b, 2) then 1 else 0) + (if HasBit(b, 1) then 1 else 0)
  {
    hide HasBit;
    var s := [b];
    assert Count(s, 0, 2) == (if HasBit(b, 0x80) then 1 else 0) + (if HasBit(b, 0x40) then 1 else 0);
    assert Count(s, 0, 4) == Count(s, 0, 2) + (if HasBit(b, 0x20) then 1 else 0) + (if HasBit(b, 0x10) then 1 else 0);
    assert Count(s, 0, 6) == Count(s, 0, 4) + (if HasBit(b, 8) then 1 else 0) + (if HasBit(b, 4) then 1 else 0);
    assert Count(s, 0, 8) == Count(s, 0, 6) + (if HasBit(b, 2) then 1 else 0) + (if HasBit(b, 1) then 1 else 0);
  }

  lemma TableIsCount(b: bv8)
    ensures BitsInByte(b) as int == CountByte(b)
  {
    hide BitsInByte, Ones, CountByte;
    if b < 0x80 { TableLow(b); } else { TableHigh(b); }
    OnesIsCount(b);
  }

  // ----- seven words at a time -----

  /** A 32 bit word loaded from four bytes, lowest first. */
  function Word(a: bv8, b: bv8, c: bv8, d: bv8): bv32 {
    (a as bv32) | ((b as bv32) << 8) | ((c as bv32) << 16) | ((d as bv32) << 24)
  }

  function Load32(s: Bytes, p: nat): bv32
    requires p + 4 <= |s|
  {
    Word(s[p], s[p + 1], s[p + 2], s[p + 3])
  }

  // The three folding steps, on a word and on one byte.
  function Pairs(w: bv32): bv32 { w - ((w >> 1) & 0x55555555) }

  function Nibbles(w: bv32): bv32 { (w & 0x33333333) + ((w >> 2) & 0x33333333) }

  function Fold(w: bv32): bv32 { (w + (w >> 4)) & 0x0F0F0F0F }

  function PairsByte(b: bv8): bv8 { (b & 0x55) + ((b >> 1) & 0x55) }

  function NibblesByte(b: bv8): bv8 { (b & 0x33) + ((b >> 2) & 0x33) }

  function FoldByte(b: bv8): bv8 { (b + (b >> 4)) & 0x0F }

  lemma FoldedByte(b: bv8)
    ensures FoldByte(NibblesByte(PairsByte(b))) == Ones(b)
    ensures NibblesByte(PairsByte(b)) & 0x88 == 0
  {}

  lemma PairsAdd(w: bv32)
    ensures Pairs(w) == (w & 0x55555555) + ((w >> 1) & 0x55555555)
  {}

  lemma PairsWord(a: bv8, b: bv8, c: bv8, d: bv8)
    ensures Pairs(Word(a, b, c, d)) == Word(PairsByte(a), PairsByte(b), PairsByte(c), PairsByte(d))
  {
    PairsAdd(Word(a, b, c, d));
  }

  lemma NibblesWord(a: bv8, b: bv8, c: bv8, d: bv8)
    ensures Nibbles(Word(a, b, c, d)) == Word(NibblesByte(a), NibblesByte(b), NibblesByte(c), NibblesByte(d))
  {}

  /** The nibble counts leave the carry bits free, so what is shifted in from the neighbour
      is masked away. */
  lemma FoldWord(a: bv8, b: bv8, c: bv8, d: bv8)
    requires a & 0x88 == 0 && b & 0x88 == 0 && c & 0x88 == 0 && d & 0x88 == 0
    ensures Fold(Word(a, b, c, d)) == Word(FoldByte(a), FoldByte(b), FoldByte(c), FoldByte(d))
  {}

  /** One word: its bytes become the bit counts of its bytes. */
  function Counts(w: bv32): bv32 { Fold(Nibbles(Pairs(w))) }

  lemma CountsWord(a: bv8, b: bv8, c: bv8, d: bv8)
    ensures Counts(Word(a, b, c, d)) == Word(Ones(a), Ones(b), Ones(c), Ones(d))
  {
    hide Word, Pairs, Nibbles, Fold, PairsByte, NibblesByte, FoldByte, Ones;
    PairsWord(a, b, c, d);
    NibblesWord(PairsByte(a), PairsByte(b), PairsByte(c), PairsByte(d));
    FoldedByte(a);
    FoldedByte(b);
    FoldedByte(c);
    FoldedByte(d);
    FoldWord(NibblesByte(PairsByte(a)), NibblesByte(PairsByte(b)),
             NibblesByte(PairsByte(c)), NibblesByte(PairsByte(d)));
  }

  /** Byte sums that fit their bytes do not carry. */
  lemma NoCarry(a: bv8, b: bv8, c: bv8, d: bv8, e: bv8, f: bv8, g: bv8, h: bv8)
    requires Fits(a) && Fits(b) && Fits(c) && Fits(d) && Fits(e) && Fits(f) && Fits(g) && Fits(h)
    ensures Word(a, b, c, d) + Word(e, f, g, h) == Word(Plus(a, e), Plus(b, f), Plus(c, g), Plus(d, h))
  {}

  lemma AddWords(a: bv8, b: bv8, c: bv8, d: bv8, e: bv8, f: bv8, g: bv8, h: bv8)
    requires Fits(a) && Fits(b) && Fits(c) && Fits(d) && Fits(e) && Fits(f) && Fits(g) && Fits(h)
    ensures Add(Word(a, b, c, d), Word(e, f, g, h)) == Word(Plus(a, e), Plus(b, f), Plus(c, g), Plus(d, h))
  {
    hide Word, Plus, Fits;
    NoCarry(a, b, c, d, e, f, g, h);
  }

  predicate Fits(a: bv8) { a < 128 }

  function Plus(a: bv8, e: bv8): bv8 { a + e }

  function Add(x: bv32, y: bv32): bv32 { x + y }

  function Value(a: bv8): nat { a as int }

  lemma AddByte(a: bv8, e: bv8)
    requires Value(a) <= 48 && Value(e) <= 8
    ensures Fits(a) && Fits(e) && Value(Plus(a, e)) == Value(a) + Value(e)
  {}

  // ----- the multiplication that adds four bytes -----

  function TopSum(x: bv32): bv32 { (x * 0x01010101) >> 24 }

  function Join(a: bv32, b: bv32, c: bv32, d: bv32): bv32 {
    a + b * 0x100 + c * 0x10000 + d * 0x1000000
  }

  // The same word, written with ab = a + b, then with cd = c + d, then with sum = ab + cd.
  function JoinAb(a: bv32, ab: bv32, c: bv32, d: bv32): bv32 {
    a + (ab - a) * 0x100 + c * 0x10000 + d * 0x1000000
  }

  function JoinCd(a: bv32, ab: bv32, c: bv32, cd: bv32): bv32 {
    a + (ab - a) * 0x100 + c * 0x10000 + (cd - c) * 0x1000000
  }

  function JoinSum(a: bv32, ab: bv32, c: bv32, sum: bv32): bv32 {
    a + (ab - a) * 0x100 + c * 0x10000 + (sum - ab - c) * 0x1000000
  }

  predicate Sums(t: bv32, x: bv32, y: bv32) { t == x + y }

  lemma JoinWithAbExpression(a: bv32, b: bv32, c: bv32, d: bv32, ab: bv32)
    requires ab == a + b
    ensures a + b * 0x100 + c * 0x10000 + d * 0x1000000
         == a + (ab - a) * 0x100 + c * 0x10000 + d * 0x1000000
  {}

  lemma JoinWithAb(a: bv32, b: bv32, c: bv32, d: bv32, ab: bv32)
    requires Sums(ab, a, b)
    ensures Join(a, b, c, d) == JoinAb(a, ab, c, d)
  {
    JoinWithAbExpression(a, b, c, d, ab);
  }

  lemma JoinWithCdExpression(a: bv32, ab: bv32, c: bv32, d: bv32, cd: bv32)
    requires cd == c + d
    ensures a + (ab - a) * 0x100 + c * 0x10000 + d * 0x1000000
         == a + (ab - a) * 0x100 + c * 0x10000 + (cd - c) * 0x1000000
  {}

  lemma JoinWithCd(a: bv32, ab: bv32, c: bv32, d: bv32, cd: bv32)
    requires Sums(cd, c, d)
    ensures JoinAb(a, ab, c, d) == JoinCd(a, ab, c, cd)
  {
    JoinWithCdExpression(a, ab, c, d, cd);
  }

  lemma JoinWithSumExpression(a: bv32, ab: bv32, c: bv32, cd: bv32, sum: bv32)
    requires sum == ab + cd
    ensures a + (ab - a) * 0x100 + c * 0x10000 + (cd - c) * 0x1000000
         == a + (ab - a) * 0x100 + c * 0x10000 + (sum - ab - c) * 0x1000000
  {}

  lemma JoinWithSum(a: bv32, ab: bv32, c: bv32, cd: bv32, sum: bv32)
    requires Sums(sum, ab, cd)
    ensures JoinCd(a, ab, c, cd) == JoinSum(a, ab, c, sum)
  {
    JoinWithSumExpression(a, ab, c, cd, sum);
  }

  lemma TopOfExpression(a: bv32, ab: bv32, c: bv32, sum: bv32)
    requires a < 128 && ab < 128 && c < 128 && sum < 256
    ensures TopSum(a + (ab - a) * 0x100 + c * 0x10000 + (sum - ab - c) * 0x1000000) == sum
  {}

  predicate Below(a: bv32, n: bv32) { a < n }

  lemma TopOfJoinSum(a: bv32, ab: bv32, c: bv32, sum: bv32)
    requires Below(a, 128) && Below(ab, 128) && Below(c, 128) && Below(sum, 256)
    ensures TopSum(JoinSum(a, ab, c, sum)) == sum
  {
    hide TopSum;
    TopOfExpression(a, ab, c, sum);
  }

  lemma TopOfJoin(a: bv32, b: bv32, c: bv32, d: bv32, ab: bv32, cd: bv32, sum: bv32)
    requires Sums(ab, a, b) && Sums(cd, c, d) && Sums(sum, ab, cd)
    requires Below(a, 128) && Below(ab, 128) && Below(c, 128) && Below(sum, 256)
    ensures TopSum(Join(a, b, c, d)) == sum
  {
    hide TopSum, Join, JoinAb, JoinCd, JoinSum, Sums, Below;
    JoinWithAb(a, b, c, d, ab);
    JoinWithCd(a, ab, c, d, cd);
    JoinWithSum(a, ab, c, cd, sum);
    TopOfJoinSum(a, ab, c, sum);
  }

  function Wide(a: bv8): bv32 { a as bv32 }

  lemma WordIsJoin(a: bv8, b: bv8, c: bv8, d: bv8)
    ensures Word(a, b, c, d) == Join(Wide(a), Wide(b), Wide(c), Wide(d))
  {}

  predicate Below64(a: bv8) { a < 64 }

  function PlusFour(a: bv8, b: bv8, c: bv8, d: bv8): bv8 { Plus(Plus(a, b), Plus(c, d)) }

  lemma WidenTwo(a: bv8, b: bv8)
    requires Fits(a) && Fits(b)
    ensures Sums(Wide(Plus(a, b)), Wide(a), Wide(b)) && Below(Wide(Plus(a, b)), 256)
  {}

  lemma Halves(a: bv8, b: bv8)
    requires Below64(a) && Below64(b)
    ensures Fits(a) && Fits(b) && Fits(Plus(a, b)) && Below(Wide(a), 128) && Below(Wide(Plus(a, b)), 128)
  {}

  /** The multiplication leaves the sum of the four bytes in the top byte. */
  lemma TopOfWord(a: bv8, b: bv8, c: bv8, d: bv8)
    requires Below64(a) && Below64(b) && Below64(c) && Below64(d)
    ensures TopSum(Word(a, b, c, d)) == Wide(PlusFour(a, b, c, d))
  {
    hide TopSum, Word, Join, Below64, Wide, Plus, Sums, Below, Fits;
    WordIsJoin(a, b, c, d);
    Halves(a, b);
    Halves(c, d);
    WidenTwo(a, b);
    WidenTwo(c, d);
    WidenTwo(Plus(a, b), Plus(c, d));
    TopOfJoin(Wide(a), Wide(b), Wide(c), Wide(d),
              Wide(Plus(a, b)), Wide(Plus(c, d)), Wide(PlusFour(a, b, c, d)));
  }

  lemma {:induction false} AddValue(a: bv8, b: bv8)
    requires Value(a) <= 112 && Value(b) <= 112
    ensures Value(Plus(a, b)) == Value(a) + Value(b)
    decreases Value(b)
  {
    hide Plus, Value;
    OneLess(a, b);
    if Value(b) > 0 {
      AddValue(a, b - 1);
      OneMore(Plus(a, b - 1));
    }
  }

  lemma OneLess(a: bv8, b: bv8)
    ensures Value(b) == 0 ==> Plus(a, b) == a
    ensures Value(b) > 0 ==> Value(b - 1) == Value(b) - 1 && Plus(Plus(a, b - 1), 1) == Plus(a, b)
  {}

  lemma OneMore(a: bv8)
    requires Value(a) < 255
    ensures Value(Plus(a, 1)) == Value(a) + 1
  {}

  lemma WideValue(a: bv8)
    ensures Wide(a) as int == Value(a)
    ensures Value(a) <= 56 ==> Below64(a)
  {}

  lemma SumOfFour(a: bv8, b: bv8, c: bv8, d: bv8)
    requires Value(a) <= 56 && Value(b) <= 56 && Value(c) <= 56 && Value(d) <= 56
    ensures Below64(a) && Below64(b) && Below64(c) && Below64(d)
    ensures Wide(PlusFour(a, b, c, d)) as int == Value(a) + Value(b) + Value(c) + Value(d)
  {
    hide Value, Plus, Below64, Wide;
    WideValue(a);
    WideValue(b);
    WideValue(c);
    WideValue(d);
    AddValue(a, b);
    AddValue(c, d);
    AddValue(Plus(a, b), Plus(c, d));
    WideValue(PlusFour(a, b, c, d));
  }

  // ----- a block of words -----

  /** The packed counts of k words. */
  function SumCounts(s: Bytes, p: nat, k: nat): bv32
    requires p + 4 * k <= |s|
  {
    if k == 0 then 0 else Add(SumCounts(s, p, k - 1), Counts(Load32(s, p + 4 * (k - 1))))
  }

  lemma {:induction false} SumIsPacked(s: Bytes, p: nat, k: nat) returns (a: bv8, b: bv8, c: bv8, d: bv8)
    requires k <= 7 && p + 4 * k <= |s|
    ensures SumCounts(s, p, k) == Word(a, b, c, d)
    ensures Value(a) <= 8 * k && Value(b) <= 8 * k && Value(c) <= 8 * k && Value(d) <= 8 * k
    ensures Value(a) + Value(b) + Value(c) + Value(d) == Count(s, 8 * p, 8 * p + 32 * k)
  {
    hide Word, Counts, Count, Ones, Fits, Plus, Add, Value;
    if k == 0 {
      a, b, c, d := 0, 0, 0, 0;
      ZeroWord();
      CountNone(s, 8 * p, 8 * p);
    } else {
      var q := p + 4 * (k - 1);
      var a0, b0, c0, d0 := SumIsPacked(s, p, k - 1);
      var e, f, g, h := Ones(s[q]), Ones(s[q + 1]), Ones(s[q + 2]), Ones(s[q + 3]);
      CountsWord(s[q], s[q + 1], s[q + 2], s[q + 3]);
      CountWord(s, q);
      AddByte(a0, e);
      AddByte(b0, f);
      AddByte(c0, g);
      AddByte(d0, h);
      AddWords(a0, b0, c0, d0, e, f, g, h);
      a, b, c, d := Plus(a0, e), Plus(b0, f), Plus(c0, g), Plus(d0, h);
      CountSplit(s, 8 * p, 8 * q, 8 * q + 32);
    }
  }

  lemma ZeroWord()
    ensures Word(0, 0, 0, 0) == 0 && Value(0) == 0
  {}

  lemma CountWord(s: Bytes, q: nat)
    requires q + 4 <= |s|
    ensures Count(s, 8 * q, 8 * q + 32)
         == Value(Ones(s[q])) + Value(Ones(s[q + 1])) + Value(Ones(s[q + 2])) + Value(Ones(s[q + 3]))
    ensures Value(Ones(s[q])) <= 8 && Value(Ones(s[q + 1])) <= 8
    ensures Value(Ones(s[q + 2])) <= 8 && Value(Ones(s[q + 3])) <= 8
  {
    hide Count, Ones, CountByte;
    CountByteAt(s, q);
    CountByteAt(s, q + 1);
    CountByteAt(s, q + 2);
    CountByteAt(s, q + 3);
    OnesIsCount(s[q]);
    OnesIsCount(s[q + 1]);
    OnesIsCount(s[q + 2]);
    OnesIsCount(s[q + 3]);
    CountSplit(s, 8 * q, 8 * q + 8, 8 * q + 16);
    CountSplit(s, 8 * q, 8 * q + 16, 8 * q + 24);
    CountSplit(s, 8 * q, 8 * q + 24, 8 * q + 32);
  }

  /** The 28 byte block, as written out in the loop. */
  function Block(s: Bytes, p: nat): bv32
    requires p + 28 <= |s|
  {
    var sum := Add(Counts(Load32(s, p)), Counts(Load32(s, p + 4)));
    var sum := Add(sum, Counts(Load32(s, p + 8)));
    var sum := Add(sum, Counts(Load32(s, p + 12)));
    var sum := Add(sum, Counts(Load32(s, p + 16)));
    var sum := Add(sum, Counts(Load32(s, p + 20)));
    TopSum(Add(sum, Counts(Load32(s, p + 24))))
  }

  lemma AddZero(x: bv32)
    ensures Add(0, x) == x
  {}

  lemma BlockIsSum(s: Bytes, p: nat)
    requires p + 28 <= |s|
    ensures Block(s, p) == TopSum(SumCounts(s, p, 7))
  {
    hide TopSum, Counts, Load32, Add;
    AddZero(Counts(Load32(s, p)));
    assert SumCounts(s, p, 1) == Counts(Load32(s, p));
    assert SumCounts(s, p, 3)
        == Add(Add(SumCounts(s, p, 1), Counts(Load32(s, p + 4))), Counts(Load32(s, p + 8)));
    assert SumCounts(s, p, 5)
        == Add(Add(SumCounts(s, p, 3), Counts(Load32(s, p + 12))), Counts(Load32(s, p + 16)));
    assert SumCounts(s, p, 7)
        == Add(Add(SumCounts(s, p, 5), Counts(Load32(s, p + 20))), Counts(Load32(s, p + 24)));
  }

  /** MAIN RESULT: the packed sums never overflow, so a block counts its 224 bits. */
  lemma BlockCounts(s: Bytes, p: nat)
    requires p + 28 <= |s|
    ensures Block(s, p) as int == Count(s, 8 * p, 8 * p + 224)
  {
    hide Block, TopSum, Word, SumCounts, Count, Value, Wide, PlusFour, Below64;
    BlockIsSum(s, p);
    var a, b, c, d := SumIsPacked(s, p, 7);
    SumOfFour(a, b, c, d);
    TopOfWord(a, b, c, d);
  }

  // ----- redisPopcount -----

  /** `address` is where the buffer starts in memory: bytes are counted singly until it is
      a multiple of four. */
  method Popcount(s: Bytes, address: nat) returns (bits: nat)
    ensures bits == Count(s, 0, 8 * |s|)
  {
    hide Count, Block, BitsInByte, CountByte;
    CountNone(s, 0, 0);
    bits := 0;
    var p, count := 0, |s|;
    while (address + p) % 4 != 0 && count > 0
      invariant 0 <= count && p + count == |s| && bits == Count(s, 0, 8 * p)
      decreases count
    {
      AddOneByte(s, p);
      bits := bits + BitsInByte(s[p]) as int;
      p, count := p + 1, count - 1;
    }
    while count >= 28
      invariant 0 <= count && p + count == |s| && bits == Count(s, 0, 8 * p)
      decreases count
    {
      BlockCounts(s, p);
      CountSplit(s, 0, 8 * p, 8 * p + 224);
      bits := bits + Block(s, p) as int;
      p, count := p + 28, count - 28;
    }
    while count > 0
      invariant 0 <= count && p + count == |s| && bits == Count(s, 0, 8 * p)
      decreases count
    {
      AddOneByte(s, p);
      bits := bits + BitsInByte(s[p]) as int;
      p, count := p + 1, count - 1;
    }
  }

  lemma AddOneByte(s: Bytes, p: nat)
    requires p < |s|
    ensures Count(s, 0, 8 * (p + 1)) == Count(s, 0, 8 * p) + BitsInByte(s[p]) as int
  {
    hide Count, BitsInByte, CountByte;
    TableIsCount(s[p]);
    CountByteAt(s, p);
    CountSplit(s, 0, 8 * p, 8 * p + 8);
  }
}
