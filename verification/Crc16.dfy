/** The CRC16 that maps keys to cluster slots: the table driven loop against schoolbook
    division of the message by x^16 + x^12 + x^5 + 1 over GF(2). */
module Crc16 {
  import opened Bits

  // ----- the constant table, eight entries a row -----

  function Pick(j: bv8, a: bv16, b: bv16, c: bv16, d: bv16, e: bv16, f: bv16, g: bv16, h: bv16): bv16 {
    if j == 0 then a else if j == 1 then b else if j == 2 then c else if j == 3 then d
    else if j == 4 then e else if j == 5 then f else if j == 6 then g else h
  }

  function Quarter0(r: bv8, j: bv8): bv16 {
    if r == 0 then Pick(j, 0x0000, 0x1021, 0x2042, 0x3063, 0x4084, 0x50a5, 0x60c6, 0x70e7)
    else if r == 1 then Pick(j, 0x8108, 0x9129, 0xa14a, 0xb16b, 0xc18c, 0xd1ad, 0xe1ce, 0xf1ef)
    else if r == 2 then Pick(j, 0x1231, 0x0210, 0x3273, 0x2252, 0x52b5, 0x4294, 0x72f7, 0x62d6)
    else if r == 3 then Pick(j, 0x9339, 0x8318, 0xb37b, 0xa35a, 0xd3bd, 0xc39c, 0xf3ff, 0xe3de)
    else if r == 4 then Pick(j, 0x2462, 0x3443, 0x0420, 0x1401, 0x64e6, 0x74c7, 0x44a4, 0x5485)
    else if r == 5 then Pick(j, 0xa56a, 0xb54b, 0x8528, 0x9509, 0xe5ee, 0xf5cf, 0xc5ac, 0xd58d)
    else if r == 6 then Pick(j, 0x3653, 0x2672, 0x1611, 0x0630, 0x76d7, 0x66f6, 0x5695, 0x46b4)
    else Pick(j, 0xb75b, 0xa77a, 0x9719, 0x8738, 0xf7df, 0xe7fe, 0xd79d, 0xc7bc)
  }

  function Quarter1(r: bv8, j: bv8): bv16 {
    if r == 0 then Pick(j, 0x48c4, 0x58e5, 0x6886, 0x78a7, 0x0840, 0x1861, 0x2802, 0x3823)
    else if r == 1 then Pick(j, 0xc9cc, 0xd9ed, 0xe98e, 0xf9af, 0x8948, 0x9969, 0xa90a, 0xb92b)
    else if r == 2 then Pick(j, 0x5af5, 0x4ad4, 0x7ab7, 0x6a96, 0x1a71, 0x0a50, 0x3a33, 0x2a12)
    else if r == 3 then Pick(j, 0xdbfd, 0xcbdc, 0xfbbf, 0xeb9e, 0x9b79, 0x8b58, 0xbb3b, 0xab1a)
    else if r == 4 then Pick(j, 0x6ca6, 0x7c87, 0x4ce4, 0x5cc5, 0x2c22, 0x3c03, 0x0c60, 0x1c41)
    else if r == 5 then Pick(j, 0xedae, 0xfd8f, 0xcdec, 0xddcd, 0xad2a, 0xbd0b, 0x8d68, 0x9d49)
    else if r == 6 then Pick(j, 0x7e97, 0x6eb6, 0x5ed5, 0x4ef4, 0x3e13, 0x2e32, 0x1e51, 0x0e70)
    else Pick(j, 0xff9f, 0xefbe, 0xdfdd, 0xcffc, 0xbf1b, 0xaf3a, 0x9f59, 0x8f78)
  }

  function Quarter2(r: bv8, j: bv8): bv16 {
    if r == 0 then Pick(j, 0x9188, 0x81a9, 0xb1ca, 0xa1eb, 0xd10c, 0xc12d, 0xf14e, 0xe16f)
    else if r == 1 then Pick(j, 0x1080, 0x00a1, 0x30c2, 0x20e3, 0x5004, 0x4025, 0x7046, 0x6067)
    else if r == 2 then Pick(j, 0x83b9, 0x9398, 0xa3fb, 0xb3da, 0xc33d, 0xd31c, 0xe37f, 0xf35e)
    else if r == 3 then Pick(j, 0x02b1, 0x1290, 0x22f3, 0x32d2, 0x4235, 0x5214, 0x6277, 0x7256)
    else if r == 4 then Pick(j, 0xb5ea, 0xa5cb, 0x95a8, 0x8589, 0xf56e, 0xe54f, 0xd52c, 0xc50d)
    else if r == 5 then Pick(j, 0x34e2, 0x24c3, 0x14a0, 0x0481, 0x7466, 0x6447, 0x5424, 0x4405)
    else if r == 6 then Pick(j, 0xa7db, 0xb7fa, 0x8799, 0x97b8, 0xe75f, 0xf77e, 0xc71d, 0xd73c)
    else Pick(j, 0x26d3, 0x36f2, 0x0691, 0x16b0, 0x6657, 0x7676, 0x4615, 0x5634)
  }

  function Quarter3(r: bv8, j: bv8): bv16 {
    if r == 0 then Pick(j, 0xd94c, 0xc96d, 0xf90e, 0xe92f, 0x99c8, 0x89e9, 0xb98a, 0xa9ab)
    else if r == 1 then Pick(j, 0x5844, 0x4865, 0x7806, 0x6827, 0x18c0, 0x08e1, 0x3882, 0x28a3)
    else if r == 2 then Pick(j, 0xcb7d, 0xdb5c, 0xeb3f, 0xfb1e, 0x8bf9, 0x9bd8, 0xabbb, 0xbb9a)
    else if r == 3 then Pick(j, 0x4a75, 0x5a54, 0x6a37, 0x7a16, 0x0af1, 0x1ad0, 0x2ab3, 0x3a92)
    else if r == 4 then Pick(j, 0xfd2e, 0xed0f, 0xdd6c, 0xcd4d, 0xbdaa, 0xad8b, 0x9de8, 0x8dc9)
    else if r == 5 then Pick(j, 0x7c26, 0x6c07, 0x5c64, 0x4c45, 0x3ca2, 0x2c83, 0x1ce0, 0x0cc1)
    else if r == 6 then Pick(j, 0xef1f, 0xff3e, 0xcf5d, 0xdf7c, 0xaf9b, 0xbfba, 0x8fd9, 0x9ff8)
    else Pick(j, 0x6e17, 0x7e36, 0x4e55, 0x5e74, 0x2e93, 0x3eb2, 0x0ed1, 0x1ef0)
  }

  /** crc16tab */
  function Table(i: bv8): bv16 {
    var r, j := (i >> 3) & 7, i & 7;
    if i < 0x40 then Quarter0(r, j)
    else if i < 0x80 then Quarter1(r, j)
    else if i < 0xc0 then Quarter2(r, j)
    else Quarter3(r, j)
  }

  // ----- the loop -----

  function TableIndex(crc: bv16, b: bv8): bv8 { ((crc >> 8) ^ (b as bv16)) as bv8 }

  function ShiftIn(crc: bv16, entry: bv16): bv16 { (crc << 8) ^ entry }

  function TableStep(crc: bv16, b: bv8): bv16 { ShiftIn(crc, Table(TableIndex(crc, b))) }

  /** crc16. MAIN RESULT: the register ends with the remainder of the message times x^16
      modulo x^16 + x^12 + x^5 + 1. */
  method Crc(buf: seq<bv8>) returns (crc: bv16)
    ensures RegisterBits(crc) == Remainder(MessageBits(buf) + ZEROS)
  {
    hide TableStep, RegisterBits, Remainder, ByteBits, FeedBits;
    crc := 0;
    var counter := 0;
    ZeroRegister();
    FeedNothing(ZEROS);
    while counter < |buf|
      invariant 0 <= counter <= |buf|
      invariant RegisterBits(crc) == FeedBits(ZEROS, MessageBits(buf[..counter]))
    {
      var b := buf[counter];
      TableStepFeeds(crc, b);
      crc := TableStep(crc, b);
      assert buf[..counter + 1][..counter] == buf[..counter];
      FeedBitsAppend(ZEROS, MessageBits(buf[..counter]), ByteBits(b));
      counter := counter + 1;
    }
    assert buf[..counter] == buf;
    FeedBitsDivides(ZEROS, MessageBits(buf));
    MixedWithZero(MessageBits(buf));
  }

  // ----- coefficients, highest first -----

  type Reg = s: seq<bool> | |s| == 16 witness ZEROS

  /** The coefficients of x^16 + x^12 + x^5 + 1. */
  const DIVISOR: seq<bool> := [
    true, false, false, false, true, false, false, false, false, false, false, true, false, false, false, false, true]

  const ZEROS: seq<bool> := [
    false, false, false, false, false, false, false, false, false, false, false, false, false, false, false, false]

  /** Long division: while the dividend has more than 16 coefficients, its first one
      decides whether the divisor is subtracted. */
  function Remainder(p: seq<bool>): (r: seq<bool>)
    ensures |r| <= 16
    decreases |p|
  {
    if |p| <= 16 then p else Remainder(Reduced(p))
  }

  function Reduced(p: seq<bool>): (r: seq<bool>)
    requires |p| > 16
    ensures |r| == |p| - 1
  {
    seq(|p| - 1, i requires 0 <= i < |p| - 1 => p[i + 1] != (p[0] && i < 16 && DIVISOR[i + 1]))
  }

  /** The k-th bit of a register, counted from the top. */
  function Mask(k: nat): bv16 {
    if k < 8 then (Mask8(k) as bv16) << 8 else Mask8(k - 8) as bv16
  }

  function ByteBits(b: bv8): (r: seq<bool>)
    ensures |r| == 8
  {
    seq(8, k requires 0 <= k < 8 => HasBit(b, Mask8(k)))
  }

  function MessageBits(buf: seq<bv8>): seq<bool> {
    if buf == [] then [] else MessageBits(buf[..|buf| - 1]) + ByteBits(buf[|buf| - 1])
  }

  predicate Has(c: bv16, m: bv16) { c & m != 0 }

  function RegisterBits(c: bv16): Reg {
    seq(16, k requires 0 <= k < 16 => Has(c, Mask(k)))
  }

  // ----- the shift register, one message bit at a time -----

  function Feed(reg: Reg, bit: bool): Reg {
    seq(16, i requires 0 <= i < 16 => (i < 15 && reg[i + 1]) != (reg[0] != bit && DIVISOR[i + 1]))
  }

  function FeedBits(reg: Reg, bits: seq<bool>): Reg
    decreases bits
  {
    if bits == [] then reg else FeedBits(Feed(reg, bits[0]), bits[1..])
  }

  function Xor(a: Reg, b: Reg): Reg {
    seq(16, i requires 0 <= i < 16 => a[i] != b[i])
  }

  /** n zero bits. */
  function Steps(reg: Reg, n: nat): Reg
    decreases n
  {
    if n == 0 then reg else Steps(Feed(reg, false), n - 1)
  }

  lemma FeedNothing(reg: Reg)
    ensures FeedBits(reg, MessageBits([])) == reg
  {}

  lemma {:induction false} FeedBitsAppend(reg: Reg, a: seq<bool>, b: seq<bool>)
    ensures FeedBits(reg, a + b) == FeedBits(FeedBits(reg, a), b)
    decreases a
  {
    hide Feed;
    if a == [] {
      assert a + b == b;
    } else {
      assert (a + b)[1..] == a[1..] + b;
      FeedBitsAppend(Feed(reg, a[0]), a[1..], b);
    }
  }

  lemma FeedLinear(a: Reg, b: Reg)
    ensures Feed(Xor(a, b), false) == Xor(Feed(a, false), Feed(b, false))
  {
    var x, y := Feed(Xor(a, b), false), Xor(Feed(a, false), Feed(b, false));
    assert forall i | 0 <= i < 16 :: x[i] == y[i];
  }

  lemma {:induction false} StepsLinear(a: Reg, b: Reg, n: nat)
    ensures Steps(Xor(a, b), n) == Xor(Steps(a, n), Steps(b, n))
    decreases n
  {
    hide Feed, Xor;
    if n > 0 {
      FeedLinear(a, b);
      StepsLinear(Feed(a, false), Feed(b, false), n - 1);
    }
  }

  /** Up to 16 bits, at the top of a register. */
  function Padded(bits: seq<bool>): Reg
    requires |bits| <= 16
  {
    seq(16, i requires 0 <= i < 16 => i < |bits| && bits[i])
  }

  /** A message bit may as well be added to the register first. */
  lemma FeedAhead(reg: Reg, bits: seq<bool>)
    requires 0 < |bits| <= 16
    ensures Feed(Xor(reg, Padded(bits)), false) == Xor(Feed(reg, bits[0]), Padded(bits[1..]))
  {
    var x, y := Feed(Xor(reg, Padded(bits)), false), Xor(Feed(reg, bits[0]), Padded(bits[1..]));
    forall i | 0 <= i < 16
      ensures x[i] == y[i]
    {
      assert Padded(bits[1..])[i] == (i < 15 && Padded(bits)[i + 1]);
    }
  }

  lemma {:induction false} FeedBitsAhead(reg: Reg, bits: seq<bool>)
    requires |bits| <= 16
    ensures FeedBits(reg, bits) == Steps(Xor(reg, Padded(bits)), |bits|)
    decreases bits
  {
    if bits == [] {
      var x := Xor(reg, Padded(bits));
      assert forall i | 0 <= i < 16 :: x[i] == reg[i];
      assert x == reg;
    } else {
      hide Feed, Xor, Padded;
      FeedAhead(reg, bits);
      FeedBitsAhead(Feed(reg, bits[0]), bits[1..]);
    }
  }

  /** A register whose top bits are zero just shifts. */
  lemma {:induction false} ZeroTopShifts(reg: Reg, n: nat)
    requires n <= 16 && forall i | 0 <= i < n :: !reg[i]
    ensures forall i | 0 <= i < 16 :: Steps(reg, n)[i] == (i + n < 16 && reg[i + n])
    decreases n
  {
    if n > 0 {
      var next := Feed(reg, false);
      assert forall i | 0 <= i < 16 :: next[i] == (i < 15 && reg[i + 1]);
      ZeroTopShifts(next, n - 1);
    }
  }

  // ----- machine words and their bits -----

  function Step(c: bv16): bv16 { if c & 0x8000 != 0 then (c << 1) ^ 0x1021 else c << 1 }

  function Step8(c: bv16): bv16 { Step(Step(Step(Step(Step(Step(Step(Step(c)))))))) }

  ghost predicate OneBit(m: bv16) { m & (m - 1) == 0 }

  lemma MaskFacts(k: nat)
    requires k < 16
    ensures OneBit(Mask(k)) && Mask(k) >> 1 == Mask(k + 1)
    ensures Mask(k) >> 8 == Mask(k + 8)
    ensures Has(0x1021, Mask(k)) == DIVISOR[k + 1]
    ensures Mask(0) == 0x8000
  {}

  lemma XorMasked(a: bv16, b: bv16, m: bv16)
    requires OneBit(m)
    ensures Has(a ^ b, m) == (Has(a, m) != Has(b, m))
  {}

  lemma ShiftMasked(c: bv16, m: bv16)
    ensures Has(c << 1, m) == Has(c, m >> 1) && Has(c << 8, m) == Has(c, m >> 8)
    ensures !Has(c, 0)
  {}

  lemma StepMasked(c: bv16, m: bv16)
    requires OneBit(m)
    ensures Has(Step(c), m) == (Has(c, m >> 1) != (Has(c, 0x8000) && Has(0x1021, m)))
  {
    ShiftMasked(c, m);
    XorMasked(c << 1, 0x1021, m);
  }

  lemma StepBit(c: bv16, k: nat)
    requires k < 16
    ensures RegisterBits(Step(c))[k] == Feed(RegisterBits(c), false)[k]
  {
    hide Mask, OneBit, Has, Step;
    MaskFacts(k);
    NoMask(k);
    StepMasked(c, Mask(k));
    ShiftMasked(c, Mask(k));
    MaskFacts(0);
  }

  lemma NoMask(k: nat)
    ensures k >= 15 ==> Mask(k + 1) == 0
    ensures k >= 8 ==> Mask(k + 8) == 0
  {}

  lemma StepIsFeed(c: bv16)
    ensures RegisterBits(Step(c)) == Feed(RegisterBits(c), false)
  {
    hide RegisterBits, Feed, Step;
    forall k | 0 <= k < 16
      ensures RegisterBits(Step(c))[k] == Feed(RegisterBits(c), false)[k]
    {
      StepBit(c, k);
    }
  }

  lemma Step8IsSteps(c: bv16)
    ensures RegisterBits(Step8(c)) == Steps(RegisterBits(c), 8)
  {
    hide Step, RegisterBits, Feed;
    var c4 := Step(Step(Step(Step(c))));
    Step4IsSteps(c);
    Step4IsSteps(c4);
    StepsAdd(RegisterBits(c), 4, 4);
  }

  lemma Step4IsSteps(c: bv16)
    ensures RegisterBits(Step(Step(Step(Step(c))))) == Steps(RegisterBits(c), 4)
  {
    hide Step, RegisterBits, Feed;
    var c1 := Step(c);
    var c2 := Step(c1);
    var c3 := Step(c2);
    StepIsFeed(c);
    StepIsFeed(c1);
    StepIsFeed(c2);
    StepIsFeed(c3);
    assert Steps(RegisterBits(c), 4) == Steps(RegisterBits(c1), 3);
    assert Steps(RegisterBits(c1), 3) == Steps(RegisterBits(c2), 2);
    assert Steps(RegisterBits(c2), 2) == Steps(RegisterBits(c3), 1);
    assert Steps(RegisterBits(c3), 1) == Steps(RegisterBits(Step(c3)), 0);
  }

  lemma {:induction false} StepsAdd(reg: Reg, m: nat, n: nat)
    ensures Steps(reg, m + n) == Steps(Steps(reg, m), n)
    decreases m
  {
    hide Feed;
    if m > 0 { StepsAdd(Feed(reg, false), m - 1, n); }
  }

  lemma TableStart(i: bv8)
    requires i < 0x10
    ensures Table(i) == Step8((i as bv16) << 8)
  {}

  lemma TableNext(i: bv8)
    requires 0x10 <= i < 0x20
    ensures Table(i) == Step8((i as bv16) << 8)
  {}

  lemma TableEighth1(i: bv8)
    requires 0x20 <= i < 0x40
    ensures Table(i) == Step8((i as bv16) << 8)
  {}

  lemma TableEighth2(i: bv8)
    requires 0x40 <= i < 0x60
    ensures Table(i) == Step8((i as bv16) << 8)
  {}

  lemma TableEighth3(i: bv8)
    requires 0x60 <= i < 0x80
    ensures Table(i) == Step8((i as bv16) << 8)
  {}

  lemma TableEighth4(i: bv8)
    requires 0x80 <= i < 0xa0
    ensures Table(i) == Step8((i as bv16) << 8)
  {}

  lemma TableEighth5(i: bv8)
    requires 0xa0 <= i < 0xc0
    ensures Table(i) == Step8((i as bv16) << 8)
  {}

  lemma TableEighth6(i: bv8)
    requires 0xc0 <= i < 0xe0
    ensures Table(i) == Step8((i as bv16) << 8)
  {}

  lemma TableEighth7(i: bv8)
    requires 0xe0 <= i
    ensures Table(i) == Step8((i as bv16) << 8)
  {}

  /** Every entry of the table is the remainder of its index times x^16. */
  lemma TableIsRemainder(i: bv8)
    ensures RegisterBits(Table(i)) == Steps(Padded(ByteBits(i)), 8)
  {
    hide Table, Step8, Steps;
    if i < 0x10 {
      TableStart(i);
    } else if i < 0x20 {
      TableNext(i);
    } else if i < 0x40 {
      TableEighth1(i);
    } else if i < 0x60 {
      TableEighth2(i);
    } else if i < 0x80 {
      TableEighth3(i);
    } else if i < 0xa0 {
      TableEighth4(i);
    } else if i < 0xc0 {
      TableEighth5(i);
    } else if i < 0xe0 {
      TableEighth6(i);
    } else {
      TableEighth7(i);
    }
    Step8IsSteps((i as bv16) << 8);
    IndexAtTop(i);
  }

  lemma ByteMasked(i: bv8, m: bv8)
    ensures Has((i as bv16) << 8, (m as bv16) << 8) == HasBit(i, m)
    ensures !Has((i as bv16) << 8, m as bv16)
  {}

  lemma IndexBit(i: bv8, k: nat)
    requires k < 16
    ensures RegisterBits((i as bv16) << 8)[k] == Padded(ByteBits(i))[k]
  {
    hide Mask8, Has, HasBit;
    ByteMasked(i, if k < 8 then Mask8(k) else Mask8(k - 8));
  }

  lemma IndexAtTop(i: bv8)
    ensures RegisterBits((i as bv16) << 8) == Padded(ByteBits(i))
  {
    hide RegisterBits, Padded, ByteBits;
    forall k | 0 <= k < 16
      ensures RegisterBits((i as bv16) << 8)[k] == Padded(ByteBits(i))[k]
    {
      IndexBit(i, k);
    }
  }

  lemma LoopMasked(c: bv16, t: bv16, m: bv16)
    requires OneBit(m)
    ensures Has(ShiftIn(c, t), m) == (Has(c, m >> 8) != Has(t, m))
  {}

  lemma LoopMask(c: bv16, t: bv16, i: nat)
    requires i < 16
    ensures Has(ShiftIn(c, t), Mask(i)) == ((i < 8 && Has(c, Mask(i + 8))) != Has(t, Mask(i)))
  {
    hide Mask, OneBit, Has, ShiftIn;
    MaskFacts(i);
    NoMask(i);
    LoopMasked(c, t, Mask(i));
    ShiftMasked(c, Mask(i));
  }

  lemma LoopBit(c: bv16, t: bv16, i: nat)
    requires i < 16
    ensures RegisterBits(ShiftIn(c, t))[i] == ((i < 8 && RegisterBits(c)[i + 8]) != RegisterBits(t)[i])
  {
    hide Mask, Has, ShiftIn;
    LoopMask(c, t, i);
  }

  /** The register shifted by a byte, as the loop does it. */
  lemma LoopBits(c: bv16, t: bv16)
    ensures forall i | 0 <= i < 16 ::
              RegisterBits(ShiftIn(c, t))[i] == ((i < 8 && RegisterBits(c)[i + 8]) != RegisterBits(t)[i])
  {
    hide RegisterBits, ShiftIn;
    forall i | 0 <= i < 16
      ensures RegisterBits(ShiftIn(c, t))[i] == ((i < 8 && RegisterBits(c)[i + 8]) != RegisterBits(t)[i])
    {
      LoopBit(c, t, i);
    }
  }

  lemma IndexMasked(c: bv16, b: bv8, m: bv8)
    requires m & (m - 1) == 0
    ensures HasBit(TableIndex(c, b), m) == (Has(c, (m as bv16) << 8) != HasBit(b, m))
  {}

  lemma Mask8Facts(k: nat)
    requires k < 8
    ensures Mask8(k) & (Mask8(k) - 1) == 0
  {}

  lemma IndexBits(c: bv16, b: bv8)
    ensures forall i | 0 <= i < 8 ::
              ByteBits(TableIndex(c, b))[i] == (RegisterBits(c)[i] != ByteBits(b)[i])
  {
    hide Mask8, Has, HasBit, TableIndex;
    forall i | 0 <= i < 8
      ensures ByteBits(TableIndex(c, b))[i] == (RegisterBits(c)[i] != ByteBits(b)[i])
    {
      Mask8Facts(i);
      IndexMasked(c, b, Mask8(i));
    }
  }

  /** A register after eight zero bits, from its high and low halves. */
  lemma HalvesStep(reg: Reg, top: seq<bool>, table: Reg, after: Reg)
    requires |top| == 8
    requires table == Steps(Padded(Xor(reg, Padded(top))[..8]), 8)
    requires forall k | 0 <= k < 16 :: after[k] == ((k < 8 && reg[k + 8]) != table[k])
    ensures after == Steps(Xor(reg, Padded(top)), 8)
  {
    hide Steps;
    var mixed := Xor(reg, Padded(top));
    var high := Padded(mixed[..8]);
    var low: Reg := seq(16, k requires 0 <= k < 16 => k >= 8 && reg[k]);
    var parts := Xor(high, low);
    assert forall k | 0 <= k < 16 :: mixed[k] == parts[k];
    assert mixed == parts;
    StepsLinear(high, low, 8);
    ZeroTopShifts(low, 8);
    var end := Steps(mixed, 8);
    assert forall k | 0 <= k < 16 :: after[k] == end[k];
  }

  lemma IndexIsTop(c: bv16, b: bv8)
    ensures ByteBits(TableIndex(c, b)) == Xor(RegisterBits(c), Padded(ByteBits(b)))[..8]
  {
    hide RegisterBits, ByteBits, TableIndex;
    IndexBits(c, b);
  }

  /** One round of the loop feeds one byte. */
  lemma TableStepFeeds(c: bv16, b: bv8)
    ensures RegisterBits(TableStep(c, b)) == FeedBits(RegisterBits(c), ByteBits(b))
  {
    hide RegisterBits, ByteBits, Table, TableIndex, ShiftIn, FeedBits, Steps, Xor, Padded;
    var i := TableIndex(c, b);
    IndexIsTop(c, b);
    FeedBitsAhead(RegisterBits(c), ByteBits(b));
    TableIsRemainder(i);
    LoopBits(c, Table(i));
    HalvesStep(RegisterBits(c), ByteBits(b), RegisterBits(Table(i)), RegisterBits(TableStep(c, b)));
  }

  lemma ZeroRegister()
    ensures RegisterBits(0) == ZEROS
  {}

  // ----- division -----

  /** What is left of a zero-extended message when the register holds `reg`. */
  function Mixed(reg: Reg, bits: seq<bool>): (r: seq<bool>)
    ensures |r| == |bits| + 16
  {
    var p := bits + ZEROS;
    seq(|bits| + 16, i requires 0 <= i < |bits| + 16 => p[i] != (i < 16 && reg[i]))
  }

  lemma MixedStep(reg: Reg, bits: seq<bool>)
    requires bits != []
    ensures Reduced(Mixed(reg, bits)) == Mixed(Feed(reg, bits[0]), bits[1..])
  {
    var p, q := Reduced(Mixed(reg, bits)), Mixed(Feed(reg, bits[0]), bits[1..]);
    forall i | 0 <= i < |q|
      ensures q[i] == p[i]
    {
      assert (bits[1..] + ZEROS)[i] == (bits + ZEROS)[i + 1];
    }
  }

  lemma {:induction false} FeedBitsDivides(reg: Reg, bits: seq<bool>)
    ensures Remainder(Mixed(reg, bits)) == FeedBits(reg, bits)
    decreases bits
  {
    if bits == [] {
      assert Mixed(reg, bits) == reg;
    } else {
      hide Feed, Reduced;
      MixedStep(reg, bits);
      FeedBitsDivides(Feed(reg, bits[0]), bits[1..]);
    }
  }

  lemma MixedWithZero(bits: seq<bool>)
    ensures Mixed(ZEROS, bits) == bits + ZEROS
  {
    var x, y := Mixed(ZEROS, bits), bits + ZEROS;
    assert forall i | 0 <= i < |y| :: x[i] == y[i];
  }
}
