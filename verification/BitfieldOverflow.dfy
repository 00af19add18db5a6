/** Overflow of bit field arithmetic on 64 bit machine integers (bitops.c:288-378). */
module BitfieldOverflow {
  import opened Wrappers
  import opened Bitfield

  const TWO63: int := 0x8000_0000_0000_0000
  const TWO64: int := 0x1_0000_0000_0000_0000

  predicate IsI64(x: int) { -TWO63 <= x < TWO63 }

  predicate IsU64(x: int) { 0 <= x < TWO64 }

  /** The uint64_t and the int64_t with the low 64 bits of x. */
  function U64(x: int): nat { x % TWO64 }

  function I64(x: int): int { if x % TWO64 < TWO63 then x % TWO64 else x % TWO64 - TWO64 }

  datatype Mode = Wrap | Sat | Fail

  /** What a check returns: 0, 1 or -1, and what it stores through its last argument, if anything. */
  datatype Check = Check(code: int, limit: Option<int>)

  // ----- the two checks -----

  function CheckUnsigned(value: int, incr: int, bits: nat, mode: Mode): Check
    requires 1 <= bits <= 63 && IsU64(value) && IsI64(incr)
  {
    var max := Pow2(bits) - 1;
    var maxincr := I64(max - value);
    var minincr := I64(-value);
    if value > max || (incr > 0 && incr > maxincr) then
      match mode
      case Wrap => Check(1, Some(U64(value + incr) % Pow2(bits)))
      case Sat => Check(1, Some(max))
      case Fail => Check(1, None)
    else if incr < 0 && incr < minincr then
      match mode
      case Wrap => Check(1, Some(U64(value + incr) % Pow2(bits)))
      case Sat => Check(-1, Some(0))
      case Fail => Check(-1, None)
    else
      Check(0, None)
  }

  /** The low bits of c, with their top bit spread over the bits above. */
  function SignExtended(c: int, bits: nat): int
    requires 1 <= bits <= 64
  {
    if bits < 64 then
      if c / Pow2(bits - 1) % 2 == 1 then c % Pow2(bits) + (TWO64 - Pow2(bits)) else c % Pow2(bits)
    else c
  }

  function CheckSigned(value: int, incr: int, bits: nat, mode: Mode): Check
    requires 1 <= bits <= 64 && IsI64(value) && IsI64(incr)
  {
    var max := Pow2(bits - 1) - 1;
    var min := -max - 1;
    var maxincr := I64(max - value);
    var minincr := I64(min - value);
    var wrapped := I64(SignExtended(U64(U64(value) + U64(incr)), bits));
    if value > max || (bits != 64 && incr > maxincr) || (value >= 0 && incr > 0 && incr > maxincr) then
      match mode
      case Wrap => Check(1, Some(wrapped))
      case Sat => Check(1, Some(max))
      case Fail => Check(1, None)
    else if value < min || (bits != 64 && incr < minincr) || (value < 0 && incr < 0 && incr < minincr) then
      match mode
      case Wrap => Check(1, Some(wrapped))
      case Sat => Check(-1, Some(min))
      case Fail => Check(-1, None)
    else
      Check(0, None)
  }

  // ----- what they mean -----

  /** The values of a type, and the one a number is congruent to modulo 2^bits. */
  function Lowest(signed: bool, bits: nat): int
    requires bits >= 1
  {
    if signed then 0 - Pow2(bits - 1) else 0
  }

  function Highest(signed: bool, bits: nat): int
    requires bits >= 1
  {
    if signed then Pow2(bits - 1) - 1 else Pow2(bits) - 1
  }

  predicate Fits(x: int, signed: bool, bits: nat)
    requires bits >= 1
  {
    Lowest(signed, bits) <= x <= Highest(signed, bits)
  }

  function Reduced(x: int, signed: bool, bits: nat): int
    requires bits >= 1
  {
    var m := x % Pow2(bits);
    if signed && m >= Pow2(bits - 1) then m - Pow2(bits) else m
  }

  function Clamped(x: int, signed: bool, bits: nat): int
    requires bits >= 1
  {
    if x < Lowest(signed, bits) then Lowest(signed, bits)
    else if x > Highest(signed, bits) then Highest(signed, bits) else x
  }

  /** The reduced value is the only value of the type that differs from x by a multiple of 2^bits. */
  lemma ReducedIsUnique(x: int, signed: bool, bits: nat, y: int)
    requires bits >= 1
    ensures Fits(Reduced(x, signed, bits), signed, bits)
    ensures (Reduced(x, signed, bits) - x) % Pow2(bits) == 0
    ensures Fits(y, signed, bits) && (y - x) % Pow2(bits) == 0 ==> y == Reduced(x, signed, bits)
  {
    var p, r := Pow2(bits), Reduced(x, signed, bits);
    PowTwice(bits);
    ReducedModulo(x, signed, bits);
    SameModulo(r, x, p);
    SameModulo(y, x, p);
    InWindow(y, r, p, Lowest(signed, bits));
  }

  lemma PowTwice(bits: nat)
    requires bits >= 1
    ensures Pow2(bits) == 2 * Pow2(bits - 1)
  {}

  lemma ReducedModulo(x: int, signed: bool, bits: nat)
    requires bits >= 1
    ensures Reduced(x, signed, bits) % Pow2(bits) == x % Pow2(bits)
    ensures Fits(Reduced(x, signed, bits), signed, bits)
  {
    hide Pow2;
    PowTwice(bits);
    var p := Pow2(bits);
    UniqueDivision(x % p, p, 0, x % p);
    UniqueDivision(x % p - p, p, -1, x % p);
  }

  /** Two congruent numbers of one window of p numbers are equal. */
  lemma InWindow(y: int, r: int, p: int, lo: int)
    requires p > 0 && lo <= r < lo + p
    ensures lo <= y < lo + p && y % p == r % p ==> y == r
  {
    var k := y / p - r / p;
    assert y == p * (y / p) + y % p && r == p * (r / p) + r % p;
    assert y % p == r % p ==> y - r == p * k;
    AtLeastOnce(p, k);
  }

  lemma SameModulo(y: int, x: int, p: int)
    requires p > 0
    ensures (y - x) % p == 0 <==> y % p == x % p
  {
    var q, r := (y - x) / p, (y - x) % p;
    assert y == p * (y / p) + y % p && x == p * (x / p) + x % p && y - x == p * q + r;
    if y % p == x % p {
      UniqueDivision(y - x, p, y / p - x / p, 0);
    }
    if r == 0 {
      UniqueDivision(y, p, x / p + q, x % p);
    }
  }

  // ----- powers of two and 64 bit arithmetic -----

  lemma {:induction false} PowAdd(m: nat, n: nat)
    ensures Pow2(m + n) == Pow2(m) * Pow2(n)
  {
    if m > 0 { PowAdd(m - 1, n); }
  }

  lemma Pow64()
    ensures Pow2(63) == TWO63 && Pow2(64) == TWO64
  {
    hide Pow2;
    PowEight();
    PowAdd(8, 8);
    PowAdd(16, 16);
    PowAdd(32, 32);
    PowTwice(64);
  }

  lemma PowEight()
    ensures Pow2(7) == 128 && Pow2(8) == 256
  {
    assert Pow2(4) == 16;
  }

  lemma {:induction false} PowOrder(m: nat, n: nat)
    requires m <= n
    ensures Pow2(m) <= Pow2(n)
    decreases n
  {
    if m < n { PowOrder(m, n - 1); }
  }

  /** Cutting to 64 bits first does not change the low bits. */
  lemma CutTwice(x: int, bits: nat)
    requires bits <= 64
    ensures U64(x) % Pow2(bits) == x % Pow2(bits)
  {
    hide Pow2;
    Pow64();
    PowAdd(bits, 64 - bits);
    CutMultiple(x, Pow2(bits), Pow2(64 - bits));
  }

  lemma CutMultiple(x: int, p: int, h: int)
    requires p > 0 && p * h == TWO64
    ensures U64(x) % p == x % p
  {
    var q := x / TWO64;
    assert x == (p * h) * q + U64(x);
    Associate(p, h, q);
    UniqueDivision(x - U64(x), p, h * q, 0);
    SameModulo(x, U64(x), p);
  }

  lemma Associate(p: int, h: int, q: int)
    ensures (p * h) * q == p * (h * q)
  {}

  /** The powers of two that bound a type of the given width. */
  lemma Widths(bits: nat)
    requires 1 <= bits <= 64
    ensures Pow2(bits) == 2 * Pow2(bits - 1) && 1 <= Pow2(bits - 1) <= TWO63
    ensures bits < 64 ==> Pow2(bits) <= TWO63
    ensures bits == 64 ==> Pow2(bits) == TWO64
  {
    hide Pow2;
    Pow64();
    PowTwice(bits);
    PowOrder(bits - 1, 63);
    if bits < 64 { PowOrder(bits, 63); }
  }

  lemma Exact(x: int)
    ensures IsI64(x) ==> I64(x) == x
    ensures IsU64(x) ==> U64(x) == x
    ensures TWO63 <= x < TWO64 ==> I64(x) == x - TWO64
    ensures -TWO63 <= x < 0 ==> U64(x) == x + TWO64
  {}

  lemma TopBit(c: nat, bits: nat)
    requires bits >= 1
    ensures c / Pow2(bits - 1) % 2 == 1 <==> c % Pow2(bits) >= Pow2(bits - 1)
  {
    PowTwice(bits);
    hide Pow2;
    var h := Pow2(bits - 1);
    var a, m := c / h, c % h;
    assert c == h * a + m;
    var q, t := a / 2, a % 2;
    assert h * a == (2 * h) * q + h * t;
    assert t == 0 || t == 1;
    UniqueDivision(c, 2 * h, q, h * t + m);
  }

  lemma ExtendedIsReduced(c: int, bits: nat)
    requires IsU64(c) && 1 <= bits <= 64
    ensures I64(SignExtended(c, bits)) == Reduced(c, true, bits)
  {
    hide Pow2;
    Widths(bits);
    TopBit(c, bits);
    if bits < 64 {
      Exact(SignExtended(c, bits));
    } else {
      Exact(c);
    }
  }

  lemma WrappedSum(value: int, incr: int, bits: nat)
    requires 1 <= bits <= 64
    ensures I64(SignExtended(U64(U64(value) + U64(incr)), bits)) == Reduced(value + incr, true, bits)
  {
    hide Pow2, SignExtended;
    var c := U64(U64(value) + U64(incr));
    assert c == U64(value + incr) by { CutSum(value, incr); }
    ExtendedIsReduced(c, bits);
    CutTwice(value + incr, bits);
  }

  lemma CutSum(x: int, y: int)
    ensures U64(U64(x) + U64(y)) == U64(x + y)
  {
    var z := U64(x) + U64(y);
    UniqueDivision(x + y - z, TWO64, x / TWO64 + y / TWO64, 0);
    SameModulo(x + y, z, TWO64);
  }

  // ----- INCRBY -----

  /** What a result outside the type becomes. */
  function Policy(x: int, signed: bool, bits: nat, mode: Mode): Option<int>
    requires bits >= 1
  {
    match mode
    case Wrap => Some(Reduced(x, signed, bits))
    case Sat => Some(Clamped(x, signed, bits))
    case Fail => None
  }

  /** MAIN RESULT: on a value of the type, overflow is found exactly when the sum does not fit,
      and the replacement is the wrapped or the clamped sum. */
  lemma UnsignedIncr(value: int, incr: int, bits: nat, mode: Mode)
    requires 1 <= bits <= 63 && Fits(value, false, bits) && IsU64(value) && IsI64(incr)
    ensures var c := CheckUnsigned(value, incr, bits, mode);
            (c.code == 0 <==> Fits(value + incr, false, bits))
            && (c.code != 0 ==> c.limit == Policy(value + incr, false, bits, mode))
  {
    hide Pow2, U64, I64;
    Widths(bits);
    CutTwice(value + incr, bits);
    Exact(Pow2(bits) - 1 - value);
    Exact(-value);
  }

  lemma SignedIncr(value: int, incr: int, bits: nat, mode: Mode)
    requires 1 <= bits <= 64 && Fits(value, true, bits) && IsI64(value) && IsI64(incr)
    ensures var c := CheckSigned(value, incr, bits, mode);
            (c.code == 0 <==> Fits(value + incr, true, bits))
            && (c.code != 0 ==> c.limit == Policy(value + incr, true, bits, mode))
  {
    hide Pow2, SignExtended, U64, I64;
    Widths(bits);
    WrappedSum(value, incr, bits);
    Exact(Pow2(bits - 1) - 1 - value);
    Exact(0 - Pow2(bits - 1) - value);
  }

  /** The sign of the code: an underflow returns -1 if and only if the policy is not WRAP. */
  function Code(x: int, signed: bool, bits: nat, mode: Mode): int
    requires bits >= 1
  {
    if Fits(x, signed, bits) then 0 else if x < Lowest(signed, bits) && mode != Wrap then -1 else 1
  }

  lemma UnsignedCode(value: int, incr: int, bits: nat, mode: Mode)
    requires 1 <= bits <= 63 && Fits(value, false, bits) && IsU64(value) && IsI64(incr)
    ensures CheckUnsigned(value, incr, bits, mode).code == Code(value + incr, false, bits, mode)
  {
    hide Pow2, U64, I64;
    Widths(bits);
    Exact(Pow2(bits) - 1 - value);
    Exact(-value);
  }

  lemma SignedCode(value: int, incr: int, bits: nat, mode: Mode)
    requires 1 <= bits <= 64 && Fits(value, true, bits) && IsI64(value) && IsI64(incr)
    ensures CheckSigned(value, incr, bits, mode).code == Code(value + incr, true, bits, mode)
  {
    hide Pow2, SignExtended, U64, I64;
    Widths(bits);
    Exact(Pow2(bits - 1) - 1 - value);
    Exact(0 - Pow2(bits - 1) - value);
  }

  /** One below the lowest value of a byte, with WRAP: the code is that of an overflow. */
  lemma WrappedUnderflow()
    ensures CheckUnsigned(0, -1, 8, Wrap) == Check(1, Some(255)) && CheckUnsigned(0, -1, 8, Fail) == Check(-1, None)
    ensures CheckSigned(-128, -1, 8, Wrap) == Check(1, Some(127)) && CheckSigned(-128, -1, 8, Fail) == Check(-1, None)
  {
    PowEight();
    UnsignedIncr(0, -1, 8, Wrap);
    SignedIncr(-128, -1, 8, Wrap);
  }

  // ----- SET -----

  /** Storing a value directly: overflow is found exactly when it does not fit, and WRAP and FAIL
      are right. SAT is right if and only if the value is not negative: a negative value has been
      cast to a large unsigned one. */
  lemma UnsignedSet(value: int, bits: nat, mode: Mode)
    requires 1 <= bits <= 63 && IsI64(value)
    ensures var c := CheckUnsigned(U64(value), 0, bits, mode);
            (c.code == 0 <==> Fits(value, false, bits))
            && (c.code != 0 ==> (c.limit == Policy(value, false, bits, mode) <==> (mode == Sat ==> value >= 0)))
  {
    hide Pow2, U64, I64;
    Widths(bits);
    CutTwice(value, bits);
    CutTwice(U64(value), bits);
    Exact(value);
    Exact(U64(value));
    Exact(Pow2(bits) - 1 - U64(value));
  }

  /** For a signed type, SAT is right if and only if the distance to the highest value does not
      wrap around in an int64_t. */
  lemma SignedSet(value: int, bits: nat, mode: Mode)
    requires 1 <= bits <= 64 && IsI64(value)
    ensures var c := CheckSigned(value, 0, bits, mode);
            (c.code == 0 <==> Fits(value, true, bits))
            && (c.code != 0 ==>
                  (c.limit == Policy(value, true, bits, mode)
                   <==> (mode == Sat ==> Highest(true, bits) - value < TWO63)))
  {
    hide Pow2, SignExtended, U64, I64;
    Widths(bits);
    WrappedSum(value, 0, bits);
    Distance(Pow2(bits - 1) - 1 - value);
    Exact(0 - Pow2(bits - 1) - value);
  }

  lemma Distance(d: int)
    ensures 0 <= d < TWO64 ==> I64(d) == if d < TWO63 then d else d - TWO64
  {}

  /** The lowest int64_t stored with SAT into a signed byte becomes 127; -1 stored into an
      unsigned byte becomes 255. */
  lemma SaturatesTheWrongWay()
    ensures CheckSigned(-TWO63, 0, 8, Sat) == Check(1, Some(127))
    ensures CheckUnsigned(U64(-1), 0, 8, Sat) == Check(1, Some(255))
  {
    PowEight();
  }
}
