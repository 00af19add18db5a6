/** The command encoding of the append only file: arrays of bulk strings, as in
    the RESP specification, together with the C number parsing that reads it back. */
module Resp {

  newtype byte = x: int | 0 <= x < 256

  type Bytes = seq<byte>

  /** A command as the AOF stores it: its name followed by its arguments. */
  type Argv = seq<Bytes>

  const LF: byte := 10
  const CR: byte := 13
  const HASH: byte := 35
  const DOLLAR: byte := 36
  const STAR: byte := 42
  const MINUS: byte := 45
  const PLUS: byte := 43
  const CRLF: Bytes := [CR, LF]

  const INT_MAX: int := 0x7fff_ffff
  const LONG_MAX: int := 0x7fff_ffff_ffff_ffff

  predicate IsDigit(b: byte) { 48 <= b <= 57 }

  /** isspace() in the C locale. */
  predicate IsSpace(b: byte) { 9 <= b <= 13 || b == 32 }

  /** What a command must satisfy to be representable at all: argc is a C int
      and at least one, and the argument lengths are longs. */
  ghost predicate ValidCommand(c: Argv) {
    1 <= |c| <= INT_MAX && forall a | a in c :: |a| <= LONG_MAX
  }

  // ----- printing -----

  function Digits(n: nat): (r: Bytes)
    ensures |r| >= 1 && forall b | b in r :: IsDigit(b)
  {
    if n < 10 then [(48 + n) as byte] else Digits(n / 10) + [(48 + n % 10) as byte]
  }

  function Header(mark: byte, n: nat): Bytes { [mark] + Digits(n) + CRLF }

  function EncodeArg(a: Bytes): Bytes { Header(DOLLAR, |a|) + a + CRLF }

  function EncodeArgs(c: Argv): Bytes {
    if c == [] then [] else EncodeArg(c[0]) + EncodeArgs(c[1..])
  }

  function EncodeCommand(c: Argv): Bytes { Header(STAR, |c|) + EncodeArgs(c) }

  function EncodeAll(cs: seq<Argv>): Bytes {
    if cs == [] then [] else EncodeCommand(cs[0]) + EncodeAll(cs[1..])
  }

  // ----- C number parsing -----

  /** The value of the leading run of digits, continuing from `acc`. */
  function DigitRun(s: Bytes, acc: nat): (r: nat)
    ensures r >= acc
  {
    if s == [] || !IsDigit(s[0]) then acc else DigitRun(s[1..], acc * 10 + (s[0] as int - 48))
  }

  function SkipSpaces(s: Bytes): Bytes {
    if s != [] && IsSpace(s[0]) then SkipSpaces(s[1..]) else s
  }

  /** strtol(s, NULL, 10): leading blanks, an optional sign, saturation at the ends of long. */
  function Strtol(s: Bytes): (r: int)
    ensures -LONG_MAX - 1 <= r <= LONG_MAX
  {
    var t := SkipSpaces(s);
    var negative := t != [] && t[0] == MINUS;
    var u := if t != [] && (t[0] == MINUS || t[0] == PLUS) then t[1..] else t;
    var v: int := DigitRun(u, 0);
    if negative then (if v > LONG_MAX + 1 then -LONG_MAX - 1 else -v)
    else if v > LONG_MAX then LONG_MAX else v
  }

  /** atoi(s): strtol truncated to a 32 bit int. */
  function Atoi(s: Bytes): (r: int)
    ensures -INT_MAX - 1 <= r <= INT_MAX
  {
    (Strtol(s) + INT_MAX + 1) % 0x1_0000_0000 - INT_MAX - 1
  }

  // ----- the two directions agree on numbers -----

  lemma {:induction false} DigitRunAppend(s: Bytes, t: Bytes, acc: nat)
    requires forall b | b in s :: IsDigit(b)
    ensures DigitRun(s + t, acc) == DigitRun(t, DigitRun(s, acc))
  {
    if s == [] {
      assert s + t == t;
    } else {
      assert IsDigit(s[0]) && (s + t)[1..] == s[1..] + t;
      DigitRunAppend(s[1..], t, acc * 10 + (s[0] as int - 48));
    }
  }

  lemma {:induction false} DigitRunOfDigits(n: nat)
    ensures DigitRun(Digits(n), 0) == n
  {
    if n < 10 {
      assert Digits(n)[1..] == [];
    } else {
      var last: Bytes := [(48 + n % 10) as byte];
      DigitRunOfDigits(n / 10);
      DigitRunAppend(Digits(n / 10), last, 0);
      assert last[1..] == [];
    }
  }

  /** Reading a printed number that is followed by anything but a digit gives it back. */
  lemma ReadDigits(n: nat, tail: Bytes)
    requires tail == [] || !IsDigit(tail[0])
    requires n <= LONG_MAX
    ensures Strtol(Digits(n) + tail) == n
    ensures n <= INT_MAX ==> Atoi(Digits(n) + tail) == n
  {
    var s := Digits(n) + tail;
    assert s[0] == Digits(n)[0] && Digits(n)[0] in Digits(n);
    DigitRunAppend(Digits(n), tail, 0);
    DigitRunOfDigits(n);
  }

  /** A proper part of a printed number is a smaller printed number, and not zero
      when the whole is not. */
  lemma {:induction false} DigitsPrefix(n: nat, k: nat)
    requires 0 < k <= |Digits(n)|
    ensures exists m :: 0 <= m <= n && (n > 0 ==> m > 0) && Digits(n)[..k] == Digits(m)
  {
    if k == |Digits(n)| {
      assert Digits(n)[..k] == Digits(n);
    } else {
      assert Digits(n)[..k] == Digits(n / 10)[..k];
      DigitsPrefix(n / 10, k);
    }
  }

  lemma {:induction false} DigitsShort(n: nat, k: nat, limit: nat)
    requires k >= 1 && n < limit && limit == Pow10(k)
    ensures |Digits(n)| <= k
  {
    if n >= 10 {
      assert k > 1;
      DigitsShort(n / 10, k - 1, Pow10(k - 1));
    }
  }

  function Pow10(k: nat): nat { if k == 0 then 1 else 10 * Pow10(k - 1) }

  /** Every number the AOF prints fits a line buffer with room to spare. */
  lemma DigitsFitLine(n: nat)
    requires n <= LONG_MAX
    ensures |Digits(n)| <= 19
  {
    assert Pow10(5) == 100000;
    assert Pow10(10) == 10000000000;
    assert Pow10(15) == 1000000000000000;
    assert Pow10(19) == 10000000000000000000;
    DigitsShort(n, 19, Pow10(19));
  }

  // ----- splitting encodings -----

  lemma {:induction false} EncodeAllAppend(a: seq<Argv>, b: seq<Argv>)
    ensures EncodeAll(a + b) == EncodeAll(a) + EncodeAll(b)
  {
    if a == [] {
      assert a + b == b;
    } else {
      assert (a + b)[1..] == a[1..] + b;
      EncodeAllAppend(a[1..], b);
    }
  }

  lemma EncodeOne(c: Argv)
    ensures EncodeAll([c]) == EncodeCommand(c)
  {
    assert [c][1..] == [];
  }

  /** catAppendOnlyGenericCommand: appends one command to a buffer. */
  method CatCommand(dst: Bytes, argv: Argv) returns (r: Bytes)
    ensures r == dst + EncodeCommand(argv)
  {
    hide Digits;
    r := dst + [STAR] + Digits(|argv|) + CRLF;
    ghost var start := r;
    assert start == dst + Header(STAR, |argv|);
    var j := 0;
    while j < |argv|
      invariant 0 <= j <= |argv|
      invariant r + EncodeArgs(argv[j..]) == start + EncodeArgs(argv)
    {
      ghost var before := r;
      assert argv[j..][1..] == argv[j+1..];
      r := r + [DOLLAR] + Digits(|argv[j]|) + CRLF + argv[j] + CRLF;
      assert r == before + EncodeArg(argv[j]);
      assert r + EncodeArgs(argv[j+1..]) == before + (EncodeArg(argv[j]) + EncodeArgs(argv[j+1..]));
      j := j + 1;
    }
    assert argv[j..] == [];
    assert r + [] == r;
  }
}
