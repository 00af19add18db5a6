/** BITFIELD: reads and writes of integer fields, with three overflow modes
    (bitops.c:224-263 and 1030-1257). */
module BitfieldCommand {
  import opened Wrappers
  import opened Bits
  import opened Bitfield
  import opened BitfieldOverflow

  // ----- fields of signed or unsigned types -----

  datatype Place = Place(signed: bool, bits: nat, offset: nat)

  /** The widths that the type argument admits. */
  predicate Legal(f: Place) { 1 <= f.bits <= (if f.signed then 64 else 63) }

  function Read(b: seq<bool>, f: Place): int
    requires Legal(f)
  {
    Reduced(Field(b, f.offset, f.bits), f.signed, f.bits)
  }

  /** getSignedBitfield: the unsigned bits, with the top one spread over the bits above. */
  method GetSigned(p: Bytes, offset: nat, bits: nat) returns (value: int)
    requires 1 <= bits <= 64 && offset + bits <= 8 * |p|
    ensures value == Read(BitsOf(p), Place(true, bits, offset))
  {
    hide Pow2;
    var u := GetUnsigned(p, offset, bits);
    Widths(bits);
    Exact(u);
    TopBit(u, bits);
    UniqueDivision(u, Pow2(bits), 0, u);
    value := I64(u);
    if bits < 64 && u / Pow2(bits - 1) % 2 == 1 {
      value := value - Pow2(bits);
    }
  }

  method Get(p: Bytes, f: Place) returns (value: int)
    requires Legal(f) && f.offset + f.bits <= 8 * |p|
    ensures value == Read(BitsOf(p), f)
  {
    if f.signed {
      value := GetSigned(p, f.offset, f.bits);
    } else {
      value := GetUnsigned(p, f.offset, f.bits);
      UniqueDivision(value, Pow2(f.bits), 0, value);
    }
  }

  /** setSignedBitfield and setUnsignedBitfield: the value is cast to uint64_t. */
  method Put(p: array<bv8>, f: Place, value: int)
    requires Legal(f) && f.offset + f.bits <= 8 * p.Length
    modifies p
    ensures BitsOf(p[..]) == Stored(old(BitsOf(p[..])), f, value)
  {
    SetUnsigned(p, f.offset, f.bits, U64(value));
  }

  function Stored(b: seq<bool>, f: Place, value: int): seq<bool>
    requires f.offset + f.bits <= |b|
  {
    Written(b, f.offset, f.bits, U64(value))
  }

  lemma StoredField(b: seq<bool>, f: Place, value: int)
    requires Legal(f) && f.offset + f.bits <= |b|
    ensures Field(Stored(b, f, value), f.offset, f.bits) == value % Pow2(f.bits)
  {
    hide Pow2, U64, Written;
    PowZero();
    CutTwice(value, f.bits);
    ReadBack(b, f.offset, f.bits, U64(value), f.bits);
    DivideByOne(U64(value));
  }

  lemma DivideByOne(x: int)
    ensures x / 1 == x
  {}

  lemma ReducedTwice(x: int, signed: bool, bits: nat)
    requires bits >= 1
    ensures Reduced(x % Pow2(bits), signed, bits) == Reduced(x, signed, bits)
  {
    hide Pow2;
    UniqueDivision(x % Pow2(bits), Pow2(bits), 0, x % Pow2(bits));
  }

  /** MAIN RESULT: what is read after a write is the value reduced to the width. */
  lemma StoredReads(b: seq<bool>, f: Place, value: int)
    requires Legal(f) && f.offset + f.bits <= |b|
    ensures Read(Stored(b, f, value), f) == Reduced(value, f.signed, f.bits)
    ensures Fits(value, f.signed, f.bits) ==> Read(Stored(b, f, value), f) == value
  {
    hide Pow2, Stored, Reduced, Fits;
    StoredField(b, f, value);
    ReducedTwice(value, f.signed, f.bits);
    SelfReduced(value, f.signed, f.bits);
  }

  lemma SelfReduced(x: int, signed: bool, bits: nat)
    requires bits >= 1
    ensures Fits(x, signed, bits) ==> Reduced(x, signed, bits) == x
  {
    hide Pow2;
    ReducedIsUnique(x, signed, bits, x);
    UniqueDivision(0, Pow2(bits), 0, 0);
  }

  lemma ReadFits(b: seq<bool>, f: Place)
    requires Legal(f)
    ensures Fits(Read(b, f), f.signed, f.bits)
    ensures f.signed ==> IsI64(Read(b, f))
    ensures !f.signed ==> IsU64(Read(b, f))
  {
    hide Pow2;
    ReducedIsUnique(Field(b, f.offset, f.bits), f.signed, f.bits, 0);
    Widths(f.bits);
  }

  /** Storing the value that a field already holds leaves every bit as it is. */
  lemma StoreSame(b: seq<bool>, f: Place, value: int)
    requires Legal(f) && f.offset + f.bits <= |b| && value == Read(b, f)
    ensures Stored(b, f, value) == b
  {
    hide Pow2;
    var u := Field(b, f.offset, f.bits);
    FieldBound(b, f.offset, f.bits);
    ReducedModulo(u, f.signed, f.bits);
    CutTwice(value, f.bits);
    UniqueDivision(u, Pow2(f.bits), 0, u);
    WriteSame(b, f.offset, f.bits, U64(value));
  }

  // ----- subcommands -----

  datatype Op =
    | GetOp(place: Place)
    | SetOp(place: Place, value: int, mode: Mode)
    | IncrBy(place: Place, incr: int, mode: Mode)

  predicate Wellformed(op: Op) {
    Legal(op.place)
    && (op.SetOp? ==> IsI64(op.value))
    && (op.IncrBy? ==> IsI64(op.incr))
  }

  function Checked(f: Place, value: int, incr: int, mode: Mode): Check
    requires Legal(f) && IsI64(incr) && if f.signed then IsI64(value) else IsU64(value)
  {
    if f.signed then CheckSigned(value, incr, f.bits, mode) else CheckUnsigned(value, incr, f.bits, mode)
  }

  /** The number that SET or INCRBY stores; None when nothing is stored. */
  function Target(b: seq<bool>, op: Op): Option<int>
    requires Wellformed(op) && !op.GetOp?
  {
    var f := op.place;
    var x := if op.SetOp? then (if f.signed then op.value else U64(op.value)) else (ReadFits(b, f); Read(b, f));
    var incr := if op.SetOp? then 0 else op.incr;
    var c := Checked(f, x, incr, op.mode);
    if c.code != 0 then c.limit else Some(x + incr)
  }

  /** One subcommand: the bitmap after it, and the reply. */
  function Step(b: seq<bool>, op: Op): (r: (seq<bool>, Option<int>))
    requires Wellformed(op) && (!op.GetOp? ==> op.place.offset + op.place.bits <= |b|)
    ensures |r.0| == |b|
  {
    if op.GetOp? then (b, Some(Read(b, op.place)))
    else
      match Target(b, op)
      case None => (b, None)
      case Some(v) => (Stored(b, op.place, v), Some(if op.SetOp? then Read(b, op.place) else v))
  }

  /** MAIN RESULT: INCRBY leaves the exact sum when it fits, and otherwise the wrapped or the
      clamped sum; with FAIL it leaves the bitmap alone and replies nothing. */
  lemma IncrByMeans(b: seq<bool>, op: Op)
    requires Wellformed(op) && op.IncrBy? && op.place.offset + op.place.bits <= |b|
    ensures var f := op.place;
            var sum := Read(b, f) + op.incr;
            var (after, reply) := Step(b, op);
            if Fits(sum, f.signed, f.bits) then reply == Some(sum) && Read(after, f) == sum
            else match op.mode
                 case Fail => after == b && reply == None
                 case Wrap => reply == Some(Read(after, f)) && Read(after, f) == Reduced(sum, f.signed, f.bits)
                 case Sat => reply == Some(Read(after, f)) && Read(after, f) == Clamped(sum, f.signed, f.bits)
  {
    hide Read, Stored, CheckSigned, CheckUnsigned, Reduced, Lowest, Highest;
    var f := op.place;
    var x := Read(b, f);
    ReadFits(b, f);
    if f.signed {
      SignedIncr(x, op.incr, f.bits, op.mode);
    } else {
      UnsignedIncr(x, op.incr, f.bits, op.mode);
    }
    match Target(b, op) {
      case None =>
      case Some(v) =>
        StoredReads(b, f, v);
        PolicyFits(x + op.incr, f.signed, f.bits);
    }
  }

  lemma PolicyFits(x: int, signed: bool, bits: nat)
    requires bits >= 1
    ensures Fits(Reduced(x, signed, bits), signed, bits)
    ensures Fits(Clamped(x, signed, bits), signed, bits)
  {
    hide Pow2;
    ReducedIsUnique(x, signed, bits, 0);
    PowTwice(bits);
  }

  lemma SignedLimit(value: int, bits: nat, mode: Mode)
    requires 1 <= bits <= 64 && IsI64(value)
    ensures var c := CheckSigned(value, 0, bits, mode);
            (c.code != 0 && c.limit.Some? ==> Fits(c.limit.value, true, bits)) && (c.limit.None? ==> c.code == 0 || mode == Fail)
  {
    hide Pow2, SignExtended, Reduced;
    WrappedSum(value, 0, bits);
    PolicyFits(value, true, bits);
  }

  lemma UnsignedLimit(value: int, bits: nat, mode: Mode)
    requires 1 <= bits <= 63 && IsI64(value)
    ensures var c := CheckUnsigned(U64(value), 0, bits, mode);
            (c.code != 0 && c.limit.Some? ==> Fits(c.limit.value, false, bits)) && (c.limit.None? ==> c.code == 0 || mode == Fail)
    ensures Fits(value, false, bits) ==> U64(value) == value
  {
    hide Pow2;
    Widths(bits);
    Exact(value);
  }

  /** SET replies the number that was there and stores the given one when it fits. */
  lemma SetMeans(b: seq<bool>, op: Op)
    requires Wellformed(op) && op.SetOp? && op.place.offset + op.place.bits <= |b|
    ensures var f := op.place;
            var (after, reply) := Step(b, op);
            if Fits(op.value, f.signed, f.bits) then reply == Some(Read(b, f)) && Read(after, f) == op.value
            else match op.mode
                 case Fail => after == b && reply == None
                 case Wrap => reply == Some(Read(b, f)) && Read(after, f) == Reduced(op.value, f.signed, f.bits)
                 case Sat =>
                   reply == Some(Read(b, f))
                   && (Read(after, f) == Clamped(op.value, f.signed, f.bits)
                       <==> if f.signed then Highest(true, f.bits) - op.value < TWO63 else op.value >= 0)
  {
    hide Read, Stored, CheckSigned, CheckUnsigned, Reduced, Lowest, Highest;
    var f := op.place;
    if f.signed {
      SignedSet(op.value, f.bits, op.mode);
      SignedLimit(op.value, f.bits, op.mode);
    } else {
      UnsignedSet(op.value, f.bits, op.mode);
      UnsignedLimit(op.value, f.bits, op.mode);
    }
    match Target(b, op) {
      case None =>
      case Some(v) =>
        StoredReads(b, f, v);
        PolicyFits(op.value, f.signed, f.bits);
    }
  }

  /** No subcommand changes a bit outside its field, and GET changes none. */
  lemma StepFrame(b: seq<bool>, op: Op, i: nat)
    requires Wellformed(op) && (!op.GetOp? ==> op.place.offset + op.place.bits <= |b|) && i < |b|
    requires op.GetOp? || i < op.place.offset || op.place.offset + op.place.bits <= i
    ensures Step(b, op).0[i] == b[i]
  {}

  // ----- the command -----

  function Run(b: seq<bool>, ops: seq<Op>): (r: (seq<bool>, seq<Option<int>>))
    requires forall op | op in ops :: Wellformed(op) && (!op.GetOp? ==> op.place.offset + op.place.bits <= |b|)
    ensures |r.0| == |b|
    decreases |ops|
  {
    if ops == [] then (b, [])
    else
      var init, last := ops[..|ops| - 1], ops[|ops| - 1];
      var (before, replies) := Run(b, init);
      var (after, reply) := Step(before, last);
      (after, replies + [reply])
  }

  /** What counts as a change: a number was stored, and it differs from the one before or the
      string had to be created or padded. */
  predicate Changes(b: seq<bool>, op: Op, grown: bool)
    requires Wellformed(op)
  {
    !op.GetOp? && Target(b, op).Some? && (grown || Read(b, op.place) != Target(b, op).value)
  }

  function ChangeCount(b: seq<bool>, ops: seq<Op>, grown: bool): nat
    requires forall op | op in ops :: Wellformed(op) && (!op.GetOp? ==> op.place.offset + op.place.bits <= |b|)
    decreases |ops|
  {
    if ops == [] then 0
    else
      var init, last := ops[..|ops| - 1], ops[|ops| - 1];
      ChangeCount(b, init, grown) + if Changes(Run(b, init).0, last, grown) then 1 else 0
  }

  /** GET: up to nine bytes are copied into a zeroed buffer, and the field is read from there. */
  method GetCopied(src: Bytes, f: Place) returns (value: int)
    requires Legal(f)
    ensures value == Read(BitsOf(src), f)
  {
    var buf := new bv8[9](_ => 0);
    var byte := f.offset / 8;
    var i := 0;
    while i < 9
      invariant 0 <= i <= 9 && fresh(buf)
      invariant forall k | 0 <= k < 9 :: buf[k] == if k < i && byte + k < |src| then src[byte + k] else 0
    {
      if i + byte >= |src| {
        break;
      }
      buf[i] := src[i + byte];
      i := i + 1;
    }
    var g := f.(offset := f.offset - 8 * byte);
    CopyReads(src, buf[..], f, byte);
    value := Get(buf[..], g);
  }

  lemma CopyReads(src: Bytes, buf: Bytes, f: Place, byte: nat)
    requires Legal(f) && byte == f.offset / 8 && |buf| == 9
    requires forall k | 0 <= k < 9 :: buf[k] == if byte + k < |src| then src[byte + k] else 0
    ensures Read(BitsOf(buf), f.(offset := f.offset - 8 * byte)) == Read(BitsOf(src), f)
  {
    hide HasBit, Mask8, Reduced;
    var b, c := BitsOf(src), BitsOf(buf);
    forall i | f.offset <= i < f.offset + f.bits
      ensures At(b, i) == At(c, f.offset - 8 * byte + (i - f.offset))
    {
      CopyBit(src, buf, byte, i);
    }
    FieldSame(b, c, f.offset, f.offset - 8 * byte, f.bits);
  }

  lemma CopyBit(src: Bytes, buf: Bytes, byte: nat, i: nat)
    requires |buf| == 9 && 8 * byte <= i < 8 * byte + 72
    requires forall k | 0 <= k < 9 :: buf[k] == if byte + k < |src| then src[byte + k] else 0
    ensures At(BitsOf(src), i) == At(BitsOf(buf), i - 8 * byte)
  {
    hide HasBit, Mask8;
    var j := i - 8 * byte;
    assert j / 8 == i / 8 - byte && j % 8 == i % 8;
    NoBit(Mask8(i % 8));
  }

  lemma NoBit(m: bv8)
    ensures !HasBit(0, m)
  {}

  /** Executes the parsed subcommands in order, in place. `grown` says that the string was
      created or padded for them. */
  method Execute(p: array<bv8>, ops: seq<Op>, grown: bool) returns (replies: seq<Option<int>>, changes: nat)
    requires forall op | op in ops :: Wellformed(op) && (!op.GetOp? ==> op.place.offset + op.place.bits <= 8 * p.Length)
    modifies p
    ensures (BitsOf(p[..]), replies) == Run(old(BitsOf(p[..])), ops)
    ensures changes == ChangeCount(old(BitsOf(p[..])), ops, grown)
    ensures changes == 0 ==> BitsOf(p[..]) == old(BitsOf(p[..]))
  {
    hide BitAt, Read, Stored, CheckSigned, CheckUnsigned;
    ghost var b := BitsOf(p[..]);
    replies, changes := [], 0;
    var j := 0;
    while j < |ops|
      invariant 0 <= j <= |ops|
      invariant (BitsOf(p[..]), replies) == Run(b, ops[..j])
      invariant changes == ChangeCount(b, ops[..j], grown)
      invariant changes == 0 ==> BitsOf(p[..]) == b
    {
      assert ops[..j + 1][..j] == ops[..j];
      var reply, changed := ExecuteOne(p, ops[j], grown);
      replies := replies + [reply];
      changes := if changed then changes + 1 else changes;
      j := j + 1;
    }
    assert ops[..j] == ops;
  }

  method ExecuteOne(p: array<bv8>, op: Op, grown: bool) returns (reply: Option<int>, changed: bool)
    requires Wellformed(op) && (!op.GetOp? ==> op.place.offset + op.place.bits <= 8 * p.Length)
    modifies p
    ensures (BitsOf(p[..]), reply) == Step(old(BitsOf(p[..])), op)
    ensures changed == Changes(old(BitsOf(p[..])), op, grown)
    ensures !changed ==> BitsOf(p[..]) == old(BitsOf(p[..]))
  {
    hide BitsOf, Read, Stored, CheckSigned, CheckUnsigned;
    var f := op.place;
    if op.GetOp? {
      var value := GetCopied(p[..], f);
      return Some(value), false;
    }
    ghost var b := BitsOf(p[..]);
    var oldValue := Get(p[..], f);
    ReadFits(b, f);
    var newValue := if op.IncrBy? then oldValue else if f.signed then op.value else U64(op.value);
    var incr := if op.IncrBy? then op.incr else 0;
    var check := Checked(f, newValue, incr, op.mode);
    newValue := newValue + incr;
    if check.code != 0 {
      if op.mode == Fail {
        LimitPresent(f, newValue - incr, incr, op.mode);
        return None, false;
      }
      LimitPresent(f, newValue - incr, incr, op.mode);
      newValue := check.limit.value;
    }
    Put(p, f, newValue);
    reply := Some(if op.IncrBy? then newValue else oldValue);
    changed := grown || oldValue != newValue;
    if oldValue == newValue { StoreSame(b, f, newValue); }
  }

  lemma LimitPresent(f: Place, value: int, incr: int, mode: Mode)
    requires Legal(f) && IsI64(incr) && if f.signed then IsI64(value) else IsU64(value)
    ensures var c := Checked(f, value, incr, mode); c.code != 0 ==> (c.limit.None? <==> mode == Fail)
  {
    hide Pow2, SignExtended;
  }

  // ----- making room -----

  predicate ReadOnly(ops: seq<Op>) { forall op | op in ops :: op.GetOp? }

  /** The bytes that the writes reach. */
  function Needed(ops: seq<Op>): nat {
    if ReadOnly(ops) then 0 else HighestWrite(ops) / 8 + 1
  }

  function HighestWrite(ops: seq<Op>): nat {
    if ops == [] then 0
    else
      var h, last := HighestWrite(ops[..|ops| - 1]), ops[|ops| - 1];
      if last.GetOp? || h >= last.place.offset + last.place.bits - 1 then h else last.place.offset + last.place.bits - 1
  }

  function Grown(o: Option<Bytes>, n: nat): (s: Bytes)
    ensures |s| >= n
  {
    var s := if o.None? then [] else o.value;
    if |s| < n then s + seq(n - |s|, _ => 0) else s
  }

  lemma {:induction false} HighestWriteReaches(ops: seq<Op>, op: Op)
    requires op in ops && !op.GetOp? && op.place.bits >= 1
    ensures op.place.offset + op.place.bits <= HighestWrite(ops) + 1
  {
    if op in ops[..|ops| - 1] { HighestWriteReaches(ops[..|ops| - 1], op); }
  }

  lemma Room(o: Option<Bytes>, ops: seq<Op>)
    requires forall op | op in ops :: Wellformed(op)
    ensures forall op | op in ops ::
              !op.GetOp? ==> op.place.offset + op.place.bits <= 8 * |Grown(o, Needed(ops))|
  {
    forall op | op in ops && !op.GetOp?
      ensures op.place.offset + op.place.bits <= 8 * |Grown(o, Needed(ops))|
    {
      HighestWriteReaches(ops, op);
    }
  }

  /** The subcommands run in order on the zero padded string. */
  function Outcome(o: Option<Bytes>, ops: seq<Op>): (seq<bool>, seq<Option<int>>)
    requires forall op | op in ops :: Wellformed(op)
  {
    Room(o, ops);
    Run(BitsOf(Grown(o, Needed(ops))), ops)
  }

  function CountedChanges(o: Option<Bytes>, ops: seq<Op>): nat
    requires forall op | op in ops :: Wellformed(op)
  {
    Room(o, ops);
    var grown := !ReadOnly(ops) && (o.None? || |o.value| < Needed(ops));
    ChangeCount(BitsOf(Grown(o, Needed(ops))), ops, grown)
  }

  lemma SameBits(s: Bytes, t: Bytes)
    requires BitsOf(s) == BitsOf(t)
    ensures s == t
  {
    hide HasBit, Mask8;
    assert 8 * |s| == |BitsOf(s)| == |BitsOf(t)|;
    forall j | 0 <= j < |s|
      ensures s[j] == t[j]
    {
      forall k | 0 <= k < 8
        ensures HasBit(s[j], Mask8(k)) == HasBit(t[j], Mask8(k))
      {
        BitOfByte(s, j, k);
        BitOfByte(t, j, k);
        assert BitsOf(s)[8 * j + k] == BitsOf(t)[8 * j + k];
      }
      SameByte(s[j], t[j]);
    }
  }

  lemma SameByte(b: bv8, c: bv8)
    requires forall k | 0 <= k < 8 :: HasBit(b, Mask8(k)) == HasBit(c, Mask8(k))
    ensures b == c
  {
    assert HasBit(b, Mask8(0)) == HasBit(c, Mask8(0)) && HasBit(b, Mask8(1)) == HasBit(c, Mask8(1));
    assert HasBit(b, Mask8(2)) == HasBit(c, Mask8(2)) && HasBit(b, Mask8(3)) == HasBit(c, Mask8(3));
    assert HasBit(b, Mask8(4)) == HasBit(c, Mask8(4)) && HasBit(b, Mask8(5)) == HasBit(c, Mask8(5));
    assert HasBit(b, Mask8(6)) == HasBit(c, Mask8(6)) && HasBit(b, Mask8(7)) == HasBit(c, Mask8(7));
  }

  /** bitfieldGeneric behind its parser. The replies and the new value are those of the
      subcommands run in order on the zero padded string. When no change is counted, so that
      nobody is told of one, the value is as before if and only if the string did not have to
      be created or padded. */
  method Perform(o: Option<Bytes>, ops: seq<Op>)
    returns (after: Option<Bytes>, replies: seq<Option<int>>, changes: nat)
    requires forall op | op in ops :: Wellformed(op)
    ensures replies == Outcome(o, ops).1
    ensures changes == CountedChanges(o, ops)
    ensures ReadOnly(ops) ==> after == o
    ensures !ReadOnly(ops) ==> after.Some? && BitsOf(after.value) == Outcome(o, ops).0
    ensures changes == 0 ==> (after == o <==> ReadOnly(ops) || (o.Some? && |o.value| >= Needed(ops)))
  {
    Room(o, ops);
    var base := Grown(o, Needed(ops));
    var p := new bv8[|base|](i requires 0 <= i < |base| => base[i]);
    assert p[..] == base;
    var grown := !ReadOnly(ops) && (o.None? || |o.value| < Needed(ops));
    replies, changes := Execute(p, ops, grown);
    after := if ReadOnly(ops) then o else Some(p[..]);
    if changes == 0 { SameBits(p[..], base); }
  }

  /** A SET that fails on a missing key creates the key and counts no change. */
  lemma FailedSetCreatesKey()
    ensures var ops := [SetOp(Place(false, 8, 0), 300, Fail)];
            Needed(ops) == 1 && Outcome(None, ops).1 == [None] && Grown(None, 1) == [0] && CountedChanges(None, ops) == 0
  {
    var op := SetOp(Place(false, 8, 0), 300, Fail);
    assert op in [op] && [op][..0] == [];
    assert HighestWrite([op]) == 7;
    PowEight();
    UnsignedSet(300, 8, Fail);
  }
}
