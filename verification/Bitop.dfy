/** BITOP (bitops.c:607-793). */
module Bitop {
  import opened Bits
  import opened Wrappers

  datatype BitOp = And | Or | Xor | Not

  // ----- what is computed -----

  /** A string reads as zero behind its end. */
  function ByteAt(s: Bytes, j: nat): bv8 { if j < |s| then s[j] else 0 }

  /** Folding one more string in; a single string has been complemented already. */
  function Join(op: BitOp, x: bv8, y: bv8): bv8 {
    match op
    case And => AndBytes(x, y)
    case Or => OrBytes(x, y)
    case Xor => XorBytes(x, y)
    case Not => x
  }

  function AndBytes(x: bv8, y: bv8): bv8 { x & y }

  function OrBytes(x: bv8, y: bv8): bv8 { x | y }

  function XorBytes(x: bv8, y: bv8): bv8 { x ^ y }

  /** Byte j of the first k strings combined. */
  function Combined(op: BitOp, srcs: seq<Bytes>, j: nat, k: nat): bv8
    requires 1 <= k <= |srcs|
  {
    if k == 1 then (if op == Not then !ByteAt(srcs[0], j) else ByteAt(srcs[0], j))
    else Join(op, Combined(op, srcs, j, k - 1), ByteAt(srcs[k - 1], j))
  }

  function MaxLen(srcs: seq<Bytes>): nat {
    if srcs == [] then 0 else
      var m := MaxLen(srcs[..|srcs| - 1]);
      if |srcs[|srcs| - 1]| > m then |srcs[|srcs| - 1]| else m
  }

  ghost predicate IsMinLen(srcs: seq<Bytes>, n: nat) {
    (forall i | 0 <= i < |srcs| :: n <= |srcs[i]|) && (srcs != [] ==> exists i | 0 <= i < |srcs| :: n == |srcs[i]|)
  }

  /** Missing keys count as empty strings. */
  function Strings(keys: seq<Option<Bytes>>): (r: seq<Bytes>)
    ensures |r| == |keys|
  {
    seq(|keys|, i requires 0 <= i < |keys| => if keys[i].None? then [] else keys[i].value)
  }

  // ----- words of eight bytes -----

  function JoinWords(op: BitOp, x: bv64, y: bv64): bv64 {
    match op
    case And => AndWords(x, y)
    case Or => OrWords(x, y)
    case Xor => XorWords(x, y)
    case Not => x
  }

  function AndWords(x: bv64, y: bv64): bv64 { x & y }

  function OrWords(x: bv64, y: bv64): bv64 { x | y }

  function XorWords(x: bv64, y: bv64): bv64 { x ^ y }

  /** The lowest byte, and the word without it. */
  function Low(w: bv64): bv8 { (w & 0xff) as bv8 }

  function Down(w: bv64): bv64 { w >> 8 }

  /** Byte t of a word in memory, the lowest one first. */
  function ByteOf(w: bv64, t: nat): bv8 { if t == 0 then Low(w) else ByteOf(Down(w), t - 1) }

  lemma AndDown(x: bv64, y: bv64)
    ensures Down(AndWords(x, y)) == AndWords(Down(x), Down(y))
  {}

  lemma AndLow(x: bv64, y: bv64)
    ensures Low(AndWords(x, y)) == AndBytes(Low(x), Low(y))
  {}

  lemma OrDown(x: bv64, y: bv64)
    ensures Down(OrWords(x, y)) == OrWords(Down(x), Down(y))
  {}

  lemma OrLow(x: bv64, y: bv64)
    ensures Low(OrWords(x, y)) == OrBytes(Low(x), Low(y))
  {}

  lemma XorDown(x: bv64, y: bv64)
    ensures Down(XorWords(x, y)) == XorWords(Down(x), Down(y))
  {}

  lemma XorLow(x: bv64, y: bv64)
    ensures Low(XorWords(x, y)) == XorBytes(Low(x), Low(y))
  {}

  lemma JoinedParts(op: BitOp, x: bv64, y: bv64)
    ensures Down(JoinWords(op, x, y)) == JoinWords(op, Down(x), Down(y))
    ensures Low(JoinWords(op, x, y)) == Join(op, Low(x), Low(y))
  {
    hide Down, Low, AndWords, OrWords, XorWords, AndBytes, OrBytes, XorBytes;
    match op
    case And => AndDown(x, y); AndLow(x, y);
    case Or => OrDown(x, y); OrLow(x, y);
    case Xor => XorDown(x, y); XorLow(x, y);
    case Not =>
  }

  lemma {:induction false} JoinedByte(op: BitOp, x: bv64, y: bv64, t: nat)
    requires t < 8
    ensures ByteOf(JoinWords(op, x, y), t) == Join(op, ByteOf(x, t), ByteOf(y, t))
    decreases t
  {
    hide JoinWords, Join, Low, Down;
    JoinedParts(op, x, y);
    if t > 0 {
      JoinedByte(op, Down(x), Down(y), t - 1);
    }
  }

  lemma LoadedLow(a: bv8, b: bv8, c: bv8, d: bv8, e: bv8, f: bv8, g: bv8, h: bv8, zero: bv8)
    requires zero == 0
    ensures Low(Loaded(a, b, c, d, e, f, g, h)) == a && Down(Loaded(a, b, c, d, e, f, g, h)) == Loaded(b, c, d, e, f, g, h, zero)
  {}

  function WordOf(s: Bytes): bv64
    requires |s| == 8
  {
    Loaded(s[0], s[1], s[2], s[3], s[4], s[5], s[6], s[7])
  }

  lemma WordDown(s: Bytes)
    requires |s| == 8
    ensures Low(WordOf(s)) == s[0] && Down(WordOf(s)) == WordOf(s[1..] + [0])
  {
    hide Loaded, Low, Down;
    LoadedLow(s[0], s[1], s[2], s[3], s[4], s[5], s[6], s[7], 0);
  }

  lemma {:induction false} WordOfByte(s: Bytes, t: nat)
    requires |s| == 8 && t < 8
    ensures ByteOf(WordOf(s), t) == s[t]
    decreases t
  {
    hide WordOf, Low, Down;
    WordDown(s);
    if t > 0 { WordOfByte(s[1..] + [0], t - 1); }
  }

  lemma WordByte(s: Bytes, c: nat, t: nat)
    requires c + 8 <= |s| && t < 8
    ensures ByteOf(WordAt(s, c), t) == s[c + t]
  {
    hide Loaded, ByteOf;
    assert WordAt(s, c) == WordOf(s[c..c + 8]);
    WordOfByte(s[c..c + 8], t);
  }

  const ALL_ONES: bv64 := 0xffff_ffff_ffff_ffff

  lemma NotByte(x: bv64, t: nat)
    requires t < 8
    ensures ByteOf(NotWord(x), t) == NotBits(ByteOf(x, t))
  {
    hide ByteOf, NotWord, NotBits;
    NotIsXor(x, ByteOf(x, t));
    OnesByte(t);
    JoinedByte(Xor, x, ALL_ONES, t);
  }

  function NotWord(x: bv64): bv64 { !x }

  function NotBits(x: bv8): bv8 { !x }

  lemma OnesByte(t: nat)
    ensures t < 8 ==> ByteOf(ALL_ONES, t) == 0xff
  {
    if t < 8 {
      OnesLoaded();
      WordOfByte([0xff, 0xff, 0xff, 0xff, 0xff, 0xff, 0xff, 0xff], t);
    }
  }

  lemma OnesLoaded()
    ensures Loaded(0xff, 0xff, 0xff, 0xff, 0xff, 0xff, 0xff, 0xff) == ALL_ONES
  {}

  lemma NotIsXor(x: bv64, b: bv8)
    ensures NotWord(x) == JoinWords(Xor, x, ALL_ONES) && NotBits(b) == Join(Xor, b, 0xff)
  {}

  /** The new word, and the new byte. */
  function NewWord(op: BitOp, x: bv64, y: bv64): bv64 { if op == Not then NotWord(x) else JoinWords(op, x, y) }

  function Folded(op: BitOp, x: bv8, y: bv8): bv8 { if op == Not then NotBits(x) else Join(op, x, y) }

  /** A word operation acts on each of its eight bytes alone. */
  lemma NewByte(op: BitOp, s: Bytes, r: Bytes, c: nat, t: nat)
    requires c + 8 <= |s| && c + 8 <= |r| && t < 8
    ensures ByteOf(NewWord(op, WordAt(s, c), WordAt(r, c)), t) == Folded(op, s[c + t], r[c + t])
  {
    hide WordAt, ByteOf, JoinWords, Join, NotWord, NotBits;
    WordByte(s, c, t);
    WordByte(r, c, t);
    if op == Not {
      NotByte(WordAt(s, c), t);
    } else {
      JoinedByte(op, WordAt(s, c), WordAt(r, c), t);
    }
  }

  // ----- bitopCommand -----

  /** lres[n] op= lp[n], on the word at c, in place. */
  method UpdateWord(res: array<bv8>, c: nat, op: BitOp, src: Bytes)
    requires c + 8 <= res.Length && c + 8 <= |src|
    modifies res
    ensures forall i | 0 <= i < res.Length ::
              res[i] == if c <= i < c + 8 then Folded(op, old(res[i]), src[i]) else old(res[i])
  {
    hide ByteOf, WordAt, NewWord, Folded;
    ghost var before := res[..];
    var w := NewWord(op, WordAt(res[..], c), WordAt(src, c));
    var t := 0;
    while t < 8
      invariant 0 <= t <= 8
      invariant forall i | 0 <= i < res.Length ::
                  res[i] == if c <= i < c + t then Folded(op, before[i], src[i]) else before[i]
    {
      NewByte(op, before, src, c, t);
      res[c + t] := ByteOf(w, t);
      t := t + 1;
    }
  }

  /** Four words at once. */
  method UpdateChunk(res: array<bv8>, c: nat, op: BitOp, src: Bytes)
    requires c + 32 <= res.Length && c + 32 <= |src|
    modifies res
    ensures forall i | 0 <= i < res.Length ::
              res[i] == if c <= i < c + 32 then Folded(op, old(res[i]), src[i]) else old(res[i])
  {
    hide Folded;
    UpdateWord(res, c, op, src);
    UpdateWord(res, c + 8, op, src);
    UpdateWord(res, c + 16, op, src);
    UpdateWord(res, c + 24, op, src);
  }

  /** The fast path: blocks of 32 bytes as long as every string has one. */
  method FastPath(res: array<bv8>, op: BitOp, srcs: seq<Bytes>, minLen: nat) returns (j: nat)
    requires srcs != [] && minLen <= res.Length && (op == Not ==> |srcs| == 1)
    requires forall i | 0 <= i < |srcs| :: minLen <= |srcs[i]|
    requires forall t | 0 <= t < minLen :: res[t] == srcs[0][t]
    modifies res
    ensures j <= minLen
    ensures forall t | 0 <= t < j :: res[t] == Combined(op, srcs, t, |srcs|)
  {
    hide Folded, Join;
    j := 0;
    var left := minLen;
    while left >= 32
      invariant 0 <= left && j + left == minLen
      invariant forall t | 0 <= t < j :: res[t] == Combined(op, srcs, t, |srcs|)
      invariant forall t | j <= t < minLen :: res[t] == srcs[0][t]
    {
      if op == Not {
        UpdateChunk(res, j, op, srcs[0]);
        forall t | j <= t < j + 32
          ensures res[t] == Combined(op, srcs, t, |srcs|)
        {
          NotFolds(srcs[0][t]);
        }
      } else {
        var i := 1;
        while i < |srcs|
          invariant 1 <= i <= |srcs|
          invariant forall t | 0 <= t < j :: res[t] == Combined(op, srcs, t, |srcs|)
          invariant forall t | j <= t < j + 32 :: res[t] == Combined(op, srcs, t, i)
          invariant forall t | j + 32 <= t < minLen :: res[t] == srcs[0][t]
        {
          UpdateChunk(res, j, op, srcs[i]);
          FoldedIsJoin(op);
          i := i + 1;
        }
      }
      j, left := j + 32, left - 32;
    }
  }

  lemma NotFolds(x: bv8)
    ensures Folded(Not, x, x) == !x
  {}

  lemma FoldedIsJoin(op: BitOp)
    requires op != Not
    ensures forall x, y :: Folded(op, x, y) == Join(op, x, y)
  {}

  /** One byte of the rest, with an early exit when no later string can change it. */
  method SlowByte(op: BitOp, srcs: seq<Bytes>, j: nat) returns (output: bv8)
    requires srcs != [] && (op == Not ==> |srcs| == 1)
    ensures output == Combined(op, srcs, j, |srcs|)
  {
    hide Join;
    output := ByteAt(srcs[0], j);
    if op == Not {
      output := !output;
    }
    var i := 1;
    while i < |srcs|
      invariant 1 <= i <= |srcs| && output == Combined(op, srcs, j, i)
    {
      output := Join(op, output, ByteAt(srcs[i], j));
      var skip := (op == And && output == 0) || (op == Or && output == 0xff);
      if skip {
        Absorbed(op, srcs, j, i + 1, |srcs|);
        break;
      }
      i := i + 1;
    }
  }

  /** Zero stays zero under AND, and a full byte stays full under OR. */
  lemma {:induction false} Absorbed(op: BitOp, srcs: seq<Bytes>, j: nat, i: nat, k: nat)
    requires 1 <= i <= k <= |srcs|
    requires (op == And && Combined(op, srcs, j, i) == 0) || (op == Or && Combined(op, srcs, j, i) == 0xff)
    ensures Combined(op, srcs, j, k) == Combined(op, srcs, j, i)
    decreases k
  {
    if i < k {
      Absorbed(op, srcs, j, i, k - 1);
      AbsorbByte(ByteAt(srcs[k - 1], j));
    }
  }

  lemma AbsorbByte(y: bv8)
    ensures Join(And, 0, y) == 0 && Join(Or, 0xff, y) == 0xff
  {}

  lemma NoLengths()
    ensures MaxLen([]) == 0
  {}

  lemma LongerLengths(srcs: seq<Bytes>, s: Bytes, n: nat)
    ensures MaxLen(srcs + [s]) == if |s| > MaxLen(srcs) then |s| else MaxLen(srcs)
    ensures srcs == [] || IsMinLen(srcs, n) ==> IsMinLen(srcs + [s], if srcs == [] || |s| < n then |s| else n)
  {
    var more := srcs + [s];
    assert more[..|srcs|] == srcs && more[|srcs|] == s;
    if srcs != [] && IsMinLen(srcs, n) {
      var w :| 0 <= w < |srcs| && n == |srcs[w]|;
      assert more[w] == srcs[w];
    }
  }

  lemma StringsNext(keys: seq<Option<Bytes>>, j: nat)
    requires j < |keys|
    ensures Strings(keys)[..j + 1] == Strings(keys)[..j] + [if keys[j].None? then [] else keys[j].value]
  {}

  /** The lengths, as collected while the keys are looked up. */
  method Lengths(keys: seq<Option<Bytes>>) returns (srcs: seq<Bytes>, maxLen: nat, minLen: nat)
    ensures srcs == Strings(keys) && maxLen == MaxLen(srcs) && (keys != [] ==> IsMinLen(srcs, minLen))
  {
    hide MaxLen, IsMinLen, Strings;
    srcs, maxLen, minLen := [], 0, 0;
    NoLengths();
    var j := 0;
    while j < |keys|
      invariant 0 <= j <= |keys| && srcs == Strings(keys)[..j]
      invariant maxLen == MaxLen(srcs) && (j > 0 ==> IsMinLen(srcs, minLen))
    {
      var o := keys[j];
      var s := if o.None? then [] else o.value;
      LongerLengths(srcs, s, minLen);
      StringsNext(keys, j);
      srcs := srcs + [s];
      if o.None? {
        minLen := 0;
      } else {
        if |s| > maxLen {
          maxLen := |s|;
        }
        if j == 0 || |s| < minLen {
          minLen := |s|;
        }
      }
      j := j + 1;
    }
    assert Strings(keys)[..j] == Strings(keys);
  }

  /** MAIN RESULT: the operation, byte by byte, on the strings padded with zeros to the longest
      one. The empty result deletes the target key. NOT of several keys is refused. */
  method Bitop(op: BitOp, keys: seq<Option<Bytes>>) returns (res: Option<Bytes>)
    requires keys != []
    ensures res.None? <==> op == Not && |keys| != 1
    ensures res.Some? ==>
              |res.value| == MaxLen(Strings(keys))
              && forall t | 0 <= t < |res.value| :: res.value[t] == Combined(op, Strings(keys), t, |keys|)
  {
    hide Combined, IsMinLen;
    if op == Not && |keys| != 1 {
      return None;
    }
    var srcs, maxLen, minLen := Lengths(keys);
    if maxLen == 0 {
      return Some([]);
    }
    var out := new bv8[maxLen](_ => 0);
    var j := 0;
    MinBelowMax(srcs, minLen);
    if minLen >= 32 && |srcs| <= 16 {
      var t := 0;
      while t < minLen
        invariant 0 <= t <= minLen && forall i | 0 <= i < t :: out[i] == srcs[0][i]
      {
        out[t] := srcs[0][t];
        t := t + 1;
      }
      j := FastPath(out, op, srcs, minLen);
    }
    while j < maxLen
      invariant 0 <= j <= maxLen && forall i | 0 <= i < j :: out[i] == Combined(op, srcs, i, |srcs|)
    {
      out[j] := SlowByte(op, srcs, j);
      j := j + 1;
    }
    res := Some(out[..]);
  }

  lemma {:induction false} MaxBounds(srcs: seq<Bytes>, i: nat)
    requires i < |srcs|
    ensures |srcs[i]| <= MaxLen(srcs)
  {
    if i < |srcs| - 1 { MaxBounds(srcs[..|srcs| - 1], i); }
  }

  lemma MinBelowMax(srcs: seq<Bytes>, n: nat)
    requires srcs != [] && IsMinLen(srcs, n)
    ensures n <= MaxLen(srcs) && forall i | 0 <= i < |srcs| :: n <= |srcs[i]|
  {
    MaxBounds(srcs, 0);
  }
}
