/** Exactly which bytes may be left in the buffer at a rewrite start (aof.c:2443-2450) without
    the rewritten directory ever giving back another dataset than the live one. */
module AofHarmless {
  import opened Wrappers
  import opened Resp
  import opened AofLoad
  import opened AofFeed
  import opened AofFlush
  import opened AofManifest
  import opened AofDisk
  import opened AofInvariant
  import opened AofLeftover

  /** The loader reads all of it, executes nothing and is in no transaction behind it. */
  ghost predicate Harmless(b: Bytes, dbnum: nat, env: Env) {
    var r := ScanBytes(b, env);
    r.Passed? && !OpenMulti(r.cs) && Replayed(r.cs, dbnum) == []
  }

  /** Whatever is fed after the switch, the rewritten directory loads to the live dataset. */
  ghost predicate AlwaysLive(dbnum: nat, env: Env, s: State<seq<Item>>, rdb: bool) {
    var sem := HistorySem(dbnum, env);
    forall items | BatchOk(sem, items) ::
      LoadDisk(sem, SwappedDisk(s, rdb, NewFile(s, items))).Recovered?
      && LoadDisk(sem, SwappedDisk(s, rdb, NewFile(s, items))).d == LiveAfter(sem, s, items)
  }

  // ----- commands to probe with -----

  predicate Unmarked(b: Bytes) { STAR !in b && HASH !in b }

  /** A data command that may be fed on the first three databases, without the bytes that start a
      command or an annotation. */
  ghost predicate Probe(dbnum: nat, env: Env, c: Argv) {
    && (forall a | a in c :: Unmarked(a)) && !IsBracket(c) && !IsSelect(c)
    && forall d: nat | d < 3 :: BatchOk(HistorySem(dbnum, env), [Item(d, c)])
  }

  // ----- commands that reach from the bytes left into what was fed -----

  /** The first argument: a line that starts with a dollar sign, and the bytes it announces. */
  predicate ArgLine(b: Bytes) {
    ReadLine(b).Line? && ReadLine(b).text[0] == DOLLAR && Strtol(ReadLine(b).text[1..]) >= 0
  }

  function ArgLen(b: Bytes): nat
    requires ArgLine(b)
  {
    Strtol(ReadLine(b).text[1..])
  }

  /** There are enough bytes for it. */
  predicate ArgFits(b: Bytes) { ArgLine(b) && ArgLen(b) + 2 <= |ReadLine(b).rest| }

  function Arg(b: Bytes): Bytes
    requires ArgFits(b)
  {
    ReadLine(b).rest[..ArgLen(b)]
  }

  function Behind(b: Bytes): Bytes
    requires ArgFits(b)
  {
    ReadLine(b).rest[ArgLen(b) + 2..]
  }

  lemma Peel(b: Bytes, n: nat)
    requires n > 0 && ReadArgs(b, n).Args?
    ensures ArgFits(b) && ReadArgs(Behind(b), n - 1).Args?
    ensures ReadArgs(b, n).argv == [Arg(b)] + ReadArgs(Behind(b), n - 1).argv
    ensures ReadArgs(b, n).rest == ReadArgs(Behind(b), n - 1).rest
  {
    hide ReadLine, Strtol;
  }

  lemma PeelShort(b: Bytes, n: nat)
    requires ReadArgs(b, n) == ArgsShort
    ensures n > 0 && (ReadLine(b).Line? ==> ArgLine(b)) && (ArgFits(b) ==> ReadArgs(Behind(b), n - 1) == ArgsShort)
  {
    hide ReadLine, Strtol;
  }

  lemma PeelExtends(b: Bytes, e: Bytes)
    requires b != [] && EndsLine(b) && ArgFits(b + e)
    ensures ArgLine(b) && ReadLine(b).Line?
    ensures ArgFits(b) ==> EndsLine(Behind(b)) && Behind(b + e) == Behind(b) + e
    ensures !ArgFits(b) ==>
              var rest, len := ReadLine(b).rest, ArgLen(b);
              |rest| < len + 2 <= |rest + e| && Arg(b + e) == (rest + e)[..len] && Behind(b + e) == (rest + e)[len + 2..]
  {
    hide ReadLine, Strtol;
    ReadLineExtends(b, e);
    if ArgFits(b) { assert Behind(b + e) == Behind(b) + e; }
  }

  predicate StarFirst(e: Bytes) { |e| >= 3 && e[0] == STAR && e[1] != DOLLAR && e[2] != DOLLAR }

  lemma NotEmpty(b: Bytes, e: Bytes)
    requires StarFirst(e) && ArgLine(b + e)
    ensures b != []
  {
    assert [] + e == e;
  }

  /** A command that was short reaches into what follows. */
  lemma {:induction false} ReachesOver(b: Bytes, e: Bytes, n: nat)
    requires EndsLine(b) && ReadArgs(b, n) == ArgsShort && ReadArgs(b + e, n).Args? && StarFirst(e)
    ensures |ReadArgs(b + e, n).rest| < |e|
    decreases n
  {
    hide ReadLine, ReadArgs, EndsLine, StarFirst, ArgLine, ArgFits, Arg, Behind, ArgLen;
    PeelShort(b, n);
    Peel(b + e, n);
    FitsIsLine(b + e);
    NotEmpty(b, e);
    PeelExtends(b, e);
    if ArgFits(b) {
      ReachesOver(Behind(b), e, n - 1);
    } else {
      RestShrinks(Behind(b + e), n - 1);
    }
  }

  lemma FitsIsLine(b: Bytes)
    requires ArgFits(b)
    ensures ArgLine(b)
  {}

  lemma RestShrinks(b: Bytes, n: nat)
    requires ReadArgs(b, n).Args?
    ensures |ReadArgs(b, n).rest| <= |b|
  {}

  /** An argument that reaches over the star that starts what was fed holds that star. */
  lemma {:induction false} Crossing(b: Bytes, e: Bytes, n: nat) returns (i: nat)
    requires EndsLine(b) && ReadArgs(b, n) == ArgsShort && ReadArgs(b + e, n).Args?
    requires StarFirst(e) && |ReadArgs(b + e, n).rest| < |e| - 2
    ensures i < n && STAR in ReadArgs(b + e, n).argv[i]
    decreases n
  {
    hide ReadLine, ReadArgs, EndsLine, StarFirst, ArgLine, ArgFits, Arg, Behind, ArgLen;
    PeelShort(b, n);
    Peel(b + e, n);
    FitsIsLine(b + e);
    NotEmpty(b, e);
    PeelExtends(b, e);
    if ArgFits(b) {
      var j := Crossing(Behind(b), e, n - 1);
      i := j + 1;
    } else {
      i := 0;
      StarInside(ReadLine(b).rest, e, ArgLen(b), n - 1);
    }
  }

  lemma StarInside(rest: Bytes, e: Bytes, len: nat, n: nat)
    requires StarFirst(e) && |rest| < len + 2 <= |rest + e|
    requires ReadArgs((rest + e)[len + 2..], n).Args? && |ReadArgs((rest + e)[len + 2..], n).rest| < |e| - 2
    ensures STAR in (rest + e)[..len]
  {
    hide ReadArgs;
    assert (rest + e)[len + 2..] == e[len + 2 - |rest|..];
    if len <= |rest| { Spill(e, len + 2 - |rest|, n); }
    assert (rest + e)[..len][|rest|] == STAR;
  }

  /** Two bytes of it are not enough: what follows is no argument. */
  lemma Spill(e: Bytes, k: nat, n: nat)
    requires StarFirst(e) && 1 <= k <= 2
    ensures ReadArgs(e[k..], n).Args? ==> |ReadArgs(e[k..], n).rest| >= |e| - 2
  {
    hide Strtol;
    if ReadArgs(e[k..], n).Args? && n > 0 {
      Peel(e[k..], n);
      FirstByte(e[k..]);
    }
  }

  lemma FirstByte(e: Bytes)
    requires e != []
    ensures ReadLine(e).Line? && ReadLine(e).text[0] == e[0]
  {}

  predicate StarIn(x: Argv) { exists i :: 0 <= i < |x| && STAR in x[i] }

  /** A command that is short in b: with more bytes behind it, it is still short, or refused, or it
      reaches into them. */
  lemma HangingReads(b: Bytes, e: Bytes)
    requires EndsLine(b) && ReadCommand(b) == ShortRead && StarFirst(e)
    ensures match ReadCommand(b + e)
            case Command(x, rest) => |rest| < |e| && rest == e[|e| - |rest|..] && (|rest| < |e| - 2 ==> StarIn(x))
            case r => r == ShortRead || r == BadFormat
  {
    hide ReadLine, ReadArgs, Atoi, StarFirst, ReadCommand;
    var argc := HangingStar(b);
    ReadLineExtends(b, e);
    StarLine(b, argc);
    StarLine(b + e, argc);
    var rest := ReadLine(b).rest;
    if ReadArgs(rest + e, argc).Args? {
      ReachesOver(rest, e, argc);
      var tail := ReadArgs(rest + e, argc).rest;
      RestIsSuffix(rest + e, argc);
      assert tail == e[|e| - |tail|..];
      if |tail| < |e| - 2 {
        var i := Crossing(rest, e, argc);
      }
    }
  }

  lemma RestIsSuffix(b: Bytes, n: nat)
    requires ReadArgs(b, n).Args?
    ensures |ReadArgs(b, n).rest| <= |b| && ReadArgs(b, n).rest == b[|b| - |ReadArgs(b, n).rest|..]
    ensures |ReadArgs(b, n).argv| == n
  {}

  lemma HangingStar(b: Bytes) returns (argc: nat)
    requires EndsLine(b) && ReadCommand(b) == ShortRead
    ensures b != [] && IsStar(b, argc) && ReadLine(b).Line? && ReadArgs(ReadLine(b).rest, argc) == ArgsShort
    ensures EndsLine(ReadLine(b).rest)
  {
    hide ReadLine, ReadArgs, Atoi;
    NothingIsNotShort(b);
    ReadLineExtends(b, []);
    argc := Atoi(ReadLine(b).text[1..]);
  }

  lemma NothingIsNotShort(b: Bytes)
    requires ReadCommand(b) == ShortRead
    ensures b != []
  {}

  // ----- what was fed -----

  lemma {:induction false} UnmarkedArgs(c: Argv)
    requires forall a | a in c :: Unmarked(a)
    ensures Unmarked(EncodeArgs(c))
  {
    if c != [] {
      UnmarkedArgs(c[1..]);
      var a := c[0];
      assert a in c && Unmarked(a) && Unmarked(Digits(|a|)) && Unmarked(CRLF) && Unmarked([DOLLAR]);
      assert Unmarked(EncodeArg(a));
    }
  }

  lemma UnmarkedCommand(c: Argv)
    requires forall a | a in c :: Unmarked(a)
    ensures |EncodeCommand(c)| >= 4 && EncodeCommand(c)[0] == STAR && Unmarked(EncodeCommand(c)[1..])
  {
    UnmarkedArgs(c);
    assert Unmarked(Digits(|c|));
    assert EncodeCommand(c)[1..] == Digits(|c|) + CRLF + EncodeArgs(c);
  }

  /** A SELECT and the command behind it: only these two places start something. */
  lemma Marks(d: nat, c: Argv)
    requires d < 3 && forall a | a in c :: Unmarked(a)
    ensures var e, n := EncodeAll([SelectCommand(d), c]), |EncodeCommand(SelectCommand(d))|;
            StarFirst(e) && 4 <= n <= |e| && e[n..] == EncodeCommand(c)
            && forall j | 0 < j < |e| && j != n :: e[j] != STAR && e[j] != HASH
  {
    hide EncodeCommand;
    var sel := SelectCommand(d);
    var a, b := EncodeCommand(sel), EncodeCommand(c);
    var e := EncodeAll([sel, c]);
    assert [sel, c][1..] == [c] && [c][1..] == [];
    EncodeOne(c);
    assert e == a + b;
    UnmarkedCommand(sel);
    UnmarkedCommand(c);
    SelectHeader(d);
    forall j | 0 < j < |e| && j != |a|
      ensures e[j] != STAR && e[j] != HASH
    {
      if j < |a| {
        assert e[j] == a[1..][j - 1];
      } else {
        assert e[j] == b[1..][j - |a| - 1];
      }
    }
  }

  lemma SelectHeader(d: nat)
    ensures var a := EncodeCommand(SelectCommand(d)); |a| >= 4 && a[1] == 50 && a[2] == CR
  {
    assert Header(STAR, 2) == [STAR, 50, CR, LF];
  }

  // ----- where a hanging load ends -----

  /** What was executed when such a load does not fail: nothing new, or a command with a star in an
      argument, perhaps followed by the one that was fed. */
  ghost predicate Astray(l: Loaded, k: Client, c: Argv) {
    l.status == AofFailed || l.applied == k.applied
    || exists x :: StarIn(x) && (l.applied == RunCommand(k, x).applied || l.applied == RunCommand(RunCommand(k, x), c).applied)
  }

  lemma HangingLoad(b: Bytes, d: nat, c: Argv, size: nat, p: Progress, env: Env)
    requires EndsLine(b) && ReadCommand(b) == ShortRead && d < 3 && (forall a | a in c :: Unmarked(a))
    requires ValidCommand(c) && env.known(c) && |b + EncodeAll([SelectCommand(d), c])| <= size
    ensures Astray(LoadFrom(b + EncodeAll([SelectCommand(d), c]), size, p, env), p.client, c)
  {
    hide ReadCommand, EncodeAll, StarFirst, RunCommand, Astray, StarIn, IsMulti, SelectCommand, EncodeCommand;
    var e, n := EncodeAll([SelectCommand(d), c]), |EncodeCommand(SelectCommand(d))|;
    Marks(d, c);
    HangingReads(b, e);
    match ReadCommand(b + e) {
      case ShortRead =>
        ShortEnds(b + e, size, p, c, env);
      case BadFormat =>
        BadEnds(b + e, size, p, c, env);
      case Command(x, rest) =>
        var j := |e| - |rest|;
        if j == |e| {
          EndsBehind(b + e, x, size, p, c, env);
        } else if j == n {
          EndsAfterCommand(b + e, x, size, p, c, env);
        } else {
          NoMarkNoCommand(rest);
          FailsBehind(b + e, x, rest, size, p, c, env);
        }
    }
  }

  lemma ShortEnds(f: Bytes, size: nat, p: Progress, c: Argv, env: Env)
    requires ReadCommand(f) == ShortRead && |f| <= size
    ensures Astray(LoadFrom(f, size, p, env), p.client, c)
  {
    hide ReadCommand;
  }

  lemma BadEnds(f: Bytes, size: nat, p: Progress, c: Argv, env: Env)
    requires ReadCommand(f) == BadFormat && |f| <= size
    ensures Astray(LoadFrom(f, size, p, env), p.client, c)
  {
    hide ReadCommand;
  }

  lemma NoMarkNoCommand(rest: Bytes)
    requires rest != [] && rest[0] != STAR && rest[0] != HASH
    ensures ReadCommand(rest) == BadFormat
  {
    FirstByte(rest);
  }

  lemma FailsBehind(f: Bytes, x: Argv, rest: Bytes, size: nat, p: Progress, c: Argv, env: Env)
    requires ReadCommand(f) == Command(x, rest) && ReadCommand(rest) == BadFormat && |f| <= size
    ensures Astray(LoadFrom(f, size, p, env), p.client, c)
  {
    hide ReadCommand, RunCommand;
    if env.known(x) {
      assert LoadFrom(rest, size, Advance(p, x, size - |rest|, env), env).status == AofFailed;
    }
  }

  lemma EndsBehind(f: Bytes, x: Argv, size: nat, p: Progress, c: Argv, env: Env)
    requires ReadCommand(f) == Command(x, []) && StarIn(x) && |f| <= size
    ensures Astray(LoadFrom(f, size, p, env), p.client, c)
  {
    hide ReadCommand, RunCommand;
    ReadNothing();
    if env.known(x) {
      assert LoadFrom([], size, Advance(p, x, size, env), env).applied == RunCommand(p.client, x).applied;
    }
  }

  lemma EndsAfterCommand(f: Bytes, x: Argv, size: nat, p: Progress, c: Argv, env: Env)
    requires ReadCommand(f) == Command(x, EncodeCommand(c)) && StarIn(x) && |f| <= size
    requires ValidCommand(c) && env.known(c)
    ensures Astray(LoadFrom(f, size, p, env), p.client, c)
  {
    hide ReadCommand, RunCommand, EncodeCommand;
    ReadNothing();
    CommandReadBack(c, []);
    assert EncodeCommand(c) + [] == EncodeCommand(c);
    if env.known(x) {
      var q := Advance(p, x, size - |EncodeCommand(c)|, env);
      var l := LoadFrom(EncodeCommand(c), size, q, env);
      assert LoadFrom([], size, Advance(q, c, size, env), env).applied == RunCommand(q.client, c).applied;
      assert l.applied == RunCommand(RunCommand(p.client, x), c).applied;
    }
  }

  // ----- such a load is wrong -----

  /** A SELECT with a star in it does not switch. */
  lemma StarSelect(x: Argv, db: nat, dbnum: nat)
    requires StarIn(x) && IsSelect(x)
    ensures SelectTarget(x, db, dbnum) == db
  {
    assert forall j | 0 <= j < |x[0]| :: Lower(x[0])[j] == LowerByte(x[0][j]) && SELECT_NAME[j] != STAR;
    assert STAR !in x[0];
  }

  /** The database and the command are such that nothing executed without a working SELECT is it. */
  ghost predicate Distinguishes(k: Client, d: nat, c: Argv, dbnum: nat) {
    var all := k.applied + k.queued;
    && d != Cursor(0, k.applied, dbnum) && d != Cursor(0, all, dbnum)
    && (Targets(0, all, dbnum) != [] ==> Targets(0, all, dbnum)[0] != Item(d, c))
  }

  lemma FirstWrong(before: seq<Argv>, c: Argv, d: nat, dbnum: nat)
    requires !IsSelect(c) && d != Cursor(0, before, dbnum)
    requires Targets(0, before, dbnum) != [] ==> Targets(0, before, dbnum)[0] != Item(d, c)
    ensures Targets(0, before, dbnum) != [Item(d, c)]
    ensures Targets(0, before + [c], dbnum) != [Item(d, c)]
  {
    TargetsSplit(0, before, [c], dbnum);
    assert [c][1..] == [];
    OneTarget(Cursor(0, before, dbnum), c, dbnum);
  }

  /** One more command that does not switch: the first target stays, or it is on the same database. */
  lemma StillWrong(before: seq<Argv>, x: Argv, c: Argv, d: nat, dbnum: nat)
    requires StarIn(x) && Targets(0, before, dbnum) == [] && d != Cursor(0, before, dbnum)
    ensures var all := before + [x];
            d != Cursor(0, all, dbnum) && (Targets(0, all, dbnum) != [] ==> Targets(0, all, dbnum)[0] != Item(d, c))
  {
    TargetsSplit(0, before, [x], dbnum);
    OneTarget(Cursor(0, before, dbnum), x, dbnum);
    if IsSelect(x) { StarSelect(x, Cursor(0, before, dbnum), dbnum); }
  }

  lemma NeverIt(k: Client, x: Argv, c: Argv, d: nat, dbnum: nat)
    requires Proper(k) && StarIn(x) && Targets(0, k.applied, dbnum) == [] && Distinguishes(k, d, c, dbnum)
    requires !IsSelect(c) && !IsBracket(c)
    ensures Targets(0, RunCommand(k, x).applied, dbnum) != [Item(d, c)]
    ensures Targets(0, RunCommand(RunCommand(k, x), c).applied, dbnum) != [Item(d, c)]
  {
    hide Targets, Cursor, IsMulti, IsExec, IsSelect, StarIn;
    FirstWrong(k.applied, c, d, dbnum);
    FirstWrong(k.applied + k.queued, c, d, dbnum);
    StillWrong(k.applied, x, c, d, dbnum);
    FirstWrong(k.applied + [x], c, d, dbnum);
    assert k.applied + [] == k.applied;
  }

  lemma Choose(k: Client, c1: Argv, c2: Argv, dbnum: nat) returns (d: nat, c: Argv)
    requires c1 != c2
    ensures d < 3 && (c == c1 || c == c2) && Distinguishes(k, d, c, dbnum)
  {
    hide Targets, Cursor;
    var all := k.applied + k.queued;
    var a, b := Cursor(0, k.applied, dbnum), Cursor(0, all, dbnum);
    d := if a != 0 && b != 0 then 0 else if a != 1 && b != 1 then 1 else 2;
    c := if Targets(0, all, dbnum) != [] && Targets(0, all, dbnum)[0] == Item(d, c1) then c2 else c1;
  }

  /** The load comes to the command that is cut, after the ones in front of it. */
  lemma {:induction false} LoadReaches(b: Bytes, e: Bytes, size: nat, p: Progress, env: Env) returns (t: Bytes, q: Progress)
    requires EndsLine(b) && ScanBytes(b, env).Hanging? && |b| + |e| <= size
    ensures EndsLine(t) && ReadCommand(t) == ShortRead && |t| <= |b|
    ensures LoadFrom(b + e, size, p, env) == LoadFrom(t + e, size, q, env)
    ensures q.client == RunAll(p.client, ScanBytes(b, env).cs)
    decreases |b|
  {
    hide ReadCommand, RunCommand, IsMulti;
    ReadNothing();
    ReadCommandExtends(b, e);
    match ReadCommand(b) {
      case Annotation(rest) =>
        t, q := LoadReaches(rest, e, size, p, env);
      case Command(argv, rest) =>
        t, q := LoadReaches(rest, e, size, Advance(p, argv, size - |rest + e|, env), env);
        var cs := ScanBytes(rest, env).cs;
        assert ([argv] + cs)[1..] == cs;
      case _ =>
        t, q := b, p;
    }
  }

  // ----- the theorem -----

  lemma OneFed(d: nat, c: Argv)
    requires !IsBracket(c)
    ensures FeedMany(-1, [Item(d, c)]) == [SelectCommand(d), c] && DataItems([Item(d, c)]) == [Item(d, c)]
  {
    hide SelectCommand, IsBracket;
    assert [Item(d, c)][1..] == [];
  }

  /** What the directory gives back after one probe was fed, when the load executes `applied`. */
  lemma ProbeLoads(dbnum: nat, env: Env, s: State<seq<Item>>, rdb: bool, d: nat, c: Argv)
    requires Inv(HistorySem(dbnum, env), s) && Probe(dbnum, env, c)
    requires var l := Load(s.buf + EncodeAll([SelectCommand(d), c]), env);
             l.status == AofFailed || Targets(0, l.applied, dbnum) != [Item(d, c)]
    ensures var sem, items := HistorySem(dbnum, env), [Item(d, c)];
            var r := LoadDisk(sem, SwappedDisk(s, rdb, NewFile(s, items)));
            r.NoRecovery? || r.d != LiveAfter(sem, s, items)
  {
    var sem, items := HistorySem(dbnum, env), [Item(d, c)];
    hide Inv, LoadDisk, SwappedDisk, Load, Targets, EncodeAll, Fold, BatchOk, SelectCommand, IsBracket;
    OneFed(d, c);
    var l := Load(NewFile(s, items), env);
    SwappedLoads(sem, s, rdb, NewFile(s, items));
    HistoryFold(dbnum, env, s.data, Targets(0, l.applied, dbnum));
    HistoryFold(dbnum, env, s.data, items);
    SameAdded(s.data, Targets(0, l.applied, dbnum), items);
  }

  lemma SameAdded<T>(a: seq<T>, b: seq<T>, c: seq<T>)
    ensures a + b == a + c <==> b == c
  {
    assert (a + b)[|a|..] == b && (a + c)[|a|..] == c;
  }

  /** Behind an open transaction the probe is only queued. */
  lemma OpenLoad(dbnum: nat, env: Env, b: Bytes, c: Argv)
    requires EndsLine(b) && Probe(dbnum, env, c) && env.loadTruncated && env.truncateOk
    requires ScanBytes(b, env).Passed? && OpenMulti(ScanBytes(b, env).cs)
    ensures Load(b + EncodeAll([SelectCommand(0), c]), env).applied == Applied(ScanBytes(b, env).cs)
  {
    hide ScanBytes, EncodeAll, LoadFrom, RunAll, After, SelectCommand, BatchOk, GoodLog;
    var later := [SelectCommand(0), c];
    var e := EncodeAll(later);
    ProbeIsGood(dbnum, env, 0, c);
    EncodingEndsLine(later);
    var q := LoadPasses(b, e, |b + e|, START, env);
    assert e + [] == e;
    LoadThrough(later, [], |b|, q, env);
    AfterClient(q, later, |b|, env);
    BothQueued(q.client, SelectCommand(0), c);
    LoadOpenEnd(|b + e|, After(q, later, |b|, env), env);
  }

  lemma ProbeIsGood(dbnum: nat, env: Env, d: nat, c: Argv)
    requires Probe(dbnum, env, c) && d < 3
    ensures GoodLog([SelectCommand(d), c], env) && ValidCommand(c) && env.known(c)
    ensures !IsBracket(SelectCommand(d))
  {
    hide ValidCommand, SelectCommand, IsBracket, FeedMany, IsSelect;
    var sem, it := HistorySem(dbnum, env), Item(d, c);
    assert BatchOk(sem, [it]) && it in [it];
    OneFed(d, c);
    FeedManyGood(sem, -1, [it]);
    SelectWorks(d, 0, dbnum);
  }

  lemma BothQueued(k: Client, a: Argv, c: Argv)
    requires k.inMulti && !IsBracket(a) && !IsBracket(c)
    ensures RunAll(k, [a, c]).inMulti && RunAll(k, [a, c]).applied == k.applied
  {
    hide IsMulti, IsExec;
    var k' := RunCommand(k, a);
    assert [a, c][1..] == [c] && [c][1..] == [];
    assert RunAll(k', [c]) == RunAll(RunCommand(k', c), []);
  }

  /** Behind a command that is cut, some probe is not executed as it was fed. */
  lemma HangingProbe(dbnum: nat, env: Env, b: Bytes, c1: Argv, c2: Argv) returns (d: nat, c: Argv)
    requires EndsLine(b) && ScanBytes(b, env).Hanging? && Replayed(ScanBytes(b, env).cs, dbnum) == []
    requires Probe(dbnum, env, c1) && Probe(dbnum, env, c2) && c1 != c2
    ensures d < 3 && (c == c1 || c == c2)
    ensures var l := Load(b + EncodeAll([SelectCommand(d), c]), env);
            l.status == AofFailed || Targets(0, l.applied, dbnum) != [Item(d, c)]
  {
    hide ScanBytes, EncodeAll, LoadFrom, RunAll, SelectCommand, Targets, BatchOk, ReadCommand, Distinguishes, GoodLog;
    hide ValidCommand, RunCommand, StarIn;
    var k := RunAll(FRESH, ScanBytes(b, env).cs);
    d, c := Choose(k, c1, c2, dbnum);
    var e := EncodeAll([SelectCommand(d), c]);
    EncodingEndsLine([SelectCommand(d), c]);
    ProbeIsGood(dbnum, env, d, c);
    var t, q := LoadReaches(b, e, |b + e|, START, env);
    HangingLoad(t, d, c, |b + e|, q, env);
    ProperAll(FRESH, ScanBytes(b, env).cs);
    var l := Load(b + e, env);
    if l.status != AofFailed && l.applied != k.applied {
      var x :| StarIn(x) && (l.applied == RunCommand(k, x).applied || l.applied == RunCommand(RunCommand(k, x), c).applied);
      NeverIt(k, x, c, d, dbnum);
    }
  }

  /** MAIN RESULT. With a dataset that remembers every command and two data commands to feed, the
      rewritten directory gives back the live dataset whatever is fed later if and only if the
      loader reads all of the bytes left, executes none of them and is in no transaction then. */
  lemma ExactlyHarmless(dbnum: nat, env: Env, s: State<seq<Item>>, rdb: bool, c1: Argv, c2: Argv)
    requires Inv(HistorySem(dbnum, env), s)
    requires Probe(dbnum, env, c1) && Probe(dbnum, env, c2) && c1 != c2
    ensures AlwaysLive(dbnum, env, s, rdb) <==> Harmless(s.buf, dbnum, env)
  {
    hide Inv, LoadDisk, SwappedDisk, ScanBytes, Replayed, OpenMulti, BatchOk, LiveAfter, NewFile, Probe;
    var sem := HistorySem(dbnum, env);
    if Harmless(s.buf, dbnum, env) {
      forall items | BatchOk(sem, items)
        ensures LoadDisk(sem, SwappedDisk(s, rdb, NewFile(s, items))).Recovered?
                && LoadDisk(sem, SwappedDisk(s, rdb, NewFile(s, items))).d == LiveAfter(sem, s, items)
      {
        AfterTheSwap(dbnum, env, s, rdb, items);
      }
    } else {
      var items := Witness(dbnum, env, s, rdb, c1, c2);
    }
  }

  /** What to feed so that the loss shows: nothing, or one probe. */
  lemma Witness(dbnum: nat, env: Env, s: State<seq<Item>>, rdb: bool, c1: Argv, c2: Argv) returns (items: seq<Item>)
    requires Inv(HistorySem(dbnum, env), s) && !Harmless(s.buf, dbnum, env)
    requires Probe(dbnum, env, c1) && Probe(dbnum, env, c2) && c1 != c2
    ensures var sem := HistorySem(dbnum, env);
            var r := LoadDisk(sem, SwappedDisk(s, rdb, NewFile(s, items)));
            BatchOk(sem, items) && |items| <= 1 && (r.NoRecovery? || r.d != LiveAfter(sem, s, items))
  {
    var sem := HistorySem(dbnum, env);
    items := [];
    assert BatchOk(sem, items);
    hide Inv, LoadDisk, SwappedDisk, ScanBytes, RunAll, Targets, BatchOk, LiveAfter, NewFile, Load, EncodeAll, SelectCommand, IsBracket, IsSelect;
    InvFacts(sem, s);
    LeftoverEndsLine(sem, s);
    AfterTheSwap(dbnum, env, s, rdb, items);
    var scan := ScanBytes(s.buf, env);
    if !scan.Refused? && Replayed(scan.cs, dbnum) == [] {
      var d, c := 0, c1;
      if scan.Passed? {
        OpenLoad(dbnum, env, s.buf, c);
      } else {
        d, c := HangingProbe(dbnum, env, s.buf, c1, c2);
      }
      ProbeLoads(dbnum, env, s, rdb, d, c);
      items := [Item(d, c)];
    }
  }

  /** There are such commands: where the server knows everything, every plain word that is neither a
      bracket nor SELECT. */
  lemma WordsAreProbes(dbnum: nat, env: Env, w: Bytes)
    requires 3 <= dbnum && (forall c :: env.known(c)) && Unmarked(w)
    requires ValidCommand([w]) && !IsBracket([w]) && !IsSelect([w])
    ensures Probe(dbnum, env, [w])
  {
    forall d: nat | d < 3
      ensures BatchOk(HistorySem(dbnum, env), [Item(d, [w])])
    {
      hide IsMulti, IsExec, IsSelect, ValidCommand;
      var batch := [Item(d, [w])];
      assert batch[1..] == [] && Closed(batch[1..], false) && Closed(batch, false);
    }
  }
}
