/** A rewrite start whose forced flush leaves bytes in the buffer (aof.c:2443-2450): what the
    directory loads to while the rewrite runs, and after it. */
module AofLeftover {
  import opened Wrappers
  import opened Resp
  import opened AofLoad
  import opened AofFeed
  import opened AofFlush
  import opened AofManifest
  import opened AofDisk
  import opened AofInvariant

  /** The first k bytes of the open file's log end behind a command and outside a transaction. */
  ghost predicate Boundary<D>(s: State<D>, k: nat)
    requires s.logs != []
  {
    CleanEnd(Last(s.logs), k)
  }

  ghost predicate CleanEnd(cs: seq<Argv>, k: nat) {
    var whole := cs[..Whole(cs, k)];
    k == |EncodeAll(whole)| && !OpenMulti(whole)
  }

  /** The disk once the manifest lists a new, empty INCR file behind the one written so far. */
  function SwitchedDisk<D>(s: State<D>): Disk<D> {
    Disk(s.disk.files[IncrName(s.am.incrSeq + 1) := Log([])], Some(Lines(NewIncr(s.am))))
  }

  /** MAIN RESULT. Whatever is left in the buffer, the switched disk loads if and only if the file
      written so far ends behind a command outside a transaction; it then gives the commands in it. */
  lemma SwitchLoads<D>(sem: Sem<D>, s: State<D>)
    requires Inv(sem, s)
    ensures s.logs != []
    ensures var r := LoadDisk(sem, SwitchedDisk(s));
            (r.Recovered? <==> Boundary(s, |s.content|)) && (r.Recovered? ==> r.d == DataAt(sem, s, |s.content|))
  {
    hide Inv, LoadDisk, CleanEnd, DataAt;
    InvFacts(sem, s);
    if Boundary(s, |s.content|) {
      CleanSwitchLoads(sem, s);
    } else {
      CutSwitchFails(sem, s);
    }
  }

  /** The disk with the new file but the old manifest. */
  lemma Prepared<D>(sem: Sem<D>, s: State<D>)
    requires Inv(sem, s)
    ensures Holds(sem, Disk(SwitchedDisk(s).files, Some(Lines(s.am))), s.am, s.base, s.logs, |s.content|)
    ensures WellFormed(s.am) && WellFormed(NewIncr(s.am))
  {
    hide Rebuild, Cursor, Applied, EncodeAll, Lines, Holds;
    NewNamesAreFresh(s.am, false);
    NewIncrWellFormed(s.am);
    LiveIgnoresHistory(s.am, s.listed);
    hide WellFormed;
    OtherFiles(sem, s.disk, SwitchedDisk(s).files, s.listed, s.base, s.logs, |s.content|);
    PersistSameFiles(sem, s.disk.(files := SwitchedDisk(s).files), s.listed, s.am, s.base, s.logs, |s.content|);
  }

  lemma CleanSwitchLoads<D>(sem: Sem<D>, s: State<D>)
    requires Inv(sem, s) && s.logs != [] && Boundary(s, |s.content|)
    ensures var r := LoadDisk(sem, SwitchedDisk(s)); r.Recovered? && r.d == DataAt(sem, s, |s.content|)
  {
    hide Inv, LoadDisk, Holds, Lines, NewIncr, Rebuild, Whole, CutLogs, OpenMulti, EncodeAll;
    InvFacts(sem, s);
    Prepared(sem, s);
    var last := Last(s.logs);
    var whole := last[..Whole(last, |s.content|)];
    WholeLogOk(sem, last, |s.content|);
    var disk := Disk(SwitchedDisk(s).files, Some(Lines(s.am)));
    HeldAsCut(sem, disk, s.am, s.base, s.logs, |s.content|, whole);
    var logs := s.logs[..|s.logs| - 1] + [whole];
    PersistNewIncr(sem, disk, s.am, s.base, logs);
    HeldDiskLoads(sem, SwitchedDisk(s), NewIncr(s.am), s.base, logs + [[]], 0);
    CutEmpty(logs);
    CutLogsIs(s.logs, |s.content|);
  }

  lemma CutLogsIs(logs: seq<seq<Argv>>, k: nat)
    requires logs != []
    ensures CutLogs(logs, k) == logs[..|logs| - 1] + [Last(logs)[..Whole(Last(logs), k)]]
  {}

  lemma CutEmpty(logs: seq<seq<Argv>>)
    ensures CutLogs(logs + [[]], 0) == logs + [[]]
  {
    var more := logs + [[]];
    assert more[..|more| - 1] == logs && Last(more)[..Whole(Last(more), 0)] == [];
  }

  lemma WholeLogOk<D>(sem: Sem<D>, cs: seq<Argv>, k: nat)
    requires LogOk(sem, cs) && CleanEnd(cs, k)
    ensures LogOk(sem, cs[..Whole(cs, k)])
  {
    hide EncodeAll, Whole, RunAll, Flat;
    FlatPrefix(FRESH, cs, Whole(cs, k));
  }

  /** A last file that holds whole commands is the complete file of the shorter log. */
  lemma HeldAsCut<D>(sem: Sem<D>, disk: Disk<D>, am: Manifest, d: D, logs: seq<seq<Argv>>, cut: nat, whole: seq<Argv>)
    requires logs != [] && Holds(sem, disk, am, d, logs, cut) && LogOk(sem, whole)
    requires whole == Last(logs)[..Whole(Last(logs), cut)] && cut == |EncodeAll(whole)|
    ensures Holds(sem, disk, am, d, logs[..|logs| - 1] + [whole], |EncodeAll(whole)|)
  {
    hide EncodeAll, Whole, LogOk, WellFormed, Lines;
    var n := |logs| - 1;
    assert IncrFile(sem, disk.files, am.incr[n], logs[n], cut);
    WholeIsLargest(Last(logs), cut);
    assert EncodeAll(Last(logs))[..cut] == EncodeAll(whole);
    assert disk.files[Last(am.incr).name := Log(EncodeAll(whole))] == disk.files;
    ReplaceLastLog(sem, disk, am, d, logs, cut, whole);
  }

  lemma CutSwitchFails<D>(sem: Sem<D>, s: State<D>)
    requires Inv(sem, s) && s.logs != [] && !Boundary(s, |s.content|)
    ensures LoadDisk(sem, SwitchedDisk(s)).NoRecovery?
  {
    hide Inv, Lines, CleanEnd, EncodeAll, LogOk, IncrFiles, WellFormed, ParseLines, LoadIncrs, Live, Holds;
    InvFacts(sem, s);
    Prepared(sem, s);
    RoundTrip(NewIncr(s.am));
    var files := SwitchedDisk(s).files;
    HeldFiles(sem, Disk(files, Some(Lines(s.am))), s.am, s.base, s.logs, |s.content|);
    LoadIncrsStops(sem, s.base, files, s.am.incr, s.logs, |s.content|,
                   [Info(IncrName(s.am.incrSeq + 1), s.am.incrSeq + 1, Incr)]);
  }

  lemma HeldFiles<D>(sem: Sem<D>, disk: Disk<D>, am: Manifest, d: D, logs: seq<seq<Argv>>, cut: nat)
    requires Holds(sem, disk, am, d, logs, cut)
    ensures am.base.Some? && am.base.value.name in disk.files && disk.files[am.base.value.name] == Snapshot(d)
    ensures am.incr != [] && |am.incr| == |logs| && IncrFiles(sem, disk.files, am.incr, logs, cut)
  {
    hide IncrFiles, Lines;
  }

  /** A file cut inside a command or a transaction is refused when it is not the last one. */
  lemma {:induction false} LoadIncrsStops<D>(sem: Sem<D>, d: D, files: map<FileName, Content<D>>, incr: seq<Info>,
                                             logs: seq<seq<Argv>>, cut: nat, more: seq<Info>)
    requires Tolerant(sem) && |incr| == |logs| && incr != [] && more != []
    requires IncrFiles(sem, files, incr, logs, cut) && !CleanEnd(Last(logs), cut)
    ensures LoadIncrs(sem, d, files, incr + more) == NoRecovery
    decreases incr
  {
    hide EncodeAll, LogOk, Kept, Execute, CleanEnd;
    var cs := logs[0];
    assert (incr + more)[0] == incr[0] && (incr + more)[1..] == incr[1..] + more;
    if |incr| == 1 {
      assert IncrFile(sem, files, incr[0], cs, cut);
      CutFileStops(sem, d, files, incr[0], cs, cut);
    } else {
      assert IncrFile(sem, files, incr[0], cs, |EncodeAll(cs)|);
      LoadCutFile(sem, d, files, incr[0], cs, |EncodeAll(cs)|, false);
      FullFileUnchanged(sem, files, incr[0], cs);
      assert IncrFiles(sem, files, incr[1..], logs[1..], cut) by {
        forall i | 0 <= i < |incr[1..]|
          ensures IncrFile(sem, files, incr[1..][i], logs[1..][i],
                           if i == |logs[1..]| - 1 then cut else |EncodeAll(logs[1..][i])|)
        {
          assert IncrFile(sem, files, incr[i + 1], logs[i + 1], if i + 1 == |logs| - 1 then cut else |EncodeAll(logs[i + 1])|);
        }
      }
      LoadIncrsStops(sem, LoadFile(sem, d, files, incr[0].name, false).d, files, incr[1..], logs[1..], cut, more);
    }
  }

  lemma CutFileStops<D>(sem: Sem<D>, d: D, files: map<FileName, Content<D>>, info: Info, cs: seq<Argv>, cut: nat)
    requires Tolerant(sem) && IncrFile(sem, files, info, cs, cut) && !CleanEnd(cs, cut)
    ensures LoadFile(sem, d, files, info.name, false) == NoRecovery
  {
    hide Load, EncodeAll, RunAll, Execute;
    NothingIsClean(cs);
    LoadCutLog(cs, cut, sem.env);
  }

  lemma NothingIsClean(cs: seq<Argv>)
    ensures CleanEnd(cs, 0)
  {
    if cs != [] { assert EncodeCommand(cs[0]) != []; }
    assert cs[..0] == [] && EncodeAll([]) == [];
  }

  // ----- after the rewrite -----

  /** The disk once the rewrite is done: the child's snapshot, taken when the buffer was not empty,
      and the new INCR file, with `bytes` in it. */
  ghost function SwappedDisk<D>(s: State<D>, rdb: bool, bytes: Bytes): Disk<D> {
    var am := NewIncr(s.am);
    Disk(s.disk.files[Last(am.incr).name := Log(bytes)][BaseName(am.baseSeq + 1, rdb) := Snapshot(s.data)],
         Some(Lines(AfterRewrite(am, rdb))))
  }

  lemma SwappedLoads<D>(sem: Sem<D>, s: State<D>, rdb: bool, bytes: Bytes)
    requires Inv(sem, s)
    ensures var r, l := LoadDisk(sem, SwappedDisk(s, rdb, bytes)), Load(bytes, sem.env);
            (r.Recovered? <==> l.status != AofFailed) && (r.Recovered? ==> r.d == Execute(sem, s.data, l.applied))
  {
    hide Inv, Lines, WellFormed, ParseLines, Load, Execute;
    InvFacts(sem, s);
    var am := NewIncr(s.am);
    NewIncrWellFormed(s.am);
    AfterRewriteWellFormed(am, rdb);
    var next := AfterRewrite(am, rdb);
    RoundTrip(next);
    assert next.base == Some(Info(BaseName(am.baseSeq + 1, rdb), am.baseSeq + 1, Base));
    assert next.incr == [Last(am.incr)] && next.incr[1..] == [];
    var files := SwappedDisk(s, rdb, bytes).files;
    assert Last(am.incr).name == IncrName(s.am.incrSeq + 1) && files[Last(am.incr).name] == Log(bytes);
    assert LoadFile(sem, sem.empty, files, next.base.value.name, false) == Recovered(s.data, files);
    OneFile(sem, s.data, files, Last(am.incr));
  }

  lemma OneFile<D>(sem: Sem<D>, d: D, files: map<FileName, Content<D>>, info: Info)
    requires info.name in files && files[info.name].Log?
    ensures var r, l := LoadIncrs(sem, d, files, [info]), Load(files[info.name].bytes, sem.env);
            (r.Recovered? <==> l.status != AofFailed) && (r.Recovered? ==> r.d == Execute(sem, d, l.applied))
  {
    hide Load, Execute;
    assert [info][1..] == [];
  }

  // ----- what the loader makes of the bytes left -----

  /** All of it is read; it is refused; or it ends inside a command. */
  datatype Scan = Passed(cs: seq<Argv>) | Refused | Hanging(cs: seq<Argv>)

  function Ahead(c: Argv, r: Scan): Scan {
    match r
    case Passed(cs) => Passed([c] + cs)
    case Hanging(cs) => Hanging([c] + cs)
    case Refused => Refused
  }

  function ScanBytes(b: Bytes, env: Env): Scan
    decreases |b|
  {
    match ReadCommand(b)
    case End => Passed([])
    case Annotation(rest) => ScanBytes(rest, env)
    case Command(argv, rest) => if env.known(argv) then Ahead(argv, ScanBytes(rest, env)) else Refused
    case ShortRead => Hanging([])
    case _ => Refused
  }

  /** The end of a printed command: nothing, or something that ends with a line. */
  predicate EndsLine(b: Bytes) { b == [] || b[|b| - 1] == LF }

  lemma {:induction false} LineExtends(b: Bytes, e: Bytes, limit: nat)
    requires b != [] && EndsLine(b) && limit >= 1
    ensures LineLength(b + e, limit) == LineLength(b, limit)
  {
    if |b| > 1 && limit > 1 && b[0] != LF {
      assert (b + e)[1..] == b[1..] + e;
      LineExtends(b[1..], e, limit - 1);
    }
  }

  lemma ReadLineExtends(b: Bytes, e: Bytes)
    requires b != [] && EndsLine(b)
    ensures var r := ReadLine(b);
            r.Line? && !r.eof && EndsLine(r.rest) && ReadLine(b + e) == Line(r.text, r.rest + e, false)
  {
    LineExtends(b, e, LINE_MAX - 1);
    var n := LineLength(b, LINE_MAX - 1);
    assert (b + e)[..n] == b[..n] && (b + e)[n..] == b[n..] + e;
  }

  /** More bytes behind the ones read change nothing. */
  lemma {:induction false} ReadArgsExtends(b: Bytes, e: Bytes, n: nat)
    requires EndsLine(b)
    ensures match ReadArgs(b, n)
            case Args(argv, rest) => EndsLine(rest) && ReadArgs(b + e, n) == Args(argv, rest + e)
            case ArgsBad => ReadArgs(b + e, n) == ArgsBad
            case ArgsShort => true
    decreases n
  {
    hide ReadLine, Strtol, ReadArgs;
    if n == 0 || b == [] {
      NoMoreToRead(b, e, n);
    } else {
      ReadLineExtends(b, e);
      var line := ReadLine(b);
      var len := Strtol(line.text[1..]);
      if line.text[0] == DOLLAR && 0 <= len <= |line.rest| - 2 {
        var rest := line.rest;
        assert (rest + e)[..len] == rest[..len] && (rest + e)[len + 2..] == rest[len + 2..] + e;
        ReadArgsStep(b, n);
        ReadArgsStep(b + e, n);
        ReadArgsExtends(rest[len + 2..], e, n - 1);
      } else {
        ReadArgsStops(b, n);
        ReadArgsStops(b + e, n);
      }
    }
  }

  lemma NoMoreToRead(b: Bytes, e: Bytes, n: nat)
    requires n == 0 || b == []
    ensures if n == 0 then ReadArgs(b, n) == Args([], b) && ReadArgs(b + e, n) == Args([], b + e)
            else ReadArgs(b, n) == ArgsShort
  {
    hide Strtol;
  }

  /** Where the first argument is not whole. */
  lemma ReadArgsStops(b: Bytes, n: nat)
    requires n > 0 && ReadLine(b).Line?
    ensures var line, len := ReadLine(b), Strtol(ReadLine(b).text[1..]);
            if line.text[0] != DOLLAR || len < 0 then ReadArgs(b, n) == ArgsBad
            else len + 2 > |line.rest| ==> ReadArgs(b, n) == ArgsShort
  {
    hide ReadLine, Strtol;
  }

  ghost predicate Extends(b: Bytes, e: Bytes) {
    match ReadCommand(b)
    case Command(argv, rest) => EndsLine(rest) && ReadCommand(b + e) == Command(argv, rest + e)
    case Annotation(rest) => EndsLine(rest) && ReadCommand(b + e) == Annotation(rest + e)
    case ShortRead => true
    case r => r == ReadCommand(b + e) && (r == BadFormat || r == ReadError)
  }

  lemma ReadCommandExtends(b: Bytes, e: Bytes)
    requires b != [] && EndsLine(b)
    ensures Extends(b, e)
  {
    hide Extends, ReadLine, Atoi;
    ReadLineExtends(b, e);
    var text := ReadLine(b).text;
    if text[0] == STAR && |text| > 1 && text[1] != 0 && Atoi(text[1..]) >= 1 {
      StarExtends(b, e, Atoi(text[1..]));
    } else {
      OtherExtends(b, e);
    }
  }

  predicate IsStar(b: Bytes, argc: int) {
    ReadLine(b).Line? && argc >= 1
    && var text := ReadLine(b).text; text[0] == STAR && |text| > 1 && text[1] != 0 && Atoi(text[1..]) == argc
  }

  lemma StarExtends(b: Bytes, e: Bytes, argc: nat)
    requires b != [] && EndsLine(b) && IsStar(b, argc)
    ensures Extends(b, e)
  {
    hide ReadLine, ReadArgs, Atoi, ReadCommand;
    ReadLineExtends(b, e);
    ReadArgsExtends(ReadLine(b).rest, e, argc);
    StarLine(b, argc);
    StarLine(b + e, argc);
  }

  lemma OtherExtends(b: Bytes, e: Bytes)
    requires b != [] && EndsLine(b) && ReadLine(b).Line? && !IsStar(b, Atoi(ReadLine(b).text[1..]))
    ensures Extends(b, e)
  {
    hide ReadLine, ReadArgs, Atoi;
    ReadLineExtends(b, e);
  }

  lemma StarLine(b: Bytes, argc: nat)
    requires IsStar(b, argc)
    ensures ReadCommand(b) == match ReadArgs(ReadLine(b).rest, argc)
                              case ArgsShort => ShortRead
                              case ArgsBad => BadFormat
                              case Args(argv, tail) => Command(argv, tail)
  {
    hide ReadLine, ReadArgs, Atoi;
  }

  /** Loading goes through bytes that pass, and on from there. */
  lemma {:induction false} LoadPasses(b: Bytes, e: Bytes, size: nat, p: Progress, env: Env) returns (q: Progress)
    requires EndsLine(b) && ScanBytes(b, env).Passed? && |b| + |e| <= size
    ensures LoadFrom(b + e, size, p, env) == LoadFrom(e, size, q, env)
    ensures q.client == RunAll(p.client, ScanBytes(b, env).cs)
    decreases |b|
  {
    hide ReadCommand, RunCommand, IsMulti;
    if b == [] {
      assert b + e == e;
      assert ReadCommand(b) == End by { ReadNothing(); }
      q := p;
    } else {
      ReadCommandExtends(b, e);
      match ReadCommand(b) {
        case Annotation(rest) =>
          q := LoadPasses(rest, e, size, p, env);
        case Command(argv, rest) =>
          q := LoadPasses(rest, e, size, Advance(p, argv, size - |rest + e|, env), env);
          var cs := ScanBytes(rest, env).cs;
          assert ([argv] + cs)[1..] == cs;
        case End =>
          assert false;
      }
    }
  }

  lemma ReadNothing()
    ensures ReadCommand([]) == End
  {}

  lemma {:induction false} LoadRefuses(b: Bytes, e: Bytes, size: nat, p: Progress, env: Env)
    requires EndsLine(b) && ScanBytes(b, env).Refused? && |b| + |e| <= size
    ensures LoadFrom(b + e, size, p, env).status == AofFailed
    decreases |b|
  {
    hide ReadCommand, RunCommand, IsMulti;
    ReadNothing();
    ReadCommandExtends(b, e);
    match ReadCommand(b) {
      case Annotation(rest) =>
        LoadRefuses(rest, e, size, p, env);
      case Command(argv, rest) =>
        if env.known(argv) { LoadRefuses(rest, e, size, Advance(p, argv, size - |rest + e|, env), env); }
      case _ =>
    }
  }

  lemma {:induction false} LoadHangs(b: Bytes, size: nat, p: Progress, env: Env)
    requires ScanBytes(b, env).Hanging? && |b| <= size && env.loadTruncated && env.truncateOk
    ensures var r := LoadFrom(b, size, p, env);
            r.status == AofTruncated && r.applied == RunAll(p.client, ScanBytes(b, env).cs).applied
    decreases |b|
  {
    hide ReadCommand, RunCommand, IsMulti;
    match ReadCommand(b) {
      case Annotation(rest) =>
        LoadHangs(rest, size, p, env);
      case Command(argv, rest) =>
        LoadHangs(rest, size, Advance(p, argv, size - |rest|, env), env);
        var cs := ScanBytes(rest, env).cs;
        assert ([argv] + cs)[1..] == cs;
      case _ =>
    }
  }

  // ----- what comes back -----

  lemma {:induction false} ProperAll(k: Client, cs: seq<Argv>)
    requires Proper(k)
    ensures Proper(RunAll(k, cs))
    decreases cs
  {
    if cs != [] { ProperAll(RunCommand(k, cs[0]), cs[1..]); }
  }

  lemma {:induction false} EncodingEndsLine(cs: seq<Argv>)
    ensures EndsLine(EncodeAll(cs)) && (cs != [] ==> EncodeAll(cs) != [])
  {
    if cs != [] {
      EncodingEndsLine(cs[1..]);
      ArgsEndLine(cs[0]);
    }
  }

  lemma {:induction false} ArgsEndLine(c: Argv)
    ensures EncodeCommand(c) != [] && EndsLine(EncodeCommand(c)) && EndsLine(EncodeArgs(c))
  {
    if c != [] { ArgsEndLine(c[1..]); }
  }

  lemma LeftoverEndsLine<D>(sem: Sem<D>, s: State<D>)
    requires Inv(sem, s)
    ensures EndsLine(s.buf)
  {
    hide Inv, EncodeAll;
    InvFacts(sem, s);
    EncodingEndsLine(Last(s.logs));
    var e := s.content + s.buf;
    assert s.buf != [] ==> e[|e| - 1] == s.buf[|s.buf| - 1];
  }

  /** The file after the switch: the bytes left, then what is fed from there on. */
  ghost function NewFile<D>(s: State<D>, items: seq<Item>): Bytes { s.buf + EncodeAll(FeedMany(-1, items)) }

  /** Bytes that pass and leave no transaction open are executed, and then everything fed later. */
  lemma PassedFile<D>(sem: Sem<D>, b: Bytes, items: seq<Item>)
    requires Tolerant(sem) && BatchOk(sem, items) && EndsLine(b)
    requires ScanBytes(b, sem.env).Passed? && !OpenMulti(ScanBytes(b, sem.env).cs)
    ensures var l, cs := Load(b + EncodeAll(FeedMany(-1, items)), sem.env), ScanBytes(b, sem.env).cs;
            l.status != AofFailed && l.applied == Applied(cs) + Plain(FeedMany(-1, items))
  {
    hide ScanBytes, EncodeAll, LoadFrom, FeedMany, RunAll, Plain, After;
    var cs, later := ScanBytes(b, sem.env).cs, FeedMany(-1, items);
    var f, e := b + EncodeAll(later), EncodeAll(later);
    FeedManyGood(sem, -1, items);
    EncodingEndsLine(later);
    if f == [] {
      ScanNothing(sem.env);
      assert later == [];
      assert Applied([]) + Plain([]) == [] by { NothingSeen(); }
    } else {
      var q := LoadPasses(b, e, |f|, START, sem.env);
      ProperAll(FRESH, cs);
      FeedManyClient(q.client, -1, items, sem.dbnum);
      SeenAll(q.client, later);
      assert e + [] == e;
      LoadThrough(later, [], |b|, q, sem.env);
      var done := After(q, later, |b|, sem.env);
      AfterClient(q, later, |b|, sem.env);
      LoadEnd(|f|, done, sem.env);
      assert Seen(q.client) == Applied(cs) && Seen(done.client) == done.client.applied;
    }
  }

  lemma ScanNothing(env: Env)
    ensures ScanBytes([], env) == Passed([])
  {
    ReadNothing();
  }

  lemma NothingSeen()
    ensures Applied([]) == [] && Plain([]) == []
  {}

  lemma LoadEnd(size: nat, p: Progress, env: Env)
    requires !p.client.inMulti
    ensures LoadFrom([], size, p, env) == Loaded(AofOk, p.client.applied, size)
  {
    ReadNothing();
  }

  /** MAIN RESULT. For every command semantics: after the rewrite, the bytes that were left are
      executed on top of a snapshot that has them already, and then what was fed later. */
  lemma LeftoverIsExecutedAgain<D>(sem: Sem<D>, s: State<D>, rdb: bool, items: seq<Item>)
    requires Inv(sem, s) && BatchOk(sem, items)
    requires ScanBytes(s.buf, sem.env).Passed? && !OpenMulti(ScanBytes(s.buf, sem.env).cs)
    ensures var r, cs := LoadDisk(sem, SwappedDisk(s, rdb, NewFile(s, items))), ScanBytes(s.buf, sem.env).cs;
            r.Recovered? && r.d == Fold(sem, Execute(sem, s.data, Applied(cs)), DataItems(items))
  {
    hide Inv, ScanBytes, LoadDisk, Load, Fold, Targets, FeedMany, Plain, EncodeAll, SwappedDisk, BatchOk, Feedable;
    InvFacts(sem, s);
    LeftoverEndsLine(sem, s);
    var cs, later := ScanBytes(s.buf, sem.env).cs, FeedMany(-1, items);
    PassedFile(sem, s.buf, items);
    SwappedLoads(sem, s, rdb, NewFile(s, items));
    BatchIsFeedable(sem, items);
    var a, p := Applied(cs), Plain(later);
    TargetsSplit(0, a, p, sem.dbnum);
    FeedTargets(-1, Cursor(0, a, sem.dbnum), items, sem.dbnum);
    FoldSplit(sem, s.data, Targets(0, a, sem.dbnum), DataItems(items));
  }

  lemma BatchIsFeedable<D>(sem: Sem<D>, items: seq<Item>)
    requires BatchOk(sem, items)
    ensures forall it | it in items :: Feedable(it, sem.dbnum)
  {
    hide Feedable;
  }

  /** The live dataset after the same feeds. */
  ghost function LiveAfter<D>(sem: Sem<D>, s: State<D>, items: seq<Item>): D { Fold(sem, s.data, DataItems(items)) }

  /** MAIN RESULT. What a dataset is that remembers every command, the rewritten directory gives back
      the live one, whatever is fed later, if and only if the bytes left execute nothing. Bytes that
      are refused make the directory unloadable; bytes that end inside a command or a transaction are
      cut off as long as nothing is fed behind them. */
  lemma AfterTheSwap(dbnum: nat, env: Env, s: State<seq<Item>>, rdb: bool, items: seq<Item>)
    requires var sem := HistorySem(dbnum, env); Inv(sem, s) && BatchOk(sem, items)
    ensures var sem := HistorySem(dbnum, env);
            var r := LoadDisk(sem, SwappedDisk(s, rdb, NewFile(s, items)));
            match ScanBytes(s.buf, env)
            case Refused => r.NoRecovery?
            case Passed(cs) =>
              !OpenMulti(cs) || items == [] ==>
                r.Recovered? && (r.d == LiveAfter(sem, s, items) <==> Replayed(cs, dbnum) == [])
            case Hanging(cs) =>
              items == [] ==> r.Recovered? && (r.d == LiveAfter(sem, s, items) <==> Replayed(cs, dbnum) == [])
  {
    var sem := HistorySem(dbnum, env);
    hide Inv, ScanBytes, LoadDisk, Load, FeedMany, EncodeAll, SwappedDisk, BatchOk, Targets, RunAll, Fold;
    InvFacts(sem, s);
    LeftoverEndsLine(sem, s);
    var b, f := s.buf, NewFile(s, items);
    SwappedLoads(sem, s, rdb, f);
    HistoryFold(dbnum, env, s.data, DataItems(items));
    match ScanBytes(b, env) {
      case Refused =>
        RefusedFile(b, EncodeAll(FeedMany(-1, items)), env);
      case Passed(cs) =>
        HistoryFold(dbnum, env, s.data, Replayed(cs, dbnum));
        if !OpenMulti(cs) {
          LeftoverIsExecutedAgain(sem, s, rdb, items);
          HistoryFold(dbnum, env, s.data + Replayed(cs, dbnum), DataItems(items));
          AddedInBetween(s.data, Replayed(cs, dbnum), DataItems(items));
        } else if items == [] {
          NothingFed(s);
          CutFile(b, env);
          Unchanged(s.data, Replayed(cs, dbnum));
        }
      case Hanging(cs) =>
        if items == [] {
          HistoryFold(dbnum, env, s.data, Replayed(cs, dbnum));
          NothingFed(s);
          CutFile(b, env);
          Unchanged(s.data, Replayed(cs, dbnum));
        }
    }
  }

  lemma AddedInBetween<T>(a: seq<T>, b: seq<T>, c: seq<T>)
    ensures a + b + c == a + c <==> b == []
  {
    if b == [] {
      assert a + b == a;
    } else {
      assert |a + b + c| > |a + c|;
    }
  }

  lemma Unchanged<T>(a: seq<T>, b: seq<T>)
    ensures a + b == a <==> b == []
  {
    if b != [] { assert |a + b| > |a|; }
  }

  lemma NothingFed<D>(s: State<D>)
    ensures NewFile(s, []) == s.buf && DataItems([]) == []
  {
    assert s.buf + EncodeAll([]) == s.buf;
  }

  lemma RefusedFile(b: Bytes, e: Bytes, env: Env)
    requires EndsLine(b) && ScanBytes(b, env).Refused?
    ensures Load(b + e, env).status == AofFailed
  {
    ScanNothing(env);
    LoadRefuses(b, e, |b + e|, START, env);
  }

  /** The bytes alone: cut back, but what was executed stays executed. */
  lemma CutFile(b: Bytes, env: Env)
    requires EndsLine(b) && env.loadTruncated && env.truncateOk && !ScanBytes(b, env).Refused?
    requires ScanBytes(b, env).Passed? ==> OpenMulti(ScanBytes(b, env).cs)
    ensures Load(b, env).status != AofFailed && Load(b, env).applied == Applied(ScanBytes(b, env).cs)
  {
    hide ScanBytes, LoadFrom;
    ScanNothing(env);
    if ScanBytes(b, env).Hanging? {
      LoadHangs(b, |b|, START, env);
    } else {
      assert b + [] == b;
      var q := LoadPasses(b, [], |b|, START, env);
      LoadOpenEnd(|b|, q, env);
    }
  }

  lemma LoadOpenEnd(size: nat, p: Progress, env: Env)
    requires p.client.inMulti && env.loadTruncated && env.truncateOk
    ensures LoadFrom([], size, p, env) == Loaded(AofTruncated, p.client.applied, p.beforeMulti)
  {
    ReadNothing();
  }

  // ----- whole commands left -----

  /** The commands of the log that are not wholly in the file. */
  ghost function Left<D>(s: State<D>): seq<Argv>
    requires s.logs != []
  {
    Last(s.logs)[Whole(Last(s.logs), |s.content|)..]
  }

  /** MAIN RESULT. When the file ends behind a command outside a transaction, the rewritten directory
      gives back the live dataset if and only if no data command was left in the buffer. */
  lemma WholeLeftover(dbnum: nat, env: Env, s: State<seq<Item>>, rdb: bool, items: seq<Item>)
    requires var sem := HistorySem(dbnum, env); Inv(sem, s) && BatchOk(sem, items)
    requires s.logs != [] && Boundary(s, |s.content|)
    ensures var sem := HistorySem(dbnum, env);
            var r := LoadDisk(sem, SwappedDisk(s, rdb, NewFile(s, items)));
            r.Recovered? && (r.d == LiveAfter(sem, s, items) <==> forall c | c in Left(s) :: IsBracket(c) || IsSelect(c))
  {
    var sem := HistorySem(dbnum, env);
    hide Inv, ScanBytes, LoadDisk, EncodeAll, SwappedDisk, BatchOk, Targets, RunAll, Whole, NewFile, LiveAfter;
    InvFacts(sem, s);
    LeftIsClosed(sem, s);
    ScanEncoded(Left(s), env);
    AfterTheSwap(dbnum, env, s, rdb, items);
    SeenAll(FRESH, Left(s));
    NoTargets(0, Plain(Left(s)), dbnum);
    PlainData(Left(s));
    assert Seen(FRESH) + Plain(Left(s)) == Plain(Left(s));
    assert Seen(RunAll(FRESH, Left(s))) == Applied(Left(s));
  }

  lemma LeftIsClosed<D>(sem: Sem<D>, s: State<D>)
    requires Inv(sem, s) && s.logs != [] && Boundary(s, |s.content|)
    ensures s.buf == EncodeAll(Left(s)) && GoodLog(Left(s), sem.env) && Flat(FRESH, Left(s)) && !OpenMulti(Left(s))
  {
    hide Inv, EncodeAll, Whole, RunAll, Flat;
    InvFacts(sem, s);
    var cs, m := Last(s.logs), Whole(Last(s.logs), |s.content|);
    var whole, left := cs[..m], cs[m..];
    assert cs == whole + left;
    EncodeAllAppend(whole, left);
    assert s.content == (s.content + s.buf)[..|s.content|] && s.buf == (s.content + s.buf)[|s.content|..];
    RunAllSplit(FRESH, whole, left);
    ProperAll(FRESH, whole);
    FlatSuffix(FRESH, whole, left);
    var k := RunAll(FRESH, whole);
    Shifted(FRESH, k.applied, left);
    ShiftedFlat(FRESH, k.applied, left);
    assert FRESH.(applied := k.applied + FRESH.applied) == k;
  }

  lemma {:induction false} FlatSuffix(k: Client, a: seq<Argv>, b: seq<Argv>)
    requires Flat(k, a + b)
    ensures Flat(RunAll(k, a), b)
    decreases a
  {
    if a == [] {
      assert a + b == b;
    } else {
      assert (a + b)[1..] == a[1..] + b;
      FlatSuffix(RunCommand(k, a[0]), a[1..], b);
    }
  }

  /** What was executed before does not change what a client does. */
  lemma {:induction false} Shifted(k: Client, before: seq<Argv>, cs: seq<Argv>)
    ensures RunAll(k.(applied := before + k.applied), cs) == RunAll(k, cs).(applied := before + RunAll(k, cs).applied)
    decreases cs
  {
    if cs != [] {
      ShiftedStep(k, before, cs[0]);
      Shifted(RunCommand(k, cs[0]), before, cs[1..]);
    }
  }

  lemma ShiftedStep(k: Client, before: seq<Argv>, c: Argv)
    ensures RunCommand(k.(applied := before + k.applied), c) == RunCommand(k, c).(applied := before + RunCommand(k, c).applied)
  {
    assert before + k.applied + k.queued == before + (k.applied + k.queued);
    assert before + k.applied + [c] == before + (k.applied + [c]);
  }

  lemma {:induction false} ShiftedFlat(k: Client, before: seq<Argv>, cs: seq<Argv>)
    ensures Flat(k.(applied := before + k.applied), cs) == Flat(k, cs)
    decreases cs
  {
    if cs != [] {
      ShiftedStep(k, before, cs[0]);
      ShiftedFlat(RunCommand(k, cs[0]), before, cs[1..]);
    }
  }

  lemma {:induction false} ScanEncoded(cs: seq<Argv>, env: Env)
    requires GoodLog(cs, env)
    ensures ScanBytes(EncodeAll(cs), env) == Passed(cs)
  {
    hide ReadCommand, EncodeCommand;
    if cs == [] {
      ReadNothing();
    } else {
      CommandReadBack(cs[0], EncodeAll(cs[1..]));
      ScanEncoded(cs[1..], env);
      assert [cs[0]] + cs[1..] == cs;
    }
  }

  lemma {:induction false} NoTargets(db: nat, cs: seq<Argv>, dbnum: nat)
    ensures Targets(db, cs, dbnum) == [] <==> forall c | c in cs :: IsSelect(c)
    decreases cs
  {
    hide SelectTarget, IsSelect;
    if cs != [] {
      NoTargets(if IsSelect(cs[0]) then SelectTarget(cs[0], db, dbnum) else db, cs[1..], dbnum);
      assert cs == [cs[0]] + cs[1..];
    }
  }

  lemma {:induction false} PlainData(cs: seq<Argv>)
    ensures (forall c | c in Plain(cs) :: IsSelect(c)) <==> forall c | c in cs :: IsBracket(c) || IsSelect(c)
  {
    hide IsSelect, IsBracket;
    if cs != [] {
      PlainData(cs[1..]);
      assert cs == [cs[0]] + cs[1..];
    }
  }

  /** A leftover that is not empty and not whole commands, and yet harmless: the end of a command whose
      last argument starts with a hash mark is read as an annotation. */
  lemma HashIsHarmless(name: Bytes, env: Env)
    ensures var left: Bytes := [HASH] + CRLF;
            EncodeCommand([name, [HASH]])[|EncodeCommand([name, [HASH]])| - 3..] == left
            && ScanBytes(left, env) == Passed([])
  {
    var c: Argv := [name, [HASH]];
    var left: Bytes := [HASH] + CRLF;
    assert c[1..] == [[HASH]] && [[HASH]][1..] == [];
    var e := EncodeCommand(c);
    assert EncodeArgs([[HASH]]) == EncodeArg([HASH]) + EncodeArgs([]);
    assert e == (Header(STAR, 2) + EncodeArg(name) + Header(DOLLAR, 1)) + left;
    LineLengthIs(left, 3, LINE_MAX - 1);
    assert left[..3] == left && left[3..] == [];
    ReadNothing();
  }
}
