/** Whole runs of the append only file protocol: every sequence of its steps, in any order
    the guards allow, with a crash possible at every moment. */
module AofRuns {
  import opened Wrappers
  import opened Resp
  import opened AofLoad
  import opened AofFeed
  import opened AofManifest
  import opened AofDisk
  import opened AofInvariant
  import opened AofLeftover

  /** The steps that AofProtocol's operations are made of. */
  datatype Move =
    | Feed(batch: seq<Item>)
    | Write(content: Bytes, buf: Bytes)             // bytes move from the buffer to the file
    | ForgetDb                                      // the next feed selects its database
    | MakeIncr                                      // the next INCR file is created or truncated
    | RenameBase(rdb: bool)                         // the child's file gets the next BASE name
    | UnlinkBase(rdb: bool)                         // ... and loses it when the manifest cannot be written
    | UnlinkHistory(i: nat)                         // a replaced file goes
    | Switch(fork: bool)                            // the manifest lists a new INCR file
    | Swap(rdb: bool)                               // the manifest lists the child's snapshot
    | ChildGone
    | DropHistory
    | Persist                                       // the manifest as it is in memory
    | Crash(bytes: nat)                             // that many bytes were in the file; restart

  /** The guards of the code: what it has checked or done before each step. */
  ghost predicate Possible<D>(sem: Sem<D>, s: State<D>, m: Move) {
    s.am.incr != [] && s.logs != []
    && match m
       case Feed(batch) => BatchOk(sem, batch)
       case Write(content, buf) => s.content <= content && content + buf == s.content + s.buf
       case RenameBase(_) => s.child.Some?
       case UnlinkHistory(i) => i < |s.am.history|
       case Switch(_) =>
         var name := IncrName(s.am.incrSeq + 1);
         s.selectedDb == -1 && s.child.None? && name in s.disk.files && s.disk.files[name] == Log([])
       case Swap(rdb) =>
         var name := BaseName(s.am.baseSeq + 1, rdb);
         s.child.Some? && name in s.disk.files && s.disk.files[name] == Snapshot(s.child.value)
       case Crash(k) => k <= |s.content + s.buf|
       case _ => true
  }

  /** The two demands of the protocol: nothing is left in the buffer at a switch, and no server goes
      on behind a transaction that a crash left open. */
  ghost predicate Allowed<D>(sem: Sem<D>, s: State<D>, m: Move) {
    Possible(sem, s, m) && (m.Switch? ==> s.buf == []) && (m.Crash? ==> CleanCut(s, m.bytes))
  }

  ghost function Next<D>(sem: Sem<D>, s: State<D>, m: Move): State<D>
    requires Possible(sem, s, m)
  {
    match m
    case Feed(batch) =>
      var fed := FeedMany(s.selectedDb, batch);
      s.(buf := s.buf + EncodeAll(fed), data := Fold(sem, s.data, DataItems(batch)),
         selectedDb := if batch == [] then s.selectedDb else Last(batch).db,
         logs := s.logs[..|s.logs| - 1] + [Last(s.logs) + fed])
    case Write(content, buf) =>
      s.(content := content, buf := buf, disk := s.disk.(files := s.disk.files[Last(s.am.incr).name := Log(content)]))
    case ForgetDb => s.(selectedDb := -1)
    case MakeIncr => WithFiles(s, s.disk.files[IncrName(s.am.incrSeq + 1) := Log([])])
    case RenameBase(rdb) => WithFiles(s, s.disk.files[BaseName(s.am.baseSeq + 1, rdb) := Snapshot(s.child.value)])
    case UnlinkBase(rdb) => WithFiles(s, s.disk.files - {BaseName(s.am.baseSeq + 1, rdb)})
    case UnlinkHistory(i) => WithFiles(s, s.disk.files - {s.am.history[i].name})
    case Switch(fork) =>
      var next := NewIncr(s.am);
      s.(disk := s.disk.(lines := Some(Lines(next))), am := next, content := [], listed := next, logs := s.logs + [[]],
         child := if fork then Some(s.data) else s.child)
    case Swap(rdb) =>
      var next := AfterRewrite(s.am, rdb);
      s.(disk := s.disk.(lines := Some(Lines(next))), am := next, child := None,
         listed := next, base := s.child.value, logs := [Last(s.logs)])
    case ChildGone => s.(child := None)
    case DropHistory => s.(am := s.am.(history := [], dirty := true))
    case Persist => s.(disk := s.disk.(lines := Some(Lines(s.am))), listed := s.am)
    case Crash(k) =>
      match LoadDisk(sem, DiskAt(s, k))
      case NoRecovery => s
      case Recovered(d, files) =>
        var kept := Kept(Last(s.logs), k);
        State(s.disk.(files := files), s.listed.(dirty := false), EncodeAll(kept), [], d, -1, None,
              s.listed, s.base, s.logs[..|s.logs| - 1] + [kept])
  }

  function WithFiles<D>(s: State<D>, files: map<FileName, Content<D>>): State<D> {
    s.(disk := s.disk.(files := files))
  }

  /** A move whose guard fails does not happen. */
  ghost function After<D>(sem: Sem<D>, rdb: bool, moves: seq<Move>): State<D> {
    if moves == [] then Initial(sem, rdb)
    else
      var s, m := After(sem, rdb, moves[..|moves| - 1]), moves[|moves| - 1];
      if Allowed(sem, s, m) then Next(sem, s, m) else s
  }

  /** None of the names that the steps touch is one that a load reads. */
  lemma TouchedIsNotLive<D>(sem: Sem<D>, s: State<D>, rdb: bool)
    requires Inv(sem, s)
    ensures Live(s.listed) == Live(s.am)
    ensures IncrName(s.am.incrSeq + 1) !in Live(s.am) && BaseName(s.am.baseSeq + 1, rdb) !in Live(s.am)
    ensures forall i | 0 <= i < |s.am.history| :: s.am.history[i].name !in Live(s.am)
  {
    hide Inv, Live;
    InvFacts(sem, s);
    NewNamesAreFresh(s.am, rdb);
    forall i | 0 <= i < |s.am.history|
      ensures s.am.history[i].name !in Live(s.am)
    {
      assert s.am.history[i] in s.am.history;
      LiveIsNotRetired(s.am, s.am.history[i].name);
    }
  }

  lemma NextKeeps<D>(sem: Sem<D>, s: State<D>, m: Move)
    requires Inv(sem, s) && Allowed(sem, s, m)
    ensures Inv(sem, Next(sem, s, m))
  {
    hide Inv, EncodeAll, FeedMany, Fold, LoadDisk, Lines, Live, BatchOk, DataItems, AfterRewrite;
    match m
    case Feed(batch) => FeedKeeps(sem, s, batch);
    case Write(content, buf) => FlushKeeps(sem, s, content, buf);
    case ForgetDb => ForgetSelectedKeeps(sem, s);
    case MakeIncr => FilesStep(sem, s, m);
    case RenameBase(rdb) => FilesStep(sem, s, m);
    case UnlinkBase(rdb) => FilesStep(sem, s, m);
    case UnlinkHistory(i) => FilesStep(sem, s, m);
    case Switch(fork) => SwitchKeeps(sem, s);
    case Swap(rdb) => SwapKeeps(sem, s, rdb);
    case ChildGone => ChildGoneKeeps(sem, s);
    case DropHistory => HistoryKeeps(sem, s, true);
    case Persist => HistoryKeeps(sem, s, true);
    case Crash(k) => RestartKeeps(sem, s, k); CrashLoads(sem, s, k);
  }

  lemma FilesStep<D>(sem: Sem<D>, s: State<D>, m: Move)
    requires Inv(sem, s) && Possible(sem, s, m)
    requires m.MakeIncr? || m.RenameBase? || m.UnlinkBase? || m.UnlinkHistory?
    ensures Inv(sem, Next(sem, s, m))
    ensures forall n | n in Live(s.am) && n in s.disk.files ::
              n in Next(sem, s, m).disk.files && Next(sem, s, m).disk.files[n] == s.disk.files[n]
  {
    hide Inv, Live;
    TouchedIsNotLive(sem, s, if m.RenameBase? || m.UnlinkBase? then m.rdb else true);
    FilesKeep(sem, s, Next(sem, s, m).disk.files);
  }

  lemma {:induction false} RunKeeps<D>(sem: Sem<D>, rdb: bool, moves: seq<Move>)
    requires Tolerant(sem)
    ensures Inv(sem, After(sem, rdb, moves))
    decreases |moves|
  {
    hide Inv, Allowed, Next, Initial;
    if moves == [] {
      InitialInv(sem, rdb);
    } else {
      var s, m := After(sem, rdb, moves[..|moves| - 1]), moves[|moves| - 1];
      RunKeeps(sem, rdb, moves[..|moves| - 1]);
      if Allowed(sem, s, m) { NextKeeps(sem, s, m); }
    }
  }

  /** MAIN RESULT. After any moves, a crash with any part of the fed bytes in the open file
      leaves a disk that loads, to the dataset of the commands wholly in the file; with all bytes
      in it, that is the live dataset. */
  lemma CrashAnywhere<D>(sem: Sem<D>, rdb: bool, moves: seq<Move>, k: nat)
    requires Tolerant(sem)
    requires k <= |After(sem, rdb, moves).content + After(sem, rdb, moves).buf|
    ensures var s := After(sem, rdb, moves);
            s.am.incr != [] && s.logs != []
            && var r := LoadDisk(sem, DiskAt(s, k));
               r.Recovered? && r.d == DataAt(sem, s, k) && (k == |s.content + s.buf| ==> r.d == s.data)
  {
    hide Inv, Allowed, Next, Initial, LoadDisk, DataAt;
    RunKeeps(sem, rdb, moves);
    CrashLoads(sem, After(sem, rdb, moves), k);
    AllFlushed(sem, After(sem, rdb, moves));
  }

  // ----- files that a load reads -----

  /** The bytes that were there are still there, in front. */
  predicate Grown<D(==)>(before: Content<D>, after: Content<D>) {
    before == after || (before.Log? && after.Log? && before.bytes <= after.bytes)
  }

  /** A step leaves every file that the manifest on disk lists, with at least the bytes it had; a
      crash leaves a part of what was fed to the open file, and the others as they are. */
  lemma StepGrows<D>(sem: Sem<D>, s: State<D>, m: Move, n: FileName)
    requires Inv(sem, s) && Allowed(sem, s, m) && n in Live(s.listed)
    ensures s.am.incr != [] && n in s.disk.files && n in Next(sem, s, m).disk.files
    ensures var after := Next(sem, s, m).disk.files[n];
            if m.Crash? && n == Last(s.am.incr).name then after.Log? && after.bytes <= s.content + s.buf
            else Grown(s.disk.files[n], after)
  {
    hide Inv, EncodeAll, FeedMany, Fold, LoadDisk, Lines, BatchOk, DataItems, Live, AfterRewrite, NewIncr, Kept, OpenMulti;
    InvFacts(sem, s);
    OpenFile(sem, s);
    ListedFiles(sem, s);
    if m.MakeIncr? || m.RenameBase? || m.UnlinkBase? || m.UnlinkHistory? {
      FilesStep(sem, s, m);
    } else if m.Crash? {
      LoadedFiles(sem, s, m.bytes);
      KeptIsPrefix(Last(s.logs), m.bytes);
    }
  }

  /** The state after the first h moves. */
  ghost function At<D>(sem: Sem<D>, rdb: bool, moves: seq<Move>, h: nat): State<D>
    requires h <= |moves|
  {
    After(sem, rdb, moves[..h])
  }

  /** The open file may be cut by a crash. */
  ghost predicate Cuts<D>(s: State<D>, m: Move, n: FileName) {
    m.Crash? && s.am.incr != [] && n == Last(s.am.incr).name
  }

  /** MAIN RESULT. In every run, as long as the manifest on disk lists a file as BASE or INCR, the file
      is there and its bytes stay: nothing is removed, cut or overwritten, except that a crash may cut
      the file being written. */
  lemma {:induction false} LiveFilesOnlyGrow<D>(sem: Sem<D>, rdb: bool, moves: seq<Move>, i: nat, j: nat, n: FileName)
    requires Tolerant(sem) && i <= j <= |moves|
    requires forall h | i <= h <= j :: n in Live(At(sem, rdb, moves, h).listed)
    requires forall h | i <= h < j :: !Cuts(At(sem, rdb, moves, h), moves[h], n)
    ensures var a, b := At(sem, rdb, moves, i).disk.files, At(sem, rdb, moves, j).disk.files;
            n in a && n in b && Grown(a[n], b[n])
    ensures At(sem, rdb, moves, j).disk.lines == Some(Lines(At(sem, rdb, moves, j).listed))
    decreases j
  {
    hide Inv, Allowed, Next, Initial, Lines, Live, After;
    RunKeeps(sem, rdb, moves[..j]);
    ListedFiles(sem, At(sem, rdb, moves, j));
    if i < j {
      LiveFilesOnlyGrow(sem, rdb, moves, i, j - 1, n);
      RunKeeps(sem, rdb, moves[..j - 1]);
      AfterOneMore(sem, rdb, moves, j - 1);
      var s, m := At(sem, rdb, moves, j - 1), moves[j - 1];
      if Allowed(sem, s, m) { StepGrows(sem, s, m, n); }
      assert !Cuts(s, m, n);
    }
  }

  lemma AfterOneMore<D>(sem: Sem<D>, rdb: bool, moves: seq<Move>, h: nat)
    requires h < |moves|
    ensures var s, m := At(sem, rdb, moves, h), moves[h];
            At(sem, rdb, moves, h + 1) == if Allowed(sem, s, m) then Next(sem, s, m) else s
  {
    hide Allowed, Next, Initial;
    assert moves[..h + 1][..h] == moves[..h];
  }

  lemma ListedFiles<D>(sem: Sem<D>, s: State<D>)
    requires Inv(sem, s)
    ensures s.disk.lines == Some(Lines(s.listed))
    ensures forall n | n in Live(s.listed) :: n in s.disk.files
  {
    hide EncodeAll, LogOk, Rebuild, Cursor, Applied, Lines;
    forall n | n in Live(s.listed)
      ensures n in s.disk.files
    {
      if n != s.listed.base.value.name {
        var info :| info in s.listed.incr && info.name == n;
        var i :| 0 <= i < |s.listed.incr| && s.listed.incr[i] == info;
        assert IncrFile(sem, s.disk.files, s.listed.incr[i], s.logs[i],
                        if i == |s.logs| - 1 then |s.content| else |EncodeAll(s.logs[i])|);
      }
    }
  }

  /** The open file holds what was written. */
  lemma OpenFile<D>(sem: Sem<D>, s: State<D>)
    requires Inv(sem, s)
    ensures s.am.incr != [] && Last(s.am.incr).name in s.disk.files
    ensures s.disk.files[Last(s.am.incr).name] == Log(s.content)
  {
    hide EncodeAll, LogOk, Rebuild, Cursor, Applied, Lines;
    var n := |s.logs| - 1;
    assert IncrFile(sem, s.disk.files, s.listed.incr[n], s.logs[n], |s.content|);
    assert EncodeAll(Last(s.logs))[..|s.content|] == s.content;
  }

  // ----- what comes back -----

  /** The data commands of the feeds, in order. */
  ghost function Fed<D>(sem: Sem<D>, moves: seq<Move>): seq<Item> {
    if moves == [] then []
    else
      var m := moves[|moves| - 1];
      Fed(sem, moves[..|moves| - 1]) + if m.Feed? && BatchOk(sem, m.batch) then DataItems(m.batch) else []
  }

  lemma DataStep<D>(sem: Sem<D>, s: State<D>, m: Move)
    requires Inv(sem, s) && !m.Crash?
    ensures m.Feed? ==> (Allowed(sem, s, m) <==> BatchOk(sem, m.batch))
    ensures Allowed(sem, s, m) ==>
              Next(sem, s, m).data == if m.Feed? then Fold(sem, s.data, DataItems(m.batch)) else s.data
  {
    hide Inv, EncodeAll, FeedMany, LoadDisk, Lines, Live, BatchOk, DataItems, AfterRewrite, Fold;
    InvFacts(sem, s);
  }

  /** As long as nothing crashes, the live dataset is that of all commands fed. */
  lemma {:induction false} LiveData<D>(sem: Sem<D>, rdb: bool, moves: seq<Move>)
    requires Tolerant(sem) && forall m | m in moves :: !m.Crash?
    ensures After(sem, rdb, moves).data == Fold(sem, sem.empty, Fed(sem, moves))
    decreases |moves|
  {
    hide Inv, Allowed, Next, BatchOk, DataItems;
    if moves != [] {
      var init, m := moves[..|moves| - 1], moves[|moves| - 1];
      LiveData(sem, rdb, init);
      RunKeeps(sem, rdb, init);
      DataStep(sem, After(sem, rdb, init), m);
      if m.Feed? && BatchOk(sem, m.batch) {
        FoldSplit(sem, sem.empty, Fed(sem, init), DataItems(m.batch));
      } else {
        assert Fed(sem, init) + [] == Fed(sem, init);
      }
    }
  }

  lemma {:induction false} AppliedGrows(k: Client, cs: seq<Argv>)
    ensures k.applied <= RunAll(k, cs).applied
    decreases cs
  {
    if cs != [] { AppliedGrows(RunCommand(k, cs[0]), cs[1..]); }
  }

  /** A cut log replays to a first part of what the whole log replays to. */
  lemma CutReplays(cs: seq<Argv>, n: nat, dbnum: nat)
    requires n <= |cs|
    ensures Replayed(cs[..n], dbnum) <= Replayed(cs, dbnum)
  {
    hide RunAll, Targets, Cursor;
    assert cs == cs[..n] + cs[n..];
    RunAllSplit(FRESH, cs[..n], cs[n..]);
    AppliedGrows(RunAll(FRESH, cs[..n]), cs[n..]);
    var a, b := RunAll(FRESH, cs[..n]).applied, RunAll(FRESH, cs).applied;
    assert b == a + b[|a|..];
    TargetsSplit(0, a, b[|a|..], dbnum);
  }

  /** With command semantics that remember everything, a dataset is the list of commands executed.
      What a crash leaves is a first part of it: nothing out of order, nothing twice. */
  lemma RecoveredIsPrefix(dbnum: nat, env: Env, s: State<seq<Item>>, k: nat)
    requires Inv(HistorySem(dbnum, env), s)
    ensures s.logs != [] && DataAt(HistorySem(dbnum, env), s, k) <= s.data
  {
    var sem := HistorySem(dbnum, env);
    InvFacts(sem, s);
    var n := |s.logs| - 1;
    var last := Last(s.logs);
    var cut := last[..Whole(last, k)];
    var before := Rebuild(sem, s.base, s.logs[..n]);
    hide Inv, Rebuild, RunAll, Targets, EncodeAll;
    RebuildLast(sem, s.base, s.logs[..n], cut);
    RebuildLast(sem, s.base, s.logs[..n], last);
    assert s.logs[..n] + [last] == s.logs;
    HistoryFold(dbnum, env, before, Replayed(cut, dbnum));
    HistoryFold(dbnum, env, before, Replayed(last, dbnum));
    CutReplays(last, Whole(last, k), dbnum);
    DataIsRebuilt(sem, s);
  }

  lemma DataIsRebuilt<D>(sem: Sem<D>, s: State<D>)
    requires Inv(sem, s)
    ensures s.data == Rebuild(sem, s.base, s.logs)
  {}

  /** MAIN RESULT. Run anything, then crash at any byte: the commands that come back are a first
      part of those executed, in order, each on its own database. Before the first crash these are
      all commands fed. */
  lemma CrashRecoversPrefix(dbnum: nat, env: Env, rdb: bool, moves: seq<Move>, k: nat)
    requires Tolerant(HistorySem(dbnum, env))
    requires var s := After(HistorySem(dbnum, env), rdb, moves); k <= |s.content + s.buf|
    ensures var sem := HistorySem(dbnum, env);
            var s := After(sem, rdb, moves);
            s.am.incr != [] && s.logs != []
            && var r := LoadDisk(sem, DiskAt(s, k));
               && r.Recovered? && r.d <= s.data
               && (k == |s.content + s.buf| ==> r.d == s.data)
               && ((forall m | m in moves :: !m.Crash?) ==> s.data == Fed(sem, moves))
  {
    var sem := HistorySem(dbnum, env);
    hide Inv, Allowed, Next, Initial, LoadDisk, DataAt, BatchOk, DataItems;
    CrashAnywhere(sem, rdb, moves, k);
    RunKeeps(sem, rdb, moves);
    RecoveredIsPrefix(dbnum, env, After(sem, rdb, moves), k);
    if forall m | m in moves :: !m.Crash? {
      LiveData(sem, rdb, moves);
      HistoryFold(dbnum, env, [], Fed(sem, moves));
      assert [] + Fed(sem, moves) == Fed(sem, moves);
    }
  }

  // ----- a switch with bytes left in the buffer -----

  /** The moves are possible one after the other and lead from one state to the other. */
  ghost predicate Leads<D>(sem: Sem<D>, s: State<D>, moves: seq<Move>, end: State<D>)
    decreases moves
  {
    if moves == [] then s == end
    else Possible(sem, s, moves[0]) && Leads(sem, Next(sem, s, moves[0]), moves[1..], end)
  }

  lemma LeadsFrom<D>(sem: Sem<D>, s: State<D>, moves: seq<Move>, k: nat, end: State<D>)
    requires k < |moves| && Possible(sem, s, moves[k]) && Leads(sem, Next(sem, s, moves[k]), moves[k + 1..], end)
    ensures Leads(sem, s, moves[k..], end)
  {
    hide Possible, Next;
    assert moves[k..][1..] == moves[k + 1..];
  }

  lemma {:induction false} LeadsThrough<D>(sem: Sem<D>, s: State<D>, a: seq<Move>, mid: State<D>, b: seq<Move>, end: State<D>)
    requires Leads(sem, s, a, mid) && Leads(sem, mid, b, end)
    ensures Leads(sem, s, a + b, end)
    decreases a
  {
    hide Possible, Next;
    if a == [] {
      assert a + b == b;
    } else {
      assert (a + b)[1..] == a[1..] + b;
      LeadsThrough(sem, Next(sem, s, a[0]), a[1..], mid, b, end);
    }
  }

  lemma NowhereLeft<D>(sem: Sem<D>, s: State<D>)
    ensures Leads(sem, s, [], s)
  {}

  const OPENING: seq<Move> := [ForgetDb, MakeIncr, Switch(true)]

  function Closing(file: Bytes, items: seq<Item>, rdb: bool): seq<Move> {
    [Feed(items), Write(file, []), RenameBase(rdb), Swap(rdb)]
  }

  /** The state after the switch, as far as the rest of the rewrite depends on it. */
  ghost predicate Opened<D>(s: State<D>, mid: State<D>) {
    && mid.disk == SwitchedDisk(s) && mid.am == NewIncr(s.am) && mid.content == [] && mid.buf == s.buf
    && mid.data == s.data && mid.child == Some(s.data) && mid.selectedDb == -1 && mid.logs != []
  }

  /** A rewrite that starts with bytes left in the buffer leads to the disk that
      AofLeftover.SwitchLoads speaks of. */
  lemma LeftoverOpens<D>(sem: Sem<D>, s: State<D>) returns (mid: State<D>)
    requires Inv(sem, s) && s.child.None?
    ensures Leads(sem, s, OPENING, mid) && Opened(s, mid)
  {
    hide Inv, EncodeAll, LoadDisk, Lines, Leads, WellFormed, LogOk, Live;
    InvFacts(sem, s);
    var s1 := Next(sem, s, ForgetDb);
    var s2 := Next(sem, s1, MakeIncr);
    mid := Next(sem, s2, Switch(true));
    assert OPENING[3..] == [] && OPENING[0..] == OPENING;
    NowhereLeft(sem, mid);
    LeadsFrom(sem, s2, OPENING, 2, mid);
    LeadsFrom(sem, s1, OPENING, 1, mid);
    LeadsFrom(sem, s, OPENING, 0, mid);
  }

  /** More is fed and written. */
  lemma LeftoverWritten<D>(sem: Sem<D>, s: State<D>, mid: State<D>, items: seq<Item>) returns (fed: State<D>, end: State<D>)
    requires BatchOk(sem, items) && Opened(s, mid)
    ensures var file := NewFile(s, items);
            && Possible(sem, mid, Feed(items)) && fed == Next(sem, mid, Feed(items))
            && Possible(sem, fed, Write(file, [])) && end == Next(sem, fed, Write(file, []))
            && end.am == mid.am && end.child == mid.child && end.logs != [] && end.data == LiveAfter(sem, s, items)
            && end.disk == mid.disk.(files := mid.disk.files[IncrName(s.am.incrSeq + 1) := Log(file)])
  {
    hide EncodeAll, FeedMany, Fold, LoadDisk, Lines, BatchOk, DataItems;
    fed := Next(sem, mid, Feed(items));
    var file := NewFile(s, items);
    assert [] + fed.buf == file + [] && fed.buf == file;
    end := Next(sem, fed, Write(file, []));
  }

  /** The rewrite ends with the disk that AofLeftover.AfterTheSwap and AofHarmless.ExactlyHarmless
      speak of. */
  lemma LeftoverEnds<D>(sem: Sem<D>, s: State<D>, mid: State<D>, rdb: bool, items: seq<Item>) returns (end: State<D>)
    requires BatchOk(sem, items) && Opened(s, mid)
    ensures Leads(sem, mid, Closing(NewFile(s, items), items, rdb), end)
    ensures end.disk == SwappedDisk(s, rdb, NewFile(s, items)) && end.data == LiveAfter(sem, s, items)
  {
    hide EncodeAll, FeedMany, Fold, LoadDisk, Lines, BatchOk, DataItems, AfterRewrite, Leads, NewFile, LiveAfter;
    var file := NewFile(s, items);
    var fed, written := LeftoverWritten(sem, s, mid, items);
    var renamed := Next(sem, written, RenameBase(rdb));
    end := Next(sem, renamed, Swap(rdb));
    assert end.disk.files == SwappedDisk(s, rdb, file).files;
    var moves := Closing(file, items, rdb);
    assert moves[4..] == [] && moves[0..] == moves;
    hide Next, Possible, SwappedDisk;
    NowhereLeft(sem, end);
    LeadsFrom(sem, renamed, moves, 3, end);
    LeadsFrom(sem, written, moves, 2, end);
    LeadsFrom(sem, fed, moves, 1, end);
    LeadsFrom(sem, mid, moves, 0, end);
  }

  /** Both parts together. */
  lemma LeftoverSteps<D>(sem: Sem<D>, s: State<D>, rdb: bool, items: seq<Item>) returns (end: State<D>)
    requires Inv(sem, s) && s.child.None? && BatchOk(sem, items)
    ensures Leads(sem, s, OPENING + Closing(NewFile(s, items), items, rdb), end)
    ensures end.disk == SwappedDisk(s, rdb, NewFile(s, items)) && end.data == LiveAfter(sem, s, items)
  {
    hide Inv, BatchOk, Leads, SwappedDisk, Opened, NewFile, LiveAfter;
    var mid := LeftoverOpens(sem, s);
    end := LeftoverEnds(sem, s, mid, rdb, items);
    LeadsThrough(sem, s, OPENING, mid, Closing(NewFile(s, items), items, rdb), end);
  }
}
