/** The append only file protocol as the server runs it: feeding, flushing, background
    rewrites, manifest swaps, history collection, crashes and restarts. */
module AofProtocol {
  import opened Wrappers
  import opened Resp
  import opened AofLoad
  import opened AofFeed
  import opened AofFlush
  import opened AofManifest
  import opened AofDisk
  import opened AofInvariant
  import opened AofLeftover

  /** A disk state a crash may leave, with the dataset that must come back from it. */
  datatype Crash<D> = Crash(disk: Disk<D>, expected: D)

  ghost predicate Recovers<D>(sem: Sem<D>, c: Crash<D>) {
    var r := LoadDisk(sem, c.disk);
    r.Recovered? && r.d == c.expected
  }

  /** What the operating system changes at once: the manifest, or one file. */
  ghost predicate OneChange<D>(a: Disk<D>, b: Disk<D>) {
    a.files == b.files || (a.lines == b.lines && exists n :: OnlyAt(a.files, b.files, n))
  }

  ghost predicate OnlyAt<D>(a: map<FileName, Content<D>>, b: map<FileName, Content<D>>, n: FileName) {
    a - {n} == b - {n}
  }

  /** The record goes on, and the dataset that must come back stays the same. */
  ghost predicate Steady<D>(before: seq<Crash<D>>, after: seq<Crash<D>>) {
    before != [] && before <= after
    && forall i | |before| <= i < |after| :: after[i].expected == Last(before).expected
  }

  lemma FilePut<D>(disk: Disk<D>, n: FileName, c: Content<D>)
    ensures OneChange(disk, disk.(files := disk.files[n := c])) && OneChange(disk, disk.(files := disk.files - {n}))
  {
    assert OnlyAt(disk.files, disk.files[n := c], n) && OnlyAt(disk.files, disk.files - {n}, n);
  }

  datatype StartResult = Busy | Died | NotOpened | Started | ForkFailed

  /** The answers of the operating system during one rewrite start. */
  datatype StartEnv = StartEnv(flush: FlushEnv, openOk: bool, persistOk: bool, forkOk: bool)

  /** ... and when the child has ended. */
  datatype DoneEnv = DoneEnv(childOk: bool, rdb: bool, renameOk: bool, persistOk: bool, autoGc: bool, gcPersistOk: bool)

  datatype Op =
    | DoFeed(batch: seq<Item>)
    | DoFlush(flush: FlushEnv)
    | DoStart(start: StartEnv)
    | DoDone(done: DoneEnv)
    | DoRestart(bytes: nat, autoGc: bool, gcPersistOk: bool)

  class AofServer<D(!new)> {
    const sem: Sem<D>
    var disk: Disk<D>
    var am: Manifest         // server.aof_manifest
    var log: AofFile         // the INCR file open for writing, with aof_buf
    var selectedDb: int      // server.aof_selected_db
    var data: D              // the live dataset
    var child: Option<D>     // the dataset the rewrite child was forked with
    ghost var listed: Manifest
    ghost var base: D
    ghost var logs: seq<seq<Argv>>
    ghost var crashes: seq<Crash<D>>    // every disk state so far

    ghost function Now(): State<D>
      reads this, log
    {
      State(disk, am, log.content, log.buf, data, selectedDb, child, listed, base, logs)
    }

    /** The record ends with the disk as it is, and from each disk to the next there is one change. */
    ghost predicate Record()
      reads this`crashes, this`disk
    {
      && crashes != [] && Last(crashes).disk == disk
      && forall i | 0 < i < |crashes| :: OneChange(crashes[i - 1].disk, crashes[i].disk)
    }

    ghost predicate CrashSafe()
      reads this`crashes
    {
      forall i | 0 <= i < |crashes| :: Recovers(sem, crashes[i])
    }

    /** All disks of the record recover but perhaps the last. */
    ghost predicate SafeBefore()
      reads this`crashes
    {
      forall i | 0 <= i < |crashes| - 1 :: Recovers(sem, crashes[i])
    }

    ghost predicate Linked()
      reads this, log
    {
      Inv(sem, Now()) && Record() && CrashSafe()
    }

    ghost predicate Valid()
      reads this, log
    {
      Linked() && log.Tracks()
    }

    /** The dataset of the commands wholly on disk. */
    ghost function OnDisk(): D
      requires logs != []
      reads this, log
    {
      DataAt(sem, Now(), |log.content|)
    }

    lemma DiskRecovers()
      requires Inv(sem, Now())
      ensures logs != [] && Recovers(sem, Crash(disk, OnDisk()))
    {
      hide Inv, LoadDisk;
      DiskNow(sem, Now());
      CrashLoads(sem, Now(), |log.content|);
    }

    /** The last disk of the record stands for the commands wholly on disk. */
    lemma LastExpected()
      requires Linked()
      ensures logs != [] && Last(crashes).expected == OnDisk()
    {
      hide Inv, LoadDisk;
      DiskRecovers();
      assert Recovers(sem, crashes[|crashes| - 1]);
    }

    lemma RecordSteady()
      requires Record()
      ensures crashes != [] && Steady(crashes, crashes)
    {
      hide OneChange;
    }

    /** The only way the disk changes. */
    method SetDisk(next: Disk<D>, ghost expected: D)
      requires Record() && OneChange(disk, next)
      modifies this`disk, this`crashes
      ensures Record() && disk == next && crashes == old(crashes) + [Crash(next, expected)]
      ensures old(CrashSafe()) ==> SafeBefore() && (Recovers(sem, Crash(next, expected)) <==> CrashSafe())
      ensures expected == Last(old(crashes)).expected ==> Steady(old(crashes), crashes)
    {
      hide OneChange, Recovers;
      disk := next;
      crashes := crashes + [Crash(next, expected)];
    }

    /** The BASE file with the empty dataset, then the first INCR file. */
    method CreateFiles(rdb: bool)
      requires disk == Disk(map[], None) && crashes == [Crash(Disk(map[], None), sem.empty)]
      modifies this`disk, this`crashes
      ensures Record() && CrashSafe()
      ensures var none: map<FileName, Content<D>> := map[];
              var base := none[BaseName(1, rdb) := Snapshot(sem.empty)];
              var both := base[IncrName(1) := Log([])];
              && disk == Disk(both, None)
              && crashes == [Crash(Disk(none, None), sem.empty), Crash(Disk(base, None), sem.empty), Crash(disk, sem.empty)]
    {
      hide OneChange, Recovers;
      NoManifest(sem, disk.files);
      FilePut(disk, BaseName(1, rdb), Snapshot(sem.empty));
      SetDisk(disk.(files := disk.files[BaseName(1, rdb) := Snapshot(sem.empty)]), sem.empty);
      NoManifest(sem, disk.files);
      FilePut(disk, IncrName(1), Log([]));
      SetDisk(disk.(files := disk.files[IncrName(1) := Log([])]), sem.empty);
      NoManifest(sem, disk.files);
    }

    /** The first manifest. */
    method ListFiles(rdb: bool)
      requires Tolerant(sem) && Record() && CrashSafe() && Now().(disk := disk.(lines := Some(Lines(am)))) == Initial(sem, rdb)
      modifies this`disk, this`crashes
      ensures Linked() && disk == old(disk).(lines := Some(Lines(am))) && crashes == old(crashes) + [Crash(disk, sem.empty)]
    {
      hide Inv, OneChange, Lines, Recovers, Initial, DataAt, Record, CrashSafe, SafeBefore, Steady;
      LinesChange(disk, Lines(am));
      InitialInv(sem, rdb);
      InitialOnDisk(sem, rdb);
      SetDisk(disk.(lines := Some(Lines(am))), sem.empty);
      DiskRecovers();
    }

    /** Start with an empty directory: BASE and first INCR file are created, then the
        manifest is written. */
    constructor (sem: Sem<D>, rdb: bool)
      requires Tolerant(sem)
      ensures Valid() && this.sem == sem && data == sem.empty && child.None? && fresh(log)
      ensures am.incr == [Info(IncrName(1), 1, Incr)] && log.append && log.content == log.buf == []
      ensures selectedDb == -1 && logs == [[]]
      ensures var none: map<FileName, Content<D>> := map[];
              var base := none[BaseName(1, rdb) := Snapshot(sem.empty)];
              var both := base[IncrName(1) := Log([])];
              crashes == [Crash(Disk(none, None), sem.empty), Crash(Disk(base, None), sem.empty),
                          Crash(Disk(both, None), sem.empty), Crash(Disk(both, Some(Lines(am))), sem.empty)]
    {
      var m := LastIncr(NewBase(EMPTY, rdb));
      this.sem := sem;
      disk := Disk(map[], None);
      crashes := [Crash(Disk(map[], None), sem.empty)];
      am, listed := m, m;
      log := new AofFile(true, [], []);
      selectedDb, data, child, base, logs := -1, sem.empty, None, sem.empty, [[]];
      new;
      hide Inv, OneChange, Lines, LastIncr, NewBase, Recovers, Initial, DataAt, Record, CrashSafe, SafeBefore, Steady;
      CreateFiles(rdb);
      InitialIs(sem, rdb, disk.files);
      InitialInv(sem, rdb);
      ListFiles(rdb);
    }

    // ----- feeding and flushing -----

    /** feedAppendOnlyFile for each command of a batch. */
    method FeedBuffer(batch: seq<Item>)
      modifies this`selectedDb, log`buf
      ensures log.buf == old(log.buf) + EncodeAll(FeedMany(old(selectedDb), batch))
      ensures selectedDb == if batch == [] then old(selectedDb) else Last(batch).db
    {
      hide EncodeAll, FeedOne;
      var i := 0;
      while i < |batch|
        invariant 0 <= i <= |batch|
        invariant log.buf + EncodeAll(FeedMany(selectedDb, batch[i..])) ==
                  old(log.buf) + EncodeAll(FeedMany(old(selectedDb), batch))
        invariant selectedDb == if i == 0 then old(selectedDb) else batch[i - 1].db
      {
        ghost var rest := FeedMany(batch[i].db, batch[i + 1..]);
        assert batch[i..][1..] == batch[i + 1..];
        EncodeAllAppend(FeedOne(selectedDb, batch[i]), rest);
        var bytes, next := FeedBytes(selectedDb, batch[i]);
        log.buf := log.buf + bytes;
        selectedDb := next;
        i := i + 1;
      }
      assert batch[i..] == [];
      EncodeNothing();
      assert log.buf + [] == log.buf;
    }

    /** Commands were executed and propagated: one command or a closed transaction. */
    method Feed(batch: seq<Item>)
      requires Valid() && BatchOk(sem, batch)
      modifies this, log`buf
      ensures Valid() && log == old(log)
      ensures data == Fold(sem, old(data), DataItems(batch))
      ensures log.buf == old(log.buf) + EncodeAll(FeedMany(old(selectedDb), batch))
      ensures disk == old(disk) && am == old(am) && child == old(child) && crashes == old(crashes)
      ensures old(logs) != [] && logs == old(logs)[..|old(logs)| - 1] + [Last(old(logs)) + FeedMany(old(selectedDb), batch)]
    {
      hide EncodeAll, FeedMany, Fold, BatchOk, DataItems, Inv, CrashSafe, WellFormed, LogOk, Live, Tolerant, OneChange;
      InvFacts(sem, Now());
      FeedKeeps(sem, Now(), batch);
      ghost var last := Last(logs) + FeedMany(selectedDb, batch);
      FeedBuffer(batch);
      data := Fold(sem, data, DataItems(batch));
      logs := logs[..|logs| - 1] + [last];
    }

    /** flushAppendOnlyFile on the open file. A crash during the write may leave any part
        of it. */
    method Flush(env: FlushEnv) returns (o: Outcome)
      requires Valid()
      modifies this`disk, this`crashes, log
      ensures am.incr != [] && logs != []
      // in every outcome, also Exit, the file holds a part of what was fed
      ensures old(log.content) <= log.content <= old(log.content + log.buf)
      ensures disk == DiskAt(old(Now()), |log.content|)
      ensures crashes == old(crashes) + [Crash(disk, DataAt(sem, old(Now()), |log.content|))] && Record() && CrashSafe()
      // a crash in the middle may leave any part
      ensures forall k | 0 <= k <= |old(log.content + log.buf)| ::
                Recovers(sem, Crash(DiskAt(old(Now()), k), DataAt(sem, old(Now()), k)))
      ensures o != Exit ==> Linked()
      ensures o != Exit && !(o == ShortUndone && !log.append) ==> Valid()
      ensures o in {FullWrite, Idle} ==> log.buf == []
      ensures env.force && old(log.buf) != [] ==>
                && |log.content| == |old(log.content)| + BytesKept(env, |old(log.buf)|)
                && o == if WriteOutcome(env, |old(log.buf)|) == FullWrite && SyncFails(env) then Exit
                        else WriteOutcome(env, |old(log.buf)|)
    {
      hide EncodeAll, Inv, WellFormed, LogOk, Live, LoadDisk, OneChange, DataAt;
      hide WriteOutcome, BytesKept, Spliced;
      InvFacts(sem, Now());
      ghost var before := Now();
      KeptFacts(log.content, log.Position(), log.buf, BytesKept(env, |log.buf|));
      OutcomeFacts(env, |log.buf|);
      o := log.Flush(env);
      assert log.content == (before.content + before.buf)[..|log.content|];
      forall k | 0 <= k <= |before.content + before.buf|
        ensures Recovers(sem, Crash(DiskAt(before, k), DataAt(sem, before, k)))
      {
        CrashLoads(sem, before, k);
      }
      FilePut(disk, Last(am.incr).name, Log(log.content));
      SetDisk(disk.(files := disk.files[Last(am.incr).name := Log(log.content)]), DataAt(sem, before, |log.content|));
      if o != Exit {
        FlushKeeps(sem, before, log.content, log.buf);
      }
    }

    // ----- changes to files the manifest does not list -----

    /** A file is created, truncated or replaced: only ever one that no load would read. */
    method PutFile(name: FileName, content: Content<D>)
      requires Linked() && name !in Live(am)
      modifies this`disk, this`crashes
      ensures Linked() && disk == old(disk).(files := old(disk).files[name := content])
      ensures |crashes| == |old(crashes)| + 1 && Steady(old(crashes), crashes)
    {
      hide Inv, OneChange, LoadDisk, Live;
      LastExpected();
      FilesKeep(sem, Now(), disk.files[name := content]);
      FilePut(disk, name, content);
      SetDisk(disk.(files := disk.files[name := content]), OnDisk());
      DiskRecovers();
    }

    /** A file is removed: likewise. */
    method Unlink(name: FileName)
      requires Linked() && name !in Live(am)
      modifies this`disk, this`crashes
      ensures Linked() && disk == old(disk).(files := old(disk).files - {name})
      ensures |crashes| == |old(crashes)| + 1 && Steady(old(crashes), crashes)
    {
      hide Inv, OneChange, LoadDisk, Live;
      LastExpected();
      FilesKeep(sem, Now(), disk.files - {name});
      FilePut(disk, name, Log([]));
      SetDisk(disk.(files := disk.files - {name}), OnDisk());
      DiskRecovers();
    }

    // ----- rewrites -----

    /** openNewIncrAofForAppend: a new INCR file, the manifest that lists it, and only
        then the switch. What is still in the buffer moves to the new file; then the disk loads
        if and only if the old file ends behind a command outside a transaction. */
    method OpenNewIncr(openOk: bool, persistOk: bool) returns (ok: bool)
      requires Linked() && selectedDb == -1 && child.None?
      modifies this`disk, this`crashes, this`am, this`log, this`listed, this`logs
      ensures Record() && Steady(old(crashes), crashes) && old(logs) != [] && ok == (openOk && persistOk)
      ensures !ok ==> Linked() && log == old(log) && disk.lines == old(disk).lines && logs == old(logs)
      ensures ok ==>
                && fresh(log) && !log.append && log.content == [] && log.buf == old(log.buf)
                && disk == SwitchedDisk(old(Now())) && am == NewIncr(old(am)) && |crashes| == |old(crashes)| + 2
                && SafeBefore() && (CrashSafe() <==> Boundary(old(Now()), |old(log.content)|))
                && (LoadDisk(sem, disk).Recovered? <==> Boundary(old(Now()), |old(log.content)|))
      ensures ok && old(log.buf) == [] ==> Valid() && Inv(sem, Now().(child := Some(data)))
    {
      hide Inv, WellFormed, LogOk, Live, EncodeAll, Lines, NewIncr, LoadDisk, OneChange, CleanEnd, Recovers;
      hide Record, CrashSafe, SafeBefore;
      InvFacts(sem, Now());
      RecordSteady();
      if !openOk { return false; }
      NewNamesAreFresh(am, false);
      PutFile(IncrName(am.incrSeq + 1), Log([]));
      if !persistOk { return false; }
      assert SwitchedDisk(Now()) == SwitchedDisk(old(Now()));
      ListNewIncr();
      return true;
    }

    /** The manifest lists the new file, and writing goes on there. */
    method ListNewIncr()
      requires Linked() && selectedDb == -1 && child.None?
      requires var name := IncrName(am.incrSeq + 1); name in disk.files && disk.files[name] == Log([])
      modifies this`disk, this`crashes, this`am, this`log, this`listed, this`logs
      ensures Record() && |crashes| == |old(crashes)| + 1 && Steady(old(crashes), crashes) && old(logs) != []
      ensures fresh(log) && !log.append && log.content == [] && log.buf == old(log.buf)
      ensures disk == SwitchedDisk(old(Now())) && am == NewIncr(old(am))
      ensures SafeBefore() && (CrashSafe() <==> Boundary(old(Now()), |old(log.content)|))
      ensures LoadDisk(sem, disk).Recovered? <==> Boundary(old(Now()), |old(log.content)|)
      ensures old(log.buf) == [] ==> Valid() && Inv(sem, Now().(child := Some(data)))
    {
      hide Inv, EncodeAll, Lines, NewIncr, LoadDisk, OneChange, CleanEnd, DataAt, Record, CrashSafe, SafeBefore;
      LastExpected();
      SwitchLoads(sem, Now());
      assert SwitchedDisk(Now()) == disk.(lines := Some(Lines(NewIncr(am))));
      ghost var drained, before := log.buf == [], Now();
      if drained {
        SwitchKeeps(sem, before);
        DrainedIsBoundary(sem, before);
      }
      var next := NewIncr(am);
      LinesChange(disk, Lines(next));
      SetDisk(disk.(lines := Some(Lines(next))), OnDisk());
      am := next;
      log := new AofFile(false, [], log.buf);
      if drained { listed, logs := next, logs + [[]]; }
    }

    /** rewriteAppendOnlyFileBackground. The protocol's one demand: the forced flush must
        have emptied the buffer before the new file is opened. Otherwise the server is no longer
        Valid, and the disk loads if and only if the old file ends behind a command outside a
        transaction. */
    method RewriteStart(env: StartEnv) returns (r: StartResult, o: Outcome)
      requires Valid()
      modifies this, log
      ensures Record() && old(crashes) <= crashes && data == old(data) && old(logs) != [] && old(am).incr != []
      ensures r == if old(child).Some? || env.flush.activeChild then Busy
                   else if o == Exit then Died
                   else if !env.openOk || !env.persistOk then NotOpened
                   else if env.forkOk then Started else ForkFailed
      ensures r == Busy ==> Valid() && log == old(log) && crashes == old(crashes)
      // first the flush, then changes that leave what is on disk as it is
      ensures r != Busy ==>
                var k, n := |old(log).content|, |old(crashes)|;
                && old(log.content) <= old(log).content <= old(log.content + log.buf) && |crashes| > n
                && crashes[n] == Crash(DiskAt(old(Now()), k), DataAt(sem, old(Now()), k)) && Steady(crashes[..n + 1], crashes)
      ensures r !in {Started, ForkFailed} ==> CrashSafe()
      ensures r in {Started, ForkFailed} ==>
                && fresh(log) && !log.append && log.content == [] && log.buf == old(log).buf && am == NewIncr(old(am))
                && SafeBefore() && (CrashSafe() <==> Boundary(old(Now()), |old(log).content|))
                && (LoadDisk(sem, disk).Recovered? <==> Boundary(old(Now()), |old(log).content|))
      ensures r == NotOpened && !(o == ShortUndone && !log.append) ==> Valid() && log == old(log)
      ensures r in {Started, ForkFailed} && o in {FullWrite, Idle} ==> Valid() && log.buf == []
      ensures r == Started ==> child == Some(data)
      ensures r != Busy && old(log.buf) != [] ==>
                var flush := env.flush.(force := true);
                && |old(log).content| == |old(log.content)| + BytesKept(flush, |old(log.buf)|)
                && o == if WriteOutcome(flush, |old(log.buf)|) == FullWrite && SyncFails(flush) then Exit
                        else WriteOutcome(flush, |old(log.buf)|)
    {
      hide Inv, LoadDisk, OneChange, CleanEnd, DataAt, DiskAt, NewIncr, WriteOutcome, BytesKept, Lines, Recovers;
      hide Record, CrashSafe, SafeBefore, SwitchedDisk, WellFormed, LogOk, Live, EncodeAll, SyncFails;
      InvFacts(sem, Now());
      if child.Some? || env.flush.activeChild { return Busy, Idle; }
      ForgetSelectedKeeps(sem, Now());
      ForgetSame(sem, Now());
      selectedDb := -1;
      assert Now() == old(Now()).(selectedDb := -1);
      o := Flush(env.flush.(force := true));
      if o == Exit { return Died, o; }
      ghost var flushed := crashes;
      var ok := OpenNewIncr(env.openOk, env.persistOk);
      assert crashes[..|old(crashes)| + 1] == flushed;
      if !ok { return NotOpened, o; }
      if !env.forkOk { return ForkFailed, o; }
      child := Some(data);
      return Started, o;
    }

    /** aofDelHistoryFiles: the replaced files go, then their manifest lines. */
    method DelHistory(autoGc: bool, persistOk: bool)
      requires Valid()
      modifies this`disk, this`crashes, this`am, this`listed
      ensures Valid() && am.base == old(am).base && am.incr == old(am).incr && Steady(old(crashes), crashes)
      ensures am.baseSeq == old(am).baseSeq && am.incrSeq == old(am).incrSeq
      ensures autoGc ==> am.history == []
      ensures forall n | n in Live(am) && n in old(disk).files :: n in disk.files && disk.files[n] == old(disk).files[n]
    {
      hide Inv, LogOk, EncodeAll, Live, Lines, OneChange, Rebuild, CutLogs, Recovers, Record, CrashSafe, SafeBefore;
      hide Tolerant;
      InvFacts(sem, Now());
      RecordSteady();
      if !autoGc || am.history == [] { return; }
      for i := 0 to |am.history|
        invariant Valid() && am == old(am) && listed == old(listed) && Steady(old(crashes), crashes)
        invariant forall n | n in Live(am) && n in old(disk).files :: n in disk.files && disk.files[n] == old(disk).files[n]
      {
        assert am.history[i] in am.history;
        LiveIsNotRetired(am, am.history[i].name);
        Unlink(am.history[i].name);
      }
      HistoryKeeps(sem, Now(), true);
      am := am.(history := [], dirty := true);
      LiveIgnoresHistory(old(am), am);
      if persistOk {
        Persist();
        LiveIgnoresHistory(old(am), am);
      }
    }

    /** persistAofManifest with the manifest in memory, when it lists the same BASE and INCR files. */
    method Persist()
      requires Valid()
      modifies this`disk, this`crashes, this`am, this`listed
      ensures Valid() && am == old(am).(dirty := false) && listed == old(am) && disk == old(disk).(lines := Some(Lines(old(am))))
      ensures Steady(old(crashes), crashes)
    {
      hide Inv, Lines, OneChange, Rebuild, CutLogs, Recovers, Record, CrashSafe, SafeBefore, Steady;
      LastExpected();
      HistoryKeeps(sem, Now(), false);
      LinesChange(disk, Lines(am));
      SetDisk(disk.(lines := Some(Lines(am))), OnDisk());
      listed := am;
      HistoryKeeps(sem, Now(), false);
      am := am.(dirty := false);
      DiskRecovers();
    }

    /** The manifest swap that makes the child's snapshot the BASE file. */
    method SwapManifest(rdb: bool, next: Manifest)
      requires Valid() && child.Some? && am.incr != [] && next == AfterRewrite(am, rdb)
      requires var name := BaseName(am.baseSeq + 1, rdb); name in disk.files && disk.files[name] == Snapshot(child.value)
      modifies this`disk, this`crashes, this`am, this`listed, this`base, this`logs, this`child
      ensures Valid() && child.None? && am == next && base == old(child).value
      ensures disk == old(disk).(lines := Some(Lines(next))) && Steady(old(crashes), crashes)
    {
      hide Inv, LogOk, WellFormed, EncodeAll, Live, Lines, AfterRewrite, LoadDisk, OneChange;
      hide Rebuild, CutLogs, Recovers, Record, CrashSafe, SafeBefore, Steady;
      InvFacts(sem, Now());
      LastExpected();
      SwapKeeps(sem, Now(), rdb);
      SwapSame(sem, Now());
      LinesChange(disk, Lines(next));
      SetDisk(disk.(lines := Some(Lines(next))), OnDisk());
      am, listed, base, logs, child := next, next, child.value, [Last(logs)], None;
      DiskRecovers();
    }

    /** backgroundRewriteDoneHandler: every disk on the way recovers to the same dataset. */
    method RewriteDone(env: DoneEnv)
      requires Valid() && child.Some?
      modifies this`disk, this`crashes, this`am, this`listed, this`base, this`logs, this`child
      ensures Valid() && child.None? && Steady(old(crashes), crashes)
      ensures var done := env.childOk && env.renameOk && env.persistOk;
              && old(am).incr != []
              && (done ==> am.incr == [Last(old(am).incr)] && am.baseSeq == old(am).baseSeq + 1
                           && base == old(child).value && (env.autoGc ==> am.history == []))
              && (!done ==> am == old(am) && base == old(base))
    {
      hide Inv, LogOk, WellFormed, EncodeAll, Live, Lines, AfterRewrite, LoadDisk, OneChange, DataAt;
      InvFacts(sem, Now());
      NewNamesAreFresh(am, env.rdb);
      AfterRewriteWellFormed(am, env.rdb);
      if env.childOk && env.renameOk {
        var name := BaseName(am.baseSeq + 1, env.rdb);
        PutFile(name, Snapshot(child.value));
        if env.persistOk {
          var next := FinishRewrite(am, env.rdb);
          SwapManifest(env.rdb, next);
          DelHistory(env.autoGc, env.gcPersistOk);
          return;
        }
        Unlink(name);
      }
      ChildGoneKeeps(sem, Now());
      child := None;
    }

    // ----- crash and restart -----

    /** The process dies with k bytes of its log in the open file. */
    method Die(k: nat)
      requires Linked() && k <= |log.content + log.buf|
      modifies this`disk, this`crashes
      ensures Record() && CrashSafe() && am.incr != [] && logs != [] && disk == DiskAt(old(Now()), k)
      ensures crashes == old(crashes) + [Crash(disk, DataAt(sem, old(Now()), k))]
    {
      hide Inv, WellFormed, LogOk, Live, LoadDisk, DataAt, OneChange, Recovers, Record, CrashSafe, SafeBefore, Steady;
      InvFacts(sem, Now());
      CrashRecovers(sem, Now(), k);
      var name := Last(am.incr).name;
      FilePut(disk, name, Log((log.content + log.buf)[..k]));
      SetDisk(disk.(files := disk.files[name := Log((log.content + log.buf)[..k])]), DataAt(sem, Now(), k));
    }

    /** The next process reads the manifest, loads, and reopens the last INCR file for appending.
        `clean` reports whether that file would load again without a cut. */
    method Reopen(ghost before: State<D>, k: nat) returns (clean: bool)
      requires Inv(sem, before) && k <= |before.content + before.buf| && before.am.incr != [] && before.logs != []
      requires Record() && CrashSafe() && disk == DiskAt(before, k) && disk.lines.Some?
      requires listed == before.listed && base == before.base && logs == before.logs
      modifies this
      ensures Record() && CrashSafe() && data == DataAt(sem, before, k) && crashes == old(crashes) + [Crash(disk, data)]
      ensures clean <==> CleanCut(before, k)
      ensures clean ==> Valid() && fresh(log) && log.append && log.buf == [] && child.None?
                        && am.incr == before.am.incr && am.base == before.am.base
    {
      hide Inv, LoadDisk, EncodeAll, ParseLines, DataAt, DiskAt, Kept, Lines, Load, OneChange, Recovers, CleanCut, NewIncr;
      hide Record, CrashSafe, SafeBefore, Steady;
      ManifestBack(sem, before, k);
      CrashRecovers(sem, before, k);
      RestartFile(sem, before, k);
      var parsed := ParseManifestFile(disk.lines.value);
      var r := LoadAppendOnlyFiles(sem, disk);
      var next := LastIncr(parsed.am);
      var name := Last(next.incr).name;
      var bytes := r.files[name].bytes;
      var again := LoadSingle(bytes, sem.env);
      clean := again.status in {AofOk, AofEmpty};
      FilePut(disk, name, r.files[name]);
      SetDisk(disk.(files := r.files), DataAt(sem, before, k));
      am, data, child, selectedDb := next, r.d, None, -1;
      log := new AofFile(true, bytes, []);
      logs := logs[..|logs| - 1] + [Kept(Last(logs), k)];
      if clean { RestartedInv(sem, before, k, r, Now()); }
    }

    /** A crash, the load, and the collection of history files. */
    method Restart(k: nat, autoGc: bool, gcPersistOk: bool) returns (clean: bool)
      requires Linked() && k <= |log.content + log.buf|
      modifies this
      ensures Record() && CrashSafe() && old(logs) != [] && old(am).incr != []
      ensures var n := |old(crashes)|;
              && old(crashes) <= crashes && |crashes| > n && Steady(crashes[..n + 1], crashes)
              && crashes[n] == Crash(DiskAt(old(Now()), k), DataAt(sem, old(Now()), k))
      ensures clean <==> CleanCut(old(Now()), k)
      ensures data == DataAt(sem, old(Now()), k)
      ensures clean ==> Valid() && fresh(log) && log.append && log.buf == [] && child.None?
                        && am.incr == old(am).incr && am.base == old(am).base
    {
      hide Inv, LogOk, WellFormed, LoadDisk, EncodeAll, DataAt, Live, Lines, OneChange, Recovers, CleanCut;
      InvFacts(sem, Now());
      HeldWellFormed(sem, Now());
      ghost var before := Now();
      Die(k);
      clean := Reopen(before, k);
      if clean { DelHistory(autoGc, gcPersistOk); }
    }

    /** One operation. `go` says that the server can go on: not after an event outside the
        protocol's guarantee. */
    method Do(op: Op) returns (go: bool)
      requires Valid() && (op.DoFeed? ==> BatchOk(sem, op.batch))
      modifies this, log
      ensures go ==> Valid() && (log == old(log) || fresh(log))
      ensures op.DoFeed? || op.DoDone? ==> go
      // every disk on the way recovers; only a rewrite start with bytes left may end on one that does not load
      ensures Record() && old(crashes) <= crashes && SafeBefore()
      ensures CrashSafe() || (op.DoStart? && !go && LoadDisk(sem, disk).NoRecovery?)
      ensures !op.DoRestart? ==> data == if op.DoFeed? then Fold(sem, old(data), DataItems(op.batch)) else old(data)
    {
      hide Inv, BatchOk, DataItems, Fold, LoadDisk, OneChange, DataAt, CleanEnd, NewIncr, WriteOutcome, BytesKept;
      go := true;
      match op {
        case DoFeed(batch) =>
          Feed(batch);
        case DoFlush(env) =>
          var o := Flush(env);
          go := o != Exit && !(o == ShortUndone && !log.append);
        case DoStart(env) =>
          var r, o := RewriteStart(env);
          go := !(r == Died || (r == NotOpened && o == ShortUndone && !log.append) || (r in {Started, ForkFailed} && o !in {FullWrite, Idle}));
        case DoDone(env) =>
          if child.Some? { RewriteDone(env); }
        case DoRestart(k, autoGc, gcPersistOk) =>
          if k <= |log.content + log.buf| {
            go := Restart(k, autoGc, gcPersistOk);
          }
      }
    }

    /** MAIN RESULT. Whole runs: any operations with any answers of the environment, up to the first
        event outside the protocol's guarantee. The record of all disks passed through only grows,
        one change at a time, and every disk in it recovers to the dataset noted with it; the one
        exception is the last disk of a rewrite start that left bytes in the buffer. Returns how many
        operations were done. */
    method Run(ops: seq<Op>) returns (n: nat)
      requires Valid() && forall op | op in ops :: op.DoFeed? ==> BatchOk(sem, op.batch)
      modifies this, log
      ensures n <= |ops| && (n == |ops| ==> Valid())
      ensures Record() && old(crashes) <= crashes && SafeBefore()
      ensures CrashSafe() || (n < |ops| && ops[n].DoStart? && LoadDisk(sem, disk).NoRecovery?)
      ensures n < |ops| ==> !ops[n].DoFeed? && !ops[n].DoDone?
      ensures (forall op | op in ops[..n] :: !op.DoRestart?) && (n < |ops| ==> !ops[n].DoRestart?) ==>
                data == Fold(sem, old(data), FedBy(ops[..n]))
    {
      hide Inv, BatchOk, DataItems, Fold, FedBy, LoadDisk, OneChange;
      n := 0;
      FedByNothing(sem, data);
      assert ops[..0] == [];
      while n < |ops|
        invariant Valid() && n <= |ops| && old(crashes) <= crashes
        invariant log == old(log) || fresh(log)
        invariant (forall op | op in ops[..n] :: !op.DoRestart?) ==> data == Fold(sem, old(data), FedBy(ops[..n]))
        decreases |ops| - n
      {
        assert ops[n] in ops;
        FedByNext(sem, old(data), ops, n);
        var go := Do(ops[n]);
        if !go { return; }
        n := n + 1;
      }
    }
  }

  lemma LinesChange<D>(disk: Disk<D>, lines: seq<Info>)
    ensures OneChange(disk, disk.(lines := Some(lines)))
  {}

  /** Without a manifest there is nothing to load. */
  lemma NoManifest<D>(sem: Sem<D>, files: map<FileName, Content<D>>)
    ensures Recovers(sem, Crash(Disk(files, None), sem.empty))
  {}

  lemma InitialIs<D>(sem: Sem<D>, rdb: bool, files: map<FileName, Content<D>>)
    requires files == map[BaseName(1, rdb) := Snapshot(sem.empty)][IncrName(1) := Log([])]
    ensures var m := LastIncr(NewBase(EMPTY, rdb));
            Initial(sem, rdb) == State(Disk(files, Some(Lines(m))), m, [], [], sem.empty, -1, None, m, sem.empty, [[]])
  {
    hide Lines;
  }

  lemma InitialOnDisk<D>(sem: Sem<D>, rdb: bool)
    ensures Initial(sem, rdb).content == [] && Initial(sem, rdb).logs == [[]]
    ensures DataAt(sem, Initial(sem, rdb), 0) == sem.empty
  {
    hide Lines;
    var logs: seq<seq<Argv>> := [[]];
    assert CutLogs(logs, 0) == logs;
    NothingExecuted(sem, sem.empty);
  }

  /** With an empty buffer the file ends behind a command outside a transaction. */
  lemma DrainedIsBoundary<D>(sem: Sem<D>, s: State<D>)
    requires Inv(sem, s) && s.buf == []
    ensures s.logs != [] && Boundary(s, |s.content|)
  {
    hide Inv, EncodeAll, Whole;
    InvFacts(sem, s);
    var last := Last(s.logs);
    assert s.content + [] == s.content;
    WholeOfWhole(last);
    assert last[..|last|] == last;
  }

  /** The child's snapshot and the open file stand for the same dataset as all files before. */
  lemma SwapSame<D>(sem: Sem<D>, s: State<D>)
    requires Inv(sem, s) && s.child.Some?
    ensures s.logs != []
    ensures Rebuild(sem, s.child.value, CutLogs([Last(s.logs)], |s.content|)) == DataAt(sem, s, |s.content|)
  {
    hide EncodeAll, Rebuild, Holds, Cursor, Applied, WellFormed, CutLogs;
    SnapshotStandsFor(sem, s.base, s.logs, |s.content|, s.child.value);
  }

  lemma FedByNothing<D>(sem: Sem<D>, d: D)
    ensures Fold(sem, d, FedBy([])) == d
  {}

  /** The data commands that the operations feed, in order. */
  function FedBy(ops: seq<Op>): seq<Item> {
    if ops == [] then []
    else
      var last := ops[|ops| - 1];
      FedBy(ops[..|ops| - 1]) + if last.DoFeed? then DataItems(last.batch) else []
  }

  lemma FedByNext<D>(sem: Sem<D>, d: D, ops: seq<Op>, n: nat)
    requires n < |ops|
    ensures Fold(sem, d, FedBy(ops[..n + 1]))
         == var before := Fold(sem, d, FedBy(ops[..n]));
            if ops[n].DoFeed? then Fold(sem, before, DataItems(ops[n].batch)) else before
    ensures forall op | op in ops[..n] :: op in ops[..n + 1]
  {
    assert ops[..n + 1][..n] == ops[..n];
    FoldSplit(sem, d, FedBy(ops[..n]), if ops[n].DoFeed? then DataItems(ops[n].batch) else []);
  }

  /** The manifest on disk is read back as it was listed. */
  lemma ManifestBack<D>(sem: Sem<D>, s: State<D>, k: nat)
    requires Inv(sem, s) && k <= |s.content + s.buf| && s.am.incr != []
    ensures DiskAt(s, k).lines == s.disk.lines == Some(Lines(s.listed))
    ensures ParseLines(Lines(s.listed)) == Parsed(s.listed.(dirty := false))
    ensures s.listed.incr == s.am.incr && s.listed.base == s.am.base
  {
    hide Inv, WellFormed, Lines, ParseLines;
    InvFacts(sem, s);
    HeldWellFormed(sem, s);
    RoundTrip(s.listed);
  }

  lemma RestartedInv<D>(sem: Sem<D>, s: State<D>, k: nat, r: Recovery<D>, next: State<D>)
    requires Inv(sem, s) && k <= |s.content + s.buf| && s.am.incr != [] && s.logs != [] && CleanCut(s, k)
    requires r == LoadDisk(sem, DiskAt(s, k)) && r.Recovered?
    requires next == State(DiskAt(s, k).(files := r.files), s.listed.(dirty := false), EncodeAll(Kept(Last(s.logs), k)), [], r.d, -1,
                           None, s.listed, s.base, s.logs[..|s.logs| - 1] + [Kept(Last(s.logs), k)])
    ensures Inv(sem, next)
  {
    hide Inv, LoadDisk, EncodeAll, Kept, OpenMulti;
    RestartKeeps(sem, s, k);
  }

  /** The selected database is not on disk. */
  lemma ForgetSame<D>(sem: Sem<D>, s: State<D>)
    ensures var s' := s.(selectedDb := -1);
            && (s.am.incr != [] ==> forall k | 0 <= k <= |s.content + s.buf| :: DiskAt(s', k) == DiskAt(s, k))
            && (s.logs != [] ==> forall k: nat :: DataAt(sem, s', k) == DataAt(sem, s, k))
  {
    hide Rebuild, CutLogs;
  }

  lemma CrashRecovers<D>(sem: Sem<D>, s: State<D>, k: nat)
    requires Inv(sem, s) && k <= |s.content + s.buf|
    ensures s.am.incr != [] && s.logs != []
    ensures LoadDisk(sem, DiskAt(s, k)).Recovered? && LoadDisk(sem, DiskAt(s, k)).d == DataAt(sem, s, k)
    ensures Recovers(sem, Crash(DiskAt(s, k), DataAt(sem, s, k)))
  {
    hide Inv, LoadDisk, DataAt;
    CrashLoads(sem, s, k);
  }

  /** The file the restarted server finds, and when it is clean. The load cuts this one file, to a
      length at which a crash recovers the same dataset again. */
  lemma RestartFile<D>(sem: Sem<D>, s: State<D>, k: nat)
    requires Inv(sem, s) && k <= |s.content + s.buf|
    ensures s.am.incr != [] && s.logs != []
    ensures var r := LoadDisk(sem, DiskAt(s, k));
            var kept, name := Kept(Last(s.logs), k), Last(s.am.incr).name;
            && r.Recovered? && name in r.files && r.files[name] == Log(EncodeAll(kept))
            && r.files == DiskAt(s, k).files[name := r.files[name]]
            && Recovers(sem, Crash(DiskAt(s, k).(files := r.files), DataAt(sem, s, k)))
            && (Load(EncodeAll(kept), sem.env).status in {AofOk, AofEmpty} <==> CleanCut(s, k))
  {
    hide Inv, EncodeAll, LoadDisk, Kept, Load, DataAt, OpenMulti, Recovers;
    InvFacts(sem, s);
    var kept := Kept(Last(s.logs), k);
    KeptIsPrefix(Last(s.logs), k);
    KeptAgain(sem, s, k);
    LoadedFiles(sem, s, k);
    KeptIsGood(sem, s, k);
    LoadFullLog(kept, sem.env);
    CrashRecovers(sem, s, |EncodeAll(kept)|);
    assert (s.content + s.buf)[..k][..|EncodeAll(kept)|] == (s.content + s.buf)[..|EncodeAll(kept)|];
    assert DiskAt(s, k).files[Last(s.am.incr).name := Log(EncodeAll(kept))] == DiskAt(s, |EncodeAll(kept)|).files;
  }

  lemma KeptIsGood<D>(sem: Sem<D>, s: State<D>, k: nat)
    requires Inv(sem, s) && k <= |s.content + s.buf|
    ensures s.logs != [] && GoodLog(Kept(Last(s.logs), k), sem.env)
  {
    hide Inv, EncodeAll, Kept, Flat, RunAll;
    InvFacts(sem, s);
    KeptIsPrefix(Last(s.logs), k);
  }

  lemma KeptAgain<D>(sem: Sem<D>, s: State<D>, k: nat)
    requires Inv(sem, s) && k <= |s.content + s.buf|
    ensures s.logs != []
    ensures var kept := Kept(Last(s.logs), k);
            |EncodeAll(kept)| <= |s.content + s.buf| && DataAt(sem, s, |EncodeAll(kept)|) == DataAt(sem, s, k)
  {
    hide Inv, EncodeAll, Rebuild, Applied, Kept, Whole;
    InvFacts(sem, s);
    var last, n := Last(s.logs), |s.logs| - 1;
    var kept := Kept(last, k);
    KeptIsPrefix(last, k);
    KeptLog(sem, last, k);
    WholeOfPrefix(last, |kept|);
    assert last[..|kept|] == kept;
    LastLogMatters(sem, s.base, s.logs[..n], last[..Whole(last, k)], kept);
  }

  lemma WholeOfPrefix(cs: seq<Argv>, n: nat)
    requires n <= |cs|
    ensures Whole(cs, |EncodeAll(cs[..n])|) == n
  {
    hide EncodeCommand;
    if n > 0 {
      assert cs[..n][1..] == cs[1..][..n - 1];
      WholeOfPrefix(cs[1..], n - 1);
    } else if cs != [] {
      assert cs[..0] == [] && EncodeAll([]) == [];
      CommandIsLong(cs[0]);
    }
  }

  lemma CommandIsLong(c: Argv)
    ensures |EncodeCommand(c)| > 1
  {}

  /** The input: one command is fed, the forced flush of a rewrite start writes one byte of it and
      cannot remove it again. The new manifest then lists a file behind one that is cut inside a
      command, and the directory does not load. */
  method ShortKeptRewrite<D(!new)>(sem: Sem<D>, rdb: bool, c: Argv) returns (server: AofServer<D>)
    requires Tolerant(sem) && BatchOk(sem, [Item(0, c)])
    ensures server.sem == sem && server.child == Some(server.data) && LoadDisk(sem, server.disk).NoRecovery?
  {
    hide Inv, LoadDisk, OneChange, DataAt, NewIncr, Lines, BatchOk, EncodeAll, FeedMany, DataItems, Fold, BytesWritten, CleanEnd;
    server := new AofServer(sem, rdb);
    server.Feed([Item(0, c)]);
    FedOne(c);
    OneByte(|server.log.buf|);
    var flush := FlushEnv(Never, true, 0, false, false, false, [Wrote(1)], false, true);
    assert server.logs != [];
    OneByteIsNoEnd(Last(server.logs));
    var r, o := server.RewriteStart(StartEnv(flush, true, true, true));
  }

  lemma FedOne(c: Argv)
    ensures |EncodeAll(FeedMany(-1, [Item(0, c)]))| > 1
  {
    CommandIsLong(SelectCommand(0));
    hide EncodeCommand, SelectCommand;
    var fed := FeedMany(-1, [Item(0, c)]);
    assert fed[0] == SelectCommand(0);
  }

  lemma OneByteIsNoEnd(cs: seq<Argv>)
    ensures !CleanEnd(cs, 1)
  {
    if cs != [] {
      CommandIsLong(cs[0]);
    }
    assert cs[..0] == [] && EncodeAll([]) == [];
  }
}
