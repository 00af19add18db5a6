/** The invariant of the append only file protocol and, value by value, the steps that
    keep it. AofProtocol runs these steps in the order of the source. */
module AofInvariant {
  import opened Wrappers
  import opened Resp
  import opened AofLoad
  import opened AofFeed
  import opened AofManifest
  import opened AofDisk

  /** What disk and memory hold at one moment. The last three fields are history that
      the server does not store: the manifest as listed on disk, the dataset in the
      BASE file, and the commands fed to each INCR file. */
  datatype State<D> = State(
    disk: Disk<D>, am: Manifest, content: Bytes, buf: Bytes, data: D, selectedDb: int, child: Option<D>,
    listed: Manifest, base: D, logs: seq<seq<Argv>>)

  /** Disk, memory and the live dataset agree. */
  ghost predicate Inv<D>(sem: Sem<D>, s: State<D>) {
    && Tolerant(sem) && s.logs != []
    && WellFormed(s.am) && s.listed.base == s.am.base && s.listed.incr == s.am.incr
    && Holds(sem, s.disk, s.listed, s.base, s.logs, |s.content|)
    && s.content + s.buf == EncodeAll(Last(s.logs))
    && s.data == Rebuild(sem, s.base, s.logs)
    && (s.selectedDb == -1 || s.selectedDb == Cursor(0, Applied(Last(s.logs)), sem.dbnum))
    && (s.child.Some? ==> s.child.value == Rebuild(sem, s.base, s.logs[..|s.logs| - 1]))
  }

  /** The dataset of the commands wholly within the first k bytes of the open file's log. */
  ghost function DataAt<D>(sem: Sem<D>, s: State<D>, k: nat): D
    requires s.logs != []
  {
    Rebuild(sem, s.base, CutLogs(s.logs, k))
  }

  /** The disk with k bytes of what was fed to the open file in it. */
  function DiskAt<D>(s: State<D>, k: nat): Disk<D>
    requires k <= |s.content + s.buf| && s.am.incr != []
  {
    s.disk.(files := s.disk.files[Last(s.am.incr).name := Log((s.content + s.buf)[..k])])
  }

  lemma InvFacts<D>(sem: Sem<D>, s: State<D>)
    requires Inv(sem, s)
    ensures Tolerant(sem) && s.logs != [] && s.am.incr != [] && WellFormed(s.am)
    ensures s.listed.incr == s.am.incr && s.listed.base == s.am.base && Live(s.listed) == Live(s.am)
    ensures LogOk(sem, Last(s.logs)) && s.content + s.buf == EncodeAll(Last(s.logs))
  {
    hide EncodeAll, Rebuild, Cursor, Applied, Holds, LogOk;
    HeldLastLog(sem, s.disk, s.listed, s.base, s.logs, |s.content|);
  }

  /** The state after a start with an empty directory. */
  ghost function Initial<D>(sem: Sem<D>, rdb: bool): State<D> {
    var m := LastIncr(NewBase(EMPTY, rdb));
    State(Disk(map[BaseName(1, rdb) := Snapshot(sem.empty), IncrName(1) := Log([])], Some(Lines(m))),
          m, [], [], sem.empty, -1, None, m, sem.empty, [[]])
  }

  lemma InitialInv<D>(sem: Sem<D>, rdb: bool)
    requires Tolerant(sem)
    ensures Inv(sem, Initial(sem, rdb))
    ensures Initial(sem, rdb).am.incr == [Info(IncrName(1), 1, Incr)]
  {
    var s := Initial(sem, rdb);
    EmptyLogOk(sem);
    EncodeNothing();
    assert EncodeAll([])[..0] == [];
    NothingExecuted(sem, sem.empty);
    hide LogOk, EncodeAll, Rebuild, Applied, Cursor;
    assert s.am.incr == [Info(IncrName(1), 1, Incr)] && s.am.history == [];
    assert IncrFile(sem, s.disk.files, s.am.incr[0], s.logs[0], 0);
  }

  /** MAIN RESULT. A crash at any moment, with any part of what was fed in the open file
      (a write cut anywhere, or unsynced bytes lost), loads, and to the dataset of the
      commands wholly in the file. */
  lemma CrashLoads<D>(sem: Sem<D>, s: State<D>, k: nat)
    requires Inv(sem, s) && k <= |s.content + s.buf|
    ensures s.am.incr != [] && s.logs != []
    ensures var r := LoadDisk(sem, DiskAt(s, k)); r.Recovered? && r.d == DataAt(sem, s, k)
  {
    hide EncodeAll, Rebuild, LoadDisk, CutLogs, Holds, Cursor, Applied;
    var file := (s.content + s.buf)[..k];
    RewriteLastFile(sem, s.disk, s.listed, s.base, s.logs, |s.content|, file);
    hide WellFormed;
    HeldDiskLoads(sem, DiskAt(s, k), s.listed, s.base, s.logs, k);
  }

  /** With all of the log in the file, nothing is missing. */
  lemma AllFlushed<D>(sem: Sem<D>, s: State<D>)
    requires Inv(sem, s)
    ensures DataAt(sem, s, |s.content + s.buf|) == s.data
  {
    hide EncodeAll, Rebuild, Holds, Cursor, Applied;
    CutNothing(s.logs);
  }

  /** The disk as it is now is the crash disk for the bytes written so far. */
  lemma DiskNow<D>(sem: Sem<D>, s: State<D>)
    requires Inv(sem, s)
    ensures s.am.incr != [] && DiskAt(s, |s.content|) == s.disk
  {
    hide EncodeAll, LogOk, Rebuild, Cursor, Applied, Lines;
    var n := |s.logs| - 1;
    assert IncrFile(sem, s.disk.files, s.listed.incr[n], s.logs[n], |s.content|);
    assert EncodeAll(Last(s.logs))[..|s.content|] == (s.content + s.buf)[..|s.content|];
  }

  lemma FilesKeep<D>(sem: Sem<D>, s: State<D>, files: map<FileName, Content<D>>)
    requires Inv(sem, s)
    requires forall n | n in Live(s.am) && n in s.disk.files :: n in files && files[n] == s.disk.files[n]
    ensures Inv(sem, s.(disk := s.disk.(files := files)))
  {
    hide EncodeAll, Rebuild, Holds, Cursor, Applied, WellFormed;
    OtherFiles(sem, s.disk, files, s.listed, s.base, s.logs, |s.content|);
  }

  lemma FeedKeeps<D>(sem: Sem<D>, s: State<D>, batch: seq<Item>)
    requires Inv(sem, s) && BatchOk(sem, batch)
    ensures var fed := FeedMany(s.selectedDb, batch);
            Inv(sem, s.(buf := s.buf + EncodeAll(fed), data := Fold(sem, s.data, DataItems(batch)),
                        selectedDb := if batch == [] then s.selectedDb else Last(batch).db,
                        logs := s.logs[..|s.logs| - 1] + [Last(s.logs) + fed]))
  {
    hide EncodeAll, FeedMany, Fold, Rebuild, Holds, BatchOk, Cursor, Applied, WellFormed, DataItems;
    FeedExtendsDisk(sem, s.disk, s.listed, s.base, s.logs, |s.content|, s.selectedDb, batch);
    var fed, n := FeedMany(s.selectedDb, batch), |s.logs| - 1;
    var logs := s.logs[..n] + [Last(s.logs) + fed];
    assert logs[..n] == s.logs[..n];
    assert s.content + (s.buf + EncodeAll(fed)) == s.content + s.buf + EncodeAll(fed);
  }

  /** Bytes move from the buffer to the file. */
  lemma FlushKeeps<D>(sem: Sem<D>, s: State<D>, content: Bytes, buf: Bytes)
    requires Inv(sem, s) && s.am.incr != [] && content + buf == s.content + s.buf
    ensures Inv(sem, s.(content := content, buf := buf,
                        disk := s.disk.(files := s.disk.files[Last(s.am.incr).name := Log(content)])))
  {
    hide EncodeAll, Rebuild, Holds, Cursor, Applied, WellFormed;
    RewriteLastFile(sem, s.disk, s.listed, s.base, s.logs, |s.content|, content);
  }

  lemma ForgetSelectedKeeps<D>(sem: Sem<D>, s: State<D>)
    requires Inv(sem, s)
    ensures Inv(sem, s.(selectedDb := -1))
  {
    hide EncodeAll, Rebuild, Holds, Cursor, Applied, WellFormed;
  }

  /** The manifest lists the new, empty INCR file; writing goes on there. */
  lemma SwitchKeeps<D>(sem: Sem<D>, s: State<D>)
    requires Inv(sem, s) && s.buf == [] && s.selectedDb == -1 && s.child.None?
    requires var name := IncrName(s.am.incrSeq + 1); name in s.disk.files && s.disk.files[name] == Log([])
    ensures var next := NewIncr(s.am);
            var s' := s.(disk := s.disk.(lines := Some(Lines(next))), am := next, content := [],
                         listed := next, logs := s.logs + [[]]);
            Inv(sem, s') && Inv(sem, s'.(child := Some(s.data)))
  {
    hide EncodeAll, Rebuild, Holds, Cursor, Applied, Lines;
    NewIncrWellFormed(s.am);
    hide WellFormed;
    assert s.content + [] == s.content;
    PersistSameFiles(sem, s.disk, s.listed, s.am, s.base, s.logs, |s.content|);
    PersistNewIncr(sem, s.disk.(lines := Some(Lines(s.am))), s.am, s.base, s.logs);
    EncodeNothing();
    assert (s.logs + [[]])[..|s.logs|] == s.logs;
  }

  /** The manifest lists the child's snapshot as BASE and only the file being written. */
  lemma SwapKeeps<D>(sem: Sem<D>, s: State<D>, rdb: bool)
    requires Inv(sem, s) && s.child.Some?
    requires var name := BaseName(s.am.baseSeq + 1, rdb); name in s.disk.files && s.disk.files[name] == Snapshot(s.child.value)
    ensures s.am.incr != []
    ensures var next := AfterRewrite(s.am, rdb);
            Inv(sem, s.(disk := s.disk.(lines := Some(Lines(next))), am := next, child := None,
                        listed := next, base := s.child.value, logs := [Last(s.logs)]))
  {
    hide EncodeAll, Rebuild, Holds, Cursor, Applied, Lines, CutLogs;
    AfterRewriteWellFormed(s.am, rdb);
    var cut := |s.content|;
    PersistSameFiles(sem, s.disk, s.listed, s.am, s.base, s.logs, cut);
    hide WellFormed, AfterRewrite;
    PersistRewrite(sem, s.disk.(lines := Some(Lines(s.am))), s.am, s.base, s.logs, cut, rdb, s.child.value);
    SnapshotStandsFor(sem, s.base, s.logs, cut, s.child.value);
  }

  lemma ChildGoneKeeps<D>(sem: Sem<D>, s: State<D>)
    requires Inv(sem, s)
    ensures Inv(sem, s.(child := None))
  {
    hide EncodeAll, Rebuild, Holds, Cursor, Applied, WellFormed;
  }

  /** Memory forgets the history; persisting the manifest as it is. */
  lemma HistoryKeeps<D>(sem: Sem<D>, s: State<D>, dirty: bool)
    requires Inv(sem, s)
    ensures Inv(sem, s.(am := s.am.(history := [], dirty := dirty)))
    ensures Inv(sem, s.(disk := s.disk.(lines := Some(Lines(s.am))), listed := s.am))
    ensures Inv(sem, s.(am := s.am.(dirty := dirty)))
  {
    hide EncodeAll, Rebuild, Holds, Cursor, Applied;
    assert WellFormed(s.am.(history := [], dirty := dirty)) && WellFormed(s.am.(dirty := dirty));
    PersistSameFiles(sem, s.disk, s.listed, s.am, s.base, s.logs, |s.content|);
  }

  /** A load cuts the last file and leaves the others. */
  lemma LoadedFiles<D>(sem: Sem<D>, s: State<D>, k: nat)
    requires Inv(sem, s) && k <= |s.content + s.buf|
    ensures s.am.incr != [] && s.logs != []
    ensures var r := LoadDisk(sem, DiskAt(s, k));
            r.Recovered? && r.files == DiskAt(s, k).files[Last(s.am.incr).name := Log(EncodeAll(Kept(Last(s.logs), k)))]
  {
    InvFacts(sem, s);
    hide EncodeAll, Rebuild, LoadDisk, Cursor, Applied, Kept, CutLogs, WellFormed, Holds, LogOk;
    RewriteLastFile(sem, s.disk, s.listed, s.base, s.logs, |s.content|, (s.content + s.buf)[..k]);
    HeldDiskLoads(sem, DiskAt(s, k), s.listed, s.base, s.logs, k);
  }

  /** Whether what a load leaves of the cut log is a log again: not when the cut is
      inside a command of an open transaction (KeptLog). */
  ghost predicate CleanCut<D>(s: State<D>, k: nat)
    requires s.logs != []
  {
    !OpenMulti(Kept(Last(s.logs), k))
  }

  /** A restarted server: the manifest read back, the dataset loaded, the last file open
      again behind what is left of it. */
  ghost function Restarted<D>(sem: Sem<D>, s: State<D>, k: nat): State<D>
    requires Inv(sem, s) && k <= |s.content + s.buf|
  {
    CrashLoads(sem, s, k);
    var kept := Kept(Last(s.logs), k);
    var r := LoadDisk(sem, DiskAt(s, k));
    State(s.disk.(files := r.files), s.listed.(dirty := false), EncodeAll(kept), [], r.d, -1, None,
          s.listed, s.base, s.logs[..|s.logs| - 1] + [kept])
  }

  lemma RestartKeeps<D>(sem: Sem<D>, s: State<D>, k: nat)
    requires Inv(sem, s) && k <= |s.content + s.buf|
    requires s.logs != [] && CleanCut(s, k)
    ensures Inv(sem, Restarted(sem, s, k))
  {
    hide EncodeAll, Rebuild, LoadDisk, Cursor, Applied, Kept, Holds, WellFormed, LogOk, Live;
    InvFacts(sem, s);
    CrashLoads(sem, s, k);
    CleanKept(sem, Last(s.logs), k);
    RewriteLastFile(sem, s.disk, s.listed, s.base, s.logs, |s.content|, (s.content + s.buf)[..k]);
    HeldWellFormed(sem, s);
    ReloadedDiskHolds(sem, DiskAt(s, k), s.listed, s.base, s.logs, k);
    assert EncodeAll(Kept(Last(s.logs), k)) + [] == EncodeAll(Kept(Last(s.logs), k));
  }

  lemma CleanKept<D>(sem: Sem<D>, cs: seq<Argv>, k: nat)
    requires LogOk(sem, cs) && k <= |EncodeAll(cs)| && !OpenMulti(Kept(cs, k))
    ensures LogOk(sem, Kept(cs, k))
  {
    hide EncodeAll, RunAll, Flat;
    KeptLog(sem, cs, k);
  }

  lemma HeldWellFormed<D>(sem: Sem<D>, s: State<D>)
    requires Inv(sem, s)
    ensures WellFormed(s.listed) && WellFormed(s.listed.(dirty := false))
    ensures s.disk.lines == Some(Lines(s.listed))
  {}

  // ----- datasets that remember -----

  /** Command semantics that remember everything: the dataset is its own history. */
  function HistorySem(dbnum: nat, env: Env): Sem<seq<Item>> {
    Sem((h: seq<Item>, it) => h + [it], [], dbnum, env)
  }

  lemma {:induction false} HistoryFold(dbnum: nat, env: Env, h: seq<Item>, items: seq<Item>)
    ensures Fold(HistorySem(dbnum, env), h, items) == h + items
    decreases items
  {
    if items == [] {
      assert h + items == h;
    } else {
      HistoryFold(dbnum, env, h + [items[0]], items[1..]);
      assert h + [items[0]] + items[1..] == h + items;
    }
  }
}
