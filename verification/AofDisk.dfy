/** The AOF directory as a value: what loading it gives, and which disk states hold
    which dataset. Everything here is about one moment; AofProtocol adds the steps. */
module AofDisk {
  import opened Wrappers
  import opened Resp
  import opened AofLoad
  import opened AofFeed
  import opened AofManifest

  /** A BASE file is a snapshot of the dataset; an INCR file is a log. */
  datatype Content<D> = Snapshot(d: D) | Log(bytes: Bytes)

  datatype Disk<D> = Disk(files: map<FileName, Content<D>>, lines: Option<seq<Info>>)

  /** What commands do to a dataset, and the loader's environment. Nothing below
      depends on the choice of either. */
  datatype Sem<!D> = Sem(apply: (D, Item) -> D, empty: D, dbnum: nat, env: Env)

  function Fold<D>(sem: Sem<D>, d: D, items: seq<Item>): D
    decreases items
  {
    if items == [] then d else Fold(sem, sem.apply(d, items[0]), items[1..])
  }

  /** Executing commands with a fresh client on database 0. */
  function Execute<D>(sem: Sem<D>, d: D, cs: seq<Argv>): D {
    Fold(sem, d, Targets(0, cs, sem.dbnum))
  }

  lemma {:induction false} FoldSplit<D>(sem: Sem<D>, d: D, a: seq<Item>, b: seq<Item>)
    ensures Fold(sem, d, a + b) == Fold(sem, Fold(sem, d, a), b)
    decreases a
  {
    if a == [] {
      assert a + b == b;
    } else {
      assert (a + b)[1..] == a[1..] + b;
      FoldSplit(sem, sem.apply(d, a[0]), a[1..], b);
    }
  }

  // ----- loading -----

  datatype Recovery<D> = Recovered(d: D, files: map<FileName, Content<D>>) | NoRecovery

  function Take(bytes: Bytes, n: nat): Bytes { if n <= |bytes| then bytes[..n] else bytes }

  /** One file; a truncated file is only acceptable as the last one. */
  function LoadFile<D>(sem: Sem<D>, d: D, files: map<FileName, Content<D>>, name: FileName, last: bool): Recovery<D> {
    if name !in files then NoRecovery
    else match files[name]
      case Snapshot(s) => Recovered(s, files)
      case Log(bytes) =>
        var r := Load(bytes, sem.env);
        if r.status == AofFailed || (r.status == AofTruncated && !last) then NoRecovery
        else Recovered(Execute(sem, d, r.applied), files[name := Log(Take(bytes, r.length))])
  }

  function LoadIncrs<D>(sem: Sem<D>, d: D, files: map<FileName, Content<D>>, incr: seq<Info>): Recovery<D>
    decreases incr
  {
    if incr == [] then Recovered(d, files)
    else match LoadFile(sem, d, files, incr[0].name, |incr| == 1)
      case NoRecovery => NoRecovery
      case Recovered(d', files') => LoadIncrs(sem, d', files', incr[1..])
  }

  /** Start-up: read the manifest, then the BASE file, then the INCR files in order. */
  function LoadDisk<D>(sem: Sem<D>, disk: Disk<D>): Recovery<D> {
    if disk.lines.None? then Recovered(sem.empty, disk.files)
    else match ParseLines(disk.lines.value)
      case Rejected(_) => NoRecovery
      case Parsed(am) =>
        if am.base.None? then LoadIncrs(sem, sem.empty, disk.files, am.incr)
        else match LoadFile(sem, sem.empty, disk.files, am.base.value.name, am.incr == [])
          case NoRecovery => NoRecovery
          case Recovered(d, files) => LoadIncrs(sem, d, files, am.incr)
  }

  /** loadAppendOnlyFiles */
  method LoadAppendOnlyFiles<D>(sem: Sem<D>, disk: Disk<D>) returns (r: Recovery<D>)
    ensures r == LoadDisk(sem, disk)
  {
    hide Load, ParseLines, LoadFile;
    if disk.lines.None? { return Recovered(sem.empty, disk.files); }
    var parsed := ParseManifestFile(disk.lines.value);
    if parsed.Rejected? { return NoRecovery; }
    var am := parsed.am;
    r := Recovered(sem.empty, disk.files);
    if am.base.Some? {
      r := LoadFile(sem, sem.empty, disk.files, am.base.value.name, am.incr == []);
      if r.NoRecovery? { return; }
    }
    for i := 0 to |am.incr|
      invariant r.Recovered? && LoadDisk(sem, disk) == LoadIncrs(sem, r.d, r.files, am.incr[i..])
    {
      assert am.incr[i..][1..] == am.incr[i + 1..];
      r := LoadFile(sem, r.d, r.files, am.incr[i].name, i + 1 == |am.incr|);
      if r.NoRecovery? { return; }
    }
  }

  // ----- what a disk holds -----

  /** A log as the server writes it: well formed commands, transactions not nested and closed. */
  ghost predicate LogOk<D>(sem: Sem<D>, cs: seq<Argv>) {
    GoodLog(cs, sem.env) && Flat(FRESH, cs) && !OpenMulti(cs)
  }

  function Applied(cs: seq<Argv>): seq<Argv> { RunAll(FRESH, cs).applied }

  /** The dataset a snapshot and the logs behind it stand for. */
  function Rebuild<D>(sem: Sem<D>, d: D, logs: seq<seq<Argv>>): D
    decreases logs
  {
    if logs == [] then d else Rebuild(sem, Execute(sem, d, Applied(logs[0])), logs[1..])
  }

  lemma {:induction false} RebuildSplit<D>(sem: Sem<D>, d: D, a: seq<seq<Argv>>, b: seq<seq<Argv>>)
    ensures Rebuild(sem, d, a + b) == Rebuild(sem, Rebuild(sem, d, a), b)
    decreases a
  {
    if a == [] {
      assert a + b == b;
    } else {
      assert (a + b)[1..] == a[1..] + b;
      RebuildSplit(sem, Execute(sem, d, Applied(a[0])), a[1..], b);
    }
  }

  /** The logs when only `cut` bytes of the last one are in its file. */
  function CutLogs(logs: seq<seq<Argv>>, cut: nat): seq<seq<Argv>>
    requires logs != []
  {
    logs[..|logs| - 1] + [Last(logs)[..Whole(Last(logs), cut)]]
  }

  lemma CutNothing(logs: seq<seq<Argv>>)
    requires logs != []
    ensures CutLogs(logs, |EncodeAll(Last(logs))|) == logs
  {
    WholeOfWhole(Last(logs));
    assert Last(logs)[..|Last(logs)|] == Last(logs);
  }

  ghost predicate IncrFile<D>(sem: Sem<D>, files: map<FileName, Content<D>>, info: Info, cs: seq<Argv>, cut: nat) {
    && LogOk(sem, cs) && cut <= |EncodeAll(cs)|
    && info.name in files && files[info.name] == Log(EncodeAll(cs)[..cut])
  }

  /** The INCR files hold the logs, all of them complete but the last. */
  ghost predicate IncrFiles<D>(sem: Sem<D>, files: map<FileName, Content<D>>, incr: seq<Info>, logs: seq<seq<Argv>>, cut: nat)
    requires |incr| == |logs|
  {
    forall i | 0 <= i < |incr| ::
      IncrFile(sem, files, incr[i], logs[i], if i == |logs| - 1 then cut else |EncodeAll(logs[i])|)
  }

  /** The disk holds snapshot `d` followed by `logs`, the last cut after `cut` bytes. */
  ghost predicate Holds<D>(sem: Sem<D>, disk: Disk<D>, am: Manifest, d: D, logs: seq<seq<Argv>>, cut: nat) {
    && WellFormed(am) && disk.lines == Some(Lines(am))
    && am.base.value.name in disk.files && disk.files[am.base.value.name] == Snapshot(d)
    && |am.incr| == |logs|
    && IncrFiles(sem, disk.files, am.incr, logs, cut)
  }

  ghost predicate Tolerant<D>(sem: Sem<D>) { sem.env.loadTruncated && sem.env.truncateOk }

  lemma LoadCutFile<D>(sem: Sem<D>, d: D, files: map<FileName, Content<D>>, info: Info, cs: seq<Argv>, cut: nat, last: bool)
    requires Tolerant(sem) && IncrFile(sem, files, info, cs, cut)
    requires last || cut == |EncodeAll(cs)|
    ensures var r := LoadFile(sem, d, files, info.name, last);
            && r.Recovered? && r.d == Execute(sem, d, Applied(cs[..Whole(cs, cut)]))
            && r.files == files[info.name := Log(EncodeAll(Kept(cs, cut)))]
  {
    hide Load, RunAll, Execute, EncodeAll, LastMulti;
    KeptIsPrefix(cs, cut);
    if cut == 0 {
      assert EncodeAll(cs)[..0] == [];
      NothingToLoad(sem.env, cs);
    } else {
      LoadCutLog(cs, cut, sem.env);
      if cut == |EncodeAll(cs)| {
        WholeOfWhole(cs);
        assert cs[..|cs|] == cs;
      }
    }
  }

  /** The log in a file that was loaded when `cut` bytes of it were there. */
  ghost function Kept(cs: seq<Argv>, cut: nat): seq<Argv> {
    var whole := cs[..Whole(cs, cut)];
    if cut == |EncodeAll(whole)| && OpenMulti(whole) then whole[..LastMulti(whole)] else whole
  }

  lemma KeptIsPrefix(cs: seq<Argv>, cut: nat)
    requires cut <= |EncodeAll(cs)|
    ensures Kept(cs, cut) <= cs
    ensures |EncodeAll(Kept(cs, cut))| <= cut
    ensures EncodeAll(Kept(cs, cut)) == EncodeAll(cs)[..cut][..|EncodeAll(Kept(cs, cut))|]
    ensures Kept(cs, |EncodeAll(cs)|) == cs || OpenMulti(cs)
  {
    hide EncodeAll, Whole, RunAll, LastMulti;
    WholeIsLargest(cs, cut);
    WholeOfWhole(cs);
    assert cs[..|cs|] == cs;
    var whole, kept := cs[..Whole(cs, cut)], Kept(cs, cut);
    assert whole == kept + whole[|kept|..];
    EncodeAllAppend(kept, whole[|kept|..]);
  }

  lemma FullFileUnchanged<D>(sem: Sem<D>, files: map<FileName, Content<D>>, info: Info, cs: seq<Argv>)
    requires IncrFile(sem, files, info, cs, |EncodeAll(cs)|)
    ensures files[info.name := Log(EncodeAll(Kept(cs, |EncodeAll(cs)|)))] == files
  {
    KeptIsPrefix(cs, |EncodeAll(cs)|);
    hide EncodeAll, Kept;
    var e := EncodeAll(cs);
    assert e[..|e|] == e;
  }

  lemma NothingToLoad(env: Env, cs: seq<Argv>)
    ensures Load([], env) == Loaded(AofEmpty, [], 0)
    ensures Whole(cs, 0) == 0 && Applied(cs[..Whole(cs, 0)]) == []
  {
    if cs != [] { assert EncodeCommand(cs[0]) != []; }
    assert cs[..0] == [];
  }

  lemma {:induction false} LoadIncrsHeld<D>(sem: Sem<D>, d: D, files: map<FileName, Content<D>>, incr: seq<Info>, logs: seq<seq<Argv>>, cut: nat)
    requires Tolerant(sem) && |incr| == |logs| && incr != [] && Ascending(incr)
    requires IncrFiles(sem, files, incr, logs, cut)
    ensures var r := LoadIncrs(sem, d, files, incr);
            && r.Recovered? && r.d == Rebuild(sem, d, CutLogs(logs, cut))
            && r.files == files[Last(incr).name := Log(EncodeAll(Kept(Last(logs), cut)))]
    decreases incr
  {
    hide Kept, LoadFile, Execute, Applied, Whole, EncodeAll, LogOk;
    var n := if |logs| == 1 then cut else |EncodeAll(logs[0])|;
    assert IncrFile(sem, files, incr[0], logs[0], n);
    LoadCutFile(sem, d, files, incr[0], logs[0], n, |incr| == 1);
    var r := LoadFile(sem, d, files, incr[0].name, |incr| == 1);
    if |incr| == 1 {
      assert incr[1..] == [];
      assert CutLogs(logs, cut) == [logs[0][..Whole(logs[0], cut)]];
      assert CutLogs(logs, cut)[1..] == [];
    } else {
      WholeOfWhole(logs[0]);
      assert logs[0][..|logs[0]|] == logs[0];
      FullFileUnchanged(sem, files, incr[0], logs[0]);
      assert IncrFiles(sem, r.files, incr[1..], logs[1..], cut) by {
        forall i | 0 <= i < |incr[1..]|
          ensures IncrFile(sem, r.files, incr[1..][i], logs[1..][i], if i == |logs[1..]| - 1 then cut else |EncodeAll(logs[1..][i])|)
        {
          assert IncrFile(sem, files, incr[i + 1], logs[i + 1], if i + 1 == |logs| - 1 then cut else |EncodeAll(logs[i + 1])|);
          assert incr[0].seqno < incr[i + 1].seqno;
        }
      }
      LoadIncrsHeld(sem, r.d, r.files, incr[1..], logs[1..], cut);
      assert CutLogs(logs, cut) == [logs[0]] + CutLogs(logs[1..], cut);
      assert ([logs[0]] + CutLogs(logs[1..], cut))[1..] == CutLogs(logs[1..], cut);
    }
  }

  /** MAIN RESULT (one moment). A disk that holds a snapshot and logs loads, and to the
      dataset they stand for, up to the commands not wholly in the last file. */
  lemma HeldDiskLoads<D>(sem: Sem<D>, disk: Disk<D>, am: Manifest, d: D, logs: seq<seq<Argv>>, cut: nat)
    requires Tolerant(sem) && Holds(sem, disk, am, d, logs, cut)
    ensures var r := LoadDisk(sem, disk);
            && r.Recovered? && r.d == Rebuild(sem, d, CutLogs(logs, cut))
            && r.files == disk.files[Last(am.incr).name := Log(EncodeAll(Kept(Last(logs), cut)))]
  {
    hide Kept, LoadIncrs, Rebuild, CutLogs, IncrFiles, ParseLines;
    RoundTrip(am);
    LoadIncrsHeld(sem, d, disk.files, am.incr, logs, cut);
  }

  // ----- what keeps it -----

  /** Files the manifest does not list as BASE or INCR do not matter. */
  lemma OtherFiles<D>(sem: Sem<D>, disk: Disk<D>, files: map<FileName, Content<D>>, am: Manifest, d: D, logs: seq<seq<Argv>>, cut: nat)
    requires Holds(sem, disk, am, d, logs, cut)
    requires forall n | n in Live(am) && n in disk.files :: n in files && files[n] == disk.files[n]
    ensures Holds(sem, disk.(files := files), am, d, logs, cut)
  {
    assert am.base.value.name in Live(am);
    hide WellFormed, LogOk, EncodeAll;
    forall i | 0 <= i < |am.incr|
      ensures IncrFile(sem, files, am.incr[i], logs[i], if i == |logs| - 1 then cut else |EncodeAll(logs[i])|)
    {
      assert IncrFile(sem, disk.files, am.incr[i], logs[i], if i == |logs| - 1 then cut else |EncodeAll(logs[i])|);
      assert am.incr[i] in am.incr && am.incr[i].name in Live(am);
    }
  }

  lemma EmptyLogOk<D>(sem: Sem<D>)
    ensures LogOk(sem, [])
  {}

  /** A new empty INCR file behind complete ones changes nothing. */
  lemma PersistNewIncr<D>(sem: Sem<D>, disk: Disk<D>, am: Manifest, d: D, logs: seq<seq<Argv>>)
    requires logs != [] && Holds(sem, disk, am, d, logs, |EncodeAll(Last(logs))|)
    requires var name := IncrName(am.incrSeq + 1); name in disk.files && disk.files[name] == Log([])
    ensures Holds(sem, disk.(lines := Some(Lines(NewIncr(am)))), NewIncr(am), d, logs + [[]], 0)
    ensures Rebuild(sem, d, logs + [[]]) == Rebuild(sem, d, logs)
  {
    NewIncrWellFormed(am);
    EmptyLogOk(sem);
    assert EncodeAll([]) == [] && EncodeAll([])[..0] == [];
    hide WellFormed, LogOk, EncodeAll, Lines;
    var r, more := NewIncr(am), logs + [[]];
    forall i | 0 <= i < |r.incr|
      ensures IncrFile(sem, disk.files, r.incr[i], more[i], if i == |more| - 1 then 0 else |EncodeAll(more[i])|)
    {
      if i < |am.incr| {
        assert IncrFile(sem, disk.files, am.incr[i], logs[i], |EncodeAll(logs[i])|);
      }
    }
    RebuildSplit(sem, d, logs, [[]]);
    NothingExecuted(sem, Rebuild(sem, d, logs));
  }

  lemma NothingExecuted<D>(sem: Sem<D>, d: D)
    ensures Rebuild(sem, d, [[]]) == d
  {
    var one: seq<seq<Argv>> := [[]];
    assert one[1..] == [];
    assert Applied([]) == [] && Targets(0, [], sem.dbnum) == [];
  }

  /** A finished rewrite: the snapshot replaces the old base and all complete INCR files. */
  lemma PersistRewrite<D>(sem: Sem<D>, disk: Disk<D>, am: Manifest, d: D, logs: seq<seq<Argv>>, cut: nat, rdb: bool, snap: D)
    requires logs != [] && Holds(sem, disk, am, d, logs, cut)
    requires var name := BaseName(am.baseSeq + 1, rdb); name in disk.files && disk.files[name] == Snapshot(snap)
    ensures Holds(sem, disk.(lines := Some(Lines(AfterRewrite(am, rdb)))), AfterRewrite(am, rdb), snap, [Last(logs)], cut)
  {
    AfterRewriteWellFormed(am, rdb);
    assert AfterRewrite(am, rdb).base.value.name == BaseName(am.baseSeq + 1, rdb);
    var k := |logs| - 1;
    assert IncrFile(sem, disk.files, am.incr[k], logs[k], cut);
    hide WellFormed, LogOk, EncodeAll, Lines, AfterRewrite;
  }

  /** The snapshot taken behind the complete logs stands for them, whatever follows. */
  lemma SnapshotStandsFor<D>(sem: Sem<D>, d: D, logs: seq<seq<Argv>>, cut: nat, snap: D)
    requires logs != [] && snap == Rebuild(sem, d, logs[..|logs| - 1])
    ensures Rebuild(sem, snap, CutLogs([Last(logs)], cut)) == Rebuild(sem, d, CutLogs(logs, cut))
    ensures Rebuild(sem, snap, [Last(logs)]) == Rebuild(sem, d, logs)
  {
    hide Rebuild, Whole;
    var k := |logs| - 1;
    assert CutLogs([Last(logs)], cut) == [Last(logs)[..Whole(Last(logs), cut)]];
    RebuildSplit(sem, d, logs[..k], [Last(logs)[..Whole(Last(logs), cut)]]);
    RebuildSplit(sem, d, logs[..k], [Last(logs)]);
    assert logs[..k] + [Last(logs)] == logs;
  }

  /** History entries do not matter: any manifest with the same BASE and INCR files. */
  lemma PersistSameFiles<D>(sem: Sem<D>, disk: Disk<D>, am: Manifest, r: Manifest, d: D, logs: seq<seq<Argv>>, cut: nat)
    requires Holds(sem, disk, am, d, logs, cut)
    requires WellFormed(r) && r.base == am.base && r.incr == am.incr
    ensures Holds(sem, disk.(lines := Some(Lines(r))), r, d, logs, cut)
  {}

  // ----- what a reload leaves -----

  lemma {:induction false} FlatPrefix(k: Client, cs: seq<Argv>, n: nat)
    requires Flat(k, cs) && n <= |cs|
    ensures Flat(k, cs[..n])
    ensures n < |cs| && IsMulti(cs[n]) ==> !RunAll(k, cs[..n]).inMulti
    decreases cs
  {
    if n > 0 {
      assert cs[..n][1..] == cs[1..][..n - 1];
      FlatPrefix(RunCommand(k, cs[0]), cs[1..], n - 1);
    }
  }

  lemma {:induction false} LastMultiIsMulti(cs: seq<Argv>)
    requires OpenMulti(cs)
    ensures LastMulti(cs) < |cs| && IsMulti(cs[LastMulti(cs)])
  {
    if cs != [] {
      var init, last := cs[..|cs| - 1], cs[|cs| - 1];
      assert cs == init + [last];
      RunAllSplit(FRESH, init, [last]);
      OneCommandRun(RunAll(FRESH, init), last);
      if !IsMulti(last) { LastMultiIsMulti(init); }
    }
  }

  lemma OneCommandRun(k: Client, c: Argv)
    ensures RunAll(k, [c]) == RunCommand(k, c)
  {
    assert [c][1..] == [];
    assert RunAll(RunCommand(k, c), []) == RunCommand(k, c);
  }

  /** The log that survives a crash and a load is a log the server could have written,
      except exactly when the crash cut a command inside an open transaction. It
      executes the same commands as the cut log in every case. */
  lemma KeptLog<D>(sem: Sem<D>, cs: seq<Argv>, cut: nat)
    requires LogOk(sem, cs) && cut <= |EncodeAll(cs)|
    ensures var whole := cs[..Whole(cs, cut)];
            && Applied(Kept(cs, cut)) == Applied(whole)
            && (LogOk(sem, Kept(cs, cut)) <==> !(OpenMulti(whole) && cut != |EncodeAll(whole)|))
  {
    hide EncodeAll, Whole, LastMulti, RunAll, Flat;
    var whole, kept := cs[..Whole(cs, cut)], Kept(cs, cut);
    FlatPrefix(FRESH, cs, |whole|);
    KeptIsPrefix(cs, cut);
    assert GoodLog(kept, sem.env);
    if OpenMulti(whole) {
      LastMultiIsMulti(whole);
      BackToMulti(whole);
      FlatPrefix(FRESH, whole, LastMulti(whole));
    }
  }

  /** What a cut inside an open transaction costs: the file keeps the open MULTI, and
      everything appended behind it, up to the next EXEC, is not executed on reload. */
  lemma {:induction false} AppendedBehindOpenMulti(cs: seq<Argv>, more: seq<Argv>)
    requires OpenMulti(cs) && forall c | c in more :: !IsExec(c)
    ensures OpenMulti(cs + more) && Applied(cs + more) == Applied(cs)
    decreases more
  {
    if more == [] {
      assert cs + more == cs;
    } else {
      var c := more[0];
      assert cs + more == (cs + [c]) + more[1..];
      RunAllSplit(FRESH, cs, [c]);
      OneCommandRun(RunAll(FRESH, cs), c);
      AppendedBehindOpenMulti(cs + [c], more[1..]);
    }
  }

  /** Replacing the last file by another complete log. */
  lemma ReplaceLastLog<D>(sem: Sem<D>, disk: Disk<D>, am: Manifest, d: D, logs: seq<seq<Argv>>, cut: nat, kept: seq<Argv>)
    requires logs != [] && Holds(sem, disk, am, d, logs, cut) && LogOk(sem, kept)
    ensures var files := disk.files[Last(am.incr).name := Log(EncodeAll(kept))];
            Holds(sem, disk.(files := files), am, d, logs[..|logs| - 1] + [kept], |EncodeAll(kept)|)
  {
    hide EncodeAll, LogOk, Lines;
    var n := |logs| - 1;
    var logs' := logs[..n] + [kept];
    var files := disk.files[Last(am.incr).name := Log(EncodeAll(kept))];
    assert EncodeAll(kept)[..|EncodeAll(kept)|] == EncodeAll(kept);
    forall i | 0 <= i < |am.incr|
      ensures IncrFile(sem, files, am.incr[i], logs'[i], |EncodeAll(logs'[i])|)
    {
      if i < n {
        assert IncrFile(sem, disk.files, am.incr[i], logs[i], |EncodeAll(logs[i])|);
        assert am.incr[i].seqno < am.incr[n].seqno;
      }
    }
    assert am.incr[n].name != am.base.value.name;
  }

  /** A reloaded disk holds what was recovered. */
  lemma ReloadedDiskHolds<D>(sem: Sem<D>, disk: Disk<D>, am: Manifest, d: D, logs: seq<seq<Argv>>, cut: nat)
    requires logs != [] && Tolerant(sem) && Holds(sem, disk, am, d, logs, cut)
    requires LogOk(sem, Kept(Last(logs), cut))
    ensures var kept := Kept(Last(logs), cut);
            var logs' := logs[..|logs| - 1] + [kept];
            var r := LoadDisk(sem, disk);
            && r.Recovered?
            && Holds(sem, disk.(files := r.files), am, d, logs', |EncodeAll(kept)|)
            && Rebuild(sem, d, logs') == r.d
  {
    hide Kept, EncodeAll, LogOk, LoadDisk, Rebuild, Whole, Applied;
    var n, last := |logs| - 1, Last(logs);
    assert IncrFile(sem, disk.files, am.incr[n], logs[n], cut);
    HeldDiskLoads(sem, disk, am, d, logs, cut);
    KeptLog(sem, last, cut);
    ReplaceLastLog(sem, disk, am, d, logs, cut, Kept(last, cut));
    LastLogMatters(sem, d, logs[..n], last[..Whole(last, cut)], Kept(last, cut));
  }

  lemma LastLogMatters<D>(sem: Sem<D>, d: D, logs: seq<seq<Argv>>, a: seq<Argv>, b: seq<Argv>)
    requires Applied(a) == Applied(b)
    ensures Rebuild(sem, d, logs + [a]) == Rebuild(sem, d, logs + [b])
  {
    RebuildSplit(sem, d, logs, [a]);
    RebuildSplit(sem, d, logs, [b]);
    assert [a][1..] == [] && [b][1..] == [];
  }

  lemma HeldLastLog<D>(sem: Sem<D>, disk: Disk<D>, am: Manifest, d: D, logs: seq<seq<Argv>>, cut: nat)
    requires logs != [] && Holds(sem, disk, am, d, logs, cut)
    ensures LogOk(sem, Last(logs)) && am.incr != [] && |am.incr| == |logs| && WellFormed(am)
    ensures cut <= |EncodeAll(Last(logs))|
  {
    hide EncodeAll, LogOk, WellFormed, Lines;
    assert IncrFile(sem, disk.files, am.incr[|logs| - 1], logs[|logs| - 1], cut);
  }

  lemma EncodeNothing()
    ensures EncodeAll([]) == []
  {}

  /** Rebuild, seen from the last log. */
  lemma RebuildLast<D>(sem: Sem<D>, d: D, logs: seq<seq<Argv>>, last: seq<Argv>)
    ensures Rebuild(sem, d, logs + [last]) == Execute(sem, Rebuild(sem, d, logs), Applied(last))
  {
    RebuildSplit(sem, d, logs, [last]);
    assert [last][1..] == [];
    hide Execute, Applied;
  }

  /** The last file may hold any part of any log that extends the one it had. */
  lemma ExtendLastLog<D>(sem: Sem<D>, disk: Disk<D>, am: Manifest, d: D, logs: seq<seq<Argv>>, cut: nat, more: seq<Argv>)
    requires logs != [] && Holds(sem, disk, am, d, logs, cut)
    requires LogOk(sem, Last(logs) + more)
    ensures Holds(sem, disk, am, d, logs[..|logs| - 1] + [Last(logs) + more], cut)
  {
    EncodeAllAppend(Last(logs), more);
    hide EncodeAll, LogOk, Lines, WellFormed;
    var n := |logs| - 1;
    var logs' := logs[..n] + [Last(logs) + more];
    assert IncrFile(sem, disk.files, am.incr[n], logs[n], cut);
    assert EncodeAll(logs'[n])[..cut] == EncodeAll(logs[n])[..cut];
    forall i | 0 <= i < |logs'|
      ensures IncrFile(sem, disk.files, am.incr[i], logs'[i], if i == n then cut else |EncodeAll(logs'[i])|)
    {
      if i < n { assert IncrFile(sem, disk.files, am.incr[i], logs[i], |EncodeAll(logs[i])|); }
    }
  }

  /** The last file may hold any part of its log. */
  lemma RewriteLastFile<D>(sem: Sem<D>, disk: Disk<D>, am: Manifest, d: D, logs: seq<seq<Argv>>, cut: nat, bytes: Bytes)
    requires logs != [] && Holds(sem, disk, am, d, logs, cut) && bytes <= EncodeAll(Last(logs))
    ensures var files := disk.files[Last(am.incr).name := Log(bytes)];
            Holds(sem, disk.(files := files), am, d, logs, |bytes|)
  {
    hide EncodeAll, LogOk, Lines;
    var n := |logs| - 1;
    var files := disk.files[Last(am.incr).name := Log(bytes)];
    assert EncodeAll(Last(logs))[..|bytes|] == bytes;
    assert IncrFile(sem, disk.files, am.incr[n], logs[n], cut);
    forall i | 0 <= i < |am.incr|
      ensures IncrFile(sem, files, am.incr[i], logs[i], if i == n then |bytes| else |EncodeAll(logs[i])|)
    {
      if i < n {
        assert IncrFile(sem, disk.files, am.incr[i], logs[i], |EncodeAll(logs[i])|);
        assert am.incr[i].seqno < am.incr[n].seqno;
      }
    }
    assert am.incr[n].name != am.base.value.name;
  }

  // ----- what feeding adds -----

  /** Batches as the server propagates them: single commands and closed transactions. */
  ghost predicate Closed(items: seq<Item>, open: bool)
    decreases items
  {
    if items == [] then !open
    else if IsMulti(items[0].argv) then !open && Closed(items[1..], true)
    else if IsExec(items[0].argv) then open && Closed(items[1..], false)
    else Closed(items[1..], open)
  }

  ghost predicate BatchOk<D>(sem: Sem<D>, batch: seq<Item>) {
    && Closed(batch, false)
    && forall it | it in batch ::
         Feedable(it, sem.dbnum) && sem.env.known(it.argv) && sem.env.known(SelectCommand(it.db))
  }

  lemma FlatSplit(k: Client, a: seq<Argv>, b: seq<Argv>)
    requires Flat(k, a) && Flat(RunAll(k, a), b)
    ensures Flat(k, a + b)
    decreases a
  {
    if a == [] {
      assert a + b == b;
    } else {
      assert (a + b)[1..] == a[1..] + b;
      FlatSplit(RunCommand(k, a[0]), a[1..], b);
    }
  }

  lemma OneCommand(k: Client, c: Argv)
    requires !(k.inMulti && IsMulti(c))
    ensures Flat(k, [c]) && RunAll(k, [c]) == RunCommand(k, c)
  {
    OneCommandRun(k, c);
    assert [c][1..] == [] && Flat(RunCommand(k, c), []);
  }

  lemma FeedOneClient(k: Client, selected: int, it: Item, dbnum: nat)
    requires Feedable(it, dbnum)
    requires !(k.inMulti && IsMulti(it.argv)) && (IsExec(it.argv) ==> k.inMulti)
    ensures Flat(k, FeedOne(selected, it))
    ensures RunAll(k, FeedOne(selected, it)).inMulti ==
            if IsMulti(it.argv) then true else if IsExec(it.argv) then false else k.inMulti
  {
    var sel := SelectCommand(it.db);
    SelectWorks(it.db, 0, dbnum);
    MultiIsNotExec(it.argv);
    hide SelectCommand, IsMulti, IsExec;
    assert [it.argv][1..] == [] && [sel, it.argv][1..] == [it.argv];
    var k1 := RunCommand(k, sel);
    assert k1.inMulti == k.inMulti;
    OneCommand(k, it.argv);
    OneCommand(k1, it.argv);
    assert RunAll(k, [sel, it.argv]) == RunAll(k1, [it.argv]);
  }

  lemma {:induction false} FeedManyClient(k: Client, selected: int, items: seq<Item>, dbnum: nat)
    requires forall it | it in items :: Feedable(it, dbnum)
    requires Closed(items, k.inMulti)
    ensures Flat(k, FeedMany(selected, items)) && !RunAll(k, FeedMany(selected, items)).inMulti
    decreases items
  {
    if items != [] { MultiIsNotExec(items[0].argv); }
    hide FeedOne, Feedable, IsMulti, IsExec;
    if items != [] {
      var one := FeedOne(selected, items[0]);
      var more := FeedMany(items[0].db, items[1..]);
      FeedOneClient(k, selected, items[0], dbnum);
      FeedManyClient(RunAll(k, one), items[0].db, items[1..], dbnum);
      FlatSplit(k, one, more);
      RunAllSplit(k, one, more);
    }
  }

  lemma {:induction false} FeedManyGood<D>(sem: Sem<D>, selected: int, items: seq<Item>)
    requires forall it | it in items ::
               Feedable(it, sem.dbnum) && sem.env.known(it.argv) && sem.env.known(SelectCommand(it.db))
    ensures GoodLog(FeedMany(selected, items), sem.env)
    decreases items
  {
    if items != [] {
      FeedManyGood(sem, items[0].db, items[1..]);
      DigitsFitLine(items[0].db);
    }
  }

  /** MAIN RESULT (feeding). Appending what a batch feeds to a well formed log executes,
      on reload, exactly the batch's data commands on their own databases, after
      everything that was there before. */
  lemma FeedExtendsLog<D>(sem: Sem<D>, d: D, cs: seq<Argv>, selected: int, batch: seq<Item>)
    requires LogOk(sem, cs) && BatchOk(sem, batch)
    requires selected == -1 || selected == Cursor(0, Applied(cs), sem.dbnum)
    ensures var all := cs + FeedMany(selected, batch);
            && LogOk(sem, all)
            && Execute(sem, d, Applied(all)) == Fold(sem, Execute(sem, d, Applied(cs)), DataItems(batch))
            && (batch != [] ==> Cursor(0, Applied(all), sem.dbnum) == Last(batch).db)
            && (batch == [] ==> all == cs)
  {
    var fed, at := FeedMany(selected, batch), Cursor(0, Applied(cs), sem.dbnum);
    FeedManyGood(sem, selected, batch);
    FeedManyClient(RunAll(FRESH, cs), selected, batch, sem.dbnum);
    AppliedSplit(cs, fed);
    FeedTargets(selected, at, batch, sem.dbnum);
    if batch == [] { assert FeedMany(selected, []) == [] && cs + [] == cs; }
    hide Feedable, FeedMany, Closed, Fold, RunAll, Flat, Applied, Plain, Targets, Cursor;
    TargetsSplit(0, Applied(cs), Plain(fed), sem.dbnum);
    FoldSplit(sem, d, Targets(0, Applied(cs), sem.dbnum), DataItems(batch));
  }

  /** ... and the same on disk: what feeding does to the logs behind a base. */
  lemma FeedExtendsDisk<D>(sem: Sem<D>, disk: Disk<D>, am: Manifest, d: D, logs: seq<seq<Argv>>, cut: nat, selected: int, batch: seq<Item>)
    requires logs != [] && Holds(sem, disk, am, d, logs, cut) && BatchOk(sem, batch)
    requires selected == -1 || selected == Cursor(0, Applied(Last(logs)), sem.dbnum)
    ensures var last := Last(logs) + FeedMany(selected, batch);
            var logs' := logs[..|logs| - 1] + [last];
            && Holds(sem, disk, am, d, logs', cut)
            && Rebuild(sem, d, logs') == Fold(sem, Rebuild(sem, d, logs), DataItems(batch))
            && EncodeAll(last) == EncodeAll(Last(logs)) + EncodeAll(FeedMany(selected, batch))
            && (batch != [] ==> Cursor(0, Applied(last), sem.dbnum) == Last(batch).db)
            && (batch == [] ==> last == Last(logs))
  {
    hide EncodeAll, FeedMany, Fold, Rebuild, Holds, BatchOk, Cursor, Applied, DataItems, LogOk, Execute;
    var fed, n, last := FeedMany(selected, batch), |logs| - 1, Last(logs);
    HeldLastLog(sem, disk, am, d, logs, cut);
    FeedExtendsLog(sem, Rebuild(sem, d, logs[..n]), last, selected, batch);
    EncodeAllAppend(last, fed);
    RebuildLast(sem, d, logs[..n], last);
    RebuildLast(sem, d, logs[..n], last + fed);
    assert logs == logs[..n] + [last];
    ExtendLastLog(sem, disk, am, d, logs, cut, fed);
  }

  lemma AppliedSplit(cs: seq<Argv>, fed: seq<Argv>)
    requires Flat(FRESH, cs) && !OpenMulti(cs)
    requires Flat(RunAll(FRESH, cs), fed) && !RunAll(RunAll(FRESH, cs), fed).inMulti
    ensures Flat(FRESH, cs + fed) && !OpenMulti(cs + fed)
    ensures Applied(cs + fed) == Applied(cs) + Plain(fed)
  {
    FlatSplit(FRESH, cs, fed);
    RunAllSplit(FRESH, cs, fed);
    SeenAll(FRESH, cs);
    SeenAll(RunAll(FRESH, cs), fed);
    var k1, k2 := RunAll(FRESH, cs), RunAll(FRESH, cs + fed);
    hide RunAll, Flat, Plain;
    assert Seen(FRESH) == [];
    assert Seen(k1) == k1.applied && Seen(k2) == k2.applied;
  }
}
