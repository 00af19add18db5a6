/** The AOF manifest: which files make up the dataset, how a rewrite changes the
    list, and its form on disk. */
module AofManifest {
  import opened Wrappers

  /** File names as the naming rules build them. */
  datatype FileName =
    | BaseName(seqno: nat, rdb: bool)
    | IncrName(seqno: nat)
    | LegacyName                // the single file of older versions
    | TempIncrName
    | TempBaseName              // written by the rewrite child

  datatype Kind = Base | Hist | Incr

  datatype Info = Info(name: FileName, seqno: nat, kind: Kind)

  datatype Manifest = Manifest(
    base: Option<Info>, history: seq<Info>, incr: seq<Info>,
    baseSeq: nat, incrSeq: nat, dirty: bool)

  const EMPTY := Manifest(None, [], [], 0, 0, false)

  // ----- what a rewrite does to the list -----

  /** getNewBaseFileNameAndMarkPreAsHistory */
  function NewBase(am: Manifest, rdb: bool): Manifest {
    var history := if am.base.Some? then [am.base.value.(kind := Hist)] + am.history else am.history;
    var n := am.baseSeq + 1;
    am.(base := Some(Info(BaseName(n, rdb), n, Base)), history := history, baseSeq := n, dirty := true)
  }

  /** getNewIncrAofName */
  function NewIncr(am: Manifest): Manifest {
    var n := am.incrSeq + 1;
    am.(incr := am.incr + [Info(IncrName(n), n, Incr)], incrSeq := n, dirty := true)
  }

  /** getLastIncrAofName: the manifest afterwards; the file is the last of its list. */
  function LastIncr(am: Manifest): (r: Manifest)
    ensures r.incr != []
  {
    if am.incr == [] then NewIncr(am) else am
  }

  function AsHistory(infos: seq<Info>): (r: seq<Info>)
    ensures |r| == |infos| && forall i | 0 <= i < |r| :: r[i] == infos[i].(kind := Hist)
  {
    seq(|infos|, i requires 0 <= i < |infos| => infos[i].(kind := Hist))
  }

  /** How many INCR files a finished rewrite replaces: all but the one being written. */
  function Rewritten(am: Manifest, fdOpen: bool): (n: nat)
    ensures n <= |am.incr|
  {
    if fdOpen && am.incr != [] then |am.incr| - 1 else |am.incr|
  }

  /** markRewrittenIncrAofAsHistory, walking the list from its tail. */
  method MarkRewritten(am: Manifest, fdOpen: bool) returns (r: Manifest)
    ensures r.history == AsHistory(am.incr[..Rewritten(am, fdOpen)]) + am.history
    ensures r.incr == am.incr[Rewritten(am, fdOpen)..]
    ensures r.base == am.base && r.baseSeq == am.baseSeq && r.incrSeq == am.incrSeq
    ensures am.incr != [] ==> r.dirty
  {
    hide AsHistory, Marked;
    MarkedNone(am, 0);
    MarkedAll(am, 0);
    r := am;
    if am.incr == [] { return; }
    var i := |am.incr|;
    if fdOpen { i := i - 1; }
    var keep := i;
    MarkedNone(am, keep);
    while i > 0
      invariant 0 <= i <= keep && r == Marked(am, i, keep)
    {
      i := i - 1;
      MarkedNext(am, i, keep);
      var info := r.incr[i];
      r := r.(history := [info.(kind := Hist)] + r.history, incr := r.incr[..i] + r.incr[i + 1..]);
    }
    MarkedAll(am, keep);
    r := r.(dirty := true);
  }

  /** The entries from i to keep have moved. */
  ghost function Marked(am: Manifest, i: nat, keep: nat): Manifest
    requires i <= keep <= |am.incr|
  {
    am.(history := AsHistory(am.incr[i..keep]) + am.history, incr := am.incr[..i] + am.incr[keep..])
  }

  lemma MarkedNone(am: Manifest, keep: nat)
    requires keep <= |am.incr|
    ensures Marked(am, keep, keep) == am
  {
    assert AsHistory(am.incr[keep..keep]) + am.history == am.history;
    assert am.incr[..keep] + am.incr[keep..] == am.incr;
  }

  lemma MarkedNext(am: Manifest, i: nat, keep: nat)
    requires i < keep <= |am.incr|
    ensures var r, info := Marked(am, i + 1, keep), am.incr[i];
            && |r.incr| > i && r.incr[i] == info
            && Marked(am, i, keep)
               == r.(history := [info.(kind := Hist)] + r.history, incr := r.incr[..i] + r.incr[i + 1..])
  {
    var r, h := Marked(am, i + 1, keep), [am.incr[i].(kind := Hist)];
    assert AsHistory(am.incr[i..keep]) == h + AsHistory(am.incr[i + 1..keep]);
    assert Marked(am, i, keep).history == h + r.history;
    assert r.incr[..i] + r.incr[i + 1..] == am.incr[..i] + am.incr[keep..];
  }

  lemma MarkedAll(am: Manifest, keep: nat)
    requires keep <= |am.incr|
    ensures Marked(am, 0, keep) == am.(history := AsHistory(am.incr[..keep]) + am.history, incr := am.incr[keep..])
  {
    assert am.incr[0..keep] == am.incr[..keep];
    assert am.incr[..0] + am.incr[keep..] == am.incr[keep..];
  }

  // ----- the manifest file, one line per file -----

  /** getAofManifestAsString */
  function Lines(am: Manifest): seq<Info> {
    (if am.base.Some? then [am.base.value] else []) + am.history + am.incr
  }

  datatype ManifestError = EmptyFile | DuplicateBase | NonMonotonic | BadLine

  datatype Parsed = Parsed(am: Manifest) | Rejected(error: ManifestError)

  /** One line of aofLoadManifestFromFile; the largest INCR number so far is am.incrSeq. */
  function AddLine(am: Manifest, line: Info): Parsed {
    if line.seqno == 0 then Rejected(BadLine)
    else match line.kind
      case Base =>
        if am.base.Some? then Rejected(DuplicateBase)
        else Parsed(am.(base := Some(line), baseSeq := line.seqno))
      case Hist => Parsed(am.(history := am.history + [line]))
      case Incr =>
        if line.seqno <= am.incrSeq then Rejected(NonMonotonic)
        else Parsed(am.(incr := am.incr + [line], incrSeq := line.seqno))
  }

  function AddLines(am: Manifest, lines: seq<Info>): Parsed
    decreases lines
  {
    if lines == [] then Parsed(am)
    else
      var next := AddLine(am, lines[0]);
      if next.Rejected? then next else AddLines(next.am, lines[1..])
  }

  function ParseLines(lines: seq<Info>): Parsed {
    if lines == [] then Rejected(EmptyFile) else AddLines(EMPTY, lines)
  }

  method ParseManifestFile(lines: seq<Info>) returns (r: Parsed)
    ensures r == ParseLines(lines)
  {
    if lines == [] { return Rejected(EmptyFile); }
    var am := EMPTY;
    for i := 0 to |lines|
      invariant ParseLines(lines) == AddLines(am, lines[i..])
    {
      var next := AddLine(am, lines[i]);
      if next.Rejected? { return next; }
      am := next.am;
    }
    return Parsed(am);
  }

  // ----- well-formed manifests -----

  ghost predicate Ascending(incr: seq<Info>) {
    && (forall i | 0 <= i < |incr| :: incr[i].kind == Incr && incr[i].seqno >= 1 && incr[i].name == IncrName(incr[i].seqno))
    && (forall i, j | 0 <= i < j < |incr| :: incr[i].seqno < incr[j].seqno)
  }

  function Last<T>(s: seq<T>): T
    requires s != []
  {
    s[|s| - 1]
  }

  function LastSeq(incr: seq<Info>): nat { if incr == [] then 0 else Last(incr).seqno }

  /** A name no later rewrite will use again: below the live base and INCR files. */
  ghost predicate Retired(name: FileName, base: Info, incr: seq<Info>)
    requires incr != []
  {
    match name
    case BaseName(n, _) => n < base.seqno
    case IncrName(n) => n < incr[0].seqno
    case LegacyName => base.name != LegacyName
    case _ => false
  }

  /** The shape every manifest has while AOF is on. */
  ghost predicate WellFormed(am: Manifest) {
    && am.base.Some? && am.incr != []
    && am.base.value.kind == Base && am.base.value.seqno >= 1
    && (am.base.value.name.LegacyName? ||
        (am.base.value.name.BaseName? && am.base.value.name.seqno == am.base.value.seqno))
    && am.baseSeq == am.base.value.seqno
    && Ascending(am.incr) && am.incrSeq == LastSeq(am.incr)
    && forall h | h in am.history :: h.kind == Hist && h.seqno >= 1 && Retired(h.name, am.base.value, am.incr)
  }

  /** The files a load of this manifest reads. */
  function Live(am: Manifest): set<FileName> {
    (if am.base.Some? then {am.base.value.name} else {}) + (set info | info in am.incr :: info.name)
  }

  lemma LiveIgnoresHistory(am: Manifest, r: Manifest)
    requires am.base == r.base && am.incr == r.incr
    ensures Live(am) == Live(r)
  {}

  lemma LiveIsNotRetired(am: Manifest, name: FileName)
    requires WellFormed(am) && Retired(name, am.base.value, am.incr)
    ensures name !in Live(am)
  {
    forall info | info in am.incr
      ensures info.name.IncrName? && am.incr[0].seqno <= info.name.seqno
    {
      var i :| 0 <= i < |am.incr| && am.incr[i] == info;
      assert i == 0 || am.incr[0].seqno < am.incr[i].seqno;
    }
  }

  lemma NewNamesAreFresh(am: Manifest, rdb: bool)
    requires WellFormed(am)
    ensures IncrName(am.incrSeq + 1) !in Live(am) && BaseName(am.baseSeq + 1, rdb) !in Live(am)
    ensures TempBaseName !in Live(am) && TempIncrName !in Live(am)
  {
    forall info | info in am.incr
      ensures info.name.IncrName? && info.name.seqno <= am.incrSeq
    {
      var i :| 0 <= i < |am.incr| && am.incr[i] == info;
      assert i == |am.incr| - 1 || am.incr[i].seqno < Last(am.incr).seqno;
    }
  }

  lemma NewIncrWellFormed(am: Manifest)
    requires WellFormed(am)
    ensures WellFormed(NewIncr(am)) && NewIncr(am).base == am.base
    ensures NewIncr(am).incr[..|am.incr|] == am.incr
  {
    var r := NewIncr(am);
    forall i, j | 0 <= i < j < |r.incr|
      ensures r.incr[i].seqno < r.incr[j].seqno
    {
      if j == |am.incr| && i < |am.incr| - 1 {
        assert am.incr[i].seqno < Last(am.incr).seqno;
      }
    }
  }

  /** A finished rewrite, as one step: new base, only the file being written stays. */
  ghost function AfterRewrite(am: Manifest, rdb: bool): Manifest
    requires am.incr != []
  {
    var b := NewBase(am, rdb);
    b.(history := AsHistory(am.incr[..|am.incr| - 1]) + b.history, incr := am.incr[|am.incr| - 1..], dirty := true)
  }

  /** The manifest part of backgroundRewriteDoneHandler. */
  method FinishRewrite(am: Manifest, rdb: bool) returns (next: Manifest)
    requires am.incr != []
    ensures next == AfterRewrite(am, rdb)
  {
    next := NewBase(am, rdb);
    next := MarkRewritten(next, true);
  }

  lemma RewrittenIsRetired(am: Manifest, rdb: bool, h: Info)
    requires WellFormed(am) && h in AfterRewrite(am, rdb).history
    ensures var r := AfterRewrite(am, rdb);
            h.kind == Hist && h.seqno >= 1 && r.incr != [] && Retired(h.name, r.base.value, r.incr)
  {
    var n := |am.incr| - 1;
    assert AfterRewrite(am, rdb).incr == [am.incr[n]];
    if h in AsHistory(am.incr[..n]) {
      var i :| 0 <= i < n && AsHistory(am.incr[..n])[i] == h;
      assert am.incr[i].seqno < am.incr[n].seqno;
    } else if h in am.history {
      assert n == 0 || am.incr[0].seqno < am.incr[n].seqno;
    }
  }

  lemma AfterRewriteWellFormed(am: Manifest, rdb: bool)
    requires WellFormed(am)
    ensures WellFormed(AfterRewrite(am, rdb))
    ensures AfterRewrite(am, rdb).incr == [Last(am.incr)]
    ensures AfterRewrite(am, rdb).baseSeq == am.baseSeq + 1
  {
    hide Retired, AsHistory;
    var r := AfterRewrite(am, rdb);
    assert r.incr == [Last(am.incr)];
    forall h | h in r.history
      ensures h.kind == Hist && h.seqno >= 1 && Retired(h.name, r.base.value, r.incr)
    {
      RewrittenIsRetired(am, rdb, h);
    }
  }

  // ----- printing and parsing are inverse -----

  lemma {:induction false} AddLinesSplit(am: Manifest, a: seq<Info>, b: seq<Info>)
    requires AddLines(am, a).Parsed?
    ensures AddLines(am, a + b) == AddLines(AddLines(am, a).am, b)
    decreases a
  {
    if a == [] {
      assert a + b == b;
    } else {
      assert (a + b)[1..] == a[1..] + b;
      AddLinesSplit(AddLine(am, a[0]).am, a[1..], b);
    }
  }

  lemma AddBase(base: Option<Info>)
    requires base.Some? ==> base.value.kind == Base && base.value.seqno >= 1
    ensures AddLines(EMPTY, if base.Some? then [base.value] else []) ==
            Parsed(EMPTY.(base := base, baseSeq := if base.Some? then base.value.seqno else 0))
  {
    if base.Some? { assert [base.value][1..] == []; }
  }

  lemma {:induction false} AddHistory(am: Manifest, history: seq<Info>)
    requires forall h | h in history :: h.kind == Hist && h.seqno >= 1
    ensures AddLines(am, history) == Parsed(am.(history := am.history + history))
    decreases history
  {
    if history == [] {
      assert am.history + history == am.history;
    } else {
      AddHistory(AddLine(am, history[0]).am, history[1..]);
      assert am.history + [history[0]] + history[1..] == am.history + history;
    }
  }

  lemma {:induction false} AddIncrs(am: Manifest, incr: seq<Info>)
    requires Ascending(incr) && (incr == [] || am.incrSeq < incr[0].seqno)
    ensures AddLines(am, incr) ==
            Parsed(am.(incr := am.incr + incr, incrSeq := if incr == [] then am.incrSeq else LastSeq(incr)))
    decreases incr
  {
    if incr == [] {
      assert am.incr + incr == am.incr;
    } else {
      AddIncrs(AddLine(am, incr[0]).am, incr[1..]);
      assert am.incr + [incr[0]] + incr[1..] == am.incr + incr;
    }
  }

  /** Parsing a printed manifest gives it back, except that the INCR counter is
      recomputed from the INCR lines: it restarts at zero when there are none. */
  lemma ParsePrinted(am: Manifest)
    requires am.base.Some? ==> am.base.value.kind == Base && am.base.value.seqno >= 1
    requires forall h | h in am.history :: h.kind == Hist && h.seqno >= 1
    requires Ascending(am.incr) && Lines(am) != []
    ensures ParseLines(Lines(am)) ==
            Parsed(am.(baseSeq := if am.base.Some? then am.base.value.seqno else 0,
                       incrSeq := LastSeq(am.incr), dirty := false))
  {
    hide AddLines, Ascending;
    var start := if am.base.Some? then [am.base.value] else [];
    var a := EMPTY.(base := am.base, baseSeq := if am.base.Some? then am.base.value.seqno else 0);
    assert Lines(am) == start + (am.history + am.incr);
    AddBase(am.base);
    AddLinesSplit(EMPTY, start, am.history + am.incr);
    AddRest(a, am.history, am.incr);
  }

  lemma AddRest(am: Manifest, history: seq<Info>, incr: seq<Info>)
    requires forall h | h in history :: h.kind == Hist && h.seqno >= 1
    requires Ascending(incr) && am.history == [] && am.incr == [] && am.incrSeq == 0
    ensures AddLines(am, history + incr) == Parsed(am.(history := history, incr := incr, incrSeq := LastSeq(incr)))
  {
    hide AddLines;
    var h := am.(history := history);
    AddHistory(am, history);
    assert [] + history == history && [] + incr == incr;
    AddLinesSplit(am, history, incr);
    AddIncrs(h, incr);
  }

  /** While AOF is on the round trip is exact. */
  lemma RoundTrip(am: Manifest)
    requires WellFormed(am)
    ensures ParseLines(Lines(am)) == Parsed(am.(dirty := false))
  {
    ParsePrinted(am);
  }

  /** The name opened for appending after a restart (getLastIncrAofName on the parsed
      manifest) stays clear of the history files exactly when an INCR file is listed or
      the first INCR name is not in the history. */
  lemma RestartNameIsFresh(am: Manifest)
    requires am.base.Some? ==> am.base.value.kind == Base && am.base.value.seqno >= 1
    requires forall h | h in am.history :: h.kind == Hist && h.seqno >= 1
    requires Ascending(am.incr) && Lines(am) != []
    requires forall h | h in am.history :: h.name !in (set info | info in am.incr :: info.name)
    ensures ParseLines(Lines(am)).Parsed?
    ensures var target := Last(LastIncr(ParseLines(Lines(am)).am).incr).name;
            (forall h | h in am.history :: h.name != target) <==>
            (am.incr != [] || forall h | h in am.history :: h.name != IncrName(1))
  {
    ParsePrinted(am);
    if am.incr != [] {
      assert Last(am.incr) in am.incr;
      assert Last(am.incr).name in (set info | info in am.incr :: info.name);
    }
  }

  /** A manifest a rewrite leaves while AOF is off, before its history is collected: the
      restarted server appends to a file that the next collection unlinks. */
  lemma RestartReusesHistoryName()
    ensures var off := Manifest(Some(Info(BaseName(2, true), 2, Base)),
                                [Info(IncrName(1), 1, Hist), Info(BaseName(1, true), 1, Hist)], [], 2, 1, false);
            && ParseLines(Lines(off)).Parsed?
            && Last(LastIncr(ParseLines(Lines(off)).am).incr).name == IncrName(1)
            && Info(IncrName(1), 1, Hist) in off.history
  {
    var off := Manifest(Some(Info(BaseName(2, true), 2, Base)),
                        [Info(IncrName(1), 1, Hist), Info(BaseName(1, true), 1, Hist)], [], 2, 1, false);
    assert Lines(off)[0] == off.base.value;
    ParsePrinted(off);
    assert off.history[0] in off.history;
  }
}
