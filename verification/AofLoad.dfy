/** Loading one append only file: the stdio level parse loop of
    loadSingleAppendOnlyFile, and what it does with a log that was cut anywhere. */
module AofLoad {
  import opened Resp

  /** sizeof(buf) of the line buffer; fgets() stores one byte less. */
  const LINE_MAX: nat := 1024

  // ----- stdio -----

  /** What fgets() gives on the unread bytes `s`. `eof` is the stream's
      end-of-file indicator after the call. */
  datatype LineRead = NoLine | Line(text: Bytes, rest: Bytes, eof: bool)

  function LineLength(s: Bytes, limit: nat): (n: nat)
    requires s != [] && limit >= 1
    ensures 1 <= n <= |s| && n <= limit
  {
    if s[0] == LF || |s| == 1 || limit == 1 then 1 else 1 + LineLength(s[1..], limit - 1)
  }

  function ReadLine(s: Bytes): (r: LineRead)
    ensures r.Line? ==> r.text != [] && s == r.text + r.rest && |r.rest| < |s|
  {
    if s == [] then NoLine
    else
      var n := LineLength(s, LINE_MAX - 1);
      Line(s[..n], s[n..], n == |s| && s[n-1] != LF && n < LINE_MAX - 1)
  }

  // ----- one command -----

  datatype ArgsRead = Args(argv: Argv, rest: Bytes) | ArgsShort | ArgsBad

  /** The argument loop: `n` times a "$len" line, len bytes and two more bytes.
      A negative length, an absurd allocation in the source, counts as bad format. */
  function ReadArgs(s: Bytes, n: nat): (r: ArgsRead)
    ensures r.Args? ==> |r.argv| == n && |r.rest| <= |s| && r.rest == s[|s| - |r.rest|..]
    decreases n
  {
    if n == 0 then Args([], s)
    else
      match ReadLine(s)
      case NoLine => ArgsShort
      case Line(text, rest, _) =>
        if text[0] != DOLLAR then ArgsBad
        else
          var len := Strtol(text[1..]);
          if len < 0 then ArgsBad
          else if |rest| < len + 2 then ArgsShort
          else
            match ReadArgs(rest[len + 2..], n - 1)
            case Args(more, tail) => Args([rest[..len]] + more, tail)
            case other => other
  }

  datatype CommandRead =
    | End                              // clean end of file
    | Annotation(rest: Bytes)          // a '#' line
    | Command(argv: Argv, rest: Bytes)
    | ShortRead                        // the file ended inside a command
    | BadFormat
    | ReadError                        // a read error that is not end of file

  function ReadCommand(s: Bytes): (r: CommandRead)
    ensures r.Annotation? || r.Command? ==> |r.rest| < |s| && r.rest == s[|s| - |r.rest|..]
    ensures r.Command? ==> r.argv != []
  {
    match ReadLine(s)
    case NoLine => End
    case Line(text, rest, eof) =>
      if text[0] == HASH then Annotation(rest)
      else if text[0] != STAR then BadFormat
      else if |text| == 1 || text[1] == 0 then (if eof then ShortRead else ReadError)
      else
        var argc := Atoi(text[1..]);
        if argc < 1 then BadFormat
        else
          match ReadArgs(rest, argc)
          case ArgsShort => ShortRead
          case ArgsBad => BadFormat
          case Args(argv, tail) => Command(argv, tail)
  }

  // ----- executing -----

  function LowerByte(b: byte): byte { if 65 <= b <= 90 then b + 32 else b }

  function Lower(s: Bytes): Bytes { seq(|s|, i requires 0 <= i < |s| => LowerByte(s[i])) }

  const MULTI_NAME: Bytes := [109, 117, 108, 116, 105]
  const EXEC_NAME: Bytes := [101, 120, 101, 99]

  predicate IsMulti(c: Argv) { c != [] && Lower(c[0]) == MULTI_NAME }
  predicate IsExec(c: Argv) { c != [] && Lower(c[0]) == EXEC_NAME }

  /** The fake client: `applied` lists the commands that were executed, in order. */
  datatype Client = Client(inMulti: bool, queued: seq<Argv>, applied: seq<Argv>)

  const FRESH := Client(false, [], [])

  function RunCommand(k: Client, c: Argv): Client {
    if k.inMulti && !IsExec(c) then k.(queued := k.queued + [c])
    else if IsMulti(c) then Client(true, [], k.applied)
    else if IsExec(c) then Client(false, [], k.applied + k.queued)
    else k.(applied := k.applied + [c])
  }

  function RunAll(k: Client, cs: seq<Argv>): Client
    decreases cs
  {
    if cs == [] then k else RunAll(RunCommand(k, cs[0]), cs[1..])
  }

  // ----- the file -----

  datatype Status = AofOk | AofEmpty | AofTruncated | AofFailed

  /** `length` is the length of the file after loading. */
  datatype Loaded = Loaded(status: Status, applied: seq<Argv>, length: nat)

  /** Server configuration and what the environment answers. */
  datatype Env = Env(loadTruncated: bool, truncateOk: bool, known: Argv -> bool)

  datatype Progress = Progress(client: Client, validUpTo: nat, beforeMulti: nat)

  const START := Progress(FRESH, 0, 0)

  /** The loop body after a command was read; `end` is the offset behind it. */
  function Advance(p: Progress, c: Argv, end: nat, env: Env): Progress {
    Progress(RunCommand(p.client, c),
             if env.loadTruncated then end else p.validUpTo,
             if IsMulti(c) then p.validUpTo else p.beforeMulti)
  }

  /** The uxeof label: cut the file back if the configuration allows it. */
  function UnexpectedEof(p: Progress, upTo: nat, size: nat, env: Env): Loaded {
    if env.loadTruncated && env.truncateOk then Loaded(AofTruncated, p.client.applied, upTo)
    else Loaded(AofFailed, p.client.applied, size)
  }

  function LoadFrom(s: Bytes, size: nat, p: Progress, env: Env): Loaded
    requires |s| <= size
    decreases |s|
  {
    match ReadCommand(s)
    case End =>
      if p.client.inMulti then UnexpectedEof(p, p.beforeMulti, size, env)
      else Loaded(AofOk, p.client.applied, size)
    case Annotation(rest) => LoadFrom(rest, size, p, env)
    case ShortRead => UnexpectedEof(p, p.validUpTo, size, env)
    case BadFormat => Loaded(AofFailed, p.client.applied, size)
    case ReadError => Loaded(AofFailed, p.client.applied, size)
    case Command(argv, rest) =>
      if !env.known(argv) then Loaded(AofFailed, p.client.applied, size)
      else LoadFrom(rest, size, Advance(p, argv, size - |rest|, env), env)
  }

  function Load(file: Bytes, env: Env): Loaded {
    if file == [] then Loaded(AofEmpty, [], 0) else LoadFrom(file, |file|, START, env)
  }

  // ----- the loops of the source -----

  function Prepend(argv: Argv, r: ArgsRead): ArgsRead {
    if r.Args? then Args(argv + r.argv, r.rest) else r
  }

  lemma PrependNothing(r: ArgsRead)
    ensures Prepend([], r) == r
  {
    if r.Args? { assert [] + r.argv == r.argv; }
  }

  lemma PrependToArgs(argv: Argv, s: Bytes)
    ensures Prepend(argv, Args([], s)) == Args(argv, s)
    ensures Prepend(argv, ArgsShort) == ArgsShort && Prepend(argv, ArgsBad) == ArgsBad
  {
    assert argv + [] == argv;
  }

  lemma PrependTwice(a: Argv, b: Argv, r: ArgsRead)
    ensures Prepend(a, Prepend(b, r)) == Prepend(a + b, r)
  {
    if r.Args? { assert a + (b + r.argv) == (a + b) + r.argv; }
  }

  lemma ReadArgsStep(s: Bytes, n: nat)
    requires n > 0 && ReadLine(s).Line? && ReadLine(s).text[0] == DOLLAR
    requires 0 <= Strtol(ReadLine(s).text[1..]) <= |ReadLine(s).rest| - 2
    ensures var rest, len := ReadLine(s).rest, Strtol(ReadLine(s).text[1..]);
            ReadArgs(s, n) == Prepend([rest[..len]], ReadArgs(rest[len + 2..], n - 1))
  {
    hide ReadLine, Strtol;
  }

  /** The argument loop; the stream is the bytes not read yet. */
  method ReadArgsLoop(stream: Bytes, argc: nat) returns (r: ArgsRead)
    ensures r == ReadArgs(stream, argc)
  {
    hide ReadLine, Strtol, Prepend;
    var s, argv := stream, [];
    PrependNothing(ReadArgs(stream, argc));
    for j := 0 to argc
      invariant |argv| == j
      invariant ReadArgs(stream, argc) == Prepend(argv, ReadArgs(s, argc - j))
    {
      PrependToArgs(argv, s);
      var line := ReadLine(s);
      if line.NoLine? { return ArgsShort; }
      if line.text[0] != DOLLAR { return ArgsBad; }
      var len := Strtol(line.text[1..]);
      if len < 0 { return ArgsBad; }
      if |line.rest| < len + 2 { return ArgsShort; }
      ReadArgsStep(s, argc - j);
      PrependTwice(argv, [line.rest[..len]], ReadArgs(line.rest[len + 2..], argc - j - 1));
      argv, s := argv + [line.rest[..len]], line.rest[len + 2..];
    }
    r := Args(argv, s);
    PrependToArgs(argv, s);
  }

  /** The head of the loop: one line, and the arguments that it announces. */
  method ReadNext(s: Bytes) returns (r: CommandRead)
    ensures r == ReadCommand(s)
  {
    hide ReadLine, ReadArgs, Atoi;
    var line := ReadLine(s);
    if line.NoLine? { return End; }
    if line.text[0] == HASH { return Annotation(line.rest); }
    if line.text[0] != STAR { return BadFormat; }
    if |line.text| == 1 || line.text[1] == 0 { return if line.eof then ShortRead else ReadError; }
    var argc := Atoi(line.text[1..]);
    if argc < 1 { return BadFormat; }
    var args := ReadArgsLoop(line.rest, argc);
    if args.ArgsShort? { return ShortRead; }
    if args.ArgsBad? { return BadFormat; }
    r := Command(args.argv, args.rest);
  }

  method LoadSingle(file: Bytes, env: Env) returns (r: Loaded)
    ensures r == Load(file, env)
  {
    hide ReadCommand, RunCommand;
    if file == [] { return Loaded(AofEmpty, [], 0); }
    var size, s, p := |file|, file, START;
    while true
      invariant |s| <= size
      invariant Load(file, env) == LoadFrom(s, size, p, env)
      decreases |s|
    {
      var next := ReadNext(s);
      match next {
        case End =>
          if p.client.inMulti { return UnexpectedEof(p, p.beforeMulti, size, env); }
          return Loaded(AofOk, p.client.applied, size);
        case Annotation(rest) =>
          s := rest;
        case ShortRead =>
          return UnexpectedEof(p, p.validUpTo, size, env);
        case BadFormat =>
          return Loaded(AofFailed, p.client.applied, size);
        case ReadError =>
          return Loaded(AofFailed, p.client.applied, size);
        case Command(argv, rest) =>
          if !env.known(argv) { return Loaded(AofFailed, p.client.applied, size); }
          s := rest;
          p := Advance(p, argv, size - |s|, env);
      }
    }
  }

  // ----- reading back what was printed -----

  lemma {:induction false} LineLengthIs(s: Bytes, n: nat, limit: nat)
    requires 1 <= n <= |s| && n <= limit
    requires LF !in s[..n - 1]
    requires s[n - 1] == LF || n == |s| || n == limit
    ensures LineLength(s, limit) == n
  {
    if n > 1 {
      assert s[..n - 1][0] == s[0];
      assert s[1..][..n - 2] == s[..n - 1][1..];
      LineLengthIs(s[1..], n - 1, limit - 1);
    }
  }

  lemma HeaderLine(mark: byte, n: nat, tail: Bytes)
    requires n <= LONG_MAX && mark != LF
    ensures ReadLine(Header(mark, n) + tail) == Line(Header(mark, n), tail, false)
    ensures Header(mark, n)[0] == mark && Header(mark, n)[1] != 0
    ensures Strtol(Header(mark, n)[1..]) == n
    ensures n <= INT_MAX ==> Atoi(Header(mark, n)[1..]) == n
  {
    var h := Header(mark, n);
    DigitsFitLine(n);
    var s := h + tail;
    assert s[..|h|] == h && s[|h|..] == tail;
    assert h[|h| - 1] == LF && s[|h| - 1] == LF;
    assert h[..|h| - 1] == [mark] + Digits(n) + [CR];
    assert s[..|h| - 1] == h[..|h| - 1];
    LineLengthIs(s, |h|, LINE_MAX - 1);
    assert h[1] == Digits(n)[0] && Digits(n)[0] in Digits(n);
    assert h[1..] == Digits(n) + CRLF;
    ReadDigits(n, CRLF);
  }

  lemma HeaderCutLine(mark: byte, n: nat, k: nat)
    requires n <= LONG_MAX && mark != LF && 0 < k < |Header(mark, n)|
    ensures var p := Header(mark, n)[..k]; ReadLine(p) == Line(p, [], true)
  {
    hide Digits;
    var h := Header(mark, n);
    var p := h[..k];
    DigitsFitLine(n);
    assert LF !in Digits(n);
    assert p == ([mark] + Digits(n) + [CR])[..k];
    assert LF !in p;
    assert p[..k] == p && p[k..] == [];
    LineLengthIs(p, k, LINE_MAX - 1);
  }

  lemma StrtolNothing()
    ensures Strtol([]) == 0
  {}

  lemma DigitsNotEmpty(n: nat)
    ensures Digits(n) != []
  {}

  /** A header line cut short: the stream ends there, and the number read so far is
      non-negative, and positive if the whole number is. */
  lemma HeaderCut(mark: byte, n: nat, k: nat)
    requires n <= LONG_MAX && mark != LF && 0 < k < |Header(mark, n)|
    ensures var p := Header(mark, n)[..k];
            && ReadLine(p) == Line(p, [], true)
            && p[0] == mark
            && Strtol(p[1..]) >= 0
            && (n > 0 && n <= INT_MAX && k > 1 ==> p[1] != 0 && Atoi(p[1..]) >= 1)
  {
    hide Strtol, Atoi, ReadLine, Digits;
    HeaderCutLine(mark, n, k);
    var p := Header(mark, n)[..k];
    var d := if k - 1 <= |Digits(n)| then k - 1 else |Digits(n)|;
    var tail: Bytes := if k - 1 <= |Digits(n)| then [] else [CR];
    assert p[1..] == Digits(n)[..d] + tail;
    if d == 0 {
      DigitsNotEmpty(n);
      assert p[1..] == [];
      StrtolNothing();
    } else {
      DigitsPrefix(n, d);
      var m :| 0 <= m <= n && (n > 0 ==> m > 0) && Digits(n)[..d] == Digits(m);
      ReadDigits(m, tail);
      assert p[1] == Digits(n)[0] && Digits(n)[0] in Digits(n);
    }
  }

  lemma ArgRead(a: Bytes, n: nat, tail: Bytes)
    requires |a| <= LONG_MAX && n > 0
    ensures ReadArgs(EncodeArg(a) + tail, n) ==
            match ReadArgs(tail, n - 1)
            case Args(more, t) => Args([a] + more, t)
            case other => other
  {
    hide Header, Strtol, ReadLine, ReadArgs;
    var rest := a + CRLF + tail;
    assert EncodeArg(a) + tail == Header(DOLLAR, |a|) + rest;
    HeaderLine(DOLLAR, |a|, rest);
    assert rest[..|a|] == a && rest[|a| + 2..] == tail;
    ReadArgsStep(EncodeArg(a) + tail, n);
  }

  lemma NothingToRead(s: Bytes)
    ensures ReadArgs(s, 0) == Args([], s)
  {}

  lemma {:induction false} ArgsReadBack(c: Argv, tail: Bytes)
    requires forall a | a in c :: |a| <= LONG_MAX
    ensures ReadArgs(EncodeArgs(c) + tail, |c|) == Args(c, tail)
  {
    hide ReadArgs, EncodeArg;
    if c == [] {
      assert EncodeArgs(c) + tail == tail;
      NothingToRead(tail);
    } else {
      assert EncodeArgs(c) + tail == EncodeArg(c[0]) + (EncodeArgs(c[1..]) + tail);
      ArgRead(c[0], |c|, EncodeArgs(c[1..]) + tail);
      ArgsReadBack(c[1..], tail);
      assert [c[0]] + c[1..] == c;
    }
  }

  lemma NoArgsLeft(n: nat)
    requires n > 0
    ensures ReadArgs([], n) == ArgsShort
  {}

  /** One argument cut short. */
  lemma ArgCut(a: Bytes, n: nat, k: nat)
    requires |a| <= LONG_MAX && n > 0 && k < |EncodeArg(a)|
    ensures ReadArgs(EncodeArg(a)[..k], n) == ArgsShort
  {
    hide ReadLine, Strtol, Digits, Header;
    var h := Header(DOLLAR, |a|);
    var p := EncodeArg(a)[..k];
    assert EncodeArg(a) == h + (a + CRLF);
    if k >= |h| {
      var q := (a + CRLF)[..k - |h|];
      assert p == h + q;
      HeaderLine(DOLLAR, |a|, q);
    } else if k > 0 {
      assert p == h[..k];
      HeaderCut(DOLLAR, |a|, k);
    } else {
      NoArgsLeft(n);
    }
  }

  lemma {:induction false} ArgsCut(c: Argv, k: nat)
    requires forall a | a in c :: |a| <= LONG_MAX
    requires k < |EncodeArgs(c)|
    ensures ReadArgs(EncodeArgs(c)[..k], |c|) == ArgsShort
  {
    hide ReadArgs, EncodeArg;
    var e := EncodeArg(c[0]);
    var p := EncodeArgs(c)[..k];
    if k >= |e| {
      var q := EncodeArgs(c[1..])[..k - |e|];
      assert p == e + q;
      ArgRead(c[0], |c|, q);
      ArgsCut(c[1..], k - |e|);
    } else {
      assert p == e[..k];
      ArgCut(c[0], |c|, k);
    }
  }

  /** A printed command is read back, whatever follows it. */
  lemma CommandReadBack(c: Argv, tail: Bytes)
    requires ValidCommand(c)
    ensures ReadCommand(EncodeCommand(c) + tail) == Command(c, tail)
  {
    var rest := EncodeArgs(c) + tail;
    assert EncodeCommand(c) + tail == Header(STAR, |c|) + rest;
    HeaderLine(STAR, |c|, rest);
    ArgsReadBack(c, tail);
  }

  /** Any proper part of a printed command is a short read. */
  lemma CommandCut(c: Argv, k: nat)
    requires ValidCommand(c) && 0 < k < |EncodeCommand(c)|
    ensures ReadCommand(EncodeCommand(c)[..k]) == ShortRead
  {
    hide ReadArgs, ReadLine, Strtol, Atoi, Digits;
    var h := Header(STAR, |c|);
    var p := EncodeCommand(c)[..k];
    if k >= |h| {
      var q := EncodeArgs(c)[..k - |h|];
      assert p == h + q;
      HeaderLine(STAR, |c|, q);
      ArgsCut(c, k - |h|);
    } else {
      assert p == h[..k];
      HeaderCut(STAR, |c|, k);
      if k > 1 { NoArgsLeft(Atoi(p[1..])); }
    }
  }

  // ----- logs cut anywhere -----

  /** How many commands of the log lie wholly within its first n bytes. */
  function Whole(cs: seq<Argv>, n: nat): (m: nat)
    ensures m <= |cs|
  {
    if cs == [] || |EncodeCommand(cs[0])| > n then 0
    else 1 + Whole(cs[1..], n - |EncodeCommand(cs[0])|)
  }

  ghost predicate GoodLog(cs: seq<Argv>, env: Env) {
    forall c | c in cs :: ValidCommand(c) && env.known(c)
  }

  /** Whole() is the largest command count whose encoding fits in n bytes. */
  lemma {:induction false} WholeIsLargest(cs: seq<Argv>, n: nat)
    requires n <= |EncodeAll(cs)|
    ensures |EncodeAll(cs[..Whole(cs, n)])| <= n
    ensures Whole(cs, n) < |cs| ==> n < |EncodeAll(cs[..Whole(cs, n) + 1])|
    ensures Whole(cs, n) == |cs| ==> n == |EncodeAll(cs)|
    ensures EncodeAll(cs[..Whole(cs, n)]) <= EncodeAll(cs)
  {
    hide EncodeCommand;
    var m := Whole(cs, n);
    if cs != [] && m > 0 {
      WholeIsLargest(cs[1..], n - |EncodeCommand(cs[0])|);
      EncodeHead(cs, m);
      if m < |cs| { EncodeHead(cs, m + 1); }
    } else if cs != [] {
      EncodeHead(cs, 1);
    }
  }

  lemma EncodeHead(cs: seq<Argv>, m: nat)
    requires 0 < m <= |cs|
    ensures EncodeAll(cs[..m]) == EncodeCommand(cs[0]) + EncodeAll(cs[1..][..m - 1])
  {
    hide EncodeCommand;
    assert cs[..m][1..] == cs[1..][..m - 1];
  }

  /** The progress record after a run of whole commands that starts at offset `off`. */
  function After(p: Progress, cs: seq<Argv>, off: nat, env: Env): Progress
    decreases cs
  {
    if cs == [] then p
    else
      var end := off + |EncodeCommand(cs[0])|;
      After(Advance(p, cs[0], end, env), cs[1..], end, env)
  }

  lemma {:induction false} AfterClient(p: Progress, cs: seq<Argv>, off: nat, env: Env)
    ensures After(p, cs, off, env).client == RunAll(p.client, cs)
    ensures env.loadTruncated && p.validUpTo == off ==>
              After(p, cs, off, env).validUpTo == off + |EncodeAll(cs)|
    decreases cs
  {
    if cs != [] {
      var end := off + |EncodeCommand(cs[0])|;
      AfterClient(Advance(p, cs[0], end, env), cs[1..], end, env);
    }
  }

  /** What the loader does at the cut, after the whole commands before it. */
  function AtCut(p: Progress, boundary: bool, size: nat, env: Env): Loaded {
    if !boundary then UnexpectedEof(p, p.validUpTo, size, env)
    else if p.client.inMulti then UnexpectedEof(p, p.beforeMulti, size, env)
    else Loaded(AofOk, p.client.applied, size)
  }

  lemma LoadStep(c: Argv, tail: Bytes, off: nat, p: Progress, env: Env)
    requires ValidCommand(c) && env.known(c)
    ensures var e := |EncodeCommand(c)|;
            LoadFrom(EncodeCommand(c) + tail, off + e + |tail|, p, env) ==
            LoadFrom(tail, off + e + |tail|, Advance(p, c, off + e, env), env)
  {
    hide ReadCommand, EncodeCommand, RunCommand, IsMulti;
    CommandReadBack(c, tail);
  }

  /** Nothing left, or a proper part of a command left. */
  lemma LoadTail(s: Bytes, size: nat, p: Progress, env: Env)
    requires |s| <= size && (s == [] || ReadCommand(s) == ShortRead)
    ensures LoadFrom(s, size, p, env) == AtCut(p, s == [], size, env)
  {
    assert ReadCommand([]) == End;
    hide ReadCommand;
  }

  lemma {:induction false} LoadFromCut(cs: seq<Argv>, n: nat, off: nat, p: Progress, env: Env)
    requires GoodLog(cs, env) && n <= |EncodeAll(cs)|
    ensures var m := Whole(cs, n);
            LoadFrom(EncodeAll(cs)[..n], off + n, p, env) ==
            AtCut(After(p, cs[..m], off, env), n == |EncodeAll(cs[..m])|, off + n, env)
    decreases cs
  {
    hide ReadCommand, EncodeCommand, LoadFrom, AtCut, Advance;
    var m := Whole(cs, n);
    var s := EncodeAll(cs)[..n];
    if m == 0 {
      if n > 0 {
        assert s == EncodeCommand(cs[0])[..n];
        CommandCut(cs[0], n);
      }
      LoadTail(s, off + n, p, env);
    } else {
      var e := |EncodeCommand(cs[0])|;
      var tail := EncodeAll(cs[1..])[..n - e];
      assert s == EncodeCommand(cs[0]) + tail;
      LoadStep(cs[0], tail, off, p, env);
      LoadFromCut(cs[1..], n - e, off + e, Advance(p, cs[0], off + e, env), env);
      assert cs[..m][1..] == cs[1..][..m - 1];
    }
  }

  /** Where the last MULTI of a log starts; 0 when there is none. */
  function LastMulti(cs: seq<Argv>): (j: nat)
    ensures j <= |cs|
  {
    if cs == [] then 0
    else if IsMulti(cs[|cs| - 1]) then |cs| - 1
    else LastMulti(cs[..|cs| - 1])
  }

  lemma {:induction false} AfterSplit(p: Progress, a: seq<Argv>, b: seq<Argv>, off: nat, env: Env)
    ensures After(p, a + b, off, env) ==
            After(After(p, a, off, env), b, off + |EncodeAll(a)|, env)
    decreases a
  {
    if a == [] {
      assert a + b == b;
    } else {
      assert (a + b)[1..] == a[1..] + b;
      var end := off + |EncodeCommand(a[0])|;
      AfterSplit(Advance(p, a[0], end, env), a[1..], b, end, env);
    }
  }

  lemma {:induction false} BeforeMultiIs(cs: seq<Argv>, env: Env)
    requires env.loadTruncated
    ensures After(START, cs, 0, env).beforeMulti == |EncodeAll(cs[..LastMulti(cs)])|
  {
    if cs != [] {
      var init, last := cs[..|cs| - 1], cs[|cs| - 1];
      assert cs == init + [last];
      AfterSplit(START, init, [last], 0, env);
      AfterClient(START, init, 0, env);
      assert [last][1..] == [];
      BeforeMultiIs(init, env);
      if !IsMulti(last) { assert cs[..LastMulti(cs)] == init[..LastMulti(init)]; }
    }
  }

  ghost predicate OpenMulti(cs: seq<Argv>) { RunAll(FRESH, cs).inMulti }

  /** MAIN RESULT. A log cut after n bytes, loaded with aof-load-truncated: the
      commands executed are those wholly before the cut (transactions only once
      EXEC was reached), and the file is cut back to a command boundary. */
  lemma LoadCutLog(cs: seq<Argv>, n: nat, env: Env)
    requires GoodLog(cs, env) && env.loadTruncated && env.truncateOk
    requires 0 < n <= |EncodeAll(cs)|
    ensures var whole := cs[..Whole(cs, n)];
            var boundary := n == |EncodeAll(whole)|;
            var r := Load(EncodeAll(cs)[..n], env);
            && r.applied == RunAll(FRESH, whole).applied
            && (r.status == AofOk <==> boundary && !OpenMulti(whole))
            && (r.status != AofOk ==> r.status == AofTruncated)
            && r.length == if boundary && OpenMulti(whole)
                           then |EncodeAll(whole[..LastMulti(whole)])|
                           else |EncodeAll(whole)|
  {
    hide LoadFrom, After, RunAll, EncodeAll, LastMulti, Whole;
    var whole := cs[..Whole(cs, n)];
    LoadFromCut(cs, n, 0, START, env);
    AfterClient(START, whole, 0, env);
    BeforeMultiIs(whole, env);
  }

  /** Without aof-load-truncated every cut off a boundary refuses to load and leaves
      the file alone. */
  lemma LoadCutLogStrict(cs: seq<Argv>, n: nat, env: Env)
    requires GoodLog(cs, env) && !env.loadTruncated && 0 < n <= |EncodeAll(cs)|
    ensures var whole := cs[..Whole(cs, n)];
            var r := Load(EncodeAll(cs)[..n], env);
            && r.length == n
            && (r.status == AofOk <==> n == |EncodeAll(whole)| && !OpenMulti(whole))
            && (r.status != AofOk ==> r.status == AofFailed)
  {
    hide LoadFrom, After, RunAll, EncodeAll, Whole;
    var whole := cs[..Whole(cs, n)];
    LoadFromCut(cs, n, 0, START, env);
    AfterClient(START, whole, 0, env);
  }

  lemma {:induction false} WholeOfWhole(cs: seq<Argv>)
    ensures Whole(cs, |EncodeAll(cs)|) == |cs|
  {
    if cs != [] { WholeOfWhole(cs[1..]); }
  }

  /** A complete log loads completely. */
  lemma LoadFullLog(cs: seq<Argv>, env: Env)
    requires GoodLog(cs, env) && env.loadTruncated && env.truncateOk
    ensures var r := Load(EncodeAll(cs), env);
            && r.applied == RunAll(FRESH, cs).applied
            && (r.status in {AofOk, AofEmpty} <==> !OpenMulti(cs))
            && (OpenMulti(cs) ==> r.status == AofTruncated)
  {
    var f := EncodeAll(cs);
    if cs != [] {
      assert EncodeCommand(cs[0]) != [];
      assert f[..|f|] == f;
      WholeOfWhole(cs);
      assert cs[..|cs|] == cs;
      LoadCutLog(cs, |f|, env);
    }
  }

  lemma {:induction false} RunAllSplit(k: Client, a: seq<Argv>, b: seq<Argv>)
    ensures RunAll(k, a + b) == RunAll(RunAll(k, a), b)
    decreases a
  {
    if a == [] {
      assert a + b == b;
    } else {
      assert (a + b)[1..] == a[1..] + b;
      RunAllSplit(RunCommand(k, a[0]), a[1..], b);
    }
  }

  /** Commands queued behind an open MULTI execute nothing. */
  lemma {:induction false} BackToMulti(cs: seq<Argv>)
    requires OpenMulti(cs)
    ensures RunAll(FRESH, cs[..LastMulti(cs)]).applied == RunAll(FRESH, cs).applied
  {
    if cs != [] {
      var init, last := cs[..|cs| - 1], cs[|cs| - 1];
      assert cs == init + [last];
      RunAllSplit(FRESH, init, [last]);
      assert [last][1..] == [];
      assert RunAll(FRESH, cs) == RunCommand(RunAll(FRESH, init), last);
      if !IsMulti(last) {
        BackToMulti(init);
        assert cs[..LastMulti(cs)] == init[..LastMulti(init)];
      }
    }
  }

  /** MAIN RESULT. Loading the file a second time, as it was left by the first load,
      executes the same commands, and it loads cleanly exactly unless the cut was
      strictly inside a command of an open MULTI (or behind a nested MULTI): there
      the first load keeps the unfinished transaction in the file. */
  lemma ReloadTruncated(cs: seq<Argv>, n: nat, env: Env)
    requires GoodLog(cs, env) && env.loadTruncated && env.truncateOk
    requires 0 < n <= |EncodeAll(cs)|
    ensures var whole := cs[..Whole(cs, n)];
            var boundary := n == |EncodeAll(whole)|;
            var f := EncodeAll(cs)[..n];
            var r := Load(f, env);
            && r.length <= n
            && Load(f[..r.length], env).applied == r.applied
            && (Load(f[..r.length], env).status in {AofOk, AofEmpty} <==>
                  !OpenMulti(whole) || (boundary && !OpenMulti(whole[..LastMulti(whole)])))
  {
    hide Load, EncodeAll, RunAll, Whole, LastMulti;
    var whole := cs[..Whole(cs, n)];
    var boundary := n == |EncodeAll(whole)|;
    var f := EncodeAll(cs)[..n];
    LoadCutLog(cs, n, env);
    WholeIsLargest(cs, n);
    var kept := if boundary && OpenMulti(whole) then whole[..LastMulti(whole)] else whole;
    assert GoodLog(kept, env);
    if boundary && OpenMulti(whole) {
      assert whole == kept + whole[LastMulti(whole)..];
      EncodeAllAppend(kept, whole[LastMulti(whole)..]);
      BackToMulti(whole);
    }
    assert EncodeAll(kept) <= EncodeAll(whole) <= EncodeAll(cs);
    assert f[..|EncodeAll(kept)|] == EncodeAll(kept);
    LoadFullLog(kept, env);
  }

  /** A concrete log whose truncated file does not reload cleanly: MULTI, PING, and one
      byte of the EXEC that follows. */
  lemma CutInsideMultiStaysDirty(env: Env)
    requires env.loadTruncated && env.truncateOk && forall c :: env.known(c)
    ensures var queued: seq<Argv> := [[MULTI_NAME], [[112, 105, 110, 103]]];
            var f := EncodeAll(queued) + [STAR];
            && f <= EncodeAll(queued + [[EXEC_NAME]])
            && Load(f, env).length <= |f|
            && Load(f[..Load(f, env).length], env).status == AofTruncated
  {
    hide Load, RunAll, Whole, LastMulti;
    var queued: seq<Argv> := [[MULTI_NAME], [[112, 105, 110, 103]]];
    var cs := queued + [[EXEC_NAME]];
    var f := EncodeAll(queued) + [STAR];
    var n := |f|;
    EncodeAllAppend(queued, [[EXEC_NAME]]);
    EncodeOne([EXEC_NAME]);
    assert EncodeCommand([EXEC_NAME])[0] == STAR;
    assert f == EncodeAll(cs)[..n];
    hide EncodeAll, EncodeCommand;
    OpenPingTransaction();
    WholeOneMore(queued, [EXEC_NAME]);
    assert cs[..2] == queued;
    LoadCutLog(cs, n, env);
    assert f[..|EncodeAll(queued)|] == EncodeAll(queued);
    LoadFullLog(queued, env);
  }

  lemma OpenPingTransaction()
    ensures OpenMulti([[MULTI_NAME], [[112, 105, 110, 103]]])
  {
    var multi, ping: Argv := [MULTI_NAME], [[112, 105, 110, 103]];
    assert Lower(multi[0]) == MULTI_NAME;
    assert Lower(ping[0])[0] == 112 && Lower(multi[0])[0] == 109;
    assert RunCommand(FRESH, multi).inMulti;
    assert RunCommand(RunCommand(FRESH, multi), ping).inMulti;
    assert [multi, ping][1..] == [ping] && [ping][1..] == [];
    assert RunAll(FRESH, [multi, ping]) == RunAll(RunCommand(FRESH, multi), [ping]);
    assert RunAll(RunCommand(FRESH, multi), [ping]) == RunCommand(RunCommand(FRESH, multi), ping);
  }

  /** One byte more than a log of whole commands completes no further command. */
  lemma {:induction false} WholeOneMore(cs: seq<Argv>, c: Argv)
    ensures Whole(cs + [c], |EncodeAll(cs)| + 1) == |cs|
  {
    if cs != [] {
      assert (cs + [c])[1..] == cs[1..] + [c];
      WholeOneMore(cs[1..], c);
    }
  }
}
