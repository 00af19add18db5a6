/** Feeding commands to the append only file with the SELECTs they need, and what
    replaying the file with a fresh client does to which database. */
module AofFeed {
  import opened Resp
  import opened AofLoad

  /** A command together with the database it was executed on. */
  datatype Item = Item(db: nat, argv: Argv)

  const SELECT_NAME: Bytes := [115, 101, 108, 101, 99, 116]
  const SELECT_WORD: Bytes := [83, 69, 76, 69, 67, 84]

  predicate IsSelect(c: Argv) { c != [] && Lower(c[0]) == SELECT_NAME }

  /** MULTI and EXEC bracket transactions and touch no data themselves. */
  predicate IsBracket(c: Argv) { IsMulti(c) || IsExec(c) }

  function SelectCommand(db: nat): Argv { [SELECT_WORD, Digits(db)] }

  /** The database a SELECT switches to: the current one when its argument is not a
      plain decimal index below dbnum. */
  function SelectTarget(c: Argv, db: nat, dbnum: nat): nat {
    if |c| == 2 && Digits(DigitRun(c[1], 0)) == c[1] && DigitRun(c[1], 0) < dbnum
    then DigitRun(c[1], 0) else db
  }

  /** Which command runs on which database when `cs` is executed by a client on `db`. */
  function Targets(db: nat, cs: seq<Argv>, dbnum: nat): seq<Item>
    decreases cs
  {
    if cs == [] then []
    else if IsSelect(cs[0]) then Targets(SelectTarget(cs[0], db, dbnum), cs[1..], dbnum)
    else [Item(db, cs[0])] + Targets(db, cs[1..], dbnum)
  }

  /** The client's database afterwards. */
  function Cursor(db: nat, cs: seq<Argv>, dbnum: nat): nat
    decreases cs
  {
    if cs == [] then db
    else Cursor(if IsSelect(cs[0]) then SelectTarget(cs[0], db, dbnum) else db, cs[1..], dbnum)
  }

  /** feedAppendOnlyFile: what one command adds to the buffer; `selected` is
      server.aof_selected_db, -1 when unknown. */
  function FeedOne(selected: int, it: Item): seq<Argv> {
    if it.db != selected then [SelectCommand(it.db), it.argv] else [it.argv]
  }

  function FeedMany(selected: int, items: seq<Item>): seq<Argv>
    decreases items
  {
    if items == [] then []
    else FeedOne(selected, items[0]) + FeedMany(items[0].db, items[1..])
  }

  method FeedBytes(selected: int, it: Item) returns (bytes: Bytes, selected': int)
    ensures bytes == EncodeAll(FeedOne(selected, it))
    ensures selected' == it.db
  {
    bytes, selected' := [], selected;
    if it.db != selected {
      bytes := CatCommand(bytes, SelectCommand(it.db));
      selected' := it.db;
    }
    ghost var prefix := bytes;
    bytes := CatCommand(bytes, it.argv);
    EncodeOne(it.argv);
    if it.db != selected {
      EncodeOne(SelectCommand(it.db));
      EncodeAllAppend([SelectCommand(it.db)], [it.argv]);
    }
  }

  // ----- transactions keep the order -----

  /** Commands executed so far and then those waiting for EXEC. */
  function Seen(k: Client): seq<Argv> { k.applied + k.queued }

  function Plain(cs: seq<Argv>): seq<Argv> {
    if cs == [] then []
    else (if IsBracket(cs[0]) then [] else [cs[0]]) + Plain(cs[1..])
  }

  /** No MULTI while one is open. */
  ghost predicate Flat(k: Client, cs: seq<Argv>)
    decreases cs
  {
    cs == [] || (!(k.inMulti && IsMulti(cs[0])) && Flat(RunCommand(k, cs[0]), cs[1..]))
  }

  /** A client reached by commands: nothing is queued outside MULTI. */
  ghost predicate Proper(k: Client) { !k.inMulti ==> k.queued == [] }

  lemma MultiIsNotExec(c: Argv)
    ensures !(IsMulti(c) && IsExec(c)) && (IsSelect(c) ==> !IsBracket(c))
  {
    assert MULTI_NAME[0] != EXEC_NAME[0] && SELECT_NAME[0] != EXEC_NAME[0] && MULTI_NAME[0] != SELECT_NAME[0];
  }

  lemma SeenStep(k: Client, c: Argv)
    requires Proper(k) && !(k.inMulti && IsMulti(c))
    ensures Proper(RunCommand(k, c))
    ensures Seen(RunCommand(k, c)) == Seen(k) + (if IsBracket(c) then [] else [c])
  {
    MultiIsNotExec(c);
  }

  /** What the client has seen is the log without its brackets, in order. */
  lemma {:induction false} SeenAll(k: Client, cs: seq<Argv>)
    requires Proper(k) && Flat(k, cs)
    ensures Proper(RunAll(k, cs)) && Seen(RunAll(k, cs)) == Seen(k) + Plain(cs)
    decreases cs
  {
    hide IsBracket, RunCommand, Seen;
    if cs != [] {
      SeenStep(k, cs[0]);
      SeenAll(RunCommand(k, cs[0]), cs[1..]);
      assert Plain(cs) == (if IsBracket(cs[0]) then [] else [cs[0]]) + Plain(cs[1..]);
    }
  }

  // ----- SELECT bookkeeping -----

  lemma SelectWorks(db: nat, from: nat, dbnum: nat)
    requires db < dbnum
    ensures IsSelect(SelectCommand(db)) && !IsBracket(SelectCommand(db))
    ensures SelectTarget(SelectCommand(db), from, dbnum) == db
  {
    assert Lower(SELECT_WORD) == SELECT_NAME;
    MultiIsNotExec(SelectCommand(db));
    DigitRunOfDigits(db);
  }

  lemma {:induction false} TargetsSplit(db: nat, a: seq<Argv>, b: seq<Argv>, dbnum: nat)
    ensures Targets(db, a + b, dbnum) ==
            Targets(db, a, dbnum) + Targets(Cursor(db, a, dbnum), b, dbnum)
    ensures Cursor(db, a + b, dbnum) == Cursor(Cursor(db, a, dbnum), b, dbnum)
    decreases a
  {
    hide SelectTarget, IsSelect;
    if a == [] {
      assert a + b == b;
    } else {
      assert (a + b)[1..] == a[1..] + b;
      TargetsSplit(if IsSelect(a[0]) then SelectTarget(a[0], db, dbnum) else db, a[1..], b, dbnum);
    }
  }

  lemma {:induction false} PlainSplit(a: seq<Argv>, b: seq<Argv>)
    ensures Plain(a + b) == Plain(a) + Plain(b)
  {
    if a == [] {
      assert a + b == b;
    } else {
      assert (a + b)[1..] == a[1..] + b;
      PlainSplit(a[1..], b);
    }
  }

  /** The items that touch data. */
  function DataItems(items: seq<Item>): seq<Item> {
    if items == [] then []
    else (if IsBracket(items[0].argv) then [] else [items[0]]) + DataItems(items[1..])
  }

  /** What may be fed: a valid database, and no SELECT of its own, since the server
      tracks the database itself and never propagates SELECT. */
  ghost predicate Feedable(it: Item, dbnum: nat) {
    it.db < dbnum && it.db <= INT_MAX && ValidCommand(it.argv) && !IsSelect(it.argv)
  }

  lemma FeedOnePlain(selected: int, from: nat, it: Item, dbnum: nat)
    requires Feedable(it, dbnum) && (selected == -1 || selected == from)
    ensures var p := Plain(FeedOne(selected, it));
            && Targets(from, p, dbnum) == DataItems([it])
            && Cursor(from, p, dbnum) == it.db
  {
    hide SelectTarget, IsSelect, IsBracket, SelectCommand, Targets, Cursor, Plain, DataItems;
    SelectWorks(it.db, from, dbnum);
    var sel := SelectCommand(it.db);
    OnePlain(it);
    OneTarget(it.db, it.argv, dbnum);
    NoTarget(it.db, dbnum);
    if it.db != selected {
      PlainSplit([sel], [it.argv]);
      OnePlain(Item(0, sel));
      assert [sel] + [it.argv] == [sel, it.argv];
      OneTarget(from, sel, dbnum);
      TargetsSplit(from, [sel], Plain([it.argv]), dbnum);
    }
  }

  lemma OneTarget(db: nat, c: Argv, dbnum: nat)
    ensures Targets(db, [c], dbnum) == if IsSelect(c) then [] else [Item(db, c)]
    ensures Cursor(db, [c], dbnum) == if IsSelect(c) then SelectTarget(c, db, dbnum) else db
  {
    hide SelectTarget, IsSelect;
    assert [c][1..] == [];
  }

  lemma NoTarget(db: nat, dbnum: nat)
    ensures Targets(db, [], dbnum) == [] && Cursor(db, [], dbnum) == db
  {}

  lemma OnePlain(it: Item)
    ensures Plain([it.argv]) == if IsBracket(it.argv) then [] else [it.argv]
    ensures DataItems([it]) == if IsBracket(it.argv) then [] else [it]
  {
    hide IsBracket;
    assert [it][1..] == [] && [it.argv][1..] == [];
  }

  /** MAIN RESULT (databases). However the databases are mixed, the plain commands fed
      from a client on `from` run on exactly the databases they were fed for. The only
      demand on the start is that the remembered database is right or unknown. */
  lemma {:induction false} FeedTargets(selected: int, from: nat, items: seq<Item>, dbnum: nat)
    requires forall it | it in items :: Feedable(it, dbnum)
    requires selected == -1 || selected == from
    ensures var p := Plain(FeedMany(selected, items));
            && Targets(from, p, dbnum) == DataItems(items)
            && Cursor(from, p, dbnum) == if items == [] then from else items[|items| - 1].db
    decreases items
  {
    hide FeedOne, Feedable, IsBracket;
    if items != [] {
      var one, rest := FeedOne(selected, items[0]), items[1..];
      FeedOnePlain(selected, from, items[0], dbnum);
      FeedTargets(items[0].db, items[0].db, rest, dbnum);
      PlainSplit(one, FeedMany(items[0].db, rest));
      TargetsSplit(from, Plain(one), Plain(FeedMany(items[0].db, rest)), dbnum);
      DataItemsHead(items);
    }
  }

  lemma DataItemsHead(items: seq<Item>)
    requires items != []
    ensures DataItems(items) == DataItems([items[0]]) + DataItems(items[1..])
  {
    assert [items[0]][1..] == [];
  }

  /** Replaying a file with a fresh client on database 0. */
  function Replayed(cs: seq<Argv>, dbnum: nat): seq<Item> {
    Targets(0, RunAll(FRESH, cs).applied, dbnum)
  }

  /** A fed log in which no transaction is open replays to the items that were fed. */
  lemma ReplayFedLog(items: seq<Item>, dbnum: nat)
    requires forall it | it in items :: Feedable(it, dbnum)
    requires Flat(FRESH, FeedMany(-1, items)) && !OpenMulti(FeedMany(-1, items))
    ensures Replayed(FeedMany(-1, items), dbnum) == DataItems(items)
  {
    var log := FeedMany(-1, items);
    SeenAll(FRESH, log);
    FeedTargets(-1, 0, items, dbnum);
    assert Seen(FRESH) + Plain(log) == Plain(log);
    assert RunAll(FRESH, log).applied == Seen(RunAll(FRESH, log));
  }

  /** With a stale aof_selected_db the first command of a file lands on database 0
      instead of its own: this is why a rewrite start must forget it. */
  lemma StaleSelectedDbMisroutes(it: Item, dbnum: nat)
    requires Feedable(it, dbnum) && it.db != 0 && !IsBracket(it.argv)
    ensures Replayed(FeedMany(it.db, [it]), dbnum) == [Item(0, it.argv)]
  {
    assert [it][1..] == [] && [it.argv][1..] == [];
    assert FeedMany(it.db, [it]) == [it.argv];
    assert RunAll(FRESH, [it.argv]) == RunCommand(FRESH, it.argv);
    assert RunCommand(FRESH, it.argv).applied == [it.argv];
    assert Targets(0, [it.argv], dbnum) == [Item(0, it.argv)] + Targets(0, [], dbnum);
  }
}
