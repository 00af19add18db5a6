/** ACL command rules as text: the command table, what each rule does to a selector,
    and the rules a selector is described by. */
module AclRules {
  import opened Wrappers

  const BITS: nat := 1024          // USER_COMMAND_BITS_COUNT
  const RESERVED: nat := BITS - 1  // the "future commands" bit

  /** A command or, one level down, a subcommand; `cats` holds indices into CATEGORIES. */
  datatype Command = Command(
    name: string, fullname: string, id: nat, cats: set<Cat>, isModule: bool, subs: seq<Command>)

  const CATEGORIES: seq<string> := [
    "keyspace", "read", "write", "set", "sortedset", "list", "hash", "string", "bitmap", "hyperloglog",
    "geo", "stream", "pubsub", "admin", "fast", "slow", "blocking", "dangerous", "connection",
    "transaction", "scripting"]

  /** An index into CATEGORIES. */
  type Cat = n: nat | n < 21

  /** The command part of a selector. A command id without first-args has no entry. */
  datatype Sel = Sel(bits: seq<bool>, all: bool, firstArgs: map<nat, seq<string>>)

  /** The selector after +@all or -@all. */
  function Uniform(v: bool): (r: Sel)
    ensures |r.bits| == BITS && (forall i | 0 <= i < BITS :: r.bits[i] == v) && r.all == v && r.firstArgs == map[]
  {
    Sel(seq(BITS, _ => v), v, map[])
  }

  // ----- strings -----

  function LowerChar(c: char): char {
    if 'A' <= c <= 'Z' then c + ('a' - 'A') else c
  }

  function Lower(s: string): (r: string)
    ensures |r| == |s|
  {
    seq(|s|, i requires 0 <= i < |s| => LowerChar(s[i]))
  }

  /** strcasecmp(a, b) == 0 */
  predicate Same(a: string, b: string) { Lower(a) == Lower(b) }

  /** strrchr(s, '|'), as an index. */
  function LastBar(s: string): (r: Option<nat>)
    ensures r.Some? ==> r.value < |s| && s[r.value] == '|' && '|' !in s[r.value + 1..]
    ensures r.None? ==> '|' !in s
  {
    if s == [] then None
    else if s[|s| - 1] == '|' then Some(|s| - 1)
    else
      var r := LastBar(s[..|s| - 1]);
      assert s == s[..|s| - 1] + [s[|s| - 1]];
      assert r.Some? ==> s[r.value + 1..] == s[..|s| - 1][r.value + 1..] + [s[|s| - 1]];
      r
  }

  // ----- lookup -----

  function Find(cmds: seq<Command>, name: string): (r: Option<Command>)
    ensures r.Some? ==> r.value in cmds && Same(r.value.name, name)
  {
    if cmds == [] then None
    else if Same(cmds[0].name, name) then Some(cmds[0])
    else Find(cmds[1..], name)
  }

  datatype Found = Missing | Top(cmd: Command) | Child(cmd: Command)

  /** ACLLookupCommand: "cmd" or "container|sub"; further bars never match. */
  function Lookup(table: seq<Command>, name: string): Found {
    match LastBar(name)
    case None =>
      var c := Find(table, name);
      if name == "" || c.None? then Missing else Top(c.value)
    case Some(i) =>
      var c := Find(table, name[..i]);
      if '|' in name[..i] || c.None? || c.value.subs == [] then Missing
      else
        var sub := Find(c.value.subs, name[i + 1..]);
        if sub.None? then Missing else Child(sub.value)
  }

  function CategoryFrom(name: string, j: nat): (r: Option<Cat>)
    requires j <= 21
    ensures r.Some? ==> j <= r.value && Same(CATEGORIES[r.value], name)
    decreases 21 - j
  {
    if j == 21 then None
    else if Same(CATEGORIES[j], name) then Some(j)
    else CategoryFrom(name, j + 1)
  }

  /** ACLGetCommandCategoryFlagByName */
  function Category(name: string): Option<Cat> { CategoryFrom(name, 0) }

  // ----- single changes -----

  function GetBit(s: Sel, id: nat): bool { id < |s.bits| && s.bits[id] }

  /** ACLSetSelectorCommandBit: clearing a bit also clears ALLCOMMANDS. */
  function SetBit(s: Sel, id: nat, v: bool): (r: Sel)
    ensures |r.bits| == |s.bits|
  {
    if id >= |s.bits| then s else s.(bits := s.bits[id := v], all := s.all && v)
  }

  function SetBits(s: Sel, cmds: seq<Command>, v: bool): (r: Sel)
    ensures |r.bits| == |s.bits|
    decreases cmds
  {
    if cmds == [] then s else SetBits(SetBit(s, cmds[0].id, v), cmds[1..], v)
  }

  /** ACLChangeSelectorPerm: the command and its direct subcommands. */
  function ChangePerm(s: Sel, c: Command, v: bool): (r: Sel)
    ensures |r.bits| == |s.bits|
  {
    var t := SetBit(s, c.id, v);
    SetBits(t.(firstArgs := t.firstArgs - {c.id}), c.subs, v)
  }

  /** ACLSetSelectorCommandBitsForCategoryLogic; module commands are skipped. */
  function SetCategory(s: Sel, cmds: seq<Command>, cat: Cat, v: bool): (r: Sel)
    ensures |r.bits| == |s.bits|
    decreases cmds
  {
    if cmds == [] then s
    else
      var c := cmds[0];
      var t := if c.isModule || cat !in c.cats then s else ChangePerm(s, c, v);
      var u := if c.isModule then t else SetCategory(t, c.subs, cat, v);
      SetCategory(u, cmds[1..], cat, v)
  }

  function FirstArgs(s: Sel, id: nat): seq<string> { if id in s.firstArgs then s.firstArgs[id] else [] }

  predicate Mentions(args: seq<string>, arg: string) { exists i :: 0 <= i < |args| && Same(args[i], arg) }

  /** ACLAddAllowedFirstArg */
  function AddFirstArg(s: Sel, id: nat, arg: string): Sel {
    if Mentions(FirstArgs(s, id), arg) then s
    else s.(firstArgs := s.firstArgs[id := FirstArgs(s, id) + [arg]])
  }

  // ----- rules -----

  datatype Code = Ok | NoEntry | IsChild | Invalid
    | OtherRule   // key and channel patterns: they leave the command part alone

  /** ACLSetSelector on the command part of a selector. */
  function SetSelector(table: seq<Command>, s: Sel, op: string): (Sel, Code) {
    if Same(op, "allcommands") || Same(op, "+@all") then (Uniform(true), Ok)
    else if Same(op, "nocommands") || Same(op, "-@all") then (Uniform(false), Ok)
    else if op == "" then (s, Invalid)
    else if op[0] == '~' || op[0] == '%' || op[0] == '&' || Same(op, "allkeys") || Same(op, "resetkeys")
            || Same(op, "allchannels") || Same(op, "resetchannels") then (s, OtherRule)
    else if op[0] != '+' && op[0] != '-' then (s, Invalid)
    else if |op| > 1 && op[1] == '@' then
      match Category(op[2..])
      case None => (s, NoEntry)
      case Some(cat) => (SetCategory(s, table, cat, op[0] == '+'), Ok)
    else
      var text := op[1..];
      if op[0] == '-' then ChangeNamed(table, s, text, false)
      else
        var bar := LastBar(text);
        if bar.None? then ChangeNamed(table, s, text, true) else AllowWithBar(table, s, text, bar.value)
  }

  function ChangeNamed(table: seq<Command>, s: Sel, name: string, v: bool): (Sel, Code) {
    var found := Lookup(table, name);
    if found.Missing? then (s, NoEntry) else (ChangePerm(s, found.cmd, v), Ok)
  }

  /** "+name|rest": a subcommand of a container, or a first-arg of another command. */
  function AllowWithBar(table: seq<Command>, s: Sel, text: string, bar: nat): (Sel, Code)
    requires bar < |text|
  {
    var arg := text[bar + 1..];
    match Lookup(table, text[..bar])
    case Missing => (s, NoEntry)
    case Child(_) => (s, IsChild)
    case Top(c) =>
      if arg == "" then (s, Invalid)
      else if c.subs != [] then
        ChangeNamed(table, s, text, true)
      else (AddFirstArg(s, c.id, arg), Ok)
  }

  /** Rules in order; the first one refused stops the sequence. Key and channel patterns do not. */
  function Apply(table: seq<Command>, s: Sel, ops: seq<string>): Option<Sel>
    decreases ops
  {
    if ops == [] then Some(s)
    else
      var (t, code) := SetSelector(table, s, ops[0]);
      if code in {Ok, OtherRule} then Apply(table, t, ops[1..]) else None
  }

  // ----- describing -----

  function CategoryRule(cat: Cat, v: bool): string {
    (if v then "+@" else "-@") + CATEGORIES[cat]
  }

  function CommandRule(c: Command, v: bool): string { (if v then "+" else "-") + c.fullname }

  function FirstArgRules(c: Command, args: seq<string>): seq<string> {
    if args == [] then [] else ["+" + c.fullname + "|" + args[0]] + FirstArgRules(c, args[1..])
  }

  /** ACLDescribeSelectorCommandRulesSingleCommands: the rules it adds, and the fake
      selector it leaves. */
  function Singles(user: Sel, fake: Sel, cmds: seq<Command>): (r: (seq<string>, Sel))
    ensures |r.1.bits| == |fake.bits|
    decreases cmds
  {
    if cmds == [] then ([], fake)
    else
      var c := cmds[0];
      var v := GetBit(user, c.id);
      var differs := v != GetBit(fake, c.id);
      var own := if differs then [CommandRule(c, v)] else [];
      var fake1 := if differs then ChangePerm(fake, c, v) else fake;
      var (below, fake2) := Singles(user, fake1, c.subs);
      var args := if v then [] else FirstArgRules(c, FirstArgs(user, c.id));
      var (rest, fake3) := Singles(user, fake2, cmds[1..]);
      (own + below + args + rest, fake3)
  }

  /** The start rule, the chosen categories, then what is still different. */
  function Description(table: seq<Command>, user: Sel, cats: seq<Cat>): seq<string>
  {
    var additive := !GetBit(user, RESERVED);
    var start := Uniform(!additive);
    [if additive then "-@all" else "+@all"] + CategoryRules(cats, additive)
      + Singles(user, AfterCategories(start, table, cats, additive), table).0
  }

  function CategoryRules(cats: seq<Cat>, v: bool): seq<string>
  {
    if cats == [] then [] else [CategoryRule(cats[0], v)] + CategoryRules(cats[1..], v)
  }

  function AfterCategories(s: Sel, table: seq<Command>, cats: seq<Cat>, v: bool): (r: Sel)
    ensures |r.bits| == |s.bits|
    decreases cats
  {
    if cats == [] then s else AfterCategories(SetCategory(s, table, cats[0], v), table, cats[1..], v)
  }

  // ----- well-formed tables and selectors -----

  function Ids(cmds: seq<Command>): set<nat>
    decreases cmds
  {
    if cmds == [] then {} else {cmds[0].id} + Ids(cmds[0].subs) + Ids(cmds[1..])
  }

  ghost predicate DistinctIds(cmds: seq<Command>)
    decreases cmds
  {
    cmds == [] ||
    (&& cmds[0].id !in Ids(cmds[0].subs) && DistinctIds(cmds[0].subs)
     && ({cmds[0].id} + Ids(cmds[0].subs)) !! Ids(cmds[1..]) && DistinctIds(cmds[1..]))
  }

  ghost predicate DistinctNames(cmds: seq<Command>) {
    forall i, j | 0 <= i < j < |cmds| :: !Same(cmds[i].name, cmds[j].name)
  }

  ghost predicate GoodName(name: string) { name != "" && '|' !in name && name[0] != '@' }

  ghost predicate GoodContainer(c: Command) {
    && GoodName(c.name) && c.fullname == c.name && DistinctNames(c.subs)
    && forall sub | sub in c.subs ::
         GoodName(sub.name) && sub.fullname == c.name + "|" + sub.name && sub.subs == []
  }

  /** The fixed command table: one level of subcommands, every id its own and none of
      them the reserved one, which ACLGetCommandID never hands out. */
  ghost predicate TableOk(table: seq<Command>) {
    && DistinctIds(table) && (forall id | id in Ids(table) :: id < RESERVED)
    && DistinctNames(table) && forall c | c in table :: GoodContainer(c)
  }

  /** First-args belong to commands without subcommands, and look like the parser leaves them. */
  ghost predicate FirstArgsOk(table: seq<Command>, s: Sel) {
    forall id | id in s.firstArgs ::
      && (exists c :: c in table && c.id == id && c.subs == [])
      && s.firstArgs[id] != [] && ArgsOk(s.firstArgs[id])
  }

  ghost predicate ArgsOk(args: seq<string>) {
    && (forall a | a in args :: a != "" && '|' !in a)
    && (forall i, j | 0 <= i < j < |args| :: !Same(args[i], args[j]))
  }

  /** What every selector reachable by rules satisfies: bits that belong to no command
      follow the reserved bit, and ALLCOMMANDS means every bit. */
  ghost predicate SelectorOk(table: seq<Command>, s: Sel) {
    && |s.bits| == BITS
    && (forall id | 0 <= id < BITS && id !in Ids(table) :: s.bits[id] == s.bits[RESERVED])
    && (s.all ==> forall id | 0 <= id < BITS :: s.bits[id])
    && FirstArgsOk(table, s)
  }
}
