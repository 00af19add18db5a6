/** The selector as the server updates it in place, and the describing pass with its
    greedy choice of categories. */
module AclSelector {
  import opened Wrappers
  import opened AclRules
  import opened AclRoundTrip

  const INT_MAX: nat := 0x7fff_ffff

  /** How many commands of a category are allowed and denied. */
  function Count(s: Sel, cmds: seq<Command>, cat: Cat): (nat, nat)
    decreases cmds
  {
    if cmds == [] then (0, 0)
    else
      var c := cmds[0];
      var below := Count(s, c.subs, cat);
      var rest := Count(s, cmds[1..], cat);
      var on := if cat in c.cats && GetBit(s, c.id) then 1 else 0;
      var off := if cat in c.cats && !GetBit(s, c.id) then 1 else 0;
      (on + below.0 + rest.0, off + below.1 + rest.1)
  }

  function Differing(s: Sel, table: seq<Command>, cat: Cat, additive: bool): nat {
    if additive then Count(s, table, cat).1 else Count(s, table, cat).0
  }

  function Agreeing(s: Sel, table: seq<Command>, cat: Cat, additive: bool): nat {
    if additive then Count(s, table, cat).0 else Count(s, table, cat).1
  }

  predicate Eligible(s: Sel, table: seq<Command>, cat: Cat, additive: bool) {
    Differing(s, table, cat, additive) <= INT_MAX && Differing(s, table, cat, additive) < Agreeing(s, table, cat, additive)
  }

  /** Fewer differences, or as many and more in common. */
  predicate Better(s: Sel, table: seq<Command>, a: Cat, b: Cat, additive: bool) {
    || Differing(s, table, a, additive) < Differing(s, table, b, additive)
    || (Differing(s, table, a, additive) == Differing(s, table, b, additive)
        && Agreeing(s, table, a, additive) > Agreeing(s, table, b, additive))
  }

  class Selector {
    var bits: seq<bool>
    var all: bool
    var firstArgs: map<nat, seq<string>>

    ghost function View(): Sel
      reads this
    {
      Sel(bits, all, firstArgs)
    }

    /** A zeroed selector. */
    constructor ()
      ensures View() == Sel(Uniform(false).bits, false, map[])
    {
      bits, all, firstArgs := Uniform(false).bits, false, map[];
    }

    method SetCommandBit(id: nat, v: bool)
      modifies this
      ensures View() == SetBit(old(View()), id, v)
    {
      if id < |bits| {
        bits := bits[id := v];
        if !v { all := false; }
      }
    }

    /** ACLChangeSelectorPerm */
    method ChangeSelectorPerm(c: Command, v: bool)
      modifies this
      ensures View() == ChangePerm(old(View()), c, v)
    {
      SetCommandBit(c.id, v);
      firstArgs := firstArgs - {c.id};
      for i := 0 to |c.subs|
        invariant SetBits(View(), c.subs[i..], v) == ChangePerm(old(View()), c, v)
      {
        assert c.subs[i..][1..] == c.subs[i + 1..];
        SetCommandBit(c.subs[i].id, v);
      }
    }

    /** ACLSetSelectorCommandBitsForCategoryLogic */
    method SetCommandsOfCategory(cmds: seq<Command>, cat: Cat, v: bool)
      modifies this
      ensures View() == SetCategory(old(View()), cmds, cat, v)
      decreases cmds
    {
      for i := 0 to |cmds|
        invariant SetCategory(View(), cmds[i..], cat, v) == SetCategory(old(View()), cmds, cat, v)
      {
        var c := cmds[i];
        assert cmds[i..][0] == c && cmds[i..][1..] == cmds[i + 1..];
        if c.isModule { continue; }
        if cat in c.cats { ChangeSelectorPerm(c, v); }
        if c.subs != [] { SetCommandsOfCategory(c.subs, cat, v); }
      }
    }

    /** ACLCountCategoryBitsForCommands */
    method CountCategory(cmds: seq<Command>, cat: Cat) returns (on: nat, off: nat)
      ensures (on, off) == Count(View(), cmds, cat)
      decreases cmds
    {
      on, off := 0, 0;
      for i := 0 to |cmds|
        invariant on + Count(View(), cmds[i..], cat).0 == Count(View(), cmds, cat).0
        invariant off + Count(View(), cmds[i..], cat).1 == Count(View(), cmds, cat).1
      {
        var c := cmds[i];
        assert cmds[i..][0] == c && cmds[i..][1..] == cmds[i + 1..];
        if cat in c.cats {
          if c.id < |bits| && bits[c.id] { on := on + 1; } else { off := off + 1; }
        }
        if c.subs != [] {
          var a, b := CountCategory(c.subs, cat);
          on, off := on + a, off + b;
        }
      }
    }

    /** ACLAddAllowedFirstArg */
    method AddAllowedFirstArg(id: nat, arg: string)
      modifies this
      ensures View() == AddFirstArg(old(View()), id, arg)
    {
      var items := 0;
      var args := if id in firstArgs then firstArgs[id] else [];
      while items < |args|
        invariant 0 <= items <= |args|
        invariant forall i | 0 <= i < items :: !Same(args[i], arg)
      {
        if Same(args[items], arg) { return; }
        items := items + 1;
      }
      firstArgs := firstArgs[id := args + [arg]];
    }

    /** ACLSetSelector, for the rules about commands. */
    method Set(table: seq<Command>, op: string) returns (code: Code)
      modifies this
      ensures (View(), code) == SetSelector(table, old(View()), op)
    {
      hide Same, ChangePerm, SetCategory, AddFirstArg, Lookup, LastBar, Category;
      if Same(op, "allcommands") || Same(op, "+@all") {
        bits, all, firstArgs := Uniform(true).bits, true, map[];
        return Ok;
      }
      if Same(op, "nocommands") || Same(op, "-@all") {
        bits, all, firstArgs := Uniform(false).bits, false, map[];
        return Ok;
      }
      if op == "" { return Invalid; }
      if op[0] == '~' || op[0] == '%' || op[0] == '&' || Same(op, "allkeys") || Same(op, "resetkeys")
         || Same(op, "allchannels") || Same(op, "resetchannels") {
        return OtherRule;
      }
      if op[0] != '+' && op[0] != '-' { return Invalid; }
      if |op| > 1 && op[1] == '@' {
        var cat := Category(op[2..]);
        if cat.None? { return NoEntry; }
        SetCommandsOfCategory(table, cat.value, op[0] == '+');
        return Ok;
      }
      var text := op[1..];
      var bar := LastBar(text);
      var name := text;
      if op[0] == '+' && bar.Some? {
        var found := Lookup(table, text[..bar.value]);
        if found.Missing? { return NoEntry; }
        if found.Child? { return IsChild; }
        var arg := text[bar.value + 1..];
        if arg == "" { return Invalid; }
        if found.cmd.subs == [] {
          AddAllowedFirstArg(found.cmd.id, arg);
          return Ok;
        }
      }
      var found := Lookup(table, text);
      if found.Missing? { return NoEntry; }
      ChangeSelectorPerm(found.cmd, op[0] == '+');
      return Ok;
    }
  }

  /** The rules a command's first-args add. */
  method EmitFirstArgs(c: Command, args: seq<string>) returns (rules: seq<string>)
    ensures rules == FirstArgRules(c, args)
  {
    rules := [];
    for j := 0 to |args|
      invariant rules + FirstArgRules(c, args[j..]) == FirstArgRules(c, args)
    {
      assert args[j..][1..] == args[j + 1..];
      rules := rules + ["+" + c.fullname + "|" + args[j]];
    }
  }

  /** One command: its own rule if its bit differs, its subcommands, its first-args. */
  method DescribeCommand(user: Selector, fake: Selector, c: Command) returns (rules: seq<string>)
    requires user != fake
    modifies fake
    ensures var f := AfterOwn(user.View(), old(fake.View()), c);
            var below := Singles(user.View(), f, c.subs);
            && rules == Own(user.View(), old(fake.View()), c) + below.0 + ArgRules(user.View(), c)
            && fake.View() == below.1
    ensures user.View() == old(user.View())
    decreases c
  {
    hide ChangePerm, CommandRule, FirstArgRules, Singles;
    rules := [];
    var userbit := c.id < |user.bits| && user.bits[c.id];
    var fakebit := c.id < |fake.bits| && fake.bits[c.id];
    if userbit != fakebit {
      rules := [CommandRule(c, userbit)];
      fake.ChangeSelectorPerm(c, userbit);
    }
    var below := DescribeSingleCommands(user, fake, c.subs);
    rules := rules + below;
    if !userbit {
      var args := EmitFirstArgs(c, if c.id in user.firstArgs then user.firstArgs[c.id] else []);
      rules := rules + args;
    }
  }

  /** ACLDescribeSelectorCommandRulesSingleCommands */
  method DescribeSingleCommands(user: Selector, fake: Selector, cmds: seq<Command>) returns (rules: seq<string>)
    requires user != fake
    modifies fake
    ensures (rules, fake.View()) == Singles(user.View(), old(fake.View()), cmds)
    ensures user.View() == old(user.View())
    decreases cmds
  {
    hide ChangePerm, CommandRule, FirstArgRules, Singles, Own, AfterOwn, ArgRules;
    rules := [];
    ghost var u, start := user.View(), fake.View();
    ghost var whole := Singles(u, start, cmds);
    assert cmds[0..] == cmds && [] + whole.0 == whole.0;
    for i := 0 to |cmds|
      invariant user.View() == u
      invariant rules + Singles(u, fake.View(), cmds[i..]).0 == whole.0
      invariant Singles(u, fake.View(), cmds[i..]).1 == whole.1
    {
      assert cmds[i..][0] == cmds[i] && cmds[i..][1..] == cmds[i + 1..];
      SinglesOf(u, fake.View(), cmds[i..]);
      ghost var before := rules;
      var mine := DescribeCommand(user, fake, cmds[i]);
      rules := rules + mine;
      ghost var rest := Singles(u, fake.View(), cmds[i + 1..]).0;
      assert before + (mine + rest) == rules + rest;
    }
    assert cmds[|cmds|..] == [];
    SinglesOfNothing(u, fake.View());
    assert rules + [] == rules;
  }

  /** One round of the greedy loop: the best category not applied yet, or -1. */
  method BestCategory(temp: Selector, table: seq<Command>, applied: seq<bool>, additive: bool) returns (best: int)
    requires |applied| == 21
    ensures -1 <= best < 21
    ensures best == -1 ==> forall j: Cat :: applied[j] || !Eligible(temp.View(), table, j, additive)
    ensures best >= 0 ==>
              && !applied[best] && Eligible(temp.View(), table, best, additive)
              && forall j: Cat :: !applied[j] && Eligible(temp.View(), table, j, additive) ==>
                                  !Better(temp.View(), table, j, best, additive)
  {
    hide Count;
    ghost var v := temp.View();
    best := -1;
    var mindiff, maxsame := INT_MAX, 0;
    for j := 0 to 21
      invariant -1 <= best < j
      invariant best == -1 ==> mindiff == INT_MAX && maxsame == 0
      invariant best == -1 ==> forall k: Cat | k < j :: applied[k] || !Eligible(v, table, k, additive)
      invariant best >= 0 ==>
                  && !applied[best] && Eligible(v, table, best, additive)
                  && mindiff == Differing(v, table, best, additive) && maxsame == Agreeing(v, table, best, additive)
                  && forall k: Cat | k < j :: !applied[k] && Eligible(v, table, k, additive) ==>
                                              !Better(v, table, k, best, additive)
    {
      if applied[j] { continue; }
      var on, off := temp.CountCategory(table, j);
      var diff := if additive then off else on;
      var same := if additive then on else off;
      if same > diff && (diff < mindiff || (diff == mindiff && same > maxsame)) {
        best, mindiff, maxsame := j, diff, same;
      }
    }
  }

  function Unapplied(applied: seq<bool>): nat {
    if applied == [] then 0 else (if applied[0] then 0 else 1) + Unapplied(applied[1..])
  }

  lemma {:induction false} ApplyingDecreases(applied: seq<bool>, i: nat)
    requires i < |applied| && !applied[i]
    ensures Unapplied(applied[i := true]) < Unapplied(applied)
  {
    if i > 0 {
      assert applied[i := true][1..] == applied[1..][i - 1 := true];
      ApplyingDecreases(applied[1..], i - 1);
    }
  }

  /** ACLDescribeSelectorCommandRules. It ends, never panics, and its rules rebuild the
      selector: see AclRoundTrip.DescriptionRoundTrip. */
  method Describe(table: seq<Command>, user: Selector) returns (rules: seq<string>, panicked: bool)
    requires TableOk(table) && SelectorOk(table, user.View())
    ensures !panicked
    ensures var t := Apply(table, Uniform(false), rules);
            && t.Some? && t.value.bits == user.bits
            && (forall id | 0 <= id < BITS && !user.bits[id] ::
                  FirstArgs(t.value, id) == FirstArgs(user.View(), id))
            && (forall id, arg | 0 <= id < BITS :: CanRun(t.value, id, arg) == CanRun(user.View(), id, arg))
  {
    hide TableOk, SelectorOk, SetSelector, Singles, SetCategory, CategoryRule, CanRun, Apply, Count;
    ghost var u := user.View();
    SelectorSize(table, u);
    var fake := new Selector();
    var additive := !user.bits[RESERVED];
    var start := if additive then "-@all" else "+@all";
    StartRule(table, fake.View(), !additive);
    var code := fake.Set(table, start);
    rules := [start];
    var temp := new Selector();
    temp.bits := user.bits;
    var applied := seq(21, _ => false);
    ghost var cats: seq<Cat> := [];
    AfterNoCategories(table, !additive);
    while true
      invariant |applied| == 21 && user.View() == u
      invariant rules == [start] + CategoryRules(cats, additive)
      invariant fake.View() == AfterCategories(Uniform(!additive), table, cats, additive)
      decreases Unapplied(applied)
    {
      var best := BestCategory(temp, table, applied, additive);
      if best == -1 { break; }
      ghost var f := fake.View();
      var op := CategoryRule(best, additive);
      CategoryRuleMeans(table, f, best, additive);
      code := fake.Set(table, op);
      code := temp.Set(table, CategoryRule(best, !additive));
      rules := rules + [op];
      OneMoreCategory(table, Uniform(!additive), cats, best, additive);
      cats := cats + [best];
      ApplyingDecreases(applied, best);
      applied := applied[best := true];
    }
    var singles := DescribeSingleCommands(user, fake, table);
    rules := rules + singles;
    UniformOk(table, false);
    DescriptionRoundTrip(table, u, cats, Uniform(false));
    assert rules == Description(table, u, cats);
    panicked := fake.bits != user.bits;
  }

  lemma AfterNoCategories(table: seq<Command>, v: bool)
    ensures AfterCategories(Uniform(v), table, [], !v) == Uniform(v)
    ensures CategoryRules([], !v) == []
  {}

  lemma {:induction false} OneMoreCategory(table: seq<Command>, s: Sel, cats: seq<Cat>, cat: Cat, v: bool)
    ensures AfterCategories(s, table, cats + [cat], v) == SetCategory(AfterCategories(s, table, cats, v), table, cat, v)
    ensures CategoryRules(cats + [cat], v) == CategoryRules(cats, v) + [CategoryRule(cat, v)]
    decreases cats
  {
    hide SetCategory, CategoryRule;
    if cats == [] {
      assert cats + [cat] == [cat] && [cat][1..] == [];
    } else {
      assert (cats + [cat])[0] == cats[0] && (cats + [cat])[1..] == cats[1..] + [cat];
      OneMoreCategory(table, SetCategory(s, table, cats[0], v), cats[1..], cat, v);
    }
  }

  /** ACLGetCommandID and its table: ids are given once per name, never reused and never
      the reserved one, which is what TableOk asks of a command table. */
  class CommandIds {
    var ids: map<string, nat>
    var nextid: nat

    ghost predicate Valid()
      reads this
    {
      && nextid != RESERVED
      && (forall name | name in ids :: ids[name] < nextid && ids[name] != RESERVED)
      && forall a, b | a in ids && b in ids && a != b :: ids[a] != ids[b]
    }

    constructor ()
      ensures Valid() && ids == map[]
    {
      ids, nextid := map[], 0;
    }

    method GetCommandID(name: string) returns (id: nat)
      requires Valid()
      modifies this
      ensures Valid() && id != RESERVED
      ensures ids == old(ids)[Lower(name) := id]
      ensures Lower(name) in old(ids) ==> id == old(ids)[Lower(name)]
      ensures Lower(name) !in old(ids) ==> forall n | n in old(ids) :: old(ids)[n] != id
    {
      var lower := Lower(name);
      if lower in ids {
        return ids[lower];
      }
      ids := ids[lower := nextid];
      id := nextid;
      nextid := nextid + 1;
      if nextid == RESERVED { nextid := nextid + 1; }
    }
  }
}
