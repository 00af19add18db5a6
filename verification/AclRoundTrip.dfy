/** What rules keep, and why replaying a selector's description gives the selector back. */
module AclRoundTrip {
  import opened Wrappers
  import opened AclRules

  // ----- what the single changes touch -----

  function TopIds(cmds: seq<Command>): set<nat> { set c | c in cmds :: c.id }

  lemma {:induction false} TopIdsInIds(cmds: seq<Command>)
    ensures TopIds(cmds) <= Ids(cmds)
    decreases cmds
  {
    if cmds != [] {
      TopIdsInIds(cmds[1..]);
      assert cmds == [cmds[0]] + cmds[1..];
      assert forall c | c in cmds :: c == cmds[0] || c in cmds[1..];
    }
  }

  lemma {:induction false} IdsOfMember(cmds: seq<Command>, c: Command)
    requires c in cmds
    ensures c.id in Ids(cmds) && Ids(c.subs) <= Ids(cmds)
    decreases cmds
  {
    if c != cmds[0] { IdsOfMember(cmds[1..], c); }
  }

  ghost predicate AllMeansAll(s: Sel) { s.all ==> forall id | 0 <= id < |s.bits| :: s.bits[id] }

  lemma {:induction false} SetBitsAt(s: Sel, cmds: seq<Command>, v: bool)
    requires forall id | id in TopIds(cmds) :: id < |s.bits|
    ensures var r := SetBits(s, cmds, v);
            && (forall id | 0 <= id < |s.bits| :: r.bits[id] == if id in TopIds(cmds) then v else s.bits[id])
            && r.firstArgs == s.firstArgs && (AllMeansAll(s) ==> AllMeansAll(r))
    decreases cmds
  {
    hide TopIds;
    NoTopIds();
    if cmds != [] {
      TopIdsFirst(cmds);
      SetBitsAt(SetBit(s, cmds[0].id, v), cmds[1..], v);
    }
  }

  lemma NoTopIds()
    ensures TopIds([]) == {}
  {}

  lemma TopIdsFirst(cmds: seq<Command>)
    requires cmds != []
    ensures TopIds(cmds) == {cmds[0].id} + TopIds(cmds[1..])
  {
    assert cmds == [cmds[0]] + cmds[1..];
  }

  lemma ChangePermAt(s: Sel, c: Command, v: bool)
    requires c.id < |s.bits| && forall id | id in Ids(c.subs) :: id < |s.bits|
    ensures var r := ChangePerm(s, c, v);
            && (forall id | 0 <= id < |s.bits| ::
                  r.bits[id] == if id == c.id || id in TopIds(c.subs) then v else s.bits[id])
            && r.firstArgs == s.firstArgs - {c.id} && (AllMeansAll(s) ==> AllMeansAll(r))
  {
    var t := SetBit(s, c.id, v);
    TopIdsInIds(c.subs);
    SetBitsAt(t.(firstArgs := t.firstArgs - {c.id}), c.subs, v);
  }

  /** Nothing but the ids in `ids` changes, and first-args only go away. */
  ghost predicate Within(s: Sel, r: Sel, ids: set<nat>) {
    && |r.bits| == |s.bits|
    && (forall id | 0 <= id < |s.bits| && id !in ids :: r.bits[id] == s.bits[id])
    && (forall id | id in r.firstArgs :: id in s.firstArgs && r.firstArgs[id] == s.firstArgs[id])
    && (AllMeansAll(s) ==> AllMeansAll(r))
  }

  lemma WithinTrans(s: Sel, t: Sel, u: Sel, a: set<nat>, b: set<nat>, ids: set<nat>)
    requires Within(s, t, a) && Within(t, u, b) && a <= ids && b <= ids
    ensures Within(s, u, ids)
  {
    hide AllMeansAll;
  }

  lemma {:induction false} SetCategoryWithin(s: Sel, cmds: seq<Command>, cat: Cat, v: bool)
    requires forall id | id in Ids(cmds) :: id < |s.bits|
    ensures Within(s, SetCategory(s, cmds, cat, v), Ids(cmds))
    decreases cmds
  {
    hide ChangePerm, Within;
    WithinSelf(s, Ids(cmds));
    if cmds != [] {
      var c, ids := cmds[0], Ids(cmds);
      assert ids == {c.id} + Ids(c.subs) + Ids(cmds[1..]);
      var t := if c.isModule || cat !in c.cats then s else ChangePerm(s, c, v);
      ChangePermWithin(s, c, v);
      var u := if c.isModule then t else SetCategory(t, c.subs, cat, v);
      SetCategoryWithin(t, c.subs, cat, v);
      SetCategoryWithin(u, cmds[1..], cat, v);
      if c.isModule || cat !in c.cats { WithinSelf(s, ids); } else { WithinTrans(s, s, t, {}, {c.id} + Ids(c.subs), ids); }
      if !c.isModule { WithinTrans(s, t, u, ids, Ids(c.subs), ids); }
      WithinTrans(s, u, SetCategory(s, cmds, cat, v), ids, Ids(cmds[1..]), ids);
    }
  }

  lemma WithinSelf(s: Sel, ids: set<nat>)
    ensures Within(s, s, ids) && Within(s, s, {})
  {}

  lemma ChangePermWithin(s: Sel, c: Command, v: bool)
    requires c.id < |s.bits| && forall id | id in Ids(c.subs) :: id < |s.bits|
    ensures Within(s, ChangePerm(s, c, v), {c.id} + Ids(c.subs))
  {
    hide ChangePerm, AllMeansAll;
    ChangePermAt(s, c, v);
    TopIdsInIds(c.subs);
  }

  // ----- every rule keeps SelectorOk -----

  lemma LookupInTable(table: seq<Command>, name: string)
    ensures var f := Lookup(table, name);
            && (f.Top? ==> f.cmd in table)
            && (f.Child? ==> exists c :: c in table && f.cmd in c.subs)
  {}

  lemma ChangeNamedOk(table: seq<Command>, s: Sel, name: string, v: bool)
    requires TableOk(table) && SelectorOk(table, s)
    ensures SelectorOk(table, ChangeNamed(table, s, name, v).0)
  {
    hide ChangePerm, Lookup, Ids;
    var f := Lookup(table, name);
    LookupInTable(table, name);
    if !f.Missing? {
      var c := f.cmd;
      if f.Top? {
        IdsOfMember(table, c);
      } else {
        var p :| p in table && c in p.subs;
        IdsOfMember(table, p);
        IdsOfMember(p.subs, c);
      }
      TopIdsInIds(c.subs);
      ChangePermAt(s, c, v);
    }
  }

  lemma AddFirstArgOk(table: seq<Command>, s: Sel, c: Command, arg: string)
    requires SelectorOk(table, s) && c in table && c.subs == [] && arg != "" && '|' !in arg
    ensures SelectorOk(table, AddFirstArg(s, c.id, arg))
  {
    var had := FirstArgs(s, c.id);
    var r := AddFirstArg(s, c.id, arg);
    if r != s {
      assert ArgsOk(had);
      assert ArgsOk(had + [arg]);
    }
  }

  /** MAIN RESULT (invariant). Whatever text is given as a rule, accepted or refused, a
      selector in order stays in order. */
  lemma SetSelectorOk(table: seq<Command>, s: Sel, op: string)
    requires TableOk(table) && SelectorOk(table, s)
    ensures SelectorOk(table, SetSelector(table, s, op).0)
    ensures SetSelector(table, s, op).1 != Ok ==> SetSelector(table, s, op).0 == s
  {
    hide ChangeNamed, SetCategory, AllowWithBar, Same, TableOk, SelectorOk, LastBar;
    var text := if op == "" then "" else op[1..];
    UniformOk(table, true);
    UniformOk(table, false);
    ChangeNamedOk(table, s, text, true);
    ChangeNamedOk(table, s, text, false);
    CategoryOk(table, s, op);
    ChangeNamedResult(table, s, text, true);
    ChangeNamedResult(table, s, text, false);
    AllowWithBarOk(table, s, text);
  }

  lemma AllowWithBarOk(table: seq<Command>, s: Sel, text: string)
    requires TableOk(table) && SelectorOk(table, s)
    ensures LastBar(text).Some? ==>
              var (r, code) := AllowWithBar(table, s, text, LastBar(text).value);
              SelectorOk(table, r) && (code != Ok ==> r == s)
  {
    hide ChangeNamed, AddFirstArg, Same, TableOk, SelectorOk;
    ChangeNamedOk(table, s, text, true);
    ChangeNamedResult(table, s, text, true);
    var bar := LastBar(text);
    if bar.Some? {
      LookupInTable(table, text[..bar.value]);
      var f := Lookup(table, text[..bar.value]);
      if f.Top? && f.cmd.subs == [] && text[bar.value + 1..] != "" {
        AddFirstArgOk(table, s, f.cmd, text[bar.value + 1..]);
      }
    }
  }

  lemma ChangeNamedResult(table: seq<Command>, s: Sel, name: string, v: bool)
    ensures ChangeNamed(table, s, name, v).1 != Ok ==> ChangeNamed(table, s, name, v).0 == s
  {}

  lemma CategoryOk(table: seq<Command>, s: Sel, op: string)
    requires TableOk(table) && SelectorOk(table, s)
    ensures forall cat: Cat, v :: SelectorOk(table, SetCategory(s, table, cat, v))
  {
    forall cat: Cat, v
      ensures SelectorOk(table, SetCategory(s, table, cat, v))
    {
      SetCategoryWithin(s, table, cat, v);
      hide SetCategory;
    }
  }

  /** A selector built by any sequence of rules from an empty one. */
  lemma {:induction false} ReachableOk(table: seq<Command>, s: Sel, ops: seq<string>)
    requires TableOk(table) && SelectorOk(table, s)
    ensures Apply(table, s, ops).Some? ==> SelectorOk(table, Apply(table, s, ops).value)
    decreases ops
  {
    hide SetSelector, SelectorOk, TableOk;
    if ops != [] {
      SetSelectorOk(table, s, ops[0]);
      ReachableOk(table, SetSelector(table, s, ops[0]).0, ops[1..]);
    }
  }

  lemma UniformOk(table: seq<Command>, v: bool)
    requires TableOk(table)
    ensures SelectorOk(table, Uniform(v))
  {}

  // ----- the rules in a description mean what they say -----

  lemma SameChars(a: string, b: string)
    requires Same(a, b)
    ensures |a| == |b| && forall i | 0 <= i < |a| :: LowerChar(a[i]) == LowerChar(b[i])
  {
    forall i | 0 <= i < |a|
      ensures |a| == |b| && LowerChar(a[i]) == LowerChar(b[i])
    {
      assert Lower(a)[i] == Lower(b)[i];
    }
    assert |Lower(a)| == |Lower(b)|;
  }

  /** A rule that starts with a sign is none of the keyword rules. */
  lemma SignedRule(table: seq<Command>, s: Sel, op: string)
    requires |op| >= 2 && (op[0] == '+' || op[0] == '-') && op[1] != '@'
    ensures var text := op[1..];
            SetSelector(table, s, op) ==
            if op[0] == '-' || LastBar(text).None? then ChangeNamed(table, s, text, op[0] == '+')
            else AllowWithBar(table, s, text, LastBar(text).value)
  {
    NotKeyword(op, "allcommands");
    NotKeyword(op, "nocommands");
    NotKeyword(op, "allkeys");
    NotKeyword(op, "resetkeys");
    NotKeyword(op, "allchannels");
    NotKeyword(op, "resetchannels");
    NotKeyword(op, "+@all");
    NotKeyword(op, "-@all");
    hide ChangeNamed, AllowWithBar, LastBar, Same;
  }

  lemma NotKeyword(op: string, word: string)
    requires |op| >= 2 && |word| >= 2
    requires LowerChar(op[0]) != LowerChar(word[0]) || LowerChar(op[1]) != LowerChar(word[1])
    ensures !Same(op, word)
  {
    if Same(op, word) { SameChars(op, word); }
  }

  lemma {:induction false} FindMember(cmds: seq<Command>, c: Command)
    requires c in cmds && DistinctNames(cmds)
    ensures Find(cmds, c.name) == Some(c)
    decreases cmds
  {
    var i :| 0 <= i < |cmds| && cmds[i] == c;
    if i > 0 {
      assert !Same(cmds[0].name, cmds[i].name);
      assert c == cmds[1..][i - 1];
      assert DistinctNames(cmds[1..]);
      FindMember(cmds[1..], c);
    }
  }

  lemma {:induction false} LastBarOf(a: string, b: string)
    requires '|' !in b
    ensures LastBar(a + "|" + b) == Some(|a|)
    decreases |b|
  {
    var s := a + "|" + b;
    if b == "" {
      assert s[|s| - 1] == '|';
    } else {
      var init := b[..|b| - 1];
      assert s[|s| - 1] == b[|b| - 1] && b[|b| - 1] in b;
      assert s[..|s| - 1] == a + "|" + init;
      LastBarOf(a, init);
    }
  }

  lemma NoBar(s: string)
    requires '|' !in s
    ensures LastBar(s) == None
  {}

  lemma LookupTop(table: seq<Command>, c: Command)
    requires TableOk(table) && c in table
    ensures Lookup(table, c.name) == Top(c)
  {
    hide Find, Ids, DistinctIds;
    NoBar(c.name);
    FindMember(table, c);
  }

  lemma LookupChild(table: seq<Command>, p: Command, c: Command)
    requires TableOk(table) && p in table && c in p.subs
    ensures Lookup(table, c.fullname) == Child(c)
  {
    hide Find, Ids, DistinctIds;
    var name := p.name + "|" + c.name;
    LastBarOf(p.name, c.name);
    assert name[..|p.name|] == p.name && name[|p.name| + 1..] == c.name;
    FindMember(table, p);
    FindMember(p.subs, c);
  }

  lemma TopRule(table: seq<Command>, s: Sel, c: Command, v: bool)
    requires TableOk(table) && c in table
    ensures SetSelector(table, s, CommandRule(c, v)) == (ChangePerm(s, c, v), Ok)
  {
    var op := CommandRule(c, v);
    assert op[1..] == c.name;
    NoBar(c.name);
    LookupTop(table, c);
    hide SetSelector, ChangePerm, Lookup, Ids, DistinctIds;
    SignedRule(table, s, op);
  }

  lemma ChildRule(table: seq<Command>, s: Sel, p: Command, c: Command, v: bool)
    requires TableOk(table) && p in table && c in p.subs
    ensures SetSelector(table, s, CommandRule(c, v)) == (ChangePerm(s, c, v), Ok)
  {
    var op := CommandRule(c, v);
    var text := c.fullname;
    assert op[1..] == text && text == p.name + "|" + c.name;
    LastBarOf(p.name, c.name);
    assert text[..|p.name|] == p.name && text[|p.name| + 1..] == c.name;
    LookupTop(table, p);
    LookupChild(table, p, c);
    hide SetSelector, ChangePerm, Lookup, Ids, DistinctIds, LastBar;
    SignedRule(table, s, op);
  }

  lemma FirstArgRule(table: seq<Command>, s: Sel, c: Command, arg: string)
    requires TableOk(table) && c in table && c.subs == [] && arg != "" && '|' !in arg
    ensures SetSelector(table, s, "+" + c.fullname + "|" + arg) == (AddFirstArg(s, c.id, arg), Ok)
  {
    var op := "+" + c.fullname + "|" + arg;
    var text := c.name + "|" + arg;
    assert op[1..] == text;
    LastBarOf(c.name, arg);
    assert text[..|c.name|] == c.name && text[|c.name| + 1..] == arg;
    LookupTop(table, c);
    hide SetSelector, AddFirstArg, Lookup, Ids, DistinctIds, LastBar;
    SignedRule(table, s, op);
  }

  // ----- categories by name -----

  /** Length and a few letters tell the categories apart. */
  function Recognise(s: string): nat {
    if |s| == 3 then (if s[0] == 's' then 3 else 10)
    else if |s| == 4 then
      (if s[0] == 'r' then 1 else if s[0] == 'l' then 5 else if s[0] == 'h' then 6 else if s[0] == 'f' then 14 else 15)
    else if |s| == 5 then (if s[0] == 'w' then 2 else 13)
    else if |s| == 6 then
      (if s[0] == 'b' then 8 else if s[0] == 'p' then 12 else if s[3] == 'i' then 7 else 11)
    else if |s| == 8 then (if s[0] == 'k' then 0 else 16)
    else if |s| == 9 then (if s[0] == 'd' then 17 else if s[1] == 'o' then 4 else 20)
    else if |s| == 10 then 18
    else if |s| == 11 then (if s[0] == 'h' then 9 else 19)
    else 21
  }

  lemma Recognised(i: Cat)
    ensures Recognise(Lower(CATEGORIES[i])) == i
  {
    var c := CATEGORIES[i];
    assert |c| >= 3;
    assert Lower(c)[0] == LowerChar(c[0]) && Lower(c)[1] == LowerChar(c[1]);
    if |c| > 3 { assert Lower(c)[3] == LowerChar(c[3]); }
  }

  lemma {:induction false} CategoryFromIs(i: Cat, j: nat)
    requires j <= i
    ensures CategoryFrom(CATEGORIES[i], j) == Some(i)
    decreases i - j
  {
    hide Lower, Recognise;
    Recognised(i);
    if j < i {
      Recognised(j);
      CategoryFromIs(i, j + 1);
    }
  }

  lemma CategoryRuleMeans(table: seq<Command>, s: Sel, cat: Cat, v: bool)
    ensures SetSelector(table, s, CategoryRule(cat, v)) == (SetCategory(s, table, cat, v), Ok)
  {
    var op := CategoryRule(cat, v);
    var name := CATEGORIES[cat];
    CategoryFromIs(cat, 0);
    assert op[2..] == name && op[0] == (if v then '+' else '-') && op[1] == '@';
    NotKeyword(op, "allcommands");
    NotKeyword(op, "nocommands");
    NotKeyword(op, "allkeys");
    NotKeyword(op, "resetkeys");
    NotKeyword(op, "allchannels");
    NotKeyword(op, "resetchannels");
    NotAll(op, cat);
  }

  lemma NotAll(op: string, cat: Cat)
    requires |op| >= 2 && op[2..] == CATEGORIES[cat]
    ensures !Same(op, "+@all") && !Same(op, "-@all")
  {
    var c := CATEGORIES[cat];
    assert |c| != 3 || c[0] != 'a';
    assert |op| == |c| + 2 && op[2] == c[0];
    if Same(op, "+@all") { SameChars(op, "+@all"); }
    if Same(op, "-@all") { SameChars(op, "-@all"); }
  }

  // ----- replaying -----

  lemma {:induction false} ApplyAppend(table: seq<Command>, s: Sel, a: seq<string>, b: seq<string>)
    ensures Apply(table, s, a + b) ==
            if Apply(table, s, a).Some? then Apply(table, Apply(table, s, a).value, b) else None
    decreases a
  {
    hide SetSelector;
    if a == [] {
      assert a + b == b;
    } else {
      assert (a + b)[0] == a[0] && (a + b)[1..] == a[1..] + b;
      ApplyAppend(table, SetSelector(table, s, a[0]).0, a[1..], b);
    }
  }

  lemma ApplyOne(table: seq<Command>, s: Sel, op: string)
    requires SetSelector(table, s, op).1 == Ok
    ensures Apply(table, s, [op]) == Some(SetSelector(table, s, op).0)
  {
    hide SetSelector;
    assert [op][1..] == [];
    assert Apply(table, SetSelector(table, s, op).0, []) == Some(SetSelector(table, s, op).0);
  }

  lemma {:induction false} ReplayCategories(table: seq<Command>, s: Sel, cats: seq<Cat>, v: bool)
    ensures Apply(table, s, CategoryRules(cats, v)) == Some(AfterCategories(s, table, cats, v))
    decreases cats
  {
    hide SetSelector, SetCategory, CategoryRule;
    if cats != [] {
      CategoryRuleMeans(table, s, cats[0], v);
      var rules := CategoryRules(cats, v);
      assert rules[0] == CategoryRule(cats[0], v) && rules[1..] == CategoryRules(cats[1..], v);
      ReplayCategories(table, SetCategory(s, table, cats[0], v), cats[1..], v);
    }
  }

  lemma {:induction false} AfterCategoriesWithin(s: Sel, table: seq<Command>, cats: seq<Cat>, v: bool)
    requires forall id | id in Ids(table) :: id < |s.bits|
    ensures Within(s, AfterCategories(s, table, cats, v), Ids(table))
    decreases cats
  {
    hide SetCategory, Ids;
    if cats != [] {
      SetCategoryWithin(s, table, cats[0], v);
      AfterCategoriesWithin(SetCategory(s, table, cats[0], v), table, cats[1..], v);
    }
  }

  lemma NotYetThere(had: seq<string>, args: seq<string>)
    requires args != [] && ArgsOk(had + args)
    ensures args[0] != "" && '|' !in args[0] && !Mentions(had, args[0])
  {
    var all := had + args;
    assert all[|had|] == args[0] && args[0] in all;
    assert forall i | 0 <= i < |had| :: all[i] == had[i];
  }

  /** Adding listed first-args one by one rebuilds the list. */
  lemma {:induction false} ReplayFirstArgs(table: seq<Command>, s: Sel, c: Command, args: seq<string>)
    requires TableOk(table) && c in table && c.subs == [] && ArgsOk(FirstArgs(s, c.id) + args)
    ensures args == [] ==> Apply(table, s, FirstArgRules(c, args)) == Some(s)
    ensures args != [] ==> Apply(table, s, FirstArgRules(c, args)) ==
                           Some(s.(firstArgs := s.firstArgs[c.id := FirstArgs(s, c.id) + args]))
    decreases args
  {
    hide SetSelector, TableOk, ArgsOk, Mentions;
    if args != [] {
      var a, had := args[0], FirstArgs(s, c.id);
      NotYetThere(had, args);
      FirstArgRule(table, s, c, a);
      var t := AddFirstArg(s, c.id, a);
      assert t.firstArgs[c.id] == had + [a];
      assert had + [a] + args[1..] == had + args;
      var rules := FirstArgRules(c, args);
      assert rules[0] == "+" + c.fullname + "|" + a && rules[1..] == FirstArgRules(c, args[1..]);
      ReplayFirstArgs(table, t, c, args[1..]);
      if args[1..] == [] { assert args == [a]; }
      assert t.firstArgs[c.id := had + args] == s.firstArgs[c.id := had + args];
    }
  }

  ghost predicate SameArgs(a: Sel, b: Sel, id: nat) {
    && (id in a.firstArgs <==> id in b.firstArgs)
    && (id in a.firstArgs ==> a.firstArgs[id] == b.firstArgs[id])
  }

  /** From r to t the commands in `ids` got the user's bits, and the denied ones the
      user's first-args; everything else stayed. */
  ghost predicate Settled(user: Sel, r: Sel, t: Sel, ids: set<nat>) {
    && |t.bits| == |r.bits| == |user.bits|
    && (forall id | 0 <= id < |t.bits| :: t.bits[id] == if id in ids then user.bits[id] else r.bits[id])
    && (forall id: nat :: id !in ids ==> SameArgs(t, r, id))
    && (forall id | id in ids && id < |t.bits| ::
          if user.bits[id] then id !in t.firstArgs else SameArgs(t, user, id))
  }

  lemma SettledTrans(user: Sel, r: Sel, t: Sel, u: Sel, a: set<nat>, b: set<nat>)
    requires Settled(user, r, t, a) && Settled(user, t, u, b) && a !! b
    ensures Settled(user, r, u, a + b)
  {}

  lemma {:induction false} ChildIdIsNoTopId(cmds: seq<Command>, p: Command, sub: Command, c: Command)
    requires DistinctIds(cmds) && p in cmds && c in cmds && sub in p.subs
    ensures sub.id != c.id
    decreases cmds
  {
    var h := cmds[0];
    IdsOfMember(p.subs, sub);
    if p == h && c == h {
    } else if p == h {
      IdsOfMember(cmds[1..], c);
    } else if c == h {
      IdsOfMember(cmds[1..], p);
    } else {
      ChildIdIsNoTopId(cmds[1..], p, sub, c);
    }
  }

  lemma ChildHasNoFirstArgs(table: seq<Command>, user: Sel, p: Command, sub: Command)
    requires TableOk(table) && SelectorOk(table, user) && p in table && sub in p.subs
    ensures sub.id !in user.firstArgs
  {
    if sub.id in user.firstArgs {
      var c :| c in table && c.id == sub.id && c.subs == [];
      ChildIdIsNoTopId(table, p, sub, c);
    }
  }

  /** The rules one command adds before those of the commands behind it. */
  function Own(user: Sel, fake: Sel, c: Command): seq<string> {
    if GetBit(user, c.id) != GetBit(fake, c.id) then [CommandRule(c, GetBit(user, c.id))] else []
  }

  function AfterOwn(user: Sel, fake: Sel, c: Command): Sel {
    if GetBit(user, c.id) != GetBit(fake, c.id) then ChangePerm(fake, c, GetBit(user, c.id)) else fake
  }

  function ArgRules(user: Sel, c: Command): seq<string> {
    if GetBit(user, c.id) then [] else FirstArgRules(c, FirstArgs(user, c.id))
  }

  lemma SinglesOf(user: Sel, fake: Sel, cmds: seq<Command>)
    requires cmds != []
    ensures var c := cmds[0];
            var (below, f) := Singles(user, AfterOwn(user, fake, c), c.subs);
            var (rest, g) := Singles(user, f, cmds[1..]);
            Singles(user, fake, cmds) == (Own(user, fake, c) + below + ArgRules(user, c) + rest, g)
  {
    hide ChangePerm, FirstArgRules, CommandRule, GetBit;
  }

  lemma SinglesSplit(user: Sel, fake: Sel, cmds: seq<Command>)
    requires cmds != []
    ensures var (a, f) := Singles(user, fake, [cmds[0]]);
            var (b, g) := Singles(user, f, cmds[1..]);
            Singles(user, fake, cmds) == (a + b, g)
  {
    hide Singles, Own, AfterOwn, ArgRules;
    var c := cmds[0];
    SinglesOf(user, fake, cmds);
    SinglesOf(user, fake, [c]);
    assert [c][1..] == [];
    var (below, f) := Singles(user, AfterOwn(user, fake, c), c.subs);
    SinglesOfNothing(user, f);
    var mine := Own(user, fake, c) + below + ArgRules(user, c);
    assert mine + [] == mine;
  }

  /** The command's own rule: its bit becomes the user's, its subcommands follow. */
  lemma ReplayOwn(table: seq<Command>, user: Sel, fake: Sel, r: Sel, c: Command)
    requires |r.bits| == |user.bits| == BITS && r.bits == fake.bits && c.id !in r.firstArgs
    requires c.id < BITS && forall id | id in Ids(c.subs) :: id < BITS
    requires forall v :: SetSelector(table, r, CommandRule(c, v)) == (ChangePerm(r, c, v), Ok)
    ensures var t := Apply(table, r, Own(user, fake, c));
            && t.Some? && t.value.bits == AfterOwn(user, fake, c).bits && |t.value.bits| == BITS
            && t.value.firstArgs == r.firstArgs && t.value.bits[c.id] == user.bits[c.id]
            && forall id | 0 <= id < BITS && id != c.id && id !in TopIds(c.subs) :: t.value.bits[id] == r.bits[id]
  {
    hide SetSelector, ChangePerm, CommandRule, Apply, Ids;
    ApplyNothing(table, r);
    var v := GetBit(user, c.id);
    if v != GetBit(fake, c.id) {
      ApplyOne(table, r, CommandRule(c, v));
      ChangePermAt(r, c, v);
      ChangePermAt(fake, c, v);
      assert r.firstArgs - {c.id} == r.firstArgs;
    }
  }

  lemma ApplyNothing(table: seq<Command>, s: Sel)
    ensures Apply(table, s, []) == Some(s)
  {}

  /** One subcommand. */
  lemma ReplayChild(table: seq<Command>, user: Sel, fake: Sel, r: Sel, p: Command, c: Command)
    requires TableOk(table) && SelectorOk(table, user) && p in table && c in p.subs
    requires |r.bits| == BITS && r.bits == fake.bits && c.id !in r.firstArgs
    ensures var (rules, fake') := Singles(user, fake, [c]);
            var t := Apply(table, r, rules);
            t.Some? && t.value.bits == fake'.bits && Settled(user, r, t.value, {c.id})
  {
    hide TableOk, SelectorOk, SetSelector, ChangePerm, CommandRule, Singles, Own, AfterOwn, Apply, Ids;
    SelectorSize(table, user);
    ChildFacts(table, p, c);
    NoIds();
    ChildHasNoFirstArgs(table, user, p, c);
    ChildRule(table, r, p, c, true);
    ChildRule(table, r, p, c, false);
    ReplayOwn(table, user, fake, r, c);
    SinglesOfPlain(user, fake, c);
  }

  lemma SinglesOfPlain(user: Sel, fake: Sel, c: Command)
    requires c.subs == [] && c.id !in user.firstArgs
    ensures Singles(user, fake, [c]) == (Own(user, fake, c), AfterOwn(user, fake, c))
  {
    hide Singles, Own, AfterOwn;
    SinglesOf(user, fake, [c]);
    assert [c][1..] == [];
    SinglesOfNothing(user, AfterOwn(user, fake, c));
    var own := Own(user, fake, c);
    assert ArgRules(user, c) == [];
    assert own + [] + [] + [] == own;
  }

  lemma NoIds()
    ensures Ids([]) == {} && TopIds([]) == {}
  {}

  lemma SelectorSize(table: seq<Command>, s: Sel)
    requires SelectorOk(table, s)
    ensures |s.bits| == BITS
  {}

  lemma ChildFacts(table: seq<Command>, p: Command, c: Command)
    requires TableOk(table) && p in table && c in p.subs
    ensures c.id < RESERVED && c.subs == [] && Ids([c]) == {c.id} && c.id in Ids(p.subs)
    ensures DistinctIds(p.subs)
  {
    IdsOfMember(table, p);
    IdsOfMember(p.subs, c);
    DistinctBelow(table, p);
    assert [c][1..] == [];
  }

  lemma {:induction false} DistinctBelow(cmds: seq<Command>, p: Command)
    requires DistinctIds(cmds) && p in cmds
    ensures DistinctIds(p.subs) && p.id !in Ids(p.subs)
    decreases cmds
  {
    if p != cmds[0] { DistinctBelow(cmds[1..], p); }
  }

  lemma {:induction false} ReplayChildren(table: seq<Command>, user: Sel, fake: Sel, r: Sel, p: Command, subs: seq<Command>)
    requires TableOk(table) && SelectorOk(table, user) && p in table
    requires (forall c | c in subs :: c in p.subs) && DistinctIds(subs)
    requires |r.bits| == BITS && r.bits == fake.bits && r.firstArgs.Keys !! Ids(subs)
    ensures var (rules, fake') := Singles(user, fake, subs);
            var t := Apply(table, r, rules);
            t.Some? && t.value.bits == fake'.bits && Settled(user, r, t.value, Ids(subs))
    decreases subs
  {
    hide TableOk, SelectorOk, SetSelector, Singles;
    SelectorSize(table, user);
    SinglesOfNothing(user, fake);
    if subs != [] {
      var c := subs[0];
      ChildFacts(table, p, c);
      assert Ids(c.subs) == {};
      ReplayChild(table, user, fake, r, p, c);
      SinglesSplit(user, fake, subs);
      var (a, f) := Singles(user, fake, [c]);
      var t := Apply(table, r, a).value;
      ReplayChildren(table, user, f, t, p, subs[1..]);
      var (b, g) := Singles(user, f, subs[1..]);
      ApplyAppend(table, r, a, b);
      SettledTrans(user, r, t, Apply(table, t, b).value, {c.id}, Ids(subs[1..]));
      assert Ids(subs) == {c.id} + Ids(subs[1..]);
    }
  }

  lemma SinglesOfNothing(user: Sel, fake: Sel)
    ensures Singles(user, fake, []) == ([], fake)
  {}

  lemma {:induction false} SameIdSameCommand(cmds: seq<Command>, a: Command, b: Command)
    requires DistinctIds(cmds) && a in cmds && b in cmds && a.id == b.id
    ensures a == b
    decreases cmds
  {
    if a != cmds[0] && b != cmds[0] {
      SameIdSameCommand(cmds[1..], a, b);
    } else if a != cmds[0] {
      IdsOfMember(cmds[1..], a);
    } else if b != cmds[0] {
      IdsOfMember(cmds[1..], b);
    }
  }

  lemma TopFacts(table: seq<Command>, c: Command)
    requires TableOk(table) && c in table
    ensures c.id < RESERVED && (forall id | id in Ids(c.subs) :: id < RESERVED)
    ensures DistinctIds(c.subs) && c.id !in Ids(c.subs) && TopIds(c.subs) <= Ids(c.subs)
  {
    IdsOfMember(table, c);
    DistinctBelow(table, c);
    TopIdsInIds(c.subs);
  }

  lemma TopFirstArgs(table: seq<Command>, user: Sel, c: Command)
    requires TableOk(table) && SelectorOk(table, user) && c in table && c.id in user.firstArgs
    ensures c.subs == [] && user.firstArgs[c.id] != [] && ArgsOk(user.firstArgs[c.id])
  {
    var d :| d in table && d.id == c.id && d.subs == [];
    SameIdSameCommand(table, c, d);
  }

  /** The first-arg rules of a denied command rebuild its list; others have none. */
  lemma ReplayArgs(table: seq<Command>, user: Sel, r: Sel, c: Command)
    requires TableOk(table) && SelectorOk(table, user) && c in table && |r.bits| == BITS && c.id < BITS
    requires c.id !in r.firstArgs && r.bits[c.id] == user.bits[c.id]
    ensures var t := Apply(table, r, ArgRules(user, c));
            && t.Some? && t.value.bits == r.bits
            && (forall id: nat :: id != c.id ==> SameArgs(t.value, r, id))
            && (if user.bits[c.id] then c.id !in t.value.firstArgs else SameArgs(t.value, user, c.id))
  {
    hide TableOk, SelectorOk, SetSelector, Apply, FirstArgRules;
    SelectorSize(table, user);
    TopFacts(table, c);
    ApplyNothing(table, r);
    if !user.bits[c.id] {
      if c.id in user.firstArgs {
        TopFirstArgs(table, user, c);
        var args := user.firstArgs[c.id];
        assert FirstArgs(r, c.id) + args == args;
        ReplayFirstArgs(table, r, c, args);
      } else {
        NoFirstArgRules(c);
      }
    }
  }

  lemma NoFirstArgRules(c: Command)
    ensures FirstArgRules(c, []) == []
  {}

  /** One command with its subcommands. */
  lemma ReplayTop(table: seq<Command>, user: Sel, fake: Sel, r: Sel, c: Command)
    requires TableOk(table) && SelectorOk(table, user) && c in table
    requires |r.bits| == BITS && r.bits == fake.bits && r.firstArgs.Keys !! ({c.id} + Ids(c.subs))
    ensures var (rules, fake') := Singles(user, fake, [c]);
            var t := Apply(table, r, rules);
            t.Some? && t.value.bits == fake'.bits && Settled(user, r, t.value, {c.id} + Ids(c.subs))
  {
    hide TableOk, SelectorOk, SetSelector, ChangePerm, CommandRule, Singles, Own, AfterOwn, ArgRules, Apply, Ids, DistinctIds, TopIds;
    SelectorSize(table, user);
    TopFacts(table, c);
    TopRule(table, r, c, true);
    TopRule(table, r, c, false);
    ReplayOwn(table, user, fake, r, c);
    var own, fake1 := Own(user, fake, c), AfterOwn(user, fake, c);
    var t1 := Apply(table, r, own).value;
    ReplayChildren(table, user, fake1, t1, c, c.subs);
    var (below, fake2) := Singles(user, fake1, c.subs);
    var t2 := Apply(table, t1, below).value;
    assert t2.bits[c.id] == t1.bits[c.id] && SameArgs(t2, t1, c.id);
    ReplayArgs(table, user, t2, c);
    var args := ArgRules(user, c);
    var t3 := Apply(table, t2, args).value;
    ApplyAppend(table, r, own, below);
    ApplyAppend(table, r, own + below, args);
    SinglesOf(user, fake, [c]);
    assert [c][1..] == [];
    SinglesOfNothing(user, fake2);
    assert own + below + args + [] == own + below + args;
    SettleTop(user, r, t1, t2, t3, c);
  }

  lemma SettleTop(user: Sel, r: Sel, t1: Sel, t2: Sel, t3: Sel, c: Command)
    requires |user.bits| == |r.bits| == |t1.bits| == |t2.bits| == |t3.bits| && c.id < |user.bits|
    requires c.id !in Ids(c.subs) && TopIds(c.subs) <= Ids(c.subs)
    requires t1.firstArgs == r.firstArgs && t1.bits[c.id] == user.bits[c.id]
    requires forall id | 0 <= id < |r.bits| && id != c.id && id !in TopIds(c.subs) :: t1.bits[id] == r.bits[id]
    requires Settled(user, t1, t2, Ids(c.subs)) && t3.bits == t2.bits
    requires forall id: nat :: id != c.id ==> SameArgs(t3, t2, id)
    requires if user.bits[c.id] then c.id !in t3.firstArgs else SameArgs(t3, user, c.id)
    ensures Settled(user, r, t3, {c.id} + Ids(c.subs))
  {
    hide Ids, TopIds;
    forall id: nat | id !in {c.id} + Ids(c.subs)
      ensures SameArgs(t3, r, id)
    {
      assert SameArgs(t3, t2, id) && SameArgs(t2, t1, id);
    }
    forall id | id in Ids(c.subs) && id < |t3.bits|
      ensures if user.bits[id] then id !in t3.firstArgs else SameArgs(t3, user, id)
    {
      assert SameArgs(t3, t2, id);
    }
  }

  lemma {:induction false} ReplayTable(table: seq<Command>, user: Sel, fake: Sel, r: Sel, cmds: seq<Command>)
    requires TableOk(table) && SelectorOk(table, user)
    requires (forall c | c in cmds :: c in table) && DistinctIds(cmds)
    requires |r.bits| == BITS && r.bits == fake.bits && r.firstArgs.Keys !! Ids(cmds)
    ensures var (rules, fake') := Singles(user, fake, cmds);
            var t := Apply(table, r, rules);
            t.Some? && t.value.bits == fake'.bits && Settled(user, r, t.value, Ids(cmds))
    decreases cmds
  {
    hide TableOk, SelectorOk, SetSelector, Singles, Apply;
    SelectorSize(table, user);
    SinglesOfNothing(user, fake);
    ApplyNothing(table, r);
    if cmds != [] {
      var c := cmds[0];
      var ids := {c.id} + Ids(c.subs);
      assert Ids(cmds) == ids + Ids(cmds[1..]);
      ReplayTop(table, user, fake, r, c);
      SinglesSplit(user, fake, cmds);
      var (a, f) := Singles(user, fake, [c]);
      var t := Apply(table, r, a).value;
      forall id | id in Ids(cmds[1..])
        ensures id !in t.firstArgs
      {
        assert SameArgs(t, r, id);
      }
      ReplayTable(table, user, f, t, cmds[1..]);
      var (b, g) := Singles(user, f, cmds[1..]);
      ApplyAppend(table, r, a, b);
      SettledTrans(user, r, t, Apply(table, t, b).value, ids, Ids(cmds[1..]));
    }
  }

  // ----- the round trip -----

  /** Whether a command with this first argument may run. */
  predicate CanRun(s: Sel, id: nat, arg: string) {
    s.all || GetBit(s, id) || Mentions(FirstArgs(s, id), arg)
  }

  /** What the start rule and any categories leave, before the single commands. */
  lemma ReplayStart(table: seq<Command>, s: Sel, v: bool, cats: seq<Cat>, w: bool)
    requires TableOk(table)
    ensures var fake := AfterCategories(Uniform(v), table, cats, w);
            && Apply(table, s, [if v then "+@all" else "-@all"] + CategoryRules(cats, w)) == Some(fake)
            && |fake.bits| == BITS && fake.firstArgs == map[]
            && forall id | 0 <= id < BITS && id !in Ids(table) :: fake.bits[id] == v
  {
    hide Ids, AfterCategories, CategoryRules, Apply;
    var start := if v then "+@all" else "-@all";
    StartRule(table, s, v);
    hide SetSelector;
    ApplyOne(table, s, start);
    ReplayCategories(table, Uniform(v), cats, w);
    ApplyAppend(table, s, [start], CategoryRules(cats, w));
    AfterCategoriesWithin(Uniform(v), table, cats, w);
  }

  lemma StartRule(table: seq<Command>, s: Sel, v: bool)
    ensures SetSelector(table, s, if v then "+@all" else "-@all") == (Uniform(v), Ok)
  {
    NotKeyword("-@all", "allcommands");
    NotKeyword("-@all", "+@all");
  }

  /** MAIN RESULT. Whatever categories are chosen, replaying a description on any selector
      succeeds and gives the same bitmap, the same first-args for every denied command,
      and so the same permissions; and the describing pass ends with the user's bitmap,
      so its panic is unreachable. */
  lemma DescriptionRoundTrip(table: seq<Command>, user: Sel, cats: seq<Cat>, s: Sel)
    requires TableOk(table) && SelectorOk(table, user) && SelectorOk(table, s)
    ensures var v := GetBit(user, RESERVED);
            Singles(user, AfterCategories(Uniform(v), table, cats, !v), table).1.bits == user.bits
    ensures var t := Apply(table, s, Description(table, user, cats));
            && t.Some? && t.value.bits == user.bits
            && (forall id | 0 <= id < BITS && !user.bits[id] :: FirstArgs(t.value, id) == FirstArgs(user, id))
            && (forall id, arg | 0 <= id < BITS :: CanRun(t.value, id, arg) == CanRun(user, id, arg))
  {
    hide SetSelector, Singles, Apply, AfterCategories, Ids, DistinctIds, CategoryRules;
    var v := GetBit(user, RESERVED);
    ReplayStart(table, s, v, cats, !v);
    var fake := AfterCategories(Uniform(v), table, cats, !v);
    ReplayTable(table, user, fake, fake, table);
    var rules := Singles(user, fake, table).0;
    var front := [if v then "+@all" else "-@all"] + CategoryRules(cats, !v);
    assert Description(table, user, cats) == front + rules;
    ApplyAppend(table, s, front, rules);
    var t := Apply(table, fake, rules).value;
    assert t.bits == user.bits;
    NoArgsOutside(table, user, fake, t);
    ReachableOk(table, s, Description(table, user, cats));
    forall id, arg | 0 <= id < BITS
      ensures CanRun(t, id, arg) == CanRun(user, id, arg)
    {
      assert t.all ==> t.bits[id];
      assert user.all ==> user.bits[id];
    }
  }

  lemma NoArgsOutside(table: seq<Command>, user: Sel, r: Sel, t: Sel)
    requires TableOk(table) && SelectorOk(table, user) && Settled(user, r, t, Ids(table)) && r.firstArgs == map[]
    ensures forall id | 0 <= id < BITS && !user.bits[id] :: FirstArgs(t, id) == FirstArgs(user, id)
  {
    forall id | 0 <= id < BITS && !user.bits[id]
      ensures FirstArgs(t, id) == FirstArgs(user, id)
    {
      if id in Ids(table) {
        assert SameArgs(t, user, id);
      } else {
        assert SameArgs(t, r, id);
        if id in user.firstArgs {
          var c :| c in table && c.id == id && c.subs == [];
          IdsOfMember(table, c);
        }
      }
    }
  }
}
