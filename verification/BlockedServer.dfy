/** Blocking, unblocking and serving clients as the server does it, with the queue of
    ready keys and the nested loops that drain it. */
module BlockedServer {
  import opened BlockedState
  import opened Wrappers

  datatype ObjType = ObjList | ObjZset | ObjStream | ObjModule | ObjOther

  /** getBlockedTypeByType */
  function BlockedTypeOf(t: ObjType): BType {
    match t
    case ObjList => BList
    case ObjZset => BZset
    case ObjModule => BModule
    case ObjStream => BStream
    case ObjOther => BNone
  }

  /** What happens to the server. */
  datatype Event =
    | Connect(c: ClientId)
    | WaitForKeys(c: ClientId, t: BType, group: bool, keys: seq<(Key, int)>)
    | WaitForOther(c: ClientId, t: BType)
    | Timeout(c: ClientId)
    | Written(k: Key, kind: ObjType)
    | BeforeSleep
    | NextQueued

  /** The waiters of one type, in blocking order. */
  function OfType(clients: map<ClientId, Client>, waiters: seq<ClientId>, t: BType): seq<ClientId> {
    if waiters == [] then []
    else (if waiters[0] in clients && clients[waiters[0]].btype == t then [waiters[0]] else [])
         + OfType(clients, waiters[1..], t)
  }

  lemma {:induction false} OfTypeAppend(clients: map<ClientId, Client>, a: seq<ClientId>, b: seq<ClientId>, t: BType)
    ensures OfType(clients, a + b, t) == OfType(clients, a, t) + OfType(clients, b, t)
  {
    if a == [] {
      assert a + b == b;
    } else {
      assert (a + b)[1..] == a[1..] + b;
      OfTypeAppend(clients, a[1..], b, t);
    }
  }

  lemma OfTypeNext(clients: map<ClientId, Client>, waiters: seq<ClientId>, i: nat, t: BType)
    requires i < |waiters| && waiters[i] in clients
    ensures OfType(clients, waiters[..i + 1], t) ==
            OfType(clients, waiters[..i], t) + (if clients[waiters[i]].btype == t then [waiters[i]] else [])
    ensures OfType(clients, waiters[..i], t) <= OfType(clients, waiters, t)
    ensures OfType(clients, waiters[..i + 1], t) <= OfType(clients, waiters, t)
  {
    assert waiters[..i + 1] == waiters[..i] + [waiters[i]];
    assert [waiters[i]][1..] == [];
    OfTypeAppend(clients, waiters[..i], [waiters[i]], t);
    assert waiters == waiters[..i] + waiters[i..] && waiters == waiters[..i + 1] + waiters[i + 1..];
    OfTypeAppend(clients, waiters[..i], waiters[i..], t);
    OfTypeAppend(clients, waiters[..i + 1], waiters[i + 1..], t);
  }

  /** The XREADGROUP waiters, in blocking order. */
  function Readers(clients: map<ClientId, Client>, waiters: seq<ClientId>): seq<ClientId> {
    if waiters == [] then []
    else
      var c := waiters[|waiters| - 1];
      Readers(clients, waiters[..|waiters| - 1])
      + if c in clients && clients[c].btype == BStream && clients[c].group then [c] else []
  }

  /** Some elements of b, in the order of b. */
  ghost predicate Subsequence(a: seq<ClientId>, b: seq<ClientId>)
    decreases |b|
  {
    a == [] || (b != [] &&
                var b' := b[..|b| - 1];
                Subsequence(a, b') || (a[|a| - 1] == b[|b| - 1] && Subsequence(a[..|a| - 1], b')))
  }

  lemma SubsequenceNext(a: seq<ClientId>, b: seq<ClientId>, x: ClientId)
    requires Subsequence(a, b)
    ensures Subsequence(a, b + [x]) && Subsequence(a + [x], b + [x])
  {
    assert (a + [x])[..|a|] == a && (b + [x])[..|b|] == b;
  }

  lemma ReadersLast(clients: map<ClientId, Client>, waiters: seq<ClientId>, c: ClientId)
    requires c in clients
    ensures Readers(clients, waiters + [c])
         == if clients[c].btype == BStream && clients[c].group then Readers(clients, waiters) + [c] else Readers(clients, waiters)
  {
    assert (waiters + [c])[..|waiters|] == waiters;
    assert Readers(clients, waiters) + [] == Readers(clients, waiters);
  }

  lemma WithoutLast(s: seq<ClientId>, c: ClientId, gone: set<ClientId>)
    ensures Without(s + [c], gone) == if c in gone then Without(s, gone) else Without(s, gone) + [c]
  {
    WithoutAppend(s, [c], gone);
    assert [c][1..] == [];
    assert Without(s, gone) + [] == Without(s, gone);
  }

  /** Clients of other types leave: the readers stay. */
  lemma {:induction false} ReadersStay(before: map<ClientId, Client>, after: map<ClientId, Client>, waiters: seq<ClientId>, gone: set<ClientId>)
    requires forall c | c in waiters :: c in before && c in after
    requires forall c | c in waiters && c !in gone :: after[c] == before[c]
    requires forall c | c in waiters && c in gone :: before[c].btype != BStream
    ensures Readers(after, Without(waiters, gone)) == Readers(before, waiters)
  {
    hide Without, Readers;
    assert Readers(after, Without([], gone)) == Readers(before, []) by { NoneWithout(gone); NoReaders(before); NoReaders(after); }
    if waiters != [] {
      var init, c := waiters[..|waiters| - 1], waiters[|waiters| - 1];
      assert waiters == init + [c];
      ReadersStay(before, after, init, gone);
      WithoutLast(init, c, gone);
      ReadersLast(before, init, c);
      ReadersLast(after, Without(init, gone), c);
      assert c in waiters;
    }
  }

  /** The waiter lists once c has left those of the keys in `done`. */
  function ClearedOn(blocking: map<Key, seq<ClientId>>, c: ClientId, done: set<Key>): map<Key, seq<ClientId>> {
    map k | k in blocking && (k in done ==> Without(blocking[k], {c}) != []) ::
      if k in done then Without(blocking[k], {c}) else blocking[k]
  }

  lemma ClearedOnNothing(blocking: map<Key, seq<ClientId>>, c: ClientId)
    ensures forall keys: set<Key> :: ClearedOn(blocking, c, keys - keys) == blocking
  {
    forall keys: set<Key>
      ensures ClearedOn(blocking, c, keys - keys) == blocking
    {}
  }

  lemma ClearedOnStep(clients: map<ClientId, Client>, blocking: map<Key, seq<ClientId>>, c: ClientId, done: set<Key>, k: Key)
    requires IndexOk(clients, blocking) && c in clients && k in clients[c].keys && k !in done
    ensures var b := ClearedOn(blocking, c, done);
            && k in b && NoDup(b[k]) && (exists i :: 0 <= i < |b[k]| && b[k][i] == c)
            && ClearedOn(blocking, c, done + {k}) ==
               if Without(b[k], {c}) == [] then b - {k} else b[k := Without(b[k], {c})]
  {
    var b := ClearedOn(blocking, c, done);
    assert k in b && b[k] == blocking[k] && c in blocking[k];
    hide Without, IndexOk;
  }

  lemma ClearedOnAll(clients: map<ClientId, Client>, blocking: map<Key, seq<ClientId>>, c: ClientId)
    requires IndexOk(clients, blocking) && c in clients
    ensures ClearedOn(blocking, c, clients[c].keys.Keys) == Cleared(blocking, {c})
  {
    forall k | k in blocking && k !in clients[c].keys
      ensures Without(blocking[k], {c}) == blocking[k]
    {
      WithoutNone(blocking[k], {c});
    }
  }

  /** A ready key that was served: what it held, whether serving deleted it, which waiters of its type
      were served, and which group readers were told that the stream is gone. */
  datatype Handled = Handled(key: Key, kind: Option<ObjType>, deleted: bool, first: seq<ClientId>, readers: seq<ClientId>) {
    function Served(): seq<ClientId> { first + readers }
  }

  function Waiters(s: State, k: Key): seq<ClientId> { if k in s.blocking then s.blocking[k] else [] }

  /** Who is served for a key: waiters for the key, of the right type, in the order they blocked. All
      of them, unless serving deleted the key; of the stream readers those with something to read. */
  ghost predicate InTurn(s: State, h: Handled) {
    var waiters := Waiters(s, h.key);
    && (match h.kind
        case Some(ObjStream) => Subsequence(h.first, OfType(s.clients, waiters, BStream))
        case Some(t) =>
          if t in {ObjList, ObjZset}
          then var all := OfType(s.clients, waiters, BlockedTypeOf(t)); h.first <= all && (!h.deleted ==> h.first == all)
          else h.first == []
        case None => h.first == [])
    && h.readers == if h.kind == Some(ObjStream) then [] else Readers(s.clients, waiters)
  }

  /** The state after the keys were served one after the other. */
  ghost function AfterServing(s: State, handled: seq<Handled>): State {
    if handled == [] then s
    else UnblockedAll(AfterServing(s, handled[..|handled| - 1]), handled[|handled| - 1].Served())
  }

  ghost predicate InOrder(s: State, handled: seq<Handled>) {
    handled == [] ||
    var init, h := handled[..|handled| - 1], handled[|handled| - 1];
    InOrder(s, init) && InTurn(AfterServing(s, init), h) && Unblockable(AfterServing(s, init), h.Served())
  }

  lemma NothingHandled(s: State)
    ensures InOrder(s, []) && AfterServing(s, []) == s
  {}

  lemma OneKeyMore(s: State, handled: seq<Handled>, h: Handled)
    requires InOrder(s, handled) && InTurn(AfterServing(s, handled), h) && Unblockable(AfterServing(s, handled), h.Served())
    ensures InOrder(s, handled + [h]) && AfterServing(s, handled + [h]) == UnblockedAll(AfterServing(s, handled), h.Served())
  {
    hide InTurn, Unblockable, UnblockedAll;
    assert (handled + [h])[..|handled|] == handled;
  }

  lemma {:induction false} MoreKeys(s: State, a: seq<Handled>, b: seq<Handled>)
    requires InOrder(s, a) && InOrder(AfterServing(s, a), b)
    ensures InOrder(s, a + b) && AfterServing(s, a + b) == AfterServing(AfterServing(s, a), b)
    decreases |b|
  {
    hide InTurn, Unblockable, UnblockedAll;
    if b == [] {
      assert a + b == a;
    } else {
      var init, h := b[..|b| - 1], b[|b| - 1];
      MoreKeys(s, a, init);
      assert a + b == (a + init) + [h];
      OneKeyMore(s, a + init, h);
    }
  }

  /** Everybody who was served had waited for one of the keys. */
  lemma {:induction false} ServedHadWaited(s: State, handled: seq<Handled>)
    requires Inv(s) && InOrder(s, handled)
    ensures Inv(AfterServing(s, handled)) && AfterServing(s, handled).clients.Keys == s.clients.Keys
    ensures forall c | c in s.clients ::
              AfterServing(s, handled).clients[c] == s.clients[c]
              || (s.clients[c].blocked && exists h :: h in handled && c in Waiters(s, h.key))
    ensures forall k, c | c in Waiters(AfterServing(s, handled), k) :: c in Waiters(s, k)
    decreases |handled|
  {
    hide Inv, UnblockedAll, Unblocked, Unblockable, InTurn;
    if handled != [] {
      var init, h := handled[..|handled| - 1], handled[|handled| - 1];
      assert handled == init + [h] && h in handled;
      ServedHadWaited(s, init);
      var t := AfterServing(s, init);
      UnblockedAllIs(t, h.Served());
      InTurnWaited(t, h);
      ServedAreBlocked(t, h.Served());
    }
  }

  lemma ServedAreBlocked(s: State, served: seq<ClientId>)
    requires Unblockable(s, served)
    ensures forall c | c in served :: c in s.clients && s.clients[c].blocked
  {}

  lemma InTurnWaited(s: State, h: Handled)
    requires Inv(s) && InTurn(s, h)
    ensures forall c | c in h.Served() :: c in Waiters(s, h.key)
  {
    hide Inv, OfType, Readers, Subsequence;
    var waiters := Waiters(s, h.key);
    OfTypeWithin(s.clients, waiters, BStream);
    OfTypeWithin(s.clients, waiters, BList);
    OfTypeWithin(s.clients, waiters, BZset);
    ReadersWithin(s.clients, waiters);
    if h.kind == Some(ObjStream) { SubsequenceWithin(h.first, OfType(s.clients, waiters, BStream)); }
  }

  lemma {:induction false} OfTypeWithin(clients: map<ClientId, Client>, waiters: seq<ClientId>, t: BType)
    ensures forall c | c in OfType(clients, waiters, t) :: c in waiters
  {
    if waiters != [] { OfTypeWithin(clients, waiters[1..], t); }
  }

  lemma {:induction false} ReadersWithin(clients: map<ClientId, Client>, waiters: seq<ClientId>)
    ensures forall c | c in Readers(clients, waiters) :: c in waiters
  {
    if waiters != [] { ReadersWithin(clients, waiters[..|waiters| - 1]); }
  }

  lemma {:induction false} SubsequenceWithin(a: seq<ClientId>, b: seq<ClientId>)
    requires Subsequence(a, b)
    ensures forall c | c in a :: c in b
    decreases |b|
  {
    if a != [] {
      var b' := b[..|b| - 1];
      assert a == a[..|a| - 1] + [a[|a| - 1]];
      if Subsequence(a, b') { SubsequenceWithin(a, b'); } else { SubsequenceWithin(a[..|a| - 1], b'); }
    }
  }

  ghost predicate NoWaiter(s: State, k: Key, t: BType) {
    k in s.blocking ==> forall c | c in s.blocking[k] && c in s.clients :: s.clients[c].btype != t
  }

  ghost predicate NoGroupWaiter(s: State, k: Key) {
    k in s.blocking ==>
      forall c | c in s.blocking[k] && c in s.clients :: !(s.clients[c].btype == BStream && s.clients[c].group)
  }

  /** Nobody is left waiting for what the key holds: no client of its type unless the key ran
      out, and no group reader unless it holds a stream. */
  ghost predicate Settled(s: State, h: Handled) {
    && (h.kind in {Some(ObjList), Some(ObjZset)} && !h.deleted ==> NoWaiter(s, h.key, BlockedTypeOf(h.kind.value)))
    && (h.kind != Some(ObjStream) ==> NoGroupWaiter(s, h.key))
  }

  function Keys(handled: seq<Handled>): seq<Key> {
    seq(|handled|, i requires 0 <= i < |handled| => handled[i].key)
  }

  lemma OneKey(handled: seq<Handled>, h: Handled)
    ensures Keys(handled + [h]) == Keys(handled) + [h.key]
  {}

  lemma KeysAppend(a: seq<Handled>, b: seq<Handled>)
    ensures Keys(a + b) == Keys(a) + Keys(b) && Keys([]) == []
  {}

  /** Unblocking more clients does not undo that. */
  lemma StaysSettled(s: State, served: seq<ClientId>)
    requires Inv(s) && Unblockable(s, served)
    ensures forall h | Settled(s, h) :: Settled(UnblockedAll(s, served), h)
    ensures forall k, t | NoWaiter(s, k, t) :: NoWaiter(UnblockedAll(s, served), k, t)
    ensures forall k | NoGroupWaiter(s, k) :: NoGroupWaiter(UnblockedAll(s, served), k)
  {
    hide Inv, UnblockedAll, Unblocked;
    UnblockedAllIs(s, served);
  }

  /** When all waiters of a type were served, none is left. */
  lemma AllServed(s: State, k: Key, t: BType, served: seq<ClientId>)
    requires Inv(s) && Unblockable(s, served) && t != BNone
    requires served == OfType(s.clients, Waiters(s, k), t)
    ensures NoWaiter(UnblockedAll(s, served), k, t)
  {
    hide Inv, UnblockedAll, Unblocked;
    UnblockedAllIs(s, served);
    if k in s.blocking { OfTypeAll(s.clients, s.blocking[k], t); }
  }

  lemma {:induction false} OfTypeAll(clients: map<ClientId, Client>, waiters: seq<ClientId>, t: BType)
    ensures forall c | c in waiters && c in clients && clients[c].btype == t :: c in OfType(clients, waiters, t)
  {
    if waiters != [] { OfTypeAll(clients, waiters[1..], t); }
  }

  lemma GroupsServed(s: State, k: Key, served: seq<ClientId>)
    requires Inv(s) && Unblockable(s, served) && served == Readers(s.clients, Waiters(s, k))
    ensures NoGroupWaiter(UnblockedAll(s, served), k)
  {
    hide Inv, UnblockedAll, Unblocked, Readers;
    UnblockedAllIs(s, served);
    ReadersAll(s.clients, Waiters(s, k));
  }

  lemma {:induction false} ReadersAll(clients: map<ClientId, Client>, waiters: seq<ClientId>)
    ensures forall c | c in waiters && c in clients && clients[c].btype == BStream && clients[c].group :: c in Readers(clients, waiters)
  {
    if waiters != [] {
      ReadersAll(clients, waiters[..|waiters| - 1]);
      assert waiters == waiters[..|waiters| - 1] + [waiters[|waiters| - 1]];
    }
  }

  /** Serving the waiters of a list or a sorted set leaves the group readers where they are. */
  lemma ReadersLater(s: State, k: Key, served: seq<ClientId>)
    requires Inv(s) && Unblockable(s, served) && forall c | c in served :: c in s.clients && s.clients[c].btype != BStream
    ensures var t := UnblockedAll(s, served);
            Readers(t.clients, Waiters(t, k)) == Readers(s.clients, Waiters(s, k))
  {
    hide Inv, UnblockedAll, Unblocked, Readers, Without;
    UnblockedAllIs(s, served);
    var t := UnblockedAll(s, served);
    NoReaders(s.clients);
    NoReaders(t.clients);
    if k in s.blocking {
      WaitersFacts(s, k);
      assert Waiters(t, k) == Without(s.blocking[k], Members(served));
      ReadersStay(s.clients, t.clients, s.blocking[k], Members(served));
    }
  }

  lemma NoneWithout(gone: set<ClientId>)
    ensures Without([], gone) == []
  {}

  lemma NoReaders(clients: map<ClientId, Client>)
    ensures Readers(clients, []) == [] && Subsequence([], [])
  {}

  lemma {:induction false} NoReadersOfType(clients: map<ClientId, Client>, waiters: seq<ClientId>)
    requires forall c | c in clients :: clients[c].btype != BStream
    ensures Readers(clients, waiters) == []
  {
    if waiters != [] { NoReadersOfType(clients, waiters[..|waiters| - 1]); }
  }

  lemma ReadersNext(clients: map<ClientId, Client>, waiters: seq<ClientId>, i: nat)
    requires i < |waiters| && waiters[i] in clients
    ensures var c := waiters[i];
            Readers(clients, waiters[..i + 1]) == Readers(clients, waiters[..i])
                                                  + if clients[c].btype == BStream && clients[c].group then [c] else []
  {
    assert waiters[..i + 1][..i] == waiters[..i];
  }

  /** The clients, and the keys that are queued as ready. */
  datatype View = View(state: State, ready: seq<Key>)

  /** A write to the key is announced: somebody waits for it, and somebody waits for something of its
      type or for a module. */
  predicate Announced(s: State, k: Key, kind: ObjType) {
    var t := BlockedTypeOf(kind);
    t != BNone && k in s.blocking && (Counted(s, t) || Counted(s, BModule))
  }

  predicate Counted(s: State, t: BType) { t in s.byType && s.byType[t] != 0 }

  /** What an event makes of the server; nothing when its guard fails. An event loop round serves the
      ready keys, and those that serving makes ready, in turn. */
  ghost predicate Happens(before: View, e: Event, after: View) {
    var s, t := before.state, after.state;
    match e
    case Written(k, kind) =>
      && t == s
      && after.ready == if Announced(s, k, kind) && k !in before.ready then before.ready + [k] else before.ready
    case BeforeSleep =>
      && after.ready == []
      && exists handled :: before.ready <= Keys(handled) && InOrder(s, handled) && t == AfterServing(s, handled)
    case _ =>
      after.ready == before.ready && Changes(s, e, t)
  }

  ghost predicate Changes(s: State, e: Event, t: State) {
    match e
    case Connect(c) => t == if c !in s.clients then s.(clients := s.clients[c := IDLE]) else s
    case WaitForKeys(c, b, group, keys) =>
      if c in s.clients && !s.clients[c].blocked && WaitsForKeys(b) && keys != []
      then b in s.byType && t == BlockedForKeys(s, c, b, group, keys) else t == s
    case WaitForOther(c, b) =>
      if c in s.clients && !s.clients[c].blocked && b in {BWait, BPostpone, BShutdown}
      then b in s.byType && t == Blocked(s, c, b) else t == s
    case Timeout(c) =>
      t == if c in s.clients && s.clients[c].blocked then Unblocked(s, c) else s
    case NextQueued => if s.queue != [] && s.queue[0] in s.clients then t == Dequeued(s) else t == s
    case _ => true
  }

  class Server {
    var clients: map<ClientId, Client>
    var blocking: map<Key, seq<ClientId>>
    var queue: seq<ClientId>
    var postponed: seq<ClientId>
    var total: int
    var byType: map<BType, int>
    var readyKeys: seq<Key>      // server.ready_keys
    var readySet: set<Key>       // db->ready_keys, which keeps keys from being queued twice

    ghost function Now(): State
      reads this
    {
      State(clients, blocking, queue, postponed, total, byType)
    }

    /** The keys still to be processed and those queued anew are exactly the keys in the
        ready sets, each once. */
    ghost predicate ReadyOk(pending: seq<Key>)
      reads this`readyKeys, this`readySet
    {
      && NoDup(pending + readyKeys)
      && forall k :: k in readySet <==> k in pending + readyKeys
    }

    ghost predicate Valid()
      reads this
    {
      Inv(Now()) && ReadyOk([])
    }

    constructor ()
      ensures Valid() && clients == map[] && readyKeys == []
    {
      clients, blocking, queue, postponed, total := map[], map[], [], [], 0;
      byType := map[BNone := 0, BList := 0, BZset := 0, BStream := 0, BModule := 0, BWait := 0, BPostpone := 0, BShutdown := 0];
      readyKeys, readySet := [], {};
      new;
      assert AllBlocked(clients) == {};
      forall t: BType
        ensures BlockedWith(clients, t) == {} && t in byType
      {
        assert t.BNone? || t.BList? || t.BZset? || t.BStream? || t.BModule? || t.BWait? || t.BPostpone? || t.BShutdown?;
      }
    }

    // ----- blocking -----

    /** blockClient */
    method BlockClient(c: ClientId, t: BType)
      requires c in clients && t in byType
      modifies this`clients, this`postponed, this`total, this`byType
      ensures Now() == Blocked(old(Now()), c, t)
    {
      clients := clients[c := clients[c].(blocked := true, btype := t)];
      total := total + 1;
      byType := byType[t := byType[t] + 1];
      if t == BPostpone { postponed := postponed + [c]; }
    }

    /** blockForKeys */
    method BlockForKeys(c: ClientId, t: BType, group: bool, keys: seq<(Key, int)>)
      requires Valid() && c in clients && !clients[c].blocked && WaitsForKeys(t) && keys != []
      modifies this`clients, this`blocking, this`postponed, this`total, this`byType
      ensures Valid() && t in old(byType) && Now() == BlockedForKeys(old(Now()), c, t, group, keys)
    {
      hide Inv;
      BlockForKeysKeeps(Now(), c, t, group, keys);
      ghost var start := Now();
      for j := 0 to |keys|
        invariant c in clients && byType == start.byType
        invariant AddKeys(Now(), c, keys[j..]) == AddKeys(start, c, keys)
      {
        assert keys[j..][1..] == keys[j + 1..];
        var k := keys[j].0;
        if k in clients[c].keys { continue; }
        clients := clients[c := clients[c].(keys := clients[c].keys[k := keys[j].1])];
        var l := if k in blocking then blocking[k] else [];
        blocking := blocking[k := l + [c]];
      }
      clients := clients[c := clients[c].(group := group)];
      BlockClient(c, t);
    }

    // ----- unblocking -----

    /** unblockClientWaitingData: the client's node leaves the list of every key it waits
        for, and lists that become empty go. */
    method UnblockWaitingData(c: ClientId)
      requires IndexOk(clients, blocking) && c in clients
      modifies this`blocking, this`clients
      ensures blocking == Cleared(old(blocking), {c})
      ensures clients == old(clients)[c := old(clients)[c].(keys := map[], group := false)]
    {
      hide Without, NoDup, ClearedOn, Cleared;
      ghost var was, all := blocking, clients[c].keys.Keys;
      ClearedOnNothing(was, c);
      var left := clients[c].keys.Keys;
      while left != {}
        invariant left <= all && clients == old(clients)
        invariant blocking == ClearedOn(was, c, all - left)
        decreases left
      {
        var k :| k in left;
        ClearedOnStep(clients, was, c, all - left, k);
        ghost var before := left;
        left := left - {k};
        assert all - left == (all - before) + {k};
        var l := blocking[k];
        var i :| 0 <= i < |l| && l[i] == c;
        RemoveNode(l, i);
        l := l[..i] + l[i + 1..];
        if l == [] { blocking := blocking - {k}; } else { blocking := blocking[k := l]; }
      }
      assert all - {} == all;
      ClearedOnAll(clients, was, c);
      clients := clients[c := clients[c].(keys := map[], group := false)];
    }

    /** queueClientForReprocessing */
    method QueueForReprocessing(c: ClientId)
      requires c in clients
      modifies this`clients, this`queue
      ensures queue == if old(clients)[c].queued then old(queue) else old(queue) + [c]
      ensures clients == old(clients)[c := old(clients)[c].(queued := true)]
    {
      if !clients[c].queued {
        clients := clients[c := clients[c].(queued := true)];
        queue := queue + [c];
      }
    }

    /** unblockClient */
    method UnblockClient(c: ClientId)
      requires Inv(Now()) && c in clients && clients[c].blocked
      modifies this`clients, this`blocking, this`queue, this`postponed, this`total, this`byType
      ensures Inv(Now()) && Now() == Unblocked(old(Now()), c)
    {
      hide Inv, Cleared, IndexOk, Without, NoDup;
      UnblockKeeps(Now(), c);
      UnblockNeeds(Now(), c);
      NotWaiting(Now(), c);
      NotPostponed(Now(), c);
      var t := clients[c].btype;
      if WaitsForKeys(t) {
        UnblockWaitingData(c);
      } else if t == BPostpone {
        var i :| 0 <= i < |postponed| && postponed[i] == c;
        RemoveNode(postponed, i);
        postponed := postponed[..i] + postponed[i + 1..];
      }
      total := total - 1;
      byType := byType[t := byType[t] - 1];
      clients := clients[c := clients[c].(blocked := false, btype := BNone, keys := map[], group := false)];
      QueueForReprocessing(c);
      assert clients == old(clients)[c := IDLE.(queued := true)];
      assert blocking == Cleared(old(blocking), {c}) && postponed == Without(old(postponed), {c});
    }

    /** The head of the queue, ready to have its input processed. */
    method NextUnblocked() returns (c: ClientId)
      requires Valid() && queue != []
      modifies this`clients, this`queue
      ensures Valid() && c == old(queue)[0] && Now() == Dequeued(old(Now()))
    {
      hide Inv;
      DequeueKeeps(Now());
      c := queue[0];
      queue := queue[1..];
      clients := clients[c := clients[c].(queued := false)];
    }

    // ----- ready keys -----

    ghost predicate HasWaiter(k: Key, t: BType)
      reads this
    {
      k in blocking && exists c :: c in blocking[k] && c in clients && clients[c].btype == t
    }

    /** signalKeyAsReady. No quick return skips a key that has a waiter of the type. */
    method SignalKeyAsReady(k: Key, t: ObjType, ghost pending: seq<Key>)
      requires Inv(Now()) && ReadyOk(pending)
      modifies this`readyKeys, this`readySet
      ensures ReadyOk(pending)
      ensures readyKeys == if Announced(Now(), k, t) && k !in old(readySet) then old(readyKeys) + [k] else old(readyKeys)
      ensures readySet == if Announced(Now(), k, t) then old(readySet) + {k} else old(readySet)
      ensures t != ObjOther && (HasWaiter(k, BlockedTypeOf(t)) || HasWaiter(k, BModule)) ==> k in readySet
    {
      hide IndexOk, QueueOk, PostponedOk;
      var btype := BlockedTypeOf(t);
      if btype == BNone { return; }
      CountedTypes(Now());
      if byType[btype] == 0 && byType[BModule] == 0 {
        NobodyWaits(Now(), btype);
        NobodyWaits(Now(), BModule);
        return;
      }
      if k !in blocking { return; }
      if k in readySet { return; }
      readyKeys := readyKeys + [k];
      readySet := readySet + {k};
      assert pending + readyKeys == (pending + old(readyKeys)) + [k];
    }

    // ----- serving -----

    /** Serving one client: what it pushes may make keys ready, then it is unblocked. */
    method ServeOne(receiver: ClientId, ghost pending: seq<Key>) returns (deleted: bool)
      requires Inv(Now()) && ReadyOk(pending) && receiver in clients && clients[receiver].blocked
      modifies this
      ensures Inv(Now()) && ReadyOk(pending) && Now() == Unblocked(old(Now()), receiver)
    {
      hide Inv;
      var signals: seq<(Key, ObjType)> := *;
      deleted := *;
      var j := 0;
      while j < |signals|
        invariant 0 <= j <= |signals| && ReadyOk(pending) && Now() == old(Now())
      {
        SignalKeyAsReady(signals[j].0, signals[j].1, pending);
        j := j + 1;
      }
      UnblockClient(receiver);
    }

    /** The loops over a list or sorted set key: clients of the type are served in the
        order they blocked, until the key is gone. */
    method ServeUntilDeleted(k: Key, t: BType, ghost pending: seq<Key>) returns (served: seq<ClientId>, deleted: bool)
      requires Inv(Now()) && ReadyOk(pending) && t in {BList, BZset}
      modifies this
      ensures Inv(Now()) && ReadyOk(pending)
      ensures Unblockable(old(Now()), served) && Now() == UnblockedAll(old(Now()), served)
      ensures var waiters := OfType(old(clients), Waiters(old(Now()), k), t);
              served <= waiters && (!deleted ==> served == waiters)
      ensures served == [] ==> readyKeys == old(readyKeys) && readySet == old(readySet)
    {
      hide Inv, OfType, UnblockedAll, Unblocked;
      ghost var start := Now();
      served, deleted := [], false;
      CountedTypesInv(start);
      ServedNothing(start);
      OfTypeNothing(clients, t);
      if byType[t] == 0 {
        NobodyOfType(start, k, t);
        return;
      }
      if k !in blocking { return; }
      var waiters := blocking[k];
      WaitersFacts(start, k);
      assert waiters[..0] == [];
      var i := 0;
      while i < |waiters|
        invariant 0 <= i <= |waiters| && !deleted
        invariant Inv(Now()) && ReadyOk(pending)
        invariant Unblockable(start, served) && Now() == UnblockedAll(start, served)
        invariant served == OfType(start.clients, waiters[..i], t)
        invariant forall c | c in served :: c in waiters[..i]
        invariant served == [] ==> readyKeys == old(readyKeys) && readySet == old(readySet)
        decreases |waiters| - i
      {
        var receiver := waiters[i];
        OfTypeNext(start.clients, waiters, i, t);
        UnblockedAllIs(start, served);
        assert receiver !in waiters[..i];
        i := i + 1;
        if clients[receiver].btype != t { continue; }
        OneMore(start, served, receiver);
        deleted := ServeOne(receiver, pending);
        served := served + [receiver];
        if deleted { return; }
      }
      assert waiters[..i] == waiters;
    }

    /** The loops over a stream key: every stream waiter may or may not be served, and
        the XREADGROUP waiters all are when `onlyGroups` (the stream is gone). */
    method ServeStream(k: Key, onlyGroups: bool, ghost pending: seq<Key>) returns (served: seq<ClientId>)
      requires Inv(Now()) && ReadyOk(pending)
      modifies this`clients, this`blocking, this`queue, this`postponed, this`total, this`byType
      ensures Inv(Now())
      ensures Unblockable(old(Now()), served) && Now() == UnblockedAll(old(Now()), served)
      ensures var waiters := Waiters(old(Now()), k);
              if onlyGroups then served == Readers(old(clients), waiters)
              else Subsequence(served, OfType(old(clients), waiters, BStream))
    {
      hide Inv, OfType, Readers, Subsequence, UnblockedAll, Unblocked;
      ghost var start := Now();
      served := [];
      CountedTypesInv(start);
      ServedNothing(start);
      NoReaders(clients);
      OfTypeNothing(clients, BStream);
      if byType[BStream] == 0 {
        NobodyOfType(start, k, BStream);
        NoReadersOfType(start.clients, Waiters(start, k));
        return;
      }
      if k !in blocking { return; }
      var waiters := blocking[k];
      WaitersFacts(start, k);
      assert waiters[..0] == [];
      for i := 0 to |waiters|
        invariant Inv(Now())
        invariant Unblockable(start, served) && Now() == UnblockedAll(start, served)
        invariant forall c | c in served :: c in waiters[..i]
        invariant if onlyGroups then served == Readers(start.clients, waiters[..i])
                  else Subsequence(served, OfType(start.clients, waiters[..i], BStream))
      {
        var receiver := waiters[i];
        OfTypeNext(start.clients, waiters, i, BStream);
        ReadersNext(start.clients, waiters, i);
        ghost var before := OfType(start.clients, waiters[..i], BStream);
        assert before + [] == before;
        if !onlyGroups { SubsequenceNext(served, before, receiver); }
        UnblockedAllIs(start, served);
        assert receiver !in waiters[..i];
        if clients[receiver].btype != BStream { continue; }
        var ready: bool := *;
        if (onlyGroups && !clients[receiver].group) || (!onlyGroups && !ready) { continue; }
        OneMore(start, served, receiver);
        UnblockClient(receiver);
        served := served + [receiver];
      }
      assert waiters[..|waiters|] == waiters;
    }

    /** What handleClientsBlockedOnKeys does for one ready key; what the key holds now, if
        anything, is up to the dataset. */
    method ServeKey(k: Key, ghost pending: seq<Key>) returns (served: seq<ClientId>, ghost h: Handled)
      requires Inv(Now()) && ReadyOk(pending)
      modifies this
      ensures Inv(Now()) && ReadyOk(pending)
      ensures Unblockable(old(Now()), served) && Now() == UnblockedAll(old(Now()), served)
      ensures served == [] ==> readyKeys == old(readyKeys)
      ensures h.key == k && h.Served() == served && InTurn(old(Now()), h) && Settled(Now(), h)
    {
      hide Inv, OfType, NoWaiter, NoGroupWaiter, UnblockedAll, Unblocked, Unblockable, Readers, Subsequence;
      ghost var start := Now();
      var exists_: bool := *;
      var objType: ObjType := *;
      served := [];
      ServedNothing(start);
      var deleted := false;
      OfTypeOnly(clients, Waiters(start, k), BList);
      OfTypeOnly(clients, Waiters(start, k), BZset);
      if exists_ {
        if objType == ObjList {
          served, deleted := ServeUntilDeleted(k, BList, pending);
          if !deleted { AllServed(start, k, BList, served); }
        } else if objType == ObjZset {
          served, deleted := ServeUntilDeleted(k, BZset, pending);
          if !deleted { AllServed(start, k, BZset, served); }
        } else if objType == ObjStream {
          served := ServeStream(k, false, pending);
        }
      }
      ghost var first := served;
      var more := [];
      if !exists_ || objType != ObjStream {
        UnblockedAllIs(start, served);
        ghost var mid := Now();
        ReadersLater(start, k, served);
        more := ServeStream(k, true, pending);
        GroupsServed(mid, k, more);
        StaysSettled(mid, more);
        ServedMore(start, served, more);
        served := served + more;
      }
      h := Handled(k, if exists_ then Some(objType) else None, deleted, first, more);
    }

    /** A served list key: its list waiters leave from the front, and every waiter list,
        of this key or another, keeps everybody else in order. */
    lemma ServedListKey(before: State, k: Key, t: BType, served: seq<ClientId>)
      requires Inv(before) && Unblockable(before, served) && Now() == UnblockedAll(before, served)
      requires k in before.blocking && served <= OfType(before.clients, before.blocking[k], t)
      ensures forall k' | k' in before.blocking && k' in blocking :: blocking[k'] == Without(before.blocking[k'], Members(served))
      ensures forall c | c in before.blocking[k] && before.clients[c].btype != t :: k in blocking && c in blocking[k]
    {
      hide Inv;
      UnblockedAllIs(before, served);
      WaitersFacts(before, k);
      OfTypeOnly(before.clients, before.blocking[k], t);
    }

    /** The inner loop: serves the keys of the local list, front to back. */
    method ServeList(ready: seq<Key>) returns (served: seq<ClientId>, ghost handled: seq<Handled>)
      requires Inv(Now()) && ReadyOk(ready) && readyKeys == []
      modifies this
      ensures Valid() && (served == [] ==> readyKeys == [])
      ensures Unblockable(old(Now()), served) && Now() == UnblockedAll(old(Now()), served)
      ensures Keys(handled) == ready && forall h | h in handled :: Settled(Now(), h)
      ensures InOrder(old(Now()), handled) && Now() == AfterServing(old(Now()), handled)
    {
      hide Inv, Settled, UnblockedAll, Unblocked, Unblockable, InTurn, InOrder, AfterServing, Keys;
      ghost var start := Now();
      served, handled := [], [];
      ServedNothing(start);
      NothingHandled(start);
      KeysAppend([], []);
      var l := ready;
      while l != []
        invariant Inv(Now()) && ReadyOk(l) && (served == [] ==> readyKeys == [])
        invariant Unblockable(start, served) && Now() == UnblockedAll(start, served)
        invariant Keys(handled) + l == ready && forall h | h in handled :: Settled(Now(), h)
        invariant InOrder(start, handled) && Now() == AfterServing(start, handled)
        decreases |l|
      {
        var k := l[0];
        assert l + readyKeys == [k] + (l[1..] + readyKeys);
        readySet := readySet - {k};
        HeadNoDup(k, l[1..] + readyKeys);
        ghost var mid := Now();
        var more, h := ServeKey(k, l[1..]);
        StaysSettled(mid, more);
        ServedMore(start, served, more);
        OneKeyMore(start, handled, h);
        OneKey(handled, h);
        assert l == [k] + l[1..];
        handled := handled + [h];
        served := served + more;
        l := l[1..];
      }
      assert Keys(handled) + [] == Keys(handled);
    }

    /** handleClientsBlockedOnKeys: drains the ready keys, including those that serving
        makes ready. It ends because a round either unblocks somebody or queues nothing. */
    method HandleClientsBlockedOnKeys() returns (served: seq<ClientId>, ghost handled: seq<Handled>)
      requires Valid()
      modifies this
      ensures Valid() && readyKeys == [] && readySet == {}
      ensures Unblockable(old(Now()), served) && Now() == UnblockedAll(old(Now()), served)
      ensures old(readyKeys) <= Keys(handled) && forall h | h in handled :: Settled(Now(), h)
      ensures InOrder(old(Now()), handled) && Now() == AfterServing(old(Now()), handled)
    {
      hide Inv, Settled, UnblockedAll, Unblocked, Unblockable, Keys, InTurn, InOrder, AfterServing;
      ghost var start := Now();
      served, handled := [], [];
      ServedNothing(start);
      NothingHandled(start);
      TotalNatural(start);
      KeysAppend([], []);
      while readyKeys != []
        invariant Valid() && total >= 0
        invariant Unblockable(start, served) && Now() == UnblockedAll(start, served)
        invariant old(readyKeys) <= Keys(handled) || (handled == [] && readyKeys == old(readyKeys))
        invariant forall h | h in handled :: Settled(Now(), h)
        invariant InOrder(start, handled) && Now() == AfterServing(start, handled)
        decreases total, |readyKeys|
      {
        var l := readyKeys;
        readyKeys := [];
        assert l + [] == l && [] + l == l;
        ghost var mid := Now();
        var more, hs := ServeList(l);
        FewerBlocked(mid, more);
        StaysSettled(mid, more);
        ServedMore(start, served, more);
        KeysAppend(handled, hs);
        MoreKeys(start, handled, hs);
        handled := handled + hs;
        served := served + more;
      }
    }

    /** MAIN RESULT: every sequence of connections, blocking commands, timeouts, written keys and
        event loop rounds, each done whenever its guard allows it, passes through valid states only.
        `trace` lists them, with the keys that are ready. */
    method Run(steps: seq<Event>) returns (ghost trace: seq<View>)
      requires Valid()
      modifies this
      ensures Valid() && |trace| == |steps| + 1
      ensures trace[0] == old(View(Now(), readyKeys)) && trace[|steps|] == View(Now(), readyKeys)
      ensures forall i | 0 <= i <= |steps| :: Inv(trace[i].state) && NoDup(trace[i].ready)
      ensures forall i | 0 <= i < |steps| :: Happens(trace[i], steps[i], trace[i + 1])
    {
      hide Inv, Happens;
      trace := [View(Now(), readyKeys)];
      assert [] + readyKeys == readyKeys;
      for i := 0 to |steps|
        invariant Valid() && |trace| == i + 1 && trace[0] == old(View(Now(), readyKeys)) && trace[i] == View(Now(), readyKeys)
        invariant forall j | 0 <= j <= i :: Inv(trace[j].state) && NoDup(trace[j].ready)
        invariant forall j | 0 <= j < i :: Happens(trace[j], steps[j], trace[j + 1])
      {
        Do(steps[i]);
        assert [] + readyKeys == readyKeys;
        trace := trace + [View(Now(), readyKeys)];
      }
    }

    method Do(e: Event)
      requires Valid()
      modifies this
      ensures Valid() && Happens(old(View(Now(), readyKeys)), e, View(Now(), readyKeys))
    {
      hide Inv, InOrder, AfterServing;
      assert [] + readyKeys == readyKeys;
      match e {
        case Connect(c) =>
          if c !in clients {
            ConnectKeeps(Now(), c);
            clients := clients[c := IDLE];
          }
        case WaitForKeys(c, t, group, keys) =>
          if c in clients && !clients[c].blocked && WaitsForKeys(t) && keys != [] {
            BlockForKeys(c, t, group, keys);
          }
        case WaitForOther(c, t) =>
          if c in clients && !clients[c].blocked && t in {BWait, BPostpone, BShutdown} {
            BlockKeeps(Now(), c, t);
            BlockClient(c, t);
          }
        case Timeout(c) =>
          if c in clients && clients[c].blocked {
            UnblockClient(c);
          }
        case Written(k, t) =>
          SignalKeyAsReady(k, t, []);
        case BeforeSleep =>
          var served, handled := HandleClientsBlockedOnKeys();
        case NextQueued =>
          if queue != [] {
            QueuedClients(Now());
            var c := NextUnblocked();
          }
      }
    }
  }

  // ----- facts the methods use -----

  lemma HeadNoDup(k: Key, s: seq<Key>)
    requires NoDup([k] + s)
    ensures NoDup(s) && k !in s
  {
    assert forall i | 0 <= i < |s| :: ([k] + s)[i + 1] == s[i] && ([k] + s)[0] == k;
  }

  lemma QueuedClients(s: State)
    requires Inv(s) && s.queue != []
    ensures s.queue[0] in s.clients
  {}

  lemma TotalNatural(s: State)
    requires Inv(s)
    ensures s.total >= 0
  {}

  lemma FewerBlocked(s: State, served: seq<ClientId>)
    requires Inv(s) && Unblockable(s, served)
    ensures UnblockedAll(s, served).total == s.total - |served| >= 0
  {
    hide Inv;
    UnblockedAllIs(s, served);
    TotalNatural(UnblockedAll(s, served));
  }

  lemma CountedTypesInv(s: State)
    requires Inv(s)
    ensures forall t: BType :: t in s.byType
  {}

  lemma ServedNothing(s: State)
    ensures Unblockable(s, []) && UnblockedAll(s, []) == s
  {}

  lemma OfTypeNothing(clients: map<ClientId, Client>, t: BType)
    ensures OfType(clients, [], t) == []
  {}

  lemma UnblockNeeds(s: State, c: ClientId)
    requires Inv(s) && c in s.clients
    ensures IndexOk(s.clients, s.blocking) && NoDup(s.postponed) && s.clients[c].btype in s.byType
    ensures s.clients[c].btype == BPostpone ==> exists i :: 0 <= i < |s.postponed| && s.postponed[i] == c
  {}

  lemma NotWaiting(s: State, c: ClientId)
    requires Inv(s) && c in s.clients
    ensures !WaitsForKeys(s.clients[c].btype) ==> Cleared(s.blocking, {c}) == s.blocking && s.clients[c].keys == map[]
  {
    if !WaitsForKeys(s.clients[c].btype) {
      forall k | k in s.blocking
        ensures Without(s.blocking[k], {c}) == s.blocking[k] && s.blocking[k] != []
      {
        WithoutNone(s.blocking[k], {c});
      }
    }
  }

  lemma NotPostponed(s: State, c: ClientId)
    requires Inv(s) && c in s.clients
    ensures s.clients[c].btype != BPostpone ==> Without(s.postponed, {c}) == s.postponed
  {
    if s.clients[c].btype != BPostpone { WithoutNone(s.postponed, {c}); }
  }

  /** A zero counter means no waiter of the type, in any list. */
  lemma NobodyWaits(s: State, t: BType)
    requires Inv(s) && t in s.byType && s.byType[t] == 0
    ensures forall c | c in s.clients :: s.clients[c].btype != t || !s.clients[c].blocked
  {
    assert BlockedWith(s.clients, t) == {};
    assert forall c | c in s.clients && s.clients[c].blocked && s.clients[c].btype == t :: c in BlockedWith(s.clients, t);
  }

  lemma NobodyOfType(s: State, k: Key, t: BType)
    requires Inv(s) && t in s.byType && s.byType[t] == 0 && t != BNone
    ensures k in s.blocking ==> OfType(s.clients, s.blocking[k], t) == []
    ensures forall c | c in s.clients :: s.clients[c].btype != t
  {
    NobodyWaits(s, t);
    if k in s.blocking { NoneOfType(s.clients, s.blocking[k], t); }
  }

  lemma {:induction false} NoneOfType(clients: map<ClientId, Client>, waiters: seq<ClientId>, t: BType)
    requires forall c | c in clients :: clients[c].btype != t
    ensures OfType(clients, waiters, t) == []
  {
    if waiters != [] { NoneOfType(clients, waiters[1..], t); }
  }

  lemma {:induction false} OfTypeOnly(clients: map<ClientId, Client>, waiters: seq<ClientId>, t: BType)
    ensures forall c | c in OfType(clients, waiters, t) :: c in clients && clients[c].btype == t
  {
    if waiters != [] { OfTypeOnly(clients, waiters[1..], t); }
  }

  lemma WaitersFacts(s: State, k: Key)
    requires Inv(s) && k in s.blocking
    ensures NoDup(s.blocking[k])
    ensures forall c | c in s.blocking[k] :: c in s.clients && s.clients[c].blocked && WaitsForKeys(s.clients[c].btype)
  {}

  lemma OneMore(s: State, served: seq<ClientId>, c: ClientId)
    requires Inv(s) && Unblockable(s, served) && c !in served && c in s.clients && s.clients[c].blocked
    ensures Unblockable(s, served + [c])
    ensures UnblockedAll(s, served + [c]) == Unblocked(UnblockedAll(s, served), c)
    ensures c in UnblockedAll(s, served).clients && UnblockedAll(s, served).clients[c].blocked
  {
    hide Inv, Unblocked;
    UnblockedAllIs(s, served);
    assert (served + [c])[..|served|] == served;
  }

  lemma {:induction false} ServedMore(s: State, served: seq<ClientId>, more: seq<ClientId>)
    requires Inv(s) && Unblockable(s, served) && Unblockable(UnblockedAll(s, served), more)
    ensures Unblockable(s, served + more)
    ensures UnblockedAll(UnblockedAll(s, served), more) == UnblockedAll(s, served + more)
    decreases |more|
  {
    hide Inv, Unblocked;
    UnblockedAllIs(s, served);
    if more == [] {
      assert served + more == served;
    } else {
      var init, c := more[..|more| - 1], more[|more| - 1];
      assert more == init + [c] && served + more == (served + init) + [c];
      assert forall d | d in init :: d in more;
      ServedMore(s, served, init);
      assert c in more && c !in init;
      OneMore(s, served + init, c);
    }
  }
}
