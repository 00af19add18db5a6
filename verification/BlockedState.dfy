/** Clients blocked on keys: the two-sided index, the counters and the queues as one
    value, the changes blocking and unblocking make, and the invariant they keep. */
module BlockedState {

  type ClientId = nat

  datatype Key = Key(db: nat, name: string)

  datatype BType = BNone | BList | BZset | BStream | BModule | BWait | BPostpone | BShutdown

  /** The types that wait for keys. */
  predicate WaitsForKeys(t: BType) { t in {BList, BZset, BStream, BModule} }

  /** `keys` is client->bpop.keys with the stream id waited for; `queued` is the
      CLIENT_UNBLOCKED flag; `group` says the wait is an XREADGROUP. */
  datatype Client = Client(blocked: bool, btype: BType, keys: map<Key, int>, queued: bool, group: bool)

  const IDLE := Client(false, BNone, map[], false, false)

  datatype State = State(
    clients: map<ClientId, Client>,
    blocking: map<Key, seq<ClientId>>,   // db->blocking_keys
    queue: seq<ClientId>,                // server.unblocked_clients
    postponed: seq<ClientId>,            // server.postponed_clients
    total: int,                          // server.blocked_clients
    byType: map<BType, int>)             // server.blocked_clients_by_type

  // ----- sequences without some elements -----

  function Without(s: seq<ClientId>, gone: set<ClientId>): (r: seq<ClientId>)
    ensures forall x :: x in r <==> x in s && x !in gone
    ensures |r| <= |s|
  {
    if s == [] then []
    else if s[0] in gone then Without(s[1..], gone)
    else [s[0]] + Without(s[1..], gone)
  }

  ghost predicate NoDup<T(!new)>(s: seq<T>) {
    forall i, j | 0 <= i < j < |s| :: s[i] != s[j]
  }

  lemma {:induction false} WithoutNoDup(s: seq<ClientId>, gone: set<ClientId>)
    requires NoDup(s)
    ensures NoDup(Without(s, gone))
  {
    if s != [] {
      WithoutNoDup(s[1..], gone);
      assert s[0] !in s[1..];
    }
  }

  lemma {:induction false} WithoutNone(s: seq<ClientId>, gone: set<ClientId>)
    requires forall x | x in s :: x !in gone
    ensures Without(s, gone) == s
  {
    if s != [] { WithoutNone(s[1..], gone); }
  }

  lemma {:induction false} WithoutTwice(s: seq<ClientId>, a: set<ClientId>, b: set<ClientId>)
    ensures Without(Without(s, a), b) == Without(s, a + b)
  {
    if s != [] { WithoutTwice(s[1..], a, b); }
  }

  lemma {:induction false} WithoutAppend(s: seq<ClientId>, t: seq<ClientId>, gone: set<ClientId>)
    ensures Without(s + t, gone) == Without(s, gone) + Without(t, gone)
  {
    if s == [] {
      assert s + t == t;
    } else {
      assert (s + t)[1..] == s[1..] + t;
      WithoutAppend(s[1..], t, gone);
    }
  }

  /** Deleting the node that holds c: with every client listed once this is Without. */
  lemma {:induction false} RemoveNode(s: seq<ClientId>, i: nat)
    requires NoDup(s) && i < |s|
    ensures s[..i] + s[i + 1..] == Without(s, {s[i]})
    decreases i
  {
    var t := s[1..];
    if i == 0 {
      WithoutNone(t, {s[0]});
    } else {
      RemoveNode(t, i - 1);
      assert s[..i] + s[i + 1..] == [s[0]] + (t[..i - 1] + t[i..]);
    }
  }

  /** The waiter lists once some clients are gone: others keep their order, and no
      empty list stays. */
  function Cleared(blocking: map<Key, seq<ClientId>>, gone: set<ClientId>): map<Key, seq<ClientId>> {
    map k | k in blocking && Without(blocking[k], gone) != [] :: Without(blocking[k], gone)
  }

  lemma ClearedTwice(blocking: map<Key, seq<ClientId>>, a: set<ClientId>, b: set<ClientId>)
    ensures Cleared(Cleared(blocking, a), b) == Cleared(blocking, a + b)
  {
    forall k | k in blocking
      ensures Without(Without(blocking[k], a), b) == Without(blocking[k], a + b)
    {
      WithoutTwice(blocking[k], a, b);
    }
  }

  // ----- the invariant -----

  ghost function BlockedWith(clients: map<ClientId, Client>, t: BType): set<ClientId> {
    set c | c in clients && clients[c].blocked && clients[c].btype == t
  }

  ghost function AllBlocked(clients: map<ClientId, Client>): set<ClientId> {
    set c | c in clients && clients[c].blocked
  }

  /** A client is in a key's waiter list, once, exactly if the key is in its own table;
      there are no empty lists. */
  ghost predicate IndexOk(clients: map<ClientId, Client>, blocking: map<Key, seq<ClientId>>) {
    && (forall k | k in blocking :: blocking[k] != [] && NoDup(blocking[k]))
    && (forall k, c | k in blocking && c in blocking[k] :: c in clients && k in clients[c].keys)
    && (forall k, c | c in clients && k in clients[c].keys :: k in blocking && c in blocking[k])
  }

  ghost predicate CountsOk(clients: map<ClientId, Client>, total: int, byType: map<BType, int>) {
    && total == |AllBlocked(clients)|
    && forall t: BType :: t in byType && byType[t] == |BlockedWith(clients, t)|
  }

  ghost predicate ShapeOk(clients: map<ClientId, Client>) {
    forall c | c in clients ::
      && (clients[c].blocked <==> clients[c].btype != BNone)
      && (clients[c].keys != map[] <==> WaitsForKeys(clients[c].btype))
  }

  /** CLIENT_UNBLOCKED exactly for the clients in the queue, each listed once. */
  ghost predicate QueueOk(clients: map<ClientId, Client>, queue: seq<ClientId>) {
    && NoDup(queue) && (forall c | c in queue :: c in clients)
    && forall c | c in clients :: clients[c].queued <==> c in queue
  }

  ghost predicate PostponedOk(clients: map<ClientId, Client>, postponed: seq<ClientId>) {
    && NoDup(postponed) && (forall c | c in postponed :: c in clients)
    && forall c | c in clients :: clients[c].btype == BPostpone <==> c in postponed
  }

  ghost predicate Inv(s: State) {
    && ShapeOk(s.clients) && IndexOk(s.clients, s.blocking) && CountsOk(s.clients, s.total, s.byType)
    && QueueOk(s.clients, s.queue) && PostponedOk(s.clients, s.postponed)
  }

  // ----- unblocking -----

  /** unblockClient, seen as one change. */
  function Unblocked(s: State, c: ClientId): State {
    if c !in s.clients || s.clients[c].btype !in s.byType then s else
    var client := s.clients[c];
    State(s.clients[c := IDLE.(queued := true)],
          Cleared(s.blocking, {c}),
          if client.queued then s.queue else s.queue + [c],
          Without(s.postponed, {c}),
          s.total - 1,
          s.byType[client.btype := s.byType[client.btype] - 1])
  }

  lemma UnblockIndex(clients: map<ClientId, Client>, blocking: map<Key, seq<ClientId>>, c: ClientId, client: Client)
    requires IndexOk(clients, blocking) && c in clients && client.keys == map[]
    ensures IndexOk(clients[c := client], Cleared(blocking, {c}))
  {
    hide Without, NoDup;
    forall k | k in blocking
      ensures NoDup(Without(blocking[k], {c}))
    {
      WithoutNoDup(blocking[k], {c});
    }
    forall k, d | d in clients[c := client] && k in clients[c := client][d].keys
      ensures k in Cleared(blocking, {c}) && d in Cleared(blocking, {c})[k]
    {
      assert d != c && d in Without(blocking[k], {c});
    }
  }

  lemma UnblockCounts(clients: map<ClientId, Client>, total: int, byType: map<BType, int>, c: ClientId, client: Client)
    requires CountsOk(clients, total, byType) && c in clients && clients[c].blocked && !client.blocked
    ensures var t := clients[c].btype;
            CountsOk(clients[c := client], total - 1, byType[t := byType[t] - 1])
  {
    hide BlockedWith;
    var t, after := clients[c].btype, clients[c := client];
    assert AllBlocked(after) == AllBlocked(clients) - {c};
    forall u: BType
      ensures |BlockedWith(after, u)| == if u == t then |BlockedWith(clients, u)| - 1 else |BlockedWith(clients, u)|
    {
      OneFewer(clients, c, client, u);
    }
  }

  lemma OneFewer(clients: map<ClientId, Client>, c: ClientId, client: Client, u: BType)
    requires c in clients && clients[c].blocked && !client.blocked
    ensures var before, after := BlockedWith(clients, u), BlockedWith(clients[c := client], u);
            |after| == if u == clients[c].btype then |before| - 1 else |before|
  {
    var before, after := BlockedWith(clients, u), BlockedWith(clients[c := client], u);
    if u == clients[c].btype {
      assert after == before - {c};
    } else {
      assert after == before;
    }
  }

  lemma UnblockQueue(clients: map<ClientId, Client>, queue: seq<ClientId>, c: ClientId, client: Client)
    requires QueueOk(clients, queue) && c in clients && client.queued
    ensures QueueOk(clients[c := client], if clients[c].queued then queue else queue + [c])
  {}

  lemma UnblockPostponed(clients: map<ClientId, Client>, postponed: seq<ClientId>, c: ClientId, client: Client)
    requires PostponedOk(clients, postponed) && c in clients && client.btype != BPostpone
    ensures PostponedOk(clients[c := client], Without(postponed, {c}))
  {
    WithoutNoDup(postponed, {c});
  }

  /** MAIN RESULT (step). Unblocking keeps the whole invariant. */
  lemma UnblockKeeps(s: State, c: ClientId)
    requires Inv(s) && c in s.clients && s.clients[c].blocked
    ensures Inv(Unblocked(s, c))
  {
    hide IndexOk, CountsOk, QueueOk, PostponedOk, Cleared, Without;
    var client := IDLE.(queued := true);
    UnblockIndex(s.clients, s.blocking, c, client);
    CountedTypes(s);
    UnblockCounts(s.clients, s.total, s.byType, c, client);
    UnblockQueue(s.clients, s.queue, c, client);
    UnblockPostponed(s.clients, s.postponed, c, client);
  }

  lemma CountedTypes(s: State)
    requires CountsOk(s.clients, s.total, s.byType)
    ensures forall t: BType :: t in s.byType
  {}

  // ----- blocking -----

  /** blockClient on a client that is not blocked. */
  function Blocked(s: State, c: ClientId, t: BType): State
    requires c in s.clients && t in s.byType
  {
    s.(clients := s.clients[c := s.clients[c].(blocked := true, btype := t)],
       postponed := if t == BPostpone then s.postponed + [c] else s.postponed,
       total := s.total + 1, byType := s.byType[t := s.byType[t] + 1])
  }

  /** One key of blockForKeys: ignored if the client already waits for it. */
  function AddKey(s: State, c: ClientId, k: Key, id: int): State
    requires c in s.clients
  {
    if k in s.clients[c].keys then s
    else s.(clients := s.clients[c := s.clients[c].(keys := s.clients[c].keys[k := id])],
            blocking := s.blocking[k := (if k in s.blocking then s.blocking[k] else []) + [c]])
  }

  function AddKeys(s: State, c: ClientId, keys: seq<(Key, int)>): (r: State)
    requires c in s.clients
    ensures c in r.clients && r.byType == s.byType
    decreases keys
  {
    if keys == [] then s else AddKeys(AddKey(s, c, keys[0].0, keys[0].1), c, keys[1..])
  }

  lemma AddKeyIndex(s: State, c: ClientId, k: Key, id: int)
    requires IndexOk(s.clients, s.blocking) && c in s.clients
    ensures IndexOk(AddKey(s, c, k, id).clients, AddKey(s, c, k, id).blocking)
  {
    if k !in s.clients[c].keys && k in s.blocking {
      assert c !in s.blocking[k];
    }
  }

  /** Same clients apart from the keys that c waits for. */
  ghost predicate SameBut(a: map<ClientId, Client>, b: map<ClientId, Client>, c: ClientId) {
    && c in a && c in b && a.Keys == b.Keys
    && (forall d | d in a && d != c :: b[d] == a[d])
    && b[c] == a[c].(keys := b[c].keys)
  }

  lemma {:induction false} AddKeysIndex(s: State, c: ClientId, keys: seq<(Key, int)>)
    requires IndexOk(s.clients, s.blocking) && c in s.clients
    ensures var r := AddKeys(s, c, keys);
            && IndexOk(r.clients, r.blocking) && SameBut(s.clients, r.clients, c)
            && r == s.(clients := r.clients, blocking := r.blocking)
            && (forall k | k in s.clients[c].keys :: k in r.clients[c].keys)
            && (keys != [] ==> r.clients[c].keys != map[])
    decreases keys
  {
    hide IndexOk;
    if keys != [] {
      AddKeyIndex(s, c, keys[0].0, keys[0].1);
      var t := AddKey(s, c, keys[0].0, keys[0].1);
      AddKeysIndex(t, c, keys[1..]);
      assert keys[0].0 in t.clients[c].keys;
    }
  }

  /** blockForKeys, seen as one change. */
  function BlockedForKeys(s: State, c: ClientId, t: BType, group: bool, keys: seq<(Key, int)>): State
    requires c in s.clients && t in s.byType
  {
    var r := AddKeys(s, c, keys);
    Blocked(r.(clients := r.clients[c := r.clients[c].(group := group)]), c, t)
  }

  /** Same blocking state apart from c, which becomes blocked. */
  ghost predicate BecomesBlocked(clients: map<ClientId, Client>, after: map<ClientId, Client>, c: ClientId) {
    && c in clients && !clients[c].blocked && after.Keys == clients.Keys && after[c].blocked
    && forall d | d in clients && d != c :: after[d].blocked == clients[d].blocked && after[d].btype == clients[d].btype
  }

  lemma OneMoreBlocked(clients: map<ClientId, Client>, after: map<ClientId, Client>, c: ClientId)
    requires BecomesBlocked(clients, after, c)
    ensures |AllBlocked(after)| == |AllBlocked(clients)| + 1
  {
    assert AllBlocked(after) == AllBlocked(clients) + {c};
  }

  lemma OneMoreOfType(clients: map<ClientId, Client>, after: map<ClientId, Client>, c: ClientId, u: BType)
    requires BecomesBlocked(clients, after, c)
    ensures |BlockedWith(after, u)| == |BlockedWith(clients, u)| + (if u == after[c].btype then 1 else 0)
  {
    var was, now := BlockedWith(clients, u), BlockedWith(after, u);
    assert c !in was;
    assert forall d | d != c :: d in now <==> d in was;
    if u == after[c].btype {
      assert now == was + {c};
    } else {
      assert now == was;
    }
  }

  lemma BlockCounts(clients: map<ClientId, Client>, total: int, byType: map<BType, int>, after: map<ClientId, Client>, c: ClientId)
    requires CountsOk(clients, total, byType) && BecomesBlocked(clients, after, c)
    ensures var t := after[c].btype; CountsOk(after, total + 1, byType[t := byType[t] + 1])
  {
    hide BlockedWith, AllBlocked;
    OneMoreBlocked(clients, after, c);
    forall u: BType
      ensures |BlockedWith(after, u)| == |BlockedWith(clients, u)| + (if u == after[c].btype then 1 else 0)
    {
      OneMoreOfType(clients, after, c, u);
    }
  }

  /** Flags that say nothing about keys leave the index alone. */
  lemma SameKeysIndex(clients: map<ClientId, Client>, after: map<ClientId, Client>, blocking: map<Key, seq<ClientId>>)
    requires IndexOk(clients, blocking) && after.Keys == clients.Keys
    requires forall d | d in clients :: after[d].keys == clients[d].keys
    ensures IndexOk(after, blocking)
  {}

  lemma SameFlagsQueue(clients: map<ClientId, Client>, after: map<ClientId, Client>, queue: seq<ClientId>)
    requires QueueOk(clients, queue) && after.Keys == clients.Keys
    requires forall d | d in clients :: after[d].queued == clients[d].queued
    ensures QueueOk(after, queue)
  {}

  /** MAIN RESULT (step). Blocking on a non-empty list of keys, repeated ones included. */
  lemma BlockForKeysKeeps(s: State, c: ClientId, t: BType, group: bool, keys: seq<(Key, int)>)
    requires Inv(s) && c in s.clients && !s.clients[c].blocked && WaitsForKeys(t) && keys != []
    ensures t in s.byType && Inv(BlockedForKeys(s, c, t, group, keys))
  {
    hide IndexOk, CountsOk, QueueOk, PostponedOk, AddKeys, ShapeOk, BecomesBlocked, BlockedForKeys, SameBut;
    CountedTypes(s);
    AddKeysIndex(s, c, keys);
    var r, b := AddKeys(s, c, keys), BlockedForKeys(s, c, t, group, keys);
    BlockedForKeysIs(s, c, t, group, keys);
    BlockShape(s.clients, r.clients, b.clients, c);
    SameKeysIndex(r.clients, b.clients, r.blocking);
    BlockCounts(s.clients, s.total, s.byType, b.clients, c);
    SameFlagsQueue(s.clients, b.clients, s.queue);
    KeepPostponed(s.clients, b.clients, s.postponed, c);
  }

  lemma BlockedForKeysIs(s: State, c: ClientId, t: BType, group: bool, keys: seq<(Key, int)>)
    requires c in s.clients && t in s.byType && t != BPostpone && SameBut(s.clients, AddKeys(s, c, keys).clients, c)
    requires AddKeys(s, c, keys) == s.(clients := AddKeys(s, c, keys).clients, blocking := AddKeys(s, c, keys).blocking)
    ensures var r, b := AddKeys(s, c, keys), BlockedForKeys(s, c, t, group, keys);
            && b == r.(clients := b.clients, total := s.total + 1, byType := s.byType[t := s.byType[t] + 1])
            && b.clients.Keys == r.clients.Keys == s.clients.Keys
            && (forall d | d in r.clients && d != c :: b.clients[d] == r.clients[d])
            && b.clients[c] == r.clients[c].(blocked := true, btype := t, group := group)
            && (forall d | d in r.clients :: b.clients[d].keys == r.clients[d].keys && b.clients[d].queued == s.clients[d].queued)
            && (forall d | d in r.clients && d != c :: b.clients[d].btype == s.clients[d].btype)
  {
    hide AddKeys;
  }

  lemma BlockShape(clients: map<ClientId, Client>, mid: map<ClientId, Client>, after: map<ClientId, Client>, c: ClientId)
    requires ShapeOk(clients) && SameBut(clients, mid, c) && !clients[c].blocked && mid[c].keys != map[]
    requires after.Keys == mid.Keys && (forall d | d in mid && d != c :: after[d] == mid[d])
    requires after[c].blocked && WaitsForKeys(after[c].btype) && after[c].keys == mid[c].keys
    ensures ShapeOk(after) && BecomesBlocked(clients, after, c)
    ensures clients[c].btype != BPostpone
  {}

  lemma KeepPostponed(clients: map<ClientId, Client>, after: map<ClientId, Client>, postponed: seq<ClientId>, c: ClientId)
    requires PostponedOk(clients, postponed) && after.Keys == clients.Keys && c in clients
    requires clients[c].btype != BPostpone && after[c].btype != BPostpone
    requires forall d | d in clients && d != c :: after[d].btype == clients[d].btype
    ensures PostponedOk(after, postponed)
  {}

  /** Blocking without keys: WAIT, CLIENT PAUSE and SHUTDOWN. */
  lemma BlockKeeps(s: State, c: ClientId, t: BType)
    requires Inv(s) && c in s.clients && !s.clients[c].blocked && t in {BWait, BPostpone, BShutdown}
    ensures t in s.byType && Inv(Blocked(s, c, t))
  {
    hide IndexOk, CountsOk, QueueOk;
    CountedTypes(s);
    var after := s.clients[c := s.clients[c].(blocked := true, btype := t)];
    SameKeysIndex(s.clients, after, s.blocking);
    BlockCounts(s.clients, s.total, s.byType, after, c);
    SameFlagsQueue(s.clients, after, s.queue);
  }

  // ----- the queue of unblocked clients, new and leaving clients -----

  /** One round of processUnblockedClients: the first client leaves the queue. */
  function Dequeued(s: State): State
    requires s.queue != [] && s.queue[0] in s.clients
  {
    s.(queue := s.queue[1..], clients := s.clients[s.queue[0] := s.clients[s.queue[0]].(queued := false)])
  }

  lemma SameBlockedCounts(clients: map<ClientId, Client>, after: map<ClientId, Client>, total: int, byType: map<BType, int>)
    requires CountsOk(clients, total, byType)
    requires AllBlocked(after) == AllBlocked(clients) && forall t: BType :: BlockedWith(after, t) == BlockedWith(clients, t)
    ensures CountsOk(after, total, byType)
  {}

  lemma DequeueKeeps(s: State)
    requires Inv(s) && s.queue != []
    ensures s.queue[0] in s.clients && Inv(Dequeued(s))
  {
    hide IndexOk, CountsOk;
    assert s.queue[0] in s.queue;
    var after := Dequeued(s).clients;
    SameKeysIndex(s.clients, after, s.blocking);
    SameBlockedCounts(s.clients, after, s.total, s.byType);
  }

  lemma ConnectKeeps(s: State, c: ClientId)
    requires Inv(s) && c !in s.clients
    ensures Inv(s.(clients := s.clients[c := IDLE]))
  {
    hide CountsOk;
    SameBlockedCounts(s.clients, s.clients[c := IDLE], s.total, s.byType);
  }

  // ----- many clients -----

  /** Clients unblocked one after the other. */
  function UnblockedAll(s: State, served: seq<ClientId>): State {
    if served == [] then s
    else Unblocked(UnblockedAll(s, served[..|served| - 1]), served[|served| - 1])
  }

  ghost predicate Unblockable(s: State, served: seq<ClientId>) {
    NoDup(served) && forall c | c in served :: c in s.clients && s.clients[c].blocked
  }

  function Members(s: seq<ClientId>): (r: set<ClientId>)
    ensures forall c :: c in r <==> c in s
  {
    set c | c in s
  }

  /** What unblocking a list of clients leaves, all at once: everybody else keeps
      waiting, in the same order. */
  lemma {:induction false} UnblockedAllIs(s: State, served: seq<ClientId>)
    requires Inv(s) && Unblockable(s, served)
    ensures var r := UnblockedAll(s, served);
            && Inv(r) && r.blocking == Cleared(s.blocking, Members(served)) && r.total == s.total - |served|
            && r.clients.Keys == s.clients.Keys
            && forall c | c in s.clients :: r.clients[c] == if c in served then IDLE.(queued := true) else s.clients[c]
  {
    hide Inv, Cleared, Unblocked, Members;
    if served == [] {
      ClearedNothing(s);
      assert Members(served) == {};
    } else {
      var init, c := served[..|served| - 1], served[|served| - 1];
      assert served == init + [c] && c in served && c !in init;
      assert Unblockable(s, init);
      UnblockedAllIs(s, init);
      var t := UnblockedAll(s, init);
      UnblockKeeps(t, c);
      UnblockedFacts(t, c);
      ClearedTwice(s.blocking, Members(init), {c});
      assert Members(served) == Members(init) + {c};
    }
  }

  lemma UnblockedFacts(s: State, c: ClientId)
    requires Inv(s) && c in s.clients
    ensures var r := Unblocked(s, c);
            && r.blocking == Cleared(s.blocking, {c}) && r.total == s.total - 1
            && r.clients == s.clients[c := IDLE.(queued := true)]
  {
    hide Cleared, Without;
    CountedTypes(s);
  }

  lemma ClearedNothing(s: State)
    requires Inv(s)
    ensures Cleared(s.blocking, {}) == s.blocking
  {
    forall k | k in s.blocking
      ensures Without(s.blocking[k], {}) == s.blocking[k]
    {
      WithoutNone(s.blocking[k], {});
    }
  }
}
