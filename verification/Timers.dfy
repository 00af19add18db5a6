/** The event loop's timers (ae.c:215-249 and 276-340). */
module Timers {
  const DELETED: int := -1
  const NO_MORE: int := -1

  /** `serial` is the id that the timer was created with. */
  class Timer {
    var id: int
    var when: int
    var prev: Timer?
    var next: Timer?
    var refcount: int
    ghost const serial: nat

    constructor (id: nat, when: int)
      ensures this.id == id && serial == id && this.when == when && prev == null && next == null && refcount == 0
    {
      this.id, this.when := id, when;
      prev, next := null, null;
      refcount := 0;
      serial := id;
    }
  }

  ghost predicate Linked(nodes: seq<Timer>)
    reads nodes
  {
    && (forall i {:trigger nodes[i].prev} | 0 <= i < |nodes| :: nodes[i].prev == if i == 0 then null else nodes[i - 1])
    && (forall i {:trigger nodes[i].next} | 0 <= i < |nodes| ::
          nodes[i].next == if i == |nodes| - 1 then null else nodes[i + 1])
  }

  /** Younger timers stand in front of older ones. */
  ghost predicate Sorted(nodes: seq<Timer>) {
    forall i, j | 0 <= i < j < |nodes| :: nodes[i].serial > nodes[j].serial
  }

  ghost predicate Distinct(nodes: seq<Timer>) { forall i, j | 0 <= i < j < |nodes| :: nodes[i] != nodes[j] }

  lemma SortedIsDistinct(nodes: seq<Timer>)
    requires Sorted(nodes)
    ensures Distinct(nodes)
  {}

  lemma Neighbour(nodes: seq<Timer>, t: Timer) returns (k: nat)
    requires Linked(nodes) && Sorted(nodes) && t in nodes
    ensures k < |nodes| && nodes[k] == t && t.next == (if k == |nodes| - 1 then null else nodes[k + 1])
    ensures t.next != null ==> t.next in nodes && t.next.serial < t.serial
    ensures forall u | u in nodes && u.serial < t.serial :: t.next != null && u.serial <= t.next.serial
  {
    k :| 0 <= k < |nodes| && nodes[k] == t;
    forall u | u in nodes && u.serial < t.serial
      ensures t.next != null && u.serial <= t.next.serial
    {
      var j :| 0 <= j < |nodes| && nodes[j] == u;
      assert j > k;
    }
  }

  lemma SameSerial(nodes: seq<Timer>, t: Timer)
    requires Sorted(nodes) && t in nodes
    ensures forall u | u in nodes && u.serial == t.serial :: u == t
  {
    forall u | u in nodes && u.serial == t.serial
      ensures u == t
    {
      var i, j :| 0 <= i < |nodes| && 0 <= j < |nodes| && nodes[i] == u && nodes[j] == t;
    }
  }

  /** The number of callbacks of a timer that are running. */
  function Running(stack: seq<Timer>, t: Timer): nat {
    if stack == [] then 0 else Running(stack[..|stack| - 1], t) + if stack[|stack| - 1] == t then 1 else 0
  }

  lemma {:induction false} RunningTimers(stack: seq<Timer>, t: Timer)
    ensures Running(stack, t) > 0 <==> t in stack
  {
    if stack != [] { RunningTimers(stack[..|stack| - 1], t); }
  }

  /** Ids are serial numbers or the mark of a deleted timer, and each reference count is the
      number of running callbacks of its timer. */
  ghost predicate Tagged(nodes: seq<Timer>, nextId: nat, stack: seq<Timer>)
    reads nodes
  {
    forall k | 0 <= k < |nodes| ::
      nodes[k].serial < nextId && (nodes[k].id == DELETED || nodes[k].id == nodes[k].serial)
      && nodes[k].refcount == Running(stack, nodes[k])
  }

  ghost predicate OnList(nodes: seq<Timer>, stack: seq<Timer>) { forall t | t in stack :: t in nodes }

  ghost predicate LinkedBehind(te: Timer, nodes: seq<Timer>)
    reads te, nodes
  {
    && te.prev == null
    && te.next == (if nodes == [] then null else nodes[0])
    && (forall i {:trigger nodes[i].prev} | 0 <= i < |nodes| :: nodes[i].prev == if i == 0 then te else nodes[i - 1])
    && (forall i {:trigger nodes[i].next} | 0 <= i < |nodes| ::
          nodes[i].next == if i == |nodes| - 1 then null else nodes[i + 1])
  }

  lemma Prepended(te: Timer, nodes: seq<Timer>, nextId: nat, stack: seq<Timer>)
    requires LinkedBehind(te, nodes)
    requires Sorted(nodes) && Tagged(nodes, te.serial, stack) && OnList(nodes, stack) && te !in nodes
    requires te.id == te.serial && te.refcount == 0 && nextId == te.serial + 1
    ensures Linked([te] + nodes) && Sorted([te] + nodes) && Tagged([te] + nodes, nextId, stack)
    ensures OnList([te] + nodes, stack)
  {
    var b := [te] + nodes;
    RunningTimers(stack, te);
    assert forall i | 0 <= i < |b| :: b[i] == if i == 0 then te else nodes[i - 1];
  }

  /** The links of the timers skip the one at position k. */
  ghost predicate LinkedOver(a: seq<Timer>, k: nat)
    requires k < |a|
    reads a
  {
    && (forall i {:trigger a[i].prev} | 0 <= i < |a| && i != k ::
          a[i].prev == if i == 0 || (i == 1 && k == 0) then null else if i == k + 1 then a[i - 2] else a[i - 1])
    && (forall i {:trigger a[i].next} | 0 <= i < |a| && i != k ::
          a[i].next == if i == |a| - 1 || (i == |a| - 2 && k == |a| - 1) then null
                       else if i == k - 1 then a[i + 2] else a[i + 1])
  }

  lemma Removed(a: seq<Timer>, k: nat, nextId: nat, stack: seq<Timer>)
    requires k < |a| && LinkedOver(a, k) && Sorted(a) && Tagged(a, nextId, stack) && OnList(a, stack)
    requires a[k].refcount == 0
    ensures var b := a[..k] + a[k + 1..];
            Linked(b) && Sorted(b) && Tagged(b, nextId, stack) && OnList(b, stack)
            && (forall t | t in a && t != a[k] :: t in b) && forall t | t in b :: t in a && t != a[k]
  {
    hide Running;
    var b := a[..k] + a[k + 1..];
    assert forall i | 0 <= i < |b| :: b[i] == if i < k then a[i] else a[i + 1];
    RunningTimers(stack, a[k]);
    StillThere(a, k);
  }

  lemma StillThere(a: seq<Timer>, k: nat)
    requires k < |a|
    ensures forall t | t in a && t != a[k] :: t in a[..k] + a[k + 1..]
  {
    var b := a[..k] + a[k + 1..];
    forall t | t in a && t != a[k]
      ensures t in b
    {
      var j :| 0 <= j < |a| && a[j] == t;
      assert b[if j < k then j else j - 1] == t;
    }
  }

  // ----- a pass over the list -----

  /** The cursor is on the list; the timers fired so far are older than the pass and younger than
      the cursor; every older timer in front of the cursor was reached. */
  ghost predicate Passing(nodes: seq<Timer>, te: Timer?, limit: nat, fired: seq<Timer>, reached: set<Timer>) {
    && (te != null ==> te in nodes && te.serial < limit)
    && Sorted(fired)
    && (forall t | t in fired :: t.serial < limit && (te != null ==> t.serial > te.serial))
    && (forall t | t in nodes && t.serial < limit && (te == null || t.serial > te.serial) :: t in reached)
  }

  lemma PassBegins(nodes: seq<Timer>, te: Timer?, limit: nat)
    requires te == (if nodes == [] then null else nodes[0])
    requires te != null ==> te.serial < limit && forall t | t in nodes :: t.serial <= te.serial
    ensures Passing(nodes, te, limit, [], {})
  {}

  lemma PassShrinks(was: seq<Timer>, nodes: seq<Timer>, te: Timer?, limit: nat, fired: seq<Timer>, reached: set<Timer>)
    requires Passing(was, te, limit, fired, reached) && (te != null ==> te in nodes)
    requires forall t | t in nodes && t.serial < limit :: t in was
    ensures Passing(nodes, te, limit, fired, reached)
  {}

  lemma PassMoves(nodes: seq<Timer>, te: Timer, next: Timer?, limit: nat, fired: seq<Timer>, reached: set<Timer>, due: bool)
    requires Passing(nodes, te, limit, fired, reached) && Sorted(nodes)
    requires next != null ==> next in nodes && next.serial < te.serial
    requires forall u | u in nodes && u.serial < te.serial :: next != null && u.serial <= next.serial
    ensures Passing(nodes, next, limit, if due then fired + [te] else fired, reached + {te})
  {
    SameSerial(nodes, te);
  }

  lemma PassEnds(nodes: seq<Timer>, limit: nat, fired: seq<Timer>, reached: set<Timer>)
    requires Passing(nodes, null, limit, fired, reached)
    ensures Sorted(fired) && forall t | t in fired :: t.serial < limit
    ensures forall t | t in nodes && t.serial < limit :: t in reached
  {}

  class EventLoop {
    var nextId: nat
    var head: Timer?
    var clock: int              // the last reading of the monotonic clock
    ghost var nodes: seq<Timer>
    ghost var stack: seq<Timer>
    ghost var early: set<Timer> // whose callback asked last for a time in the past
    ghost var repr: set<Timer>

    /** The timers are linked in creation order, each reference count is the number of running
        callbacks of its timer, and every timer with a running callback is on the list. */
    ghost predicate Valid()
      reads this, repr
    {
      && (forall k | 0 <= k < |nodes| :: nodes[k] in repr)
      && Linked(nodes)
      && Sorted(nodes)
      && head == (if nodes == [] then null else nodes[0])
      && Tagged(nodes, nextId, stack)
      && OnList(nodes, stack)
    }

    constructor ()
      ensures Valid() && nodes == [] && stack == [] && early == {} && fresh(repr)
    {
      nextId, head, clock := 0, null, 0;
      nodes, stack, early, repr := [], [], {}, {};
    }

    method ReadClock() returns (now: int)
      modifies this`clock
      ensures now == clock && clock >= old(clock)
    {
      now := *;
      if now < clock {
        now := clock;
      }
      clock := now;
    }

    /** The timers that were there: ids only become deleted, and due times only move behind the
        time at which this began, unless a callback asked for a time in the past. */
    twostate predicate Later()
      reads this, nodes, repr
    {
      && nextId >= old(nextId) && clock >= old(clock)
      && forall t | t in nodes && t.serial < old(nextId) ::
           && t in old(nodes)
           && (t.id == old(t.id) || t.id == DELETED)
           && ((t.when == old(t.when) && (t in early <==> t in old(early))) || t.when >= old(clock) || t in early)
    }

    /** aeCreateTimeEvent: the new timer becomes the head. */
    method Create(when: int) returns (id: nat)
      requires Valid()
      modifies this, repr
      ensures Valid() && fresh(repr - old(repr)) && stack == old(stack)
      ensures id == old(nextId) && nextId == old(nextId) + 1
      ensures |nodes| == |old(nodes)| + 1 && nodes == [nodes[0]] + old(nodes) && fresh(nodes[0])
      ensures nodes[0].id == nodes[0].serial == id && nodes[0].when == when
      ensures forall t | t in old(nodes) :: t.id == old(t.id) && t.when == old(t.when)
      ensures clock == old(clock) && early == old(early)
    {
      hide Linked, Sorted, Tagged, OnList, LinkedBehind, Distinct;
      SortedIsDistinct(nodes);
      id := nextId;
      nextId := nextId + 1;
      var te := new Timer(id, when);
      Hook(te, id);
      Prepended(te, nodes, nextId, stack);
      nodes := [te] + nodes;
      repr := repr + {te};
    }

    /** Puts a new timer in front of the others. */
    method Hook(te: Timer, ghost n: nat)
      requires Linked(nodes) && Distinct(nodes) && head == (if nodes == [] then null else nodes[0])
      requires Tagged(nodes, n, stack) && te !in nodes && te.prev == null
      modifies this`head, nodes`prev, te`next
      ensures head == te && LinkedBehind(te, nodes) && Tagged(nodes, n, stack)
      ensures forall t | t in nodes :: t.id == old(t.id) && t.when == old(t.when)
    {
      hide Running;
      te.next := head;
      if te.next != null {
        te.next.prev := te;
      }
      head := te;
    }

    /** aeDeleteTimeEvent: the timer is marked, not unlinked. */
    method Delete(id: int) returns (ok: bool)
      requires Valid()
      modifies repr
      ensures Valid()
      ensures ok <==> exists k | 0 <= k < |nodes| :: old(nodes[k].id) == id
      ensures forall k | 0 <= k < |nodes| ::
                nodes[k].id == (if old(nodes[k].id) == id then DELETED else old(nodes[k].id))
                && nodes[k].when == old(nodes[k].when)
    {
      var te := head;
      ghost var k := 0;
      while te != null
        invariant 0 <= k <= |nodes| && te == (if k < |nodes| then nodes[k] else null)
        invariant forall i | 0 <= i < k :: nodes[i].id != id
        decreases |nodes| - k
      {
        if te.id == id {
          te.id := DELETED;
          return true;
        }
        te := te.next;
        k := k + 1;
      }
      ok := false;
    }

    /** Unlinks a deleted timer that no callback is running for. */
    method Unlink(te: Timer)
      requires Valid() && te in nodes && te.refcount == 0
      modifies this, repr
      ensures Valid() && repr == old(repr) && stack == old(stack) && nextId == old(nextId)
      ensures forall t | t in old(nodes) && t != te :: t in nodes
      ensures forall t | t in nodes :: t in old(nodes) && t != te && t.id == old(t.id) && t.when == old(t.when)
      ensures clock == old(clock) && early == old(early)
    {
      hide Linked, Sorted, Tagged, OnList, LinkedOver, Distinct;
      SortedIsDistinct(nodes);
      ghost var was := nodes;
      ghost var k := Neighbour(nodes, te);
      Unhook(te, k);
      Removed(was, k, nextId, stack);
      nodes := was[..k] + was[k + 1..];
    }

    method Unhook(te: Timer, ghost k: nat)
      requires Linked(nodes) && Distinct(nodes) && head == (if nodes == [] then null else nodes[0])
      requires k < |nodes| && nodes[k] == te && Tagged(nodes, nextId, stack)
      modifies this`head, nodes`prev, nodes`next
      ensures LinkedOver(nodes, k) && Tagged(nodes, nextId, stack) && te.refcount == old(te.refcount)
      ensures head == (if k > 0 then nodes[0] else if |nodes| > 1 then nodes[1] else null)
    {
      hide Running;
      if te.prev != null {
        te.prev.next := te.next;
      } else {
        head := te.next;
      }
      if te.next != null {
        te.next.prev := te.prev;
      }
    }

    /** A finalizer may create and delete timers; it does not start a pass. */
    method Finalize()
      requires Valid()
      modifies this, repr
      ensures Valid() && fresh(repr - old(repr)) && stack == old(stack) && Later()
      ensures forall t | t in old(nodes) :: t in nodes
    {
      hide Linked, Sorted, Tagged, OnList;
      Serials();
      var steps: nat := *;
      while steps > 0
        invariant Valid() && fresh(repr - old(repr)) && stack == old(stack) && Later()
        invariant forall t | t in old(nodes) :: t in nodes
      {
        var create: bool := *;
        if create {
          var when: int := *;
          var id := Create(when);
        } else {
          var id: int := *;
          var ok := Delete(id);
        }
        steps := steps - 1;
      }
    }

    /** A timer's callback may also start a pass, nested at most `depth` deep. */
    method Callback(depth: nat) returns (retval: int)
      requires Valid()
      modifies this, repr
      ensures Valid() && fresh(repr - old(repr)) && stack == old(stack) && Later()
      decreases depth, 0
    {
      hide Linked, Sorted, Tagged, OnList;
      var steps: nat := *;
      while steps > 0
        invariant Valid() && fresh(repr - old(repr)) && stack == old(stack) && Later()
      {
        var nested: bool := *;
        if nested && depth > 0 {
          var processed, _, _ := Process(depth - 1);
        } else {
          Finalize();
        }
        steps := steps - 1;
      }
      retval := *;
    }

    /** A callback of the timer begins. */
    method Enter(te: Timer)
      requires Valid() && te in nodes
      modifies repr, this`stack
      ensures Valid() && stack == old(stack) + [te]
      ensures forall t | t in nodes :: t.id == old(t.id) && t.when == old(t.when)
    {
      hide Running;
      RunningPush(stack, te);
      te.refcount := te.refcount + 1;
      stack := stack + [te];
    }

    /** It ends. */
    method Leave(te: Timer)
      requires Valid() && stack != [] && stack[|stack| - 1] == te
      modifies repr, this`stack
      ensures Valid() && te in nodes && stack == old(stack)[..|old(stack)| - 1]
      ensures forall t | t in nodes :: t.id == old(t.id) && t.when == old(t.when)
    {
      hide Running;
      assert te in stack && stack == stack[..|stack| - 1] + [te];
      RunningPush(stack[..|stack| - 1], te);
      te.refcount := te.refcount - 1;
      stack := stack[..|stack| - 1];
    }

    /** The timer becomes due again, or is deleted when the callback says so. */
    method Reschedule(te: Timer, retval: int)
      requires Valid() && te in nodes
      modifies repr, this`clock, this`early
      ensures Valid() && clock >= old(clock)
      ensures te.id == if retval == NO_MORE then DELETED else old(te.id)
      ensures te.when == if retval == NO_MORE then old(te.when) else clock + retval * 1000
      ensures early == if retval == NO_MORE then old(early) else if retval < 0 then old(early) + {te} else old(early) - {te}
      ensures forall t | t in nodes && t != te :: t.id == old(t.id) && t.when == old(t.when)
    {
      hide Linked, Sorted, Tagged, OnList;
      var now := ReadClock();
      if retval != NO_MORE {
        SetWhen(te, now + retval * 1000);
        early := if retval < 0 then early + {te} else early - {te};
      } else {
        SetDeleted(te);
      }
    }

    method SetWhen(te: Timer, when: int)
      requires Valid() && te in nodes
      modifies te`when
      ensures Valid() && te.when == when
    {
      hide Running;
      te.when := when;
    }

    method SetDeleted(te: Timer)
      requires Valid() && te in nodes
      modifies te`id
      ensures Valid() && te.id == DELETED
    {
      hide Running;
      te.id := DELETED;
    }

    /** Deleted, or due no earlier than `start` unless its callback wanted it so. */
    ghost predicate Done(t: Timer, start: int)
      reads this`early, t
    {
      t.id == DELETED || t.when >= start || t in early
    }

    /** Every older timer in front of the cursor is done. */
    ghost predicate CaughtUp(te: Timer?, limit: nat, start: int)
      reads this`nodes, this`early, nodes
    {
      forall t | t in nodes && t.serial < limit && (te == null || t.serial > te.serial) :: Done(t, start)
    }

    /** Runs the callback of a live and due timer, which stays on the list meanwhile. */
    method Fire(te: Timer, now: int, depth: nat, ghost limit: nat, ghost start: int)
      requires Valid() && te in nodes && te.id != DELETED && te.when <= now
      requires CaughtUp(te, limit, start) && limit <= nextId && start <= clock
      modifies this, repr
      ensures Valid() && fresh(repr - old(repr)) && stack == old(stack) && Later() && te in nodes
      ensures Done(te, start) && CaughtUp(te, limit, start)
      decreases depth, 1
    {
      hide Linked, Sorted, Tagged, OnList;
      Serials();
      Enter(te);
      var retval := Callback(depth);
      Leave(te);
      Reschedule(te, retval);
    }

    /** Frees a deleted timer unless a callback of it is still running. */
    method Reap(te: Timer, ghost limit: nat, ghost start: int) returns (finalizer: bool)
      requires Valid() && te in nodes
      requires CaughtUp(te, limit, start) && limit <= nextId && start <= clock
      modifies this, repr
      ensures Valid() && fresh(repr - old(repr)) && stack == old(stack) && Later()
      ensures forall t | t in old(nodes) && t != te :: t in nodes
      ensures old(te.refcount) == 0 ==> te !in nodes
      ensures old(te.refcount) != 0 ==> nodes == old(nodes)
      ensures CaughtUp(te, limit, start)
    {
      hide Linked, Sorted, Tagged, OnList;
      Serials();
      finalizer := false;
      if te.refcount == 0 {
        Unlink(te);
        finalizer := *;
        if finalizer {
          Finalize();
        }
      }
    }

    /** One round of the loop: the timer under the cursor is freed, fired or left alone, and the
        cursor moves on. */
    method Round(te: Timer, now: int, maxId: int, depth: nat,
                 ghost limit: nat, ghost start: int, ghost fired: seq<Timer>, ghost reached: set<Timer>)
      returns (next: Timer?, now': int, ran: bool)
      requires Valid() && te in nodes && te.serial < limit && Passing(nodes, te, limit, fired, reached)
      requires limit <= nextId && start <= clock && start <= now && CaughtUp(te, limit, start) && maxId == limit - 1
      modifies this, repr
      ensures Valid() && fresh(repr - old(repr)) && stack == old(stack) && Later()
      ensures next != null ==> next in nodes && next.serial < te.serial
      ensures Passing(nodes, next, limit, if ran then fired + [te] else fired, reached + {te})
      ensures start <= now' && CaughtUp(next, limit, start)
      decreases depth, 2
    {
      hide Linked, Sorted, Tagged, OnList, Passing, CaughtUp;
      ghost var was := nodes;
      ghost var k := Neighbour(nodes, te);
      IdIsSerial(k);
      SameSerial(was, te);
      Serials();
      now', ran := now, false;
      next := te.next;
      if te.id == DELETED {
        var finalizer := Reap(te, limit, start);
        CatchesUp(te, next, limit, start);
        PassMoves(was, te, next, limit, fired, reached, false);
        PassShrinks(was, nodes, next, limit, fired, reached + {te});
        if finalizer {
          now' := ReadClock();
        }
        return;
      }
      assert te.id <= maxId; // the next test never succeeds: younger timers stand in front of the cursor
      if te.id > maxId {
      } else if te.when <= now {
        ran := true;
        Fire(te, now, depth, limit, start);
        PassShrinks(was, nodes, te, limit, fired, reached);
        now' := ReadClock();
      }
      MoveOn(te, limit, start, fired, reached, ran);
      next := te.next;
    }

    lemma MoveOn(te: Timer, limit: nat, start: int, fired: seq<Timer>, reached: set<Timer>, ran: bool)
      requires Valid() && te in nodes && Done(te, start)
      requires CaughtUp(te, limit, start) && Passing(nodes, te, limit, fired, reached)
      ensures te.next != null ==> te.next in nodes && te.next.serial < te.serial
      ensures CaughtUp(te.next, limit, start)
      ensures Passing(nodes, te.next, limit, if ran then fired + [te] else fired, reached + {te})
    {
      hide Linked, Sorted, Tagged, OnList, Passing, CaughtUp;
      var k := Neighbour(nodes, te);
      SameSerial(nodes, te);
      CatchesUp(te, te.next, limit, start);
      PassMoves(nodes, te, te.next, limit, fired, reached, ran);
    }

    /** processTimeEvents. MAIN RESULT: whatever the callbacks do, the cursor stays on the list,
        no timer fires twice in a pass, no timer fires that was created after the pass began, and
        every older timer that is still on the list at the end was reached; none of them is live
        and still due from before the pass, unless its own callback asked for that. */
    method Process(depth: nat) returns (processed: nat, ghost fired: seq<Timer>, ghost reached: set<Timer>)
      requires Valid()
      modifies this, repr
      ensures Valid() && fresh(repr - old(repr)) && stack == old(stack) && Later()
      ensures processed == |fired| && Sorted(fired) && forall t | t in fired :: t.serial < old(nextId)
      ensures forall t | t in nodes && t.serial < old(nextId) :: t in reached && Done(t, old(clock))
      decreases depth, 3
    {
      hide Linked, Sorted, Tagged, OnList, Passing, CaughtUp;
      processed, fired, reached := 0, [], {};
      ghost var limit, start := nextId, clock;
      HeadIsYoungest();
      PassBegins(nodes, head, limit);
      StartsCaughtUp(limit, start);
      var te := head;
      var maxId := nextId - 1;
      var now := ReadClock();
      while te != null
        invariant Valid() && fresh(repr - old(repr)) && stack == old(stack) && Later()
        invariant processed == |fired| && Passing(nodes, te, limit, fired, reached)
        invariant te != null ==> te in nodes && te.serial < limit
        invariant start <= now && CaughtUp(te, limit, start)
        decreases if te == null then 0 else te.serial + 1
      {
        var next, now', ran := Round(te, now, maxId, depth, limit, start, fired, reached);
        processed := if ran then processed + 1 else processed;
        fired := if ran then fired + [te] else fired;
        reached := reached + {te};
        te, now := next, now';
      }
      PassEnds(nodes, limit, fired, reached);
      EndsCaughtUp(limit, start);
    }

    lemma StartsCaughtUp(limit: nat, start: int)
      requires Valid()
      ensures CaughtUp(head, limit, start)
    {
      HeadIsYoungest();
    }

    lemma EndsCaughtUp(limit: nat, start: int)
      requires CaughtUp(null, limit, start)
      ensures forall t | t in nodes && t.serial < limit :: Done(t, start)
    {}

    lemma CatchesUp(te: Timer, next: Timer?, limit: nat, start: int)
      requires CaughtUp(te, limit, start)
      requires te in nodes ==> Done(te, start)
      requires forall u | u in nodes && u.serial < limit ::
                 && (u.serial == te.serial ==> u == te)
                 && (u.serial < te.serial ==> next != null && u.serial <= next.serial)
      ensures CaughtUp(next, limit, start)
    {}

    lemma Serials()
      requires Valid()
      ensures forall t | t in nodes :: t.serial < nextId
    {}

    lemma HeadIsYoungest()
      requires Valid()
      ensures nodes != [] ==> head.serial < nextId && forall t | t in nodes :: t.serial <= head.serial
    {}

    lemma IdIsSerial(k: nat)
      requires Valid() && k < |nodes|
      ensures nodes[k].serial < nextId && (nodes[k].id == DELETED || nodes[k].id == nodes[k].serial)
    {}
  }

  lemma RunningPush(stack: seq<Timer>, te: Timer)
    ensures forall t :: Running(stack + [te], t) == Running(stack, t) + if t == te then 1 else 0
  {
    assert (stack + [te])[..|stack|] == stack;
  }
}
