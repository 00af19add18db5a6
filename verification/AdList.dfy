/** The generic doubly linked list (adlist.c:57-383). */
module AdList {
  import opened Wrappers

  class Node<T> {
    var prev: Node?<T>
    var next: Node?<T>
    const value: T

    constructor (value: T)
      ensures this.value == value
    {
      this.value := value;
      prev, next := null, null;
    }
  }

  function Values<T>(nodes: seq<Node<T>>): seq<T> {
    seq(|nodes|, i requires 0 <= i < |nodes| => nodes[i].value)
  }

  lemma ValuesJoin<T>(a: seq<Node<T>>, b: seq<Node<T>>)
    ensures Values(a + b) == Values(a) + Values(b)
  {}

  lemma ValuesSlice<T>(a: seq<Node<T>>, i: nat)
    requires i <= |a|
    ensures Values(a[..i]) == Values(a)[..i] && Values(a[i..]) == Values(a)[i..] && |Values(a)| == |a|
  {}

  lemma ValuesInserted<T>(a: seq<Node<T>>, k: nat, node: Node<T>)
    requires k <= |a|
    ensures |Values(a)| == |a| && Values(a[..k] + [node] + a[k..]) == Values(a)[..k] + [node.value] + Values(a)[k..]
  {
    ValuesSlice(a, k);
    ValuesJoin(a[..k], [node]);
    ValuesJoin(a[..k] + [node], a[k..]);
  }

  lemma ValuesRemoved<T>(a: seq<Node<T>>, k: nat)
    requires k < |a|
    ensures |Values(a)| == |a| && Values(a[..k] + a[k + 1..]) == Values(a)[..k] + Values(a)[k + 1..]
  {
    ValuesSlice(a, k);
    ValuesSlice(a, k + 1);
    ValuesJoin(a[..k], a[k + 1..]);
  }

  /** The nodes are linked in this order, in both directions. */
  ghost predicate Linked<T>(nodes: seq<Node<T>>)
    reads nodes
  {
    && (forall i, j | 0 <= i < j < |nodes| :: nodes[i] != nodes[j])
    && (forall i {:trigger nodes[i].prev} | 0 <= i < |nodes| :: nodes[i].prev == if i == 0 then null else nodes[i - 1])
    && (forall i {:trigger nodes[i].next} | 0 <= i < |nodes| ::
          nodes[i].next == if i == |nodes| - 1 then null else nodes[i + 1])
  }

  /** The nodes are linked in this order, with `node` in between at position k. */
  ghost predicate LinkedAround<T>(a: seq<Node<T>>, k: nat, node: Node<T>)
    requires k <= |a|
    reads a, node
  {
    && node !in a
    && (forall i, j | 0 <= i < j < |a| :: a[i] != a[j])
    && (forall i {:trigger a[i].prev} | 0 <= i < |a| ::
          a[i].prev == if i == k then node else if i == 0 then null else a[i - 1])
    && (forall i {:trigger a[i].next} | 0 <= i < |a| ::
          a[i].next == if i == k - 1 then node else if i == |a| - 1 then null else a[i + 1])
    && node.prev == (if k == 0 then null else a[k - 1])
    && node.next == (if k == |a| then null else a[k])
  }

  lemma LinkedInserted<T>(a: seq<Node<T>>, k: nat, node: Node<T>)
    requires k <= |a| && LinkedAround(a, k, node)
    ensures Linked(a[..k] + [node] + a[k..])
  {
    var b := a[..k] + [node] + a[k..];
    assert |b| == |a| + 1 && b[k] == node;
    assert forall i | 0 <= i < |b| :: b[i] == if i < k then a[i] else if i == k then node else a[i - 1];
  }

  /** The links of the nodes skip the one at position k. */
  ghost predicate LinkedOver<T>(a: seq<Node<T>>, k: nat)
    requires k < |a|
    reads a
  {
    && (forall i, j | 0 <= i < j < |a| :: a[i] != a[j])
    && (forall i {:trigger a[i].prev} | 0 <= i < |a| && i != k ::
          a[i].prev == if i == 0 || (i == 1 && k == 0) then null else if i == k + 1 then a[i - 2] else a[i - 1])
    && (forall i {:trigger a[i].next} | 0 <= i < |a| && i != k ::
          a[i].next == if i == |a| - 1 || (i == |a| - 2 && k == |a| - 1) then null
                       else if i == k - 1 then a[i + 2] else a[i + 1])
  }

  lemma LinkedRemoved<T>(a: seq<Node<T>>, k: nat)
    requires k < |a| && LinkedOver(a, k)
    ensures Linked(a[..k] + a[k + 1..])
  {
    var b := a[..k] + a[k + 1..];
    assert forall i | 0 <= i < |b| :: b[i] == if i < k then a[i] else a[i + 1];
  }

  /** Two chains whose ends have been tied together. */
  ghost predicate Tied<T>(a: seq<Node<T>>, b: seq<Node<T>>)
    reads a, b
  {
    && (forall i, j | 0 <= i < j < |a| :: a[i] != a[j])
    && (forall i, j | 0 <= i < j < |b| :: b[i] != b[j])
    && (forall i, j | 0 <= i < |a| && 0 <= j < |b| :: a[i] != b[j])
    && (forall i {:trigger a[i].prev} | 0 <= i < |a| :: a[i].prev == if i == 0 then null else a[i - 1])
    && (forall i {:trigger a[i].next} | 0 <= i < |a| - 1 :: a[i].next == a[i + 1])
    && (forall i {:trigger b[i].prev} | 0 < i < |b| :: b[i].prev == b[i - 1])
    && (forall i {:trigger b[i].next} | 0 <= i < |b| :: b[i].next == if i == |b| - 1 then null else b[i + 1])
    && (b != [] ==> b[0].prev == if a == [] then null else a[|a| - 1])
    && (a != [] ==> a[|a| - 1].next == if b == [] then null else b[0])
  }

  lemma LinkedJoined<T>(a: seq<Node<T>>, b: seq<Node<T>>)
    requires Tied(a, b)
    ensures Linked(a + b)
  {
    var c := a + b;
    assert forall i | 0 <= i < |c| :: c[i] == if i < |a| then a[i] else b[i - |a|];
  }

  class List<T> {
    var head: Node?<T>
    var tail: Node?<T>
    var len: nat
    ghost var nodes: seq<Node<T>>

    ghost predicate Valid()
      reads this, nodes
    {
      && len == |nodes|
      && Linked(nodes)
      && head == (if nodes == [] then null else nodes[0])
      && tail == (if nodes == [] then null else nodes[|nodes| - 1])
    }

    ghost function Contents(): seq<T>
      reads this
    {
      Values(nodes)
    }

    constructor ()
      ensures Valid() && nodes == [] && Contents() == []
    {
      head, tail, len := null, null, 0;
      nodes := [];
    }

    method AddHead(value: T)
      requires Valid()
      modifies this, nodes
      ensures Valid() && Contents() == [value] + old(Contents())
      ensures |nodes| == |old(nodes)| + 1 && fresh(nodes[0]) && nodes[1..] == old(nodes)
    {
      var node := new Node(value);
      if len == 0 {
        head, tail := node, node;
        node.prev, node.next := null, null;
      } else {
        node.prev := null;
        node.next := head;
        head.prev := node;
        head := node;
      }
      len := len + 1;
      nodes := [node] + nodes;
    }

    method AddTail(value: T)
      requires Valid()
      modifies this, nodes
      ensures Valid() && Contents() == old(Contents()) + [value]
      ensures |nodes| == |old(nodes)| + 1 && fresh(nodes[|nodes| - 1]) && nodes == old(nodes) + [nodes[|nodes| - 1]]
      ensures nodes[|nodes| - 1].value == value
    {
      var node := new Node(value);
      if len == 0 {
        head, tail := node, node;
        node.prev, node.next := null, null;
      } else {
        node.prev := tail;
        node.next := null;
        tail.next := node;
        tail := node;
      }
      len := len + 1;
      nodes := nodes + [node];
    }

    /** Hooks a node in next to another one. */
    method Hook(node: Node<T>, oldNode: Node<T>, after: bool, ghost at: nat, ghost k: nat)
      requires Valid() && at < |nodes| && nodes[at] == oldNode && node !in nodes
      requires k == if after then at + 1 else at
      modifies this`head, this`tail, nodes, node
      ensures LinkedAround(nodes, k, node)
      ensures head == (if k == 0 then node else nodes[0])
      ensures tail == (if k == |nodes| then node else nodes[|nodes| - 1])
    {
      if after {
        node.prev := oldNode;
        node.next := oldNode.next;
        if tail == oldNode {
          tail := node;
        }
      } else {
        node.next := oldNode;
        node.prev := oldNode.prev;
        if head == oldNode {
          head := node;
        }
      }
      if node.prev != null {
        node.prev.next := node;
      }
      if node.next != null {
        node.next.prev := node;
      }
    }

    /** `at` is the position of the old node. */
    method Insert(oldNode: Node<T>, value: T, after: bool, ghost at: nat)
      requires Valid() && at < |nodes| && nodes[at] == oldNode
      modifies this, nodes
      ensures Valid()
      ensures var k := if after then at + 1 else at;
              Contents() == old(Contents())[..k] + [value] + old(Contents())[k..]
              && |nodes| == |old(nodes)| + 1 && fresh(nodes[k])
              && nodes == old(nodes)[..k] + [nodes[k]] + old(nodes)[k..]
    {
      hide Values, LinkedAround;
      ghost var was := nodes;
      ghost var k := if after then at + 1 else at;
      var node := new Node(value);
      Hook(node, oldNode, after, at, k);
      LinkedInserted(was, k, node);
      ValuesInserted(was, k, node);
      len := len + 1;
      nodes := was[..k] + [node] + was[k..];
    }

    /** Takes a node out of the links. */
    method Unhook(node: Node<T>, ghost at: nat)
      requires Valid() && at < |nodes| && nodes[at] == node
      modifies this`head, this`tail, nodes
      ensures LinkedOver(nodes, at)
      ensures head == (if at > 0 then nodes[0] else if |nodes| > 1 then nodes[1] else null)
      ensures tail == (if at < |nodes| - 1 then nodes[|nodes| - 1] else if |nodes| > 1 then nodes[|nodes| - 2] else null)
    {
      if node.prev != null {
        node.prev.next := node.next;
      } else {
        head := node.next;
      }
      if node.next != null {
        node.next.prev := node.prev;
      } else {
        tail := node.prev;
      }
    }

    method Delete(node: Node<T>, ghost at: nat)
      requires Valid() && at < |nodes| && nodes[at] == node
      modifies this, nodes
      ensures Valid() && nodes == old(nodes)[..at] + old(nodes)[at + 1..]
      ensures Contents() == old(Contents())[..at] + old(Contents())[at + 1..]
    {
      hide Values, LinkedOver;
      ghost var was := nodes;
      Unhook(node, at);
      LinkedRemoved(was, at);
      ValuesRemoved(was, at);
      len := len - 1;
      nodes := was[..at] + was[at + 1..];
    }

    /** Moves the last node to the front. */
    method RotateTailToHead()
      requires Valid()
      modifies this, nodes
      ensures Valid()
      ensures |old(nodes)| <= 1 ==> nodes == old(nodes)
      ensures |old(nodes)| > 1 ==>
                var n := |old(nodes)| - 1; nodes == [old(nodes)[n]] + old(nodes)[..n]
    {
      if len <= 1 {
        return;
      }
      var last := tail;
      tail := last.prev;
      tail.next := null;
      head.prev := last;
      last.prev := null;
      last.next := head;
      head := last;
      nodes := [last] + nodes[..|nodes| - 1];
    }

    /** Moves the first node to the end. */
    method RotateHeadToTail()
      requires Valid()
      modifies this, nodes
      ensures Valid()
      ensures |old(nodes)| <= 1 ==> nodes == old(nodes)
      ensures |old(nodes)| > 1 ==> nodes == old(nodes)[1..] + [old(nodes)[0]]
    {
      if len <= 1 {
        return;
      }
      var first := head;
      head := first.next;
      head.prev := null;
      tail.next := first;
      first.next := null;
      first.prev := tail;
      tail := first;
      nodes := nodes[1..] + [first];
    }

    /** Appends the other list, which is left empty. */
    method Join(o: List<T>)
      requires Valid() && o.Valid() && o != this
      requires forall i, j | 0 <= i < |nodes| && 0 <= j < |o.nodes| :: nodes[i] != o.nodes[j]
      modifies this, o, nodes, o.nodes
      ensures Valid() && o.Valid()
      ensures nodes == old(nodes) + old(o.nodes) && o.nodes == []
    {
      if o.len == 0 {
        return;
      }
      o.head.prev := tail;
      if tail != null {
        tail.next := o.head;
      } else {
        head := o.head;
      }
      tail := o.tail;
      len := len + o.len;
      LinkedJoined(nodes, o.nodes);
      nodes := nodes + o.nodes;
      o.head, o.tail, o.len := null, null, 0;
      o.nodes := [];
    }

    /** The node at an index from the head, or from the tail when it is negative. */
    method Index(index: int) returns (n: Node?<T>)
      requires Valid()
      ensures n == if 0 <= index < |nodes| then nodes[index]
                   else if -|nodes| <= index < 0 then nodes[|nodes| + index] else null
    {
      if index < 0 {
        var i := -index - 1;
        n := tail;
        ghost var k := |nodes| - 1;
        while i > 0 && n != null
          invariant 0 <= i && -1 <= k < |nodes| && k - i == |nodes| + index
          invariant n == if k >= 0 then nodes[k] else null
          decreases i
        {
          n := n.prev;
          i, k := i - 1, k - 1;
        }
      } else {
        var i := index;
        n := head;
        ghost var k := 0;
        while i > 0 && n != null
          invariant 0 <= i && 0 <= k <= |nodes| && k + i == index
          invariant n == if k < |nodes| then nodes[k] else null
          decreases i
        {
          n := n.next;
          i, k := i - 1, k + 1;
        }
      }
    }

    /** Walks over all nodes and frees them. */
    method Empty() returns (ghost freed: seq<Node<T>>)
      requires Valid()
      modifies this
      ensures Valid() && nodes == [] && freed == old(nodes)
    {
      var current, n := head, len;
      freed := [];
      while n > 0
        invariant 0 <= n <= |nodes| && freed == nodes[..|nodes| - n]
        invariant current == if n > 0 then nodes[|nodes| - n] else null
      {
        var next := current.next;
        freed := freed + [current];
        current := next;
        n := n - 1;
      }
      head, tail, len := null, null, 0;
      nodes := [];
    }

    /** The first node whose value matches. */
    method Search(match_: T -> bool) returns (node: Node?<T>)
      requires Valid()
      ensures node == null ==> forall i | 0 <= i < |nodes| :: !match_(nodes[i].value)
      ensures node != null ==>
                exists k | 0 <= k < |nodes| ::
                  nodes[k] == node && match_(node.value) && forall i | 0 <= i < k :: !match_(nodes[i].value)
    {
      var iter := new Iter(this, true);
      ghost var k := 0;
      node := iter.Next();
      while node != null
        invariant 0 <= k <= |nodes| && fresh(iter) && iter.forward
        invariant node == if k < |nodes| then nodes[k] else null
        invariant iter.next == if k + 1 < |nodes| then nodes[k + 1] else null
        invariant forall i | 0 <= i < k :: !match_(nodes[i].value)
        decreases |nodes| - k
      {
        if match_(node.value) {
          return;
        }
        k := k + 1;
        node := iter.Next();
      }
    }
  }

  class Iter<T> {
    var next: Node?<T>
    var forward: bool

    /** listRewind and listRewindTail. */
    constructor (l: List<T>, forward: bool)
      ensures this.forward == forward && next == if forward then l.head else l.tail
    {
      this.forward := forward;
      next := if forward then l.head else l.tail;
    }

    method Next() returns (current: Node?<T>)
      modifies this
      ensures current == old(next) && forward == old(forward)
      ensures next == if current == null then null else if forward then current.next else current.prev
    {
      current := next;
      if current != null {
        next := if forward then current.next else current.prev;
      }
    }
  }

  // ----- walks -----

  function Kept<T>(nodes: seq<Node<T>>, drop: Node<T> -> bool): seq<Node<T>> {
    if nodes == [] then []
    else Kept(nodes[..|nodes| - 1], drop) + if drop(nodes[|nodes| - 1]) then [] else [nodes[|nodes| - 1]]
  }

  lemma {:induction false} KeptJoin<T>(a: seq<Node<T>>, b: seq<Node<T>>, drop: Node<T> -> bool)
    ensures Kept(a + b, drop) == Kept(a, drop) + Kept(b, drop)
    decreases |b|
  {
    if b == [] {
      assert a + b == a;
    } else {
      assert (a + b)[..|a + b| - 1] == a + b[..|b| - 1];
      KeptJoin(a, b[..|b| - 1], drop);
    }
  }

  /** What the list looks like after i steps, and how one more step changes it. */
  lemma StepForward<T>(was: seq<Node<T>>, i: nat, drop: Node<T> -> bool)
    requires i < |was|
    ensures var k, l := Kept(was[..i], drop), Kept(was[..i], drop) + was[i..];
            l[|k|] == was[i]
            && Kept(was[..i + 1], drop) + was[i + 1..] == if drop(was[i]) then l[..|k|] + l[|k| + 1..] else l
  {
    assert was[..i + 1][..i] == was[..i];
  }

  lemma StepBackward<T>(was: seq<Node<T>>, i: nat, drop: Node<T> -> bool)
    requires i < |was|
    ensures var l := was[..i + 1] + Kept(was[i + 1..], drop);
            was[..i] + Kept(was[i..], drop) == if drop(was[i]) then l[..i] + l[i + 1..] else l
  {
    assert was[i..] == [was[i]] + was[i + 1..];
    KeptJoin([was[i]], was[i + 1..], drop);
    assert [was[i]][..0] == [];
  }

  lemma {:induction false} KeptWithin<T>(nodes: seq<Node<T>>, drop: Node<T> -> bool)
    ensures forall n | n in Kept(nodes, drop) :: n in nodes
  {
    if nodes != [] { KeptWithin(nodes[..|nodes| - 1], drop); }
  }

  lemma Neighbours<T>(a: seq<Node<T>>, k: nat)
    requires k < |a| && Linked(a)
    ensures a[k].next == (if k == |a| - 1 then null else a[k + 1]) && a[k].prev == (if k == 0 then null else a[k - 1])
  {}

  /** A walk has dealt with the first i nodes, or with the nodes from i on. */
  ghost predicate Walking<T>(l: List<T>, iter: Iter<T>, was: seq<Node<T>>, i: nat, drop: Node<T> -> bool)
    requires i <= |was|
    reads l, l.nodes, iter
  {
    && l.Valid()
    && (forall k | 0 <= k < |l.nodes| :: l.nodes[k] in was)
    && l.nodes == (if iter.forward then Kept(was[..i], drop) + was[i..] else was[..i] + Kept(was[i..], drop))
    && iter.next == (if iter.forward then (if i < |was| then was[i] else null) else (if i > 0 then was[i - 1] else null))
  }

  lemma Walked<T>(l: List<T>, iter: Iter<T>, was: seq<Node<T>>, i: nat, drop: Node<T> -> bool)
    requires i <= |was| && l.Valid()
    requires l.nodes == (if iter.forward then Kept(was[..i], drop) + was[i..] else was[..i] + Kept(was[i..], drop))
    requires iter.next == (if iter.forward then (if i < |was| then was[i] else null) else (if i > 0 then was[i - 1] else null))
    ensures Walking(l, iter, was, i, drop)
  {
    hide Linked, Kept;
    KeptWithin(was[..i], drop);
    KeptWithin(was[i..], drop);
    forall k | 0 <= k < |l.nodes|
      ensures l.nodes[k] in was
    {
      assert l.nodes[k] in l.nodes;
    }
  }

  lemma WalkStarts<T>(l: List<T>, iter: Iter<T>, drop: Node<T> -> bool)
    requires l.Valid() && iter.next == if iter.forward then l.head else l.tail
    ensures var i := if iter.forward then 0 else |l.nodes|;
            Walking(l, iter, l.nodes, i, drop) && Cursor(l, iter, l.nodes, i, drop)
  {
    hide Linked;
    var was := l.nodes;
    assert was[..0] == [] && [] + was[0..] == was && was[|was|..] == [] && was[..|was|] + [] == was;
  }

  /** The cursor is null exactly at the end, and there only the kept nodes are left. */
  ghost predicate Cursor<T>(l: List<T>, iter: Iter<T>, was: seq<Node<T>>, i: nat, drop: Node<T> -> bool)
    reads l, l.nodes, iter
  {
    && (iter.next == null <==> i == if iter.forward then |was| else 0)
    && (iter.next == null ==> l.Valid() && l.nodes == Kept(was, drop))
  }

  lemma WalkCursor<T>(l: List<T>, iter: Iter<T>, was: seq<Node<T>>, i: nat, drop: Node<T> -> bool)
    requires i <= |was| && Walking(l, iter, was, i, drop)
    ensures Cursor(l, iter, was, i, drop)
  {
    hide Linked, Kept;
    assert was[..|was|] == was && was[|was|..] == [] && was[0..] == was && was[..0] == [];
  }

  lemma ValidNodes<T>(l: List<T>)
    requires l.Valid()
    ensures Linked(l.nodes) && l.head == if l.nodes == [] then null else l.nodes[0]
  {}

  /** Where a walk from the head stands: at the node that is next, with this list after it. */
  lemma FrontOfWalk<T>(l: List<T>, iter: Iter<T>, was: seq<Node<T>>, i: nat, drop: Node<T> -> bool) returns (at: nat)
    requires i < |was| && iter.forward && Walking(l, iter, was, i, drop)
    ensures l.Valid() && at < |l.nodes| && l.nodes[at] == was[i] == iter.next
    ensures forall k | 0 <= k < |l.nodes| :: l.nodes[k] in was
    ensures was[i].next == if i + 1 < |was| then was[i + 1] else null
    ensures Kept(was[..i + 1], drop) + was[i + 1..] == if drop(was[i]) then l.nodes[..at] + l.nodes[at + 1..] else l.nodes
  {
    hide Linked, Kept, Values, List.Valid;
    ValidNodes(l);
    at := |Kept(was[..i], drop)|;
    StepForward(was, i, drop);
    InLine(Kept(was[..i], drop), was, i);
    Neighbours(l.nodes, at);
  }

  lemma InLine<T>(front: seq<Node<T>>, was: seq<Node<T>>, i: nat)
    requires i < |was|
    ensures var l, at := front + was[i..], |front|;
            |l| == at + |was| - i && l[at] == was[i] && (i + 1 < |was| ==> l[at + 1] == was[i + 1])
  {}

  lemma BackOfWalk<T>(l: List<T>, iter: Iter<T>, was: seq<Node<T>>, i: nat, drop: Node<T> -> bool)
    requires 0 < i <= |was| && !iter.forward && Walking(l, iter, was, i, drop)
    ensures l.Valid() && i - 1 < |l.nodes| && l.nodes[i - 1] == was[i - 1] == iter.next
    ensures forall k | 0 <= k < |l.nodes| :: l.nodes[k] in was
    ensures was[i - 1].prev == if i - 1 > 0 then was[i - 2] else null
    ensures was[..i - 1] + Kept(was[i - 1..], drop) == if drop(was[i - 1]) then l.nodes[..i - 1] + l.nodes[i..] else l.nodes
  {
    hide Linked, Kept, Values, List.Valid;
    ValidNodes(l);
    StepBackward(was, i - 1, drop);
    InLineBehind(was, i, Kept(was[i..], drop));
    Neighbours(l.nodes, i - 1);
  }

  lemma InLineBehind<T>(was: seq<Node<T>>, i: nat, back: seq<Node<T>>)
    requires 0 < i <= |was|
    ensures var l := was[..i] + back; |l| == i + |back| && l[i - 1] == was[i - 1] && (i > 1 ==> l[i - 2] == was[i - 2])
  {}

  /** One round of a walk: the node is returned, the iterator moves on, the node may go. */
  method Forward<T>(l: List<T>, iter: Iter<T>, ghost was: seq<Node<T>>, ghost i: nat, drop: Node<T> -> bool)
    returns (node: Node<T>)
    requires i < |was| && iter.forward && Walking(l, iter, was, i, drop)
    modifies l, iter, was
    ensures node == was[i] && iter.forward && Walking(l, iter, was, i + 1, drop)
  {
    hide Linked, Kept, Values, Walking, List.Valid, List.Contents;
    ghost var at := FrontOfWalk(l, iter, was, i, drop);
    node := iter.Next();
    if drop(node) {
      l.Delete(node, at);
    }
    Walked(l, iter, was, i + 1, drop);
  }

  method Backward<T>(l: List<T>, iter: Iter<T>, ghost was: seq<Node<T>>, ghost i: nat, drop: Node<T> -> bool)
    returns (node: Node<T>)
    requires 0 < i <= |was| && !iter.forward && Walking(l, iter, was, i, drop)
    modifies l, iter, was
    ensures node == was[i - 1] && !iter.forward && Walking(l, iter, was, i - 1, drop)
  {
    hide Linked, Kept, Values, Walking, List.Valid, List.Contents;
    BackOfWalk(l, iter, was, i, drop);
    node := iter.Next();
    if drop(node) {
      l.Delete(node, i - 1);
    }
    Walked(l, iter, was, i - 1, drop);
  }

  /** MAIN RESULT: a walk from the head that deletes some of the nodes it is given visits every
      node once, in order, and leaves exactly the others. */
  method WalkForward<T>(l: List<T>, drop: Node<T> -> bool) returns (ghost visited: seq<Node<T>>)
    requires l.Valid()
    modifies l, l.nodes
    ensures l.Valid() && visited == old(l.nodes) && l.nodes == Kept(old(l.nodes), drop)
  {
    hide Linked, Kept, Walking;
    ghost var was := l.nodes;
    ghost var i := 0;
    visited := [];
    var iter := new Iter(l, true);
    WalkStarts(l, iter, drop);
    while iter.next != null
      invariant 0 <= i <= |was| && visited == was[..i] && fresh(iter) && iter.forward
      invariant Walking(l, iter, was, i, drop) && Cursor(l, iter, was, i, drop)
      decreases |was| - i
    {
      var node := Forward(l, iter, was, i, drop);
      visited := visited + [node];
      i := i + 1;
      WalkCursor(l, iter, was, i, drop);
    }
    assert was[..i] == was;
  }

  /** The same from the tail. */
  method WalkBackward<T>(l: List<T>, drop: Node<T> -> bool) returns (ghost visited: seq<Node<T>>)
    requires l.Valid()
    modifies l, l.nodes
    ensures l.Valid() && l.nodes == Kept(old(l.nodes), drop)
    ensures |visited| == |old(l.nodes)|
    ensures forall k | 0 <= k < |visited| :: visited[k] == old(l.nodes)[|old(l.nodes)| - 1 - k]
  {
    hide Linked, Kept, Walking;
    ghost var was := l.nodes;
    ghost var i := |was|;
    visited := [];
    var iter := new Iter(l, false);
    WalkStarts(l, iter, drop);
    while iter.next != null
      invariant 0 <= i <= |was| && |visited| == |was| - i && fresh(iter) && !iter.forward
      invariant forall k | 0 <= k < |visited| :: visited[k] == was[|was| - 1 - k]
      invariant Walking(l, iter, was, i, drop) && Cursor(l, iter, was, i, drop)
      decreases i
    {
      var node := Backward(l, iter, was, i, drop);
      visited := visited + [node];
      i := i - 1;
      WalkCursor(l, iter, was, i, drop);
    }
  }

  /** The copy holds the copied values in order; null when a value could not be copied. */
  method Dup<T>(orig: List<T>, dup: T -> Option<T>) returns (copy: List?<T>)
    requires orig.Valid()
    ensures copy == null <==> exists k | 0 <= k < |orig.nodes| :: dup(orig.nodes[k].value).None?
    ensures copy != null ==>
              fresh(copy) && fresh(copy.nodes) && copy.Valid() && |copy.nodes| == |orig.nodes|
              && forall k | 0 <= k < |orig.nodes| :: Some(copy.nodes[k].value) == dup(orig.nodes[k].value)
  {
    hide Linked, Values, List.Valid, List.Contents;
    ValidNodes(orig);
    var result := new List();
    var iter := new Iter(orig, true);
    ghost var i := 0;
    while iter.next != null
      invariant 0 <= i <= |orig.nodes| && fresh(iter) && iter.forward
      invariant fresh(result) && fresh(result.nodes) && result.Valid() && |result.nodes| == i
      invariant iter.next == if i < |orig.nodes| then orig.nodes[i] else null
      invariant forall k | 0 <= k < i :: Some(result.nodes[k].value) == dup(orig.nodes[k].value)
      decreases |orig.nodes| - i
    {
      ValidNodes(orig);
      Neighbours(orig.nodes, i);
      var node := iter.Next();
      var value := dup(node.value);
      if value.None? {
        assert dup(orig.nodes[i].value).None?;
        return null;
      }
      result.AddTail(value.value);
      i := i + 1;
    }
    copy := result;
  }
}
