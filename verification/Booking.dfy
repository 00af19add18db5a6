/** Room booking (app/controllers/bookings_controller.rb and app/models/booking.rb). */
module Booking {
  import opened Wrappers

  datatype Room = Room(id: int, kind: int, weight: int, capacity: int)

  datatype Stay = Stay(id: int, room: int, start: int, finish: int, quantity: int)

  predicate Covers(b: Stay, day: int) { b.start <= day <= b.finish }

  /** The scope booked_r, chained after the condition on the room. That condition reaches only
      the parts that do not start from the whole table again, so stays in other rooms count too. */
  predicate Counted(b: Stay, room: int, start: int, finish: int) {
    (b.room == room && b.start <= start <= b.finish)
    || b.start <= finish <= b.finish
    || (b.room == room && start <= b.start <= finish)
    || start <= b.finish <= finish
  }

  function Sum(stays: seq<Stay>, p: Stay -> bool): int {
    if stays == [] then 0
    else Sum(stays[..|stays| - 1], p) + if p(stays[|stays| - 1]) then stays[|stays| - 1].quantity else 0
  }

  function CountedSum(stays: seq<Stay>, room: int, start: int, finish: int): int {
    Sum(stays, Counts(room, start, finish))
  }

  function Counts(room: int, start: int, finish: int): Stay -> bool {
    (b: Stay) => Counted(b, room, start, finish)
  }

  function Occupies(room: int, day: int): Stay -> bool { (b: Stay) => b.room == room && Covers(b, day) }

  /** What is booked in a room on a day. */
  function Booked(stays: seq<Stay>, room: int, day: int): int {
    Sum(stays, Occupies(room, day))
  }

  ghost predicate WithinCapacity(rooms: seq<Room>, stays: seq<Stay>) {
    forall r, day | r in rooms :: Booked(stays, r.id, day) <= r.capacity
  }

  ghost predicate NonNegative(stays: seq<Stay>) { forall b | b in stays :: b.quantity >= 0 }

  // ----- sums -----

  lemma {:induction false} SumOrder(stays: seq<Stay>, p: Stay -> bool, q: Stay -> bool)
    requires NonNegative(stays) && forall b | b in stays && p(b) :: q(b)
    ensures 0 <= Sum(stays, p) <= Sum(stays, q)
  {
    if stays != [] { SumOrder(stays[..|stays| - 1], p, q); }
  }

  lemma {:induction false} SumRemoved(stays: seq<Stay>, k: nat, p: Stay -> bool)
    requires k < |stays|
    ensures Sum(stays[..k] + stays[k + 1..], p) == Sum(stays, p) - if p(stays[k]) then stays[k].quantity else 0
    decreases |stays|
  {
    var n := |stays| - 1;
    if k == n {
      assert stays[..k] + stays[k + 1..] == stays[..n];
    } else {
      var rest := stays[..k] + stays[k + 1..];
      assert rest[..|rest| - 1] == stays[..n][..k] + stays[..n][k + 1..];
      SumRemoved(stays[..n], k, p);
    }
  }

  /** A stay that covers a day of the wanted dates is counted. */
  lemma OverlapIsCounted(b: Stay, room: int, start: int, finish: int, day: int)
    requires b.room == room && Covers(b, day) && start <= day <= finish
    ensures Counted(b, room, start, finish)
  {}

  lemma BookedIsCounted(stays: seq<Stay>, room: int, start: int, finish: int, day: int)
    requires NonNegative(stays) && start <= day <= finish
    ensures Booked(stays, room, day) <= CountedSum(stays, room, start, finish)
  {
    SumOrder(stays, Occupies(room, day), Counts(room, start, finish));
  }

  // ----- requests -----

  datatype Request =
    | Create(kind: int, weight: int, start: int, finish: int, quantity: int)
    | Destroy(id: int)

  predicate Admits(r: Room, stays: seq<Stay>, q: Request)
    requires q.Create?
  {
    r.kind == q.kind && r.weight == q.weight && CountedSum(stays, r.id, q.start, q.finish) + q.quantity <= r.capacity
  }

  function FirstRoom(rooms: seq<Room>, stays: seq<Stay>, q: Request): Option<int>
    requires q.Create?
  {
    if rooms == [] then None
    else if Admits(rooms[0], stays, q) then Some(rooms[0].id)
    else FirstRoom(rooms[1..], stays, q)
  }

  function Without(stays: seq<Stay>, id: int): seq<Stay> {
    if stays == [] then [] else if stays[0].id == id then stays[1..] else [stays[0]] + Without(stays[1..], id)
  }

  function Handle(rooms: seq<Room>, stays: seq<Stay>, q: Request, id: int): seq<Stay> {
    match q
    case Create(_, _, start, finish, quantity) =>
      (match FirstRoom(rooms, stays, q)
       case None => stays
       case Some(room) => stays + [Stay(id, room, start, finish, quantity)])
    case Destroy(gone) => Without(stays, gone)
  }

  function Run(rooms: seq<Room>, qs: seq<Request>): seq<Stay> {
    if qs == [] then [] else Handle(rooms, Run(rooms, qs[..|qs| - 1]), qs[|qs| - 1], |qs|)
  }

  ghost predicate AtLeast(qs: seq<Request>, m: int) {
    forall q | q in qs && q.Create? :: q.quantity >= m
  }

  /** Rooms have distinct ids and a capacity that is not negative. */
  ghost predicate Table(rooms: seq<Room>) {
    (forall r | r in rooms :: r.capacity >= 0)
    && (forall r, s | r in rooms && s in rooms && r.id == s.id :: r == s)
  }

  lemma {:induction false} FirstRoomAdmits(rooms: seq<Room>, stays: seq<Stay>, q: Request) returns (r: Room)
    requires q.Create? && FirstRoom(rooms, stays, q).Some?
    ensures r in rooms && r.id == FirstRoom(rooms, stays, q).value && Admits(r, stays, q)
  {
    if Admits(rooms[0], stays, q) {
      r := rooms[0];
    } else {
      r := FirstRoomAdmits(rooms[1..], stays, q);
    }
  }

  lemma CreateKeeps(rooms: seq<Room>, stays: seq<Stay>, q: Request, id: int)
    requires Table(rooms) && WithinCapacity(rooms, stays) && NonNegative(stays) && q.Create? && q.quantity >= 0
    ensures WithinCapacity(rooms, Handle(rooms, stays, q, id)) && NonNegative(Handle(rooms, stays, q, id))
  {
    if FirstRoom(rooms, stays, q).Some? {
      var chosen := FirstRoomAdmits(rooms, stays, q);
      var b := Stay(id, chosen.id, q.start, q.finish, q.quantity);
      var after := stays + [b];
      assert after[..|after| - 1] == stays;
      forall r, day | r in rooms
        ensures Booked(after, r.id, day) <= r.capacity
      {
        if r.id == chosen.id && Covers(b, day) {
          BookedIsCounted(stays, r.id, q.start, q.finish, day);
        } else {
          assert Booked(after, r.id, day) == Booked(stays, r.id, day);
        }
      }
    }
  }

  /** Removing by id takes out the first stay with that id, at k, or none. */
  lemma {:induction false} WithoutIsRemoval(stays: seq<Stay>, id: int) returns (k: nat)
    ensures k <= |stays| && (forall i | 0 <= i < k :: stays[i].id != id)
    ensures k < |stays| ==> stays[k].id == id && Without(stays, id) == stays[..k] + stays[k + 1..]
    ensures k == |stays| ==> Without(stays, id) == stays
  {
    if stays == [] || stays[0].id == id {
      k := 0;
    } else {
      k := WithoutIsRemoval(stays[1..], id);
      k := k + 1;
      assert k < |stays| ==> stays[..k] + stays[k + 1..] == [stays[0]] + (stays[1..][..k - 1] + stays[1..][k..]);
    }
  }

  lemma DestroyKeeps(rooms: seq<Room>, stays: seq<Stay>, id: int)
    requires WithinCapacity(rooms, stays) && NonNegative(stays)
    ensures WithinCapacity(rooms, Without(stays, id)) && NonNegative(Without(stays, id))
  {
    var k := WithoutIsRemoval(stays, id);
    var after := Without(stays, id);
    if k < |stays| {
      assert stays[k].quantity >= 0;
      forall r, day | r in rooms
        ensures Booked(after, r.id, day) <= r.capacity
      {
        SumRemoved(stays, k, Occupies(r.id, day));
        assert Booked(stays, r.id, day) <= r.capacity;
      }
    }
  }

  lemma {:induction false} RunKeeps(rooms: seq<Room>, qs: seq<Request>)
    requires Table(rooms) && AtLeast(qs, 0)
    ensures WithinCapacity(rooms, Run(rooms, qs)) && NonNegative(Run(rooms, qs))
  {
    if qs != [] {
      var before, q := qs[..|qs| - 1], qs[|qs| - 1];
      RunKeeps(rooms, before);
      match q
      case Create(_, _, _, _, _) => CreateKeeps(rooms, Run(rooms, before), q, |qs|);
      case Destroy(id) => DestroyKeeps(rooms, Run(rooms, before), id);
    }
  }

  /** A negative stay hides a later one: nothing is left on day 2, and one place is booked. */
  lemma NegativeQuantityOverbooks()
    ensures var rooms := [Room(7, 0, 0, 0)];
            var qs := [Create(0, 0, 1, 1, -1), Create(0, 0, 1, 2, 1)];
            Table(rooms) && Booked(Run(rooms, qs), 7, 2) == 1 && !WithinCapacity(rooms, Run(rooms, qs))
  {
    var room := Room(7, 0, 0, 0);
    var rooms := [room];
    var q1, q2 := Create(0, 0, 1, 1, -1), Create(0, 0, 1, 2, 1);
    var b1, b2 := Stay(1, 7, 1, 1, -1), Stay(2, 7, 1, 2, 1);
    assert [q1, q2][..1] == [q1] && [q1][..0] == [];
    assert Handle(rooms, [], q1, 1) == [b1];
    SumOne(b1, Counts(7, 1, 2));
    assert Admits(room, [b1], q2);
    assert Handle(rooms, [b1], q2, 2) == [b1, b2];
    SumTwo(b1, b2, Occupies(7, 2));
    assert room in rooms;
  }

  lemma SumOne(b: Stay, p: Stay -> bool)
    ensures Sum([b], p) == if p(b) then b.quantity else 0
  {
    assert [b][..0] == [];
  }

  lemma SumTwo(b: Stay, c: Stay, p: Stay -> bool)
    ensures Sum([b, c], p) == (if p(b) then b.quantity else 0) + (if p(c) then c.quantity else 0)
  {
    SumOne(b, p);
    assert [b, c][..1] == [b];
  }

  /** What is counted for a room is what overlaps in it, and what of other rooms reaches the last
      wanted day or ends within the wanted days. */
  lemma {:induction false} CountedSplits(stays: seq<Stay>, room: int, start: int, finish: int)
    requires start <= finish && forall b | b in stays :: b.start <= b.finish
    ensures CountedSum(stays, room, start, finish)
         == Sum(stays, Overlaps(room, start, finish)) + Sum(stays, Strangers(room, start, finish))
  {
    if stays != [] { CountedSplits(stays[..|stays| - 1], room, start, finish); }
  }

  function Overlaps(room: int, start: int, finish: int): Stay -> bool {
    (b: Stay) => b.room == room && b.start <= finish && start <= b.finish
  }

  function Strangers(room: int, start: int, finish: int): Stay -> bool {
    (b: Stay) => b.room != room && start <= b.finish && (b.start <= finish <= b.finish || b.finish <= finish)
  }

  /** Every run of the given rooms whose quantities are at least m keeps every room's capacity. */
  ghost predicate Safe(m: int) {
    forall rooms, qs | Table(rooms) && AtLeast(qs, m) :: WithinCapacity(rooms, Run(rooms, qs))
  }

  /** MAIN RESULT: no run overbooks a room on any day, exactly when negative quantities are
      turned away. */
  lemma SafeExactly(m: int)
    ensures Safe(m) <==> m >= 0
  {
    if m >= 0 {
      forall rooms, qs | Table(rooms) && AtLeast(qs, m)
        ensures WithinCapacity(rooms, Run(rooms, qs))
      {
        RunKeeps(rooms, qs);
      }
    } else {
      NegativeQuantityOverbooks();
      assert AtLeast([Create(0, 0, 1, 1, -1), Create(0, 0, 1, 2, 1)], m);
    }
  }

  // ----- the controller -----

  class Hotel {
    const rooms: seq<Room>
    var stays: seq<Stay>
    var nextId: nat
    ghost var handled: seq<Request>

    ghost predicate Valid()
      reads this
    {
      stays == Run(rooms, handled) && nextId == |handled| + 1
    }

    constructor (rooms: seq<Room>)
      ensures Valid() && this.rooms == rooms && handled == []
    {
      this.rooms := rooms;
      stays, nextId, handled := [], 1, [];
    }

    /** create: every room of the wanted type is tried, the first that fits is booked. */
    method CreateStay(q: Request) returns (ok: bool)
      requires Valid() && q.Create?
      modifies this
      ensures Valid() && handled == old(handled) + [q]
      ensures stays == Handle(rooms, old(stays), q, old(nextId))
      ensures ok <==> exists r | r in rooms :: Admits(r, old(stays), q)
    {
      hide Admits;
      var empty: seq<int> := [];
      var i := 0;
      while i < |rooms|
        invariant 0 <= i <= |rooms|
        invariant stays == old(stays) && handled == old(handled) && nextId == old(nextId)
        invariant empty == Fitting(rooms[..i], stays, q)
      {
        var room := rooms[i];
        assert rooms[..i + 1][..i] == rooms[..i];
        var fits := Try(room, q);
        if fits {
          empty := empty + [room.id];
        }
        i := i + 1;
      }
      assert rooms[..i] == rooms;
      FirstIsHead(rooms, stays, q);
      FittingIffAdmits(rooms, stays, q);
      ok := empty != [];
      if ok {
        stays := stays + [Stay(nextId, empty[0], q.start, q.finish, q.quantity)];
      }
      nextId := nextId + 1;
      handled := handled + [q];
      assert handled[..|handled| - 1] == old(handled);
    }

    method Try(room: Room, q: Request) returns (fits: bool)
      requires q.Create?
      ensures fits == Admits(room, stays, q)
    {
      if room.kind != q.kind || room.weight != q.weight {
        return false;
      }
      var booked := SumCounted(room.id, q.start, q.finish);
      fits := booked + q.quantity <= room.capacity;
    }

    /** The sum of the quantities that the query selects. */
    method SumCounted(room: int, start: int, finish: int) returns (sum: int)
      ensures sum == CountedSum(stays, room, start, finish)
    {
      sum := 0;
      var i := 0;
      while i < |stays|
        invariant 0 <= i <= |stays| && sum == CountedSum(stays[..i], room, start, finish)
      {
        assert stays[..i + 1][..i] == stays[..i];
        if Counted(stays[i], room, start, finish) {
          sum := sum + stays[i].quantity;
        }
        i := i + 1;
      }
      assert stays[..i] == stays;
    }

    /** destroy: an unknown id raises an error before anything is deleted. */
    method DestroyStay(id: int) returns (ok: bool)
      requires Valid()
      modifies this
      ensures Valid() && handled == old(handled) + [Destroy(id)]
      ensures ok <==> exists b | b in old(stays) :: b.id == id
      ensures stays == Without(old(stays), id)
    {
      ghost var at := WithoutIsRemoval(stays, id);
      var k := 0;
      while k < |stays| && stays[k].id != id
        invariant 0 <= k <= |stays| && forall i | 0 <= i < k :: stays[i].id != id
      {
        k := k + 1;
      }
      ok := k < |stays|;
      if ok {
        assert k == at && stays[k] in stays;
        stays := stays[..k] + stays[k + 1..];
      }
      nextId := nextId + 1;
      handled := handled + [Destroy(id)];
      assert handled[..|handled| - 1] == old(handled);
    }
  }

  function Fitting(rooms: seq<Room>, stays: seq<Stay>, q: Request): seq<int>
    requires q.Create?
  {
    if rooms == [] then []
    else
      var last := rooms[|rooms| - 1];
      Fitting(rooms[..|rooms| - 1], stays, q) + if Admits(last, stays, q) then [last.id] else []
  }

  lemma {:induction false} FirstIsHead(rooms: seq<Room>, stays: seq<Stay>, q: Request)
    requires q.Create?
    ensures FirstRoom(rooms, stays, q) == var f := Fitting(rooms, stays, q); if f == [] then None else Some(f[0])
  {
    if rooms != [] {
      FirstIsHead(rooms[..|rooms| - 1], stays, q);
      FirstRoomLast(rooms[..|rooms| - 1], rooms[|rooms| - 1], stays, q);
      assert rooms == rooms[..|rooms| - 1] + [rooms[|rooms| - 1]];
    }
  }

  lemma {:induction false} FirstRoomLast(rooms: seq<Room>, last: Room, stays: seq<Stay>, q: Request)
    requires q.Create?
    ensures FirstRoom(rooms + [last], stays, q)
         == if FirstRoom(rooms, stays, q).Some? then FirstRoom(rooms, stays, q)
            else if Admits(last, stays, q) then Some(last.id) else None
  {
    if rooms == [] {
      assert rooms + [last] == [last];
    } else {
      assert (rooms + [last])[1..] == rooms[1..] + [last];
      FirstRoomLast(rooms[1..], last, stays, q);
    }
  }

  lemma {:induction false} FittingIffAdmits(rooms: seq<Room>, stays: seq<Stay>, q: Request)
    requires q.Create?
    ensures Fitting(rooms, stays, q) != [] <==> exists r | r in rooms :: Admits(r, stays, q)
  {
    if rooms != [] {
      FittingIffAdmits(rooms[..|rooms| - 1], stays, q);
      assert rooms == rooms[..|rooms| - 1] + [rooms[|rooms| - 1]];
    }
  }
}
