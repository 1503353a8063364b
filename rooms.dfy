/** Room selection: which rooms can take a group on a (day, slot), read off the
    occupancy records of the run. */
module RoomSelection {
  import opened Catalog

  /** An occupancy record. A room recorded as exclusive leaves a (room, day, slot) record;
      a hall leaves a (room, day, slot, group) record, so several groups can share it. */
  datatype Usage = Std(room: Id, day: int, slot: Id) | Hall(room: Id, day: int, slot: Id, group: Id)

  /** The hall records present for room `room` at (`d`, `c`). */
  function HallOccupants(usage: set<Usage>, room: Id, d: int, c: Id): set<Usage>
  {
    set u | u in usage && u.Hall? && u.room == room && u.day == d && u.slot == c
  }

  /** Whether room `s` can take a group of `size` students at (`d`, `c`): a "Salle" needs no
      record of its own for the slot and enough seats; any other room needs fewer than
      HALL_CAP hall records for the slot and has no seat test. */
  predicate RoomEligible(s: Room, size: int, usage: set<Usage>, d: int, c: Id)
  {
    if s.kind == Salle then Std(s.id, d, c) !in usage && size <= s.capacity
    else |HallOccupants(usage, s.id, d, c)| < HALL_CAP
  }

  /** The eligible rooms of `salles`, in the order of `salles`. */
  function EligibleRooms(salles: seq<Room>, size: int, usage: set<Usage>, d: int, c: Id): seq<Room>
  {
    if salles == [] then []
    else
      var last := salles[|salles| - 1];
      EligibleRooms(salles[..|salles| - 1], size, usage, d, c)
      + (if RoomEligible(last, size, usage, d, c) then [last] else [])
  }

  /** The selection keeps exactly the eligible rooms of the catalogue, and nothing else. */
  lemma {:induction false} EligibleRoomsMembers(salles: seq<Room>, size: int, usage: set<Usage>, d: int, c: Id)
    ensures forall s :: s in EligibleRooms(salles, size, usage, d, c) <==> s in salles && RoomEligible(s, size, usage, d, c)
    ensures |EligibleRooms(salles, size, usage, d, c)| <= |salles|
  {
    if salles != [] {
      var last := salles[|salles| - 1];
      EligibleRoomsMembers(salles[..|salles| - 1], size, usage, d, c);
      assert salles == salles[..|salles| - 1] + [last];
    }
  }

  /** `available_rooms`: walks the rooms in catalogue order and keeps the eligible ones. */
  method AvailableRooms(salles: seq<Room>, size: int, usage: set<Usage>, d: int, c: Id) returns (result: seq<Room>)
    ensures result == EligibleRooms(salles, size, usage, d, c)
  {
    result := [];
    for i := 0 to |salles|
      invariant result == EligibleRooms(salles[..i], size, usage, d, c)
    {
      var s := salles[i];
      assert salles[..i + 1][..i] == salles[..i];
      if s.kind == Salle {
        if Std(s.id, d, c) !in usage && size <= s.capacity {
          result := result + [s];
        }
      } else {
        var count := |HallOccupants(usage, s.id, d, c)|;
        if count < HALL_CAP {
          result := result + [s];
        }
      }
    }
    assert salles[..|salles|] == salles;
  }

  /** Rooms in non-increasing capacity order, as the catalogue query returns them. */
  ghost predicate ByCapacityDesc(rs: seq<Room>)
  {
    forall i, j :: 0 <= i < j < |rs| ==> rs[i].capacity >= rs[j].capacity
  }

  /** Selection keeps the capacity-descending order of the catalogue. */
  lemma {:induction false} EligibleRoomsKeepOrder(salles: seq<Room>, size: int, usage: set<Usage>, d: int, c: Id)
    requires ByCapacityDesc(salles)
    ensures ByCapacityDesc(EligibleRooms(salles, size, usage, d, c))
  {
    if salles != [] {
      var init := salles[..|salles| - 1];
      var last := salles[|salles| - 1];
      assert ByCapacityDesc(init);
      EligibleRoomsKeepOrder(init, size, usage, d, c);
      var r0 := EligibleRooms(init, size, usage, d, c);
      EligibleRoomsMembers(init, size, usage, d, c);
      forall x | x in r0 ensures x.capacity >= last.capacity {
        var k :| 0 <= k < |init| && init[k] == x;
        assert salles[k] == x;
      }
    }
  }

  /** The room the engine takes, the first eligible one, is a largest eligible room; when it
      is a "Salle" it is free for the slot and seats the whole group. */
  lemma FirstRoomIsLargest(salles: seq<Room>, size: int, usage: set<Usage>, d: int, c: Id)
    requires ByCapacityDesc(salles)
    requires EligibleRooms(salles, size, usage, d, c) != []
    ensures var first := EligibleRooms(salles, size, usage, d, c)[0];
      && first in salles
      && (forall s :: s in salles && RoomEligible(s, size, usage, d, c) ==> s.capacity <= first.capacity)
      && (first.kind == Salle ==> Std(first.id, d, c) !in usage && size <= first.capacity)
      && (first.kind != Salle ==> |HallOccupants(usage, first.id, d, c)| < HALL_CAP)
  {
    var r := EligibleRooms(salles, size, usage, d, c);
    EligibleRoomsKeepOrder(salles, size, usage, d, c);
    EligibleRoomsMembers(salles, size, usage, d, c);
    forall s | s in salles && RoomEligible(s, size, usage, d, c) ensures s.capacity <= r[0].capacity {
      var k :| 0 <= k < |r| && r[k] == s;
      if k > 0 { assert r[0].capacity >= r[k].capacity; }
    }
  }

  /** A room whose type is neither "Salle" nor "Amphi" is judged by hall records but is
      recorded, like a "Salle", with an exclusive record, which the hall test never counts:
      recording an exam in it never makes it less available. */
  lemma OtherKindNeverFills(s: Room, size: int, usage: set<Usage>, d: int, c: Id)
    requires s.kind.OtherKind?
    ensures RoomEligible(s, size, usage + {Std(s.id, d, c)}, d, c) == RoomEligible(s, size, usage, d, c)
    ensures RoomEligible(s, size, {}, d, c)
  {
    assert HallOccupants(usage + {Std(s.id, d, c)}, s.id, d, c) == HallOccupants(usage, s.id, d, c);
    assert HallOccupants({}, s.id, d, c) == {};
  }

  /** Any room other than a "Salle" is offered or not whatever the group's size: there is no
      seat test on that branch, so two groups of different sizes see it alike. */
  lemma HallIgnoresSize(salles: seq<Room>, s: Room, size1: int, size2: int, usage: set<Usage>, d: int, c: Id)
    requires s.kind != Salle
    ensures s in EligibleRooms(salles, size1, usage, d, c) <==> s in EligibleRooms(salles, size2, usage, d, c)
  {
    EligibleRoomsMembers(salles, size1, usage, d, c);
    EligibleRoomsMembers(salles, size2, usage, d, c);
  }
}
