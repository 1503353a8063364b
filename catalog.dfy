/** The static catalogue of one scheduling run: groups, modules, rooms, slots and the
    constants of the engine. The engine reads these and never changes them. */
module Catalog {

  /** Database identities of groups, modules, examiners, rooms and slots. */
  type Id = int

  /** Length of the exam window: day offsets 0 .. NB_DAYS - 1 from the start date. */
  const NB_DAYS: int := 20
  /** Duration, in minutes, written into every exam row. */
  const DUREE: int := 90
  /** Only the first SLOTS_PER_DAY slots (by identity order) are eligible. */
  const SLOTS_PER_DAY: int := 4
  /** An examiner is offered only while under this many exams on a day. */
  const PROF_DAILY_CAP: int := 3
  /** A non-"Salle" room is offered only while it holds fewer than this many hall records. */
  const HALL_CAP: int := 2

  /** The `type` column of a room: the two values the engine tests for, and any other label.
      A room typed "Salle" or "Amphi" is `Salle` or `Amphi`; `OtherKind` carries only the
      remaining labels, never "Salle" nor "Amphi". */
  datatype RoomKind = Salle | Amphi | OtherKind(typeName: string)

  datatype Room = Room(id: Id, capacity: int, kind: RoomKind)

  datatype Group = Group(id: Id, formation: Id)

  datatype Module = Module(id: Id, formation: Id)

  /** Reading a `defaultdict(int)`: a missing key reads as 0. */
  function Lookup<K>(m: map<K, int>, k: K): int
  {
    if k in m then m[k] else 0
  }

  /** The slots the engine may use: the first SLOTS_PER_DAY of the slots ordered by id
      (a Python slice, so a shorter list is kept whole). */
  function EligibleSlots(slots: seq<Id>): (r: seq<Id>)
    ensures |r| == (if |slots| < SLOTS_PER_DAY then |slots| else SLOTS_PER_DAY)
    ensures r <= slots
  {
    if |slots| <= SLOTS_PER_DAY then slots else slots[..SLOTS_PER_DAY]
  }

  /** The modules a group must sit: those of its formation, in catalogue order. */
  function GroupModules(modules: seq<Module>, g: Group): seq<Module>
  {
    if modules == [] then []
    else
      (if modules[0].formation == g.formation then [modules[0]] else [])
      + GroupModules(modules[1..], g)
  }

  /** A group sits exactly the modules of its formation. */
  lemma {:induction false} GroupModulesMembers(modules: seq<Module>, g: Group)
    ensures forall m :: m in GroupModules(modules, g) <==> m in modules && m.formation == g.formation
    ensures |GroupModules(modules, g)| <= |modules|
  {
    if modules != [] {
      GroupModulesMembers(modules[1..], g);
      assert modules == [modules[0]] + modules[1..];
    }
  }

  /** Group identities are primary keys: no two groups of the catalogue share one. */
  ghost predicate DistinctGroupIds(gs: seq<Group>)
  {
    forall i, j :: 0 <= i < j < |gs| ==> gs[i].id != gs[j].id
  }

  /** Module identities are primary keys: no two modules of the catalogue share one. */
  ghost predicate DistinctModuleIds(ms: seq<Module>)
  {
    forall i, j :: 0 <= i < j < |ms| ==> ms[i].id != ms[j].id
  }

  /** Filtering the modules by formation keeps their identities distinct. */
  lemma {:induction false} GroupModulesDistinct(modules: seq<Module>, g: Group)
    requires DistinctModuleIds(modules)
    ensures DistinctModuleIds(GroupModules(modules, g))
  {
    if modules != [] {
      var rest := modules[1..];
      assert DistinctModuleIds(rest) by {
        forall i, j | 0 <= i < j < |rest| ensures rest[i].id != rest[j].id {
          assert rest[i] == modules[i + 1] && rest[j] == modules[j + 1];
        }
      }
      GroupModulesDistinct(rest, g);
      GroupModulesMembers(rest, g);
      var tail := GroupModules(rest, g);
      if modules[0].formation == g.formation {
        var r := [modules[0]] + tail;
        forall i, j | 0 <= i < j < |r| ensures r[i].id != r[j].id {
          assert r[j] == tail[j - 1];
          if i == 0 {
            assert tail[j - 1] in rest;
            var k :| 0 <= k < |rest| && rest[k] == tail[j - 1];
            assert modules[k + 1] == rest[k];
          } else {
            assert r[i] == tail[i - 1];
          }
        }
      }
    }
  }

  /** Group sizes counted from the membership rows (one group id per row). A group with
      no row is absent from the map and so reads as size 0. */
  method CountGroupSizes(memberships: seq<Id>) returns (size: map<Id, int>)
    ensures forall g :: Lookup(size, g) == multiset(memberships)[g]
    ensures forall g :: g in size <==> g in memberships
  {
    size := map[];
    for i := 0 to |memberships|
      invariant forall g :: Lookup(size, g) == multiset(memberships[..i])[g]
      invariant forall g :: g in size <==> g in memberships[..i]
    {
      var g := memberships[i];
      size := size[g := Lookup(size, g) + 1];
      assert memberships[..i + 1] == memberships[..i] + [g];
    }
    assert memberships[..|memberships|] == memberships;
  }
}
