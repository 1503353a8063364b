/** The committed exams of a run, the availability facts they determine, the hard
    constraints every schedule must keep, and the post-run conflict audit. */
module Ledger {
  import opened Catalog
  import opened RoomSelection

  /** One committed exam row: module, group, examiner, room, day offset, slot, duration. */
  datatype Exam = Exam(moduleId: Id, group: Id, prof: Id, room: Room, day: int, slot: Id, duration: int)

  /** The occupancy record a commit adds: a hall record when the room's type is "Amphi",
      an exclusive record otherwise. */
  function Occupancy(e: Exam): Usage
  {
    if e.room.kind == Amphi then Hall(e.room.id, e.day, e.slot, e.group)
    else Std(e.room.id, e.day, e.slot)
  }

  /** The (group, day) pairs of the exams. */
  function GroupDays(s: seq<Exam>): set<(Id, int)>
  {
    if s == [] then {}
    else GroupDays(s[..|s| - 1]) + {(s[|s| - 1].group, s[|s| - 1].day)}
  }

  /** A (group, day) pair is busy exactly when some exam of the log is that group's on that day. */
  lemma {:induction false} GroupDaysMembers(s: seq<Exam>)
    ensures forall i :: 0 <= i < |s| ==> (s[i].group, s[i].day) in GroupDays(s)
    ensures forall k :: k in GroupDays(s) ==> exists i :: 0 <= i < |s| && k == (s[i].group, s[i].day)
  {
    if s != [] {
      var init := s[..|s| - 1];
      GroupDaysMembers(init);
      forall k | k in GroupDays(s) ensures exists i :: 0 <= i < |s| && k == (s[i].group, s[i].day) {
        if k in GroupDays(init) {
          var i :| 0 <= i < |init| && k == (init[i].group, init[i].day);
          assert s[i] == init[i];
        } else {
          assert k == (s[|s| - 1].group, s[|s| - 1].day);
        }
      }
      forall i | 0 <= i < |s| ensures (s[i].group, s[i].day) in GroupDays(s) {
        if i < |init| { assert s[i] == init[i]; }
      }
    }
  }

  /** How many of the exams examiner `p` holds on day `d`. */
  function ProfDayCount(s: seq<Exam>, p: Id, d: int): nat
  {
    if s == [] then 0
    else ProfDayCount(s[..|s| - 1], p, d) + (if s[|s| - 1].prof == p && s[|s| - 1].day == d then 1 else 0)
  }

  /** How many of the exams examiner `p` holds over the run. */
  function ProfCount(s: seq<Exam>, p: Id): nat
  {
    if s == [] then 0
    else ProfCount(s[..|s| - 1], p) + (if s[|s| - 1].prof == p then 1 else 0)
  }

  /** The occupancy records of the exams. */
  function RecordsOf(s: seq<Exam>): set<Usage>
  {
    if s == [] then {}
    else RecordsOf(s[..|s| - 1]) + {Occupancy(s[|s| - 1])}
  }

  /** The occupancy records are exactly those of the log's exams. */
  lemma {:induction false} RecordsOfMembers(s: seq<Exam>)
    ensures forall i :: 0 <= i < |s| ==> Occupancy(s[i]) in RecordsOf(s)
    ensures forall u :: u in RecordsOf(s) ==> exists i :: 0 <= i < |s| && u == Occupancy(s[i])
  {
    if s != [] {
      var init := s[..|s| - 1];
      RecordsOfMembers(init);
      forall u | u in RecordsOf(s) ensures exists i :: 0 <= i < |s| && u == Occupancy(s[i]) {
        if u in RecordsOf(init) {
          var i :| 0 <= i < |init| && u == Occupancy(init[i]);
          assert s[i] == init[i];
        } else {
          assert u == Occupancy(s[|s| - 1]);
        }
      }
      forall i | 0 <= i < |s| ensures Occupancy(s[i]) in RecordsOf(s) {
        if i < |init| { assert s[i] == init[i]; }
      }
    }
  }

  lemma GroupDaysAppend(s: seq<Exam>, e: Exam)
    ensures GroupDays(s + [e]) == GroupDays(s) + {(e.group, e.day)}
  {
    assert (s + [e])[..|s|] == s;
  }

  lemma RecordsOfAppend(s: seq<Exam>, e: Exam)
    ensures RecordsOf(s + [e]) == RecordsOf(s) + {Occupancy(e)}
  {
    assert (s + [e])[..|s|] == s;
  }

  lemma ProfDayCountAppend(s: seq<Exam>, e: Exam, p: Id, d: int)
    ensures ProfDayCount(s + [e], p, d) == ProfDayCount(s, p, d) + (if e.prof == p && e.day == d then 1 else 0)
  {
    assert (s + [e])[..|s|] == s;
  }

  lemma ProfCountAppend(s: seq<Exam>, e: Exam, p: Id)
    ensures ProfCount(s + [e], p) == ProfCount(s, p) + (if e.prof == p then 1 else 0)
  {
    assert (s + [e])[..|s|] == s;
  }

  /** The `student_day` dictionary a log determines: every (group, day) with an exam mapped to 1. */
  function StudentDayMap(s: seq<Exam>): map<(Id, int), int>
  {
    if s == [] then map[]
    else StudentDayMap(s[..|s| - 1])[(s[|s| - 1].group, s[|s| - 1].day) := 1]
  }

  /** The `prof_day` dictionary a log determines: one increment per exam. */
  function ProfDayMap(s: seq<Exam>): map<(Id, int), int>
  {
    if s == [] then map[]
    else
      var m := ProfDayMap(s[..|s| - 1]);
      var e := s[|s| - 1];
      m[(e.prof, e.day) := Lookup(m, (e.prof, e.day)) + 1]
  }

  /** The `prof_total` dictionary a log determines: one increment per exam. */
  function ProfTotalMap(s: seq<Exam>): map<Id, int>
  {
    if s == [] then map[]
    else
      var m := ProfTotalMap(s[..|s| - 1]);
      var e := s[|s| - 1];
      m[e.prof := Lookup(m, e.prof) + 1]
  }

  /** `student_day` marks exactly the (group, day) pairs of the log, each with 1. */
  lemma {:induction false} StudentDayMapMarks(s: seq<Exam>)
    ensures StudentDayMap(s).Keys == GroupDays(s)
    ensures forall k :: k in StudentDayMap(s) ==> StudentDayMap(s)[k] == 1
  {
    if s != [] {
      StudentDayMapMarks(s[..|s| - 1]);
    }
  }

  /** `prof_day` reads, for every examiner and day, the number of the log's exams there. */
  lemma {:induction false} ProfDayMapCounts(s: seq<Exam>, p: Id, d: int)
    ensures Lookup(ProfDayMap(s), (p, d)) == ProfDayCount(s, p, d)
  {
    if s != [] {
      ProfDayMapCounts(s[..|s| - 1], p, d);
    }
  }

  /** `prof_total` reads, for every examiner, the number of the log's exams held. */
  lemma {:induction false} ProfTotalMapCounts(s: seq<Exam>, p: Id)
    ensures Lookup(ProfTotalMap(s), p) == ProfCount(s, p)
  {
    if s != [] {
      ProfTotalMapCounts(s[..|s| - 1], p);
    }
  }

  /** The engine's dictionaries are those the log of committed exams determines. */
  ghost predicate CountersMatch(studentDay: map<(Id, int), int>, profDay: map<(Id, int), int>,
                                profTotal: map<Id, int>, roomUsage: set<Usage>, s: seq<Exam>)
  {
    && studentDay == StudentDayMap(s)
    && profDay == ProfDayMap(s)
    && profTotal == ProfTotalMap(s)
    && roomUsage == RecordsOf(s)
  }

  /** Recording an exam the way the engine does keeps the dictionaries in step with the log. */
  lemma CommitKeepsCounters(studentDay: map<(Id, int), int>, profDay: map<(Id, int), int>,
                            profTotal: map<Id, int>, roomUsage: set<Usage>, s: seq<Exam>, e: Exam)
    requires CountersMatch(studentDay, profDay, profTotal, roomUsage, s)
    ensures CountersMatch(studentDay[(e.group, e.day) := 1],
                          profDay[(e.prof, e.day) := Lookup(profDay, (e.prof, e.day)) + 1],
                          profTotal[e.prof := Lookup(profTotal, e.prof) + 1],
                          roomUsage + {Occupancy(e)}, s + [e])
  {
    assert (s + [e])[..|s|] == s;
  }

  // ---------------------------------------------------------------------------------
  // The hard constraints

  /** I1: no group sits two exams on the same day. */
  ghost predicate OneExamPerGroupDay(s: seq<Exam>)
  {
    forall i, j :: 0 <= i < j < |s| ==> s[i].group != s[j].group || s[i].day != s[j].day
  }

  /** I2: no examiner holds more than PROF_DAILY_CAP exams on one day. */
  ghost predicate ProfCapRespected(s: seq<Exam>)
  {
    forall p, d :: ProfDayCount(s, p, d) <= PROF_DAILY_CAP
  }

  /** I3: a "Salle" hosts at most one exam per (day, slot). */
  ghost predicate SalleExclusive(s: seq<Exam>)
  {
    forall i, j :: 0 <= i < j < |s| ==> !SameSalleSlot(s[i], s[j])
  }

  /** Two exams in the same "Salle" at the same (day, slot). */
  predicate SameSalleSlot(a: Exam, b: Exam)
  {
    a.room.kind == Salle && b.room.kind == Salle && a.room.id == b.room.id && a.day == b.day && a.slot == b.slot
  }

  /** Two exams in the same "Amphi" at the same (day, slot). */
  predicate SameHallSlot(a: Exam, b: Exam)
  {
    a.room.kind == Amphi && b.room.kind == Amphi && a.room.id == b.room.id && a.day == b.day && a.slot == b.slot
  }

  /** I4: an "Amphi" hosts at most HALL_CAP exams per (day, slot), held by distinct groups. */
  ghost predicate HallShared(s: seq<Exam>)
  {
    && (forall i, j :: 0 <= i < j < |s| && SameHallSlot(s[i], s[j]) ==> s[i].group != s[j].group)
    && (forall i, j, k :: 0 <= i < j < k < |s| ==> !(SameHallSlot(s[i], s[j]) && SameHallSlot(s[j], s[k])))
  }

  /** I5: a "Salle" seats the whole group. */
  ghost predicate SalleSeatsGroup(s: seq<Exam>, groupSize: map<Id, int>)
  {
    forall i :: 0 <= i < |s| && s[i].room.kind == Salle ==> Lookup(groupSize, s[i].group) <= s[i].room.capacity
  }

  /** Every exam uses catalogue examiners, rooms and slots, a day of the window and the fixed duration. */
  ghost predicate FromCatalog(s: seq<Exam>, profs: seq<Id>, salles: seq<Room>, creneaux: seq<Id>)
  {
    forall i :: 0 <= i < |s| ==>
      && s[i].prof in profs && s[i].room in salles && s[i].slot in creneaux
      && 0 <= s[i].day < NB_DAYS && s[i].duration == DUREE
  }

  ghost predicate Admissible(s: seq<Exam>, profs: seq<Id>, salles: seq<Room>, creneaux: seq<Id>, groupSize: map<Id, int>)
  {
    && FromCatalog(s, profs, salles, creneaux)
    && OneExamPerGroupDay(s)
    && ProfCapRespected(s)
    && SalleExclusive(s)
    && HallShared(s)
    && SalleSeatsGroup(s, groupSize)
  }

  /** What the engine checks before committing `e` on top of the exams `s`: the group is free
      that day, the examiner under the daily cap, the room eligible, all drawn from the catalogue. */
  ghost predicate Committable(s: seq<Exam>, e: Exam, profs: seq<Id>, salles: seq<Room>, creneaux: seq<Id>, groupSize: map<Id, int>)
  {
    && (e.group, e.day) !in GroupDays(s)
    && ProfDayCount(s, e.prof, e.day) < PROF_DAILY_CAP
    && RoomEligible(e.room, Lookup(groupSize, e.group), RecordsOf(s), e.day, e.slot)
    && e.prof in profs && e.room in salles && e.slot in creneaux
    && 0 <= e.day < NB_DAYS && e.duration == DUREE
  }

  lemma CommitKeepsGroupDays(s: seq<Exam>, e: Exam)
    requires OneExamPerGroupDay(s)
    requires (e.group, e.day) !in GroupDays(s)
    ensures OneExamPerGroupDay(s + [e])
  {
    GroupDaysMembers(s);
    var t := s + [e];
    forall i, j | 0 <= i < j < |t| ensures t[i].group != t[j].group || t[i].day != t[j].day {
      if j == |s| {
        assert t[i] == s[i];
      } else {
        assert t[i] == s[i] && t[j] == s[j];
      }
    }
  }

  lemma CommitKeepsProfCap(s: seq<Exam>, e: Exam)
    requires ProfCapRespected(s)
    requires ProfDayCount(s, e.prof, e.day) < PROF_DAILY_CAP
    ensures ProfCapRespected(s + [e])
  {
    forall p, d ensures ProfDayCount(s + [e], p, d) <= PROF_DAILY_CAP {
      ProfDayCountAppend(s, e, p, d);
    }
  }

  lemma CommitKeepsSalleExclusive(s: seq<Exam>, e: Exam, size: int)
    requires SalleExclusive(s)
    requires RoomEligible(e.room, size, RecordsOf(s), e.day, e.slot)
    ensures SalleExclusive(s + [e])
  {
    RecordsOfMembers(s);
    var t := s + [e];
    forall i, j | 0 <= i < j < |t| ensures !SameSalleSlot(t[i], t[j]) {
      if j == |s| {
        assert t[i] == s[i] && t[j] == e;
        assert Occupancy(s[i]) in RecordsOf(s);
      } else {
        assert t[i] == s[i] && t[j] == s[j];
      }
    }
  }

  /** Two hall exams already in a hall slot fill it: a third one is not eligible. */
  lemma FullHallRejects(s: seq<Exam>, i: int, j: int, e: Exam, size: int)
    requires 0 <= i < j < |s|
    requires SameHallSlot(s[i], s[j]) && SameHallSlot(s[j], e)
    requires s[i].group != s[j].group
    ensures !RoomEligible(e.room, size, RecordsOf(s), e.day, e.slot)
  {
    var a, b := Occupancy(s[i]), Occupancy(s[j]);
    RecordsOfMembers(s);
    assert a in RecordsOf(s) && b in RecordsOf(s);
    var occ := HallOccupants(RecordsOf(s), e.room.id, e.day, e.slot);
    assert a in occ && b in occ && a != b;
    var rest := occ - {a};
    assert b in rest;
    assert occ == rest + {a};
  }

  lemma CommitKeepsHallShared(s: seq<Exam>, e: Exam, size: int)
    requires HallShared(s) && OneExamPerGroupDay(s + [e])
    requires RoomEligible(e.room, size, RecordsOf(s), e.day, e.slot)
    ensures HallShared(s + [e])
  {
    var t := s + [e];
    forall i, j | 0 <= i < j < |t| && SameHallSlot(t[i], t[j]) ensures t[i].group != t[j].group {
    }
    forall i, j, k | 0 <= i < j < k < |t| ensures !(SameHallSlot(t[i], t[j]) && SameHallSlot(t[j], t[k])) {
      assert t[i] == s[i] && t[j] == s[j];
      if k == |s| {
        assert t[k] == e;
        if SameHallSlot(s[i], s[j]) && SameHallSlot(s[j], e) {
          assert t[i].group != t[j].group;
          FullHallRejects(s, i, j, e, size);
        }
      } else {
        assert t[k] == s[k];
      }
    }
  }

  lemma CommitKeepsFromCatalog(s: seq<Exam>, e: Exam, profs: seq<Id>, salles: seq<Room>, creneaux: seq<Id>)
    requires FromCatalog(s, profs, salles, creneaux)
    requires e.prof in profs && e.room in salles && e.slot in creneaux && 0 <= e.day < NB_DAYS && e.duration == DUREE
    ensures FromCatalog(s + [e], profs, salles, creneaux)
  {
    var t := s + [e];
    forall i | 0 <= i < |t|
      ensures t[i].prof in profs && t[i].room in salles && t[i].slot in creneaux
      ensures 0 <= t[i].day < NB_DAYS && t[i].duration == DUREE
    {
      if i < |s| { assert t[i] == s[i]; }
    }
  }

  lemma CommitKeepsSalleSeatsGroup(s: seq<Exam>, e: Exam, groupSize: map<Id, int>)
    requires SalleSeatsGroup(s, groupSize)
    requires RoomEligible(e.room, Lookup(groupSize, e.group), RecordsOf(s), e.day, e.slot)
    ensures SalleSeatsGroup(s + [e], groupSize)
  {
    var t := s + [e];
    forall i | 0 <= i < |t| && t[i].room.kind == Salle ensures Lookup(groupSize, t[i].group) <= t[i].room.capacity {
      if i < |s| { assert t[i] == s[i]; }
    }
  }

  /** Committing an exam that passes the engine's checks keeps every hard constraint. */
  lemma CommitKeepsAdmissible(s: seq<Exam>, e: Exam, profs: seq<Id>, salles: seq<Room>, creneaux: seq<Id>, groupSize: map<Id, int>)
    requires Admissible(s, profs, salles, creneaux, groupSize)
    requires Committable(s, e, profs, salles, creneaux, groupSize)
    ensures Admissible(s + [e], profs, salles, creneaux, groupSize)
  {
    var size := Lookup(groupSize, e.group);
    CommitKeepsFromCatalog(s, e, profs, salles, creneaux);
    CommitKeepsGroupDays(s, e);
    CommitKeepsProfCap(s, e);
    CommitKeepsSalleExclusive(s, e, size);
    CommitKeepsHallShared(s, e, size);
    CommitKeepsSalleSeatsGroup(s, e, groupSize);
  }

  /** The log was built the engine's way: every exam was committable on top of the exams
      recorded before it. */
  ghost predicate CommittedInOrder(s: seq<Exam>, profs: seq<Id>, salles: seq<Room>, creneaux: seq<Id>, groupSize: map<Id, int>)
  {
    s == [] ||
    (CommittedInOrder(s[..|s| - 1], profs, salles, creneaux, groupSize)
     && Committable(s[..|s| - 1], s[|s| - 1], profs, salles, creneaux, groupSize))
  }

  /** Committing one more committable exam keeps the log built the engine's way. */
  lemma CommitExtendsLog(s: seq<Exam>, e: Exam, profs: seq<Id>, salles: seq<Room>, creneaux: seq<Id>, groupSize: map<Id, int>)
    requires CommittedInOrder(s, profs, salles, creneaux, groupSize)
    requires Committable(s, e, profs, salles, creneaux, groupSize)
    ensures CommittedInOrder(s + [e], profs, salles, creneaux, groupSize)
  {
    assert (s + [e])[..|s|] == s;
  }

  /** A log built the engine's way keeps every hard constraint. */
  lemma {:induction false} CommittedInOrderIsAdmissible(s: seq<Exam>, profs: seq<Id>, salles: seq<Room>, creneaux: seq<Id>, groupSize: map<Id, int>)
    requires CommittedInOrder(s, profs, salles, creneaux, groupSize)
    ensures Admissible(s, profs, salles, creneaux, groupSize)
  {
    if s != [] {
      var init := s[..|s| - 1];
      CommittedInOrderIsAdmissible(init, profs, salles, creneaux, groupSize);
      CommitKeepsAdmissible(init, s[|s| - 1], profs, salles, creneaux, groupSize);
      assert init + [s[|s| - 1]] == s;
    }
  }

  // ---------------------------------------------------------------------------------
  // Audits

  /** The dashboard's group audit: rows whose (group, day) repeats an earlier row. */
  function GroupDayRepeats(s: seq<Exam>): nat
  {
    if s == [] then 0
    else
      var init := s[..|s| - 1];
      GroupDayRepeats(init) + (if (s[|s| - 1].group, s[|s| - 1].day) in GroupDays(init) then 1 else 0)
  }

  /** The audit finds no repeat exactly when no group sits two exams on one day. */
  lemma {:induction false} NoRepeatsIffOneExamPerGroupDay(s: seq<Exam>)
    ensures GroupDayRepeats(s) == 0 <==> OneExamPerGroupDay(s)
  {
    if s != [] {
      var init := s[..|s| - 1];
      var last := s[|s| - 1];
      NoRepeatsIffOneExamPerGroupDay(init);
      assert s == init + [last];
      if OneExamPerGroupDay(s) {
        assert OneExamPerGroupDay(init) by {
          forall i, j | 0 <= i < j < |init| ensures init[i].group != init[j].group || init[i].day != init[j].day {
            assert init[i] == s[i] && init[j] == s[j];
          }
        }
        forall i | 0 <= i < |init| ensures (init[i].group, init[i].day) != (last.group, last.day) {
          assert s[i] == init[i] && s[|s| - 1] == last;
        }
        GroupDaysMembers(init);
      }
      if GroupDayRepeats(s) == 0 {
        CommitKeepsGroupDays(init, last);
      }
    }
  }

  /** `detect_conflicts`: how many group-day entries hold a value above 1, and the examiners
      with some day count above PROF_DAILY_CAP. */
  function ConflictCounts(studentDay: map<(Id, int), int>, profDay: map<(Id, int), int>): (r: (nat, set<Id>))
    ensures r.0 == 0 <==> forall k :: k in studentDay ==> studentDay[k] <= 1
    ensures forall p :: p in r.1 <==> exists d :: (p, d) in profDay && profDay[(p, d)] > PROF_DAILY_CAP
  {
    var over := set k | k in studentDay && studentDay[k] > 1;
    var busy := set k | k in profDay && profDay[k] > PROF_DAILY_CAP :: k.0;
    assert forall k :: k in studentDay && studentDay[k] > 1 ==> k in over;
    assert forall p, d :: (p, d) in profDay && profDay[(p, d)] > PROF_DAILY_CAP ==> p in busy;
    forall p | p in busy ensures exists d :: (p, d) in profDay && profDay[(p, d)] > PROF_DAILY_CAP {
      var k :| k in profDay && profDay[k] > PROF_DAILY_CAP && k.0 == p;
      var d := k.1;
      assert k == (p, d);
      assert (p, d) in profDay && profDay[(p, d)] > PROF_DAILY_CAP;
    }
    (|over|, busy)
  }

  /** When the counters are those of an admissible schedule, the audit reports nothing. */
  lemma NoConflictsFound(s: seq<Exam>)
    requires ProfCapRespected(s)
    ensures ConflictCounts(StudentDayMap(s), ProfDayMap(s)) == (0, {})
  {
    var studentDay, profDay := StudentDayMap(s), ProfDayMap(s);
    StudentDayMapMarks(s);
    forall p, d ensures Lookup(profDay, (p, d)) <= PROF_DAILY_CAP {
      ProfDayMapCounts(s, p, d);
    }
    var r := ConflictCounts(studentDay, profDay);
    assert forall p :: p !in r.1;
    assert r.0 == 0 && r.1 == {};
  }
}
