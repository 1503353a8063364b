/** The greedy placement engine: walks the groups, the modules of each group's formation,
    the days of the window and a shuffled order of the slots, and commits the first room and
    the first examiner found for each (group, module) pair, or reports the pair unplaced. */
module Scheduler {
  import opened Catalog
  import opened ProfSelection
  import opened RoomSelection
  import opened Ledger

  /** One step of the walk. `Pairing(g, m)` is a (group, module) pair to place; in the
      unplaced report it stands for the (group name, module name) entry. `NoModule(g)` is a group
      whose formation has no module; it stands for the (group name, "aucun module") entry. */
  datatype Item = Pairing(group: Id, moduleId: Id) | NoModule(group: Id)

  datatype Option<T> = None | Some(value: T)

  function ModuleItems(g: Group, ms: seq<Module>): (r: seq<Item>)
    ensures |r| == |ms|
  {
    if ms == [] then [] else ModuleItems(g, ms[..|ms| - 1]) + [Pairing(g.id, ms[|ms| - 1].id)]
  }

  /** The `i`-th step for a group's modules is the pair of the group and the `i`-th module. */
  lemma {:induction false} ModuleItemsAt(g: Group, ms: seq<Module>)
    ensures forall i :: 0 <= i < |ms| ==> ModuleItems(g, ms)[i] == Pairing(g.id, ms[i].id)
  {
    if ms != [] {
      var n := |ms| - 1;
      ModuleItemsAt(g, ms[..n]);
      forall i | 0 <= i < |ms| ensures ModuleItems(g, ms)[i] == Pairing(g.id, ms[i].id) {
        if i < n { assert ms[..n][i] == ms[i]; }
      }
    }
  }

  /** The steps the walk takes for group `g`. */
  function GroupItems(g: Group, modules: seq<Module>): seq<Item>
  {
    var ms := GroupModules(modules, g);
    if ms == [] then [NoModule(g.id)] else ModuleItems(g, ms)
  }

  /** The steps of the whole walk: groups in catalogue order, each with its steps. */
  function Items(groupes: seq<Group>, modules: seq<Module>): seq<Item>
  {
    if groupes == [] then []
    else Items(groupes[..|groupes| - 1], modules) + GroupItems(groupes[|groupes| - 1], modules)
  }

  /** The steps whose outcome flag is false, in order: the unplaced report. */
  function Unplaced(items: seq<Item>, placed: seq<bool>): seq<Item>
    requires |items| == |placed|
  {
    if items == [] then []
    else
      var n := |items| - 1;
      Unplaced(items[..n], placed[..n]) + (if placed[n] then [] else [items[n]])
  }

  /** The steps whose outcome flag is true, in order. */
  function PlacedItems(items: seq<Item>, placed: seq<bool>): seq<Item>
    requires |items| == |placed|
  {
    if items == [] then []
    else
      var n := |items| - 1;
      PlacedItems(items[..n], placed[..n]) + (if placed[n] then [items[n]] else [])
  }

  /** The (group, module) pair of each exam. */
  function PairsOf(es: seq<Exam>): (r: seq<Item>)
    ensures |r| == |es|
  {
    if es == [] then [] else PairsOf(es[..|es| - 1]) + [Pairing(es[|es| - 1].group, es[|es| - 1].moduleId)]
  }

  lemma {:induction false} PairsOfConcat(a: seq<Exam>, b: seq<Exam>)
    ensures PairsOf(a + b) == PairsOf(a) + PairsOf(b)
  {
    if b != [] {
      var n := |b| - 1;
      assert (a + b)[..|a + b| - 1] == a + b[..n];
      PairsOfConcat(a, b[..n]);
    } else {
      assert a + b == a;
    }
  }

  lemma {:induction false} OutcomesConcat(a: seq<Item>, fa: seq<bool>, b: seq<Item>, fb: seq<bool>)
    requires |a| == |fa| && |b| == |fb|
    ensures Unplaced(a + b, fa + fb) == Unplaced(a, fa) + Unplaced(b, fb)
    ensures PlacedItems(a + b, fa + fb) == PlacedItems(a, fa) + PlacedItems(b, fb)
  {
    if b != [] {
      var n := |b| - 1;
      assert (a + b)[..|a + b| - 1] == a + b[..n];
      assert (fa + fb)[..|fa + fb| - 1] == fa + fb[..n];
      OutcomesConcat(a, fa, b[..n], fb[..n]);
    } else {
      assert a + b == a && fa + fb == fa;
    }
  }

  /** The last step of the walk goes to exactly one of the two lists. */
  lemma {:induction false} OutcomesLast(items: seq<Item>, placed: seq<bool>)
    requires |items| == |placed| && items != []
    ensures var n := |items| - 1;
      && PlacedItems(items, placed) == PlacedItems(items[..n], placed[..n]) + (if placed[n] then [items[n]] else [])
      && Unplaced(items, placed) == Unplaced(items[..n], placed[..n]) + (if placed[n] then [] else [items[n]])
      && multiset(items) == multiset(items[..n]) + multiset{items[n]}
  {
    var n := |items| - 1;
    assert items == items[..n] + [items[n]];
  }

  /** Each step of the walk lands in exactly one of the two outcome lists: the placed steps
      and the unplaced report together are the walk, counted with multiplicity. */
  lemma {:induction false} EveryItemAccountedOnce(items: seq<Item>, placed: seq<bool>)
    requires |items| == |placed|
    ensures |PlacedItems(items, placed)| + |Unplaced(items, placed)| == |items|
    ensures multiset(PlacedItems(items, placed)) + multiset(Unplaced(items, placed)) == multiset(items)
  {
    if items != [] {
      var n := |items| - 1;
      EveryItemAccountedOnce(items[..n], placed[..n]);
      OutcomesLast(items, placed);
    }
  }

  /** The steps of one group: a pair per module of its formation, or the no-module step. */
  lemma GroupItemsCover(g: Group, modules: seq<Module>)
    ensures forall m :: m in modules && m.formation == g.formation ==> Pairing(g.id, m.id) in GroupItems(g, modules)
    ensures NoModule(g.id) in GroupItems(g, modules) <==> GroupModules(modules, g) == []
    ensures forall x :: x in GroupItems(g, modules) ==> x.group == g.id
    ensures forall x :: x in GroupItems(g, modules) && x.Pairing? ==>
                        exists m :: m in modules && m.formation == g.formation && m.id == x.moduleId
  {
    var ms := GroupModules(modules, g);
    var gi := GroupItems(g, modules);
    GroupModulesMembers(modules, g);
    ModuleItemsAt(g, ms);
    forall m | m in modules && m.formation == g.formation ensures Pairing(g.id, m.id) in gi {
      var k :| 0 <= k < |ms| && ms[k] == m;
      assert gi[k] == Pairing(g.id, m.id);
    }
    forall x | x in gi ensures x.group == g.id && (x.Pairing? ==> exists m :: m in ms && m.id == x.moduleId) {
      var k :| 0 <= k < |gi| && gi[k] == x;
      if ms != [] {
        assert ms[k] in ms;
      }
    }
  }

  /** The walk holds a pair for every catalogue group and every module of its formation, and
      a no-module step for every catalogue group whose formation has none. */
  lemma {:induction false} ItemsComplete(groupes: seq<Group>, modules: seq<Module>, g: Group, m: Module)
    requires g in groupes
    ensures m in modules && m.formation == g.formation ==> Pairing(g.id, m.id) in Items(groupes, modules)
    ensures GroupModules(modules, g) == [] ==> NoModule(g.id) in Items(groupes, modules)
  {
    var n := |groupes| - 1;
    var init, last := groupes[..n], groupes[n];
    assert Items(groupes, modules) == Items(init, modules) + GroupItems(last, modules);
    if g == last {
      GroupItemsCover(g, modules);
    } else {
      var i :| 0 <= i < |groupes| && groupes[i] == g;
      assert init[i] == g;
      ItemsComplete(init, modules, g, m);
    }
  }

  /** Every step of the walk is a pair of a group and a module of its formation, or the
      no-module step of a group whose formation has none. */
  lemma {:induction false} ItemsSound(groupes: seq<Group>, modules: seq<Module>)
    ensures forall x :: x in Items(groupes, modules) && x.NoModule? ==>
                        exists g :: g in groupes && g.id == x.group && GroupModules(modules, g) == []
    ensures forall x :: x in Items(groupes, modules) && x.Pairing? ==>
                        exists g, m :: g in groupes && m in modules && m.formation == g.formation
                                       && g.id == x.group && m.id == x.moduleId
  {
    if groupes != [] {
      var n := |groupes| - 1;
      var init, last := groupes[..n], groupes[n];
      ItemsSound(init, modules);
      GroupItemsCover(last, modules);
      var all := Items(groupes, modules);
      assert all == Items(init, modules) + GroupItems(last, modules);
      forall x | x in all
        ensures x.NoModule? ==> exists g :: g in groupes && g.id == x.group && GroupModules(modules, g) == []
        ensures x.Pairing? ==> exists g, m :: g in groupes && m in modules && m.formation == g.formation
                                              && g.id == x.group && m.id == x.moduleId
      {
        assert forall g :: g in init ==> g in groupes;
        if x !in Items(init, modules) {
          assert x in GroupItems(last, modules);
          assert last in groupes;
        }
      }
    }
  }

  /** A module identity no module of `ms` carries gives no step of the group's module walk. */
  lemma ModuleItemsAbsent(g: Group, ms: seq<Module>, mid: Id)
    requires forall k :: 0 <= k < |ms| ==> ms[k].id != mid
    ensures multiset(ModuleItems(g, ms))[Pairing(g.id, mid)] == 0
  {
    ModuleItemsAt(g, ms);
    var it := ModuleItems(g, ms);
    assert forall k :: 0 <= k < |it| ==> it[k] != Pairing(g.id, mid);
  }

  /** With distinct module identities, a module of the list gives exactly one step. */
  lemma {:induction false} ModuleItemsOnce(g: Group, ms: seq<Module>, m: Module)
    requires DistinctModuleIds(ms) && m in ms
    ensures multiset(ModuleItems(g, ms))[Pairing(g.id, m.id)] == 1
  {
    var n := |ms| - 1;
    var init, last := ms[..n], ms[n];
    assert ModuleItems(g, ms) == ModuleItems(g, init) + [Pairing(g.id, last.id)];
    assert forall k :: 0 <= k < n ==> init[k] == ms[k];
    if last.id == m.id {
      ModuleItemsAbsent(g, init, m.id);
    } else {
      var k :| 0 <= k < |ms| && ms[k] == m;
      assert init[k] == m;
      ModuleItemsOnce(g, init, m);
    }
  }

  /** A step of another group's identity is absent from a group's steps. */
  lemma GroupItemsAbsent(g: Group, modules: seq<Module>, x: Item)
    requires x.group != g.id
    ensures multiset(GroupItems(g, modules))[x] == 0
  {
    GroupItemsCover(g, modules);
    assert x !in GroupItems(g, modules);
  }

  /** A step's count in the walk is its count before the last group plus its count among the
      last group's steps. */
  lemma ItemsSplit(groupes: seq<Group>, modules: seq<Module>, x: Item)
    requires groupes != []
    ensures multiset(Items(groupes, modules))[x] ==
              multiset(Items(groupes[..|groupes| - 1], modules))[x] + multiset(GroupItems(groupes[|groupes| - 1], modules))[x]
  {
    var n := |groupes| - 1;
    assert Items(groupes, modules) == Items(groupes[..n], modules) + GroupItems(groupes[n], modules);
  }

  /** The steps of a group carry that group's identity, so a step of another identity is
      absent from them. */
  lemma {:induction false} ItemsAbsent(groupes: seq<Group>, modules: seq<Module>, x: Item)
    requires forall k :: 0 <= k < |groupes| ==> groupes[k].id != x.group
    ensures multiset(Items(groupes, modules))[x] == 0
  {
    if groupes != [] {
      var n := |groupes| - 1;
      var init, last := groupes[..n], groupes[n];
      assert forall k :: 0 <= k < n ==> init[k] == groupes[k];
      ItemsAbsent(init, modules, x);
      GroupItemsAbsent(last, modules, x);
      ItemsSplit(groupes, modules, x);
    }
  }

  /** With distinct module identities, each module of a group's formation gives exactly one
      step of that group, and a group whose formation has no module has one no-module step. */
  lemma GroupItemsOnce(g: Group, modules: seq<Module>, m: Module)
    requires DistinctModuleIds(modules)
    ensures m in modules && m.formation == g.formation ==> multiset(GroupItems(g, modules))[Pairing(g.id, m.id)] == 1
    ensures GroupModules(modules, g) == [] ==> multiset(GroupItems(g, modules))[NoModule(g.id)] == 1
  {
    var ms := GroupModules(modules, g);
    GroupModulesMembers(modules, g);
    if ms == [] {
      assert GroupItems(g, modules) == [NoModule(g.id)];
    } else if m in modules && m.formation == g.formation {
      GroupModulesDistinct(modules, g);
      ModuleItemsOnce(g, ms, m);
    }
  }

  /** With distinct identities, every catalogue (group, module) pair, and the no-module step of
      every group whose formation has no module, occurs exactly once in the walk. */
  lemma {:induction false} ItemsOnce(groupes: seq<Group>, modules: seq<Module>, g: Group, m: Module)
    requires DistinctGroupIds(groupes) && DistinctModuleIds(modules) && g in groupes
    ensures m in modules && m.formation == g.formation ==> multiset(Items(groupes, modules))[Pairing(g.id, m.id)] == 1
    ensures GroupModules(modules, g) == [] ==> multiset(Items(groupes, modules))[NoModule(g.id)] == 1
  {
    var n := |groupes| - 1;
    var init, last := groupes[..n], groupes[n];
    var i :| 0 <= i < |groupes| && groupes[i] == g;
    assert forall k :: 0 <= k < n ==> init[k] == groupes[k];
    ItemsSplit(groupes, modules, Pairing(g.id, m.id));
    ItemsSplit(groupes, modules, NoModule(g.id));
    if i == n {
      ItemsAbsent(init, modules, Pairing(g.id, m.id));
      ItemsAbsent(init, modules, NoModule(g.id));
      GroupItemsOnce(g, modules, m);
    } else {
      assert init[i] == g;
      ItemsOnce(init, modules, g, m);
      GroupItemsAbsent(last, modules, Pairing(g.id, m.id));
      GroupItemsAbsent(last, modules, NoModule(g.id));
    }
  }

  /** The pairs of committed exams are never no-module steps. */
  lemma {:induction false} PairsOfHasNoNoModule(es: seq<Exam>, gid: Id)
    ensures multiset(PairsOf(es))[NoModule(gid)] == 0
  {
    if es != [] {
      PairsOfHasNoNoModule(es[..|es| - 1], gid);
    }
  }

  /** With distinct identities, each catalogue step of the walk is either placed exactly once
      or reported unplaced exactly once, and a no-module step is always reported, once. */
  lemma EachStepReportedOnce(groupes: seq<Group>, modules: seq<Module>, placed: seq<bool>, g: Group, m: Module)
    requires DistinctGroupIds(groupes) && DistinctModuleIds(modules) && g in groupes
    requires |placed| == |Items(groupes, modules)|
    ensures m in modules && m.formation == g.formation ==>
              multiset(PlacedItems(Items(groupes, modules), placed))[Pairing(g.id, m.id)]
              + multiset(Unplaced(Items(groupes, modules), placed))[Pairing(g.id, m.id)] == 1
    ensures GroupModules(modules, g) == [] ==>
              multiset(PlacedItems(Items(groupes, modules), placed))[NoModule(g.id)]
              + multiset(Unplaced(Items(groupes, modules), placed))[NoModule(g.id)] == 1
  {
    EveryItemAccountedOnce(Items(groupes, modules), placed);
    ItemsOnce(groupes, modules, g, m);
  }

  /** A step rule: what a walk commits for step `x` on top of the log `log`, if anything. */
  type StepRule = (seq<Exam>, Item) -> Option<Exam>

  /** Every row `step` commits belongs to the step's own (group, module) pair. */
  ghost predicate OwnsPairs(step: StepRule)
  {
    forall log, x :: step(log, x).Some? ==> x == Pairing(step(log, x).value.group, step(log, x).value.moduleId)
  }

  /** The reference walk: the log and the outcome flags after taking `items` in order on top
      of `log`, each step committing what `step` gives on the log built so far. */
  ghost function Walk(log: seq<Exam>, items: seq<Item>, step: StepRule): (r: (seq<Exam>, seq<bool>))
    ensures |r.1| == |items|
  {
    if items == [] then (log, [])
    else
      var prev := Walk(log, items[..|items| - 1], step);
      match step(prev.0, items[|items| - 1])
      case Some(e) => (prev.0 + [e], prev.1 + [true])
      case None => (prev.0, prev.1 + [false])
  }

  /** Taking one more step extends the walk by that step's outcome. */
  lemma WalkAppend(log: seq<Exam>, items: seq<Item>, x: Item, before: seq<Exam>, flags: seq<bool>, after: seq<Exam>, ok: bool,
                   step: StepRule)
    requires (before, flags) == Walk(log, items, step)
    requires ok == step(before, x).Some?
    requires ok ==> after == before + [step(before, x).value]
    requires !ok ==> after == before
    ensures (after, flags + [ok]) == Walk(log, items + [x], step)
  {
    assert (items + [x])[..|items|] == items;
  }

  /** Walking `a` then `b` is walking `a + b`. */
  lemma {:induction false} WalkConcat(log: seq<Exam>, a: seq<Item>, b: seq<Item>, step: StepRule)
    ensures var wa := Walk(log, a, step);
            var wb := Walk(wa.0, b, step);
            Walk(log, a + b, step) == (wb.0, wa.1 + wb.1)
  {
    if b == [] {
      assert a + b == a;
      var wa := Walk(log, a, step);
      assert Walk(wa.0, b, step) == (wa.0, []);
      assert wa.1 + [] == wa.1;
    } else {
      var n := |b| - 1;
      assert (a + b)[..|a + b| - 1] == a + b[..n];
      assert (a + b)[|a + b| - 1] == b[n];
      WalkConcat(log, a, b[..n], step);
      var wa := Walk(log, a, step);
      var prev := Walk(wa.0, b[..n], step);
      var x := step(prev.0, b[n]);
      assert (wa.1 + prev.1) + [x.Some?] == wa.1 + (prev.1 + [x.Some?]);
    }
  }

  /** The walk only appends to the log, and what it appends is, pair by pair, exactly the
      placed steps in order. */
  lemma {:induction false} WalkLog(log: seq<Exam>, items: seq<Item>, step: StepRule)
    requires OwnsPairs(step)
    ensures var w := Walk(log, items, step);
            && |log| <= |w.0| && w.0[..|log|] == log
            && PairsOf(w.0[|log|..]) == PlacedItems(items, w.1)
            && |w.0| - |log| == |PlacedItems(items, w.1)|
  {
    if items != [] {
      var n := |items| - 1;
      var prev := Walk(log, items[..n], step);
      WalkLog(log, items[..n], step);
      var w := Walk(log, items, step);
      assert w.1[..n] == prev.1;
      OutcomesLast(items, w.1);
      match step(prev.0, items[n])
      case Some(e) =>
        assert items[n] == Pairing(e.group, e.moduleId);
        assert w.0[|log|..] == prev.0[|log|..] + [e];
        assert (prev.0[|log|..] + [e])[..|prev.0| - |log|] == prev.0[|log|..];
      case None =>
    }
  }

  /** The outcome flag of step `k` is whether `step` commits on the log before it. */
  lemma {:induction false} WalkStep(log: seq<Exam>, items: seq<Item>, k: int, step: StepRule)
    requires 0 <= k < |items|
    ensures Walk(log, items, step).1[k] == step(Walk(log, items[..k], step).0, items[k]).Some?
  {
    var n := |items| - 1;
    if k < n {
      WalkStep(log, items[..n], k, step);
      assert items[..n][..k] == items[..k];
    }
  }

  /** The row `generate_schedule_complete` builds for (`g`, `m`) at (`d`, `c`) from the first
      available room and the first available examiner keeps every hard constraint of the log
      the counters were built from; its examiner is a least-loaded one under the cap, and a
      "Salle" it takes seats the whole group. */
  lemma ChoiceCommittable(s: seq<Exam>, studentDay: map<(Id, int), int>, profDay: map<(Id, int), int>,
                          profTotal: map<Id, int>, roomUsage: set<Usage>,
                          profs: seq<Id>, salles: seq<Room>, creneaux: seq<Id>, groupSize: map<Id, int>,
                          g: Group, m: Module, d: int, c: Id)
    requires CountersMatch(studentDay, profDay, profTotal, roomUsage, s)
    requires (g.id, d) !in studentDay && 0 <= d < NB_DAYS && c in creneaux
    requires EligibleRooms(salles, Lookup(groupSize, g.id), roomUsage, d, c) != []
    requires AvailableProfs(profs, profDay, profTotal, d) != []
    ensures var e := Exam(m.id, g.id, AvailableProfs(profs, profDay, profTotal, d)[0],
                          EligibleRooms(salles, Lookup(groupSize, g.id), roomUsage, d, c)[0], d, c, DUREE);
      && Committable(s, e, profs, salles, creneaux, groupSize)
      && (forall p :: p in profs && Lookup(profDay, (p, d)) < PROF_DAILY_CAP ==>
                        Lookup(profTotal, e.prof) <= Lookup(profTotal, p))
      && (e.room.kind == Salle ==> Lookup(groupSize, g.id) <= e.room.capacity)
  {
    var size := Lookup(groupSize, g.id);
    var rooms := EligibleRooms(salles, size, roomUsage, d, c);
    var profsOk := AvailableProfs(profs, profDay, profTotal, d);
    AvailableProfsSpec(profs, profDay, profTotal, d);
    EligibleRoomsMembers(salles, size, roomUsage, d, c);
    assert profsOk[0] in profsOk && rooms[0] in rooms;
    StudentDayMapMarks(s);
    ProfDayMapCounts(s, profsOk[0], d);
  }

  /** The part of the engine's state the two selectors read: `prof_day`, `prof_total` and
      `room_usage`. */
  datatype Availability = Availability(profDay: map<(Id, int), int>, profTotal: map<Id, int>, roomUsage: set<Usage>)

  /** The availability state a log of committed exams determines. */
  function LogState(s: seq<Exam>): Availability
  {
    Availability(ProfDayMap(s), ProfTotalMap(s), RecordsOf(s))
  }

  /** The run-scoped availability state and the catalogue it is computed against. */
  class Engine {
    const groupes: seq<Group>
    const modules: seq<Module>
    const profs: seq<Id>
    /** The rooms, in the order the catalogue query returns them (capacity descending). */
    const salles: seq<Room>
    /** The eligible slots. */
    const creneaux: seq<Id>
    const groupSize: map<Id, int>

    /** (group, day) pairs that already carry an exam, each mapped to 1. */
    var studentDay: map<(Id, int), int>
    /** Exams per (examiner, day). */
    var profDay: map<(Id, int), int>
    /** Exams per examiner over the run. */
    var profTotal: map<Id, int>
    /** Occupancy records of the committed exams. */
    var roomUsage: set<Usage>
    /** The exams committed so far, in commit order. */
    ghost var exams: seq<Exam>

    /** The rooms come in capacity-descending order, the counters are exactly those of the
        committed exams, and those keep every hard constraint. */
    ghost predicate Valid()
      reads this
    {
      && ByCapacityDesc(salles)
      && CountersMatch(studentDay, profDay, profTotal, roomUsage, exams)
      && CommittedInOrder(exams, profs, salles, creneaux, groupSize)
    }

    /** Loads the catalogue: rooms as the query orders them, slots cut to the eligible prefix,
        group sizes counted from the membership rows, and an empty availability state. */
    constructor (groupes: seq<Group>, modules: seq<Module>, profs: seq<Id>, salles: seq<Room>,
                 slots: seq<Id>, memberships: seq<Id>)
      requires ByCapacityDesc(salles)
      ensures Valid()
      ensures this.groupes == groupes && this.modules == modules && this.profs == profs && this.salles == salles
      ensures creneaux == EligibleSlots(slots)
      ensures forall g :: Lookup(groupSize, g) == multiset(memberships)[g]
      ensures studentDay == map[] && profDay == map[] && profTotal == map[] && roomUsage == {} && exams == []
    {
      this.groupes := groupes;
      this.modules := modules;
      this.profs := profs;
      this.salles := salles;
      creneaux := EligibleSlots(slots);
      var sizes := CountGroupSizes(memberships);
      groupSize := sizes;
      studentDay := map[];
      profDay := map[];
      profTotal := map[];
      roomUsage := {};
      exams := [];
    }

    /** The state the selectors read, as a value. */
    function Snapshot(): Availability
      reads this
    {
      Availability(profDay, profTotal, roomUsage)
    }

    /** The rooms `available_rooms` returns for group `gid` at (`d`, `c`) in state `a`. */
    function RoomsFor(a: Availability, gid: Id, d: int, c: Id): seq<Room>
    {
      EligibleRooms(salles, Lookup(groupSize, gid), a.roomUsage, d, c)
    }

    /** The examiners `available_profs` returns for day `d` in state `a`. */
    function ProfsFor(a: Availability, d: int): seq<Id>
    {
      AvailableProfs(profs, a.profDay, a.profTotal, d)
    }

    /** The row the attempt at (`d`, `c`) builds for (`gid`, `mid`) in state `a`: the first
        offered examiner and the first offered room. */
    ghost function RowAt(a: Availability, gid: Id, mid: Id, d: int, c: Id): Exam
      requires RoomsFor(a, gid, d, c) != [] && ProfsFor(a, d) != []
    {
      Exam(mid, gid, ProfsFor(a, d)[0], RoomsFor(a, gid, d, c)[0], d, c, DUREE)
    }

    /** Whether the attempt at (`d`, `c`) for pair (`gid`, `mid`) commits in state `a`: some room,
        some examiner, and the INSERT of the chosen row succeeds. */
    ghost predicate FeasibleAt(a: Availability, gid: Id, mid: Id, d: int, c: Id, insertOk: Exam -> bool)
    {
      && RoomsFor(a, gid, d, c) != []
      && ProfsFor(a, d) != []
      && insertOk(RowAt(a, gid, mid, d, c))
    }

    /** The index in `order` of the first slot whose attempt commits in state `a`, or `|order|`
        when none does. */
    ghost function FirstSlot(a: Availability, gid: Id, mid: Id, d: int, order: seq<Id>, insertOk: Exam -> bool): nat
      decreases |order|
    {
      if order == [] then 0
      else if FeasibleAt(a, gid, mid, d, order[0], insertOk) then 0
      else 1 + FirstSlot(a, gid, mid, d, order[1..], insertOk)
    }

    /** `FirstSlot` is first-fit: every slot before it fails, and the slot at it commits. */
    lemma {:induction false} FirstSlotSpec(a: Availability, gid: Id, mid: Id, d: int, order: seq<Id>, insertOk: Exam -> bool)
      ensures FirstSlot(a, gid, mid, d, order, insertOk) <= |order|
      ensures forall j :: 0 <= j < FirstSlot(a, gid, mid, d, order, insertOk) ==> !FeasibleAt(a, gid, mid, d, order[j], insertOk)
      ensures FirstSlot(a, gid, mid, d, order, insertOk) < |order| ==>
                FeasibleAt(a, gid, mid, d, order[FirstSlot(a, gid, mid, d, order, insertOk)], insertOk)
    {
      if order != [] && !FeasibleAt(a, gid, mid, d, order[0], insertOk) {
        var rest := order[1..];
        FirstSlotSpec(a, gid, mid, d, rest, insertOk);
        forall j | 0 <= j < FirstSlot(a, gid, mid, d, order, insertOk)
          ensures !FeasibleAt(a, gid, mid, d, order[j], insertOk)
        {
          if j > 0 { assert order[j] == rest[j - 1]; }
        }
      }
    }

    /** A slot that commits, at or before the first-fit index, is at the first-fit index. */
    lemma FirstSlotAt(a: Availability, gid: Id, mid: Id, d: int, order: seq<Id>, insertOk: Exam -> bool, i: int)
      requires 0 <= i < |order| && i <= FirstSlot(a, gid, mid, d, order, insertOk)
      requires FeasibleAt(a, gid, mid, d, order[i], insertOk)
      ensures FirstSlot(a, gid, mid, d, order, insertOk) == i
    {
      FirstSlotSpec(a, gid, mid, d, order, insertOk);
    }

    /** A slot that fails, at or before the first-fit index, is before it. */
    lemma FirstSlotSkips(a: Availability, gid: Id, mid: Id, d: int, order: seq<Id>, insertOk: Exam -> bool, i: int)
      requires 0 <= i < |order| && i <= FirstSlot(a, gid, mid, d, order, insertOk)
      requires !FeasibleAt(a, gid, mid, d, order[i], insertOk)
      ensures i < FirstSlot(a, gid, mid, d, order, insertOk)
    {
      FirstSlotSpec(a, gid, mid, d, order, insertOk);
    }

    /** What the search on day `d` commits for (`gid`, `mid`) in state (`a`, `sd`): nothing on a
        day the group already sits an exam, otherwise the row of the first slot of the injected
        order whose attempt commits. */
    ghost function DayChoice(a: Availability, sd: map<(Id, int), int>, gid: Id, mid: Id, d: int,
                             shuffle: (Id, Id, int) -> seq<Id>, insertOk: Exam -> bool): Option<Exam>
    {
      var order := shuffle(gid, mid, d);
      var k := FirstSlot(a, gid, mid, d, order, insertOk);
      if (gid, d) in sd || k >= |order| then None
      else
        FirstSlotSpec(a, gid, mid, d, order, insertOk);
        Some(RowAt(a, gid, mid, d, order[k]))
    }

    /** One day's search commits exactly when the group is free that day and some eligible
        slot's attempt commits; it commits the row of the first such slot of the injected order. */
    lemma DayChoiceSpec(a: Availability, sd: map<(Id, int), int>, gid: Id, mid: Id, d: int,
                        shuffle: (Id, Id, int) -> seq<Id>, insertOk: Exam -> bool)
      requires multiset(shuffle(gid, mid, d)) == multiset(creneaux)
      ensures DayChoice(a, sd, gid, mid, d, shuffle, insertOk).Some? <==>
                (gid, d) !in sd && exists c :: c in creneaux && FeasibleAt(a, gid, mid, d, c, insertOk)
      ensures DayChoice(a, sd, gid, mid, d, shuffle, insertOk).Some? ==>
                var order := shuffle(gid, mid, d);
                var k := FirstSlot(a, gid, mid, d, order, insertOk);
                && k < |order|
                && FeasibleAt(a, gid, mid, d, order[k], insertOk)
                && (forall j :: 0 <= j < k ==> !FeasibleAt(a, gid, mid, d, order[j], insertOk))
                && DayChoice(a, sd, gid, mid, d, shuffle, insertOk).value == RowAt(a, gid, mid, d, order[k])
    {
      var order := shuffle(gid, mid, d);
      FirstSlotSpec(a, gid, mid, d, order, insertOk);
      var k := FirstSlot(a, gid, mid, d, order, insertOk);
      if k < |order| {
        assert order[k] in multiset(creneaux) by { assert order[k] in multiset(order); }
      } else {
        forall c | c in creneaux ensures !FeasibleAt(a, gid, mid, d, c, insertOk) {
          assert c in multiset(order);
          var j :| 0 <= j < |order| && order[j] == c;
        }
      }
    }

    /** The first day from `from` on whose search commits, or NB_DAYS when none does. */
    ghost function FirstDay(a: Availability, sd: map<(Id, int), int>, gid: Id, mid: Id,
                            shuffle: (Id, Id, int) -> seq<Id>, insertOk: Exam -> bool, from: int): int
      requires 0 <= from <= NB_DAYS
      decreases NB_DAYS - from
    {
      if from == NB_DAYS then NB_DAYS
      else if DayChoice(a, sd, gid, mid, from, shuffle, insertOk).Some? then from
      else FirstDay(a, sd, gid, mid, shuffle, insertOk, from + 1)
    }

    /** `FirstDay` is first-fit over the days: every day before it commits nothing, and the day
        at it commits. */
    lemma {:induction false} FirstDaySpec(a: Availability, sd: map<(Id, int), int>, gid: Id, mid: Id,
                                          shuffle: (Id, Id, int) -> seq<Id>, insertOk: Exam -> bool, from: int)
      requires 0 <= from <= NB_DAYS
      decreases NB_DAYS - from
      ensures from <= FirstDay(a, sd, gid, mid, shuffle, insertOk, from) <= NB_DAYS
      ensures forall dd :: from <= dd < FirstDay(a, sd, gid, mid, shuffle, insertOk, from) ==>
                DayChoice(a, sd, gid, mid, dd, shuffle, insertOk).None?
      ensures FirstDay(a, sd, gid, mid, shuffle, insertOk, from) < NB_DAYS ==>
                DayChoice(a, sd, gid, mid, FirstDay(a, sd, gid, mid, shuffle, insertOk, from), shuffle, insertOk).Some?
    {
      if from < NB_DAYS && DayChoice(a, sd, gid, mid, from, shuffle, insertOk).None? {
        FirstDaySpec(a, sd, gid, mid, shuffle, insertOk, from + 1);
      }
    }

    /** A day that commits, at or before the first-fit day, is the first-fit day. */
    lemma FirstDayAt(a: Availability, sd: map<(Id, int), int>, gid: Id, mid: Id,
                     shuffle: (Id, Id, int) -> seq<Id>, insertOk: Exam -> bool, d: int)
      requires 0 <= d < NB_DAYS && d <= FirstDay(a, sd, gid, mid, shuffle, insertOk, 0)
      requires DayChoice(a, sd, gid, mid, d, shuffle, insertOk).Some?
      ensures FirstDay(a, sd, gid, mid, shuffle, insertOk, 0) == d
    {
      FirstDaySpec(a, sd, gid, mid, shuffle, insertOk, 0);
    }

    /** A day that commits nothing, at or before the first-fit day, is before it. */
    lemma FirstDaySkips(a: Availability, sd: map<(Id, int), int>, gid: Id, mid: Id,
                        shuffle: (Id, Id, int) -> seq<Id>, insertOk: Exam -> bool, d: int)
      requires 0 <= d < NB_DAYS && d <= FirstDay(a, sd, gid, mid, shuffle, insertOk, 0)
      requires DayChoice(a, sd, gid, mid, d, shuffle, insertOk).None?
      ensures d < FirstDay(a, sd, gid, mid, shuffle, insertOk, 0)
    {
      FirstDaySpec(a, sd, gid, mid, shuffle, insertOk, 0);
    }

    /** What the search for (`gid`, `mid`) commits in state (`a`, `sd`): the row the first day
        whose search commits chooses, or nothing. */
    ghost function Search(a: Availability, sd: map<(Id, int), int>, gid: Id, mid: Id,
                          shuffle: (Id, Id, int) -> seq<Id>, insertOk: Exam -> bool): Option<Exam>
    {
      var d := FirstDay(a, sd, gid, mid, shuffle, insertOk, 0);
      if d < NB_DAYS then DayChoice(a, sd, gid, mid, d, shuffle, insertOk) else None
    }

    /** No attempt on a free day of the window and an eligible slot commits for (`gid`, `mid`). */
    ghost predicate NoSlotAnywhere(a: Availability, sd: map<(Id, int), int>, gid: Id, mid: Id, insertOk: Exam -> bool)
    {
      forall d, c :: 0 <= d < NB_DAYS && c in creneaux && (gid, d) !in sd ==> !FeasibleAt(a, gid, mid, d, c, insertOk)
    }

    /** `e` is a first-fit row for (`gid`, `mid`): of this pair, on a free day of the window, in
        an eligible slot whose attempt commits and builds `e`, and no free day before it has an
        eligible slot whose attempt commits. */
    ghost predicate EarliestFit(a: Availability, sd: map<(Id, int), int>, gid: Id, mid: Id, e: Exam, insertOk: Exam -> bool)
    {
      && e.group == gid && e.moduleId == mid
      && 0 <= e.day < NB_DAYS && (gid, e.day) !in sd && e.slot in creneaux
      && FeasibleAt(a, gid, mid, e.day, e.slot, insertOk)
      && e == RowAt(a, gid, mid, e.day, e.slot)
      && (forall dd, c :: 0 <= dd < e.day && c in creneaux && (gid, dd) !in sd ==> !FeasibleAt(a, gid, mid, dd, c, insertOk))
    }

    /** The search commits nothing only when no attempt on a free day and an eligible slot
        could commit; when it commits, its row is the earliest fit. */
    lemma SearchSpec(a: Availability, sd: map<(Id, int), int>, gid: Id, mid: Id,
                     shuffle: (Id, Id, int) -> seq<Id>, insertOk: Exam -> bool)
      requires forall gi, mi, d :: multiset(shuffle(gi, mi, d)) == multiset(creneaux)
      ensures Search(a, sd, gid, mid, shuffle, insertOk).None? ==> NoSlotAnywhere(a, sd, gid, mid, insertOk)
      ensures Search(a, sd, gid, mid, shuffle, insertOk).Some? ==>
                EarliestFit(a, sd, gid, mid, Search(a, sd, gid, mid, shuffle, insertOk).value, insertOk)
    {
      FirstDaySpec(a, sd, gid, mid, shuffle, insertOk, 0);
      var d0 := FirstDay(a, sd, gid, mid, shuffle, insertOk, 0);
      forall dd | 0 <= dd < d0
        ensures (gid, dd) !in sd ==> forall c :: c in creneaux ==> !FeasibleAt(a, gid, mid, dd, c, insertOk)
      {
        DayChoiceSpec(a, sd, gid, mid, dd, shuffle, insertOk);
      }
      if d0 < NB_DAYS {
        DayChoiceSpec(a, sd, gid, mid, d0, shuffle, insertOk);
        var order := shuffle(gid, mid, d0);
        var k := FirstSlot(a, gid, mid, d0, order, insertOk);
        assert order[k] in multiset(creneaux) by { assert order[k] in multiset(order); }
      }
    }

    /** What the engine commits for step `x` on top of the log `log`: nothing for a no-module
        step, otherwise the search's row in the state the log determines. */
    ghost function Outcome(log: seq<Exam>, x: Item, shuffle: (Id, Id, int) -> seq<Id>, insertOk: Exam -> bool): Option<Exam>
    {
      match x
      case NoModule(_) => None
      case Pairing(gid, mid) => Search(LogState(log), StudentDayMap(log), gid, mid, shuffle, insertOk)
    }

    /** The engine's step rule: the `Outcome` of each step on the log built so far. */
    ghost function Rule(shuffle: (Id, Id, int) -> seq<Id>, insertOk: Exam -> bool): StepRule
    {
      (log: seq<Exam>, x: Item) => Outcome(log, x, shuffle, insertOk)
    }

    /** The engine commits, for a step, only a row of that step's own pair. */
    lemma RuleOwnsPairs(shuffle: (Id, Id, int) -> seq<Id>, insertOk: Exam -> bool)
      ensures OwnsPairs(Rule(shuffle, insertOk))
    {
      forall log, x | Rule(shuffle, insertOk)(log, x).Some?
        ensures x == Pairing(Rule(shuffle, insertOk)(log, x).value.group, Rule(shuffle, insertOk)(log, x).value.moduleId)
      {
        var e := Outcome(log, x, shuffle, insertOk).value;
        var a, sd := LogState(log), StudentDayMap(log);
        var d := FirstDay(a, sd, x.group, x.moduleId, shuffle, insertOk, 0);
        assert e == DayChoice(a, sd, x.group, x.moduleId, d, shuffle, insertOk).value;
      }
    }

    /** `rule` takes every step as the engine does. */
    ghost predicate Follows(rule: StepRule, shuffle: (Id, Id, int) -> seq<Id>, insertOk: Exam -> bool)
    {
      forall log, x {:trigger Outcome(log, x, shuffle, insertOk)} :: rule(log, x) == Outcome(log, x, shuffle, insertOk)
    }

    lemma RuleFollows(shuffle: (Id, Id, int) -> seq<Id>, insertOk: Exam -> bool)
      ensures Follows(Rule(shuffle, insertOk), shuffle, insertOk)
    {
    }

    /** One step of a group's walk: the search's outcome for module `ms[i]`, in the state the
        log `before` determines, extends the unplaced report, the outcome flags and the log exactly
        as the walk over `ms[..i + 1]` says. */
    lemma ModuleStep(g: Group, ms: seq<Module>, i: int, placed: seq<bool>, unplaced: seq<Item>,
                     base: seq<Exam>, before: seq<Exam>, a: Availability, sd: map<(Id, int), int>,
                     ok: bool, after: seq<Exam>, placed': seq<bool>, unplaced': seq<Item>,
                     shuffle: (Id, Id, int) -> seq<Id>, insertOk: Exam -> bool, rule: StepRule)
      requires Follows(rule, shuffle, insertOk)
      requires 0 <= i < |ms| && |placed| == i
      requires unplaced == Unplaced(ModuleItems(g, ms[..i]), placed)
      requires (before, placed) == Walk(base, ModuleItems(g, ms[..i]), rule)
      requires a == LogState(before) && sd == StudentDayMap(before)
      requires ok == Search(a, sd, g.id, ms[i].id, shuffle, insertOk).Some?
      requires ok ==> after == before + [Search(a, sd, g.id, ms[i].id, shuffle, insertOk).value]
      requires !ok ==> after == before
      requires placed' == placed + [ok]
      requires unplaced' == unplaced + (if ok then [] else [Pairing(g.id, ms[i].id)])
      ensures unplaced' == Unplaced(ModuleItems(g, ms[..i + 1]), placed')
      ensures (after, placed') == Walk(base, ModuleItems(g, ms[..i + 1]), rule)
    {
      var step := [Pairing(g.id, ms[i].id)];
      var items := ModuleItems(g, ms[..i]);
      assert ModuleItems(g, ms[..i + 1]) == items + step by {
        assert ms[..i + 1][..i] == ms[..i];
      }
      OutcomesConcat(items, placed, step, [ok]);
      assert rule(before, step[0]) == Outcome(before, step[0], shuffle, insertOk);
      WalkAppend(base, items, step[0], before, placed, after, ok, rule);
    }

    /** A (group, module) step the walk leaves unplaced had, in the state the log before it
        determines, no free day and eligible slot whose attempt could commit. */
    lemma UnplacedStepHadNoSlot(log: seq<Exam>, items: seq<Item>, k: int, shuffle: (Id, Id, int) -> seq<Id>, insertOk: Exam -> bool)
      requires forall gi, mi, d :: multiset(shuffle(gi, mi, d)) == multiset(creneaux)
      requires 0 <= k < |items| && items[k].Pairing? && !Walk(log, items, Rule(shuffle, insertOk)).1[k]
      ensures var prev := Walk(log, items[..k], Rule(shuffle, insertOk)).0;
              NoSlotAnywhere(LogState(prev), StudentDayMap(prev), items[k].group, items[k].moduleId, insertOk)
    {
      WalkStep(log, items, k, Rule(shuffle, insertOk));
      var prev := Walk(log, items[..k], Rule(shuffle, insertOk)).0;
      SearchSpec(LogState(prev), StudentDayMap(prev), items[k].group, items[k].moduleId, shuffle, insertOk);
    }

    /** Every (group, module) step a walk leaves unplaced had, in the state the log before it
        determines, no free day and eligible slot whose attempt could commit. */
    lemma UnplacedStepsHadNoSlot(log: seq<Exam>, items: seq<Item>, flags: seq<bool>,
                                 shuffle: (Id, Id, int) -> seq<Id>, insertOk: Exam -> bool)
      requires forall gi, mi, d :: multiset(shuffle(gi, mi, d)) == multiset(creneaux)
      requires flags == Walk(log, items, Rule(shuffle, insertOk)).1
      ensures forall k :: 0 <= k < |flags| && items[k].Pairing? && !flags[k] ==>
                NoSlotAnywhere(LogState(Walk(log, items[..k], Rule(shuffle, insertOk)).0),
                               StudentDayMap(Walk(log, items[..k], Rule(shuffle, insertOk)).0),
                               items[k].group, items[k].moduleId, insertOk)
    {
      forall k | 0 <= k < |flags| && items[k].Pairing? && !flags[k]
        ensures NoSlotAnywhere(LogState(Walk(log, items[..k], Rule(shuffle, insertOk)).0),
                               StudentDayMap(Walk(log, items[..k], Rule(shuffle, insertOk)).0),
                               items[k].group, items[k].moduleId, insertOk)
      {
        UnplacedStepHadNoSlot(log, items, k, shuffle, insertOk);
      }
    }

    /** The single mutation point: marks the group busy that day, counts the exam for its examiner
        on the day and over the run, and adds the room's occupancy record. */
    method Record(e: Exam)
      requires Valid()
      requires Committable(exams, e, profs, salles, creneaux, groupSize)
      modifies this
      ensures Valid()
      ensures studentDay == old(studentDay)[(e.group, e.day) := 1]
      ensures profDay == old(profDay)[(e.prof, e.day) := Lookup(old(profDay), (e.prof, e.day)) + 1]
      ensures profTotal == old(profTotal)[e.prof := Lookup(old(profTotal), e.prof) + 1]
      ensures roomUsage == old(roomUsage) + {Occupancy(e)}
      ensures exams == old(exams) + [e]
    {
      ghost var before := exams;
      var sd := studentDay[(e.group, e.day) := 1];
      var pd := profDay[(e.prof, e.day) := Lookup(profDay, (e.prof, e.day)) + 1];
      var pt := profTotal[e.prof := Lookup(profTotal, e.prof) + 1];
      var record := if e.room.kind == Amphi then Hall(e.room.id, e.day, e.slot, e.group) else Std(e.room.id, e.day, e.slot);
      assert record == Occupancy(e);
      assert CountersMatch(sd, pd, pt, roomUsage + {record}, before + [e])
          && CommittedInOrder(before + [e], profs, salles, creneaux, groupSize) by {
        CommitKeepsCounters(studentDay, profDay, profTotal, roomUsage, before, e);
        CommitExtendsLog(before, e, profs, salles, creneaux, groupSize);
      }
      studentDay := sd;
      profDay := pd;
      profTotal := pt;
      roomUsage := roomUsage + {record};
      exams := before + [e];
    }

    /** One slot attempt for pair (`g`, `m`) on a day the group is free: takes the first available
        room and the first available examiner and, when the INSERT succeeds, records the exam. */
    method TrySlot(g: Group, m: Module, d: int, c: Id, insertOk: Exam -> bool) returns (placed: bool)
      requires Valid()
      requires (g.id, d) !in studentDay && 0 <= d < NB_DAYS && c in creneaux
      modifies this
      ensures Valid()
      ensures placed == FeasibleAt(old(Snapshot()), g.id, m.id, d, c, insertOk)
      ensures placed ==> exams == old(exams) + [RowAt(old(Snapshot()), g.id, m.id, d, c)]
      ensures placed ==> forall p :: p in profs && Lookup(old(profDay), (p, d)) < PROF_DAILY_CAP ==>
                                     Lookup(old(profTotal), exams[|exams| - 1].prof) <= Lookup(old(profTotal), p)
      ensures placed ==> forall s :: s in salles && RoomEligible(s, Lookup(groupSize, g.id), old(roomUsage), d, c) ==>
                                     s.capacity <= exams[|exams| - 1].room.capacity
      ensures placed && exams[|exams| - 1].room.kind == Salle ==> Lookup(groupSize, g.id) <= exams[|exams| - 1].room.capacity
      ensures !placed ==> unchanged(this)
    {
      var size := Lookup(groupSize, g.id);
      var rooms := AvailableRooms(salles, size, roomUsage, d, c);
      if rooms == [] {
        return false;
      }
      var profsOk := AvailableProfs(profs, profDay, profTotal, d);
      if profsOk == [] {
        return false;
      }
      var prof := profsOk[0];
      var salle := rooms[0];
      var e := Exam(m.id, g.id, prof, salle, d, c, DUREE);
      if !insertOk(e) {
        // the INSERT failed: nothing is recorded and the search goes on
        return false;
      }
      ChoiceCommittable(exams, studentDay, profDay, profTotal, roomUsage, profs, salles, creneaux, groupSize, g, m, d, c);
      FirstRoomIsLargest(salles, size, roomUsage, d, c);
      Record(e);
      return true;
    }

    /** One day of the search for pair (`g`, `m`): skipped when the group already sits an exam
        that day, otherwise the slots in the injected order until one attempt commits. */
    method TryDay(g: Group, m: Module, d: int, shuffle: (Id, Id, int) -> seq<Id>, insertOk: Exam -> bool)
      returns (placed: bool)
      requires Valid() && 0 <= d < NB_DAYS
      requires multiset(shuffle(g.id, m.id, d)) == multiset(creneaux)
      modifies this
      ensures Valid()
      ensures placed == DayChoice(old(Snapshot()), old(studentDay), g.id, m.id, d, shuffle, insertOk).Some?
      ensures placed ==> exams == old(exams) + [DayChoice(old(Snapshot()), old(studentDay), g.id, m.id, d, shuffle, insertOk).value]
      ensures !placed ==> unchanged(this)
      ensures (g.id, d) in old(studentDay) ==> !placed
      ensures placed <==> (g.id, d) !in old(studentDay) &&
                          exists c :: c in creneaux && FeasibleAt(old(Snapshot()), g.id, m.id, d, c, insertOk)
      ensures placed ==>
                var order := shuffle(g.id, m.id, d);
                var k := FirstSlot(old(Snapshot()), g.id, m.id, d, order, insertOk);
                && k < |order| && FeasibleAt(old(Snapshot()), g.id, m.id, d, order[k], insertOk)
                && exams == old(exams) + [RowAt(old(Snapshot()), g.id, m.id, d, order[k])]
    {
      placed := false;
      ghost var a := Snapshot();
      var busy := (g.id, d) in studentDay && studentDay[(g.id, d)] != 0;
      if busy {
        DayChoiceSpec(a, studentDay, g.id, m.id, d, shuffle, insertOk);
        return;
      }
      assert (g.id, d) !in studentDay by { StudentDayMapMarks(exams); }
      var shuffled := shuffle(g.id, m.id, d);
      var i := 0;
      while i < |shuffled| && !placed
        invariant 0 <= i <= |shuffled|
        invariant Valid()
        invariant placed ==> 0 < i && FirstSlot(a, g.id, m.id, d, shuffled, insertOk) == i - 1
        invariant placed ==> FeasibleAt(a, g.id, m.id, d, shuffled[i - 1], insertOk)
        invariant placed ==> exams == old(exams) + [RowAt(a, g.id, m.id, d, shuffled[i - 1])]
        invariant !placed ==> unchanged(this) && Snapshot() == a
        invariant !placed ==> i <= FirstSlot(a, g.id, m.id, d, shuffled, insertOk)
      {
        assert shuffled[i] in multiset(shuffled);
        placed := TrySlot(g, m, d, shuffled[i], insertOk);
        if placed {
          FirstSlotAt(a, g.id, m.id, d, shuffled, insertOk, i);
        } else {
          FirstSlotSkips(a, g.id, m.id, d, shuffled, insertOk, i);
        }
        i := i + 1;
      }
      DayChoiceSpec(a, old(studentDay), g.id, m.id, d, shuffle, insertOk);
    }

    /** Searches the days of the window in order until one day commits an exam for (`g`, `m`). */
    method PlaceModule(g: Group, m: Module, shuffle: (Id, Id, int) -> seq<Id>, insertOk: Exam -> bool)
      returns (placed: bool)
      requires Valid()
      requires forall gi, mi, d :: multiset(shuffle(gi, mi, d)) == multiset(creneaux)
      modifies this
      ensures Valid()
      ensures placed == Search(old(Snapshot()), old(studentDay), g.id, m.id, shuffle, insertOk).Some?
      ensures placed ==> exams == old(exams) + [Search(old(Snapshot()), old(studentDay), g.id, m.id, shuffle, insertOk).value]
      ensures placed ==> EarliestFit(old(Snapshot()), old(studentDay), g.id, m.id,
                                     Search(old(Snapshot()), old(studentDay), g.id, m.id, shuffle, insertOk).value, insertOk)
      ensures !placed ==> unchanged(this)
      ensures !placed ==> NoSlotAnywhere(old(Snapshot()), old(studentDay), g.id, m.id, insertOk)
    {
      placed := false;
      ghost var a := Snapshot();
      ghost var sd := studentDay;
      FirstDaySpec(a, sd, g.id, m.id, shuffle, insertOk, 0);
      var d := 0;
      while d < NB_DAYS && !placed
        invariant 0 <= d <= NB_DAYS
        invariant Valid()
        invariant placed ==> 0 < d && FirstDay(a, sd, g.id, m.id, shuffle, insertOk, 0) == d - 1
        invariant placed ==> DayChoice(a, sd, g.id, m.id, d - 1, shuffle, insertOk).Some?
        invariant placed ==> exams == old(exams) + [DayChoice(a, sd, g.id, m.id, d - 1, shuffle, insertOk).value]
        invariant !placed ==> unchanged(this) && Snapshot() == a && studentDay == sd
        invariant !placed ==> d <= FirstDay(a, sd, g.id, m.id, shuffle, insertOk, 0)
      {
        placed := TryDay(g, m, d, shuffle, insertOk);
        if placed {
          FirstDayAt(a, sd, g.id, m.id, shuffle, insertOk, d);
        } else {
          FirstDaySkips(a, sd, g.id, m.id, shuffle, insertOk, d);
        }
        d := d + 1;
      }
      if placed {
        assert Search(a, sd, g.id, m.id, shuffle, insertOk) == DayChoice(a, sd, g.id, m.id, d - 1, shuffle, insertOk);
      } else {
        assert Search(a, sd, g.id, m.id, shuffle, insertOk) == None;
      }
      SearchSpec(a, sd, g.id, m.id, shuffle, insertOk);
    }

    /** The walk for one group: a no-module entry when its formation has no module, otherwise
        one placement search per module, in catalogue order. */
    method ScheduleGroup(g: Group, shuffle: (Id, Id, int) -> seq<Id>, insertOk: Exam -> bool, ghost rule: StepRule)
      returns (count: nat, unplaced: seq<Item>, ghost placed: seq<bool>)
      requires Follows(rule, shuffle, insertOk)
      requires Valid()
      requires forall gi, mi, d :: multiset(shuffle(gi, mi, d)) == multiset(creneaux)
      modifies this
      ensures Valid()
      ensures (exams, placed) == Walk(old(exams), GroupItems(g, modules), rule)
      ensures unplaced == Unplaced(GroupItems(g, modules), placed)
      ensures count == |exams| - |old(exams)|
    {
      var groupModules := GroupModules(modules, g);
      if groupModules == [] {
        count, unplaced, placed := 0, [NoModule(g.id)], [false];
        assert GroupItems(g, modules) == [] + [NoModule(g.id)];
        assert rule(exams, NoModule(g.id)) == Outcome(exams, NoModule(g.id), shuffle, insertOk);
        WalkAppend(exams, [], NoModule(g.id), exams, [], exams, false, rule);
        assert [] + [false] == [false];
      } else {
        count, unplaced, placed := PlaceModules(g, groupModules, shuffle, insertOk, rule);
      }
    }

    /** The module loop of one group: one placement search per module of `ms`, in order. */
    method PlaceModules(g: Group, ms: seq<Module>, shuffle: (Id, Id, int) -> seq<Id>, insertOk: Exam -> bool, ghost rule: StepRule)
      returns (count: nat, unplaced: seq<Item>, ghost placed: seq<bool>)
      requires Follows(rule, shuffle, insertOk)
      requires Valid()
      requires forall gi, mi, d :: multiset(shuffle(gi, mi, d)) == multiset(creneaux)
      modifies this
      ensures Valid()
      ensures (exams, placed) == Walk(old(exams), ModuleItems(g, ms), rule)
      ensures unplaced == Unplaced(ModuleItems(g, ms), placed)
      ensures count == |exams| - |old(exams)|
    {
      count, unplaced, placed := 0, [], [];
      ghost var base := exams;
      var i := 0;
      while i < |ms|
        invariant 0 <= i <= |ms|
        invariant Valid()
        invariant (exams, placed) == Walk(base, ModuleItems(g, ms[..i]), rule)
        invariant unplaced == Unplaced(ModuleItems(g, ms[..i]), placed)
        invariant count == |exams| - |base|
      {
        count, unplaced, placed := PlaceNext(g, ms, i, shuffle, insertOk, rule, base, count, unplaced, placed);
        i := i + 1;
      }
      assert ms[..|ms|] == ms;
    }

    /** One turn of the module loop: the placement search for `ms[i]` extends the walk over
        `ms[..i]` to the walk over `ms[..i + 1]`. */
    method PlaceNext(g: Group, ms: seq<Module>, i: int, shuffle: (Id, Id, int) -> seq<Id>, insertOk: Exam -> bool,
                     ghost rule: StepRule, ghost base: seq<Exam>, count: nat, unplaced: seq<Item>, ghost placed: seq<bool>)
      returns (count': nat, unplaced': seq<Item>, ghost placed': seq<bool>)
      requires Follows(rule, shuffle, insertOk)
      requires Valid()
      requires forall gi, mi, d :: multiset(shuffle(gi, mi, d)) == multiset(creneaux)
      requires 0 <= i < |ms|
      requires (exams, placed) == Walk(base, ModuleItems(g, ms[..i]), rule)
      requires unplaced == Unplaced(ModuleItems(g, ms[..i]), placed)
      requires count == |exams| - |base|
      modifies this
      ensures Valid()
      ensures (exams, placed') == Walk(base, ModuleItems(g, ms[..i + 1]), rule)
      ensures unplaced' == Unplaced(ModuleItems(g, ms[..i + 1]), placed')
      ensures count' == |exams| - |base|
    {
      var m := ms[i];
      ghost var before, a, sd := exams, Snapshot(), studentDay;
      var ok := PlaceModule(g, m, shuffle, insertOk);
      count', unplaced' := count, unplaced;
      if ok {
        count' := count + 1;
      } else {
        unplaced' := unplaced + [Pairing(g.id, m.id)];
      }
      placed' := placed + [ok];
      ModuleStep(g, ms, i, placed, unplaced, base, before, a, sd, ok, exams, placed', unplaced', shuffle, insertOk, rule);
    }

    /** `generate_schedule_complete`: the whole walk. Returns the number of exams inserted and
        the unplaced report; `placed` is the outcome of each step of the walk. */
    method GenerateSchedule(shuffle: (Id, Id, int) -> seq<Id>, insertOk: Exam -> bool)
      returns (inserted: nat, nonPlanifies: seq<Item>, ghost placed: seq<bool>)
      requires Valid()
      requires forall gi, mi, d :: multiset(shuffle(gi, mi, d)) == multiset(creneaux)
      modifies this
      ensures Valid()
      ensures (exams, placed) == Walk(old(exams), Items(groupes, modules), Rule(shuffle, insertOk))
      ensures nonPlanifies == Unplaced(Items(groupes, modules), placed)
      ensures |old(exams)| <= |exams| && exams[..|old(exams)|] == old(exams)
      ensures PairsOf(exams[|old(exams)|..]) == PlacedItems(Items(groupes, modules), placed)
      ensures inserted == |exams| - |old(exams)|
      ensures forall k :: 0 <= k < |placed| && Items(groupes, modules)[k].Pairing? && !placed[k] ==>
                NoSlotAnywhere(LogState(Walk(old(exams), Items(groupes, modules)[..k], Rule(shuffle, insertOk)).0),
                               StudentDayMap(Walk(old(exams), Items(groupes, modules)[..k], Rule(shuffle, insertOk)).0),
                               Items(groupes, modules)[k].group, Items(groupes, modules)[k].moduleId, insertOk)
      ensures DistinctGroupIds(groupes) && DistinctModuleIds(modules) ==>
                forall g, m :: g in groupes && m in modules && m.formation == g.formation ==>
                  multiset(PairsOf(exams[|old(exams)|..]))[Pairing(g.id, m.id)] + multiset(nonPlanifies)[Pairing(g.id, m.id)] == 1
      ensures DistinctGroupIds(groupes) && DistinctModuleIds(modules) ==>
                forall g :: g in groupes && GroupModules(modules, g) == [] ==> multiset(nonPlanifies)[NoModule(g.id)] == 1
    {
      ghost var base := exams;
      RuleFollows(shuffle, insertOk);
      inserted, nonPlanifies, placed := ScheduleGroups(shuffle, insertOk, Rule(shuffle, insertOk));
      RuleOwnsPairs(shuffle, insertOk);
      WalkLog(base, Items(groupes, modules), Rule(shuffle, insertOk));
      UnplacedStepsHadNoSlot(base, Items(groupes, modules), placed, shuffle, insertOk);
      ReportsOnce(exams[|base|..], nonPlanifies, placed);
    }

    /** The group loop: one group walk per catalogue group, in order, each on the state the
        groups before it left. */
    method ScheduleGroups(shuffle: (Id, Id, int) -> seq<Id>, insertOk: Exam -> bool, ghost rule: StepRule)
      returns (inserted: nat, nonPlanifies: seq<Item>, ghost placed: seq<bool>)
      requires Follows(rule, shuffle, insertOk)
      requires Valid()
      requires forall gi, mi, d :: multiset(shuffle(gi, mi, d)) == multiset(creneaux)
      modifies this
      ensures Valid()
      ensures (exams, placed) == Walk(old(exams), Items(groupes, modules), rule)
      ensures nonPlanifies == Unplaced(Items(groupes, modules), placed)
      ensures inserted == |exams| - |old(exams)|
    {
      inserted, nonPlanifies, placed := 0, [], [];
      ghost var base := exams;
      var gi := 0;
      while gi < |groupes|
        invariant 0 <= gi <= |groupes|
        invariant Valid()
        invariant (exams, placed) == Walk(base, Items(groupes[..gi], modules), rule)
        invariant nonPlanifies == Unplaced(Items(groupes[..gi], modules), placed)
        invariant inserted == |exams| - |base|
      {
        var g := groupes[gi];
        var count, unplaced, flags := ScheduleGroup(g, shuffle, insertOk, rule);
        ghost var items := Items(groupes[..gi], modules);
        assert Items(groupes[..gi + 1], modules) == items + GroupItems(g, modules) by {
          assert groupes[..gi + 1][..gi] == groupes[..gi];
        }
        OutcomesConcat(items, placed, GroupItems(g, modules), flags);
        WalkConcat(base, items, GroupItems(g, modules), rule);
        inserted := inserted + count;
        nonPlanifies := nonPlanifies + unplaced;
        placed := placed + flags;
        gi := gi + 1;
      }
      assert groupes[..|groupes|] == groupes;
    }

    /** With distinct identities, a walk's new exams and unplaced report hold each catalogue
        pair exactly once between them, and each no-module group exactly once in the report. */
    lemma ReportsOnce(added: seq<Exam>, report: seq<Item>, placed: seq<bool>)
      requires |placed| == |Items(groupes, modules)|
      requires PairsOf(added) == PlacedItems(Items(groupes, modules), placed)
      requires report == Unplaced(Items(groupes, modules), placed)
      ensures DistinctGroupIds(groupes) && DistinctModuleIds(modules) ==>
                forall g, m :: g in groupes && m in modules && m.formation == g.formation ==>
                  multiset(PairsOf(added))[Pairing(g.id, m.id)] + multiset(report)[Pairing(g.id, m.id)] == 1
      ensures DistinctGroupIds(groupes) && DistinctModuleIds(modules) ==>
                forall g :: g in groupes && GroupModules(modules, g) == [] ==> multiset(report)[NoModule(g.id)] == 1
    {
      if DistinctGroupIds(groupes) && DistinctModuleIds(modules) {
        forall g, m | g in groupes && m in modules && m.formation == g.formation
          ensures multiset(PairsOf(added))[Pairing(g.id, m.id)] + multiset(report)[Pairing(g.id, m.id)] == 1
        {
          EachStepReportedOnce(groupes, modules, placed, g, m);
        }
        forall g | g in groupes && GroupModules(modules, g) == []
          ensures multiset(report)[NoModule(g.id)] == 1
        {
          EachStepReportedOnce(groupes, modules, placed, g, Module(0, 0));
          PairsOfHasNoNoModule(added, g.id);
        }
      }
    }

    /** `detect_conflicts` on the current state: always nothing to report. */
    method DetectConflicts() returns (studentsConflict: nat, profsConflict: set<Id>)
      requires Valid()
      ensures studentsConflict == 0 && profsConflict == {}
    {
      var r := ConflictCounts(studentDay, profDay);
      assert r == (0, {}) by {
        CommittedInOrderIsAdmissible(exams, profs, salles, creneaux, groupSize);
        NoConflictsFound(exams);
      }
      studentsConflict, profsConflict := r.0, r.1;
    }
  }
}
