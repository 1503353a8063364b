# Greedy exam placement, verified in Dafny

This project models the placement engine of `exam-schedule` (main.py). The engine assigns
every (student group, module) pair of a university's formations to a day of a 20-day window,
a time slot, a room and an examiner. It walks the groups in catalogue order. For each group
it walks the modules of the group's formation, the day offsets 0..19 and a shuffled order of
the first four slots. It commits the first room offered by `available_rooms` with the first
examiner offered by `available_profs`, then stops searching for that pair. A failed INSERT
moves the search on to the next slot. A pair that finds nothing goes into the unplaced
report, and so does a group whose formation has no module.

The engine's run-scoped state is four dictionaries:
- `student_day`: the (group, date) pairs already used;
- `prof_day`: exams per (examiner, date);
- `prof_total`: exams per examiner over the run;
- `room_usage`: a set of occupancy records.

A "Salle" room leaves an exclusive record. An "Amphi" leaves a record keyed also by group, so
two groups can share it.

Modules:
- `Catalog` (catalog.dfy): identities, the constants of the engine (20 days, duration 90,
  4 slots, examiner daily cap 3, hall cap 2), rooms, groups, modules, the group-size count
  and the slot cut.
- `ProfSelection` (profs.dfy): `available_profs`. The model filters the examiners under the
  daily cap, then applies a stable insertion sort by total load.
- `RoomSelection` (rooms.dfy): `available_rooms`. It is a read-only method proved equal to a
  selection function. The datatype `Usage = Std | Hall` replaces the source's test on tuple
  arity.
- `Ledger` (ledger.dfy): the log of committed exams and the dictionaries that log
  determines. Also the hard constraints:
  - one exam per group per day;
  - at most 3 exams per examiner per day;
  - a "Salle" is exclusive for a (day, slot);
  - an "Amphi" holds at most 2 exams per (day, slot), from distinct groups;
  - a "Salle" seats the whole group.

  It also holds the lemmas showing that every commit keeps those constraints, and the
  `detect_conflicts` audit.
- `Scheduler` (scheduler.dfy): the class `Engine`. It holds the catalogue as constants, the
  four dictionaries as fields, and a ghost log of committed exams. `Valid()` says three
  things:
  - the rooms come in capacity-descending order, as the catalogue query returns them
    (`ORDER BY capacite DESC`, main.py:26);
  - the fields are exactly the dictionaries the log determines;
  - the log was built one committable exam at a time, so every hard constraint holds.

  The nested loops of `generate_schedule_complete` are methods:
  - `TrySlot`: the body of the slot loop;
  - `TryDay`: the body of the day loop;
  - `PlaceModule`: the day loop;
  - `PlaceModules`: the module loop of a group, one turn of it being `PlaceNext`;
  - `ScheduleGroup`: one group;
  - `ScheduleGroups`: the group loop;
  - `GenerateSchedule`: the whole run.

  `Record` is the single place that changes the state.

The methods are proved against a first-fit search written as functions over the
availability state:
- `FeasibleAt`: whether the attempt at a (day, slot) commits;
- `FirstSlot`, `DayChoice`: the first committing slot of a day's order;
- `FirstDay`, `Search`: the first day whose search commits.

A reference walk, `Walk`, takes the steps in order and commits each step's `Search`
outcome on the log built so far. Steps are one (group, module) pair per module of the
group's formation, or one no-module step for a group whose formation has none. Several
lemmas state walk facts in terms the source uses; two examples are `WalkLog` and
`UnplacedStepHadNoSlot`.

Group and module identities are the tables' primary keys. The statements that each pair
is reported exactly once are therefore made under the premise that those identities are
distinct (`DistinctGroupIds`, `DistinctModuleIds`).

Two behaviours a reader may not expect:
- **No seat test for halls.** `available_rooms` tests seats only for a "Salle"
  (main.py:58). Any other room is offered whatever the group's size (main.py:60-66). The
  model follows the code: see `RoomSelection.HallIgnoresSize`. The seat constraint in
  `Ledger.SalleSeatsGroup` is stated for "Salle" rooms only.
- **Two different room-type tests.** The room test compares the type with "Salle"
  (main.py:57), but the recording compares it with "Amphi" (main.py:120). `Catalog.RoomKind`
  therefore has a third case, `OtherKind`, for any label other than those two. Such a room
  is judged like a hall but recorded like a "Salle", so it never fills up
  (`RoomSelection.OtherKindNeverFills`). The hall constraint is stated for "Amphi" rooms.

The injected parameters of the engine:
- `shuffle(group, module, day)`: the slot order for one attempt. It is required to be a
  permutation of the eligible slots, which stands in for `random.shuffle` on a copy of them.
- `insertOk(row)`: whether the INSERT of that row succeeds, which stands in for the
  database.

## Model

| member | source | states |
|---|---|---|
| Catalog.CountGroupSizes | main.py:32-34 | every group's size is the number of membership rows naming it; exactly the groups with a row are keys, and a group with none reads as 0 |
| Catalog.EligibleSlots | main.py:27 | the eligible slots are a prefix of the slots ordered by id, of length min(4, number of slots) |
| Catalog.GroupModulesMembers | main.py:77 | a group's modules are exactly the catalogue modules of its formation, and no more than the catalogue |
| ProfSelection.UnderCapMembers | main.py:48 | the filter keeps exactly the examiners with fewer than 3 exams that day |
| ProfSelection.InsertByLoadSorted | main.py:49 | one insertion adds exactly the examiner, as a multiset, and keeps the list sorted by total load |
| ProfSelection.SortByLoadSorted | main.py:49 | the sort by total load returns a permutation of its input in non-decreasing load order |
| ProfSelection.SortByLoadIsStable | main.py:49 | for every load value, the examiners with that load come out in their input order |
| ProfSelection.AvailableProfsSpec | main.py:46-49 | `available_profs` contains exactly the examiners under the daily cap, each as often as in the filter, sorted by total load; its head has minimal total load among all examiners under the cap |
| ProfSelection.AvailableProfsKeepsTies | main.py:46-49 | among examiners of equal total load, `available_profs` keeps catalogue order |
| RoomSelection.AvailableRooms | main.py:51-67 | the loop over the rooms returns the eligible rooms in catalogue order |
| RoomSelection.EligibleRoomsMembers | main.py:56-66 | a "Salle" is offered iff it has no exclusive record for the (day, slot) and seats the group; any other room is offered iff it has fewer than 2 hall records there; nothing outside the catalogue is offered |
| RoomSelection.EligibleRoomsKeepOrder | main.py:54-67 | the offered rooms keep the capacity-descending order of the catalogue |
| RoomSelection.FirstRoomIsLargest | main.py:102 | the room taken, `rooms[0]`, is a catalogue room of maximal capacity among the eligible ones, free for the slot if a "Salle" and under the hall cap otherwise |
| RoomSelection.OtherKindNeverFills | main.py:120-123 | a room typed neither "Salle" nor "Amphi" stays exactly as available after an exam is recorded in it, and is available when nothing is recorded |
| RoomSelection.HallIgnoresSize | main.py:60-66 | whether a room other than a "Salle" is offered does not depend on the group's size |
| Ledger.GroupDaysMembers | main.py:116 | the busy (group, day) pairs are exactly those of the committed exams |
| Ledger.RecordsOfMembers | main.py:120-123 | the occupancy records are exactly those of the committed exams: a hall record for an "Amphi", an exclusive one otherwise |
| Ledger.GroupDaysAppend | main.py:116 | a commit adds one busy (group, day) pair |
| Ledger.RecordsOfAppend | main.py:120-123 | a commit adds exactly its own occupancy record |
| Ledger.ProfDayCountAppend | main.py:117 | a commit raises the (examiner, day) count of its own examiner and day by 1 and no other |
| Ledger.ProfCountAppend | main.py:118 | a commit raises the total count of its own examiner by 1 and no other |
| Ledger.StudentDayMapMarks | main.py:116 | `student_day` has exactly the busy (group, day) pairs as keys, each with value 1 |
| Ledger.ProfDayMapCounts | main.py:117 | `prof_day` reads, for every examiner and day, the number of committed exams there |
| Ledger.ProfTotalMapCounts | main.py:118 | `prof_total` reads, for every examiner, the number of committed exams held |
| Ledger.CommitKeepsCounters | main.py:116-123 | the engine's four updates take the dictionaries of a log to the dictionaries of the log extended by the new exam |
| Ledger.CommitKeepsGroupDays | main.py:86-87 | committing on a day the group is free keeps one exam per group per day |
| Ledger.CommitKeepsProfCap | main.py:48 | committing with an examiner under the cap keeps every examiner at 3 or fewer exams each day |
| Ledger.CommitKeepsSalleExclusive | main.py:58 | committing into an eligible room keeps every "Salle" to one exam per (day, slot) |
| Ledger.FullHallRejects | main.py:61-65 | an "Amphi" that already holds two exams of distinct groups at a (day, slot) is not offered there |
| Ledger.CommitKeepsHallShared | main.py:61-66 | committing into an eligible room keeps every "Amphi" to at most two exams per (day, slot), of distinct groups |
| Ledger.CommitKeepsFromCatalog | main.py:101-110 | committed rows use catalogue examiners, rooms and slots, a day of the window and duration 90 |
| Ledger.CommitKeepsSalleSeatsGroup | main.py:58 | committing into an eligible "Salle" keeps every "Salle" exam seated |
| Ledger.CommitKeepsAdmissible | main.py:93-123 | a commit that passes the engine's checks keeps all the hard constraints |
| Ledger.CommitExtendsLog | main.py:116-123 | appending a committable exam keeps the log built one committable exam at a time |
| Ledger.CommittedInOrderIsAdmissible | main.py:72-137 | a log built one committable exam at a time satisfies every hard constraint |
| Ledger.NoRepeatsIffOneExamPerGroupDay | dashboard.py:110 | counting rows whose (group, day) repeats an earlier row gives 0 exactly when no group has two exams on one day |
| Ledger.ConflictCounts | main.py:140-143 | the student count is 0 iff no `student_day` value exceeds 1; an examiner is reported iff some day count of theirs exceeds 3 |
| Ledger.NoConflictsFound | main.py:140-143 | on the dictionaries of a log that respects the examiner cap, the audit reports 0 and no examiner |
| Scheduler.ModuleItemsAt | main.py:82 | the i-th step of a group's module walk is the pair of the group and its i-th module |
| Scheduler.EveryItemAccountedOnce | main.py:76-137 | the placed steps and the unplaced report together are exactly the steps of the walk, with multiplicity |
| Scheduler.GroupItemsCover | main.py:77-80 | a group's steps are one pair per module of its formation, or the single no-module step when there is none |
| Scheduler.ItemsComplete | main.py:76-82 | for every catalogue group and every module of its formation the walk holds their pair, and for a group whose formation has no module it holds the no-module step |
| Scheduler.ItemsSound | main.py:76-82 | every step of the walk is such a pair or such a no-module step |
| Catalog.GroupModulesDistinct | main.py:77 | with distinct module identities in the catalogue, a group's module list has distinct identities too |
| Scheduler.ModuleItemsOnce | main.py:82 | with distinct module identities, each module of the list gives exactly one step of the group's module walk |
| Scheduler.GroupItemsOnce | main.py:77-82 | with distinct module identities, each module of the group's formation gives exactly one step of that group, and a group without modules has exactly one no-module step |
| Scheduler.ItemsAbsent | main.py:76 | a step naming a group identity no catalogue group carries does not occur in the walk |
| Scheduler.ItemsOnce | main.py:76-82 | with distinct group and module identities, every catalogue (group, module) pair of a formation occurs exactly once in the walk, and so does the no-module step of every group without modules |
| Scheduler.PairsOfHasNoNoModule | main.py:110 | a committed exam is never a no-module step |
| Scheduler.EachStepReportedOnce | main.py:76-134 | with distinct identities, each catalogue pair is placed once or reported unplaced once, never both and never neither; a no-module step is reported once |
| Scheduler.ChoiceCommittable | main.py:97-102 | the row built from the first room and the first examiner passes all the engine's checks; its examiner has minimal total load among those under the cap; a "Salle" it takes seats the group |
| Scheduler.WalkAppend | main.py:82-134 | taking one more step extends the walk's log and flags by exactly that step's outcome |
| Scheduler.WalkConcat | main.py:76-137 | walking one list of steps and then another is walking their concatenation |
| Scheduler.WalkLog | main.py:110-126 | the walk only appends to the log, and the (group, module) pairs it appends are exactly the placed steps, in order, one exam per placed step |
| Scheduler.WalkStep | main.py:127-134 | step k of the walk is flagged placed iff the rule commits for that step on the log the first k steps built |
| Scheduler.Engine.FirstSlotSpec | main.py:92-128 | the first-fit slot index is at most the order's length; every slot before it fails, and the slot at it commits |
| Scheduler.Engine.FirstSlotAt | main.py:92-128 | if no earlier slot commits and the slot at i commits, the first-fit index is i |
| Scheduler.Engine.FirstSlotSkips | main.py:92-114 | if no earlier slot commits and the slot at i fails, the first-fit index is past i |
| Scheduler.Engine.DayChoiceSpec | main.py:86-131 | one day's search commits iff the group is free that day and some eligible slot's attempt commits; it commits the row of the first committing slot of the shuffled order, and every slot before it fails |
| Scheduler.Engine.FirstDaySpec | main.py:84-131 | the first committing day from `from` lies in the window or is 20 (none); every day before it commits nothing, and the day at it commits |
| Scheduler.Engine.FirstDayAt | main.py:84-131 | if no earlier day commits and day d commits, the first committing day is d |
| Scheduler.Engine.FirstDaySkips | main.py:84-131 | if no earlier day commits and day d commits nothing, the first committing day is past d |
| Scheduler.Engine.SearchSpec | main.py:84-134 | the search places nothing only when no attempt on a free day of the window and an eligible slot could commit; when it places, the row is of this pair, on a free day, in an eligible slot whose attempt commits, and no earlier free day has a committing slot |
| Scheduler.Engine.RuleOwnsPairs | main.py:110 | every row the engine commits for a step is of that step's own (group, module) pair |
| Scheduler.Engine.ModuleStep | main.py:82-134 | each module's search outcome extends the unplaced report, the outcome flags and the log exactly as the walk over one more module prescribes |
| Scheduler.Engine.UnplacedStepHadNoSlot | main.py:133-134 | a (group, module) step the walk leaves unplaced had, in the state the log before it determines, no free day and eligible slot whose attempt could commit |
| Scheduler.Engine.UnplacedStepsHadNoSlot | main.py:133-134 | the same, for every unplaced (group, module) step of a walk at once |
| Scheduler.Engine.ReportsOnce | main.py:76-134 | with distinct identities, the new exams and the unplaced report of a walk over the catalogue hold each catalogue pair exactly once between them, and each no-module group exactly once in the report |
| Scheduler.Engine.constructor | main.py:22-43 | requires the rooms in capacity-descending order (main.py:26); loads the catalogue, cuts the slots, counts group sizes and starts from empty dictionaries |
| Scheduler.Engine.Record | main.py:116-123 | marks the (group, day) with 1, raises the examiner's day and total counts by 1, adds the room's occupancy record and appends the exam to the log, keeping `Valid()` |
| Scheduler.Engine.TrySlot | main.py:93-128 | commits iff a room and an examiner are offered and the INSERT succeeds; the committed row uses `rooms[0]`, a largest eligible room, and `profs_ok[0]`, whose total load is minimal among those under the cap; a "Salle" seats the group; a failed attempt changes nothing |
| Scheduler.Engine.TryDay | main.py:85-131 | a day the group already sits an exam never commits; otherwise it commits iff some eligible slot's attempt commits; on success the appended exam is the row of the first committing slot of the shuffled order; on failure nothing changed |
| Scheduler.Engine.PlaceModule | main.py:83-131 | commits iff the search does; the appended exam is the search's row, which is the earliest fit: a free day with a committing eligible slot, no earlier free day having one; on failure nothing changed and no attempt on a free day and eligible slot could commit |
| Scheduler.Engine.PlaceNext | main.py:82-134 | one module's search extends the walk over the earlier modules by one step, with the report and the count |
| Scheduler.Engine.PlaceModules | main.py:82-134 | the module loop's flags and log are the walk over the group's modules; the report is its failed steps in order; the count is the exams added |
| Scheduler.Engine.ScheduleGroup | main.py:77-134 | the group's flags and log are the walk over its steps (the no-module step when it has no module); the unplaced report is the failed steps, in order; the count is the number of exams added |
| Scheduler.Engine.ScheduleGroups | main.py:76-137 | the group loop's flags and log are the walk over all steps, group by group; the report is the failed steps in order; the count is the exams added |
| Scheduler.Engine.GenerateSchedule | main.py:72-137 | flags and log are the walk over all steps; `non_planifies` is its failed steps in order; the new log extends the old one by exactly the placed pairs, in order; the count is the exams inserted; each unplaced pair had no committing attempt on a free day when its turn came; with distinct identities each catalogue pair is placed or reported exactly once and each no-module group reported once; `Valid()` is kept, so every hard constraint holds |
| Scheduler.Engine.DetectConflicts | main.py:140-143 | on any reachable state the audit reports 0 student conflicts and no examiner |

## Left out

- The MySQL connection, the catalogue queries and the INSERT/commit (main.py:7-28, 105-111) are foreign I/O. The catalogue is constructor input, the INSERT is the `insertOk` oracle, and the rows are the ghost log.
- `export_csv` (main.py:145-159) is file and CSV output over a database query.
- The `__main__` driver, the `print` logging and the wall-clock timing (main.py:161-180) are I/O.
- `random.shuffle` (main.py:70, 89-90) is nondeterministic. The slot order is the injected `shuffle`, required to be a permutation of the eligible slots.
- Calendar arithmetic with `date`, `timedelta` and `strftime` (main.py:36, 85, 103) is replaced by day offsets 0..19, which map one-to-one onto the dates of the window.
- `formation_name` (main.py:30) is not read by the engine.
- The unplaced report carries group and module identities, not names: `Pairing(g, m)` stands for (group name, module name) and `NoModule(g)` for (group name, "aucun module").
- Reads of a `defaultdict` that insert a zero entry (main.py:48, 49, 53) are not modelled: such entries change no result, because a missing key reads as 0 (`Catalog.Lookup`).
- Scheduler.Engine.DetectConflicts: returns the examiners as a set. The source returns a list with one entry per offending (examiner, day) pair, and the model proves that list empty, so the two agree on every reachable state.
- Ledger.ConflictCounts: states when the student count is 0, not its exact value.
- The dashboard (dashboard.py) is a UI over the database. Only its group-repeat audit (dashboard.py:110) is modelled, as `Ledger.GroupDayRepeats`. Its examiner audit flags an examiner with more than one exam per day, which is not the engine's cap of 3.
- The stray indentation at main.py:22, 38, 65, 84 and 112 is read as the evident block structure.
