/** Awards that overlap: each task reads its user's level row and later commits what it computed from it. */
module AwardRace {
  import opened Wrappers
  import opened Experience

  /** Task `task` reads the level row, or commits its event together with the new total and level. */
  datatype Moment = Read(task: nat) | Commit(task: nat)

  /** The tables, and what every task that is under way has read. */
  datatype Race = Race(ledger: Ledger, seen: map<nat, Option<UserLevel>>)

  /** What the tasks award. */
  type Plan = nat -> AwardStep

  function KeyOf(s: AwardStep): (Uuid, Uuid) {
    (s.request.tenant, s.request.user)
  }

  function AmountOf(s: AwardStep): int {
    XpForAction(s.features, s.request.action) * s.multiplier
  }

  function RowOf(ledger: Ledger, s: AwardStep): Option<UserLevel> {
    if KeyOf(s) in ledger.levels then Some(ledger.levels[KeyOf(s)]) else None
  }

  /** The unique index on tenant and user rejects a second row; the action column rejects unknown actions. */
  predicate Accepted(ledger: Ledger, s: AwardStep, row: Option<UserLevel>) {
    s.request.action in XP_ACTIONS && (row == None ==> KeyOf(s) !in ledger.levels)
  }

  /** The row a task works on: the one it has read, or the one it inserts. */
  function Loaded(row: Option<UserLevel>): UserLevel {
    if row.Some? then row.value else UserLevel(0, 1)
  }

  /** The commit of a task that has read `row`: an event, and of the row computed from what was read those columns
      that differ from it; the others stay as they are by now. */
  function Committed(ledger: Ledger, s: AwardStep, row: Option<UserLevel>): Ledger {
    var r, loaded, present := s.request, Loaded(row), LevelRow(ledger, s.request.tenant, s.request.user);
    var total := loaded.totalXp + AmountOf(s);
    var level := LevelFor(total, Thresholds(s.features));
    Ledger(ledger.events + [XPEvent(r.tenant, r.user, r.company, r.action, AmountOf(s), r.reference, r.referenceType)],
           ledger.levels[KeyOf(s) := UserLevel(if total == loaded.totalXp then present.totalXp else total,
                                               if level == loaded.level then present.level else level)])
  }

  function Step(race: Race, moment: Moment, plan: Plan): Race {
    match moment
    case Read(task) => race.(seen := race.seen[task := RowOf(race.ledger, plan(task))])
    case Commit(task) =>
      if task !in race.seen then race
      else
        var row := race.seen[task];
        Race(if Accepted(race.ledger, plan(task), row) then Committed(race.ledger, plan(task), row) else race.ledger,
             race.seen - {task})
  }

  function After(ledger: Ledger, schedule: seq<Moment>, plan: Plan): Race {
    if schedule == [] then Race(ledger, map[])
    else Step(After(ledger, schedule[..|schedule| - 1], plan), schedule[|schedule| - 1], plan)
  }

  /******* What the schedule alone says *******/

  /** When the pending read of a task happened. */
  function ReadAt(schedule: seq<Moment>, task: nat): (at: Option<nat>)
    ensures at.Some? ==> at.value < |schedule|
  {
    if schedule == [] then None
    else
      var last := schedule[|schedule| - 1];
      if last == Read(task) then Some(|schedule| - 1)
      else if last == Commit(task) then None
      else ReadAt(schedule[..|schedule| - 1], task)
  }

  /** Whether the user of `key` has a level row after the schedule, given the rows there were before. */
  predicate HasRow(rows: set<(Uuid, Uuid)>, schedule: seq<Moment>, plan: Plan, key: (Uuid, Uuid))
    decreases |schedule|, 1
  {
    if schedule == [] then key in rows
    else HasRow(rows, schedule[..|schedule| - 1], plan, key)
         || (Lands(rows, schedule, plan) && KeyOf(plan(schedule[|schedule| - 1].task)) == key)
  }

  /** The last moment is a commit that takes effect: its task has read, and did not miss the creation of the row. */
  predicate Lands(rows: set<(Uuid, Uuid)>, schedule: seq<Moment>, plan: Plan)
    decreases |schedule|, 0
  {
    schedule != [] && schedule[|schedule| - 1].Commit? &&
    var front, s := schedule[..|schedule| - 1], plan(schedule[|schedule| - 1].task);
    var read := ReadAt(front, schedule[|schedule| - 1].task);
    && read.Some? && s.request.action in XP_ACTIONS
    && (HasRow(rows, front, plan, KeyOf(s)) ==> HasRow(rows, front[..read.value], plan, KeyOf(s)))
  }

  /** The awards that took effect, in the order of their commits. */
  function Landed(rows: set<(Uuid, Uuid)>, schedule: seq<Moment>, plan: Plan): seq<AwardStep> {
    if schedule == [] then []
    else Landed(rows, schedule[..|schedule| - 1], plan)
         + if Lands(rows, schedule, plan) then [plan(schedule[|schedule| - 1].task)] else []
  }

  /** What commits from moment `from` on have added for the user of `key`. */
  function Since(rows: set<(Uuid, Uuid)>, schedule: seq<Moment>, plan: Plan, from: nat, key: (Uuid, Uuid)): int {
    if |schedule| <= from then 0
    else
      var s := plan(schedule[|schedule| - 1].task);
      Since(rows, schedule[..|schedule| - 1], plan, from, key)
      + if Lands(rows, schedule, plan) && KeyOf(s) == key then AmountOf(s) else 0
  }

  /** When the task of the landing commit at the end has read. */
  function ReadOf(rows: set<(Uuid, Uuid)>, schedule: seq<Moment>, plan: Plan): (at: nat)
    requires Lands(rows, schedule, plan)
    ensures at < |schedule| - 1
  {
    ReadAt(schedule[..|schedule| - 1], schedule[|schedule| - 1].task).value
  }

  /** What the landing commit at the end has missed: the awards of its user that landed after its task had read. */
  function Missed(rows: set<(Uuid, Uuid)>, schedule: seq<Moment>, plan: Plan): int
    requires Lands(rows, schedule, plan)
  {
    Since(rows, schedule[..|schedule| - 1], plan, ReadOf(rows, schedule, plan),
          KeyOf(plan(schedule[|schedule| - 1].task)))
  }

  /** The commit at the end lands and gives something: only then does it write a total. */
  predicate Writes(rows: set<(Uuid, Uuid)>, schedule: seq<Moment>, plan: Plan) {
    Lands(rows, schedule, plan) && AmountOf(plan(schedule[|schedule| - 1].task)) != 0
  }

  /** No commit of the schedule that writes a total has missed anything, on balance. */
  predicate NothingMissed(rows: set<(Uuid, Uuid)>, schedule: seq<Moment>, plan: Plan) {
    schedule != [] ==>
      && NothingMissed(rows, schedule[..|schedule| - 1], plan)
      && (Writes(rows, schedule, plan) ==> Missed(rows, schedule, plan) == 0)
  }

  /** An award of the user of `key` lands after the first `from` moments, and is not of zero. */
  predicate GivesSince(rows: set<(Uuid, Uuid)>, schedule: seq<Moment>, plan: Plan, from: nat, key: (Uuid, Uuid)) {
    |schedule| > from &&
    (GivesSince(rows, schedule[..|schedule| - 1], plan, from, key)
     || (Writes(rows, schedule, plan) && KeyOf(plan(schedule[|schedule| - 1].task)) == key))
  }

  /** Between the read and the commit of an award that gives something, no other award lands that gives something to
      the same user. */
  predicate NoOverlap(rows: set<(Uuid, Uuid)>, schedule: seq<Moment>, plan: Plan) {
    schedule != [] ==>
      var front := schedule[..|schedule| - 1];
      && NoOverlap(rows, front, plan)
      && (Writes(rows, schedule, plan) ==>
            !GivesSince(rows, front, plan, ReadOf(rows, schedule, plan), KeyOf(plan(schedule[|schedule| - 1].task))))
  }

  /******* What the tables say *******/

  lemma {:induction false} SeenIsRead(ledger: Ledger, schedule: seq<Moment>, plan: Plan, task: nat)
    ensures var race, read := After(ledger, schedule, plan), ReadAt(schedule, task);
            && (task in race.seen <==> read.Some?)
            && (read.Some? ==> race.seen[task] == RowOf(After(ledger, schedule[..read.value], plan).ledger, plan(task)))
  {
    if schedule != [] {
      var front := schedule[..|schedule| - 1];
      SeenIsRead(ledger, front, plan, task);
      var read := ReadAt(front, task);
      if read.Some? { assert front[..read.value] == schedule[..read.value]; }
    }
  }

  /** A landing commit writes what its task computed from the row it had read; nothing else changes the tables. */
  lemma {:induction false} LandingIs(ledger: Ledger, schedule: seq<Moment>, plan: Plan)
    requires schedule != []
    ensures var front, last := schedule[..|schedule| - 1], schedule[|schedule| - 1];
            After(ledger, schedule, plan).ledger ==
            if Lands(ledger.levels.Keys, schedule, plan) then
              var read := After(ledger, schedule[..ReadOf(ledger.levels.Keys, schedule, plan)], plan).ledger;
              Committed(After(ledger, front, plan).ledger, plan(last.task), RowOf(read, plan(last.task)))
            else After(ledger, front, plan).ledger
    decreases |schedule|, 0
  {
    var front, last := schedule[..|schedule| - 1], schedule[|schedule| - 1];
    if last.Commit? {
      SeenIsRead(ledger, front, plan, last.task);
      RowsAreSchedule(ledger, front, plan, KeyOf(plan(last.task)));
      var read := ReadAt(front, last.task);
      if read.Some? {
        RowsAreSchedule(ledger, front[..read.value], plan, KeyOf(plan(last.task)));
        assert front[..read.value] == schedule[..read.value];
      }
    }
  }

  lemma {:induction false} RowsAreSchedule(ledger: Ledger, schedule: seq<Moment>, plan: Plan, key: (Uuid, Uuid))
    ensures key in After(ledger, schedule, plan).ledger.levels <==> HasRow(ledger.levels.Keys, schedule, plan, key)
    decreases |schedule|, 1
  {
    if schedule != [] {
      RowsAreSchedule(ledger, schedule[..|schedule| - 1], plan, key);
      LandingIs(ledger, schedule, plan);
    }
  }

  function SumOf(ledger: Ledger, key: (Uuid, Uuid)): int {
    LedgerSum(ledger.events, key.0, key.1)
  }

  function TotalOf(ledger: Ledger, key: (Uuid, Uuid)): int {
    LevelRow(ledger, key.0, key.1).totalXp
  }

  /** A commit adds its amount to the ledger sum of its user; unless that is 0, it sets the total to what was read plus
      the amount. */
  lemma CommitAdds(ledger: Ledger, s: AwardStep, row: Option<UserLevel>, key: (Uuid, Uuid))
    ensures var after := Committed(ledger, s, row);
            && SumOf(after, key) == SumOf(ledger, key) + (if key == KeyOf(s) then AmountOf(s) else 0)
            && TotalOf(after, key) == if key == KeyOf(s) && AmountOf(s) != 0 then Loaded(row).totalXp + AmountOf(s)
                                      else TotalOf(ledger, key)
  {
    var after := Committed(ledger, s, row);
    assert after.events[..|after.events| - 1] == ledger.events;
  }

  lemma {:induction false} SumSince(ledger: Ledger, schedule: seq<Moment>, plan: Plan, from: nat, key: (Uuid, Uuid))
    requires from <= |schedule|
    ensures SumOf(After(ledger, schedule, plan).ledger, key) ==
            SumOf(After(ledger, schedule[..from], plan).ledger, key)
            + Since(ledger.levels.Keys, schedule, plan, from, key)
    decreases |schedule|
  {
    if from == |schedule| {
      assert schedule[..from] == schedule;
    } else {
      var front, last := schedule[..|schedule| - 1], schedule[|schedule| - 1];
      SumSince(ledger, front, plan, from, key);
      assert front[..from] == schedule[..from];
      LandingIs(ledger, schedule, plan);
      if Lands(ledger.levels.Keys, schedule, plan) {
        var read := After(ledger, schedule[..ReadOf(ledger.levels.Keys, schedule, plan)], plan).ledger;
        CommitAdds(After(ledger, front, plan).ledger, plan(last.task), RowOf(read, plan(last.task)), key);
      }
    }
  }

  /** By how much the cached total of a user lags behind the ledger. */
  function Lag(ledger: Ledger, key: (Uuid, Uuid)): int {
    SumOf(ledger, key) - TotalOf(ledger, key)
  }

  lemma LagAfterCommit(ledger: Ledger, s: AwardStep, read: Ledger, missed: int)
    requires AmountOf(s) != 0 && SumOf(ledger, KeyOf(s)) == SumOf(read, KeyOf(s)) + missed
    ensures Lag(Committed(ledger, s, RowOf(read, s)), KeyOf(s)) == Lag(read, KeyOf(s)) + missed
  {
    CommitAdds(ledger, s, RowOf(read, s), KeyOf(s));
  }

  /** A commit of another user's award, or of an award of 0, does not change the lag. */
  lemma LagOfOthers(ledger: Ledger, s: AwardStep, row: Option<UserLevel>, key: (Uuid, Uuid))
    requires key != KeyOf(s) || AmountOf(s) == 0
    ensures Lag(Committed(ledger, s, row), key) == Lag(ledger, key)
  {
    CommitAdds(ledger, s, row, key);
  }

  /******* When the ledger law survives *******/

  /** The cached totals equal the ledger sums before, between and after all moments. */
  ghost predicate AgreesThroughout(ledger: Ledger, schedule: seq<Moment>, plan: Plan) {
    && CacheAgrees(After(ledger, schedule, plan).ledger)
    && (schedule != [] ==> AgreesThroughout(ledger, schedule[..|schedule| - 1], plan))
  }

  lemma {:induction false} AgreesAt(ledger: Ledger, schedule: seq<Moment>, plan: Plan, n: nat)
    requires AgreesThroughout(ledger, schedule, plan) && n <= |schedule|
    ensures CacheAgrees(After(ledger, schedule[..n], plan).ledger)
  {
    if n == |schedule| {
      assert schedule[..n] == schedule;
    } else {
      AgreesAt(ledger, schedule[..|schedule| - 1], plan, n);
      assert schedule[..|schedule| - 1][..n] == schedule[..n];
    }
  }

  lemma AgreesIsNoLag(ledger: Ledger)
    ensures CacheAgrees(ledger) <==> forall key: (Uuid, Uuid) :: Lag(ledger, key) == 0
  {
    if forall key: (Uuid, Uuid) :: Lag(ledger, key) == 0 {
      forall tenant: Uuid, user: Uuid
        ensures LevelRow(ledger, tenant, user).totalXp == LedgerSum(ledger.events, tenant, user)
      {
        assert Lag(ledger, (tenant, user)) == 0;
      }
    }
    if CacheAgrees(ledger) {
      forall key: (Uuid, Uuid) ensures Lag(ledger, key) == 0 {
        assert LevelRow(ledger, key.0, key.1).totalXp == LedgerSum(ledger.events, key.0, key.1);
      }
    }
  }

  /** One commit on top of tables that agree: they still do exactly if nothing has been missed. */
  lemma AgreementAfterCommit(before: Ledger, s: AwardStep, read: Ledger, missed: int)
    requires CacheAgrees(before) && CacheAgrees(read)
    requires SumOf(before, KeyOf(s)) == SumOf(read, KeyOf(s)) + missed
    ensures CacheAgrees(Committed(before, s, RowOf(read, s))) <==> AmountOf(s) == 0 || missed == 0
  {
    var after := Committed(before, s, RowOf(read, s));
    AgreesIsNoLag(before);
    AgreesIsNoLag(read);
    AgreesIsNoLag(after);
    if AmountOf(s) != 0 { LagAfterCommit(before, s, read, missed); }
    forall key: (Uuid, Uuid) | key != KeyOf(s) || AmountOf(s) == 0 ensures Lag(after, key) == 0 {
      LagOfOthers(before, s, RowOf(read, s), key);
    }
  }

  lemma PrefixOfFront(schedule: seq<Moment>, at: nat)
    requires at < |schedule|
    ensures schedule[..|schedule| - 1][..at] == schedule[..at]
  {}

  lemma SumBetween(ledger: Ledger, schedule: seq<Moment>, plan: Plan, at: nat, key: (Uuid, Uuid))
    requires at < |schedule|
    ensures SumOf(After(ledger, schedule[..|schedule| - 1], plan).ledger, key) ==
            SumOf(After(ledger, schedule[..at], plan).ledger, key)
            + Since(ledger.levels.Keys, schedule[..|schedule| - 1], plan, at, key)
  {
    SumSince(ledger, schedule[..|schedule| - 1], plan, at, key);
    PrefixOfFront(schedule, at);
  }

  lemma AgreesBefore(ledger: Ledger, schedule: seq<Moment>, plan: Plan, at: nat)
    requires at < |schedule| && AgreesThroughout(ledger, schedule[..|schedule| - 1], plan)
    ensures CacheAgrees(After(ledger, schedule[..at], plan).ledger)
  {
    AgreesAt(ledger, schedule[..|schedule| - 1], plan, at);
    PrefixOfFront(schedule, at);
  }

  /** One more moment: agreement goes on exactly if it is not a commit that writes a total and has missed something. */
  lemma AgreementStep(ledger: Ledger, schedule: seq<Moment>, plan: Plan)
    requires schedule != [] && AgreesThroughout(ledger, schedule[..|schedule| - 1], plan)
    ensures var rows := ledger.levels.Keys;
            CacheAgrees(After(ledger, schedule, plan).ledger) <==>
            (Writes(rows, schedule, plan) ==> Missed(rows, schedule, plan) == 0)
  {
    var rows, front := ledger.levels.Keys, schedule[..|schedule| - 1];
    LandingIs(ledger, schedule, plan);
    if Lands(rows, schedule, plan) {
      var at, s := ReadOf(rows, schedule, plan), plan(schedule[|schedule| - 1].task);
      SumBetween(ledger, schedule, plan, at, KeyOf(s));
      AgreesBefore(ledger, schedule, plan, at);
      AgreementAfterCommit(After(ledger, front, plan).ledger, s, After(ledger, schedule[..at], plan).ledger,
                           Missed(rows, schedule, plan));
    }
  }

  /** For awards of any amounts and users, under any schedule: the ledger law holds throughout exactly if what each
      commit that writes a total has missed adds up to nothing. */
  lemma {:induction false} CacheSurvivesIffNothingMissed(ledger: Ledger, schedule: seq<Moment>, plan: Plan)
    requires CacheAgrees(ledger)
    ensures AgreesThroughout(ledger, schedule, plan) <==> NothingMissed(ledger.levels.Keys, schedule, plan)
  {
    if schedule != [] {
      CacheSurvivesIffNothingMissed(ledger, schedule[..|schedule| - 1], plan);
      if AgreesThroughout(ledger, schedule[..|schedule| - 1], plan) { AgreementStep(ledger, schedule, plan); }
    }
  }

  ghost predicate NonNegativePlan(plan: Plan) {
    forall task: nat :: AmountOf(plan(task)) >= 0
  }

  lemma {:induction false} SinceIsGiven(rows: set<(Uuid, Uuid)>, schedule: seq<Moment>, plan: Plan, from: nat,
                                        key: (Uuid, Uuid))
    requires NonNegativePlan(plan)
    ensures Since(rows, schedule, plan, from, key) >= 0
    ensures Since(rows, schedule, plan, from, key) != 0 <==> GivesSince(rows, schedule, plan, from, key)
  {
    if from < |schedule| { SinceIsGiven(rows, schedule[..|schedule| - 1], plan, from, key); }
  }

  lemma {:induction false} MissedIsOverlap(rows: set<(Uuid, Uuid)>, schedule: seq<Moment>, plan: Plan)
    requires NonNegativePlan(plan)
    ensures NothingMissed(rows, schedule, plan) <==> NoOverlap(rows, schedule, plan)
  {
    if schedule != [] {
      var front := schedule[..|schedule| - 1];
      MissedIsOverlap(rows, front, plan);
      if Lands(rows, schedule, plan) {
        SinceIsGiven(rows, front, plan, ReadOf(rows, schedule, plan), KeyOf(plan(schedule[|schedule| - 1].task)));
      }
    }
  }

  /** For awards that are not negative the ledger law survives exactly if no two awards that give something to the same
      user overlap: a condition on the order of reads and commits alone. */
  lemma CacheSurvivesIffNoOverlap(ledger: Ledger, schedule: seq<Moment>, plan: Plan)
    requires CacheAgrees(ledger) && NonNegativePlan(plan)
    ensures AgreesThroughout(ledger, schedule, plan) <==> NoOverlap(ledger.levels.Keys, schedule, plan)
  {
    CacheSurvivesIffNothingMissed(ledger, schedule, plan);
    MissedIsOverlap(ledger.levels.Keys, schedule, plan);
  }

  /******* Overlapping awards as a sequence of whole ones *******/

  lemma {:induction false} RunAwardsAppend(ledger: Ledger, steps: seq<AwardStep>, s: AwardStep)
    ensures RunAwards(ledger, steps + [s]) == Award(RunAwards(ledger, steps), s.request, s.features, s.multiplier).1
    decreases |steps|
  {
    if steps == [] {
      assert [] + [s] == [s] && [s][1..] == [];
    } else {
      assert (steps + [s])[1..] == steps[1..] + [s];
      RunAwardsAppend(Award(ledger, steps[0].request, steps[0].features, steps[0].multiplier).1, steps[1..], s);
    }
  }

  /** The same events, the same users with a row, and the same totals; levels may differ. */
  ghost predicate SameBooks(a: Ledger, b: Ledger) {
    && a.events == b.events && a.levels.Keys == b.levels.Keys
    && forall key :: key in a.levels ==> a.levels[key].totalXp == b.levels[key].totalXp
  }

  lemma AwardKeepsSameBooks(a: Ledger, b: Ledger, s: AwardStep)
    requires SameBooks(a, b)
    ensures SameBooks(Award(a, s.request, s.features, s.multiplier).1, Award(b, s.request, s.features, s.multiplier).1)
  {}

  lemma SameBooksAgree(a: Ledger, b: Ledger)
    requires SameBooks(a, b)
    ensures CacheAgrees(a) <==> CacheAgrees(b)
  {
    forall tenant: Uuid, user: Uuid
      ensures LevelRow(a, tenant, user).totalXp == LevelRow(b, tenant, user).totalXp
    {
      assert (tenant, user) in a.levels <==> (tenant, user) in b.levels;
    }
  }

  /** A commit that writes no total, or whose row still has the total it read, keeps the books of a whole award. */
  lemma FreshCommitIsAward(ledger: Ledger, s: AwardStep, row: Option<UserLevel>)
    requires s.request.action in XP_ACTIONS
    requires AmountOf(s) == 0 || Loaded(row).totalXp == TotalOf(ledger, KeyOf(s))
    ensures SameBooks(Committed(ledger, s, row), Award(ledger, s.request, s.features, s.multiplier).1)
  {}

  lemma SameSumSameTotal(before: Ledger, read: Ledger, s: AwardStep)
    requires CacheAgrees(before) && CacheAgrees(read) && SumOf(before, KeyOf(s)) == SumOf(read, KeyOf(s))
    ensures Loaded(RowOf(read, s)).totalXp == TotalOf(before, KeyOf(s))
  {
    AgreesIsNoLag(before);
    AgreesIsNoLag(read);
    assert Lag(before, KeyOf(s)) == 0 == Lag(read, KeyOf(s));
    assert Loaded(RowOf(read, s)).totalXp == TotalOf(read, KeyOf(s));
  }

  /** A landing commit that has missed nothing, or gives nothing, keeps the books of a whole award. */
  lemma UnchangedSumIsAward(before: Ledger, read: Ledger, s: AwardStep)
    requires CacheAgrees(before) && CacheAgrees(read) && s.request.action in XP_ACTIONS
    requires AmountOf(s) == 0 || SumOf(before, KeyOf(s)) == SumOf(read, KeyOf(s))
    ensures SameBooks(Committed(before, s, RowOf(read, s)), Award(before, s.request, s.features, s.multiplier).1)
  {
    if AmountOf(s) != 0 { SameSumSameTotal(before, read, s); }
    FreshCommitIsAward(before, s, RowOf(read, s));
  }

  /** The books are at every moment those of the landed awards made one after the other, in the order of their
      commits. */
  ghost predicate SequentialThroughout(ledger: Ledger, schedule: seq<Moment>, plan: Plan) {
    && SameBooks(After(ledger, schedule, plan).ledger, RunAwards(ledger, Landed(ledger.levels.Keys, schedule, plan)))
    && (schedule != [] ==> SequentialThroughout(ledger, schedule[..|schedule| - 1], plan))
  }

  lemma LandingKeepsSequential(before: Ledger, whole: Ledger, s: AwardStep, read: Ledger)
    requires CacheAgrees(before) && CacheAgrees(read) && s.request.action in XP_ACTIONS && SameBooks(before, whole)
    requires AmountOf(s) == 0 || SumOf(before, KeyOf(s)) == SumOf(read, KeyOf(s))
    ensures SameBooks(Committed(before, s, RowOf(read, s)), Award(whole, s.request, s.features, s.multiplier).1)
  {
    UnchangedSumIsAward(before, read, s);
    AwardKeepsSameBooks(before, whole, s);
  }

  lemma {:induction false} AgreesIsSequential(ledger: Ledger, schedule: seq<Moment>, plan: Plan)
    requires CacheAgrees(ledger)
    ensures SequentialThroughout(ledger, schedule, plan) <==> AgreesThroughout(ledger, schedule, plan)
  {
    var rows := ledger.levels.Keys;
    var whole := RunAwards(ledger, Landed(rows, schedule, plan));
    CacheFollowsLedger(ledger, Landed(rows, schedule, plan));
    if SameBooks(After(ledger, schedule, plan).ledger, whole) {
      SameBooksAgree(After(ledger, schedule, plan).ledger, whole);
    }
    if schedule != [] {
      var front, s := schedule[..|schedule| - 1], plan(schedule[|schedule| - 1].task);
      AgreesIsSequential(ledger, front, plan);
      if AgreesThroughout(ledger, schedule, plan) {
        AgreementStep(ledger, schedule, plan);
        LandingIs(ledger, schedule, plan);
        if Lands(rows, schedule, plan) {
          var at := ReadOf(rows, schedule, plan);
          SumBetween(ledger, schedule, plan, at, KeyOf(s));
          AgreesBefore(ledger, schedule, plan, at);
          LandingKeepsSequential(After(ledger, front, plan).ledger, RunAwards(ledger, Landed(rows, front, plan)), s,
                                 After(ledger, schedule[..at], plan).ledger);
          RunAwardsAppend(ledger, Landed(rows, front, plan), s);
        } else {
          assert Landed(rows, schedule, plan) == Landed(rows, front, plan);
        }
      }
    }
  }

  /** Overlapping tasks keep the books of whole awards, one after the other, exactly if no two awards that give
      something to the same user overlap. */
  lemma SequentialIffNoOverlap(ledger: Ledger, schedule: seq<Moment>, plan: Plan)
    requires CacheAgrees(ledger) && NonNegativePlan(plan)
    ensures SequentialThroughout(ledger, schedule, plan) <==> NoOverlap(ledger.levels.Keys, schedule, plan)
  {
    AgreesIsSequential(ledger, schedule, plan);
    CacheSurvivesIffNoOverlap(ledger, schedule, plan);
  }

  /******* Levels *******/

  type Tables = Uuid -> seq<int>

  /** Every tenant keeps its thresholds. */
  ghost predicate FixedTables(plan: Plan, tables: Tables) {
    forall task: nat :: Thresholds(plan(task).features) == tables(plan(task).request.tenant)
  }

  /** Every stored level is the level of the stored total. */
  ghost predicate LevelsFit(ledger: Ledger, tables: Tables) {
    forall key :: key in ledger.levels ==>
      ledger.levels[key].level == LevelFor(ledger.levels[key].totalXp, tables(key.0))
  }

  lemma CommitFitsLevels(before: Ledger, s: AwardStep, read: Ledger, tables: Tables)
    requires LevelsFit(before, tables) && LevelsFit(read, tables)
    requires Thresholds(s.features) == tables(s.request.tenant)
    requires AmountOf(s) == 0 || Loaded(RowOf(read, s)).totalXp == TotalOf(before, KeyOf(s))
    requires KeyOf(s) in read.levels <==> KeyOf(s) in before.levels
    ensures LevelsFit(Committed(before, s, RowOf(read, s)), tables)
  {}

  lemma SameBooksSameLevels(a: Ledger, b: Ledger, tables: Tables)
    requires SameBooks(a, b) && LevelsFit(a, tables) && LevelsFit(b, tables)
    ensures a == b
  {
    assert a.levels == b.levels;
  }

  lemma {:induction false} WholeAwardsFit(ledger: Ledger, steps: seq<AwardStep>, tables: Tables)
    requires LevelsFit(ledger, tables)
    requires forall s <- steps :: Thresholds(s.features) == tables(s.request.tenant)
    ensures LevelsFit(RunAwards(ledger, steps), tables)
    decreases |steps|
  {
    if steps != [] {
      WholeAwardsFit(Award(ledger, steps[0].request, steps[0].features, steps[0].multiplier).1, steps[1..], tables);
    }
  }

  lemma {:induction false} LandedComeFromPlan(rows: set<(Uuid, Uuid)>, schedule: seq<Moment>,
                                              plan: Plan, tables: Tables)
    requires FixedTables(plan, tables)
    ensures forall s <- Landed(rows, schedule, plan) :: Thresholds(s.features) == tables(s.request.tenant)
  {
    if schedule != [] { LandedComeFromPlan(rows, schedule[..|schedule| - 1], plan, tables); }
  }

  lemma {:induction false} OverlapFreeLevelsFit(ledger: Ledger, schedule: seq<Moment>, plan: Plan, tables: Tables)
    requires CacheAgrees(ledger) && LevelsFit(ledger, tables) && FixedTables(plan, tables)
    requires AgreesThroughout(ledger, schedule, plan)
    ensures LevelsFit(After(ledger, schedule, plan).ledger, tables)
    decreases |schedule|
  {
    if schedule != [] {
      var rows, front, s := ledger.levels.Keys, schedule[..|schedule| - 1], plan(schedule[|schedule| - 1].task);
      OverlapFreeLevelsFit(ledger, front, plan, tables);
      LandingIs(ledger, schedule, plan);
      if Lands(rows, schedule, plan) {
        var at := ReadOf(rows, schedule, plan);
        AgreesBeforeAll(ledger, schedule, plan, at);
        OverlapFreeLevelsFit(ledger, schedule[..at], plan, tables);
        LandingFitsLevels(ledger, schedule, plan, tables, at, s);
      }
    }
  }

  lemma {:induction false} AgreesBeforeAll(ledger: Ledger, schedule: seq<Moment>, plan: Plan, n: nat)
    requires n <= |schedule| && AgreesThroughout(ledger, schedule, plan)
    ensures AgreesThroughout(ledger, schedule[..n], plan)
  {
    if n == |schedule| {
      assert schedule[..n] == schedule;
    } else {
      AgreesBeforeAll(ledger, schedule[..|schedule| - 1], plan, n);
      PrefixOfFront(schedule, n);
    }
  }

  lemma LandingFitsLevels(ledger: Ledger, schedule: seq<Moment>, plan: Plan, tables: Tables, at: nat, s: AwardStep)
    requires AgreesThroughout(ledger, schedule, plan) && FixedTables(plan, tables)
    requires Lands(ledger.levels.Keys, schedule, plan) && at == ReadOf(ledger.levels.Keys, schedule, plan)
    requires s == plan(schedule[|schedule| - 1].task)
    requires LevelsFit(After(ledger, schedule[..|schedule| - 1], plan).ledger, tables)
    requires LevelsFit(After(ledger, schedule[..at], plan).ledger, tables)
    ensures LevelsFit(After(ledger, schedule, plan).ledger, tables)
  {
    var before, read := After(ledger, schedule[..|schedule| - 1], plan).ledger,
                        After(ledger, schedule[..at], plan).ledger;
    LandingIs(ledger, schedule, plan);
    AgreementStep(ledger, schedule, plan);
    SumBetween(ledger, schedule, plan, at, KeyOf(s));
    AgreesBefore(ledger, schedule, plan, at);
    if AmountOf(s) != 0 { SameSumSameTotal(before, read, s); }
    RowSinceRead(ledger, schedule, plan, at, KeyOf(s));
    CommitFitsLevels(before, s, read, tables);
  }

  /** The user of a landing commit has a row at the commit exactly if there was one at the read. */
  lemma RowSinceRead(ledger: Ledger, schedule: seq<Moment>, plan: Plan, at: nat, key: (Uuid, Uuid))
    requires Lands(ledger.levels.Keys, schedule, plan) && at == ReadOf(ledger.levels.Keys, schedule, plan)
    requires key == KeyOf(plan(schedule[|schedule| - 1].task))
    ensures key in After(ledger, schedule[..at], plan).ledger.levels <==>
            key in After(ledger, schedule[..|schedule| - 1], plan).ledger.levels
  {
    var front := schedule[..|schedule| - 1];
    RowsAreSchedule(ledger, front, plan, key);
    RowsAreSchedule(ledger, schedule[..at], plan, key);
    PrefixOfFront(schedule, at);
    if HasRow(ledger.levels.Keys, schedule[..at], plan, key) { RowsRemain(ledger.levels.Keys, front, plan, at, key); }
  }

  lemma {:induction false} RowsRemain(rows: set<(Uuid, Uuid)>, schedule: seq<Moment>, plan: Plan,
                                      n: nat, key: (Uuid, Uuid))
    requires n <= |schedule| && HasRow(rows, schedule[..n], plan, key)
    ensures HasRow(rows, schedule, plan, key)
  {
    if n == |schedule| {
      assert schedule[..n] == schedule;
    } else {
      PrefixOfFront(schedule, n);
      RowsRemain(rows, schedule[..|schedule| - 1], plan, n, key);
    }
  }

  lemma LevelsFollow(ledger: Ledger, schedule: seq<Moment>, plan: Plan, tables: Tables)
    requires CacheAgrees(ledger) && LevelsFit(ledger, tables) && NonNegativePlan(plan) && FixedTables(plan, tables)
    requires NoOverlap(ledger.levels.Keys, schedule, plan)
    ensures After(ledger, schedule, plan).ledger == RunAwards(ledger, Landed(ledger.levels.Keys, schedule, plan))
  {
    var rows := ledger.levels.Keys;
    SequentialIffNoOverlap(ledger, schedule, plan);
    CacheSurvivesIffNoOverlap(ledger, schedule, plan);
    OverlapFreeLevelsFit(ledger, schedule, plan, tables);
    LandedComeFromPlan(rows, schedule, plan, tables);
    WholeAwardsFit(ledger, Landed(rows, schedule, plan), tables);
    SameBooksSameLevels(After(ledger, schedule, plan).ledger, RunAwards(ledger, Landed(rows, schedule, plan)), tables);
  }

  /** The tables, levels included, are at every moment exactly those of the landed awards made one after the other. */
  ghost predicate WholeThroughout(ledger: Ledger, schedule: seq<Moment>, plan: Plan) {
    && After(ledger, schedule, plan).ledger == RunAwards(ledger, Landed(ledger.levels.Keys, schedule, plan))
    && (schedule != [] ==> WholeThroughout(ledger, schedule[..|schedule| - 1], plan))
  }

  lemma {:induction false} WholeIsSequential(ledger: Ledger, schedule: seq<Moment>, plan: Plan)
    requires WholeThroughout(ledger, schedule, plan)
    ensures SequentialThroughout(ledger, schedule, plan)
  {
    if schedule != [] { WholeIsSequential(ledger, schedule[..|schedule| - 1], plan); }
  }

  lemma {:induction false} NoOverlapIsWhole(ledger: Ledger, schedule: seq<Moment>, plan: Plan, tables: Tables)
    requires CacheAgrees(ledger) && LevelsFit(ledger, tables) && NonNegativePlan(plan) && FixedTables(plan, tables)
    requires NoOverlap(ledger.levels.Keys, schedule, plan)
    ensures WholeThroughout(ledger, schedule, plan)
  {
    LevelsFollow(ledger, schedule, plan, tables);
    if schedule != [] { NoOverlapIsWhole(ledger, schedule[..|schedule| - 1], plan, tables); }
  }

  /** While every tenant keeps its thresholds, levels follow the books: overlapping tasks leave exactly the tables of
      whole awards, one after the other, if and only if no two awards that give something to the same user overlap. */
  lemma WholeIffNoOverlap(ledger: Ledger, schedule: seq<Moment>, plan: Plan, tables: Tables)
    requires CacheAgrees(ledger) && LevelsFit(ledger, tables) && NonNegativePlan(plan) && FixedTables(plan, tables)
    ensures WholeThroughout(ledger, schedule, plan) <==> NoOverlap(ledger.levels.Keys, schedule, plan)
  {
    SequentialIffNoOverlap(ledger, schedule, plan);
    if WholeThroughout(ledger, schedule, plan) { WholeIsSequential(ledger, schedule, plan); }
    if NoOverlap(ledger.levels.Keys, schedule, plan) { NoOverlapIsWhole(ledger, schedule, plan, tables); }
  }

  /******* What goes wrong *******/

  const OVERLAP: seq<Moment> := [Read(1), Read(2), Commit(1), Commit(2)]

  lemma OverlapUnfolds(ledger: Ledger, plan: Plan)
    ensures var first := if Accepted(ledger, plan(1), RowOf(ledger, plan(1)))
                         then Committed(ledger, plan(1), RowOf(ledger, plan(1))) else ledger;
            After(ledger, OVERLAP, plan) ==
            Race(if Accepted(first, plan(2), RowOf(ledger, plan(2)))
                 then Committed(first, plan(2), RowOf(ledger, plan(2))) else first, map[])
  {
    var one, two := RowOf(ledger, plan(1)), RowOf(ledger, plan(2));
    var s1, s2, s3 := [Read(1)], [Read(1), Read(2)], [Read(1), Read(2), Commit(1)];
    assert s1[..0] == [] && s2[..1] == s1 && s3[..2] == s2 && OVERLAP[..3] == s3;
    assert After(ledger, s1, plan) == Race(ledger, map[1 := one]);
    assert After(ledger, s2, plan) == Race(ledger, map[1 := one, 2 := two]);
    var first := if Accepted(ledger, plan(1), one) then Committed(ledger, plan(1), one) else ledger;
    assert map[1 := one, 2 := two] - {1} == map[2 := two];
    assert After(ledger, s3, plan) == Race(first, map[2 := two]);
    assert map[2 := two] - {2} == map[];
  }

  /** Two overlapping awards that give something to a user who has a level row: both events are recorded, and the
      total has only the second one. */
  lemma LostUpdate(ledger: Ledger, plan: Plan)
    requires KeyOf(plan(1)) == KeyOf(plan(2)) && KeyOf(plan(1)) in ledger.levels
    requires plan(1).request.action in XP_ACTIONS && plan(2).request.action in XP_ACTIONS && AmountOf(plan(2)) != 0
    ensures var after, key := After(ledger, OVERLAP, plan).ledger, KeyOf(plan(1));
            && SumOf(after, key) == SumOf(ledger, key) + AmountOf(plan(1)) + AmountOf(plan(2))
            && TotalOf(after, key) == TotalOf(ledger, key) + AmountOf(plan(2))
  {
    OverlapUnfolds(ledger, plan);
    var first := Committed(ledger, plan(1), RowOf(ledger, plan(1)));
    CommitAdds(ledger, plan(1), RowOf(ledger, plan(1)), KeyOf(plan(1)));
    CommitAdds(first, plan(2), RowOf(ledger, plan(2)), KeyOf(plan(1)));
  }

  /** The level may then belong to neither total: when the first award has raised it and the second one, from the total
      it has read, computes the level it has read, the raised level stays beside the second total. */
  lemma LevelLeftBehind(ledger: Ledger, plan: Plan)
    requires KeyOf(plan(1)) == KeyOf(plan(2)) && KeyOf(plan(1)) in ledger.levels
    requires plan(1).request.action in XP_ACTIONS && plan(2).request.action in XP_ACTIONS && AmountOf(plan(2)) != 0
    requires var row := ledger.levels[KeyOf(plan(1))];
             && LevelFor(row.totalXp + AmountOf(plan(1)), Thresholds(plan(1).features)) > row.level
             && LevelFor(row.totalXp + AmountOf(plan(2)), Thresholds(plan(2).features)) == row.level
    ensures var row, after := ledger.levels[KeyOf(plan(1))], After(ledger, OVERLAP, plan).ledger;
            && KeyOf(plan(1)) in after.levels
            && after.levels[KeyOf(plan(1))] ==
               UserLevel(row.totalXp + AmountOf(plan(2)),
                         LevelFor(row.totalXp + AmountOf(plan(1)), Thresholds(plan(1).features)))
  {
    OverlapUnfolds(ledger, plan);
  }

  /** For a user without a row, the unique index fails the second task ... */
  lemma FirstAwardsCollide(ledger: Ledger, plan: Plan)
    requires KeyOf(plan(1)) == KeyOf(plan(2)) && KeyOf(plan(1)) !in ledger.levels
    requires plan(1).request.action in XP_ACTIONS
    ensures After(ledger, OVERLAP, plan) == Race(RunAwards(ledger, [plan(1)]), map[])
  {
    OverlapUnfolds(ledger, plan);
    FirstCommitIsAward(ledger, plan(1));
    assert [plan(1)][1..] == [];
  }

  lemma FirstCommitIsAward(ledger: Ledger, s: AwardStep)
    requires s.request.action in XP_ACTIONS
    ensures Committed(ledger, s, RowOf(ledger, s)) == Award(ledger, s.request, s.features, s.multiplier).1
  {}

  /** ... and its retry, which reads again, makes the award after all: both awards are recorded, in full. */
  lemma RetryRecovers(ledger: Ledger, plan: Plan)
    requires KeyOf(plan(1)) == KeyOf(plan(2)) && KeyOf(plan(1)) !in ledger.levels
    requires plan(1).request.action in XP_ACTIONS && plan(2).request.action in XP_ACTIONS
    ensures After(ledger, OVERLAP + [Read(2)] + [Commit(2)], plan).ledger == RunAwards(ledger, [plan(1), plan(2)])
  {
    var first := RunAwards(ledger, [plan(1)]);
    FirstAwardsCollide(ledger, plan);
    assert (OVERLAP + [Read(2)])[..4] == OVERLAP;
    assert (OVERLAP + [Read(2)] + [Commit(2)])[..5] == OVERLAP + [Read(2)];
    assert After(ledger, OVERLAP + [Read(2)], plan) == Race(first, map[2 := RowOf(first, plan(2))]);
    FirstCommitIsAward(first, plan(2));
    RunAwardsAppend(ledger, [plan(1)], plan(2));
    assert [plan(1)] + [plan(2)] == [plan(1), plan(2)];
  }

  /******* Lost experience stays lost *******/

  ghost predicate PositivePlan(plan: Plan) {
    forall task: nat :: AmountOf(plan(task)) > 0
  }

  /** A moment with which no award of the user lands leaves the lag alone. */
  lemma LagOtherwise(ledger: Ledger, schedule: seq<Moment>, plan: Plan, key: (Uuid, Uuid))
    requires schedule != []
    requires Lands(ledger.levels.Keys, schedule, plan) ==> key != KeyOf(plan(schedule[|schedule| - 1].task))
    ensures Lag(After(ledger, schedule, plan).ledger, key) ==
            Lag(After(ledger, schedule[..|schedule| - 1], plan).ledger, key)
  {
    LandingIs(ledger, schedule, plan);
    if Lands(ledger.levels.Keys, schedule, plan) {
      var s := plan(schedule[|schedule| - 1].task);
      LagOfOthers(After(ledger, schedule[..|schedule| - 1], plan).ledger, s,
                  RowOf(After(ledger, schedule[..ReadOf(ledger.levels.Keys, schedule, plan)], plan).ledger, s), key);
    }
  }

  lemma LagOfLanding(ledger: Ledger, schedule: seq<Moment>, plan: Plan, at: nat, s: AwardStep)
    requires Writes(ledger.levels.Keys, schedule, plan)
    requires at == ReadOf(ledger.levels.Keys, schedule, plan) && s == plan(schedule[|schedule| - 1].task)
    ensures Lag(After(ledger, schedule, plan).ledger, KeyOf(s)) ==
            Lag(After(ledger, schedule[..at], plan).ledger, KeyOf(s)) + Missed(ledger.levels.Keys, schedule, plan)
  {
    LandingIs(ledger, schedule, plan);
    SumBetween(ledger, schedule, plan, at, KeyOf(s));
    LagAfterCommit(After(ledger, schedule[..|schedule| - 1], plan).ledger, s,
                   After(ledger, schedule[..at], plan).ledger,
                   Missed(ledger.levels.Keys, schedule, plan));
  }

  lemma {:induction false} QuietLag(ledger: Ledger, schedule: seq<Moment>, plan: Plan, from: nat, key: (Uuid, Uuid))
    requires PositivePlan(plan) && from <= |schedule| && !GivesSince(ledger.levels.Keys, schedule, plan, from, key)
    ensures Lag(After(ledger, schedule, plan).ledger, key) == Lag(After(ledger, schedule[..from], plan).ledger, key)
    decreases |schedule|
  {
    if from == |schedule| {
      assert schedule[..from] == schedule;
    } else {
      QuietLag(ledger, schedule[..|schedule| - 1], plan, from, key);
      PrefixOfFront(schedule, from);
      LagOtherwise(ledger, schedule, plan, key);
    }
  }

  /** A landing commit never makes up for a lag there was before it. */
  lemma LandingKeepsLag(ledger: Ledger, schedule: seq<Moment>, plan: Plan, at: nat, s: AwardStep)
    requires PositivePlan(plan) && Lands(ledger.levels.Keys, schedule, plan)
    requires at == ReadOf(ledger.levels.Keys, schedule, plan) && s == plan(schedule[|schedule| - 1].task)
    requires Lag(After(ledger, schedule[..at], plan).ledger, KeyOf(s)) >= 0
    ensures Lag(After(ledger, schedule, plan).ledger, KeyOf(s)) >= 0
    ensures Lag(After(ledger, schedule[..|schedule| - 1], plan).ledger, KeyOf(s)) > 0 ==>
              Lag(After(ledger, schedule, plan).ledger, KeyOf(s)) > 0
  {
    var rows, front := ledger.levels.Keys, schedule[..|schedule| - 1];
    LagOfLanding(ledger, schedule, plan, at, s);
    SinceIsGiven(rows, front, plan, at, KeyOf(s));
    if Missed(rows, schedule, plan) == 0 {
      QuietLag(ledger, front, plan, at, KeyOf(s));
      PrefixOfFront(schedule, at);
    }
  }

  lemma {:induction false} LagNeverNegative(ledger: Ledger, schedule: seq<Moment>, plan: Plan, key: (Uuid, Uuid))
    requires CacheAgrees(ledger) && PositivePlan(plan)
    ensures Lag(After(ledger, schedule, plan).ledger, key) >= 0
    decreases |schedule|
  {
    if schedule == [] {
      AgreesIsNoLag(ledger);
    } else {
      var rows, s := ledger.levels.Keys, plan(schedule[|schedule| - 1].task);
      if Lands(rows, schedule, plan) && KeyOf(s) == key {
        var at := ReadOf(rows, schedule, plan);
        LagNeverNegative(ledger, schedule[..at], plan, key);
        LandingKeepsLag(ledger, schedule, plan, at, s);
      } else {
        LagNeverNegative(ledger, schedule[..|schedule| - 1], plan, key);
        LagOtherwise(ledger, schedule, plan, key);
      }
    }
  }

  lemma LagStays(ledger: Ledger, schedule: seq<Moment>, plan: Plan, key: (Uuid, Uuid))
    requires CacheAgrees(ledger) && PositivePlan(plan) && schedule != []
    requires Lag(After(ledger, schedule[..|schedule| - 1], plan).ledger, key) > 0
    ensures Lag(After(ledger, schedule, plan).ledger, key) > 0
  {
    var rows, s := ledger.levels.Keys, plan(schedule[|schedule| - 1].task);
    if Lands(rows, schedule, plan) && KeyOf(s) == key {
      var at := ReadOf(rows, schedule, plan);
      LagNeverNegative(ledger, schedule[..at], plan, key);
      LandingKeepsLag(ledger, schedule, plan, at, s);
    } else {
      LagOtherwise(ledger, schedule, plan, key);
    }
  }

  lemma {:induction false} AgreementAtEnd(ledger: Ledger, schedule: seq<Moment>, plan: Plan)
    requires CacheAgrees(ledger) && PositivePlan(plan) && CacheAgrees(After(ledger, schedule, plan).ledger)
    ensures AgreesThroughout(ledger, schedule, plan)
  {
    if schedule != [] {
      var front := schedule[..|schedule| - 1];
      AgreesIsNoLag(After(ledger, schedule, plan).ledger);
      AgreesIsNoLag(After(ledger, front, plan).ledger);
      forall key: (Uuid, Uuid) ensures Lag(After(ledger, front, plan).ledger, key) == 0 {
        LagNeverNegative(ledger, front, plan, key);
        if Lag(After(ledger, front, plan).ledger, key) > 0 { LagStays(ledger, schedule, plan, key); }
      }
      AgreementAtEnd(ledger, front, plan);
    }
  }

  /** With positive awards a lost update is never made up for: the totals are right at the end exactly if no awards of
      one user have overlapped. */
  lemma RightAtTheEndIffNoOverlap(ledger: Ledger, schedule: seq<Moment>, plan: Plan)
    requires CacheAgrees(ledger) && PositivePlan(plan)
    ensures CacheAgrees(After(ledger, schedule, plan).ledger) <==> NoOverlap(ledger.levels.Keys, schedule, plan)
  {
    CacheSurvivesIffNoOverlap(ledger, schedule, plan);
    if CacheAgrees(After(ledger, schedule, plan).ledger) { AgreementAtEnd(ledger, schedule, plan); }
  }
}
