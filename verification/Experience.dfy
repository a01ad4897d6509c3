/** Experience points: the append-only ledger, the cached total and the level. */
module Experience {
  import opened Wrappers

  const DEFAULT_XP: map<string, int> := map[
    "lesson_completed" := 10,
    "quiz_passed" := 20,
    "comment_posted" := 5,
    "post_liked" := 2,
    "streak_maintained" := 15,
    "badge_earned" := 25,
    "battle_won" := 30,
    "battle_participated" := 10
  ]

  const DEFAULT_THRESHOLDS: seq<int> := [0, 100, 300, 600, 1000, 1500, 2100, 2800, 3600, 4500]

  /** The members of the ledger's action column; the database rejects anything else. */
  const XP_ACTIONS: set<string> := {
    "lesson_completed", "quiz_passed", "comment_posted", "post_liked",
    "streak_maintained", "badge_earned", "battle_won", "battle_participated"
  }

  /** The part of a tenant's `features` this component reads; an absent entry means the default. */
  datatype Features = Features(xpAmounts: map<string, int>, levelThresholds: Option<seq<int>>)

  datatype XPEvent = XPEvent(tenant: Uuid, user: Uuid, company: Option<Uuid>, action: string, amount: int,
                             reference: Option<Uuid>, referenceType: Option<string>)

  datatype UserLevel = UserLevel(totalXp: int, level: int)

  datatype SpecialEvent = SpecialEvent(tenant: Uuid, company: Option<Uuid>, multiplier: Option<int>,
                                       startsAt: int, endsAt: int, isActive: bool)

  datatype AwardRequest = AwardRequest(user: Uuid, tenant: Uuid, company: Option<Uuid>, action: string,
                                       reference: Option<Uuid>, referenceType: Option<string>)

  datatype AwardResult = AwardResult(leveledUp: bool, oldLevel: int, newLevel: int, xpAwarded: int)

  datatype AwardError = InvalidAction

  /** The two tables an award writes; levels are keyed by (tenant, user). */
  datatype Ledger = Ledger(events: seq<XPEvent>, levels: map<(Uuid, Uuid), UserLevel>)

  function XpForAction(features: Features, action: string): int {
    if action in features.xpAmounts then features.xpAmounts[action]
    else if action in DEFAULT_XP then DEFAULT_XP[action]
    else 0
  }

  function Thresholds(features: Features): seq<int> {
    match features.levelThresholds
    case Some(thresholds) => thresholds
    case None => DEFAULT_THRESHOLDS
  }

  /******* Levels *******/

  /** The length of the longest prefix of thresholds that `totalXp` has reached. */
  function ReachedPrefix(totalXp: int, thresholds: seq<int>): nat {
    if thresholds == [] || totalXp < thresholds[0] then 0
    else 1 + ReachedPrefix(totalXp, thresholds[1..])
  }

  function LevelFor(totalXp: int, thresholds: seq<int>): nat {
    var reached := ReachedPrefix(totalXp, thresholds);
    if reached < 1 then 1 else reached
  }

  /** `n` is where scanning the thresholds in order stops. */
  ghost predicate IsLongestPrefix(totalXp: int, thresholds: seq<int>, n: nat) {
    && n <= |thresholds|
    && (forall i :: 0 <= i < n ==> thresholds[i] <= totalXp)
    && (n < |thresholds| ==> totalXp < thresholds[n])
  }

  lemma {:induction false} ReachedPrefixIsLongest(totalXp: int, thresholds: seq<int>)
    ensures IsLongestPrefix(totalXp, thresholds, ReachedPrefix(totalXp, thresholds))
    ensures forall n: nat :: IsLongestPrefix(totalXp, thresholds, n) ==> n == ReachedPrefix(totalXp, thresholds)
  {
    if thresholds != [] && thresholds[0] <= totalXp {
      ReachedPrefixIsLongest(totalXp, thresholds[1..]);
      forall n: nat | IsLongestPrefix(totalXp, thresholds, n) ensures n == ReachedPrefix(totalXp, thresholds) {
        assert IsLongestPrefix(totalXp, thresholds[1..], n - 1);
      }
    }
  }

  /** The scan with a break, as written: the level is the longest reached prefix, at least 1. */
  method ComputeLevel(totalXp: int, thresholds: seq<int>) returns (level: int)
    ensures level == LevelFor(totalXp, thresholds)
  {
    level := 1;
    var i := 0;
    while i < |thresholds|
      invariant 0 <= i <= |thresholds|
      invariant forall j :: 0 <= j < i ==> thresholds[j] <= totalXp
      invariant level == if i == 0 then 1 else i
    {
      if totalXp >= thresholds[i] {
        level := i + 1;
      } else {
        break;
      }
      i := i + 1;
    }
    ReachedPrefixIsLongest(totalXp, thresholds);
    assert IsLongestPrefix(totalXp, thresholds, i);
    level := if level < 1 then 1 else level;
  }

  /** More experience never lowers the level, even for thresholds that are not sorted. */
  lemma {:induction false} LevelMonotone(low: int, high: int, thresholds: seq<int>)
    requires low <= high
    ensures ReachedPrefix(low, thresholds) <= ReachedPrefix(high, thresholds) <= |thresholds|
    ensures 1 <= LevelFor(low, thresholds) <= LevelFor(high, thresholds)
    ensures LevelFor(high, thresholds) <= if thresholds == [] then 1 else |thresholds|
  {
    if thresholds != [] && thresholds[0] <= high {
      LevelMonotone(low, high, thresholds[1..]);
    }
  }

  /** On the default table: level L below 10 is exactly the band 50L(L-1) <= xp < 50L(L+1). */
  lemma DefaultLevelBands(xp: int, level: nat)
    requires 0 <= xp && 1 <= level <= 10
    ensures LevelFor(xp, DEFAULT_THRESHOLDS) == level <==>
            50 * level * (level - 1) <= xp && (level == 10 || xp < 50 * level * (level + 1))
  {
    var t := DEFAULT_THRESHOLDS;
    var reached := ReachedPrefix(xp, t);
    ReachedPrefixIsLongest(xp, t);
    assert t[0] == 0;
    assert reached >= 1;
    forall i: nat | i < 10 ensures t[i] == 50 * (i + 1) * i {
      assert i == 0 || i == 1 || i == 2 || i == 3 || i == 4 || i == 5 || i == 6 || i == 7 || i == 8 || i == 9;
    }
    assert forall i, j :: 0 <= i < j < 10 ==> t[i] < t[j];
    if 50 * level * (level - 1) <= xp && (level == 10 || xp < 50 * level * (level + 1)) {
      assert t[level - 1] <= xp && (level < 10 ==> xp < t[level]);
      assert IsLongestPrefix(xp, t, level);
    }
  }

  /******* Multipliers *******/

  predicate Eligible(e: SpecialEvent, tenant: Uuid, company: Option<Uuid>, now: int) {
    && e.tenant == tenant
    && e.isActive
    && e.startsAt <= now <= e.endsAt
    && (e.company == None || e.company == company)
  }

  function EffectiveMultiplier(e: SpecialEvent): int {
    if e.multiplier.Some? && e.multiplier.value != 0 then e.multiplier.value else 1
  }

  /** `m` is what some eligible event pays, or 1 when there is none; the query has no ORDER BY. */
  ghost predicate IsMultiplier(events: seq<SpecialEvent>, tenant: Uuid, company: Option<Uuid>, now: int, m: int) {
    if exists e :: e in events && Eligible(e, tenant, company, now)
    then exists e :: e in events && Eligible(e, tenant, company, now) && m == EffectiveMultiplier(e)
    else m == 1
  }

  /** `limit(1)` without an order returns any eligible row. */
  method ActiveMultiplier(events: seq<SpecialEvent>, tenant: Uuid, company: Option<Uuid>, now: int) returns (m: int)
    ensures IsMultiplier(events, tenant, company, now, m)
  {
    if e :| e in events && Eligible(e, tenant, company, now) {
      m := EffectiveMultiplier(e);
    } else {
      m := 1;
    }
  }

  /** The one event there is applies while it runs and is active, to its own tenant, and to one company or to all; a
      multiplier that is unset or 0 counts as 1. */
  lemma OneEventApplies(e: SpecialEvent, tenant: Uuid, company: Option<Uuid>, now: int, m: int)
    ensures IsMultiplier([e], tenant, company, now, m) <==>
            m == if e.tenant == tenant && e.isActive && e.startsAt <= now && now <= e.endsAt
                    && (e.company.Some? ==> company.Some? && company.value == e.company.value)
                    && e.multiplier.Some? && e.multiplier.value != 0
                 then e.multiplier.value else 1
  {
    assert e in [e];
  }

  /******* Awards *******/

  function LevelRow(ledger: Ledger, tenant: Uuid, user: Uuid): UserLevel {
    if (tenant, user) in ledger.levels then ledger.levels[(tenant, user)] else UserLevel(0, 1)
  }

  /** One committed award: what it returns and the tables it leaves. */
  function Award(ledger: Ledger, r: AwardRequest, features: Features, multiplier: int)
    : (Result<AwardResult, AwardError>, Ledger)
  {
    if r.action !in XP_ACTIONS then
      (Failure(InvalidAction), ledger)
    else
      var amount := XpForAction(features, r.action) * multiplier;
      var row := LevelRow(ledger, r.tenant, r.user);
      var total := row.totalXp + amount;
      var level := LevelFor(total, Thresholds(features));
      var event := XPEvent(r.tenant, r.user, r.company, r.action, amount, r.reference, r.referenceType);
      (Success(AwardResult(level > row.level, row.level, level, amount)),
       Ledger(ledger.events + [event], ledger.levels[(r.tenant, r.user) := UserLevel(total, level)]))
  }

  function Amount(e: XPEvent, tenant: Uuid, user: Uuid): int {
    if e.tenant == tenant && e.user == user then e.amount else 0
  }

  /** The sum the badge service computes over the ledger of one user in one tenant. */
  function LedgerSum(events: seq<XPEvent>, tenant: Uuid, user: Uuid): int {
    if events == [] then 0
    else LedgerSum(events[..|events| - 1], tenant, user) + Amount(events[|events| - 1], tenant, user)
  }

  /** Every cached total is the sum of the ledger; a user without a row has earned nothing. */
  ghost predicate CacheAgrees(ledger: Ledger) {
    forall tenant: Uuid, user: Uuid ::
      LevelRow(ledger, tenant, user).totalXp == LedgerSum(ledger.events, tenant, user)
  }

  datatype AwardStep = AwardStep(request: AwardRequest, features: Features, multiplier: int)

  function RunAwards(ledger: Ledger, steps: seq<AwardStep>): Ledger
    decreases |steps|
  {
    if steps == [] then ledger
    else RunAwards(Award(ledger, steps[0].request, steps[0].features, steps[0].multiplier).1, steps[1..])
  }

  lemma AwardKeepsCache(ledger: Ledger, r: AwardRequest, features: Features, multiplier: int)
    requires CacheAgrees(ledger)
    ensures CacheAgrees(Award(ledger, r, features, multiplier).1)
  {
    var after := Award(ledger, r, features, multiplier).1;
    if r.action in XP_ACTIONS {
      assert after.events[..|after.events| - 1] == ledger.events;
      forall tenant: Uuid, user: Uuid
        ensures LevelRow(after, tenant, user).totalXp == LedgerSum(after.events, tenant, user)
      {
        assert LevelRow(ledger, tenant, user).totalXp == LedgerSum(ledger.events, tenant, user);
      }
    }
  }

  /** What an award pays: the tenant's own amount if it has set one, and otherwise that of the default table, times the
      multiplier; actions outside the enumeration pay nothing. */
  lemma AwardPays(ledger: Ledger, r: AwardRequest, features: Features, multiplier: int)
    ensures var (result, after) := Award(ledger, r, features, multiplier);
            var amount := if r.action in features.xpAmounts then features.xpAmounts[r.action]
                          else match r.action
                               case "lesson_completed" => 10
                               case "quiz_passed" => 20
                               case "comment_posted" => 5
                               case "post_liked" => 2
                               case "streak_maintained" => 15
                               case "badge_earned" => 25
                               case "battle_won" => 30
                               case _ => 10;
            if r.action in {"lesson_completed", "quiz_passed", "comment_posted", "post_liked", "streak_maintained",
                            "badge_earned", "battle_won", "battle_participated"}
            then result.Success? && result.value.xpAwarded == amount * multiplier
                 && (forall tenant, user ::
                       LedgerSum(after.events, tenant, user) == LedgerSum(ledger.events, tenant, user)
                         + if tenant == r.tenant && user == r.user then amount * multiplier else 0)
                 && after.events == ledger.events + [XPEvent(r.tenant, r.user, r.company, r.action, amount * multiplier,
                                                             r.reference, r.referenceType)]
            else result.Failure? && after == ledger
  {
    var after := Award(ledger, r, features, multiplier).1;
    if r.action in XP_ACTIONS {
      assert after.events[..|after.events| - 1] == ledger.events;
    }
  }

  /** What it leaves in the level row: the sum, and the level that the tenant's own thresholds, or else the default
      ones, give it; it reports a level-up exactly if the level has risen, from 1 where there was no row. */
  lemma AwardSetsLevel(ledger: Ledger, r: AwardRequest, features: Features, multiplier: int)
    requires Award(ledger, r, features, multiplier).0.Success?
    ensures var (result, after) := Award(ledger, r, features, multiplier);
            var key := (r.tenant, r.user);
            && key in after.levels && after.levels == ledger.levels[key := after.levels[key]]
            && var row, was := after.levels[key], if key in ledger.levels then ledger.levels[key] else UserLevel(0, 1);
               && row.totalXp == was.totalXp + result.value.xpAwarded
               && result.value.oldLevel == was.level && result.value.newLevel == row.level
               && (result.value.leveledUp <==> row.level > was.level)
               && (features.levelThresholds.Some? ==>
                     exists n: nat :: IsLongestPrefix(row.totalXp, features.levelThresholds.value, n)
                                      && row.level == if n == 0 then 1 else n)
               && (features.levelThresholds == None && row.totalXp >= 0 ==>
                     forall level: nat | 1 <= level <= 10 ::
                       row.level == level <==> 50 * level * (level - 1) <= row.totalXp
                                               && (level == 10 || row.totalXp < 50 * level * (level + 1)))
  {
    var total := LevelRow(ledger, r.tenant, r.user).totalXp + Award(ledger, r, features, multiplier).0.value.xpAwarded;
    if features.levelThresholds.Some? { ReachedPrefixIsLongest(total, features.levelThresholds.value); }
    if total >= 0 {
      forall level: nat | 1 <= level <= 10
        ensures LevelFor(total, DEFAULT_THRESHOLDS) == level <==>
                50 * level * (level - 1) <= total && (level == 10 || total < 50 * level * (level + 1))
      {
        DefaultLevelBands(total, level);
      }
    }
  }

  /** Whatever is awarded to whomever, under whatever configuration, the cache follows the ledger. */
  lemma {:induction false} CacheFollowsLedger(ledger: Ledger, steps: seq<AwardStep>)
    requires CacheAgrees(ledger)
    ensures CacheAgrees(RunAwards(ledger, steps))
    decreases |steps|
  {
    if steps != [] {
      var s := steps[0];
      AwardKeepsCache(ledger, s.request, s.features, s.multiplier);
      CacheFollowsLedger(Award(ledger, s.request, s.features, s.multiplier).1, steps[1..]);
    }
  }

  /** Under fixed thresholds, the stored level is the level of the stored total. */
  ghost predicate LevelsCurrent(ledger: Ledger, tenant: Uuid, thresholds: seq<int>) {
    forall user: Uuid :: (tenant, user) in ledger.levels ==>
      ledger.levels[(tenant, user)].level == LevelFor(ledger.levels[(tenant, user)].totalXp, thresholds)
  }

  ghost predicate FixedThresholds(steps: seq<AwardStep>, tenant: Uuid, thresholds: seq<int>) {
    forall i :: 0 <= i < |steps| && steps[i].request.tenant == tenant ==> Thresholds(steps[i].features) == thresholds
  }

  ghost predicate NonNegative(steps: seq<AwardStep>, tenant: Uuid) {
    forall i :: 0 <= i < |steps| && steps[i].request.tenant == tenant ==>
      XpForAction(steps[i].features, steps[i].request.action) * steps[i].multiplier >= 0
  }

  /** How many awards of a run report a level-up of this user. */
  function LevelUps(ledger: Ledger, steps: seq<AwardStep>, tenant: Uuid, user: Uuid): nat
    decreases |steps|
  {
    if steps == [] then 0
    else
      var (result, after) := Award(ledger, steps[0].request, steps[0].features, steps[0].multiplier);
      (if steps[0].request.tenant == tenant && steps[0].request.user == user
          && result.Success? && result.value.leveledUp
       then 1 else 0) + LevelUps(after, steps[1..], tenant, user)
  }

  lemma {:induction false} LevelsStayCurrent(ledger: Ledger, steps: seq<AwardStep>, tenant: Uuid, thresholds: seq<int>)
    requires LevelsCurrent(ledger, tenant, thresholds)
    requires FixedThresholds(steps, tenant, thresholds)
    ensures LevelsCurrent(RunAwards(ledger, steps), tenant, thresholds)
    decreases |steps|
  {
    if steps != [] {
      assert Thresholds(steps[0].features) == thresholds || steps[0].request.tenant != tenant;
      LevelsStayCurrent(Award(ledger, steps[0].request, steps[0].features, steps[0].multiplier).1,
                        steps[1..], tenant, thresholds);
    }
  }

  /** Level-ups telescope: with non-negative awards each one raises the stored level by at least one. */
  lemma {:induction false} LevelUpsTelescope(ledger: Ledger, steps: seq<AwardStep>, tenant: Uuid, user: Uuid,
                                             thresholds: seq<int>)
    requires LevelsCurrent(ledger, tenant, thresholds)
    requires FixedThresholds(steps, tenant, thresholds) && NonNegative(steps, tenant)
    ensures LevelUps(ledger, steps, tenant, user) <=
            LevelRow(RunAwards(ledger, steps), tenant, user).level - LevelRow(ledger, tenant, user).level
    decreases |steps|
  {
    if steps != [] {
      var s := steps[0];
      assert s.request.tenant == tenant ==> Thresholds(s.features) == thresholds;
      var (result, after) := Award(ledger, s.request, s.features, s.multiplier);
      if s.request.tenant == tenant && s.request.user == user && s.request.action in XP_ACTIONS {
        var row := LevelRow(ledger, tenant, user);
        assert row.level == 1 || row.level == LevelFor(row.totalXp, thresholds);
        LevelMonotone(row.totalXp, LevelRow(after, tenant, user).totalXp, thresholds);
      }
      assert LevelRow(after, tenant, user).level >= LevelRow(ledger, tenant, user).level;
      LevelUpsTelescope(after, steps[1..], tenant, user, thresholds);
    }
  }

  /** A user levels up at most `len(thresholds) - 1` times, however long the run of awards. */
  lemma LevelUpsBounded(steps: seq<AwardStep>, tenant: Uuid, user: Uuid, thresholds: seq<int>)
    requires FixedThresholds(steps, tenant, thresholds) && NonNegative(steps, tenant)
    ensures LevelUps(Ledger([], map[]), steps, tenant, user) <= if thresholds == [] then 0 else |thresholds| - 1
  {
    var empty := Ledger([], map[]);
    LevelUpsTelescope(empty, steps, tenant, user, thresholds);
    LevelsStayCurrent(empty, steps, tenant, thresholds);
    var final := LevelRow(RunAwards(empty, steps), tenant, user);
    LevelMonotone(final.totalXp, final.totalXp, thresholds);
  }
}
