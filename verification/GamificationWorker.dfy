/** The gamification tables and the worker that runs award and evaluation tasks against them. */
module GamificationWorker {
  import opened Wrappers
  import opened Experience
  import opened Badges
  import opened TaskQueue

  class Worker {
    var features: map<Uuid, Features>
    var specialEvents: seq<SpecialEvent>
    var badges: seq<Badge>
    var events: seq<XPEvent>
    var levels: map<(Uuid, Uuid), UserLevel>
    var held: seq<UserBadge>
    var queue: seq<Task>

    constructor (features: map<Uuid, Features>, specialEvents: seq<SpecialEvent>, badges: seq<Badge>)
      ensures this.features == features && this.specialEvents == specialEvents
      ensures State() == World(badges, Ledger([], map[]), [], [])
      ensures Sound(State())
    {
      this.features, this.specialEvents, this.badges := features, specialEvents, badges;
      events, levels, held, queue := [], map[], [], [];
    }

    ghost function State(): World
      reads this
    {
      World(badges, Ledger(events, levels), held, queue)
    }

    function FeaturesOf(tenant: Uuid): Features
      reads this`features
    {
      if tenant in features then features[tenant] else Features(map[], None)
    }

    /** Appends the event and moves the cached total and level along with it. */
    method AwardXP(r: AwardRequest, now: int)
      returns (result: Result<AwardResult, AwardError>, ghost multiplier: int)
      modifies this`events, this`levels
      ensures IsMultiplier(specialEvents, r.tenant, r.company, now, multiplier)
      ensures (result, Ledger(events, levels)) ==
              Award(old(Ledger(events, levels)), r,
                    if r.tenant in features then features[r.tenant] else Features(map[], None), multiplier)
    {
      var amount := XpForAction(FeaturesOf(r.tenant), r.action);
      var m := ActiveMultiplier(specialEvents, r.tenant, r.company, now);
      multiplier := m;
      if r.action !in XP_ACTIONS {
        return Failure(InvalidAction), multiplier;
      }
      var finalAmount := amount * m;
      events := events + [XPEvent(r.tenant, r.user, r.company, r.action, finalAmount, r.reference, r.referenceType)];

      var key := (r.tenant, r.user);
      if key !in levels {
        levels := levels[key := UserLevel(0, 1)];
      }
      var row := levels[key];
      var total := row.totalXp + finalAmount;
      var newLevel := ComputeLevel(total, Thresholds(FeaturesOf(r.tenant)));
      levels := levels[key := UserLevel(total, newLevel)];
      assert levels == old(levels)[key := UserLevel(total, newLevel)];
      result := Success(AwardResult(newLevel > row.level, row.level, newLevel, finalAmount));
    }

    /** Walks the matching badges, skips held ones, and records those whose conditions are met. */
    method EvaluateBadges(user: Uuid, tenant: Uuid, trigger: string, sees: Uuid -> Observation)
      returns (awarded: seq<Uuid>)
      modifies this`held
      ensures awarded == EvaluationGrants(old(State()), user, tenant, trigger, sees)
      ensures held == old(held) + Grants(user, awarded)
    {
      ghost var xp := LedgerSum(events, tenant, user);
      ghost var final := Granted(badges, held, user, tenant, trigger, xp, sees);
      awarded := [];
      assert awarded + final == final;
      for i := 0 to |badges|
        invariant held == old(held) + Grants(user, awarded)
        invariant final == awarded + Granted(badges[i..], held, user, tenant, trigger, xp, sees)
      {
        var badge := badges[i];
        assert badges[i..][1..] == badges[i + 1..];
        if badge.tenant == tenant && badge.isActive && badge.ruleEvent == Some(trigger) {
          var grant := UserBadge(user, badge.id);
          if grant !in held {
            var met := ConditionsMet(badge.conditions, LedgerSum(events, tenant, user), sees(badge.id));
            if met {
              GrantsAppend(user, awarded, [badge.id]);
              ghost var rest := Granted(badges[i + 1..], held + [grant], user, tenant, trigger, xp, sees);
              assert awarded + ([badge.id] + rest) == (awarded + [badge.id]) + rest;
              held := held + [grant];
              awarded := awarded + [badge.id];
            }
          }
        }
      }
    }

    /** Takes one queued task, whichever the broker hands out, and enqueues what follows from it. */
    method RunQueuedTask(index: nat, now: int, sees: Uuid -> Observation) returns (ghost choice: Choice)
      requires index < |queue|
      modifies this`events, this`levels, this`held, this`queue
      ensures choice.Run? && choice.index == index
      ensures State() == Step(old(State()), choice)
    {
      var task := queue[index];
      queue := queue[..index] + queue[index + 1..];
      ghost var rest := queue;
      match task
      case AwardTask(r) =>
        var result, multiplier := AwardXP(r, now);
        choice := Run(index, FeaturesOf(r.tenant), multiplier, sees);
        if result.Success? && result.value.leveledUp {
          queue := queue + [EvaluateTask(r.user, r.tenant, "level_up")];
        }
        assert queue == rest + FollowUps(r.user, r.tenant, result);
      case EvaluateTask(user, tenant, trigger) =>
        var awarded := EvaluateBadges(user, tenant, trigger, sees);
        choice := Run(index, Features(map[], None), 1, sees);
        for i := 0 to |awarded|
          invariant queue == rest + BadgeAwards(user, tenant, awarded[..i])
          invariant held == old(held) + Grants(user, awarded) && events == old(events) && levels == old(levels)
        {
          BadgeAwardsAppend(user, tenant, awarded[..i], awarded[i]);
          assert awarded[..i + 1] == awarded[..i] + [awarded[i]];
          queue := queue + [AwardTask(AwardRequest(user, tenant, None,
                                                   "badge_earned", Some(awarded[i]), Some("badge")))];
        }
        assert awarded[..|awarded|] == awarded;
    }

    /** Runs queued tasks in an arbitrary order until none is left; the potential bounds the loop. */
    method Drain(now: nat -> int, sees: (nat, Uuid) -> Observation)
      modifies this`events, this`levels, this`held, this`queue
      ensures queue == []
      ensures old(Sound(State())) ==> Sound(State())
      ensures old(held) <= held && old(events) <= events
    {
      ghost var users := Users(queue);
      var n: nat := 0;
      while queue != []
        invariant Users(queue) <= users
        invariant old(Sound(State())) ==> Sound(State())
        invariant old(held) <= held && old(events) <= events
        decreases Potential(State(), users)
      {
        ghost var before := State();
        var step := n;
        var index: nat :| index < |queue|;
        var choice := RunQueuedTask(index, now(n), (badge: Uuid) => sees(step, badge));
        TaskLowersPotential(before, choice, users);
        if old(Sound(State())) {
          StepKeepsSound(before, choice);
        }
        n := n + 1;
      }
    }
  }

  lemma {:induction false} BadgeAwardsAppend(user: Uuid, tenant: Uuid, ids: seq<Uuid>, id: Uuid)
    ensures BadgeAwards(user, tenant, ids + [id]) == BadgeAwards(user, tenant, ids) + [BadgeAward(user, tenant, id)]
  {
    if ids != [] {
      BadgeAwardsAppend(user, tenant, ids[1..], id);
      assert (ids + [id])[1..] == ids[1..] + [id];
    }
  }
}
