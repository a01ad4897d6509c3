/** Badge evaluation: which badges one evaluation grants. */
module Badges {
  import opened Wrappers

  /** A badge rule; an absent key is no condition. */
  datatype Conditions = Conditions(minXp: Option<int>, coursesCompleted: Option<int>, streakDays: Option<int>,
                                   hourBefore: Option<int>, answersGiven: Option<int>)

  datatype Badge = Badge(id: Uuid, tenant: Uuid, isActive: bool, ruleEvent: Option<string>, conditions: Conditions)

  datatype UserBadge = UserBadge(user: Uuid, badge: Uuid)

  /** What the other tables and the clock answer while one badge is being checked. */
  datatype Observation = Observation(coursesCompleted: int, streakDays: int, hour: int, comments: int)

  predicate AtLeast(required: Option<int>, actual: int) {
    required.Some? ==> actual >= required.value
  }

  predicate ConditionsMet(c: Conditions, xp: int, seen: Observation) {
    && AtLeast(c.minXp, xp)
    && AtLeast(c.coursesCompleted, seen.coursesCompleted)
    && AtLeast(c.streakDays, seen.streakDays)
    && (c.hourBefore.Some? ==> seen.hour < c.hourBefore.value)
    && AtLeast(c.answersGiven, seen.comments)
  }

  /** The badge is selected by the query and its rule holds. */
  predicate Qualifies(b: Badge, tenant: Uuid, trigger: string, xp: int, sees: Uuid -> Observation) {
    && b.tenant == tenant
    && b.isActive
    && b.ruleEvent == Some(trigger)
    && ConditionsMet(b.conditions, xp, sees(b.id))
  }

  /** The badge ids one evaluation grants, in table order. */
  function Granted(badges: seq<Badge>, held: seq<UserBadge>, user: Uuid, tenant: Uuid, trigger: string,
                   xp: int, sees: Uuid -> Observation): seq<Uuid>
    decreases |badges|
  {
    if badges == [] then []
    else
      var b := badges[0];
      var grant := UserBadge(user, b.id);
      if Qualifies(b, tenant, trigger, xp, sees) && grant !in held then
        [b.id] + Granted(badges[1..], held + [grant], user, tenant, trigger, xp, sees)
      else
        Granted(badges[1..], held, user, tenant, trigger, xp, sees)
  }

  function Grants(user: Uuid, ids: seq<Uuid>): seq<UserBadge> {
    if ids == [] then [] else [UserBadge(user, ids[0])] + Grants(user, ids[1..])
  }

  lemma {:induction false} GrantsAppend(user: Uuid, ids: seq<Uuid>, more: seq<Uuid>)
    ensures Grants(user, ids + more) == Grants(user, ids) + Grants(user, more)
  {
    if ids == [] {
      assert ids + more == more;
    } else {
      GrantsAppend(user, ids[1..], more);
      assert (ids + more)[1..] == ids[1..] + more;
    }
  }

  ghost predicate Distinct(held: seq<UserBadge>) {
    forall i, j :: 0 <= i < j < |held| ==> held[i] != held[j]
  }

  /** The badges held after an evaluation. */
  function HeldAfter(badges: seq<Badge>, held: seq<UserBadge>, user: Uuid, tenant: Uuid, trigger: string,
                     xp: int, sees: Uuid -> Observation): seq<UserBadge> {
    held + Grants(user, Granted(badges, held, user, tenant, trigger, xp, sees))
  }

  lemma HeldAfterStep(badges: seq<Badge>, held: seq<UserBadge>, user: Uuid, tenant: Uuid, trigger: string,
                      xp: int, sees: Uuid -> Observation)
    requires badges != []
    ensures var grant := UserBadge(user, badges[0].id);
            HeldAfter(badges, held, user, tenant, trigger, xp, sees) ==
            HeldAfter(badges[1..],
                      if Qualifies(badges[0], tenant, trigger, xp, sees) && grant !in held
                        then held + [grant] else held,
                      user, tenant, trigger, xp, sees)
  {
    var grant := UserBadge(user, badges[0].id);
    if Qualifies(badges[0], tenant, trigger, xp, sees) && grant !in held {
      var rest := Granted(badges[1..], held + [grant], user, tenant, trigger, xp, sees);
      assert ([badges[0].id] + rest)[1..] == rest;
      assert held + ([grant] + Grants(user, rest)) == (held + [grant]) + Grants(user, rest);
    }
  }

  /** An evaluation grants exactly the badges that qualify, never one already held, none twice. */
  lemma {:induction false} EvaluationIsExact(badges: seq<Badge>, held: seq<UserBadge>, user: Uuid, tenant: Uuid,
                                             trigger: string, xp: int, sees: Uuid -> Observation)
    ensures var after := HeldAfter(badges, held, user, tenant, trigger, xp, sees);
            && (Distinct(held) ==> Distinct(after))
            && (forall u: UserBadge :: u in after <==>
                  u in held || (u.user == user && exists b :: b in badges && b.id == u.badge
                                                             && Qualifies(b, tenant, trigger, xp, sees)))
    decreases |badges|
  {
    if badges != [] {
      var b := badges[0];
      var grant := UserBadge(user, b.id);
      var mid := if Qualifies(b, tenant, trigger, xp, sees) && grant !in held then held + [grant] else held;
      HeldAfterStep(badges, held, user, tenant, trigger, xp, sees);
      EvaluationIsExact(badges[1..], mid, user, tenant, trigger, xp, sees);
      assert forall c :: c in badges <==> c == b || c in badges[1..];
      assert forall u :: u in mid <==> u in held || (u == grant && Qualifies(b, tenant, trigger, xp, sees));
    }
  }

  /** In numbers: an evaluation grants a badge that is not held exactly if it is an active one of the tenant, bound to
      the trigger, and each condition its rule sets is met; `hour_before` is met before that hour, the others from
      their number on. */
  lemma GrantedIff(badges: seq<Badge>, held: seq<UserBadge>, user: Uuid, tenant: Uuid, trigger: string, xp: int,
                   sees: Uuid -> Observation, b: Badge)
    requires b in badges && forall other <- badges :: other.id == b.id ==> other == b
    requires UserBadge(user, b.id) !in held
    ensures var c, seen := b.conditions, sees(b.id);
            UserBadge(user, b.id) in HeldAfter(badges, held, user, tenant, trigger, xp, sees) <==>
            && b.isActive && b.tenant == tenant && b.ruleEvent.Some? && b.ruleEvent.value == trigger
            && (c.minXp.Some? ==> xp >= c.minXp.value)
            && (c.coursesCompleted.Some? ==> seen.coursesCompleted >= c.coursesCompleted.value)
            && (c.streakDays.Some? ==> seen.streakDays >= c.streakDays.value)
            && (c.hourBefore.Some? ==> seen.hour < c.hourBefore.value)
            && (c.answersGiven.Some? ==> seen.comments >= c.answersGiven.value)
  {
    EvaluationIsExact(badges, held, user, tenant, trigger, xp, sees);
  }
}
