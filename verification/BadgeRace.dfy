/** Badge evaluations that overlap: each task looks at one badge after the other and commits all its grants together. */
module BadgeRace {
  import opened Wrappers
  import opened Badges

  /** An execution of a task starts, for the first time or as a retry; it looks at a badge whose rule holds; it commits
      its grants. */
  datatype Moment = Start(task: nat) | Check(task: nat, badge: Uuid) | Commit(task: nat)

  /** The table, the grants every execution under way has added to its session, and the awards that were queued. */
  datatype Race = Race(held: seq<UserBadge>, taken: map<nat, seq<Uuid>>, queued: seq<UserBadge>)

  /** Whose badges the tasks evaluate. */
  type Users = nat -> Uuid

  function Taken(r: Race, task: nat): seq<Uuid> {
    if task in r.taken then r.taken[task] else []
  }

  /** The unique index on user and badge rejects one of the grants, and with it the whole commit. */
  predicate Collides(r: Race, task: nat, users: Users) {
    exists badge :: badge in Taken(r, task) && UserBadge(users(task), badge) in r.held
  }

  function Step(r: Race, moment: Moment, users: Users): Race {
    match moment
    case Start(task) => r.(taken := r.taken[task := []])
    case Check(task, badge) =>
      if UserBadge(users(task), badge) in r.held || badge in Taken(r, task) then r
      else r.(taken := r.taken[task := Taken(r, task) + [badge]])
    case Commit(task) =>
      var grants := if Collides(r, task, users) then [] else Grants(users(task), Taken(r, task));
      Race(r.held + grants, r.taken[task := []], r.queued + grants)
  }

  function After(held: seq<UserBadge>, ms: seq<Moment>, users: Users): Race {
    if ms == [] then Race(held, map[], []) else Step(After(held, ms[..|ms| - 1], users), ms[|ms| - 1], users)
  }

  /******* Whole evaluations *******/

  /** An evaluation of a user that finds the rules of `wants` to hold. */
  datatype Evaluation = Evaluation(user: Uuid, wants: seq<Uuid>)

  function NotHeld(held: seq<UserBadge>, user: Uuid, wants: seq<Uuid>): seq<Uuid> {
    if wants == [] then []
    else
      var before, last := NotHeld(held, user, wants[..|wants| - 1]), wants[|wants| - 1];
      if UserBadge(user, last) in held || last in before then before else before + [last]
  }

  function Evaluate(held: seq<UserBadge>, e: Evaluation): seq<UserBadge> {
    held + Grants(e.user, NotHeld(held, e.user, e.wants))
  }

  function RunWhole(held: seq<UserBadge>, es: seq<Evaluation>): seq<UserBadge> {
    if es == [] then held else Evaluate(RunWhole(held, es[..|es| - 1]), es[|es| - 1])
  }

  function WantedBy(badges: seq<Badge>, tenant: Uuid, trigger: string, xp: int, sees: Uuid -> Observation): seq<Uuid> {
    if badges == [] then []
    else (if Qualifies(badges[0], tenant, trigger, xp, sees) then [badges[0].id] else [])
         + WantedBy(badges[1..], tenant, trigger, xp, sees)
  }

  lemma {:induction false} NotHeldPrepend(held: seq<UserBadge>, user: Uuid, first: Uuid, wants: seq<Uuid>)
    ensures var grant := UserBadge(user, first);
            NotHeld(held, user, [first] + wants) ==
            if grant in held then NotHeld(held, user, wants) else [first] + NotHeld(held + [grant], user, wants)
  {
    if wants == [] {
      assert [first] + wants == [first];
      assert [first][..0] == [];
    } else {
      var front := wants[..|wants| - 1];
      NotHeldPrepend(held, user, first, front);
      assert ([first] + wants)[..|wants|] == [first] + front;
    }
  }

  lemma {:induction false} GrantedIsNotHeld(badges: seq<Badge>, held: seq<UserBadge>, user: Uuid, tenant: Uuid,
                                            trigger: string, xp: int, sees: Uuid -> Observation)
    ensures Granted(badges, held, user, tenant, trigger, xp, sees) ==
            NotHeld(held, user, WantedBy(badges, tenant, trigger, xp, sees))
    decreases |badges|
  {
    if badges != [] {
      var b, others := badges[0], badges[1..];
      var rest := WantedBy(others, tenant, trigger, xp, sees);
      if Qualifies(b, tenant, trigger, xp, sees) {
        NotHeldPrepend(held, user, b.id, rest);
        var now := if UserBadge(user, b.id) in held then held else held + [UserBadge(user, b.id)];
        GrantedIsNotHeld(others, now, user, tenant, trigger, xp, sees);
      } else {
        GrantedIsNotHeld(others, held, user, tenant, trigger, xp, sees);
        assert [] + rest == rest;
      }
    }
  }

  /** What the badge module says one evaluation leaves is a whole evaluation of the badges that qualify. */
  lemma WholeIsEvaluation(badges: seq<Badge>, held: seq<UserBadge>, user: Uuid, tenant: Uuid, trigger: string, xp: int,
                          sees: Uuid -> Observation)
    ensures HeldAfter(badges, held, user, tenant, trigger, xp, sees) ==
            Evaluate(held, Evaluation(user, WantedBy(badges, tenant, trigger, xp, sees)))
  {
    GrantedIsNotHeld(badges, held, user, tenant, trigger, xp, sees);
  }

  /******* The race is a sequence of whole evaluations *******/

  /** What a task has looked at since its execution began. */
  function Wants(ms: seq<Moment>, task: nat): seq<Uuid> {
    if ms == [] then []
    else
      var before, last := Wants(ms[..|ms| - 1], task), ms[|ms| - 1];
      if last.task != task then before else if last.Check? then before + [last.badge] else []
  }

  /** The evaluations whose commit succeeds, in the order of their commits. */
  function Landed(held: seq<UserBadge>, ms: seq<Moment>, users: Users): seq<Evaluation> {
    if ms == [] then []
    else
      var front, last := ms[..|ms| - 1], ms[|ms| - 1];
      Landed(held, front, users)
      + if last.Commit? && !Collides(After(held, front, users), last.task, users)
        then [Evaluation(users(last.task), Wants(front, last.task))] else []
  }

  /** Unless they collide, the grants of an execution are those a whole evaluation would make at its commit: what it has
      skipped is still held by then. */
  lemma {:induction false} TakenIsNotHeld(held: seq<UserBadge>, ms: seq<Moment>, users: Users,
                                          task: nat, now: seq<UserBadge>)
    requires forall grant :: grant in After(held, ms, users).held ==> grant in now
    requires forall badge :: badge in Taken(After(held, ms, users), task) ==> UserBadge(users(task), badge) !in now
    ensures Taken(After(held, ms, users), task) == NotHeld(now, users(task), Wants(ms, task))
  {
    if ms != [] {
      var front, last := ms[..|ms| - 1], ms[|ms| - 1];
      if last.task != task || last.Check? {
        TakenIsNotHeld(held, front, users, task, now);
      }
    }
  }

  /** One moment changes what is held by the evaluation that lands with it, if one does. */
  lemma LandingIsWhole(held: seq<UserBadge>, ms: seq<Moment>, users: Users)
    requires ms != []
    ensures var front, last := ms[..|ms| - 1], ms[|ms| - 1];
            var before := After(held, front, users);
            After(held, ms, users).held ==
            if last.Commit? && !Collides(before, last.task, users)
            then Evaluate(before.held, Evaluation(users(last.task), Wants(front, last.task))) else before.held
  {
    var front, last := ms[..|ms| - 1], ms[|ms| - 1];
    var before := After(held, front, users);
    assert before.held + [] == before.held;
    if last.Commit? && !Collides(before, last.task, users) {
      TakenIsNotHeld(held, front, users, last.task, before.held);
    }
  }

  lemma RunWholeAppend(held: seq<UserBadge>, es: seq<Evaluation>, e: Evaluation)
    ensures RunWhole(held, es + [e]) == Evaluate(RunWhole(held, es), e)
  {
    assert (es + [e])[..|es|] == es;
  }

  /** Whatever the interleaving: the badges held are those of the evaluations whose commit succeeded, each made whole at
      its commit. */
  lemma {:induction false} RaceIsSequential(held: seq<UserBadge>, ms: seq<Moment>, users: Users)
    ensures After(held, ms, users).held == RunWhole(held, Landed(held, ms, users))
  {
    if ms != [] {
      var front, last := ms[..|ms| - 1], ms[|ms| - 1];
      RaceIsSequential(held, front, users);
      LandingIsWhole(held, ms, users);
      var landed, whole := Landed(held, front, users), Evaluation(users(last.task), Wants(front, last.task));
      RunWholeAppend(held, landed, whole);
      assert landed + [] == landed;
    }
  }

  lemma {:induction false} GrantsAre(user: Uuid, ids: seq<Uuid>)
    ensures |Grants(user, ids)| == |ids|
    ensures forall i :: 0 <= i < |ids| ==> Grants(user, ids)[i] == UserBadge(user, ids[i])
  {
    if ids != [] { GrantsAre(user, ids[1..]); }
  }

  lemma {:induction false} NotHeldIsNew(held: seq<UserBadge>, user: Uuid, wants: seq<Uuid>)
    ensures var ids := NotHeld(held, user, wants);
            && (forall id :: id in ids <==> id in wants && UserBadge(user, id) !in held)
            && forall i, j :: 0 <= i < j < |ids| ==> ids[i] != ids[j]
  {
    if wants != [] {
      NotHeldIsNew(held, user, wants[..|wants| - 1]);
      assert forall id :: id in wants <==> id in wants[..|wants| - 1] || id == wants[|wants| - 1];
    }
  }

  /** A whole evaluation holds what was held and what it wants, nothing twice. */
  lemma EvaluateIsExact(held: seq<UserBadge>, e: Evaluation)
    ensures Distinct(held) ==> Distinct(Evaluate(held, e))
    ensures forall grant :: grant in Evaluate(held, e) <==>
              grant in held || (grant.user == e.user && grant.badge in e.wants)
  {
    var ids := NotHeld(held, e.user, e.wants);
    NotHeldIsNew(held, e.user, e.wants);
    GrantsAre(e.user, ids);
    forall grant ensures grant in Grants(e.user, ids) <==> grant.user == e.user && grant.badge in ids {
      if grant.user == e.user && grant.badge in ids {
        var i :| 0 <= i < |ids| && ids[i] == grant.badge;
        assert Grants(e.user, ids)[i] == grant;
      }
    }
  }

  lemma {:induction false} WholeStaysDistinct(held: seq<UserBadge>, es: seq<Evaluation>)
    requires Distinct(held)
    ensures Distinct(RunWhole(held, es))
  {
    if es != [] {
      WholeStaysDistinct(held, es[..|es| - 1]);
      EvaluateIsExact(RunWhole(held, es[..|es| - 1]), es[|es| - 1]);
    }
  }

  lemma {:induction false} QueuedIsGranted(held: seq<UserBadge>, ms: seq<Moment>, users: Users)
    ensures After(held, ms, users).held == held + After(held, ms, users).queued
  {
    if ms != [] { QueuedIsGranted(held, ms[..|ms| - 1], users); }
  }

  /** Under every interleaving no badge is held twice, and exactly one award is queued for every new one. */
  lemma RaceStaysSound(held: seq<UserBadge>, ms: seq<Moment>, users: Users)
    requires Distinct(held)
    ensures Distinct(After(held, ms, users).held)
    ensures After(held, ms, users).held == held + After(held, ms, users).queued
  {
    RaceIsSequential(held, ms, users);
    WholeStaysDistinct(held, Landed(held, ms, users));
    QueuedIsGranted(held, ms, users);
  }

  /******* When a commit fails *******/

  lemma PrefixOfFront(ms: seq<Moment>, n: nat)
    requires n < |ms|
    ensures ms[..|ms| - 1][..n] == ms[..n]
  {}

  /** The execution under way has looked at the badge at moment `i`. */
  ghost predicate Looked(ms: seq<Moment>, task: nat, badge: Uuid, i: nat) {
    && i < |ms| && ms[i] == Check(task, badge)
    && forall k :: i < k < |ms| && ms[k].task == task ==> ms[k].Check?
  }

  /** Moment `k` is the commit with which the badge came to be held. */
  ghost predicate Gains(held: seq<UserBadge>, ms: seq<Moment>, users: Users, grant: UserBadge, k: nat) {
    && k < |ms| && grant !in After(held, ms[..k], users).held && grant in After(held, ms[..k + 1], users).held
  }

  /** Since the execution has looked at some badge, another one of the same user has committed that badge. */
  ghost predicate Overtaken(held: seq<UserBadge>, ms: seq<Moment>, users: Users, task: nat) {
    exists badge, i, k ::
      Looked(ms, task, badge, i) && i < k && Gains(held, ms, users, UserBadge(users(task), badge), k)
  }

  lemma {:induction false} HeldStays(held: seq<UserBadge>, ms: seq<Moment>, users: Users, n: nat, grant: UserBadge)
    requires n <= |ms| && grant in After(held, ms[..n], users).held
    ensures grant in After(held, ms, users).held
  {
    if n == |ms| {
      assert ms[..n] == ms;
    } else {
      PrefixOfFront(ms, n);
      HeldStays(held, ms[..|ms| - 1], users, n, grant);
    }
  }

  /** What is held at the end and was not after `n` moments has been gained in between. */
  lemma {:induction false} GainedSince(held: seq<UserBadge>, ms: seq<Moment>, users: Users, n: nat, grant: UserBadge)
    returns (k: nat)
    requires n <= |ms| && grant !in After(held, ms[..n], users).held && grant in After(held, ms, users).held
    ensures n <= k && Gains(held, ms, users, grant, k)
  {
    assert ms[..|ms|] == ms;
    var front := ms[..|ms| - 1];
    if grant in After(held, front, users).held {
      PrefixOfFront(ms, n);
      k := GainedSince(held, front, users, n, grant);
      PrefixOfFront(ms, k);
      assert front[..k + 1] == ms[..k + 1];
    } else {
      k := |front|;
    }
  }

  lemma LookedFront(ms: seq<Moment>, task: nat, badge: Uuid, i: nat)
    requires i < |ms| - 1
    ensures Looked(ms, task, badge, i) <==>
            Looked(ms[..|ms| - 1], task, badge, i) && (ms[|ms| - 1].task == task ==> ms[|ms| - 1].Check?)
  {
    var front := ms[..|ms| - 1];
    assert forall k :: 0 <= k < |front| ==> front[k] == ms[k];
  }

  /** What an execution has taken it has looked at while it was not held ... */
  lemma {:induction false} TakenWhen(held: seq<UserBadge>, ms: seq<Moment>, users: Users, task: nat, badge: Uuid)
    returns (i: nat)
    requires badge in Taken(After(held, ms, users), task)
    ensures Looked(ms, task, badge, i) && UserBadge(users(task), badge) !in After(held, ms[..i], users).held
  {
    var front, last := ms[..|ms| - 1], ms[|ms| - 1];
    if badge in Taken(After(held, front, users), task) {
      i := TakenWhen(held, front, users, task, badge);
      LookedFront(ms, task, badge, i);
      PrefixOfFront(ms, i);
    } else {
      i := |front|;
    }
  }

  /** ... and the other way round. */
  lemma {:induction false} LookedTakes(held: seq<UserBadge>, ms: seq<Moment>, users: Users, task: nat,
                                       badge: Uuid, i: nat)
    requires Looked(ms, task, badge, i) && UserBadge(users(task), badge) !in After(held, ms[..i], users).held
    ensures badge in Taken(After(held, ms, users), task)
  {
    if i < |ms| - 1 {
      LookedFront(ms, task, badge, i);
      PrefixOfFront(ms, i);
      LookedTakes(held, ms[..|ms| - 1], users, task, badge, i);
    }
  }

  /** A commit fails exactly if the execution has been overtaken. */
  lemma CollidesIff(held: seq<UserBadge>, ms: seq<Moment>, users: Users, task: nat)
    ensures Collides(After(held, ms, users), task, users) <==> Overtaken(held, ms, users, task)
  {
    if Collides(After(held, ms, users), task, users) { CollidesOvertaken(held, ms, users, task); }
    if Overtaken(held, ms, users, task) {
      var badge, i, k :| Looked(ms, task, badge, i) && i < k
                         && Gains(held, ms, users, UserBadge(users(task), badge), k);
      OvertakenCollides(held, ms, users, task, badge, i, k);
    }
  }

  lemma CollidesOvertaken(held: seq<UserBadge>, ms: seq<Moment>, users: Users, task: nat)
    requires Collides(After(held, ms, users), task, users)
    ensures Overtaken(held, ms, users, task)
  {
    var badge :| badge in Taken(After(held, ms, users), task)
                 && UserBadge(users(task), badge) in After(held, ms, users).held;
    var i := TakenWhen(held, ms, users, task, badge);
    var k := GainedSince(held, ms, users, i, UserBadge(users(task), badge));
    CheckGainsNothing(held, ms, users, UserBadge(users(task), badge), k);
  }

  lemma CheckGainsNothing(held: seq<UserBadge>, ms: seq<Moment>, users: Users, grant: UserBadge, k: nat)
    requires Gains(held, ms, users, grant, k)
    ensures ms[k].Commit?
  {
    assert ms[..k + 1][..k] == ms[..k];
  }

  lemma OvertakenCollides(held: seq<UserBadge>, ms: seq<Moment>, users: Users, task: nat, badge: Uuid, i: nat, k: nat)
    requires Looked(ms, task, badge, i) && i < k && Gains(held, ms, users, UserBadge(users(task), badge), k)
    ensures Collides(After(held, ms, users), task, users)
  {
    var grant := UserBadge(users(task), badge);
    HeldStays(held, ms, users, k + 1, grant);
    if grant in After(held, ms[..i], users).held {
      assert ms[..k][..i] == ms[..i];
      HeldStays(held, ms[..k], users, i, grant);
      assert false;
    }
    LookedTakes(held, ms, users, task, badge, i);
  }

  /******* A failed task and its retry *******/

  function Checks(task: nat, wants: seq<Uuid>): seq<Moment> {
    if wants == [] then [] else Checks(task, wants[..|wants| - 1]) + [Check(task, wants[|wants| - 1])]
  }

  lemma AfterAppend(held: seq<UserBadge>, ms: seq<Moment>, users: Users, m: Moment)
    ensures After(held, ms + [m], users) == Step(After(held, ms, users), m, users)
  {
    assert (ms + [m])[..|ms|] == ms;
  }

  lemma {:induction false} ChecksTake(held: seq<UserBadge>, ms: seq<Moment>, users: Users, task: nat, wants: seq<Uuid>)
    ensures var before, after := After(held, ms + [Start(task)], users),
                                 After(held, ms + [Start(task)] + Checks(task, wants), users);
            && after.held == before.held == After(held, ms, users).held
            && Taken(after, task) == NotHeld(before.held, users(task), wants)
  {
    var start := ms + [Start(task)];
    AfterAppend(held, ms, users, Start(task));
    if wants == [] {
      assert start + Checks(task, wants) == start;
    } else {
      var last := wants[|wants| - 1];
      ChecksTake(held, ms, users, task, wants[..|wants| - 1]);
      AfterAppend(held, start + Checks(task, wants[..|wants| - 1]), users, Check(task, last));
      assert start + Checks(task, wants) == start + Checks(task, wants[..|wants| - 1]) + [Check(task, last)];
    }
  }

  /** An execution that nothing comes between commits, whatever has happened before; it leaves all that it wants
      held. */
  lemma RetryLands(held: seq<UserBadge>, ms: seq<Moment>, users: Users, task: nat, wants: seq<Uuid>)
    ensures var after := After(held, ms + [Start(task)] + Checks(task, wants) + [Commit(task)], users).held;
            && after == Evaluate(After(held, ms, users).held, Evaluation(users(task), wants))
            && forall badge :: badge in wants ==> UserBadge(users(task), badge) in after
  {
    var now := After(held, ms, users).held;
    ChecksTake(held, ms, users, task, wants);
    AfterAppend(held, ms + [Start(task)] + Checks(task, wants), users, Commit(task));
    NotHeldIsNew(now, users(task), wants);
    EvaluateIsExact(now, Evaluation(users(task), wants));
  }

  /** Until then one collision costs a task all its grants: of two evaluations of one user, the second one also finds
      the rule of another badge to hold, and that badge is not granted either. */
  lemma OneCollisionLosesAll(users: Users, shared: Uuid, other: Uuid)
    requires users(1) == users(2) && shared != other
    ensures var ms := [Check(1, shared)] + [Check(2, shared)] + [Check(2, other)] + [Commit(1)] + [Commit(2)];
            After([], ms, users).held == [UserBadge(users(1), shared)]
  {
    var one := [Check(1, shared)];
    var two := one + [Check(2, shared)];
    var three := two + [Check(2, other)];
    var four := three + [Commit(1)];
    var grant := UserBadge(users(1), shared);
    assert one[..0] == [] && [] + [shared] == [shared] && [shared] + [other] == [shared, other];
    assert After([], one, users) == Race([], map[1 := [shared]], []);
    AfterAppend([], one, users, Check(2, shared));
    assert After([], two, users) == Race([], map[1 := [shared], 2 := [shared]], []);
    AfterAppend([], two, users, Check(2, other));
    assert After([], three, users) == Race([], map[1 := [shared], 2 := [shared, other]], []);
    AfterAppend([], three, users, Commit(1));
    OneGrant(users(1), shared);
    assert After([], four, users) == Race([grant], map[1 := [], 2 := [shared, other]], [grant]);
    AfterAppend([], four, users, Commit(2));
    assert shared in [shared, other];
  }

  lemma OneGrant(user: Uuid, badge: Uuid)
    ensures [] + Grants(user, [badge]) == [UserBadge(user, badge)]
  {
    assert [badge][1..] == [];
  }
}
