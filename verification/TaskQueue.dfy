/** The award and evaluation tasks as one self-feeding queue, run in any order. */
module TaskQueue {
  import opened Wrappers
  import opened Experience
  import opened Badges

  datatype Task =
    | AwardTask(request: AwardRequest)
    | EvaluateTask(user: Uuid, tenant: Uuid, trigger: string)

  datatype World = World(badges: seq<Badge>, ledger: Ledger, held: seq<UserBadge>, queue: seq<Task>)

  /** What happens next: a worker takes any queued task, or another component enqueues one.
      Everything a task reads outside these tables is arbitrary. */
  datatype Choice =
    | Run(index: nat, features: Features, multiplier: int, sees: Uuid -> Observation)
    | Dispatch(task: Task)

  const BADGE_EARNED := "badge_earned"

  function BadgeAward(user: Uuid, tenant: Uuid, badge: Uuid): Task {
    AwardTask(AwardRequest(user, tenant, None, BADGE_EARNED, Some(badge), Some("badge")))
  }

  function BadgeAwards(user: Uuid, tenant: Uuid, ids: seq<Uuid>): seq<Task> {
    if ids == [] then [] else [BadgeAward(user, tenant, ids[0])] + BadgeAwards(user, tenant, ids[1..])
  }

  function Without(queue: seq<Task>, index: nat): seq<Task>
    requires index < |queue|
  {
    queue[..index] + queue[index + 1..]
  }

  function FollowUps(user: Uuid, tenant: Uuid, result: Result<AwardResult, AwardError>): seq<Task> {
    if result.Success? && result.value.leveledUp then [EvaluateTask(user, tenant, "level_up")] else []
  }

  function EvaluationGrants(w: World, user: Uuid, tenant: Uuid, trigger: string, sees: Uuid -> Observation): seq<Uuid> {
    Granted(w.badges, w.held, user, tenant, trigger, LedgerSum(w.ledger.events, tenant, user), sees)
  }

  function RunTask(w: World, c: Choice): World
    requires c.Run? && c.index < |w.queue|
  {
    var rest := Without(w.queue, c.index);
    match w.queue[c.index]
    case AwardTask(r) =>
      var (result, ledger) := Award(w.ledger, r, c.features, c.multiplier);
      w.(ledger := ledger, queue := rest + FollowUps(r.user, r.tenant, result))
    case EvaluateTask(user, tenant, trigger) =>
      var ids := EvaluationGrants(w, user, tenant, trigger, c.sees);
      w.(held := w.held + Grants(user, ids), queue := rest + BadgeAwards(user, tenant, ids))
  }

  predicate Enabled(w: World, c: Choice) {
    c.Run? ==> c.index < |w.queue|
  }

  function Step(w: World, c: Choice): World
    requires Enabled(w, c)
  {
    match c
    case Run(_, _, _, _) => RunTask(w, c)
    case Dispatch(task) => w.(queue := w.queue + [task])
  }

  predicate IsRun(w: World, choices: seq<Choice>)
    decreases |choices|
  {
    choices != [] ==> Enabled(w, choices[0]) && IsRun(Step(w, choices[0]), choices[1..])
  }

  function After(w: World, choices: seq<Choice>): World
    requires IsRun(w, choices)
    decreases |choices|
  {
    if choices == [] then w else After(Step(w, choices[0]), choices[1..])
  }

  /******* Termination *******/

  function Weight(queue: seq<Task>): nat {
    if queue == [] then 0 else (if queue[0].AwardTask? then 2 else 1) + Weight(queue[1..])
  }

  function AwardCount(queue: seq<Task>): nat {
    if queue == [] then 0 else (if queue[0].AwardTask? then 1 else 0) + AwardCount(queue[1..])
  }

  function Requester(t: Task): Uuid {
    match t
    case AwardTask(r) => r.user
    case EvaluateTask(user, _, _) => user
  }

  function Users(queue: seq<Task>): set<Uuid> {
    set t | t in queue :: Requester(t)
  }

  /** The active badges not yet held, summed over `users`. */
  function Missing(badges: seq<Badge>, held: seq<UserBadge>, users: set<Uuid>): set<UserBadge> {
    set u, b | u in users && b in badges && b.isActive && UserBadge(u, b.id) !in held :: UserBadge(u, b.id)
  }

  function Potential(w: World, users: set<Uuid>): nat {
    2 * |Missing(w.badges, w.held, users)| + Weight(w.queue)
  }

  lemma {:induction false} WeightAppend(a: seq<Task>, b: seq<Task>)
    ensures Weight(a + b) == Weight(a) + Weight(b)
  {
    if a == [] {
      assert a + b == b;
    } else {
      WeightAppend(a[1..], b);
      assert (a + b)[1..] == a[1..] + b;
    }
  }

  lemma {:induction false} WeightCounts(queue: seq<Task>)
    ensures Weight(queue) == 2 * AwardCount(queue) + (|queue| - AwardCount(queue))
  {
    if queue != [] { WeightCounts(queue[1..]); }
  }

  lemma WeightCons(t: Task, rest: seq<Task>)
    ensures Weight([t] + rest) == (if t.AwardTask? then 2 else 1) + Weight(rest)
  {
    assert ([t] + rest)[1..] == rest;
  }

  lemma SplitAt(queue: seq<Task>, index: nat)
    requires index < |queue|
    ensures queue == queue[..index] + ([queue[index]] + queue[index + 1..])
  {}

  lemma WeightWithout(queue: seq<Task>, index: nat)
    requires index < |queue|
    ensures Weight(Without(queue, index)) == Weight(queue) - (if queue[index].AwardTask? then 2 else 1)
  {
    var front, back := queue[..index], queue[index + 1..];
    SplitAt(queue, index);
    WeightAppend(front, back);
    WeightAppend(front, [queue[index]] + back);
    WeightCons(queue[index], back);
  }

  lemma {:induction false} BadgeAwardsShape(user: Uuid, tenant: Uuid, ids: seq<Uuid>)
    ensures Weight(BadgeAwards(user, tenant, ids)) == 2 * |ids|
    ensures forall t :: t in BadgeAwards(user, tenant, ids) ==>
              exists id :: id in ids && t == BadgeAward(user, tenant, id)
  {
    if ids != [] {
      BadgeAwardsShape(user, tenant, ids[1..]);
      var tail := BadgeAwards(user, tenant, ids[1..]);
      assert BadgeAwards(user, tenant, ids)[1..] == tail;
      forall t | t in BadgeAwards(user, tenant, ids)
        ensures exists id :: id in ids && t == BadgeAward(user, tenant, id)
      {
        if t in tail {
          var id :| id in ids[1..] && t == BadgeAward(user, tenant, id);
          assert id in ids;
        } else {
          assert t == BadgeAward(user, tenant, ids[0]);
        }
      }
    }
  }

  /** Each granted badge leaves the set of missing badges. */
  lemma {:induction false} EvaluationShrinksMissing(all: seq<Badge>, badges: seq<Badge>, held: seq<UserBadge>,
                                                    users: set<Uuid>, user: Uuid, tenant: Uuid, trigger: string,
                                                    xp: int, sees: Uuid -> Observation)
    requires user in users
    requires forall b :: b in badges ==> b in all
    ensures |Missing(all, HeldAfter(badges, held, user, tenant, trigger, xp, sees), users)| ==
            |Missing(all, held, users)| - |Granted(badges, held, user, tenant, trigger, xp, sees)|
    decreases |badges|
  {
    if badges == [] {
      assert HeldAfter(badges, held, user, tenant, trigger, xp, sees) == held;
    } else {
      var b := badges[0];
      var grant := UserBadge(user, b.id);
      HeldAfterStep(badges, held, user, tenant, trigger, xp, sees);
      if Qualifies(b, tenant, trigger, xp, sees) && grant !in held {
        assert grant in Missing(all, held, users);
        assert Missing(all, held + [grant], users) == Missing(all, held, users) - {grant};
        EvaluationShrinksMissing(all, badges[1..], held + [grant], users, user, tenant, trigger, xp, sees);
      } else {
        EvaluationShrinksMissing(all, badges[1..], held, users, user, tenant, trigger, xp, sees);
      }
    }
  }

  /** Every task, whichever is taken, strictly lowers the potential and brings in no new user. */
  lemma TaskLowersPotential(w: World, c: Choice, users: set<Uuid>)
    requires c.Run? && c.index < |w.queue|
    requires Users(w.queue) <= users
    ensures Potential(Step(w, c), users) < Potential(w, users)
    ensures Users(Step(w, c).queue) <= users
  {
    var rest := Without(w.queue, c.index);
    WeightWithout(w.queue, c.index);
    var task := w.queue[c.index];
    assert Requester(task) in Users(w.queue);
    assert Users(rest) <= Users(w.queue);
    match task
    case AwardTask(r) =>
      var more := FollowUps(r.user, r.tenant, Award(w.ledger, r, c.features, c.multiplier).0);
      WeightAppend(rest, more);
      assert Users(more) <= users;
    case EvaluateTask(user, tenant, trigger) =>
      var ids := EvaluationGrants(w, user, tenant, trigger, c.sees);
      var more := BadgeAwards(user, tenant, ids);
      WeightAppend(rest, more);
      BadgeAwardsShape(user, tenant, ids);
      assert Users(more) <= users;
      EvaluationShrinksMissing(w.badges, w.badges, w.held, users, user, tenant, trigger,
                               LedgerSum(w.ledger.events, tenant, user), c.sees);
  }

  ghost predicate OnlyRuns(choices: seq<Choice>) {
    forall i :: 0 <= i < |choices| ==> choices[i].Run?
  }

  lemma {:induction false} RunsSpendPotential(w: World, choices: seq<Choice>, users: set<Uuid>)
    requires IsRun(w, choices) && OnlyRuns(choices)
    requires Users(w.queue) <= users
    ensures |choices| + Potential(After(w, choices), users) <= Potential(w, users)
    decreases |choices|
  {
    if choices != [] {
      TaskLowersPotential(w, choices[0], users);
      assert OnlyRuns(choices[1..]);
      RunsSpendPotential(Step(w, choices[0]), choices[1..], users);
    }
  }

  /** The cascade ends under every scheduling order: with B missing badges, A queued awards and
      E queued evaluations, at most 2B + 2A + E tasks ever run. */
  lemma CascadeTerminates(w: World, choices: seq<Choice>)
    requires IsRun(w, choices) && OnlyRuns(choices)
    ensures var awards := AwardCount(w.queue);
            |choices| <= 2 * |Missing(w.badges, w.held, Users(w.queue))| + 2 * awards + (|w.queue| - awards)
  {
    RunsSpendPotential(w, choices, Users(w.queue));
    WeightCounts(w.queue);
  }

  /******* Conservation *******/

  /** The grant an award pays for, if it is a badge award. */
  function PaysFor(action: string, user: Uuid, reference: Option<Uuid>): multiset<UserBadge> {
    if action == BADGE_EARNED && reference.Some? then multiset{UserBadge(user, reference.value)} else multiset{}
  }

  function Paid(events: seq<XPEvent>): multiset<UserBadge> {
    if events == [] then multiset{}
    else Paid(events[..|events| - 1])
         + PaysFor(events[|events| - 1].action, events[|events| - 1].user, events[|events| - 1].reference)
  }

  function TaskPaysFor(t: Task): multiset<UserBadge> {
    match t
    case AwardTask(r) => PaysFor(r.action, r.user, r.reference)
    case EvaluateTask(_, _, _) => multiset{}
  }

  function Queued(queue: seq<Task>): multiset<UserBadge> {
    if queue == [] then multiset{} else TaskPaysFor(queue[0]) + Queued(queue[1..])
  }

  /** Badges held = badge events in the ledger + badge awards still queued, badge by badge. */
  ghost predicate Conserved(w: World) {
    multiset(w.held) == Paid(w.ledger.events) + Queued(w.queue)
  }

  lemma {:induction false} QueuedAppend(a: seq<Task>, b: seq<Task>)
    ensures Queued(a + b) == Queued(a) + Queued(b)
  {
    if a == [] {
      assert a + b == b;
    } else {
      assert (a + b)[1..] == a[1..] + b;
      calc {
        Queued(a + b);
        TaskPaysFor(a[0]) + Queued(a[1..] + b);
        { QueuedAppend(a[1..], b); }
        TaskPaysFor(a[0]) + (Queued(a[1..]) + Queued(b));
        (TaskPaysFor(a[0]) + Queued(a[1..])) + Queued(b);
        Queued(a) + Queued(b);
      }
    }
  }

  lemma QueuedCons(t: Task, rest: seq<Task>)
    ensures Queued([t] + rest) == TaskPaysFor(t) + Queued(rest)
  {
    assert ([t] + rest)[1..] == rest;
  }

  lemma Rearrange(a: multiset<UserBadge>, b: multiset<UserBadge>, c: multiset<UserBadge>)
    ensures a + (b + c) == (a + c) + b
  {}

  lemma QueuedMiddle(front: seq<Task>, t: Task, back: seq<Task>)
    ensures Queued(front + ([t] + back)) == Queued(front + back) + TaskPaysFor(t)
  {
    QueuedAppend(front, back);
    QueuedAppend(front, [t] + back);
    QueuedCons(t, back);
    Rearrange(Queued(front), TaskPaysFor(t), Queued(back));
  }

  lemma QueuedWithout(queue: seq<Task>, index: nat)
    requires index < |queue|
    ensures Queued(queue) == Queued(Without(queue, index)) + TaskPaysFor(queue[index])
  {
    SplitAt(queue, index);
    QueuedMiddle(queue[..index], queue[index], queue[index + 1..]);
  }

  lemma {:induction false} QueuedBadgeAwards(user: Uuid, tenant: Uuid, ids: seq<Uuid>)
    ensures Queued(BadgeAwards(user, tenant, ids)) == multiset(Grants(user, ids))
  {
    if ids != [] {
      QueuedBadgeAwards(user, tenant, ids[1..]);
      assert BadgeAwards(user, tenant, ids)[1..] == BadgeAwards(user, tenant, ids[1..]);
      assert multiset(Grants(user, ids)) == multiset{UserBadge(user, ids[0])} + multiset(Grants(user, ids[1..]));
    }
  }

  lemma EmptyQueueOwesNothing(tasks: seq<Task>)
    requires forall t :: t in tasks ==> TaskPaysFor(t) == multiset{}
    ensures Queued(tasks) == multiset{}
  {}

  /** Only evaluations dispatch badge awards. */
  ghost predicate NoForeignBadgeAwards(choices: seq<Choice>) {
    forall i :: 0 <= i < |choices| && choices[i].Dispatch? ==> TaskPaysFor(choices[i].task) == multiset{}
  }

  lemma AwardPaysForTask(ledger: Ledger, r: AwardRequest, features: Features, multiplier: int)
    ensures Paid(Award(ledger, r, features, multiplier).1.events) == Paid(ledger.events) + TaskPaysFor(AwardTask(r))
  {
    var after := Award(ledger, r, features, multiplier).1;
    if r.action in XP_ACTIONS {
      assert after.events[..|after.events| - 1] == ledger.events;
    }
  }

  /** Running an award moves its grant from the queue to the ledger. */
  lemma AwardConserves(w: World, c: Choice)
    requires c.Run? && c.index < |w.queue| && w.queue[c.index].AwardTask?
    requires Conserved(w)
    ensures Conserved(Step(w, c))
  {
    var rest, task := Without(w.queue, c.index), w.queue[c.index];
    var result := Award(w.ledger, task.request, c.features, c.multiplier).0;
    var more := FollowUps(task.request.user, task.request.tenant, result);
    QueuedWithout(w.queue, c.index);
    QueuedAppend(rest, more);
    EmptyQueueOwesNothing(more);
    AwardPaysForTask(w.ledger, task.request, c.features, c.multiplier);
  }

  /** Running an evaluation queues one award for each badge it grants. */
  lemma EvaluationConserves(w: World, c: Choice)
    requires c.Run? && c.index < |w.queue| && w.queue[c.index].EvaluateTask?
    requires Conserved(w)
    ensures Conserved(Step(w, c))
  {
    var rest, task := Without(w.queue, c.index), w.queue[c.index];
    var ids := EvaluationGrants(w, task.user, task.tenant, task.trigger, c.sees);
    QueuedWithout(w.queue, c.index);
    QueuedAppend(rest, BadgeAwards(task.user, task.tenant, ids));
    QueuedBadgeAwards(task.user, task.tenant, ids);
  }

  lemma StepConserves(w: World, c: Choice)
    requires Enabled(w, c) && Conserved(w)
    requires c.Dispatch? ==> TaskPaysFor(c.task) == multiset{}
    ensures Conserved(Step(w, c))
  {
    if c.Dispatch? {
      QueuedAppend(w.queue, [c.task]);
      EmptyQueueOwesNothing([c.task]);
    } else if w.queue[c.index].AwardTask? {
      AwardConserves(w, c);
    } else {
      EvaluationConserves(w, c);
    }
  }

  /** What every reachable state of the cascade satisfies. */
  ghost predicate Sound(w: World) {
    Conserved(w) && Distinct(w.held) && CacheAgrees(w.ledger)
  }

  lemma StepKeepsSound(w: World, c: Choice)
    requires Enabled(w, c) && Sound(w)
    requires c.Dispatch? ==> TaskPaysFor(c.task) == multiset{}
    ensures Sound(Step(w, c))
  {
    StepConserves(w, c);
    if c.Run? {
      match w.queue[c.index]
      case AwardTask(r) =>
        AwardKeepsCache(w.ledger, r, c.features, c.multiplier);
      case EvaluateTask(user, tenant, trigger) =>
        EvaluationIsExact(w.badges, w.held, user, tenant, trigger, LedgerSum(w.ledger.events, tenant, user), c.sees);
    }
  }

  /** In every reachable state the badges, the ledger and the queue add up, no badge is held twice,
      and every cached total is the ledger's sum. */
  lemma {:induction false} CascadeStaysSound(w: World, choices: seq<Choice>)
    requires IsRun(w, choices) && NoForeignBadgeAwards(choices)
    requires Sound(w)
    ensures Sound(After(w, choices))
    decreases |choices|
  {
    if choices != [] {
      StepKeepsSound(w, choices[0]);
      assert NoForeignBadgeAwards(choices[1..]);
      CascadeStaysSound(Step(w, choices[0]), choices[1..]);
    }
  }

  /** Once the queue has drained, each held badge has exactly one `badge_earned` event. */
  lemma DrainedMeansPaid(w: World)
    requires Sound(w) && w.queue == []
    ensures |w.held| == |Paid(w.ledger.events)|
    ensures forall u: UserBadge :: Paid(w.ledger.events)[u] == if u in w.held then 1 else 0
  {
    assert multiset(w.held) == Paid(w.ledger.events);
    forall u: UserBadge ensures multiset(w.held)[u] == if u in w.held then 1 else 0 {
      DistinctCounts(w.held, u);
    }
  }

  lemma {:induction false} DistinctCounts(held: seq<UserBadge>, u: UserBadge)
    requires Distinct(held)
    ensures multiset(held)[u] == if u in held then 1 else 0
  {
    if held != [] {
      DistinctCounts(held[1..], u);
      assert held == [held[0]] + held[1..];
    }
  }

  /******* What follows from a task *******/

  /** Whether a step raises the stored level of a user. */
  predicate Raises(w: World, c: Choice, user: Uuid, tenant: Uuid)
    requires Enabled(w, c)
  {
    LevelRow(Step(w, c).ledger, tenant, user).level > LevelRow(w.ledger, tenant, user).level
  }

  /** An award queues an evaluation for its user exactly if it has raised the stored level, and nothing otherwise. */
  lemma AwardQueuesIff(w: World, c: Choice)
    requires c.Run? && c.index < |w.queue| && w.queue[c.index].AwardTask?
    ensures var r := w.queue[c.index].request;
            Step(w, c).queue == Without(w.queue, c.index)
              + if Raises(w, c, r.user, r.tenant) then [EvaluateTask(r.user, r.tenant, "level_up")] else []
    ensures var r := w.queue[c.index].request;
            forall user, tenant :: Raises(w, c, user, tenant) ==> user == r.user && tenant == r.tenant
  {}

  /** An evaluation queues one award for each badge it adds, and nothing else. */
  lemma EvaluationQueues(w: World, c: Choice)
    requires c.Run? && c.index < |w.queue| && w.queue[c.index].EvaluateTask?
    ensures var next, task := Step(w, c), w.queue[c.index];
            && w.held <= next.held && next.ledger == w.ledger
            && var added := next.held[|w.held|..];
               && (forall i :: 0 <= i < |added| ==> added[i].user == task.user)
               && next.queue == Without(w.queue, c.index)
                    + seq(|added|, i requires 0 <= i < |added| =>
                        AwardTask(AwardRequest(task.user, task.tenant, None, "badge_earned", Some(added[i].badge),
                                               Some("badge"))))
  {
    var task := w.queue[c.index];
    var ids := EvaluationGrants(w, task.user, task.tenant, task.trigger, c.sees);
    assert Step(w, c).held[|w.held|..] == Grants(task.user, ids);
    AwardsAreGrants(task.user, task.tenant, ids);
  }

  lemma {:induction false} AwardsAreGrants(user: Uuid, tenant: Uuid, ids: seq<Uuid>)
    ensures |Grants(user, ids)| == |BadgeAwards(user, tenant, ids)| == |ids|
    ensures forall i :: 0 <= i < |ids| ==>
              Grants(user, ids)[i] == UserBadge(user, ids[i])
              && BadgeAwards(user, tenant, ids)[i] ==
                 AwardTask(AwardRequest(user, tenant, None, "badge_earned", Some(ids[i]), Some("badge")))
  {
    if ids != [] { AwardsAreGrants(user, tenant, ids[1..]); }
  }

  /** How often a run raises the stored level of a user. */
  function Rises(w: World, choices: seq<Choice>, user: Uuid, tenant: Uuid): nat
    requires IsRun(w, choices)
    decreases |choices|
  {
    if choices == [] then 0
    else (if Raises(w, choices[0], user, tenant) then 1 else 0)
         + Rises(Step(w, choices[0]), choices[1..], user, tenant)
  }

  /** How often a run runs a task, and how often other components enqueue it. */
  function TimesRun(w: World, choices: seq<Choice>, task: Task): nat
    requires IsRun(w, choices)
    decreases |choices|
  {
    if choices == [] then 0
    else (if choices[0].Run? && w.queue[choices[0].index] == task then 1 else 0)
         + TimesRun(Step(w, choices[0]), choices[1..], task)
  }

  function TimesDispatched(choices: seq<Choice>, task: Task): nat {
    if choices == [] then 0
    else (if choices[0] == Dispatch(task) then 1 else 0) + TimesDispatched(choices[1..], task)
  }

  lemma WithoutLosesOne(queue: seq<Task>, index: nat, task: Task)
    requires index < |queue|
    ensures multiset(queue)[task] == multiset(Without(queue, index))[task] + if queue[index] == task then 1 else 0
  {
    SplitAt(queue, index);
    assert multiset(queue) ==
           multiset(queue[..index]) + multiset{queue[index]} + multiset(queue[index + 1..]);
  }

  /** Badge awards are no evaluations. */
  lemma EvaluationQueuesNone(w: World, c: Choice, task: Task)
    requires c.Run? && c.index < |w.queue| && w.queue[c.index].EvaluateTask? && task.EvaluateTask?
    ensures multiset(Step(w, c).queue)[task] == multiset(Without(w.queue, c.index))[task]
  {
    var e := w.queue[c.index];
    var ids := EvaluationGrants(w, e.user, e.tenant, e.trigger, c.sees);
    BadgeAwardsShape(e.user, e.tenant, ids);
    assert task !in BadgeAwards(e.user, e.tenant, ids);
    assert multiset(BadgeAwards(e.user, e.tenant, ids))[task] == 0;
  }

  lemma LevelUpStep(w: World, c: Choice, user: Uuid, tenant: Uuid)
    requires Enabled(w, c)
    ensures var task := EvaluateTask(user, tenant, "level_up");
            multiset(Step(w, c).queue)[task] + (if c.Run? && w.queue[c.index] == task then 1 else 0) ==
            multiset(w.queue)[task] + (if Raises(w, c, user, tenant) then 1 else 0)
              + if c == Dispatch(task) then 1 else 0
  {
    var task := EvaluateTask(user, tenant, "level_up");
    if c.Run? {
      WithoutLosesOne(w.queue, c.index, task);
      if w.queue[c.index].AwardTask? { AwardQueuesIff(w, c); } else { EvaluationQueuesNone(w, c, task); }
    }
  }

  /** Over every run, in any order: the evaluations for a user's level-ups that are queued at the end or have been run
      are those queued at the start, one for each time the stored level has risen, and those of other components. */
  lemma {:induction false} LevelUpsAreEvaluated(w: World, choices: seq<Choice>, user: Uuid, tenant: Uuid)
    requires IsRun(w, choices)
    ensures var task := EvaluateTask(user, tenant, "level_up");
            multiset(After(w, choices).queue)[task] + TimesRun(w, choices, task) ==
            multiset(w.queue)[task] + Rises(w, choices, user, tenant) + TimesDispatched(choices, task)
    decreases |choices|
  {
    if choices != [] {
      LevelUpStep(w, choices[0], user, tenant);
      LevelUpsAreEvaluated(Step(w, choices[0]), choices[1..], user, tenant);
    }
  }

  /******* Why a badge is held *******/

  /** Step `c` of world `w` is an evaluation in which `u` qualified, by the total cached at that moment. */
  ghost predicate EarnedAt(w: World, c: Choice, u: UserBadge) {
    && c.Run? && c.index < |w.queue|
    && w.queue[c.index].EvaluateTask?
    && w.queue[c.index].user == u.user
    && var task := w.queue[c.index];
       exists b :: b in w.badges && b.id == u.badge
              && Qualifies(b, task.tenant, task.trigger, LevelRow(w.ledger, task.tenant, task.user).totalXp, c.sees)
  }

  lemma NewBadgeWasEarned(w: World, c: Choice, u: UserBadge)
    requires Enabled(w, c) && CacheAgrees(w.ledger)
    ensures u in Step(w, c).held <==> u in w.held || EarnedAt(w, c, u)
  {
    if c.Run? && w.queue[c.index].EvaluateTask? {
      var task := w.queue[c.index];
      assert LevelRow(w.ledger, task.tenant, task.user).totalXp == LedgerSum(w.ledger.events, task.tenant, task.user);
      EvaluationIsExact(w.badges, w.held, task.user, task.tenant, task.trigger,
                        LedgerSum(w.ledger.events, task.tenant, task.user), c.sees);
    }
  }

  lemma {:induction false} PrefixIsRun(w: World, choices: seq<Choice>, k: nat)
    requires IsRun(w, choices) && k <= |choices|
    ensures IsRun(w, choices[..k])
    decreases |choices|
  {
    if k > 0 {
      PrefixIsRun(Step(w, choices[0]), choices[1..], k - 1);
      assert choices[..k][1..] == choices[1..][..k - 1];
    }
  }

  ghost predicate EarnedDuring(w: World, choices: seq<Choice>, k: nat, u: UserBadge)
    requires IsRun(w, choices)
  {
    && k < |choices|
    && IsRun(w, choices[..k])
    && EarnedAt(After(w, choices[..k]), choices[k], u)
  }

  /** A badge is held after a run exactly when it was held before or some evaluation of the run
      found its conditions met at that moment. */
  lemma {:induction false} HeldIffEarned(w: World, choices: seq<Choice>, u: UserBadge)
    requires IsRun(w, choices)
    requires CacheAgrees(w.ledger)
    ensures u in After(w, choices).held <==> u in w.held || exists k: nat :: EarnedDuring(w, choices, k, u)
    decreases |choices|
  {
    if choices != [] {
      var c, next := choices[0], Step(w, choices[0]);
      if c.Run? && w.queue[c.index].AwardTask? {
        AwardKeepsCache(w.ledger, w.queue[c.index].request, c.features, c.multiplier);
      }
      NewBadgeWasEarned(w, c, u);
      HeldIffEarned(next, choices[1..], u);
      forall k: nat | k < |choices| ensures EarnedDuring(w, choices, k, u) <==>
                                            if k == 0 then EarnedAt(w, c, u)
                                            else EarnedDuring(next, choices[1..], k - 1, u)
      {
        PrefixIsRun(w, choices, k);
        if k > 0 {
          PrefixIsRun(next, choices[1..], k - 1);
          assert choices[..k][1..] == choices[1..][..k - 1];
        }
      }
      if EarnedAt(w, c, u) {
        assert EarnedDuring(w, choices, 0, u);
      }
      if k: nat :| EarnedDuring(next, choices[1..], k, u) {
        assert EarnedDuring(w, choices, k + 1, u);
      }
    }
  }
}
