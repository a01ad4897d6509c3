/** Two participants submit at the same time: every commit and every read is its own step. */
module QuizRace {
  import opened Wrappers
  import opened QuizBattle
  import TaskQueue

  datatype Side = Challenger | Opponent

  /** How far one submit handler has come, with its own copy of the battle row. */
  datatype Local =
    | Idle
    | Loaded(copy: Battle)
    | Stored(copy: Battle)
    | HasRead(copy: Battle, seen: seq<Answer>)
    | Done(sawBoth: bool)

  /** The shared rows and the two handlers. */
  datatype Race = Race(battle: Battle, answers: seq<Answer>, sent: seq<TaskQueue.Task>,
                       challenger: Local, opponent: Local)

  /** What the race is about: the answers to be submitted and the users a prize looks up. */
  datatype Setup = Setup(id: Uuid, users: map<Uuid, User>, challengerAnswer: Answer, opponentAnswer: Answer)

  function Mine(s: Setup, side: Side): Answer {
    if side.Challenger? then s.challengerAnswer else s.opponentAnswer
  }

  function At(r: Race, side: Side): Local {
    if side.Challenger? then r.challenger else r.opponent
  }

  function Move(r: Race, side: Side, next: Local): Race {
    if side.Challenger? then r.(challenger := next) else r.(opponent := next)
  }

  /** One step of one handler: load the row; insert and commit; read the answers back; decide and commit.
      A commit writes only the columns the handler changed on its copy. */
  function Step(s: Setup, r: Race, side: Side): Race {
    match At(r, side)
    case Idle =>
      if r.battle.status.Completed? then Move(r, side, Done(false)) else Move(r, side, Loaded(r.battle))
    case Loaded(copy) =>
      var written := if copy.status.Pending? then r.battle.(status := Active) else r.battle;
      Move(r.(battle := written, answers := r.answers + [Mine(s, side)]), side, Stored(Start(copy)))
    case Stored(copy) =>
      Move(r, side, HasRead(copy, r.answers))
    case HasRead(copy, seen) =>
      if BothIn(copy, seen) then
        var winner := Decide(copy, seen).winner;
        var prize := if winner.Some? then [Prize(s.users, copy.tenant, s.id, winner.value)] else [];
        Move(r.(battle := r.battle.(status := Completed, winner := winner), sent := r.sent + prize), side, Done(true))
      else
        Move(r, side, Done(false))
    case Done(_) => r
  }

  function After(s: Setup, r: Race, schedule: seq<Side>): Race {
    if schedule == [] then r
    else Step(s, After(s, r, schedule[..|schedule| - 1]), schedule[|schedule| - 1])
  }

  predicate Fair(s: Setup, b: Battle) {
    && b.challenger != b.opponent
    && b.status.Pending? && b.winner == None
    && s.challengerAnswer.user == b.challenger && s.opponentAnswer.user == b.opponent
  }

  function Begin(b: Battle): Race {
    Race(b, [], [], Idle, Idle)
  }

  function Verdict(s: Setup, b: Battle): Option<Uuid> {
    WinnerByScore(b.challenger, b.opponent, s.challengerAnswer.score, s.opponentAnswer.score)
  }

  predicate HasStored(l: Local) {
    l.Stored? || l.HasRead? || l.Done?
  }

  function Decisions(r: Race): nat {
    (if r.challenger == Done(true) then 1 else 0) + (if r.opponent == Done(true) then 1 else 0)
  }

  /** The copy is the original row, at most started or completed since. */
  predicate CopyOf(b: Battle, copy: Battle) {
    copy == b.(status := copy.status, winner := copy.winner)
  }

  /** What one handler may know: whoever stored second reads both answers. */
  predicate LocalOk(s: Setup, b: Battle, r: Race, side: Side) {
    match At(r, side)
    case Idle => true
    case Loaded(copy) => CopyOf(b, copy) && (copy.status.Pending? || (copy.status.Active? && r.answers != []))
    case Stored(copy) => CopyOf(b, copy)
    case HasRead(copy, seen) =>
      && CopyOf(b, copy)
      && (seen == r.answers || (|r.answers| == 2 && seen == [Mine(s, side)] && r.answers[0] == Mine(s, side)))
    case Done(sawBoth) =>
      && (sawBoth ==> r.battle.status.Completed?)
      && (!sawBoth ==> r.answers != [] && r.answers[0] == Mine(s, side))
  }

  predicate AnswersOk(s: Setup, r: Race) {
    var c, o := s.challengerAnswer, s.opponentAnswer;
    match (HasStored(r.challenger), HasStored(r.opponent))
    case (false, false) => r.answers == []
    case (true, false) => r.answers == [c]
    case (false, true) => r.answers == [o]
    case (true, true) => r.answers == [c, o] || r.answers == [o, c]
  }

  predicate StatusOk(r: Race) {
    && (r.battle.status.Pending? <==> r.answers == [])
    && !r.battle.status.Expired?
    && (r.battle.status.Completed? <==> Decisions(r) > 0)
    && (Decisions(r) > 0 ==> |r.answers| == 2)
  }

  predicate Inv(s: Setup, b: Battle, r: Race) {
    && Fair(s, b)
    && CopyOf(b, r.battle)
    && AnswersOk(s, r)
    && StatusOk(r)
    && r.battle.winner == (if r.battle.status.Completed? then Verdict(s, b) else None)
    && LocalOk(s, b, r, Challenger) && LocalOk(s, b, r, Opponent)
    && |r.sent| == (if Verdict(s, b).Some? then Decisions(r) else 0)
    && (forall t :: t in r.sent ==> Verdict(s, b).Some? && t == Prize(s.users, b.tenant, s.id, Verdict(s, b).value))
  }

  lemma DecideIsVerdict(s: Setup, b: Battle, copy: Battle, seen: seq<Answer>)
    requires Fair(s, b) && CopyOf(b, copy)
    requires seen == [s.challengerAnswer, s.opponentAnswer] || seen == [s.opponentAnswer, s.challengerAnswer]
    ensures BothIn(copy, seen) && Decide(copy, seen).winner == Verdict(s, b)
  {
    assert AnswerBy(seen[1..], seen[1].user) == Some(seen[1]);
    assert AnswerBy(seen, seen[0].user) == Some(seen[0]);
    assert AnswerBy(seen, seen[1].user) == Some(seen[1]);
  }

  lemma DecidingKeepsInv(s: Setup, b: Battle, r: Race, side: Side)
    requires Inv(s, b, r) && At(r, side).HasRead?
    ensures Inv(s, b, Step(s, r, side))
  {
    if |At(r, side).seen| == 2 {
      DecideIsVerdict(s, b, At(r, side).copy, At(r, side).seen);
    }
  }

  lemma StoringKeepsInv(s: Setup, b: Battle, r: Race, side: Side)
    requires Inv(s, b, r) && At(r, side).Loaded?
    ensures Inv(s, b, Step(s, r, side))
  {}

  lemma StepKeepsInv(s: Setup, b: Battle, r: Race, side: Side)
    requires Inv(s, b, r)
    ensures Inv(s, b, Step(s, r, side))
  {
    if At(r, side).HasRead? {
      DecidingKeepsInv(s, b, r, side);
    } else if At(r, side).Loaded? {
      StoringKeepsInv(s, b, r, side);
    }
  }

  lemma {:induction false} RaceKeepsInv(s: Setup, b: Battle, schedule: seq<Side>)
    requires Fair(s, b)
    ensures Inv(s, b, After(s, Begin(b), schedule))
  {
    if schedule != [] {
      RaceKeepsInv(s, b, schedule[..|schedule| - 1]);
      StepKeepsInv(s, b, After(s, Begin(b), schedule[..|schedule| - 1]), schedule[|schedule| - 1]);
    }
  }

  function Rank(status: Status): nat {
    match status
    case Pending => 0
    case Active => 1
    case Expired => 1
    case Completed => 2
  }

  /** Under any interleaving the stored status only moves forward; it never falls back from completed. */
  lemma StatusNeverFallsBack(s: Setup, b: Battle, schedule: seq<Side>, side: Side)
    requires Fair(s, b)
    ensures var r := After(s, Begin(b), schedule);
            Rank(r.battle.status) <= Rank(Step(s, r, side).battle.status)
  {
    RaceKeepsInv(s, b, schedule);
    StepKeepsInv(s, b, After(s, Begin(b), schedule), side);
  }

  function Turns(schedule: seq<Side>, side: Side): nat {
    if schedule == [] then 0
    else Turns(schedule[..|schedule| - 1], side) + if schedule[|schedule| - 1] == side then 1 else 0
  }

  function Progress(l: Local): nat {
    match l
    case Idle => 0
    case Loaded(_) => 1
    case Stored(_) => 2
    case HasRead(_, _) => 3
    case Done(_) => 4
  }

  lemma StepProgress(s: Setup, b: Battle, r: Race, actor: Side, side: Side)
    requires Inv(s, b, r)
    ensures Progress(At(Step(s, r, actor), side)) ==
            Progress(At(r, side)) + if actor == side && Progress(At(r, side)) < 4 then 1 else 0
  {
    assert r.battle.status.Completed? ==> |r.answers| == 2;
  }

  /** A handler's progress is the number of turns it was given. */
  lemma {:induction false} TurnsAdvance(s: Setup, b: Battle, schedule: seq<Side>, side: Side)
    requires Fair(s, b)
    ensures var turns := Turns(schedule, side);
            Progress(At(After(s, Begin(b), schedule), side)) == if turns < 4 then turns else 4
  {
    if schedule != [] {
      var front, last := schedule[..|schedule| - 1], schedule[|schedule| - 1];
      TurnsAdvance(s, b, front, side);
      RaceKeepsInv(s, b, front);
      StepProgress(s, b, After(s, Begin(b), front), last, side);
    }
  }

  /** Every interleaving in which both handlers finish completes the battle, with the winner the scores
      determine; a winner gets one prize per handler that read both answers, so at least one. */
  lemma EveryInterleavingCompletes(s: Setup, b: Battle, schedule: seq<Side>)
    requires Fair(s, b)
    requires Turns(schedule, Challenger) >= 4 && Turns(schedule, Opponent) >= 4
    ensures var r := After(s, Begin(b), schedule);
            && r.battle == b.(status := Completed, winner := Verdict(s, b))
            && (Verdict(s, b) == None ==> r.sent == [])
            && (Verdict(s, b).Some? ==> 1 <= |r.sent| == Decisions(r) <= 2)
            && (forall t :: t in r.sent ==> t == Prize(s.users, b.tenant, s.id, Verdict(s, b).value))
  {
    RaceKeepsInv(s, b, schedule);
    TurnsAdvance(s, b, schedule, Challenger);
    TurnsAdvance(s, b, schedule, Opponent);
    var r := After(s, Begin(b), schedule);
    assert r.challenger.Done? && r.opponent.Done?;
  }

  function Other(side: Side): Side {
    if side.Challenger? then Opponent else Challenger
  }

  /** At some point of the schedule `side` has read (its third turn) and the other has not committed (its second). */
  predicate ReadEarly(schedule: seq<Side>, side: Side) {
    schedule != [] &&
    (ReadEarly(schedule[..|schedule| - 1], side)
     || (Turns(schedule, side) >= 3 && Turns(schedule, Other(side)) < 2))
  }

  predicate SawOnlyItself(l: Local) {
    (l.HasRead? && |l.seen| == 1) || l == Done(false)
  }

  lemma EarlyReaderIsAlone(s: Setup, b: Battle, r: Race, side: Side)
    requires Inv(s, b, r) && Progress(At(r, side)) >= 3 && Progress(At(r, Other(side))) < 2
    ensures SawOnlyItself(At(r, side))
  {}

  lemma SawOnlyItselfStays(s: Setup, b: Battle, r: Race, actor: Side, side: Side)
    requires Inv(s, b, r) && SawOnlyItself(At(r, side))
    ensures SawOnlyItself(At(Step(s, r, actor), side))
  {}

  lemma SawOnlyItselfBegins(s: Setup, b: Battle, r: Race, actor: Side, side: Side)
    requires Inv(s, b, r) && !SawOnlyItself(At(r, side)) && SawOnlyItself(At(Step(s, r, actor), side))
    ensures var next := Step(s, r, actor); Progress(At(next, side)) >= 3 && Progress(At(next, Other(side))) < 2
  {
    if At(r, side).HasRead? && |At(r, side).seen| == 2 {
      DecideIsVerdict(s, b, At(r, side).copy, At(r, side).seen);
    }
  }

  lemma SawOnlyItselfStep(s: Setup, b: Battle, r: Race, actor: Side, side: Side)
    requires Inv(s, b, r)
    ensures var next := Step(s, r, actor);
            SawOnlyItself(At(next, side)) <==>
            SawOnlyItself(At(r, side)) || (Progress(At(next, side)) >= 3 && Progress(At(next, Other(side))) < 2)
  {
    var next := Step(s, r, actor);
    StepKeepsInv(s, b, r, actor);
    if SawOnlyItself(At(r, side)) {
      SawOnlyItselfStays(s, b, r, actor, side);
    } else if SawOnlyItself(At(next, side)) {
      SawOnlyItselfBegins(s, b, r, actor, side);
    } else if Progress(At(next, side)) >= 3 && Progress(At(next, Other(side))) < 2 {
      EarlyReaderIsAlone(s, b, next, side);
    }
  }

  lemma {:induction false} SawOnlyItselfIff(s: Setup, b: Battle, schedule: seq<Side>, side: Side)
    requires Fair(s, b)
    ensures SawOnlyItself(At(After(s, Begin(b), schedule), side)) <==> ReadEarly(schedule, side)
  {
    if schedule != [] {
      var prefix := schedule[..|schedule| - 1];
      SawOnlyItselfIff(s, b, prefix, side);
      RaceKeepsInv(s, b, prefix);
      SawOnlyItselfStep(s, b, After(s, Begin(b), prefix), schedule[|schedule| - 1], side);
      TurnsAdvance(s, b, schedule, side);
      TurnsAdvance(s, b, schedule, Other(side));
    }
  }

  /** The prize is paid exactly once if and only if one handler read before the other had committed. */
  lemma PaidOnceIff(s: Setup, b: Battle, schedule: seq<Side>)
    requires Fair(s, b) && Verdict(s, b).Some?
    requires Turns(schedule, Challenger) >= 4 && Turns(schedule, Opponent) >= 4
    ensures |After(s, Begin(b), schedule).sent| == 1 <==>
            ReadEarly(schedule, Challenger) || ReadEarly(schedule, Opponent)
  {
    EveryInterleavingCompletes(s, b, schedule);
    TurnsAdvance(s, b, schedule, Challenger);
    TurnsAdvance(s, b, schedule, Opponent);
    SawOnlyItselfIff(s, b, schedule, Challenger);
    SawOnlyItselfIff(s, b, schedule, Opponent);
  }

  lemma AfterAppend(s: Setup, r: Race, schedule: seq<Side>, side: Side)
    ensures After(s, r, schedule + [side]) == Step(s, After(s, r, schedule), side)
  {
    assert (schedule + [side])[..|schedule|] == schedule;
  }

  /** Both handlers take one step, the challenger first. */
  lemma BothStep(s: Setup, r: Race, schedule: seq<Side>, from: Race)
    requires After(s, r, schedule) == from
    ensures After(s, r, schedule + [Challenger] + [Opponent]) == Step(s, Step(s, from, Challenger), Opponent)
  {
    AfterAppend(s, r, schedule, Challenger);
    AfterAppend(s, r, schedule + [Challenger], Opponent);
  }

  /** The race after `n` steps of each handler, taken in turns. */
  function LockStep(s: Setup, b: Battle, n: nat): Race
    requires n <= 3
  {
    var all, active := [s.challengerAnswer, s.opponentAnswer], b.(status := Active);
    if n == 0 then Begin(b)
    else if n == 1 then Race(b, [], [], Loaded(b), Loaded(b))
    else if n == 2 then Race(active, all, [], Stored(active), Stored(active))
    else Race(active, all, [], HasRead(active, all), HasRead(active, all))
  }

  lemma LockStepNext(s: Setup, b: Battle, n: nat)
    requires Fair(s, b) && n < 3
    ensures Step(s, Step(s, LockStep(s, b, n), Challenger), Opponent) == LockStep(s, b, n + 1)
  {
    assert [s.challengerAnswer] + [s.opponentAnswer] == [s.challengerAnswer, s.opponentAnswer];
  }

  lemma BothDecide(s: Setup, b: Battle)
    requires Fair(s, b) && Verdict(s, b).Some?
    ensures |Step(s, Step(s, LockStep(s, b, 3), Challenger), Opponent).sent| == 2
  {
    DecideIsVerdict(s, b, b.(status := Active), [s.challengerAnswer, s.opponentAnswer]);
  }

  /** Both commit before either reads: two handlers decide, and the prize is dispatched twice. */
  lemma PrizeCanBePaidTwice(s: Setup, b: Battle)
    requires Fair(s, b) && Verdict(s, b).Some?
    ensures exists schedule :: |After(s, Begin(b), schedule).sent| == 2
  {
    var schedule: seq<Side> := [];
    for n := 0 to 3
      invariant After(s, Begin(b), schedule) == LockStep(s, b, n)
    {
      BothStep(s, Begin(b), schedule, LockStep(s, b, n));
      LockStepNext(s, b, n);
      schedule := schedule + [Challenger] + [Opponent];
    }
    BothStep(s, Begin(b), schedule, LockStep(s, b, 3));
    BothDecide(s, b);
  }

  lemma FirstSubmit(db: Db, id: Uuid, x: Answer, now: int)
    requires id in db.battles && BattleOk(db, id)
    requires db.battles[id].status.Pending? && now <= db.battles[id].expiresAt
    requires var b := db.battles[id];
             Participant(b, x.user) && x == Answer(id, x.user, x.answers, CorrectCount(b.questions, x.answers))
    ensures var b := db.battles[id];
            var one := Submit(db, b.tenant, x.user, id, x.answers, now).1;
            && id in one.battles && one.battles[id] == b.(status := Active)
            && AnswersOf(one.answers, id) == [x]
  {
    var b := db.battles[id];
    assert AnswersOf(db.answers, id) == [];
    assert [] + [x] == [x];
    assert Accept(b, [], x) == b.(status := Active);
    AnswersOfAppend(db.answers, x, id);
  }

  lemma SecondSubmit(one: Db, id: Uuid, x: Answer, y: Answer, now: int)
    requires id in one.battles && one.battles[id].status.Active? && now <= one.battles[id].expiresAt
    requires AnswersOf(one.answers, id) == [x] && x.user != y.user
    requires var b := one.battles[id];
             Participant(b, y.user) && y == Answer(id, y.user, y.answers, CorrectCount(b.questions, y.answers))
    ensures var b := one.battles[id];
            var two := Submit(one, b.tenant, y.user, id, y.answers, now).1;
            id in two.battles && two.battles[id] == Decide(b, [x, y])
  {
    assert AnswerBy([x][1..], y.user) == None;
    assert [x] + [y] == [x, y];
  }

  /** Two whole handler calls, one after the other. */
  lemma TwoSubmits(db: Db, id: Uuid, x: Answer, y: Answer, now: int)
    requires Valid(db) && id in db.battles && db.battles[id].status.Pending? && now <= db.battles[id].expiresAt
    requires var b := db.battles[id];
             && Participant(b, x.user) && Participant(b, y.user) && x.user != y.user
             && x == Answer(id, x.user, x.answers, CorrectCount(b.questions, x.answers))
             && y == Answer(id, y.user, y.answers, CorrectCount(b.questions, y.answers))
    ensures var b := db.battles[id];
            var one := Submit(db, b.tenant, x.user, id, x.answers, now).1;
            var two := Submit(one, b.tenant, y.user, id, y.answers, now).1;
            id in two.battles && two.battles[id] == Decide(b.(status := Active), [x, y])
  {
    var b := db.battles[id];
    assert BattleOk(db, id);
    FirstSubmit(db, id, x, now);
    SecondSubmit(Submit(db, b.tenant, x.user, id, x.answers, now).1, id, x, y, now);
  }

  /** Two whole handler calls, in either order, complete the battle with the winner the scores determine. */
  lemma HandlersGiveVerdict(db: Db, s: Setup, x: Answer, y: Answer, now: int)
    requires Valid(db) && s.id in db.battles && Fair(s, db.battles[s.id]) && now <= db.battles[s.id].expiresAt
    requires (x == s.challengerAnswer && y == s.opponentAnswer) || (x == s.opponentAnswer && y == s.challengerAnswer)
    requires var b := db.battles[s.id];
             && x == Answer(s.id, x.user, x.answers, CorrectCount(b.questions, x.answers))
             && y == Answer(s.id, y.user, y.answers, CorrectCount(b.questions, y.answers))
    ensures var b := db.battles[s.id];
            var one := Submit(db, b.tenant, x.user, s.id, x.answers, now).1;
            var two := Submit(one, b.tenant, y.user, s.id, y.answers, now).1;
            s.id in two.battles && two.battles[s.id] == b.(status := Completed, winner := Verdict(s, b))
  {
    var b := db.battles[s.id];
    TwoSubmits(db, s.id, x, y, now);
    DecideIsVerdict(s, b, b.(status := Active), [x, y]);
  }

  /** Whatever the interleaving, the battle record is the one two whole handler calls leave. */
  lemma RaceRefinesHandlers(db: Db, s: Setup, schedule: seq<Side>, now: int)
    requires Valid(db) && s.id in db.battles && Fair(s, db.battles[s.id])
    requires now <= db.battles[s.id].expiresAt
    requires Turns(schedule, Challenger) >= 4 && Turns(schedule, Opponent) >= 4
    requires var b := db.battles[s.id];
             && s.challengerAnswer == Answer(s.id, b.challenger, s.challengerAnswer.answers,
                                             CorrectCount(b.questions, s.challengerAnswer.answers))
             && s.opponentAnswer == Answer(s.id, b.opponent, s.opponentAnswer.answers,
                                           CorrectCount(b.questions, s.opponentAnswer.answers))
    ensures var b := db.battles[s.id];
            var c, o := s.challengerAnswer.answers, s.opponentAnswer.answers;
            var first := Submit(Submit(db, b.tenant, b.challenger, s.id, c, now).1,
                                b.tenant, b.opponent, s.id, o, now).1;
            var second := Submit(Submit(db, b.tenant, b.opponent, s.id, o, now).1,
                                 b.tenant, b.challenger, s.id, c, now).1;
            && s.id in first.battles && first.battles[s.id] == After(s, Begin(b), schedule).battle
            && s.id in second.battles && second.battles[s.id] == After(s, Begin(b), schedule).battle
  {
    EveryInterleavingCompletes(s, db.battles[s.id], schedule);
    HandlersGiveVerdict(db, s, s.challengerAnswer, s.opponentAnswer, now);
    HandlersGiveVerdict(db, s, s.opponentAnswer, s.challengerAnswer, now);
  }
}
