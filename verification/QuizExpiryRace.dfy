/** The last answer of a battle against readers: a submit that loaded the battle in time, and list or get requests that
    load it after the deadline and commit what they find to be overdue. */
module QuizExpiryRace {
  import opened Wrappers
  import opened QuizBattle
  import QuizRace
  import TaskQueue

  /** The submit takes its next step; a reader loads the battle at some time; a reader that has found it overdue
      commits `expired`. */
  datatype Moment = Turn | Load(reader: nat, now: int) | Expire(reader: nat)

  /** The race of the submit, and the readers whose copy is overdue. */
  datatype State = State(race: QuizRace.Race, holding: set<nat>)

  /** The participant `side` submits last. */
  function First(s: QuizRace.Setup, side: QuizRace.Side): Answer {
    QuizRace.Mine(s, QuizRace.Other(side))
  }

  function Both(s: QuizRace.Setup, side: QuizRace.Side): seq<Answer> {
    [First(s, side), QuizRace.Mine(s, side)]
  }

  function Locals(race: QuizRace.Race, side: QuizRace.Side, first: QuizRace.Local,
                  last: QuizRace.Local): QuizRace.Race
  {
    QuizRace.Move(QuizRace.Move(race, QuizRace.Other(side), first), side, last)
  }

  /** A battle that one participant has answered; the submit of the other one has loaded it. */
  function Begin(s: QuizRace.Setup, b: Battle, side: QuizRace.Side): State {
    State(Locals(QuizRace.Race(b, [First(s, side)], [], QuizRace.Idle, QuizRace.Idle), side,
                 QuizRace.Done(false), QuizRace.Loaded(b)), {})
  }

  predicate Fair(s: QuizRace.Setup, b: Battle) {
    && b.challenger != b.opponent && b.status.Active? && b.winner == None
    && s.challengerAnswer.user == b.challenger && s.opponentAnswer.user == b.opponent
  }

  function Step(s: QuizRace.Setup, side: QuizRace.Side, t: State, m: Moment): State {
    match m
    case Turn => t.(race := QuizRace.Step(s, t.race, side))
    case Load(reader, now) =>
      t.(holding := if Overdue(t.race.battle, now) then t.holding + {reader} else t.holding - {reader})
    case Expire(reader) =>
      if reader !in t.holding then t
      else State(t.race.(battle := t.race.battle.(status := Expired)), t.holding - {reader})
  }

  function After(s: QuizRace.Setup, b: Battle, side: QuizRace.Side, ms: seq<Moment>): State {
    if ms == [] then Begin(s, b, side) else Step(s, side, After(s, b, side, ms[..|ms| - 1]), ms[|ms| - 1])
  }

  /******* What the schedule alone says *******/

  function Turns(ms: seq<Moment>): nat {
    if ms == [] then 0 else Turns(ms[..|ms| - 1]) + if ms[|ms| - 1].Turn? then 1 else 0
  }

  /** The submit stores, reads and decides. */
  const DECIDED: nat := 3

  /** The reader has loaded the battle after its deadline, before the decision and before any other reader had expired
      it, and has not committed yet. */
  predicate Holds(b: Battle, ms: seq<Moment>, reader: nat)
    decreases |ms|, 0
  {
    ms != [] &&
    var front, last := ms[..|ms| - 1], ms[|ms| - 1];
    if last.Load? && last.reader == reader then
      b.expiresAt < last.now && Turns(front) < DECIDED && !Expires(b, front)
    else last != Expire(reader) && Holds(b, front, reader)
  }

  /** Some reader has committed what it held. */
  predicate Expires(b: Battle, ms: seq<Moment>)
    decreases |ms|, 1
  {
    ms != [] &&
    (Expires(b, ms[..|ms| - 1]) || (ms[|ms| - 1].Expire? && Holds(b, ms[..|ms| - 1], ms[|ms| - 1].reader)))
  }

  /** Some reader has committed what it held after the decision. */
  predicate ExpiresLate(b: Battle, ms: seq<Moment>) {
    ms != [] &&
    (ExpiresLate(b, ms[..|ms| - 1])
     || (ms[|ms| - 1].Expire? && Holds(b, ms[..|ms| - 1], ms[|ms| - 1].reader) && Turns(ms) >= DECIDED))
  }

  /******* What the tables say *******/

  function Verdict(s: QuizRace.Setup, b: Battle): Option<Uuid> {
    QuizRace.Verdict(s, b)
  }

  /** Where the submit is after a number of turns, and the answers there are by then. */
  function LastLocal(s: QuizRace.Setup, b: Battle, side: QuizRace.Side, turns: nat): QuizRace.Local {
    if turns == 0 then QuizRace.Loaded(b)
    else if turns == 1 then QuizRace.Stored(b)
    else if turns == 2 then QuizRace.HasRead(b, Both(s, side))
    else QuizRace.Done(true)
  }

  function Prizes(s: QuizRace.Setup, b: Battle): seq<TaskQueue.Task> {
    if Verdict(s, b).Some? then [Prize(s.users, b.tenant, s.id, Verdict(s, b).value)] else []
  }

  /** The race after a number of turns, up to the status. */
  function Expected(s: QuizRace.Setup, b: Battle, side: QuizRace.Side, turns: nat, status: Status): QuizRace.Race {
    Locals(QuizRace.Race(b.(status := status, winner := if turns < DECIDED then None else Verdict(s, b)),
                         if turns == 0 then [First(s, side)] else Both(s, side),
                         if turns < DECIDED then [] else Prizes(s, b), QuizRace.Idle, QuizRace.Idle),
           side, QuizRace.Done(false), LastLocal(s, b, side, turns))
  }

  function StatusAfter(b: Battle, ms: seq<Moment>): Status {
    if Turns(ms) < DECIDED then (if Expires(b, ms) then Expired else Active)
    else if ExpiresLate(b, ms) then Expired
    else Completed
  }

  predicate Inv(s: QuizRace.Setup, b: Battle, side: QuizRace.Side, ms: seq<Moment>) {
    After(s, b, side, ms).race == Expected(s, b, side, Turns(ms), StatusAfter(b, ms))
  }

  lemma DecisionIsVerdict(s: QuizRace.Setup, b: Battle, side: QuizRace.Side)
    requires Fair(s, b)
    ensures BothIn(b, Both(s, side)) && Decide(b, Both(s, side)).winner == Verdict(s, b)
  {
    AnswerByPair(First(s, side), QuizRace.Mine(s, side));
  }

  lemma OneTurn(s: QuizRace.Setup, b: Battle, side: QuizRace.Side, turns: nat, status: Status)
    requires Fair(s, b)
    ensures QuizRace.Step(s, Expected(s, b, side, turns, status), side) ==
            Expected(s, b, side, turns + 1, if turns == 2 then Completed else status)
  {
    DecisionIsVerdict(s, b, side);
    assert [First(s, side)] + [QuizRace.Mine(s, side)] == Both(s, side);
    assert [] + Prizes(s, b) == Prizes(s, b);
  }

  lemma {:induction false} LateNeedsDecision(b: Battle, ms: seq<Moment>)
    ensures ExpiresLate(b, ms) ==> Turns(ms) >= DECIDED && Expires(b, ms)
  {
    if ms != [] { LateNeedsDecision(b, ms[..|ms| - 1]); }
  }

  lemma {:induction false} HoldingIsHolds(s: QuizRace.Setup, b: Battle, side: QuizRace.Side,
                                          ms: seq<Moment>, reader: nat)
    requires Fair(s, b)
    ensures reader in After(s, b, side, ms).holding <==> Holds(b, ms, reader)
    decreases |ms|, 0
  {
    if ms != [] {
      HoldingIsHolds(s, b, side, ms[..|ms| - 1], reader);
      RaceKeepsInv(s, b, side, ms[..|ms| - 1]);
    }
  }

  lemma {:induction false} RaceKeepsInv(s: QuizRace.Setup, b: Battle, side: QuizRace.Side, ms: seq<Moment>)
    requires Fair(s, b)
    ensures Inv(s, b, side, ms)
    decreases |ms|, 1
  {
    if ms == [] {
      assert b.(status := Active, winner := None) == b;
    } else {
      var front, last := ms[..|ms| - 1], ms[|ms| - 1];
      RaceKeepsInv(s, b, side, front);
      LateNeedsDecision(b, front);
      if last.Turn? { OneTurn(s, b, side, Turns(front), StatusAfter(b, front)); }
      if last.Expire? { HoldingIsHolds(s, b, side, front, last.reader); }
    }
  }

  /** Under every interleaving the decision stands: both answers are in, the winner is the one the scores determine, and
      the prize has been dispatched once.  But the battle ends expired, not completed, exactly if some reader that had
      loaded it after the deadline and before the decision commits after the decision. */
  lemma EndsExpiredIff(s: QuizRace.Setup, b: Battle, side: QuizRace.Side, ms: seq<Moment>)
    requires Fair(s, b) && Turns(ms) >= DECIDED
    ensures var r := After(s, b, side, ms).race;
            && r.answers == Both(s, side)
            && r.battle == b.(status := if ExpiresLate(b, ms) then Expired else Completed, winner := Verdict(s, b))
            && r.sent == if Verdict(s, b).Some? then [Prize(s.users, b.tenant, s.id, Verdict(s, b).value)] else []
  {
    RaceKeepsInv(s, b, side, ms);
  }

  lemma OneMoreTurn(b: Battle, ms: seq<Moment>, reader: nat)
    ensures Turns(ms + [Turn]) == Turns(ms) + 1
    ensures Holds(b, ms + [Turn], reader) == Holds(b, ms, reader)
  {
    assert (ms + [Turn])[..|ms|] == ms;
  }

  /** That does happen, whatever the battle. */
  lemma CompletedCanExpire(b: Battle, reader: nat)
    ensures var ms := [Load(reader, b.expiresAt + 1), Turn, Turn, Turn, Expire(reader)];
            Turns(ms) == DECIDED && ExpiresLate(b, ms)
  {
    var one := [Load(reader, b.expiresAt + 1)];
    assert one[..0] == [] && Turns(one) == 0 && Holds(b, one, reader);
    OneMoreTurn(b, one, reader);
    OneMoreTurn(b, one + [Turn], reader);
    OneMoreTurn(b, one + [Turn] + [Turn], reader);
    var four := one + [Turn] + [Turn] + [Turn];
    var ms := [Load(reader, b.expiresAt + 1), Turn, Turn, Turn, Expire(reader)];
    assert ms[..4] == four;
  }

  /** Such a battle stays expired for ever: both participants have answered, so no request can complete it. */
  lemma {:induction false} StuckForEver(db: Db, ops: seq<Op>, id: Uuid)
    requires IsRun(db, ops) && id in db.battles && db.battles[id].status.Expired?
    requires AnswerBy(AnswersOf(db.answers, id), db.battles[id].challenger).Some?
    requires AnswerBy(AnswersOf(db.answers, id), db.battles[id].opponent).Some?
    ensures id in QuizBattle.After(db, ops).battles && QuizBattle.After(db, ops).battles[id] == db.battles[id]
    decreases |ops|
  {
    if ops != [] {
      StuckStep(db, ops[0], id);
      StuckForEver(QuizBattle.Step(db, ops[0]), ops[1..], id);
    }
  }

  lemma StuckStep(db: Db, op: Op, id: Uuid)
    requires Possible(db, op) && id in db.battles && db.battles[id].status.Expired?
    requires AnswerBy(AnswersOf(db.answers, id), db.battles[id].challenger).Some?
    requires AnswerBy(AnswersOf(db.answers, id), db.battles[id].opponent).Some?
    ensures var after := QuizBattle.Step(db, op);
            && id in after.battles && after.battles[id] == db.battles[id]
            && AnswersOf(after.answers, id) == AnswersOf(db.answers, id)
  {
    if Answers(db, op) {
      SubmitElsewhere(db, op.tenant, op.user, op.id, op.given, op.now, id);
    } else {
      QuietStep(db, op);
    }
  }

  /******* The first answer *******/

  /** A battle nobody has answered; the first submit has loaded it in time. */
  function BeginFirst(b: Battle, side: QuizRace.Side): State {
    State(Locals(QuizRace.Race(b, [], [], QuizRace.Idle, QuizRace.Idle), side, QuizRace.Idle, QuizRace.Loaded(b)), {})
  }

  function AfterFirst(s: QuizRace.Setup, b: Battle, side: QuizRace.Side, ms: seq<Moment>): State {
    if ms == [] then BeginFirst(b, side) else Step(s, side, AfterFirst(s, b, side, ms[..|ms| - 1]), ms[|ms| - 1])
  }

  /** The reader has loaded the battle after its deadline, at a moment at which it was not expired, and has not
      committed yet. */
  predicate HoldsFirst(b: Battle, ms: seq<Moment>, reader: nat)
    decreases |ms|, 0
  {
    ms != [] &&
    var front, last := ms[..|ms| - 1], ms[|ms| - 1];
    if last.Load? && last.reader == reader then b.expiresAt < last.now && !Stands(b, front)
    else last != Expire(reader) && HoldsFirst(b, front, reader)
  }

  /** Some reader has committed what it held, and the first answer has not been committed since. */
  predicate Stands(b: Battle, ms: seq<Moment>)
    decreases |ms|, 1
  {
    ms != [] &&
    var front, last := ms[..|ms| - 1], ms[|ms| - 1];
    match last
    case Turn => Turns(front) > 0 && Stands(b, front)
    case Expire(reader) => Stands(b, front) || HoldsFirst(b, front, reader)
    case Load(_, _) => Stands(b, front)
  }

  /** Where the first submit is after a number of turns: it stores, reads only its own answer, and is done. */
  function FirstLocal(s: QuizRace.Setup, b: Battle, side: QuizRace.Side, turns: nat): QuizRace.Local {
    var copy := b.(status := Active);
    if turns == 0 then QuizRace.Loaded(b)
    else if turns == 1 then QuizRace.Stored(copy)
    else if turns == 2 then QuizRace.HasRead(copy, [QuizRace.Mine(s, side)])
    else QuizRace.Done(false)
  }

  function StatusFirst(b: Battle, ms: seq<Moment>): Status {
    if Stands(b, ms) then Expired else if Turns(ms) == 0 then Pending else Active
  }

  function ExpectedFirst(s: QuizRace.Setup, b: Battle, side: QuizRace.Side, turns: nat, status: Status): QuizRace.Race {
    Locals(QuizRace.Race(b.(status := status), if turns == 0 then [] else [QuizRace.Mine(s, side)], [],
                         QuizRace.Idle, QuizRace.Idle),
           side, QuizRace.Idle, FirstLocal(s, b, side, turns))
  }

  lemma FirstTurn(s: QuizRace.Setup, b: Battle, side: QuizRace.Side, turns: nat, status: Status)
    requires b.status.Pending?
    ensures QuizRace.Step(s, ExpectedFirst(s, b, side, turns, status), side) ==
            ExpectedFirst(s, b, side, turns + 1, if turns == 0 then Active else status)
  {
    assert [] + [QuizRace.Mine(s, side)] == [QuizRace.Mine(s, side)];
  }

  lemma {:induction false} FirstKeepsInv(s: QuizRace.Setup, b: Battle, side: QuizRace.Side, ms: seq<Moment>)
    requires b.status.Pending?
    ensures AfterFirst(s, b, side, ms).race == ExpectedFirst(s, b, side, Turns(ms), StatusFirst(b, ms))
    ensures forall reader: nat :: reader in AfterFirst(s, b, side, ms).holding <==> HoldsFirst(b, ms, reader)
  {
    if ms == [] {
      assert b.(status := Pending) == b;
    } else {
      var front := ms[..|ms| - 1];
      FirstKeepsInv(s, b, side, front);
      if ms[|ms| - 1].Turn? { FirstTurn(s, b, side, Turns(front), StatusFirst(b, front)); }
    }
  }

  /** Under every interleaving the first answer is kept and the battle is active, or expired exactly if a reader that
      held an overdue copy has committed after the answer. */
  lemma FirstEndsExpiredIff(s: QuizRace.Setup, b: Battle, side: QuizRace.Side, ms: seq<Moment>)
    requires b.status.Pending? && Turns(ms) > 0
    ensures var r := AfterFirst(s, b, side, ms).race;
            && r.answers == [QuizRace.Mine(s, side)] && r.sent == []
            && r.battle == b.(status := if Stands(b, ms) then Expired else Active)
  {
    FirstKeepsInv(s, b, side, ms);
  }

  /** An expired battle becomes active again exactly when the first answer is committed over a committed expiry; whole
      handlers never do that. */
  lemma RevivedIff(s: QuizRace.Setup, b: Battle, side: QuizRace.Side, ms: seq<Moment>, m: Moment)
    requires b.status.Pending?
    ensures AfterFirst(s, b, side, ms).race.battle.status.Expired?
            && !AfterFirst(s, b, side, ms + [m]).race.battle.status.Expired?
            <==> m.Turn? && Turns(ms) == 0 && Stands(b, ms)
  {
    assert (ms + [m])[..|ms|] == ms;
    FirstKeepsInv(s, b, side, ms);
    FirstKeepsInv(s, b, side, ms + [m]);
  }

  /** That does happen, whatever the battle. */
  lemma ExpiredCanRevive(s: QuizRace.Setup, b: Battle, side: QuizRace.Side, reader: nat)
    requires b.status.Pending?
    ensures var ms := [Load(reader, b.expiresAt + 1)] + [Expire(reader)];
            && AfterFirst(s, b, side, ms).race.battle.status.Expired?
            && AfterFirst(s, b, side, ms + [Turn]).race.battle.status.Active?
  {
    var one := [Load(reader, b.expiresAt + 1)];
    var two := one + [Expire(reader)];
    assert one[..0] == [] && two[..1] == one && (two + [Turn])[..2] == two;
    assert Turns(one) == 0 && Turns(two) == 0 && HoldsFirst(b, one, reader) && Stands(b, two);
    FirstKeepsInv(s, b, side, two);
    FirstKeepsInv(s, b, side, two + [Turn]);
  }
}
