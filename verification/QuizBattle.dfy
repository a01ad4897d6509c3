/** Quiz battles: one handler call is one step. */
module QuizBattle {
  import opened Wrappers
  import opened Text
  import Experience
  import TaskQueue

  datatype Question = Question(text: string, choices: seq<string>, correctIndex: Option<int>)

  datatype Status = Pending | Active | Expired | Completed

  datatype Battle = Battle(tenant: Uuid, challenger: Uuid, opponent: Uuid, course: Option<Uuid>,
                           questions: seq<Question>, status: Status,
                           winner: Option<Uuid>, expiresAt: int, createdAt: int)

  datatype Answer = Answer(battle: Uuid, user: Uuid, answers: map<string, int>, score: nat)

  datatype User = User(tenant: Uuid, company: Option<Uuid>)

  datatype BattleError =
    | OpponentNotFound | CannotChallengeSelf | BattleNotFound | PermissionDenied
    | BattleExpired | BattleCompleted | AlreadyAnswered

  /** `sent` holds the award tasks dispatched to the broker. */
  datatype Db = Db(users: map<Uuid, User>, battles: map<Uuid, Battle>, answers: seq<Answer>, sent: seq<TaskQueue.Task>)

  /** What a participant is shown. */
  datatype Detail = Detail(status: Status, winner: Option<Uuid>, questions: seq<Question>,
                           challengerAnswer: Option<Answer>, opponentAnswer: Option<Answer>)

  const LIFETIME: int := 24 * 3600 * 1_000_000

  const DEFAULT_QUESTIONS: seq<Question> := [
    Question("Qual é a capital da França?", ["Londres", "Berlim", "Paris", "Madri"], Some(2)),
    Question("Quanto é 7 x 8?", ["54", "56", "48", "64"], Some(1)),
    Question("Qual planeta é conhecido como planeta vermelho?", ["Vênus", "Marte", "Júpiter", "Saturno"], Some(1)),
    Question("Em que ano o Brasil foi descoberto?", ["1498", "1500", "1502", "1492"], Some(1)),
    Question("Qual é o maior oceano da Terra?", ["Atlântico", "Índico", "Ártico", "Pacífico"], Some(3))
  ]

  /******* Scores *******/

  predicate IsCorrect(questions: seq<Question>, given: map<string, int>, i: nat)
    requires i < |questions|
  {
    Decimal(i) in given && questions[i].correctIndex == Some(given[Decimal(i)])
  }

  /** Which questions were answered with their correct index. */
  function Marks(questions: seq<Question>, given: map<string, int>): seq<bool> {
    seq(|questions|, i requires 0 <= i < |questions| => IsCorrect(questions, given, i))
  }

  function CountTrue(marks: seq<bool>): nat {
    if marks == [] then 0 else CountTrue(marks[..|marks| - 1]) + if marks[|marks| - 1] then 1 else 0
  }

  function CorrectCount(questions: seq<Question>, given: map<string, int>): nat {
    CountTrue(Marks(questions, given))
  }

  lemma {:induction false} CountTrueIsCardinality(marks: seq<bool>)
    ensures CountTrue(marks) == |set i: nat | i < |marks| && marks[i]|
  {
    var hits := set i: nat | i < |marks| && marks[i];
    if marks == [] {
      assert hits == {};
    } else {
      var last := |marks| - 1;
      CountTrueIsCardinality(marks[..last]);
      assert hits == (set i: nat | i < last && marks[..last][i]) + if marks[last] then {last} else {};
    }
  }

  /** The questions whose given answer is the index marked as correct. */
  ghost function Right(questions: seq<Question>, given: map<string, int>): set<nat> {
    set i: nat | i < |questions| && Decimal(i) in given && questions[i].correctIndex == Some(given[Decimal(i)])
  }

  /** The score is the number of questions answered with their correct index. */
  lemma ScoreCountsCorrectAnswers(questions: seq<Question>, given: map<string, int>)
    ensures CorrectCount(questions, given) == |Right(questions, given)|
  {
    var marks := Marks(questions, given);
    CountTrueIsCardinality(marks);
    assert (set i: nat | i < |marks| && marks[i]) == Right(questions, given);
  }

  lemma CountNext(marks: seq<bool>, i: nat)
    requires i < |marks|
    ensures CountTrue(marks[..i + 1]) == CountTrue(marks[..i]) + if marks[i] then 1 else 0
  {
    assert marks[..i + 1][..i] == marks[..i];
  }

  method CalculateScore(questions: seq<Question>, given: map<string, int>) returns (score: nat)
    ensures score == CorrectCount(questions, given)
  {
    ghost var marks := Marks(questions, given);
    score := 0;
    for i := 0 to |questions|
      invariant score == CountTrue(marks[..i])
    {
      CountNext(marks, i);
      var key := Decimal(i);
      if key in given && questions[i].correctIndex == Some(given[key]) {
        score := score + 1;
      }
    }
    assert marks[..|questions|] == marks;
  }

  function StripCorrectAnswers(questions: seq<Question>): seq<Question> {
    seq(|questions|, i requires 0 <= i < |questions| => questions[i].(correctIndex := None))
  }

  /******* The handlers *******/

  predicate Participant(b: Battle, user: Uuid) {
    b.challenger == user || b.opponent == user
  }

  predicate Overdue(b: Battle, now: int) {
    (b.status.Pending? || b.status.Active?) && b.expiresAt < now
  }

  function ExpireIfDue(b: Battle, now: int): Battle {
    if Overdue(b, now) then b.(status := Expired) else b
  }

  function AnswersOf(answers: seq<Answer>, battle: Uuid): seq<Answer> {
    if answers == [] then []
    else
      var last := answers[|answers| - 1];
      AnswersOf(answers[..|answers| - 1], battle) + if last.battle == battle then [last] else []
  }

  function AnswerBy(answers: seq<Answer>, user: Uuid): Option<Answer> {
    if answers == [] then None
    else if answers[0].user == user then Some(answers[0])
    else AnswerBy(answers[1..], user)
  }

  /** The last matching answer, which is what scanning the rows and overwriting leaves. */
  function LastBy(answers: seq<Answer>, user: Uuid): Option<Answer> {
    if answers == [] then None
    else if answers[|answers| - 1].user == user then Some(answers[|answers| - 1])
    else LastBy(answers[..|answers| - 1], user)
  }

  /** The score rule alone: a strictly higher score wins, a tie has no winner. */
  function WinnerByScore(challenger: Uuid, opponent: Uuid, challengerScore: nat, opponentScore: nat): Option<Uuid> {
    if challengerScore > opponentScore then Some(challenger)
    else if opponentScore > challengerScore then Some(opponent)
    else None
  }

  predicate BothIn(b: Battle, all: seq<Answer>) {
    |all| == 2 && AnswerBy(all, b.challenger).Some? && AnswerBy(all, b.opponent).Some?
  }

  /** Completes the battle once both answers are in. */
  function Decide(b: Battle, all: seq<Answer>): Battle {
    var c, o := AnswerBy(all, b.challenger), AnswerBy(all, b.opponent);
    if BothIn(b, all) then
      b.(status := Completed, winner := WinnerByScore(b.challenger, b.opponent, c.value.score, o.value.score))
    else b
  }

  /** The first answer starts a pending battle. */
  function Start(b: Battle): Battle {
    if b.status.Pending? then b.(status := Active) else b
  }

  /** The battle after one more answer has been stored. */
  function Accept(b: Battle, all: seq<Answer>, a: Answer): Battle {
    Decide(Start(b), all + [a])
  }

  function CompanyOf(users: map<Uuid, User>, tenant: Uuid, user: Uuid): Option<Uuid> {
    if user in users && users[user].tenant == tenant then users[user].company else None
  }

  function Prize(users: map<Uuid, User>, tenant: Uuid, battle: Uuid, winner: Uuid): TaskQueue.Task {
    TaskQueue.AwardTask(Experience.AwardRequest(winner, tenant, CompanyOf(users, tenant, winner),
                                                "quiz_battle_won", Some(battle), Some("quiz_battle")))
  }

  function Create(db: Db, id: Uuid, tenant: Uuid, user: Uuid, opponent: Uuid, course: Option<Uuid>, now: int)
    : (Result<Uuid, BattleError>, Db)
  {
    if opponent !in db.users || db.users[opponent].tenant != tenant then (Failure(OpponentNotFound), db)
    else if opponent == user then (Failure(CannotChallengeSelf), db)
    else
      var b := Battle(tenant, user, opponent, course, DEFAULT_QUESTIONS, Pending, None, now + LIFETIME, now);
      (Success(id), db.(battles := db.battles[id := b]))
  }

  predicate Listed(b: Battle, tenant: Uuid, user: Uuid) {
    b.tenant == tenant && Participant(b, user)
  }

  /** Listing expires every overdue battle it shows. */
  function List(db: Db, tenant: Uuid, user: Uuid, now: int): (set<Uuid>, Db) {
    ((set id | id in db.battles && Listed(db.battles[id], tenant, user)),
     db.(battles := map id | id in db.battles ::
           if Listed(db.battles[id], tenant, user) then ExpireIfDue(db.battles[id], now) else db.battles[id]))
  }

  function Get(db: Db, tenant: Uuid, user: Uuid, id: Uuid, now: int): (Result<Detail, BattleError>, Db) {
    if id !in db.battles || db.battles[id].tenant != tenant then (Failure(BattleNotFound), db)
    else if !Participant(db.battles[id], user) then (Failure(PermissionDenied), db)
    else
      var b := ExpireIfDue(db.battles[id], now);
      var all := AnswersOf(db.answers, id);
      (Success(Detail(b.status, b.winner,
                      if b.status.Completed? then b.questions else StripCorrectAnswers(b.questions),
                      LastBy(all, b.challenger),
                      if b.opponent == b.challenger then None else LastBy(all, b.opponent))),
       db.(battles := db.battles[id := b]))
  }

  /** The tables once an answer is in. */
  function Stored(db: Db, tenant: Uuid, id: Uuid, answer: Answer): Db
    requires id in db.battles
  {
    var decided := Accept(db.battles[id], AnswersOf(db.answers, id), answer);
    var sent := if decided.status.Completed? && decided.winner.Some?
                then db.sent + [Prize(db.users, tenant, id, decided.winner.value)] else db.sent;
    Db(db.users, db.battles[id := decided], db.answers + [answer], sent)
  }

  function Submit(db: Db, tenant: Uuid, user: Uuid, id: Uuid, given: map<string, int>, now: int)
    : (Result<Answer, BattleError>, Db)
  {
    if id !in db.battles || db.battles[id].tenant != tenant then (Failure(BattleNotFound), db)
    else
      var b := db.battles[id];
      if !Participant(b, user) then (Failure(PermissionDenied), db)
      else if Overdue(b, now) then (Failure(BattleExpired), db.(battles := db.battles[id := b.(status := Expired)]))
      else if b.status.Completed? then (Failure(BattleCompleted), db)
      else if AnswerBy(AnswersOf(db.answers, id), user).Some? then (Failure(AlreadyAnswered), db)
      else
        var answer := Answer(id, user, given, CorrectCount(b.questions, given));
        (Success(answer), Stored(db, tenant, id, answer))
  }

  /******* The invariant *******/

  function PrizesOf(sent: seq<TaskQueue.Task>, battle: Uuid): seq<TaskQueue.Task> {
    if sent == [] then []
    else
      var last := sent[|sent| - 1];
      PrizesOf(sent[..|sent| - 1], battle)
      + if last.AwardTask? && last.request.reference == Some(battle) then [last] else []
  }

  /** At most one answer per participant and none from anybody else. */
  ghost predicate AnsweredFairly(b: Battle, all: seq<Answer>) {
    && (forall a :: a in all ==> Participant(b, a.user) && a.score == CorrectCount(b.questions, a.answers))
    && (forall i, j :: 0 <= i < j < |all| ==> all[i].user != all[j].user)
  }

  ghost predicate StatusCounts(b: Battle, all: seq<Answer>) {
    match b.status
    case Pending => |all| == 0
    case Active => |all| == 1
    case Expired => |all| <= 1
    case Completed => |all| == 2
  }

  /** Winner and prizes: decided by the scores of the two answers, and paid once. */
  ghost predicate Settled(users: map<Uuid, User>, id: Uuid, b: Battle, all: seq<Answer>, prizes: seq<TaskQueue.Task>) {
    && (b.status.Completed? ==>
          var c, o := AnswerBy(all, b.challenger), AnswerBy(all, b.opponent);
          c.Some? && o.Some? && b.winner == WinnerByScore(b.challenger, b.opponent, c.value.score, o.value.score))
    && (!b.status.Completed? ==> b.winner == None)
    && prizes == (if b.winner.Some? then [Prize(users, b.tenant, id, b.winner.value)] else [])
  }

  ghost predicate BattleOk(db: Db, id: Uuid)
    requires id in db.battles
  {
    var b, all := db.battles[id], AnswersOf(db.answers, id);
    && b.challenger != b.opponent
    && AnsweredFairly(b, all)
    && StatusCounts(b, all)
    && Settled(db.users, id, b, all, PrizesOf(db.sent, id))
  }

  ghost predicate Valid(db: Db) {
    && (forall id :: id in db.battles ==> BattleOk(db, id))
    && (forall id :: id !in db.battles ==> AnswersOf(db.answers, id) == [] && PrizesOf(db.sent, id) == [])
  }

  lemma AnswersOfAppend(answers: seq<Answer>, a: Answer, id: Uuid)
    ensures AnswersOf(answers + [a], id) == AnswersOf(answers, id) + if a.battle == id then [a] else []
  {
    assert (answers + [a])[..|answers|] == answers;
  }

  lemma PrizesOfAppend(sent: seq<TaskQueue.Task>, t: TaskQueue.Task, id: Uuid)
    ensures PrizesOf(sent + [t], id) ==
            PrizesOf(sent, id) + if t.AwardTask? && t.request.reference == Some(id) then [t] else []
  {
    assert (sent + [t])[..|sent|] == sent;
  }

  lemma {:induction false} AnswerByFinds(all: seq<Answer>, user: Uuid)
    ensures AnswerBy(all, user).Some? <==> exists i :: 0 <= i < |all| && all[i].user == user
    ensures AnswerBy(all, user).Some? ==> AnswerBy(all, user).value in all && AnswerBy(all, user).value.user == user
  {
    if all != [] && all[0].user != user {
      AnswerByFinds(all[1..], user);
      assert forall i :: 0 < i < |all| ==> all[i] == all[1..][i - 1];
    }
  }

  datatype Op =
    | CreateOp(id: Uuid, tenant: Uuid, user: Uuid, opponent: Uuid, course: Option<Uuid>, now: int)
    | ListOp(tenant: Uuid, user: Uuid, now: int)
    | GetOp(tenant: Uuid, user: Uuid, id: Uuid, now: int)
    | SubmitOp(tenant: Uuid, user: Uuid, id: Uuid, given: map<string, int>, now: int)

  /** A generated id is new. */
  predicate Possible(db: Db, op: Op) {
    op.CreateOp? ==> op.id !in db.battles
  }

  function Step(db: Db, op: Op): Db {
    match op
    case CreateOp(id, tenant, user, opponent, course, now) => Create(db, id, tenant, user, opponent, course, now).1
    case ListOp(tenant, user, now) => List(db, tenant, user, now).1
    case GetOp(tenant, user, id, now) => Get(db, tenant, user, id, now).1
    case SubmitOp(tenant, user, id, given, now) => Submit(db, tenant, user, id, given, now).1
  }

  predicate IsRun(db: Db, ops: seq<Op>)
    decreases |ops|
  {
    ops != [] ==> Possible(db, ops[0]) && IsRun(Step(db, ops[0]), ops[1..])
  }

  function After(db: Db, ops: seq<Op>): Db
    decreases |ops|
  {
    if ops == [] then db else After(Step(db, ops[0]), ops[1..])
  }

  lemma AnswerByPair(x: Answer, a: Answer)
    requires x.user != a.user
    ensures AnswerBy([x], x.user) == Some(x) && AnswerBy([x], a.user) == None
    ensures AnswerBy([x, a], x.user) == Some(x) && AnswerBy([x, a], a.user) == Some(a)
  {
    assert [x, a][1..] == [a] && [x][1..] == [];
    assert AnswerBy([a], a.user) == Some(a);
  }

  lemma AcceptSecond(b: Battle, x: Answer, a: Answer)
    requires b.challenger != b.opponent && x.user != a.user
    requires Participant(b, x.user) && Participant(b, a.user)
    ensures var next, all := Accept(b, [x], a), [x, a];
            && AnswerBy(all, b.challenger).Some? && AnswerBy(all, b.opponent).Some?
            && next == b.(status := Completed,
                          winner := WinnerByScore(b.challenger, b.opponent, AnswerBy(all, b.challenger).value.score,
                                                  AnswerBy(all, b.opponent).value.score))
  {
    AnswerByPair(x, a);
    assert [x] + [a] == [x, a];
  }

  lemma FairAppend(b: Battle, next: Battle, all: seq<Answer>, a: Answer)
    requires AnsweredFairly(b, all) && |all| <= 1
    requires next == b.(status := next.status, winner := next.winner)
    requires Participant(b, a.user) && a.score == CorrectCount(b.questions, a.answers)
    requires forall x :: x in all ==> x.user != a.user
    ensures AnsweredFairly(next, all + [a])
  {
    assert forall x :: x in all + [a] <==> x in all || x == a;
    if |all| == 1 {
      assert all[0] in all;
    }
  }

  /** Accepting an answer, seen from the battle alone: the second one completes it. */
  lemma AcceptCompletes(b: Battle, all: seq<Answer>, a: Answer)
    requires b.challenger != b.opponent && !b.status.Completed? && b.winner == None
    requires AnsweredFairly(b, all) && StatusCounts(b, all)
    requires Participant(b, a.user) && AnswerBy(all, a.user) == None
    requires a.score == CorrectCount(b.questions, a.answers)
    ensures var next := Accept(b, all, a);
            && AnsweredFairly(next, all + [a]) && StatusCounts(next, all + [a])
            && next == b.(status := next.status, winner := next.winner)
            && (|all| == 0 ==> next == Start(b))
            && (|all| == 1 ==>
                  var c, o := AnswerBy(all + [a], b.challenger), AnswerBy(all + [a], b.opponent);
                  c.Some? && o.Some? && next.status.Completed?
                  && next.winner == WinnerByScore(b.challenger, b.opponent, c.value.score, o.value.score))
  {
    AnswerByFinds(all, a.user);
    if |all| == 0 {
      assert all + [a] == [a];
      assert Accept(b, all, a) == Start(b);
    } else {
      var x := all[0];
      assert x in all;
      assert all == [x] && all + [a] == [x, a];
      AcceptSecond(b, x, a);
    }
    FairAppend(b, Accept(b, all, a), all, a);
  }

  /** What a successful submit adds to its battle. */
  lemma SubmitEffect(db: Db, tenant: Uuid, user: Uuid, id: Uuid, given: map<string, int>, now: int)
    requires Submit(db, tenant, user, id, given, now).0.Success?
    ensures var (result, after) := Submit(db, tenant, user, id, given, now);
            var next := Accept(db.battles[id], AnswersOf(db.answers, id), result.value);
            && AnswersOf(after.answers, id) == AnswersOf(db.answers, id) + [result.value]
            && PrizesOf(after.sent, id) == PrizesOf(db.sent, id)
               + (if next.status.Completed? && next.winner.Some?
                  then [Prize(db.users, tenant, id, next.winner.value)] else [])
  {
    var (result, after) := Submit(db, tenant, user, id, given, now);
    AnswersOfAppend(db.answers, result.value, id);
    var next := after.battles[id];
    if next.winner.Some? {
      PrizesOfAppend(db.sent, Prize(db.users, tenant, id, next.winner.value), id);
    }
  }

  /** A submit stores its answer or at most changes the record of its own battle. */
  lemma SubmitShape(db: Db, tenant: Uuid, user: Uuid, id: Uuid, given: map<string, int>, now: int)
    ensures var (result, after) := Submit(db, tenant, user, id, given, now);
            if result.Success? then id in db.battles && result.value.battle == id
              && after == Stored(db, tenant, id, result.value)
            else after == db ||
                 (id in db.battles && after == db.(battles := db.battles[id := db.battles[id].(status := Expired)]))
  {}

  lemma StoredElsewhere(db: Db, tenant: Uuid, id: Uuid, answer: Answer, other: Uuid)
    requires id in db.battles && answer.battle == id && other != id
    ensures var after := Stored(db, tenant, id, answer);
            && AnswersOf(after.answers, other) == AnswersOf(db.answers, other)
            && PrizesOf(after.sent, other) == PrizesOf(db.sent, other)
            && (other in after.battles <==> other in db.battles)
            && (other in db.battles ==> after.battles[other] == db.battles[other])
  {
    var next := Accept(db.battles[id], AnswersOf(db.answers, id), answer);
    AnswersOfAppend(db.answers, answer, other);
    if next.winner.Some? {
      PrizesOfAppend(db.sent, Prize(db.users, tenant, id, next.winner.value), other);
    }
  }

  ghost predicate SameElsewhere(db: Db, after: Db, other: Uuid) {
    && AnswersOf(after.answers, other) == AnswersOf(db.answers, other)
    && PrizesOf(after.sent, other) == PrizesOf(db.sent, other)
    && (other in after.battles <==> other in db.battles)
    && (other in db.battles ==> after.battles[other] == db.battles[other])
  }

  /** A submit adds nothing to other battles. */
  lemma SubmitElsewhere(db: Db, tenant: Uuid, user: Uuid, id: Uuid, given: map<string, int>, now: int, other: Uuid)
    requires other != id
    ensures SameElsewhere(db, Submit(db, tenant, user, id, given, now).1, other)
  {
    SubmitShape(db, tenant, user, id, given, now);
    var result := Submit(db, tenant, user, id, given, now).0;
    if result.Success? {
      StoredElsewhere(db, tenant, id, result.value, other);
    }
  }

  lemma SubmitKeepsBattle(db: Db, tenant: Uuid, user: Uuid, id: Uuid, given: map<string, int>, now: int)
    requires id in db.battles && BattleOk(db, id)
    requires Submit(db, tenant, user, id, given, now).0.Success?
    ensures BattleOk(Submit(db, tenant, user, id, given, now).1, id)
  {
    SubmitEffect(db, tenant, user, id, given, now);
    AcceptCompletes(db.battles[id], AnswersOf(db.answers, id), Submit(db, tenant, user, id, given, now).0.value);
  }

  /** A battle whose record, answers and prizes a step leaves alone stays as good as it was. */
  lemma UntouchedStaysOk(db: Db, after: Db, id: Uuid)
    requires id in db.battles && BattleOk(db, id) && id in after.battles
    requires after.users == db.users && after.battles[id] == db.battles[id]
    requires AnswersOf(after.answers, id) == AnswersOf(db.answers, id)
    requires PrizesOf(after.sent, id) == PrizesOf(db.sent, id)
    ensures BattleOk(after, id)
  {}

  lemma SubmitKeepsEach(db: Db, tenant: Uuid, user: Uuid, id: Uuid, given: map<string, int>, now: int, other: Uuid)
    requires id in db.battles && BattleOk(db, id) && other in db.battles && BattleOk(db, other)
    requires Submit(db, tenant, user, id, given, now).0.Success?
    ensures var after := Submit(db, tenant, user, id, given, now).1; other in after.battles && BattleOk(after, other)
  {
    if other == id {
      SubmitKeepsBattle(db, tenant, user, id, given, now);
    } else {
      SubmitElsewhere(db, tenant, user, id, given, now, other);
      UntouchedStaysOk(db, Submit(db, tenant, user, id, given, now).1, other);
    }
  }

  lemma SubmitKeepsValid(db: Db, tenant: Uuid, user: Uuid, id: Uuid, given: map<string, int>, now: int)
    requires Valid(db)
    requires Submit(db, tenant, user, id, given, now).0.Success?
    ensures Valid(Submit(db, tenant, user, id, given, now).1)
  {
    var after := Submit(db, tenant, user, id, given, now).1;
    forall other | other in db.battles ensures other in after.battles && BattleOk(after, other) {
      SubmitKeepsEach(db, tenant, user, id, given, now, other);
    }
    forall other | other !in db.battles
      ensures other !in after.battles && AnswersOf(after.answers, other) == [] && PrizesOf(after.sent, other) == []
    {
      SubmitElsewhere(db, tenant, user, id, given, now, other);
    }
  }

  lemma ExpiringKeepsOk(db: Db, after: Db, id: Uuid)
    requires id in db.battles && BattleOk(db, id) && id in after.battles
    requires after.users == db.users && after.answers == db.answers && after.sent == db.sent
    requires MayExpire(db.battles[id], after.battles[id])
    ensures BattleOk(after, id)
  {}

  predicate Answers(db: Db, op: Op) {
    op.SubmitOp? && Submit(db, op.tenant, op.user, op.id, op.given, op.now).0.Success?
  }

  predicate MayExpire(before: Battle, after: Battle) {
    after == before || ((before.status.Pending? || before.status.Active?) && after == before.(status := Expired))
  }

  /** A step that stores no answer at most expires battles and opens a new one. */
  lemma QuietStep(db: Db, op: Op)
    requires Possible(db, op) && !Answers(db, op)
    ensures var after := Step(db, op);
            && after.users == db.users && after.answers == db.answers && after.sent == db.sent
            && (forall id :: id in db.battles ==> id in after.battles && MayExpire(db.battles[id], after.battles[id]))
            && (forall id :: id in after.battles && id !in db.battles ==>
                  var b := after.battles[id];
                  b.challenger != b.opponent && b.status.Pending? && b.winner == None)
  {
    match op
    case CreateOp(id, tenant, user, opponent, course, now) =>
    case ListOp(tenant, user, now) =>
    case GetOp(tenant, user, id, now) =>
    case SubmitOp(tenant, user, id, given, now) =>
  }

  lemma StepKeepsValid(db: Db, op: Op)
    requires Valid(db) && Possible(db, op)
    ensures Valid(Step(db, op))
  {
    if Answers(db, op) {
      SubmitKeepsValid(db, op.tenant, op.user, op.id, op.given, op.now);
    } else {
      var after := Step(db, op);
      QuietStep(db, op);
      forall id | id in after.battles ensures BattleOk(after, id) {
        if id in db.battles {
          ExpiringKeepsOk(db, after, id);
        }
      }
    }
  }

  /** Pending means no answer, active one, expired at most one, completed both; the winner is the strictly
      higher scorer; one prize per completed battle that is not tied, none otherwise.  In every run. */
  lemma {:induction false} BattlesStayValid(db: Db, ops: seq<Op>)
    requires Valid(db) && IsRun(db, ops)
    ensures Valid(After(db, ops))
    decreases |ops|
  {
    if ops != [] {
      StepKeepsValid(db, ops[0]);
      BattlesStayValid(Step(db, ops[0]), ops[1..]);
    }
  }

  /******* What a request says *******/

  lemma {:induction false} AnswersOfIs(answers: seq<Answer>, id: Uuid, a: Answer)
    ensures a in AnswersOf(answers, id) <==> a in answers && a.battle == id
  {
    if answers != [] {
      AnswersOfIs(answers[..|answers| - 1], id, a);
      assert answers == answers[..|answers| - 1] + [answers[|answers| - 1]];
    }
  }

  lemma AnsweredIff(answers: seq<Answer>, id: Uuid, user: Uuid)
    ensures AnswerBy(AnswersOf(answers, id), user).Some? <==> exists a <- answers :: a.battle == id && a.user == user
  {
    var all := AnswersOf(answers, id);
    AnswerByFinds(all, user);
    forall a ensures a in all <==> a in answers && a.battle == id { AnswersOfIs(answers, id, a); }
    if a :| a in answers && a.battle == id && a.user == user {
      var i :| 0 <= i < |all| && all[i] == a;
    }
    if i :| 0 <= i < |all| && all[i].user == user { assert all[i] in all; }
  }

  /** When each error of a submit occurs, and that it is accepted otherwise. */
  lemma SubmitErrors(db: Db, tenant: Uuid, user: Uuid, id: Uuid, given: map<string, int>, now: int)
    ensures var r := Submit(db, tenant, user, id, given, now).0;
            if id !in db.battles || db.battles[id].tenant != tenant then r == Failure(BattleNotFound)
            else
              var b := db.battles[id];
              if user != b.challenger && user != b.opponent then r == Failure(PermissionDenied)
              else if (b.status == Pending || b.status == Active) && b.expiresAt < now then r == Failure(BattleExpired)
              else if b.status == Completed then r == Failure(BattleCompleted)
              else if exists a <- db.answers :: a.battle == id && a.user == user then r == Failure(AlreadyAnswered)
              else r.Success? && r.value == Answer(id, user, given, CorrectCount(b.questions, given))
  {
    AnsweredIff(db.answers, id, user);
  }

  /** A new battle takes answers for 24 hours to the microsecond, of its two participants, and of nobody else. */
  lemma OpenForOneDay(db: Db, id: Uuid, tenant: Uuid, user: Uuid, opponent: Uuid, course: Option<Uuid>, now: int,
                      who: Uuid, given: map<string, int>, later: int)
    requires Valid(db) && id !in db.battles
    ensures Create(db, id, tenant, user, opponent, course, now).0.Success? <==>
            opponent in db.users && db.users[opponent].tenant == tenant && opponent != user
    ensures var (created, after) := Create(db, id, tenant, user, opponent, course, now);
            created.Success? ==>
              var r := Submit(after, tenant, who, id, given, later).0;
              && (r.Success? <==> (who == user || who == opponent) && later <= now + 86_400_000_000)
              && (r == Failure(BattleExpired) <==> (who == user || who == opponent) && later > now + 86_400_000_000)
  {
    assert AnswersOf(db.answers, id) == [];
    AnsweredIff(db.answers, id, who);
  }

  /** A new battle has five questions with four choices each; a submit scores 5 exactly with the indices of the five
      right ones. */
  lemma PerfectScore(db: Db, id: Uuid, tenant: Uuid, user: Uuid, opponent: Uuid, course: Option<Uuid>, now: int,
                     given: map<string, int>)
    requires Create(db, id, tenant, user, opponent, course, now).0.Success?
    ensures var questions := Create(db, id, tenant, user, opponent, course, now).1.battles[id].questions;
            && |questions| == 5
            && (forall q <- questions :: |q.choices| == 4 && q.correctIndex.Some? && 0 <= q.correctIndex.value < 4)
            && questions[0].choices[2] == "Paris" && questions[1].choices[1] == "56"
            && questions[2].choices[1] == "Marte" && questions[3].choices[1] == "1500"
            && questions[4].choices[3] == "Pacífico"
            && (CorrectCount(questions, given) == 5 <==>
                  && Decimal(0) in given && given[Decimal(0)] == 2 && Decimal(1) in given && given[Decimal(1)] == 1
                  && Decimal(2) in given && given[Decimal(2)] == 1 && Decimal(3) in given && given[Decimal(3)] == 1
                  && Decimal(4) in given && given[Decimal(4)] == 3)
  {
    var marks := Marks(DEFAULT_QUESTIONS, given);
    FullMarks(marks);
    assert CorrectCount(DEFAULT_QUESTIONS, given) == 5 <==> marks[0] && marks[1] && marks[2] && marks[3] && marks[4];
  }

  lemma {:induction false} FullMarks(marks: seq<bool>)
    ensures CountTrue(marks) <= |marks|
    ensures CountTrue(marks) == |marks| <==> forall i :: 0 <= i < |marks| ==> marks[i]
  {
    if marks != [] { FullMarks(marks[..|marks| - 1]); }
  }

  lemma FairAnswerBy(b: Battle, all: seq<Answer>, a: Answer)
    requires AnsweredFairly(b, all) && a in all
    ensures AnswerBy(all, a.user) == Some(a) && a.score == CorrectCount(b.questions, a.answers)
  {
    AnswerByFinds(all, a.user);
  }

  lemma WinnerByScores(db: Db, id: Uuid, c: Answer, o: Answer)
    requires Valid(db) && id in db.battles && db.battles[id].status.Completed?
    requires c in db.answers && c.battle == id && c.user == db.battles[id].challenger
    requires o in db.answers && o.battle == id && o.user == db.battles[id].opponent
    ensures var b := db.battles[id];
            && c.score == CorrectCount(b.questions, c.answers) && o.score == CorrectCount(b.questions, o.answers)
            && b.winner == if c.score > o.score then Some(b.challenger)
                           else if o.score > c.score then Some(b.opponent) else None
  {
    var b, all := db.battles[id], AnswersOf(db.answers, id);
    assert BattleOk(db, id);
    AnswersOfIs(db.answers, id, c);
    AnswersOfIs(db.answers, id, o);
    FairAnswerBy(b, all, c);
    FairAnswerBy(b, all, o);
    assert Settled(db.users, id, b, all, PrizesOf(db.sent, id));
  }

  /** The winner has answered more questions correctly than the other one; without a winner both have answered as
      many. */
  lemma WinnerHasMoreCorrect(db: Db, id: Uuid, c: Answer, o: Answer)
    requires Valid(db) && id in db.battles && db.battles[id].status.Completed?
    requires c in db.answers && c.battle == id && c.user == db.battles[id].challenger
    requires o in db.answers && o.battle == id && o.user == db.battles[id].opponent
    ensures var b := db.battles[id];
            var mine, theirs := |Right(b.questions, c.answers)|, |Right(b.questions, o.answers)|;
            b.winner == if mine > theirs then Some(b.challenger)
                        else if theirs > mine then Some(b.opponent) else None
  {
    var b := db.battles[id];
    WinnerByScores(db, id, c, o);
    ScoreCountsCorrectAnswers(b.questions, c.answers);
    ScoreCountsCorrectAnswers(b.questions, o.answers);
  }

  /** A submit that completes its battle dispatches one award task for the winner, if there is one, and every other
      request dispatches nothing. */
  lemma CompletionDispatches(db: Db, op: Op)
    requires Possible(db, op)
    ensures var after := Step(db, op);
            var completes := op.SubmitOp? && op.id in db.battles && db.battles[op.id].status != Completed
                             && after.battles[op.id].status == Completed && after.battles[op.id].winner.Some?;
            after.sent == db.sent +
              if completes then
                var winner := after.battles[op.id].winner.value;
                [TaskQueue.AwardTask(Experience.AwardRequest(
                   winner, op.tenant,
                   if winner in db.users && db.users[winner].tenant == op.tenant then db.users[winner].company
                   else None,
                   "quiz_battle_won", Some(op.id), Some("quiz_battle")))]
              else []
  {
    if Answers(db, op) {
      SubmitShape(db, op.tenant, op.user, op.id, op.given, op.now);
    } else {
      QuietStep(db, op);
    }
  }

  /** Whoever looks at a battle finds it expired once it is past due; only its participants may look. */
  lemma LookingExpires(db: Db, tenant: Uuid, user: Uuid, id: Uuid, now: int)
    ensures var (r, after) := Get(db, tenant, user, id, now);
            if id !in db.battles || db.battles[id].tenant != tenant then r == Failure(BattleNotFound) && after == db
            else
              var b := db.battles[id];
              if user != b.challenger && user != b.opponent then r == Failure(PermissionDenied) && after == db
              else
                var due := (b.status == Pending || b.status == Active) && b.expiresAt < now;
                && r.Success? && r.value.status == (if due then Expired else b.status) && r.value.winner == b.winner
                && after == if due then db.(battles := db.battles[id := b.(status := Expired)]) else db
  {
    if id in db.battles { assert db.battles == db.battles[id := db.battles[id]]; }
  }

  /******* Where a status can go *******/

  predicate Allowed(before: Status, after: Status) {
    || before == after
    || (before.Pending? && (after.Active? || after.Expired?))
    || (before.Active? && (after.Expired? || after.Completed?))
    || (before.Expired? && after.Completed?)
  }

  /** A stored answer moves only its own battle, and that one forward. */
  lemma SubmitMoves(db: Db, tenant: Uuid, user: Uuid, id: Uuid, given: map<string, int>, now: int)
    requires id in db.battles && BattleOk(db, id)
    requires Submit(db, tenant, user, id, given, now).0.Success?
    ensures var after := Submit(db, tenant, user, id, given, now).1;
            && after.battles == db.battles[id := after.battles[id]]
            && !db.battles[id].status.Completed?
            && Allowed(db.battles[id].status, after.battles[id].status)
  {
    AcceptCompletes(db.battles[id], AnswersOf(db.answers, id), Submit(db, tenant, user, id, given, now).0.value);
  }

  /** What a step keeps of a completed battle. */
  ghost predicate Frozen(db: Db, after: Db, id: Uuid)
    requires id in db.battles
  {
    && id in after.battles && after.battles[id] == db.battles[id]
    && AnswersOf(after.answers, id) == AnswersOf(db.answers, id)
    && PrizesOf(after.sent, id) == PrizesOf(db.sent, id)
  }

  lemma StatusMoves(db: Db, op: Op, id: Uuid)
    requires Valid(db) && Possible(db, op) && id in db.battles
    ensures id in Step(db, op).battles
    ensures Allowed(db.battles[id].status, Step(db, op).battles[id].status)
    ensures db.battles[id].status.Completed? ==> Frozen(db, Step(db, op), id)
  {
    if Answers(db, op) {
      assert BattleOk(db, op.id);
      if op.id == id {
        SubmitMoves(db, op.tenant, op.user, op.id, op.given, op.now);
      } else {
        SubmitElsewhere(db, op.tenant, op.user, op.id, op.given, op.now, id);
      }
    } else {
      QuietStep(db, op);
    }
  }

  /** A completed battle is final: record, answers and prizes never change again. */
  lemma {:induction false} CompletedIsFinal(db: Db, ops: seq<Op>, id: Uuid)
    requires Valid(db) && IsRun(db, ops) && id in db.battles && db.battles[id].status.Completed?
    ensures Frozen(db, After(db, ops), id)
    decreases |ops|
  {
    if ops != [] {
      StepKeepsValid(db, ops[0]);
      StatusMoves(db, ops[0], id);
      CompletedIsFinal(Step(db, ops[0]), ops[1..], id);
    }
  }

  lemma ExpiredSubmit(db: Db, tenant: Uuid, user: Uuid, id: Uuid, given: map<string, int>, now: int)
    requires id in db.battles && BattleOk(db, id) && db.battles[id].status.Expired?
    ensures var (result, after) := Submit(db, tenant, user, id, given, now);
            var b, all := db.battles[id], AnswersOf(db.answers, id);
            && (result.Success? <==> tenant == b.tenant && Participant(b, user) && AnswerBy(all, user) == None)
            && (result.Success? ==> (after.battles[id].status != Expired <==> |all| == 1))
  {
    var result := Submit(db, tenant, user, id, given, now).0;
    if result.Success? {
      AcceptCompletes(db.battles[id], AnswersOf(db.answers, id), result.value);
    }
  }

  lemma ExpiredOtherwiseStays(db: Db, op: Op, id: Uuid)
    requires Valid(db) && Possible(db, op) && id in db.battles && db.battles[id].status.Expired?
    requires !(Answers(db, op) && op.id == id)
    ensures id in Step(db, op).battles && Step(db, op).battles[id].status.Expired?
  {
    if Answers(db, op) {
      SubmitElsewhere(db, op.tenant, op.user, op.id, op.given, op.now, id);
    } else {
      QuietStep(db, op);
    }
  }

  /** Expired is not final: the battle is completed by exactly the submit of a participant who had not
      answered while the other one had. */
  lemma ExpiredLeftIff(db: Db, op: Op, id: Uuid)
    requires Valid(db) && Possible(db, op) && id in db.battles && db.battles[id].status.Expired?
    ensures var b, all := db.battles[id], AnswersOf(db.answers, id);
            && id in Step(db, op).battles
            && (Step(db, op).battles[id].status != Expired <==>
                && op.SubmitOp? && op.id == id && op.tenant == b.tenant && Participant(b, op.user)
                && AnswerBy(all, op.user) == None && |all| == 1)
  {
    assert BattleOk(db, id);
    if op.SubmitOp? && op.id == id { ExpiredSubmit(db, op.tenant, op.user, id, op.given, op.now); }
    if !(Answers(db, op) && op.id == id) { ExpiredOtherwiseStays(db, op, id); }
  }

  /** A battle between users 2 and 3 that expired after 2 had answered. */
  function HalfAnswered(): Db {
    Db(map[], map[7 := Battle(1, 2, 3, None, [], Expired, None, 0, 0)], [Answer(7, 2, map[], 0)], [])
  }

  lemma HalfAnsweredIsValid()
    ensures Valid(HalfAnswered()) && AnswersOf(HalfAnswered().answers, 7) == [Answer(7, 2, map[], 0)]
  {
    var db, a := HalfAnswered(), Answer(7, 2, map[], 0);
    assert [] + [a] == [a];
    forall id: Uuid ensures AnswersOf(db.answers, id) == if id == 7 then [a] else [] {
      AnswersOfAppend([], a, id);
    }
    assert Marks([], map[]) == [];
    assert AnsweredFairly(db.battles[7], [a]);
    assert BattleOk(db, 7);
  }

  /** An expired battle is completed by a submit that comes a whole lifetime too late. */
  lemma ExpiredBattleCompletes()
    ensures var db, late := HalfAnswered(), SubmitOp(1, 3, 7, map[], LIFETIME);
            && Valid(db) && db.battles[7].status.Expired?
            && 7 in Step(db, late).battles && Step(db, late).battles[7].status.Completed?
  {
    var db, late := HalfAnswered(), SubmitOp(1, 3, 7, map[], LIFETIME);
    HalfAnsweredIsValid();
    AnswerByPair(Answer(7, 2, map[], 0), Answer(7, 3, map[], 0));
    ExpiredLeftIff(db, late, 7);
    StatusMoves(db, late, 7);
  }

  lemma {:induction false} LastByFinds(all: seq<Answer>, user: Uuid)
    ensures LastBy(all, user).Some? <==> exists i :: 0 <= i < |all| && all[i].user == user
    ensures LastBy(all, user).Some? ==> LastBy(all, user).value in all && LastBy(all, user).value.user == user
  {
    if all != [] && all[|all| - 1].user != user {
      LastByFinds(all[..|all| - 1], user);
    }
  }

  /** In every reachable state each participant is shown the one answer there is. */
  lemma ShownAnswersAreTheOnes(db: Db, tenant: Uuid, user: Uuid, id: Uuid, now: int)
    requires Valid(db) && Get(db, tenant, user, id, now).0.Success?
    ensures var shown, b, all := Get(db, tenant, user, id, now).0.value, db.battles[id], AnswersOf(db.answers, id);
            && shown.challengerAnswer == AnswerBy(all, b.challenger)
            && shown.opponentAnswer == AnswerBy(all, b.opponent)
            && (shown.status.Completed? ==> shown.challengerAnswer.Some? && shown.opponentAnswer.Some?)
  {
    assert BattleOk(db, id);
    var b, all := db.battles[id], AnswersOf(db.answers, id);
    AnswerByFinds(all, b.challenger);
    AnswerByFinds(all, b.opponent);
    LastByFinds(all, b.challenger);
    LastByFinds(all, b.opponent);
  }

  /** Correct indices are shown for completed battles and no others. */
  lemma SolutionsHiddenUntilCompleted(db: Db, tenant: Uuid, user: Uuid, id: Uuid, now: int)
    requires Get(db, tenant, user, id, now).0.Success?
    ensures var (result, after) := Get(db, tenant, user, id, now);
            && (!after.battles[id].status.Completed? ==>
                  forall q :: q in result.value.questions ==> q.correctIndex == None)
            && (after.battles[id].status.Completed? ==> result.value.questions == db.battles[id].questions)
            && |result.value.questions| == |db.battles[id].questions|
            && forall i :: 0 <= i < |result.value.questions| ==>
                 result.value.questions[i].text == db.battles[id].questions[i].text
                 && result.value.questions[i].choices == db.battles[id].questions[i].choices
  {}

  /** The prize of a battle names an action the ledger does not know: running it changes no experience. */
  lemma PrizePaysNothing(users: map<Uuid, User>, tenant: Uuid, battle: Uuid, winner: Uuid,
                         w: TaskQueue.World, c: TaskQueue.Choice)
    requires c.Run? && c.index < |w.queue| && w.queue[c.index] == Prize(users, tenant, battle, winner)
    ensures TaskQueue.Step(w, c).ledger == w.ledger && TaskQueue.Step(w, c).held == w.held
    ensures TaskQueue.Step(w, c).queue == TaskQueue.Without(w.queue, c.index)
  {}
}
