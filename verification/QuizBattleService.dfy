/** The quiz battle handlers over their tables. */
module QuizBattleService {
  import opened Ordering
  import opened Wrappers
  import opened QuizBattle
  import TaskQueue

  function NewestFirst(battles: map<Uuid, Battle>): Uuid -> int {
    (id: Uuid) => if id in battles then -battles[id].createdAt else 0
  }

  function IdsOf(listed: seq<(Uuid, Battle)>): seq<Uuid> {
    seq(|listed|, i requires 0 <= i < |listed| => listed[i].0)
  }

  lemma SortedIsNewestFirst(before: map<Uuid, Battle>, found: set<Uuid>, listed: seq<(Uuid, Battle)>)
    requires IsSorted(found, NewestFirst(before), IdsOf(listed)) && found <= before.Keys
    requires forall row <- listed :: row.0 in before && row.1.createdAt == before[row.0].createdAt
    ensures forall i, j :: 0 <= i < j < |listed| ==>
              listed[i].0 != listed[j].0 && listed[i].1.createdAt >= listed[j].1.createdAt
  {
    forall i, j | 0 <= i < j < |listed|
      ensures listed[i].0 != listed[j].0 && listed[i].1.createdAt >= listed[j].1.createdAt
    {
      assert listed[i] in listed && listed[j] in listed;
      assert IdsOf(listed)[i] == listed[i].0 && IdsOf(listed)[j] == listed[j].0;
    }
  }

  class BattleService {
    var users: map<Uuid, User>
    var battles: map<Uuid, Battle>
    var answers: seq<Answer>
    var sent: seq<TaskQueue.Task>

    constructor (users: map<Uuid, User>)
      ensures State() == Db(users, map[], [], []) && Valid(State())
    {
      this.users := users;
      battles, answers, sent := map[], [], [];
    }

    ghost function State(): Db
      reads this
    {
      Db(users, battles, answers, sent)
    }

    /** Marks the battle as expired if it is past due. */
    method MaybeExpireBattle(id: Uuid, now: int) returns (expired: bool)
      requires id in battles
      modifies this`battles
      ensures expired == Overdue(old(battles)[id], now)
      ensures battles == old(battles)[id := ExpireIfDue(old(battles)[id], now)]
    {
      var battle := battles[id];
      if (battle.status.Pending? || battle.status.Active?) && battle.expiresAt < now {
        battles := battles[id := battle.(status := Expired)];
        return true;
      }
      assert battles == battles[id := battle];
      return false;
    }

    method CreateBattle(id: Uuid, tenant: Uuid, user: Uuid, opponent: Uuid, course: Option<Uuid>, now: int)
      returns (result: Result<Uuid, BattleError>)
      requires id !in battles
      modifies this`battles
      ensures (result, State()) == Create(old(State()), id, tenant, user, opponent, course, now)
    {
      if opponent !in users || users[opponent].tenant != tenant {
        return Failure(OpponentNotFound);
      }
      if opponent == user {
        return Failure(CannotChallengeSelf);
      }
      var expiresAt := now + LIFETIME;
      battles := battles[id := Battle(tenant, user, opponent, course, DEFAULT_QUESTIONS, Pending,
                                    None, expiresAt, now)];
      return Success(id);
    }

    /** The battles of a participant, the newest first, with those past due expired. */
    method ListBattles(tenant: Uuid, user: Uuid, now: int) returns (listed: seq<(Uuid, Battle)>)
      modifies this`battles
      ensures State() == List(old(State()), tenant, user, now).1
      ensures forall row <- listed :: row.0 in battles && row.1 == battles[row.0]
      ensures forall i, j :: 0 <= i < j < |listed| ==>
                listed[i].0 != listed[j].0 && listed[i].1.createdAt >= listed[j].1.createdAt
      ensures forall id :: id in IdsOf(listed) <==>
                && id in old(battles) && old(battles)[id].tenant == tenant
                && (old(battles)[id].challenger == user || old(battles)[id].opponent == user)
      ensures forall row <- listed ::
                var b := old(battles)[row.0];
                row.1 == if (b.status == Pending || b.status == Active) && b.expiresAt < now
                         then b.(status := Expired) else b
    {
      ghost var before := battles;
      var found := set id | id in battles && Listed(battles[id], tenant, user);
      var rows := Sorted(found, NewestFirst(battles));
      assert forall i :: 0 <= i < |rows| ==> rows[i] in rows;
      ExpireListed(rows, now);
      assert battles == List(old(State()), tenant, user, now).1.battles;
      listed := RowsOf(rows);
      SortedIsNewestFirst(before, found, listed);
    }

    method RowsOf(rows: seq<Uuid>) returns (listed: seq<(Uuid, Battle)>)
      requires forall id <- rows :: id in battles
      ensures IdsOf(listed) == rows && forall row <- listed :: row.0 in rows && row.1 == battles[row.0]
    {
      var bs := battles;
      assert forall i :: 0 <= i < |rows| ==> rows[i] in rows;
      listed := seq(|rows|, i requires 0 <= i < |rows| && rows[i] in bs => (rows[i], bs[rows[i]]));
    }

    method ExpireListed(rows: seq<Uuid>, now: int)
      requires forall id <- rows :: id in battles
      modifies this`battles
      ensures battles == map id | id in old(battles) ::
                if id in rows then ExpireIfDue(old(battles)[id], now) else old(battles)[id]
    {
      for i := 0 to |rows|
        invariant battles == map id | id in old(battles) ::
                    if id in rows[..i] then ExpireIfDue(old(battles)[id], now) else old(battles)[id]
      {
        var id := rows[i];
        assert id in rows && rows[..i + 1] == rows[..i] + [id];
        var battle := battles[id];
        if (battle.status.Pending? || battle.status.Active?) && battle.expiresAt < now {
          battles := battles[id := battle.(status := Expired)];
        }
      }
      assert rows[..|rows|] == rows;
    }

    method GetBattle(tenant: Uuid, user: Uuid, id: Uuid, now: int) returns (result: Result<Detail, BattleError>)
      modifies this`battles
      ensures (result, State()) == Get(old(State()), tenant, user, id, now)
    {
      if id !in battles || battles[id].tenant != tenant {
        return Failure(BattleNotFound);
      }
      if battles[id].challenger != user && battles[id].opponent != user {
        return Failure(PermissionDenied);
      }
      var _ := MaybeExpireBattle(id, now);
      var battle := battles[id];
      var all := AnswersOf(answers, id);
      var challengerAnswer, opponentAnswer: Option<Answer> := None, None;
      for i := 0 to |all|
        invariant challengerAnswer == LastBy(all[..i], battle.challenger)
        invariant opponentAnswer ==
                  if battle.opponent == battle.challenger then None else LastBy(all[..i], battle.opponent)
      {
        assert all[..i + 1][..i] == all[..i];
        if all[i].user == battle.challenger {
          challengerAnswer := Some(all[i]);
        } else if all[i].user == battle.opponent {
          opponentAnswer := Some(all[i]);
        }
      }
      assert all[..|all|] == all;
      var questions := battle.questions;
      if !battle.status.Completed? {
        questions := StripCorrectAnswers(questions);
      }
      return Success(Detail(battle.status, battle.winner, questions, challengerAnswer, opponentAnswer));
    }

    method SubmitAnswer(tenant: Uuid, user: Uuid, id: Uuid, given: map<string, int>, now: int)
      returns (result: Result<Answer, BattleError>)
      modifies this`battles, this`answers, this`sent
      ensures (result, State()) == Submit(old(State()), tenant, user, id, given, now)
    {
      if id !in battles || battles[id].tenant != tenant {
        return Failure(BattleNotFound);
      }
      if battles[id].challenger != user && battles[id].opponent != user {
        return Failure(PermissionDenied);
      }
      var expired := MaybeExpireBattle(id, now);
      if expired {
        return Failure(BattleExpired);
      }
      assert battles == old(battles);
      if battles[id].status.Completed? {
        return Failure(BattleCompleted);
      }
      if AnswerBy(AnswersOf(answers, id), user).Some? {
        return Failure(AlreadyAnswered);
      }
      var answer := StoreAnswer(user, id, given);
      DecideBattle(tenant, id);
      assert battles == old(battles)[id := Accept(old(battles)[id], AnswersOf(old(answers), id), answer)];
      assert BothIn(Start(old(battles)[id]), AnswersOf(answers, id)) <==> battles[id].status.Completed?;
      assert old(sent) + [] == old(sent);
      return Success(answer);
    }

    /** Inserts the scored answer and starts a pending battle. */
    method StoreAnswer(user: Uuid, id: Uuid, given: map<string, int>) returns (answer: Answer)
      requires id in battles
      modifies this`battles, this`answers
      ensures answer == Answer(id, user, given, CorrectCount(old(battles)[id].questions, given))
      ensures answers == old(answers) + [answer]
      ensures AnswersOf(answers, id) == AnswersOf(old(answers), id) + [answer]
      ensures battles == old(battles)[id := Start(old(battles)[id])]
    {
      var battle := battles[id];
      var score := CalculateScore(battle.questions, given);
      answer := Answer(id, user, given, score);
      AnswersOfAppend(answers, answer, id);
      answers := answers + [answer];
      if battle.status.Pending? {
        battle := battle.(status := Active);
      }
      battles := battles[id := battle];
    }

    /** Reads all answers back and, when both are in, completes the battle and dispatches the prize. */
    method DecideBattle(tenant: Uuid, id: Uuid)
      requires id in battles
      modifies this`battles, this`sent
      ensures var b, all := old(battles)[id], AnswersOf(answers, id);
              var decided := Decide(b, all);
              && battles == old(battles)[id := decided]
              && sent == old(sent) + if BothIn(b, all) && decided.winner.Some?
                                     then [Prize(users, tenant, id, decided.winner.value)] else []
    {
      var battle := battles[id];
      var all := AnswersOf(answers, id);
      if |all| == 2 {
        var challengerAnswer := AnswerBy(all, battle.challenger);
        var opponentAnswer := AnswerBy(all, battle.opponent);
        if challengerAnswer.Some? && opponentAnswer.Some? {
          if challengerAnswer.value.score > opponentAnswer.value.score {
            battle := battle.(winner := Some(battle.challenger));
          } else if opponentAnswer.value.score > challengerAnswer.value.score {
            battle := battle.(winner := Some(battle.opponent));
          } else {
            battle := battle.(winner := None);
          }
          battle := battle.(status := Completed);
          battles := battles[id := battle];
          if battle.winner.Some? {
            sent := sent + [Prize(users, tenant, id, battle.winner.value)];
          }
        }
      }
      assert battles == old(battles)[id := battle];
    }

    /** Any request keeps the battle invariant. */
    method Handle(op: Op)
      requires Possible(Db(users, battles, answers, sent), op)
      modifies this`battles, this`answers, this`sent
      ensures State() == Step(old(State()), op)
      ensures old(Valid(State())) ==> Valid(State())
    {
      ghost var before := State();
      match op {
        case CreateOp(id, tenant, user, opponent, course, now) =>
          var _ := CreateBattle(id, tenant, user, opponent, course, now);
        case ListOp(tenant, user, now) =>
          var _ := ListBattles(tenant, user, now);
        case GetOp(tenant, user, id, now) =>
          var _ := GetBattle(tenant, user, id, now);
        case SubmitOp(tenant, user, id, given, now) =>
          var _ := SubmitAnswer(tenant, user, id, given, now);
      }
      if Valid(before) {
        StepKeepsValid(before, op);
      }
    }
  }
}
