/** Daily activity streaks with shields.  Days are day numbers. */
module Streaks {
  import opened Wrappers

  datatype Streak = Streak(current: int, longest: int, shields: int, last: Option<int>)

  datatype StreakResult = StreakResult(current: int, longest: int, shieldUsed: bool, reset: bool)

  function GapDays(row: Streak, today: int): int {
    if row.last.Some? then today - row.last.value else 2
  }

  /** Activity of a user on `today`. */
  function Visit(row: Streak, today: int): (Streak, StreakResult) {
    if row.last == Some(today) then
      (row, StreakResult(row.current, row.longest, false, false))
    else
      var gap := GapDays(row, today);
      var shieldUsed := gap == 2 && row.shields > 0;
      var reset := gap != 1 && !shieldUsed;
      var current := if reset then 1 else row.current + 1;
      var longest := if current > row.longest then current else row.longest;
      (Streak(current, longest, if shieldUsed then row.shields - 1 else row.shields, Some(today)),
       StreakResult(current, longest, shieldUsed, reset))
  }

  /******* As written *******/

  /** What a row's `last_activity_date` holds: a date while it is the object the service has made, a datetime once it
      has been read from its timestamp column or been written as one. */
  datatype Stored = AsDate(day: int) | AsDatetime(day: int)

  datatype Row = Row(current: int, longest: int, shields: int, last: Option<Stored>)

  /** Subtracting a datetime from a date raises. */
  datatype StreakError = TypeMismatch

  function StreakOf(row: Row): Streak {
    Streak(row.current, row.longest, row.shields, if row.last.Some? then Some(row.last.value.day) else None)
  }

  /** The row as another session reads it. */
  function Reloaded(row: Row): Row {
    if row.last.Some? then row.(last := Some(AsDatetime(row.last.value.day))) else row
  }

  /** The row a visit leaves: untouched on the same day, with a datetime otherwise. */
  function Written(row: Row, today: int): Row {
    var next := Visit(StreakOf(row), today).0;
    Row(next.current, next.longest, next.shields,
        if row.last == Some(AsDate(today)) then row.last else Some(AsDatetime(today)))
  }

  function VisitAsWritten(row: Row, today: int): Result<(Row, StreakResult), StreakError> {
    if row.last.Some? && row.last.value.AsDatetime? then Failure(TypeMismatch)
    else Success((Written(row, today), Visit(StreakOf(row), today).1))
  }

  class StreakTable {
    var rows: map<Uuid, Row>

    method UpdateStreak(user: Uuid, today: int) returns (result: Result<StreakResult, StreakError>)
      modifies this
      ensures user !in old(rows) ==>
                rows == old(rows)[user := Row(1, 1, 0, Some(AsDate(today)))]
                && result == Success(StreakResult(1, 1, false, false))
      ensures user in old(rows) ==>
                match VisitAsWritten(old(rows)[user], today)
                case Success(pair) => rows == old(rows)[user := pair.0] && result == Success(pair.1)
                case Failure(error) => rows == old(rows) && result == Failure(error)
    {
      if user !in rows {
        rows := rows[user := Row(1, 1, 0, Some(AsDate(today)))];
        return Success(StreakResult(1, 1, false, false));
      }
      var streak := rows[user];
      var last := streak.last;
      if last == Some(AsDate(today)) {
        assert rows == rows[user := streak];
        return Success(StreakResult(streak.current, streak.longest, false, false));
      }
      var gapDays := 2;
      if last.Some? {
        if last.value.AsDatetime? { return Failure(TypeMismatch); }
        gapDays := today - last.value.day;
      }
      var shieldUsed, reset := false, false;
      if gapDays == 1 {
        streak := streak.(current := streak.current + 1);
      } else if gapDays == 2 && streak.shields > 0 {
        streak := streak.(shields := streak.shields - 1, current := streak.current + 1);
        shieldUsed := true;
      } else {
        streak := streak.(current := 1);
        reset := true;
      }
      if streak.current > streak.longest {
        streak := streak.(longest := streak.current);
      }
      streak := streak.(last := Some(AsDatetime(today)));
      rows := rows[user := streak];
      result := Success(StreakResult(streak.current, streak.longest, shieldUsed, reset));
    }
  }

  /** The service does what it is documented to do exactly for rows that do not hold a datetime. */
  lemma MeetsDocsIff(row: Row, today: int)
    ensures (exists after: Row :: VisitAsWritten(row, today) == Success((after, Visit(StreakOf(row), today).1))
                                  && StreakOf(after) == Visit(StreakOf(row), today).0) <==>
            !(row.last.Some? && row.last.value.AsDatetime?)
  {
    if !(row.last.Some? && row.last.value.AsDatetime?) {
      var after := Written(row, today);
      assert StreakOf(after) == Visit(StreakOf(row), today).0;
      assert VisitAsWritten(row, today) == Success((after, Visit(StreakOf(row), today).1));
    }
  }

  /** So it fails for every user it has served in another session, on the same day and on any later one. */
  lemma SecondSessionFails(first: int, today: int)
    ensures VisitAsWritten(Reloaded(Row(1, 1, 0, Some(AsDate(first)))), today) == Failure(TypeMismatch)
    ensures forall row: Row :: VisitAsWritten(row, first).Success? ==>
              VisitAsWritten(Reloaded(VisitAsWritten(row, first).value.0), today) == Failure(TypeMismatch)
  {}

  /******* Histories of activity days *******/

  function After(row: Streak, days: seq<int>): Streak {
    if days == [] then row else Visit(After(row, days[..|days| - 1]), days[|days| - 1]).0
  }

  /** What the last of the visits returned. */
  function LastResult(row: Streak, days: seq<int>): StreakResult
    requires days != []
  {
    Visit(After(row, days[..|days| - 1]), days[|days| - 1]).1
  }

  /** The day the current run began: the last reset, or where the initial run began. */
  function RunStart(row: Streak, days: seq<int>): int
    requires row.last.Some?
  {
    if days == [] then row.last.value - (row.current - 1)
    else if LastResult(row, days).reset then days[|days| - 1]
    else RunStart(row, days[..|days| - 1])
  }

  /** Shields spent since the current run began, and over the whole history. */
  function SpentInRun(row: Streak, days: seq<int>): nat {
    if days == [] || LastResult(row, days).reset then 0
    else SpentInRun(row, days[..|days| - 1]) + if LastResult(row, days).shieldUsed then 1 else 0
  }

  function SpentEver(row: Streak, days: seq<int>): nat {
    if days == [] then 0
    else SpentEver(row, days[..|days| - 1]) + if LastResult(row, days).shieldUsed then 1 else 0
  }

  /** The streak is the run's calendar length minus the days its shields covered; shields are conserved. */
  lemma {:induction false} StreakAccounting(row: Streak, days: seq<int>)
    requires row.last.Some?
    ensures After(row, days).last == Some(if days == [] then row.last.value else days[|days| - 1])
    ensures After(row, days).last.value - RunStart(row, days) ==
            (After(row, days).current - 1) + SpentInRun(row, days)
    ensures After(row, days).shields + SpentEver(row, days) == row.shields
    ensures row.shields >= 0 ==> After(row, days).shields >= 0
  {
    if days != [] {
      StreakAccounting(row, days[..|days| - 1]);
    }
  }

  /** `longest` is attained and never exceeded by any streak value of the history. */
  lemma {:induction false} LongestIsMaximum(row: Streak, days: seq<int>)
    requires row.current <= row.longest
    ensures var longest := After(row, days).longest;
            && longest >= row.longest
            && (forall k :: 0 <= k <= |days| ==> After(row, days[..k]).current <= longest)
            && (longest == row.longest || exists k :: 0 <= k <= |days| && After(row, days[..k]).current == longest)
  {
    if days == [] {
      assert days[..0] == days;
    } else {
      var prefix := days[..|days| - 1];
      LongestIsMaximum(row, prefix);
      assert forall k :: 0 <= k <= |prefix| ==> prefix[..k] == days[..k];
      assert days[..|days|] == days;
    }
  }

  /** A second activity on the same day changes nothing. */
  lemma RepeatedDayIsIdle(row: Streak, today: int)
    ensures Visit(Visit(row, today).0, today).0 == Visit(row, today).0
    ensures !Visit(Visit(row, today).0, today).1.shieldUsed && !Visit(Visit(row, today).0, today).1.reset
  {}

  /** A visit reports the row it leaves; without a last day it spends a shield if there is one, and starts over
      otherwise. */
  lemma VisitReports(row: Streak, today: int)
    ensures var (after, result) := Visit(row, today);
            && result.current == after.current && result.longest == after.longest
            && (row.last == None ==>
                  && result.shieldUsed == (row.shields > 0) && result.reset == (row.shields <= 0)
                  && after.current == (if row.shields > 0 then row.current + 1 else 1)
                  && after.shields == (if row.shields > 0 then row.shields - 1 else row.shields))
  {}

  function DayBefore(start: int, days: seq<int>): int
    requires days != []
  {
    if |days| == 1 then start else days[|days| - 2]
  }

  ghost predicate SmallGaps(start: int, days: seq<int>) {
    days != [] ==> 0 <= days[|days| - 1] - DayBefore(start, days) <= 2 && SmallGaps(start, days[..|days| - 1])
  }

  /** How many single days were skipped. */
  function SkippedDays(start: int, days: seq<int>): nat {
    if days == [] then 0
    else SkippedDays(start, days[..|days| - 1]) + if days[|days| - 1] - DayBefore(start, days) == 2 then 1 else 0
  }

  ghost predicate NeverReset(row: Streak, days: seq<int>) {
    days != [] ==> !LastResult(row, days).reset && NeverReset(row, days[..|days| - 1])
  }

  /** A streak survives exactly when no two days in a row are skipped and the shields cover every skipped day. */
  lemma {:induction false} SurvivesIffShieldsCover(row: Streak, days: seq<int>)
    requires row.last.Some? && row.shields >= 0
    ensures NeverReset(row, days) <==>
            SmallGaps(row.last.value, days) && SkippedDays(row.last.value, days) <= row.shields
    ensures NeverReset(row, days) ==> SpentEver(row, days) == SkippedDays(row.last.value, days)
  {
    if days != [] {
      var prefix := days[..|days| - 1];
      SurvivesIffShieldsCover(row, prefix);
      StreakAccounting(row, prefix);
      assert After(row, prefix).last == Some(DayBefore(row.last.value, days));
    }
  }
}
