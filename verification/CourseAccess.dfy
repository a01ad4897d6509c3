/** Access to a lesson: enrollment, the two implementations of drip gating, and lesson progress. */
module CourseAccess {
  import opened Wrappers
  import opened Text
  import Cursor

  /** A datetime: wall-clock microseconds and the offset of its zone, if it has one. */
  datatype Stamp = Stamp(wall: int, offset: Option<int>)

  /** What the JSON of a drip value holds under `date` and `days`, after `fromisoformat` and `int` read it. */
  datatype DateValue = NoDate | Date(text: string, stamp: Stamp) | BadDate
  datatype DaysValue = NoDays | Days(n: int) | BadDays

  /** What it holds under `lesson_id`: nothing or a false value, a text, or anything else, with its `str()`. */
  datatype LessonRef = NoLesson | Words(text: string) | Other(shown: string)

  /** The UUID a text stands for, or nothing when `uuid.UUID` rejects it. */
  type UuidReader = string -> Option<Uuid>

  /** What one implementation makes of a `lesson_id`. */
  datatype Reading = Nothing | Named(id: Uuid) | Unreadable

  datatype DripValue = DripValue(date: DateValue, days: DaysValue, lesson: LessonRef)

  datatype Lesson = Lesson(tenant: Uuid, inModule: Uuid, dripType: string, dripValue: Option<DripValue>,
                           isFreePreview: bool, hasVideo: bool)

  datatype Enrollment = Enrollment(tenant: Uuid, user: Uuid, product: Uuid, status: string, createdAt: Stamp)

  datatype ProgressRow = ProgressRow(watchSeconds: int, lastWatchedAt: int, completedAt: Option<int>)

  type Progress = map<(Uuid, Uuid), ProgressRow>

  datatype AccessError = LessonNotFound | NotEnrolled | BadDripValue

  datatype Decision = Decision(accessible: bool, reason: string)

  datatype DripResult = DripResult(accessible: bool, reason: string, unlocksAt: Option<int>)

  datatype LessonDetail = LessonDetail(drip: Decision, playable: bool)

  const DAY: int := 86_400_000_000

  /** Datetimes without a zone are read as UTC. */
  function Instant(s: Stamp): int {
    if s.offset.Some? then s.wall - s.offset.value else s.wall
  }

  /** `lesson.drip_value or {}`. */
  function ValueOf(lesson: Lesson): DripValue {
    if lesson.dripValue.Some? then lesson.dripValue.value else DripValue(NoDate, NoDays, NoLesson)
  }

  predicate Completed(progress: Progress, user: Uuid, lesson: Uuid) {
    (user, lesson) in progress && progress[(user, lesson)].completedAt.Some?
  }

  function ReadText(text: string, reader: UuidReader): Reading {
    var id := reader(text);
    if id.Some? then Named(id.value) else Unreadable
  }

  /** `uuid.UUID(prereq_lesson_id)`, which raises for anything but a text. */
  function PageReads(ref: LessonRef, reader: UuidReader): Reading {
    match ref
    case NoLesson => Nothing
    case Words(text) => ReadText(text, reader)
    case Other(_) => Unreadable
  }

  /** `uuid.UUID(str(prereq_id))`. */
  function ServiceReads(ref: LessonRef, reader: UuidReader): Reading {
    match ref
    case NoLesson => Nothing
    case Words(text) => ReadText(text, reader)
    case Other(shown) => ReadText(shown, reader)
  }

  /******* First implementation *******/

  const ACCESSIBLE := Decision(true, "accessible")

  /** `_check_drip`: the gates that depend on time. */
  function CheckDrip(lesson: Lesson, enrollment: Enrollment, now: int): Result<Decision, AccessError> {
    if lesson.dripType == "immediate" then Success(ACCESSIBLE)
    else if lesson.dripType == "fixed_date" then
      match ValueOf(lesson).date
      case NoDate => Success(ACCESSIBLE)
      case BadDate => Failure(BadDripValue)
      case Date(text, stamp) =>
        if now >= Instant(stamp) then Success(ACCESSIBLE) else Success(Decision(false, "unlocks on " + text))
    else if lesson.dripType == "days_after_enrollment" then
      var days := ValueOf(lesson).days;
      if days.BadDays? then Failure(BadDripValue)
      else
        var n := if days.NoDays? then 0 else days.n;
        if now >= Instant(enrollment.createdAt) + n * DAY then Success(ACCESSIBLE)
        else Success(Decision(false, "unlocks " + IntText(n) + " days after enrollment"))
    else Success(ACCESSIBLE)
  }

  /** The drip decision of `get_lesson_detail`; the prerequisite is checked for everybody, the time gates
      only for the enrolled. */
  function LessonDrip(lesson: Lesson, enrollment: Option<Enrollment>, user: Uuid, progress: Progress, now: int,
                      reader: UuidReader): Result<Decision, AccessError>
  {
    var timed := if enrollment.Some? then CheckDrip(lesson, enrollment.value, now) else Success(ACCESSIBLE);
    if timed.Failure? then timed
    else if lesson.dripType == "prerequisite" && lesson.dripValue.Some? then
      match PageReads(lesson.dripValue.value.lesson, reader)
      case Nothing => timed
      case Unreadable => Failure(BadDripValue)
      case Named(id) =>
        if Completed(progress, user, id) then timed
        else Success(Decision(false, "prerequisite lesson not completed"))
    else timed
  }

  /******* Second implementation *******/

  /** `is_lesson_accessible`. */
  function IsLessonAccessible(lesson: Lesson, enrollment: Enrollment, user: Uuid, progress: Progress, now: int,
                              reader: UuidReader): Result<DripResult, AccessError>
  {
    if lesson.dripType == "immediate" then Success(DripResult(true, "immediate access", None))
    else if lesson.dripType == "fixed_date" then
      match ValueOf(lesson).date
      case NoDate => Success(DripResult(true, "no date configured", None))
      case BadDate => Failure(BadDripValue)
      case Date(text, stamp) =>
        if now >= Instant(stamp) then Success(DripResult(true, "past unlock date", None))
        else Success(DripResult(false, "unlocks on " + text, Some(Instant(stamp))))
    else if lesson.dripType == "days_after_enrollment" then
      var days := ValueOf(lesson).days;
      if days.BadDays? then Failure(BadDripValue)
      else
        var n := if days.NoDays? then 0 else days.n;
        var unlocksAt := Instant(enrollment.createdAt) + n * DAY;
        if now >= unlocksAt then Success(DripResult(true, "days elapsed", None))
        else Success(DripResult(false, "unlocks " + IntText(n) + " days after enrollment", Some(unlocksAt)))
    else if lesson.dripType == "prerequisite" then
      match ServiceReads(ValueOf(lesson).lesson, reader)
      case Nothing => Success(DripResult(true, "no prerequisite configured", None))
      case Unreadable => Failure(BadDripValue)
      case Named(id) =>
        if Completed(progress, user, id) then Success(DripResult(true, "prerequisite completed", None))
        else Success(DripResult(false, "prerequisite lesson not completed", None))
    else Success(DripResult(true, "unknown drip type — defaulting to accessible", None))
  }

  /******* What both mean *******/

  /** The condition a lesson waits for. */
  datatype Gate = Open | Until(instant: int) | After(lesson: Uuid) | Broken

  /** The gate of a lesson for a member, given what `lesson_id` is read as. */
  function GateOf(lesson: Lesson, enrollment: Enrollment, reading: Reading): Gate {
    var v := ValueOf(lesson);
    match lesson.dripType
    case "fixed_date" => (match v.date case NoDate => Open case BadDate => Broken case Date(_, s) => Until(Instant(s)))
    case "days_after_enrollment" =>
      (match v.days
       case NoDays => Until(Instant(enrollment.createdAt))
       case BadDays => Broken
       case Days(n) => Until(Instant(enrollment.createdAt) + n * DAY))
    case "prerequisite" =>
      (match reading case Nothing => Open case Unreadable => Broken case Named(id) => After(id))
    case _ => Open
  }

  function PageGate(lesson: Lesson, enrollment: Enrollment, reader: UuidReader): Gate {
    GateOf(lesson, enrollment, PageReads(ValueOf(lesson).lesson, reader))
  }

  function ServiceGate(lesson: Lesson, enrollment: Enrollment, reader: UuidReader): Gate {
    GateOf(lesson, enrollment, ServiceReads(ValueOf(lesson).lesson, reader))
  }

  predicate IsOpen(gate: Gate, user: Uuid, progress: Progress, now: int) {
    match gate
    case Open => true
    case Until(instant) => now >= instant
    case After(lesson) => Completed(progress, user, lesson)
    case Broken => false
  }

  lemma FirstFollowsGate(lesson: Lesson, enrollment: Enrollment, user: Uuid, progress: Progress, now: int,
                         reader: UuidReader)
    ensures var r := LessonDrip(lesson, Some(enrollment), user, progress, now, reader);
            var gate := PageGate(lesson, enrollment, reader);
            if gate.Broken? then r.Failure?
            else r.Success? && r.value.accessible == IsOpen(gate, user, progress, now)
  {}

  lemma SecondFollowsGate(lesson: Lesson, enrollment: Enrollment, user: Uuid, progress: Progress, now: int,
                          reader: UuidReader)
    ensures var r := IsLessonAccessible(lesson, enrollment, user, progress, now, reader);
            var gate := ServiceGate(lesson, enrollment, reader);
            if gate.Broken? then r.Failure?
            else r.Success? && r.value.accessible == IsOpen(gate, user, progress, now)
                 && r.value.unlocksAt == if gate.Until? && now < gate.instant then Some(gate.instant) else None
  {}

  /** The two implementations fail together, decide alike, and give the same reason for a locked lesson. */
  predicate Agree(mine: Result<Decision, AccessError>, theirs: Result<DripResult, AccessError>) {
    && (mine.Failure? <==> theirs.Failure?)
    && (mine.Success? && theirs.Success? ==>
          && mine.value.accessible == theirs.value.accessible
          && (!mine.value.accessible ==> mine.value.reason == theirs.value.reason))
  }

  /** The lesson waits for a prerequisite whose id is no text, but whose `str()` is a UUID. */
  predicate ReadOnlyByService(lesson: Lesson, reader: UuidReader) {
    && lesson.dripType == "prerequisite"
    && ValueOf(lesson).lesson.Other?
    && reader(ValueOf(lesson).lesson.shown).Some?
  }

  lemma SameReason(lesson: Lesson, enrollment: Enrollment, user: Uuid, progress: Progress, now: int, reader: UuidReader)
    ensures var mine := LessonDrip(lesson, Some(enrollment), user, progress, now, reader);
            var theirs := IsLessonAccessible(lesson, enrollment, user, progress, now, reader);
            mine.Success? && theirs.Success? && !mine.value.accessible && !theirs.value.accessible ==>
              mine.value.reason == theirs.value.reason
  {}

  lemma SameGateIff(lesson: Lesson, enrollment: Enrollment, reader: UuidReader)
    ensures ReadOnlyByService(lesson, reader) ==>
              PageGate(lesson, enrollment, reader).Broken? && ServiceGate(lesson, enrollment, reader).After?
    ensures !ReadOnlyByService(lesson, reader) ==>
              PageGate(lesson, enrollment, reader) == ServiceGate(lesson, enrollment, reader)
  {}

  /** For an enrolled user the two implementations agree unless the prerequisite's id is no text while its `str()` is
      a UUID; then the lesson page fails and the drip service decides by progress. */
  lemma AgreeIff(lesson: Lesson, enrollment: Enrollment, user: Uuid, progress: Progress, now: int, reader: UuidReader)
    ensures var mine := LessonDrip(lesson, Some(enrollment), user, progress, now, reader);
            var theirs := IsLessonAccessible(lesson, enrollment, user, progress, now, reader);
            && (Agree(mine, theirs) <==> !ReadOnlyByService(lesson, reader))
            && (ReadOnlyByService(lesson, reader) ==>
                  mine.Failure? && theirs.Success?
                  && theirs.value.accessible == Completed(progress, user, reader(ValueOf(lesson).lesson.shown).value))
  {
    FirstFollowsGate(lesson, enrollment, user, progress, now, reader);
    SecondFollowsGate(lesson, enrollment, user, progress, now, reader);
    SameReason(lesson, enrollment, user, progress, now, reader);
    SameGateIff(lesson, enrollment, reader);
  }

  lemma {:induction false} HexReads(s: string)
    requires forall c <- s :: Cursor.HexDigit(c).Some?
    ensures Cursor.HexValue(s).Some?
  {
    if s != "" { HexReads(s[..|s| - 1]); }
  }

  /** A JSON number of 32 digits is such an id: its text is a UUID without dashes. */
  lemma LongNumbersAreUuids(n: nat)
    requires |Decimal(n)| == 32
    ensures Cursor.ParseUuid(Decimal(n)).Some?
  {
    assert forall c <- Decimal(n) :: Cursor.HexDigit(c).Some? && c != '-';
    Cursor.UndashPlain(Decimal(n));
    HexReads(Decimal(n));
  }

  lemma {:induction false} DecimalLength(n: nat, k: nat)
    requires k >= 1 && (k == 1 || Pow10(k - 1) <= n) && n < Pow10(k)
    ensures |Decimal(n)| == k
  {
    if k > 1 {
      assert n >= 10;
      DecimalLength(n / 10, k - 1);
    }
  }

  function Pow10(k: nat): (p: nat)
    ensures p >= 1 && (k >= 1 ==> p >= 10)
  {
    if k == 0 then 1 else 10 * Pow10(k - 1)
  }

  /** The numbers of 32 digits. */
  const LOW: nat := 10_000_000_000_000_000_000_000_000_000_000
  const HIGH: nat := 100_000_000_000_000_000_000_000_000_000_000

  lemma Pow10Values()
    ensures Pow10(31) == LOW && Pow10(32) == HIGH
  {
    assert Pow10(8) == 100_000_000;
    assert Pow10(16) == 10_000_000_000_000_000;
    assert Pow10(24) == 1_000_000_000_000_000_000_000_000;
  }

  /** The implementations do differ, on every prerequisite lesson whose id is stored as a number of 32 digits, such as
      11111111111111111111111111111111: the lesson page fails, the drip service does not. */
  lemma ImplementationsDiffer(lesson: Lesson, n: nat, enrollment: Enrollment, user: Uuid, progress: Progress, now: int)
    requires LOW <= n < HIGH
    requires lesson.dripType == "prerequisite" && ValueOf(lesson).lesson == Other(Decimal(n))
    ensures LessonDrip(lesson, Some(enrollment), user, progress, now, Cursor.ParseUuid) == Failure(BadDripValue)
    ensures IsLessonAccessible(lesson, enrollment, user, progress, now, Cursor.ParseUuid).Success?
  {
    ThirtyTwoDigits(n, 32);
    LongNumbersAreUuids(n);
    AgreeIff(lesson, enrollment, user, progress, now, Cursor.ParseUuid);
  }

  lemma ThirtyTwoDigits(n: nat, k: nat)
    requires LOW <= n < HIGH && k == 32
    ensures |Decimal(n)| == k
  {
    Pow10Values();
    DecimalLength(n, k);
  }

  /** Which of several entitling enrollments the query returns matters in exactly one case: a lesson that
      unlocks days after enrollment, at a time when one of them has waited long enough and the other has not. */
  lemma PickMattersIff(lesson: Lesson, a: Enrollment, b: Enrollment, user: Uuid, progress: Progress, now: int,
                       reader: UuidReader)
    ensures LessonDrip(lesson, Some(a), user, progress, now, reader)
              != LessonDrip(lesson, Some(b), user, progress, now, reader) <==>
            && lesson.dripType == "days_after_enrollment" && !ValueOf(lesson).days.BadDays?
            && (now >= PageGate(lesson, a, reader).instant) != (now >= PageGate(lesson, b, reader).instant)
  {}

  /** When a lesson opens by the columns: on its date, or so many days of 24 hours after the enrollment, each read as
      UTC where it has no zone.  A value that is not there waits for nothing. */
  ghost function OpensAt(lesson: Lesson, since: Stamp): Option<int> {
    var days := if lesson.dripValue.Some? then lesson.dripValue.value.days else NoDays;
    var date := if lesson.dripValue.Some? then lesson.dripValue.value.date else NoDate;
    if lesson.dripType == "fixed_date" && date.Date? then
      Some(date.stamp.wall - if date.stamp.offset.Some? then date.stamp.offset.value else 0)
    else if lesson.dripType == "days_after_enrollment" then
      Some(since.wall - (if since.offset.Some? then since.offset.value else 0)
           + if days.Days? then days.n * 86_400_000_000 else 0)
    else None
  }

  /** The value the lesson's type needs cannot be read. */
  ghost predicate BadValue(lesson: Lesson) {
    && lesson.dripValue.Some?
    && ((lesson.dripType == "fixed_date" && lesson.dripValue.value.date.BadDate?)
        || (lesson.dripType == "days_after_enrollment" && lesson.dripValue.value.days.BadDays?))
  }

  /** The lesson page opens the time gates at that moment, and fails on a value that cannot be read. */
  lemma PageOpensWhen(lesson: Lesson, enrollment: Enrollment, user: Uuid, progress: Progress, now: int,
                      reader: UuidReader)
    requires lesson.dripType != "prerequisite"
    ensures var page, opens := LessonDrip(lesson, Some(enrollment), user, progress, now, reader),
                               OpensAt(lesson, enrollment.createdAt);
            && (page.Failure? <==> BadValue(lesson))
            && (page.Success? ==> (page.value.accessible <==> opens == None || now >= opens.value))
            && (page.Success? ==>
                  page.value.reason ==
                  if page.value.accessible then "accessible"
                  else if lesson.dripType == "fixed_date" then "unlocks on " + lesson.dripValue.value.date.text
                  else "unlocks " + IntText(if lesson.dripValue == None || lesson.dripValue.value.days == NoDays then 0
                                            else lesson.dripValue.value.days.n) + " days after enrollment")
  {}

  /** So does the drip service, and it announces that moment. */
  lemma ServiceOpensWhen(lesson: Lesson, enrollment: Enrollment, user: Uuid, progress: Progress, now: int,
                         reader: UuidReader)
    requires lesson.dripType != "prerequisite"
    ensures var service, opens := IsLessonAccessible(lesson, enrollment, user, progress, now, reader),
                                  OpensAt(lesson, enrollment.createdAt);
            && (service.Failure? <==> BadValue(lesson))
            && (service.Success? ==> (service.value.accessible <==> opens == None || now >= opens.value))
            && (service.Success? ==> service.value.unlocksAt == if service.value.accessible then None else opens)
            && (service.Success? && service.value.accessible ==>
                  service.value.reason ==
                  match lesson.dripType
                  case "immediate" => "immediate access"
                  case "fixed_date" => if opens.Some? then "past unlock date" else "no date configured"
                  case "days_after_enrollment" => "days elapsed"
                  case _ => "unknown drip type — defaulting to accessible")
  {}

  /** A prerequisite lesson that names no other one is open; one whose text is no UUID makes both fail. */
  lemma UnnamedPrerequisite(lesson: Lesson, enrollment: Enrollment, user: Uuid, progress: Progress, now: int,
                            reader: UuidReader)
    requires lesson.dripType == "prerequisite"
    ensures var page := LessonDrip(lesson, Some(enrollment), user, progress, now, reader);
            var service := IsLessonAccessible(lesson, enrollment, user, progress, now, reader);
            var ref := if lesson.dripValue.Some? then lesson.dripValue.value.lesson else NoLesson;
            && (ref.NoLesson? ==>
                  && page == Success(Decision(true, "accessible"))
                  && service == Success(DripResult(true, "no prerequisite configured", None)))
            && (ref.Words? && reader(ref.text) == None ==> page.Failure? && service.Failure?)
  {}

  /** The unlock time a locked lesson announces is exactly the first moment it is accessible. */
  lemma UnlocksAtIsExact(lesson: Lesson, enrollment: Enrollment, user: Uuid, progress: Progress, now: int, later: int,
                         reader: UuidReader)
    requires var r := IsLessonAccessible(lesson, enrollment, user, progress, now, reader);
             r.Success? && r.value.unlocksAt.Some?
    ensures var r := IsLessonAccessible(lesson, enrollment, user, progress, now, reader).value;
            var s := IsLessonAccessible(lesson, enrollment, user, progress, later, reader);
            !r.accessible && s.Success? && (s.value.accessible <==> later >= r.unlocksAt.value)
  {
    SecondFollowsGate(lesson, enrollment, user, progress, now, reader);
    SecondFollowsGate(lesson, enrollment, user, progress, later, reader);
  }

  /** Without an enrollment, as for a free preview, only the prerequisite gate is closed to anyone. */
  lemma PreviewSkipsTimeGates(lesson: Lesson, enrollment: Enrollment, user: Uuid, progress: Progress, now: int,
                              reader: UuidReader)
    ensures var mine, gate := LessonDrip(lesson, None, user, progress, now, reader),
                                PageGate(lesson, enrollment, reader);
            && (mine.Failure? <==> gate.Broken? && lesson.dripType == "prerequisite")
            && (mine.Success? ==> (mine.value.accessible <==> (gate.After? ==> Completed(progress, user, gate.lesson))))
  {}

  /******* Progress *******/

  datatype Update = Update(user: Uuid, lesson: Uuid, watchSeconds: int, completed: bool, at: int)

  /** The row after a report, given the row before it, if there was one. */
  function Reported(before: Option<ProgressRow>, up: Update): ProgressRow {
    match before
    case None => ProgressRow(up.watchSeconds, up.at, if up.completed then Some(up.at) else None)
    case Some(row) =>
      ProgressRow(if row.watchSeconds < up.watchSeconds then up.watchSeconds else row.watchSeconds,
                  up.at,
                  if up.completed && row.completedAt == None then Some(up.at) else row.completedAt)
  }

  function Updated(progress: Progress, up: Update): Progress {
    var key := (up.user, up.lesson);
    progress[key := Reported(if key in progress then Some(progress[key]) else None, up)]
  }

  function RunUpdates(progress: Progress, ups: seq<Update>): Progress {
    if ups == [] then progress else Updated(RunUpdates(progress, ups[..|ups| - 1]), ups[|ups| - 1])
  }

  predicate Concerns(up: Update, user: Uuid, lesson: Uuid) {
    up.user == user && up.lesson == lesson
  }

  lemma {:induction false} CompletionSticks(progress: Progress, ups: seq<Update>, user: Uuid, lesson: Uuid)
    requires Completed(progress, user, lesson)
    ensures Completed(RunUpdates(progress, ups), user, lesson)
  {
    if ups != [] { CompletionSticks(progress, ups[..|ups| - 1], user, lesson); }
  }

  lemma OpenStaysOpen(gate: Gate, user: Uuid, progress: Progress, now: int, ups: seq<Update>, later: int)
    requires now <= later && IsOpen(gate, user, progress, now)
    ensures IsOpen(gate, user, RunUpdates(progress, ups), later)
  {
    if gate.After? { CompletionSticks(progress, ups, user, gate.lesson); }
  }

  /** Once a lesson is accessible, by either implementation, it stays so, whatever time passes and whatever progress
      anybody reports. */
  lemma {:induction false} AccessIsForever(lesson: Lesson, enrollment: Enrollment, user: Uuid, progress: Progress,
                                           now: int, ups: seq<Update>, later: int, reader: UuidReader)
    requires now <= later
    ensures var r := LessonDrip(lesson, Some(enrollment), user, progress, now, reader);
            var s := LessonDrip(lesson, Some(enrollment), user, RunUpdates(progress, ups), later, reader);
            r.Success? && r.value.accessible ==> s.Success? && s.value.accessible
    ensures var r := IsLessonAccessible(lesson, enrollment, user, progress, now, reader);
            var s := IsLessonAccessible(lesson, enrollment, user, RunUpdates(progress, ups), later, reader);
            r.Success? && r.value.accessible ==> s.Success? && s.value.accessible
  {
    var after := RunUpdates(progress, ups);
    FirstFollowsGate(lesson, enrollment, user, progress, now, reader);
    FirstFollowsGate(lesson, enrollment, user, after, later, reader);
    SecondFollowsGate(lesson, enrollment, user, progress, now, reader);
    SecondFollowsGate(lesson, enrollment, user, after, later, reader);
    var page, service := PageGate(lesson, enrollment, reader), ServiceGate(lesson, enrollment, reader);
    if IsOpen(page, user, progress, now) { OpenStaysOpen(page, user, progress, now, ups, later); }
    if IsOpen(service, user, progress, now) { OpenStaysOpen(service, user, progress, now, ups, later); }
  }

  /** Row `row` summarises the reports of a user on a lesson: the longest watch time, the moment of the last
      report, and the moment of the first that said the lesson was completed. */
  ghost predicate Summarises(row: ProgressRow, ups: seq<Update>, user: Uuid, lesson: Uuid) {
    && (forall k :: 0 <= k < |ups| && Concerns(ups[k], user, lesson) ==> ups[k].watchSeconds <= row.watchSeconds)
    && (exists k :: 0 <= k < |ups| && Concerns(ups[k], user, lesson) && ups[k].watchSeconds == row.watchSeconds)
    && (exists k :: 0 <= k < |ups| && Concerns(ups[k], user, lesson) && ups[k].at == row.lastWatchedAt
          && forall j :: k < j < |ups| ==> !Concerns(ups[j], user, lesson))
    && match row.completedAt
       case None => forall k :: 0 <= k < |ups| && Concerns(ups[k], user, lesson) ==> !ups[k].completed
       case Some(at) => exists k :: 0 <= k < |ups| && Concerns(ups[k], user, lesson) && ups[k].completed
                          && ups[k].at == at
                          && forall j :: 0 <= j < k && Concerns(ups[j], user, lesson) ==> !ups[j].completed
  }

  /** What the table holds for a user and lesson after a history of reports. */
  ghost predicate RowOf(progress: Progress, ups: seq<Update>, user: Uuid, lesson: Uuid) {
    if (user, lesson) in progress then Summarises(progress[(user, lesson)], ups, user, lesson)
    else forall k :: 0 <= k < |ups| ==> !Concerns(ups[k], user, lesson)
  }

  /** Starting from an empty table, every row is the summary of the whole history of its user and lesson. */
  lemma {:induction false} ProgressIsHistory(ups: seq<Update>, user: Uuid, lesson: Uuid)
    ensures RowOf(RunUpdates(map[], ups), ups, user, lesson)
  {
    if ups != [] {
      var front, last := ups[..|ups| - 1], ups[|ups| - 1];
      ProgressIsHistory(front, user, lesson);
      OneMoreReport(RunUpdates(map[], front), front, last, user, lesson);
      assert front + [last] == ups;
    }
  }

  /** From an empty table, after any reports of anybody: a lesson with a readable prerequisite opens for an enrolled
      user, in either implementation, exactly if a report of that user said that the named lesson was completed. */
  lemma PrerequisiteOpensIff(ups: seq<Update>, lesson: Lesson, id: Uuid, enrollment: Enrollment, user: Uuid, now: int,
                             reader: UuidReader)
    requires lesson.dripType == "prerequisite" && lesson.dripValue.Some? && !lesson.dripValue.value.lesson.NoLesson?
    requires var ref := lesson.dripValue.value.lesson;
             reader(if ref.Words? then ref.text else ref.shown) == Some(id)
    ensures var progress := RunUpdates(map[], ups);
            var completed := exists up <- ups :: up.user == user && up.lesson == id && up.completed;
            var page := LessonDrip(lesson, Some(enrollment), user, progress, now, reader);
            var service := IsLessonAccessible(lesson, enrollment, user, progress, now, reader);
            && service == Success(DripResult(completed, if completed then "prerequisite completed"
                                                        else "prerequisite lesson not completed", None))
            && (lesson.dripValue.value.lesson.Words? ==> page.Success? && (page.value.accessible <==> completed))
            && (lesson.dripValue.value.lesson.Other? ==> page == Failure(BadDripValue))
  {
    CompletedIff(ups, user, id);
  }

  lemma CompletedIff(ups: seq<Update>, user: Uuid, lesson: Uuid)
    ensures Completed(RunUpdates(map[], ups), user, lesson) <==>
            exists up <- ups :: up.user == user && up.lesson == lesson && up.completed
  {
    var progress := RunUpdates(map[], ups);
    ProgressIsHistory(ups, user, lesson);
    if up :| up in ups && up.user == user && up.lesson == lesson && up.completed {
      var k :| 0 <= k < |ups| && ups[k] == up;
      assert Concerns(ups[k], user, lesson);
    }
    if Completed(progress, user, lesson) {
      var at := progress[(user, lesson)].completedAt;
      var k :| 0 <= k < |ups| && Concerns(ups[k], user, lesson) && ups[k].completed;
      assert ups[k] in ups;
    }
  }

  lemma OneMoreReport(progress: Progress, ups: seq<Update>, up: Update, user: Uuid, lesson: Uuid)
    requires RowOf(progress, ups, user, lesson)
    ensures RowOf(Updated(progress, up), ups + [up], user, lesson)
  {
    if !Concerns(up, user, lesson) {
      if (user, lesson) in progress { Unconcerned(progress[(user, lesson)], ups, up, user, lesson); }
    } else if (user, lesson) in progress {
      LaterReport(progress[(user, lesson)], ups, up);
    } else {
      FirstReport(ups, up);
    }
  }

  lemma FirstReport(ups: seq<Update>, up: Update)
    requires forall k :: 0 <= k < |ups| ==> !Concerns(ups[k], up.user, up.lesson)
    ensures Summarises(Reported(None, up), ups + [up], up.user, up.lesson)
  {
    assert (ups + [up])[|ups|] == up;
  }

  lemma LaterReport(row: ProgressRow, ups: seq<Update>, up: Update)
    requires Summarises(row, ups, up.user, up.lesson)
    ensures Summarises(Reported(Some(row), up), ups + [up], up.user, up.lesson)
  {
    assert (ups + [up])[|ups|] == up;
    assert forall k :: 0 <= k < |ups| ==> (ups + [up])[k] == ups[k];
  }

  lemma Unconcerned(row: ProgressRow, ups: seq<Update>, up: Update, user: Uuid, lesson: Uuid)
    requires Summarises(row, ups, user, lesson) && !Concerns(up, user, lesson)
    ensures Summarises(row, ups + [up], user, lesson)
  {
    assert forall k :: 0 <= k < |ups| ==> (ups + [up])[k] == ups[k];
  }

  /******* The service *******/

  class CourseService {
    var lessons: map<Uuid, Lesson>
    var modules: map<Uuid, Uuid> // the course of each module
    var enrollments: seq<Enrollment>
    var productCourses: set<(Uuid, Uuid)>
    var progress: Progress

    /** The enrollments `_is_user_enrolled_in_course` may return: its query says only `LIMIT 1`. */
    ghost predicate Entitles(e: Enrollment, tenant: Uuid, user: Uuid, course: Uuid)
      reads this
    {
      && e in enrollments && e.tenant == tenant && e.user == user && e.status == "active"
      && (e.product, course) in productCourses
    }

    ghost predicate IsPick(pick: Option<Enrollment>, tenant: Uuid, user: Uuid, course: Uuid)
      reads this
    {
      if pick.Some? then Entitles(pick.value, tenant, user, course)
      else forall e <- enrollments :: !Entitles(e, tenant, user, course)
    }

    constructor (lessons: map<Uuid, Lesson>, modules: map<Uuid, Uuid>, enrollments: seq<Enrollment>,
                 productCourses: set<(Uuid, Uuid)>)
      ensures this.lessons == lessons && this.modules == modules && this.enrollments == enrollments
      ensures this.productCourses == productCourses && progress == map[]
    {
      this.lessons := lessons;
      this.modules := modules;
      this.enrollments := enrollments;
      this.productCourses := productCourses;
      progress := map[];
    }

    /** Who gets a lesson: members with an active enrollment that covers the course, and anybody for a free
        preview; its video plays only when the drip gate is open. */
    method GetLessonDetail(tenant: Uuid, user: Uuid, id: Uuid, now: int, pick: Option<Enrollment>, reader: UuidReader)
      returns (r: Result<LessonDetail, AccessError>)
      requires id in lessons && lessons[id].inModule in modules ==>
                 IsPick(pick, tenant, user, modules[lessons[id].inModule])
      ensures r == Failure(LessonNotFound) <==>
                id !in lessons || lessons[id].tenant != tenant || lessons[id].inModule !in modules
      ensures r == Failure(NotEnrolled) <==>
                && id in lessons && lessons[id].tenant == tenant && lessons[id].inModule in modules
                && !lessons[id].isFreePreview
                && forall e <- enrollments ::
                     !(e.tenant == tenant && e.user == user && e.status == "active"
                       && (e.product, modules[lessons[id].inModule]) in productCourses)
      ensures r.Success? ==> LessonDrip(lessons[id], pick, user, progress, now, reader) == Success(r.value.drip)
      ensures r == Failure(BadDripValue) ==>
                LessonDrip(lessons[id], pick, user, progress, now, reader) == Failure(BadDripValue)
      ensures r.Success? ==> (r.value.playable <==> lessons[id].hasVideo && r.value.drip.accessible)
    {
      if id !in lessons || lessons[id].tenant != tenant { return Failure(LessonNotFound); }
      var lesson := lessons[id];
      if lesson.inModule !in modules { return Failure(LessonNotFound); }
      if pick == None && !lesson.isFreePreview { return Failure(NotEnrolled); }

      var decision := ACCESSIBLE;
      if pick.Some? {
        var timed := CheckDrip(lesson, pick.value, now);
        if timed.Failure? { return Failure(timed.error); }
        decision := timed.value;
      }
      if lesson.dripType == "prerequisite" && lesson.dripValue.Some? {
        var prerequisite := lesson.dripValue.value.lesson;
        if !prerequisite.NoLesson? {
          if prerequisite.Other? { return Failure(BadDripValue); }
          var required := reader(prerequisite.text);
          if required == None { return Failure(BadDripValue); }
          if !Completed(progress, user, required.value) {
            decision := Decision(false, "prerequisite lesson not completed");
          }
        }
      }
      return Success(LessonDetail(decision, lesson.hasVideo && decision.accessible));
    }

    method UpdateLessonProgress(tenant: Uuid, up: Update) returns (r: Result<ProgressRow, AccessError>)
      modifies this`progress
      ensures if up.lesson in lessons && lessons[up.lesson].tenant == tenant
              then progress == Updated(old(progress), up) && r == Success(progress[(up.user, up.lesson)])
              else progress == old(progress) && r == Failure(LessonNotFound)
    {
      if up.lesson !in lessons || lessons[up.lesson].tenant != tenant { return Failure(LessonNotFound); }
      var key := (up.user, up.lesson);
      if key !in progress {
        progress := progress[key := ProgressRow(up.watchSeconds, up.at, if up.completed then Some(up.at) else None)];
      } else {
        var row := progress[key];
        if up.watchSeconds > row.watchSeconds { row := row.(watchSeconds := up.watchSeconds); }
        row := row.(lastWatchedAt := up.at);
        if up.completed && row.completedAt == None { row := row.(completedAt := Some(up.at)); }
        progress := progress[key := row];
      }
      return Success(progress[key]);
    }
  }
}
