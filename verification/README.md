# Verified model of a multi-tenant course platform

A Dafny model of the parts of a course platform (FastAPI over SQLAlchemy, Celery and Redis) that are more than
record keeping, with proofs about every run, every schedule and every input.  `dafny verify dfyconfig.toml` checks it.

- **Gamification** (`Experience`, `Badges`, `TaskQueue`, `GamificationWorker`, `AwardRace`, `BadgeRace`, `Streaks`).
  Awards append to a ledger and move a cached total and level; level-ups queue badge evaluations, and new badges queue
  more awards.  The queue machine runs its tasks in any order; it terminates, conserves badges and keeps the cache equal
  to the ledger.  Overlapping awards and overlapping evaluations are machines of their own, over every schedule.  Daily
  streaks with shields are a second counter machine.
- **Quiz battles** (`QuizBattle`, `QuizBattleService`, `QuizRace`, `QuizExpiryRace`).  The handlers as a state machine
  with an invariant over every run; two submits at the same time, and a first or last submit against readers that expire
  battles, commit by commit, over every interleaving.
- **Webhook logs** (`Cursor`, `WebhookLogs`).  Keyset pagination whose cursor is a binary64 timestamp and a UUID in a
  string, over tables that change between requests.
- **Webhook enrollment** (`WebhookEnrollment`, `WebhookWorker`, `WebhookHistory`).  A task of several commits with
  retries: crash recovery, idempotence, and what an enrollment says about the history of events.
- **System emails** (`SystemEmail`, `Text`).  A token scanner with single-pass substitution and escaping.
- **Courses** (`CourseSlugs`, `LessonOrder`, `Ordering`, `CourseAccess`).  The search for a unique slug, reordering
  read back through the sorted listing, and two independent implementations of drip gating.
- **Tenant hosts** (`TenantCache`, `TenantService`, `TenantRace`).  A cache in front of the tenant table with two
  readers, writers that clear it and one that does not; and the same with loads, stores, commits and deletions that
  interleave.

Each component has functions that specify one handler or task as a step on values, classes whose methods work in place
and are proved against those functions, and lemmas about runs of steps.  Clocks, generated ids, the configuration of a
tenant and the answers of tables outside a component are parameters.  Where a query has no complete order
(`LIMIT 1`, equal sort keys) the model allows every answer.

Some laws one would expect do not hold of the code. The model keeps the code as it is and proves when they hold:
expired battles can still be completed (`QuizBattle.ExpiredLeftIff`), a battle's prize can be dispatched twice
(`QuizRace.PaidOnceIff`) and pays nothing (`QuizBattle.PrizePaysNothing`), overlapping awards can lose experience
(`AwardRace.CacheSurvivesIffNoOverlap`), a colliding evaluation loses all its grants until its retry
(`BadgeRace.CollidesIff`), the two drip gates can differ (`CourseAccess.AgreeIff`), a completed battle can be
overwritten as expired (`QuizExpiryRace.EndsExpiredIff`) and an expired one as active (`QuizExpiryRace.RevivedIff`),
streaks fail on stored rows (`Streaks.MeetsDocsIff`), a late reader can cache an outdated tenant
(`TenantRace.LateStoreGoesStale`, `TenantRace.LateStoreAgreesIff`), a second delivery repeats a withdrawal email
(`WebhookEnrollment.WithdrawalMailEveryTime`), and the entry of an empty host goes stale
(`TenantCache.EmptyHostGoesStale`).

## Model

| member | source | states |
|---|---|---|
| Experience.ComputeLevel | app/services/gamification/xp.py:43-50 | the scan with its break returns the length of the longest prefix of thresholds at or below the total, and at least 1 |
| Experience.ReachedPrefixIsLongest | app/services/gamification/xp.py:43-50 | that prefix exists and is unique, for sorted and unsorted thresholds |
| Experience.LevelMonotone | app/services/gamification/xp.py:43-50 | more experience never lowers the level, and no level exceeds the number of thresholds |
| Experience.DefaultLevelBands | app/services/gamification/xp.py:23 | on the default table level L below 10 is exactly 50L(L-1) <= xp < 50L(L+1), and 10 from 4500 up |
| Experience.ActiveMultiplier | app/services/gamification/xp.py:53-77 | the multiplier is that of some eligible event (any one: the query has no order), 1 when none is eligible or it is unset or 0 |
| Experience.OneEventApplies | app/services/gamification/xp.py:53-77 | a single event multiplies exactly while it runs and is active, in its own tenant, for its own company or, without one, for all; unset and 0 count as 1 |
| Experience.AwardKeepsCache | app/services/gamification/xp.py:89-125 | one award, by anybody with any multiplier, keeps every cached total equal to the sum of that user's ledger events |
| Experience.AwardPays | app/services/gamification/xp.py:11-32 | in numbers: the eight actions pay what the tenant has set, or else 10, 20, 5, 2, 15, 25, 30 and 10, times the multiplier, to their user alone; any other action fails and changes nothing |
| Experience.AwardSetsLevel | app/services/gamification/xp.py:113-132 | the row then holds the old total plus the amount, and the level by the tenant's thresholds or the default bands; a level-up is reported exactly if the level has risen, from 1 where there was no row |
| Experience.CacheFollowsLedger | app/services/gamification/badges.py:11-16 | over any run of awards, so that the `min_xp` check on the ledger agrees with the cached total |
| Experience.LevelsStayCurrent | app/services/gamification/xp.py:117-123 | the stored level stays the level of the stored total, over any run under fixed thresholds |
| Experience.LevelUpsTelescope | app/services/gamification/xp.py:119-132 | with non-negative awards the level-ups of a user are at most what the stored level has risen |
| Experience.LevelUpsBounded | app/services/gamification/xp.py:119-132 | hence at most len(thresholds) - 1 level-ups per user, however long the run |
| AwardRace.CacheSurvivesIffNothingMissed | app/services/gamification/xp.py:97-125 | when awards overlap, under any schedule and for any amounts and users, the ledger law holds throughout exactly if the awards that each commit of an award other than 0 has missed since its read add up to 0 |
| AwardRace.CacheSurvivesIffNoOverlap | app/services/gamification/xp.py:97-125 | for awards that are not negative: exactly if between the read and the commit of an award that gives something no other award lands that gives something to the same user |
| AwardRace.SequentialIffNoOverlap | app/services/gamification/xp.py:97-125 | exactly then the overlapping tasks keep the books of whole awards, one after the other in the order of their commits: the same events, level rows and totals at every moment |
| AwardRace.WholeIffNoOverlap | app/services/gamification/xp.py:97-125 | and while every tenant keeps its thresholds, the same levels too |
| AwardRace.RightAtTheEndIffNoOverlap | app/services/gamification/xp.py:97-125 | with positive awards lost experience never comes back: the totals are right at the end exactly if no awards of one user have overlapped |
| AwardRace.LostUpdate | app/services/gamification/xp.py:113-125 | two overlapping awards that give something to a user who has a level row record both events and only the second amount |
| AwardRace.LevelLeftBehind | app/services/gamification/xp.py:117-123 | a level the first award has raised then stays beside the total of the second, which has computed the level it had read |
| AwardRace.FirstAwardsCollide | app/models/gamification.py:62-66 | for a user without a level row the unique index fails the second of two overlapping tasks, and the tables are those of the first award |
| AwardRace.RetryRecovers | app/tasks/gamification.py:43-52 | its retry reads again and lands: the tables are those of both awards, one after the other |
| Badges.EvaluationIsExact | app/services/gamification/badges.py:64-94 | an evaluation grants a badge exactly if it qualifies, never one already held, none twice |
| Badges.GrantedIff | app/services/gamification/badges.py:97-129 | in numbers: a badge not held is granted exactly if it is active, of the tenant and bound to the trigger, experience, courses, streak days and comments reach what its rule sets, and the hour is before `hour_before` |
| BadgeRace.RaceIsSequential | app/services/gamification/badges.py:57-94 | when evaluations overlap, check by check, the badges held are under every interleaving those of the evaluations whose commit succeeded, each made whole at its commit |
| BadgeRace.WholeIsEvaluation | app/services/gamification/badges.py:57-94 | such a whole evaluation is one evaluation of the badge module for the badges that qualify |
| BadgeRace.RaceStaysSound | app/models/gamification.py:102-104 | under every interleaving no badge is held twice, and one award is queued for each new one |
| BadgeRace.CollidesIff | app/services/gamification/badges.py:91-92 | a commit fails exactly if, since the execution has looked at some badge, another one has committed that badge for the same user |
| BadgeRace.OneCollisionLosesAll | app/services/gamification/badges.py:86-92 | one collision fails the whole batch, grants of other badges included |
| BadgeRace.RetryLands | app/tasks/gamification.py:64-72 | a retry that nothing comes between lands, whatever has happened before, and leaves held all it finds to qualify |
| TaskQueue.TaskLowersPotential | app/tasks/gamification.py:43-68 | whichever queued task runs, 2B + 2A + E strictly falls (B active badges not held, A queued awards, E queued evaluations) |
| TaskQueue.CascadeTerminates | app/tasks/gamification.py:43-68 | under every scheduling order at most 2B + 2A + E tasks ever run |
| TaskQueue.StepConserves | app/tasks/gamification.py:64-68 | each task keeps: badges held = `badge_earned` events in the ledger + badge awards still queued, as multisets |
| TaskQueue.CascadeStaysSound | app/services/gamification/badges.py:72-94 | in every reachable state that conservation law holds, no badge is held twice, and every cached total is the ledger sum |
| TaskQueue.DrainedMeansPaid | app/tasks/gamification.py:64-68 | once the queue is empty each held badge has exactly one `badge_earned` event |
| TaskQueue.AwardQueuesIff | app/tasks/gamification.py:43-47 | an award queues the `level_up` evaluation of its user exactly if the stored level has risen, and nothing otherwise |
| TaskQueue.LevelUpsAreEvaluated | app/tasks/gamification.py:31-68 | over every run, in any order: the `level_up` evaluations of a user that are queued at the end or have been run number as many as those queued at the start, the rises of the stored level, and those other components have queued |
| TaskQueue.EvaluationQueues | app/tasks/gamification.py:64-68 | an evaluation queues one `badge_earned` award for each badge it adds, and nothing else |
| TaskQueue.HeldIffEarned | app/services/gamification/badges.py:97-129 | a badge is held after a run exactly if it was held before or some evaluation of the run found its conditions met at that moment |
| GamificationWorker.Worker.AwardXP | app/services/gamification/xp.py:80-132 | the imperative award leaves exactly the specified ledger, total and level, for some multiplier the query may return |
| GamificationWorker.Worker.EvaluateBadges | app/services/gamification/badges.py:57-94 | the loop grants exactly the badges of the specification, in table order |
| GamificationWorker.Worker.RunQueuedTask | app/tasks/gamification.py:31-68 | taking any queued task is one step of the queue machine, follow-up tasks included |
| GamificationWorker.Worker.Drain | app/tasks/gamification.py:43-68 | running tasks in an arbitrary order ends with an empty queue, a sound state, and nothing revoked |
| Streaks.StreakTable.UpdateStreak | app/services/gamification/streaks.py:16-67 | the in-place update equals the specified visit for new users and for rows that hold a date, and raises for rows that hold a datetime |
| Streaks.MeetsDocsIff | app/services/gamification/streaks.py:33-38 | the service does what it is documented to do exactly for rows that do not hold a datetime |
| Streaks.SecondSessionFails | app/models/gamification.py:131 | so it fails for every user that another session has served |
| Streaks.StreakAccounting | app/services/gamification/streaks.py:33-60 | last day minus run start is (current - 1) plus shields spent in the run; shields left plus shields ever spent is the initial number |
| Streaks.LongestIsMaximum | app/services/gamification/streaks.py:57-58 | `longest` is the maximum of every current value of the history |
| Streaks.RepeatedDayIsIdle | app/services/gamification/streaks.py:34-36 | a second activity on the same day changes nothing |
| Streaks.VisitReports | app/services/gamification/streaks.py:38-67 | a visit reports the row it leaves; without a last day it spends a shield if there is one and starts over otherwise |
| Streaks.SurvivesIffShieldsCover | app/services/gamification/streaks.py:38-55 | a streak is never reset exactly if no two days in a row are skipped and the shields cover every skipped day |
| QuizBattle.ScoreCountsCorrectAnswers | app/services/quiz.py:45-51 | the score is the number of questions whose given index is the correct one |
| QuizBattle.CalculateScore | app/services/quiz.py:45-51 | the counting loop computes that score |
| QuizBattle.PerfectScore | app/services/quiz.py:16-51 | a new battle has the five questions with four choices each, and a submit scores 5 exactly with the indices of Paris, 56, Marte, 1500 and Pacífico |
| QuizBattle.OpenForOneDay | app/services/quiz.py:69-94 | a battle is created exactly for another user of the tenant as opponent; from then on a submit is accepted exactly from its two participants and until 86,400,000,000 microseconds later, and expires it afterwards |
| QuizBattle.SubmitErrors | app/services/quiz.py:161-183 | when each error of a submit occurs, by the columns, and that it is accepted otherwise with its score |
| QuizBattle.LookingExpires | app/services/quiz.py:118-127 | only participants are shown a battle; it is expired exactly if it was open and past its deadline |
| QuizBattleService.BattleService.MaybeExpireBattle | app/services/quiz.py:60-66 | only an overdue pending or active battle changes, and the result tells whether it did; an expired one answers no |
| QuizBattleService.BattleService.CreateBattle | app/services/quiz.py:69-94 | creating equals its specification, errors included |
| QuizBattleService.BattleService.ListBattles | app/services/quiz.py:97-115 | the battles of a participant, each once, by creation time from the newest down, with exactly the open ones past their deadline expired |
| QuizBattleService.BattleService.GetBattle | app/services/quiz.py:118-158 | reading equals its specification, with the answers found by scanning the rows |
| QuizBattleService.BattleService.SubmitAnswer | app/services/quiz.py:161-245 | submitting equals its specification: errors in their order, answer, status, winner and dispatch |
| QuizBattleService.BattleService.Handle | app/services/quiz.py:69-245 | every handler call keeps the battle invariant |
| QuizBattle.StepKeepsValid | app/services/quiz.py:161-245 | pending means 0 answers, active 1, expired at most 1, completed exactly both; the winner is the strictly higher scorer or none; one prize per won battle |
| QuizBattle.BattlesStayValid | app/services/quiz.py:60-245 | over every run of create, list, get and submit |
| QuizBattle.WinnerHasMoreCorrect | app/services/quiz.py:207-222 | in every reachable state the winner of a completed battle has more questions right than the other participant; without a winner both have as many |
| QuizBattle.CompletionDispatches | app/services/quiz.py:223-245 | a request dispatches one award task exactly if it completes a battle that has a winner, for that winner and with the winner's company in the tenant |
| QuizBattle.StatusMoves | app/services/quiz.py:60-66 | the only status changes are pending to active or expired, active to expired or completed, expired to completed |
| QuizBattle.CompletedIsFinal | app/services/quiz.py:177-180 | after completion record, answers and prizes never change again, in any run |
| QuizBattle.ExpiredLeftIff | app/services/quiz.py:60-66 | an expired battle is completed exactly by the submit of a participant who has not answered while the other one has |
| QuizBattle.ExpiredBattleCompletes | app/services/quiz.py:60-66 | and that does happen: expired is not final |
| QuizBattle.ShownAnswersAreTheOnes | app/services/quiz.py:127-158 | in every reachable state each participant is shown the one answer there is |
| QuizBattle.SolutionsHiddenUntilCompleted | app/services/quiz.py:142-144 | completed battles are shown with their correct indices, all others without, and everything else of a question always |
| QuizBattle.PrizePaysNothing | app/models/gamification.py:20-30 | the dispatched action is unknown to the ledger: running the award of a battle changes no experience |
| QuizRace.RaceKeepsInv | app/services/quiz.py:161-245 | every interleaving of the loads, commits, reads and decisions of two submits keeps the race invariant |
| QuizRace.StatusNeverFallsBack | app/services/quiz.py:199-231 | at no point of any interleaving does the stored status go backwards |
| QuizRace.EveryInterleavingCompletes | app/services/quiz.py:199-245 | when both submits finish the battle is completed with the winner the scores determine, with one or two prizes if there is a winner and none otherwise |
| QuizRace.PaidOnceIff | app/services/quiz.py:207-245 | the prize is dispatched exactly once if and only if one handler read the answers before the other committed its own |
| QuizRace.PrizeCanBePaidTwice | app/services/quiz.py:207-245 | otherwise it is dispatched twice |
| QuizRace.RaceRefinesHandlers | app/services/quiz.py:161-245 | whatever the interleaving, the battle record is the one two whole handler calls leave, in either order |
| QuizExpiryRace.EndsExpiredIff | app/services/quiz.py:107-127 | a last submit against readers that commit `expired` from their copy: the decision always stands, but the battle ends expired exactly if some reader that loaded it after the deadline and before the decision commits after it |
| QuizExpiryRace.CompletedCanExpire | app/services/quiz.py:107-127 | and that can happen to every battle |
| QuizExpiryRace.StuckForEver | app/services/quiz.py:174-183 | such a battle stays expired over every later run, because both participants have answered |
| QuizExpiryRace.FirstEndsExpiredIff | app/services/quiz.py:97-127 | the first answer of a battle against the same readers: it is kept, and the battle is active, or expired exactly if a reader that held an overdue copy commits after the answer |
| QuizExpiryRace.RevivedIff | app/services/quiz.py:196-199 | an expired battle becomes active again exactly when a first answer loaded in time is committed over a committed expiry |
| QuizExpiryRace.ExpiredCanRevive | app/services/quiz.py:196-199 | and that can happen to every pending battle |
| Cursor.FloatError | app/services/webhook.py:71-74 | rounding to binary64 errs by at most half the spacing (section 4.3.1 of IEEE 754-2019) |
| Cursor.FloatIsNearestEven | app/services/webhook.py:46 | of the numbers with 53 significant bits it gives the nearest, and the even one of two equally near, down to 2^-1022 |
| Cursor.TimestampRoundTrip | app/services/webhook.py:46-51 | every microsecond from the epoch to 2^33 seconds survives the trip through a binary64 timestamp |
| Cursor.BoundIsSharp | app/services/webhook.py:46-51 | the first microsecond after 2^33 seconds does not |
| Cursor.UuidTextShape | app/services/webhook.py:48-49 | the text of a UUID is 36 characters of lower-case hexadecimal with dashes at 8, 13, 18 and 23 |
| Cursor.UuidReadsInAnyCase | app/services/webhook.py:49 | a UUID is read from its text in upper or lower case |
| Cursor.UuidRoundTrip | app/services/webhook.py:48-49 | the text of a UUID reads back and has no colon (section 3 of RFC 4122) |
| Cursor.SomeCodecIsFaithful | app/services/webhook.py:73-74 | texts of timestamps that read back and have no colon do exist |
| Cursor.CursorRoundTrip | app/services/webhook.py:71-74 | the cursor of a row decodes to that row's key |
| Cursor.DecodeIff | app/services/webhook.py:44-51 | a cursor is accepted exactly if its first two fields read as a time between the years 1 and 9999 and as a UUID |
| WebhookLogs.ListWebhookLogs | app/services/webhook.py:34-91 | the query built condition by condition, one row past the page, is the specified page, invalid cursors included |
| WebhookLogs.PageIsExact | app/services/webhook.py:34-75 | column by column: a page holds rows of the tenant that meet every filter sent and lie below the cursor in (received_at, id), newest first; it leaves one out only when full and only older ones, and has the cursor of its last row exactly if it does |
| WebhookLogs.KeyWalkDescends | app/services/webhook.py:62-64 | whatever happens to the table between requests, the rows delivered strictly descend in (received_at, id) |
| WebhookLogs.CursorsAreKeys | app/services/webhook.py:44-74 | following cursor strings is cutting by keys |
| WebhookLogs.WalkIsExactlyOnce | app/services/webhook.py:34-74 | while rows come and go and all their columns but time and id change between requests, each log that is there at every request is delivered exactly once, as it was when its page was cut |
| WebhookLogs.StaticWalkIsPartition | app/services/webhook.py:34-74 | on a table at rest the pages of a finished walk concatenate to the filtered table in descending order, for every limit of at least 1 |
| WebhookLogs.StaticWalkFinishes | app/services/webhook.py:34-74 | and such a walk ends |
| WebhookWorker.Worker.ProcessWebhook | app/tasks/webhooks.py:106-203 | one execution, stopped after any of its commits, its email taken by the queue or refused, leaves exactly the specified tables |
| WebhookWorker.Worker.UpsertEnrollment | app/tasks/webhooks.py:162-203 | withdraws, reactivates, creates or leaves the enrollment, and names the email that follows |
| WebhookWorker.Worker.ProcessWebhookTask | app/tasks/webhooks.py:84-103 | the webhook task makes at most four executions, stops at the first that completes, with its email or without, and leaves the tables of those executions with at most one new email |
| WebhookWorker.TaskIsTries | app/tasks/webhooks.py:84-103 | its users, enrollments and emails are those of the bare executions, so the laws below hold of the webhook task |
| WebhookWorker.OneTaskOneEmail | app/tasks/webhooks.py:34-51 | an execution that raises queues no email: of any event, one task queues at most the email of its last execution |
| WebhookWorker.LogRowIsHistory | app/tasks/webhooks.py:84-127 | `attempts` grows by one for each execution that marks the log and one more for each error logged; `processed` says that some execution got past the first commit; the error is that of the last failure |
| WebhookEnrollment.ApplyMeans | app/tasks/webhooks.py:162-203 | a withdrawal changes an existing enrollment only; anything else makes exactly one enrollment active; others are untouched |
| WebhookEnrollment.FindProductFinds | app/tasks/webhooks.py:129-143 | the product found is the first of the event's tenant whose id at the event's gateway is the event's product id; none is found only if there is none or a field is missing |
| WebhookEnrollment.BuyerHasAccount | app/tasks/webhooks.py:145-160 | after the user commit the buyer has the account there was, or a new one named by the event or by what stands before the `@` |
| WebhookEnrollment.MailSays | app/tasks/webhooks.py:18-51 | which email an execution queues, to whom and about what, by the event and the status the buyer had |
| WebhookEnrollment.CrashRecovery | app/tasks/webhooks.py:122-203 | however often the webhook task dies after any of its commits, once one execution completes users and enrollments are those of a single uninterrupted one, up to the generated id |
| WebhookEnrollment.ActiveMailAtMostOnce | app/tasks/webhooks.py:172-203 | an active event queues its email at most once over all executions and deliveries; exactly once if the enrollment was not active before and the first execution to commit it got to queue and was not refused |
| WebhookEnrollment.WithdrawalMailEveryTime | app/tasks/webhooks.py:162-171 | over all executions and deliveries a withdrawal queues its email at every execution that gets there and is not refused, so a second delivery repeats it |
| WebhookHistory.ProcessMovesStatus | app/tasks/webhooks.py:132-203 | one event changes the status of its own buyer for a product that has its product id at its gateway, and of nobody else |
| WebhookHistory.ConcernsIff | app/tasks/webhooks.py:129-143 | where gateway ids are unique, those are exactly the buyer and the product the event names |
| WebhookHistory.RunKeepsConsistent | app/tasks/webhooks.py:145-203 | there is never a second enrollment for one user and product |
| WebhookHistory.StatusIsLastEvent | app/tasks/webhooks.py:162-203 | over any events in any order there is no enrollment until an active event has occurred, and then it is refunded or cancelled if that was the last event, and active otherwise |
| WebhookHistory.RepeatIsIdle | app/tasks/webhooks.py:145-203 | delivering the latest event again changes neither users nor enrollments |
| SystemEmail.MatchFindsTheToken | app/services/system_email.py:63 | a string starts with at most one token, and the greedy match finds it |
| SystemEmail.PrintOfScan | app/services/system_email.py:63 | concatenating the literal and token segments gives back the template |
| SystemEmail.ScanOfPrint | app/services/system_email.py:63 | scanning a printed segment sequence gives it back exactly if it is canonical |
| SystemEmail.SearchSplits | app/services/system_email.py:486 | a search cuts the template into what comes before the token it finds, the token, and what comes after |
| SystemEmail.SearchIsLeftmost | app/services/system_email.py:486 | no token starts before the one a search finds |
| SystemEmail.SubIsSegmentwise | app/services/system_email.py:480-486 | searching and replacing amounts to substituting segment by segment |
| SystemEmail.TokenIsReplacedIff | app/services/system_email.py:63 | what stands between double braces, white space aside, is replaced exactly if it is a name of ASCII letters, digits and underscores |
| SystemEmail.ValuesAreNotRescanned | app/services/system_email.py:480-486 | one pass: a value lands in the output as it is, `{{x}}` included, and its neighbours render as if it were not there |
| SystemEmail.EscapeIsCharacterwise | app/services/system_email.py:484 | five replacements over the whole text come to one reference per character |
| SystemEmail.EscapeRoundTrip | app/services/system_email.py:484 | every value is read back from its escaped text |
| SystemEmail.MarkupIsTheTemplates | app/services/system_email.py:464-486 | the sequence of `<`, `>`, `"` and `'` in the rendered HTML is the template's own, for every context |
| SystemEmail.HtmlIsEscapedSubjectIsNot | app/services/system_email.py:473-477 | the HTML body of an email is escaped, its subject is not |
| SystemEmail.MissingAreTheAbsent | app/services/system_email.py:469-471 | the error names exactly the required variables that are absent or None |
| SystemEmail.MissingKeepsOrder | app/services/system_email.py:469 | in the order of the template |
| SystemEmail.RenderedIff | app/services/system_email.py:469-477 | an email is rendered exactly if no required variable is absent or None, and otherwise the error names exactly those |
| SystemEmail.RequiredTokenIsBlankIff | app/services/system_email.py:481-484 | in a rendered email a token of a required variable renders to nothing exactly if its value is the empty text |
| Text.StripCuts | app/services/system_email.py:486 | stripping removes white space from both ends and leaves none there |
| Text.SpacesAre | app/services/system_email.py:486 | white space by code point |
| Text.IntTextSign | app/services/course.py:93 | the text of a number of days has a sign exactly if it is negative |
| CourseSlugs.CandidatesDiffer | app/services/admin_course.py:43 | the candidates base, base-1, base-2, ... are pairwise different |
| CourseSlugs.SomeCandidateIsFree | app/services/admin_course.py:35-45 | for every finite set of taken slugs one of the first |taken| + 1 candidates is free |
| CourseSlugs.CourseTable.UniqueSlug | app/services/admin_course.py:35-45 | the search ends with the first free candidate, after at most |taken| + 1 probes |
| CourseSlugs.CourseTable.CreateCourse | app/services/admin_course.py:48-61 | a new course takes the first free of `stem`, `stem-1`, `stem-2` and so on, keeps slugs unique, and fails only if that is longer than 255 characters |
| CourseSlugs.CourseTable.UpdateSlug | app/services/admin_course.py:82-92 | updating keeps slugs unique; a taken slug is refused and changes nothing |
| CourseSlugs.SameTitleNumbersUp | app/services/admin_course.py:35-45 | courses of one title are numbered in the order of their creation |
| CourseSlugs.SlugifyGivesSlugs | app/services/admin_course.py:28-32 | every slug is made of letters, digits and single dashes and fits the column |
| CourseSlugs.SlugSpellsTheTitle | app/services/admin_course.py:28-32 | up to the cut it spells the letters and digits of the lower-case title |
| CourseSlugs.GapBecomesDash | app/services/admin_course.py:28-32 | between two letters of the title that follow each other the slug has one dash if white space, an underscore or a dash is between them, and nothing otherwise |
| CourseSlugs.WordsHaveNoOuterDash | app/services/admin_course.py:28-32 | the slug of a title of words and white space begins and ends with a letter or digit |
| CourseSlugs.SlugsAreFixed | app/services/admin_course.py:28-32 | the lower-case strings that slugifying leaves alone are exactly the slugs |
| CourseSlugs.SlugifyIsIdempotent | app/services/admin_course.py:28-32 | slugifying twice is slugifying once, where lower-casing leaves the slug alone |
| LessonOrder.Admin.ReorderLessons | app/services/admin_course.py:121-134 | each listed lesson of the module and tenant ends with the index of its last occurrence, every other column and every other lesson is untouched; the count is that of the request |
| LessonOrder.CoursePages.GetCourseDetail | app/services/course.py:120-168 | the errors occur exactly in their cases; the page lists the visible modules by index and, under each, its visible lessons by index |
| LessonOrder.DetailInColumns | app/services/course.py:134-147 | column by column: exactly the modules of tenant and course that are not hidden, by index, each with exactly its lessons that are not hidden, by index |
| Ordering.Sorted | app/services/course.py:130-147 | every row once, by index |
| LessonOrder.ReorderThenList | app/services/admin_course.py:121-134 | when the request names every visible lesson, one listing is possible: the request, at its last occurrences |
| LessonOrder.ShownOnce | app/services/admin_course.py:127-132 | for a request without duplicates that is the request without the lessons that are not visible |
| LessonOrder.NamedLessonsInOrder | app/services/course.py:143-147 | for any request the lessons it names come out in the order of their last occurrences |
| LessonOrder.OtherModulesUntouched | app/services/admin_course.py:128-132 | the listings of all other modules and tenants stay what they were |
| LessonOrder.CoursePageFollowsReorder | app/services/course.py:134-157 | the course page after a reorder shows the request for that module and an unchanged choice for every other |
| CourseAccess.AgreeIff | app/services/drip.py:20-75 | for an enrolled user both implementations fail together, decide alike and give the same reason for a locked lesson, exactly unless the prerequisite id is no text while its `str()` is a UUID; then the page fails and the service decides by progress |
| CourseAccess.ImplementationsDiffer | app/services/course.py:198-209 | they do differ, wherever the id is stored as a number of 32 digits |
| CourseAccess.FirstFollowsGate | app/services/course.py:192-209 | the lesson page decides by the lesson's gate: open, until a moment, after the lesson that the id names as a text, or broken |
| CourseAccess.SecondFollowsGate | app/services/drip.py:20-75 | so does the drip service, for the lesson that the id's `str()` names, and it announces the moment exactly while the lesson waits for it |
| CourseAccess.PageOpensWhen | app/services/course.py:67-95 | in numbers: on the lesson page a time gate opens at its date, or 86,400,000,000 microseconds a day after the enrollment, in UTC where there is no zone |
| CourseAccess.ServiceOpensWhen | app/services/drip.py:26-56 | in the drip service at the same moment, which it announces |
| CourseAccess.PrerequisiteOpensIff | app/services/course.py:197-209 | from an empty table, after any reports of anybody: a prerequisite lesson is open to an enrolled user, in both implementations, exactly if some report of that user said the lesson it names was completed |
| CourseAccess.UnnamedPrerequisite | app/services/drip.py:58-67 | one that names no lesson is open; one whose text is no UUID makes both fail |
| CourseAccess.UnlocksAtIsExact | app/services/drip.py:47-59 | the announced unlock time is the first moment at which the lesson is accessible |
| CourseAccess.PreviewSkipsTimeGates | app/services/course.py:188-209 | without an enrollment only the prerequisite gate is closed |
| CourseAccess.PickMattersIff | app/services/course.py:48-64 | which of several enrollments the query returns matters only for a days-after-enrollment lesson at a time between their two unlock times |
| CourseAccess.AccessIsForever | app/services/course.py:255-268 | once accessible, by either implementation, a lesson stays accessible, whatever time passes and whatever progress anybody reports |
| CourseAccess.ProgressIsHistory | app/services/course.py:255-268 | every progress row holds the longest watch time, the last report and the first completion of its whole history |
| CourseAccess.CourseService.GetLessonDetail | app/services/course.py:171-216 | the errors occur exactly in their cases, and the video plays exactly when the lesson has one and its gate is open |
| CourseAccess.CourseService.UpdateLessonProgress | app/services/course.py:235-272 | the update in place is the specified report, or nothing for an unknown lesson |
| TenantService.Platform.ResolveTenant | app/core/middleware.py:38-72 | the middleware answers from a live entry or from the table, and stores what it found for 300 seconds |
| TenantService.Platform.GetCurrentTenant | app/core/dependencies.py:24-61 | the dependency answers the same and leaves the same cache; what the middleware resolved comes first |
| TenantService.Platform.InvalidateTenantCache | app/routers/admin/tenant.py:29-39 | exactly the keys of the tenant's non-empty hosts are deleted |
| TenantService.Platform.UpdateBranding | app/routers/admin/tenant.py:53-67 | a branding update is the specified write and clears the cache |
| TenantService.Platform.UpdateSettings | app/routers/admin/tenant.py:80-93 | a settings update is the specified write and clears the cache; a null name fails |
| TenantService.Platform.CreateTenant | app/services/superadmin.py:60-73 | creating is the specified insert, or nothing when a constraint refuses it |
| TenantService.Platform.UpdateTenant | app/services/superadmin.py:94-105 | the superadmin update is the specified write and leaves the cache alone |
| TenantCache.LookupIff | app/core/middleware.py:52-70 | the tenant found is the only one that has the host as custom domain or as subdomain, field by field; none is found exactly if none has it |
| TenantCache.CreateIff | app/services/superadmin.py:60-73 | a tenant is inserted exactly if slugs and custom domains stay unique and its plan is one of the four |
| TenantCache.SuperUpdateIff | app/services/superadmin.py:94-105 | a superadmin update writes what was sent, clears what was sent as null and keeps the rest, exactly if the constraints still hold |
| TenantCache.AdminWrites | app/routers/admin/tenant.py:29-93 | an admin write changes the fields sent of its own tenant, and deletes exactly the entries of that tenant's non-empty hosts |
| TenantCache.TableStaysConstrained | app/models/tenant.py:10-17 | slugs and custom domains stay unique over any run |
| TenantCache.AdminRunsAnswerCurrently | app/routers/admin/tenant.py:53-93 | over any run without superadmin updates every entry of a host that is not empty is the table's row, and readers answer as if there were no cache |
| TenantCache.EmptyHostGoesStale | app/routers/admin/tenant.py:33-37 | for the empty host that fails: its entry outlives an admin write |
| TenantCache.AnswersAreRecent | app/core/middleware.py:38-72 | with superadmin updates too, every answer is what the table said at some moment of the run less than 300 seconds ago |
| TenantCache.QuietHostsAreCurrent | app/core/middleware.py:38-72 | a host whose tenant has not changed for 300 seconds is answered currently |
| TenantCache.UnknownIsNeverCached | app/core/middleware.py:59-70 | a host that no tenant has had is never in the cache, whoever asks for it |
| TenantCache.StaleUntilExpiry | app/services/superadmin.py:94-105 | after a superadmin rename the old name is answered until the entry expires, and not longer |
| TenantRace.ReadIsLoadThenPut | app/core/middleware.py:52-70 | a whole read is a load from the table with its put into the cache right after it |
| TenantRace.WriteIsCommitThenDelete | app/routers/admin/tenant.py:53-67 | a whole write is a commit with its deletion of keys right after it |
| TenantRace.EntryOrigin | app/core/middleware.py:52-70 | when loads and puts of any readers interleave with commits and deletions of any writers, every entry has been put by a reader that had loaded it, 300 seconds before it expires |
| TenantRace.AnswersAreRecent | app/core/middleware.py:38-72 | every answer is what the table said less than 300 seconds and the longest delay from load to put ago, superadmin updates included |
| TenantRace.LateStoreAgreesIff | app/core/middleware.py:52-70 | without superadmin updates, the entry of a host that is not empty and whose tenant has no deletion pending agrees with the table exactly if the settings requests committed between its load and its put have left what was loaded as it was |
| TenantRace.EntryAgreesIff | app/routers/admin/tenant.py:33-37 | the entry of any host at any moment, the empty host and pending deletions included, exactly if the settings requests committed since its load have |
| TenantRace.LateStoreGoesStale | app/core/middleware.py:52-70 | a reader that loads before a rename and puts after its deletion of keys leaves the old name in the cache |
| TenantRace.StaleUntilDeletion | app/routers/admin/tenant.py:84-93 | between the commit of a rename and its deletion of keys the old name is answered, and after it the new one |

## Left out

- StreakAccounting: like the other laws of streaks, it is about the documented visits, on day numbers; `MeetsDocsIff` says for which rows the code makes them. The task that calls the service and its retries are not modelled.
- TimestampRoundTrip: instants before the epoch and from 2^33 seconds on are not covered; the second bound is where it stops being true.
- CursorRoundTrip: the runtime's `repr` and `float` are a parameter assumed to be inverse and free of colons, as some are; UUID texts in braces or with a `urn:` prefix, and the `Z` or offset forms of a date filter, are not modelled.
- SlugifyGivesSlugs: `str.lower` and the letters of `\w` are parameters, so that the lemma covers all of Unicode; which characters they are is not modelled.
- CreateCourse: two requests at the same time can find the same free slug; the second one then fails at the unique constraint.
- AgreeIff: the date and the number of days in a drip value are taken as already read, or as unreadable, which both implementations do alike; overflow of a date is not modelled. What `uuid.UUID` makes of a text is a parameter.
- RenderSystemEmail: context values are taken as already turned into text; the table of built-in templates is static data.
- RaceIsSequential: a grant is written when the next badge is looked at and waits there for another task's uncommitted one, so that a collision may fail the task before its commit, and two tasks may deadlock; the model writes all grants at the commit. Which rules an execution finds to hold is arbitrary.
- WriteIsCommitThenDelete: the keys deleted are those of the row at the deletion; a superadmin's update between the writer's last look at the row and the deletion is not modelled.
- EveryInterleavingCompletes: each participant submits once and before the deadline; the answers table would accept a second answer of the same participant that overlaps the first.
- StatusIsLastEvent: several products with one gateway id make the code raise; the model takes the first. Deliveries come one after the other; of two that create the same user or enrollment at the same time, the second insert fails and is retried. A replay passes no product id, so it changes no enrollment.
- Errors inside the gamification tasks and their retries, but for the collisions of `AwardRace` and `BadgeRace`. An action outside the enumeration fails and changes nothing.
- The company goal task, leaderboards and statistics. `Badge.xp_reward`, which nothing pays.
- The width of integer columns, and the row ids of events, answers and enrollments.
- Duplicate rows on which `scalar_one_or_none` raises, where not stated otherwise.
- The menus of new tenants, and the start-up case in which there is no database session.
- Bulk import of lessons. Its new lessons need not land after the existing ones.
- Routing, request validation, authentication, signatures, video, search, AI, object storage, migrations and the remaining record keeping.
