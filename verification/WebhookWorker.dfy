/** The webhook task over its tables, with the retries of its queue. */
module WebhookWorker {
  import opened Wrappers
  import opened WebhookEnrollment

  /** The delays before the retries, in seconds. */
  const BACKOFF_DELAYS: seq<int> := [60, 300, 1800]

  /** How one execution goes: how far it gets before it raises, if it does, and whether the error can be logged. */
  datatype Execution = Execution(attempt: Try, canLogError: bool, message: string)

  function LogError(logs: map<Uuid, LogRow>, log: Uuid, e: Execution): map<Uuid, LogRow> {
    if e.canLogError && log in logs
    then logs[log := logs[log].(error := Some(e.message), attempts := logs[log].attempts + 1)]
    else logs
  }

  /** The log table after one execution: an execution that raises after marking the log counts twice. */
  function LogsAfter(logs: map<Uuid, LogRow>, log: Uuid, e: Execution): map<Uuid, LogRow> {
    var marked := if e.attempt.stop < 1 then logs else MarkLog(logs, log);
    if e.attempt.stop >= COMPLETE then marked else LogError(marked, log, e)
  }

  /** The tables after one execution of the webhook task. */
  function Executed(tables: Tables, ev: Event, e: Execution): Tables {
    Attempt(tables, ev, e.attempt).(logs := LogsAfter(tables.logs, ev.log, e))
  }

  /** The tables after the first `n` executions of a plan. */
  function TaskRun(tables: Tables, ev: Event, plan: seq<Execution>, n: nat): Tables
    requires n <= |plan|
  {
    if n == 0 then tables else Executed(TaskRun(tables, ev, plan, n - 1), ev, plan[n - 1])
  }

  function Tries(plan: seq<Execution>, n: nat): seq<Try>
    requires n <= |plan|
  {
    if n == 0 then [] else Tries(plan, n - 1) + [plan[n - 1].attempt]
  }

  class Worker {
    var products: seq<Product>
    var logs: map<Uuid, LogRow>
    var users: seq<User>
    var enrollments: seq<Enrollment>
    var emails: seq<Email>

    ghost function State(): Tables
      reads this
    {
      Tables(products, logs, Rows(users, enrollments), emails)
    }

    /** One execution, which stops after the stages `t` says. */
    method ProcessWebhook(ev: Event, t: Try)
      modifies this`logs, this`users, this`enrollments, this`emails
      ensures State() == Attempt(old(State()), ev, t)
    {
      assert emails + [] == emails;
      if t.stop < 1 { return; }
      if ev.log in logs {
        logs := logs[ev.log := logs[ev.log].(processed := true, attempts := logs[ev.log].attempts + 1)];
      }
      if !Present(ev.productId) || !Present(ev.buyerEmail) { return; }
      var product := FindProduct(products, ev);
      if product == None || t.stop < 2 { return; }

      var user := FindOrCreateUser(ev, ev.buyerEmail.value, t.newId);
      if t.stop < 3 { return; }

      var template := UpsertEnrollment(EnrollmentKey(ev.tenant, user.id, product.value.id), ev.status);
      if t.stop < COMPLETE || template == None { return; }
      if !t.queues { return; }
      emails := emails + [Email(user.email, template.value, user.name, product.value.title)];
    }

    /** The buyer, with a new account if there is none. */
    method FindOrCreateUser(ev: Event, email: string, newId: Uuid) returns (user: User)
      requires ev.buyerEmail == Some(email)
      modifies this`users
      ensures users == EnsureUser(old(users), ev, newId)
      ensures FindUser(users, ev.tenant, email) == Some(user)
    {
      EnsureUserTwice(users, ev, newId, newId);
      if FindUser(users, ev.tenant, email) == None {
        users := users + [User(ev.tenant, newId, email,
                               if Present(ev.buyerName) then ev.buyerName.value else LocalPart(email))];
      }
      return FindUser(users, ev.tenant, email).value;
    }

    /** Withdraws, reactivates or creates the enrollment; returns the template of the email to queue. */
    method UpsertEnrollment(key: EnrollmentKey, status: string) returns (template: Option<string>)
      modifies this`enrollments
      ensures enrollments == Apply(old(enrollments), key, status)
      ensures template == Template(old(enrollments), key, status)
    {
      if status == "refunded" || status == "cancelled" {
        enrollments := SetStatus(enrollments, key, status);
        return Some(if status == "refunded" then "enrollment.access_refunded" else "enrollment.access_cancelled");
      }
      var existing := FindEnrollment(enrollments, key);
      if existing.Some? {
        if existing.value.status != "active" {
          enrollments := SetStatus(enrollments, key, "active");
          return Some("enrollment.access_reactivated");
        }
        return None;
      }
      enrollments := enrollments + [Enrollment(key, "active", "webhook")];
      return Some("enrollment.access_granted");
    }

    /** One execution of the webhook task: the work, then the error in the log if it raised. */
    method RunOnce(ev: Event, e: Execution) returns (done: bool)
      modifies this`logs, this`users, this`enrollments, this`emails
      ensures done <==> e.attempt.stop >= COMPLETE
      ensures State() == Executed(old(State()), ev, e)
    {
      ghost var before := State();
      ProcessWebhook(ev, e.attempt);
      assert State() == Attempt(before, ev, e.attempt);
      done := e.attempt.stop >= COMPLETE;
      if !done { logs := LogError(logs, ev.log, e); }
    }

    /** The task with its retries: at most four executions, one after the other until one completes. */
    method ProcessWebhookTask(ev: Event, testMode: bool, plan: seq<Execution>)
      returns (executions: nat, done: bool)
      requires |plan| == 4
      modifies this`logs, this`users, this`enrollments, this`emails
      ensures executions <= |plan|
      ensures testMode ==> State() == old(State()) && executions == 0
      ensures !testMode ==> 1 <= executions && (done || executions == |plan|)
      ensures !testMode ==> (done <==> plan[executions - 1].attempt.stop >= COMPLETE)
      ensures forall k :: 0 <= k < executions - 1 ==> plan[k].attempt.stop < COMPLETE
      ensures State() == TaskRun(old(State()), ev, plan, executions)
      ensures |emails| <= |old(emails)| + 1
    {
      executions, done := 0, false;
      if testMode { return; }
      ghost var before := State();
      while !done && executions <= |BACKOFF_DELAYS|
        invariant 0 <= executions <= |plan| && (executions == 0 ==> !done)
        invariant executions > 0 ==> (done <==> plan[executions - 1].attempt.stop >= COMPLETE)
        invariant forall k :: 0 <= k < executions - 1 ==> plan[k].attempt.stop < COMPLETE
        invariant State() == TaskRun(before, ev, plan, executions)
      {
        done := RunOnce(ev, plan[executions]);
        executions := executions + 1;
      }
      OneTaskOneEmail(before, ev, plan, executions);
    }
  }

  /** Users, enrollments and emails of a task are those of the bare executions, so that crash recovery and
      the email laws apply to it; only the log differs, by the errors written into it. */
  lemma {:induction false} TaskIsTries(tables: Tables, ev: Event, plan: seq<Execution>, n: nat)
    requires n <= |plan|
    ensures SameButLogs(TaskRun(tables, ev, plan, n), RunTries(tables, ev, Tries(plan, n)))
    ensures TaskRun(tables, ev, plan, n).products == tables.products
  {
    var k := 0;
    while k < n
      invariant k <= n
      invariant SameButLogs(TaskRun(tables, ev, plan, k), RunTries(tables, ev, Tries(plan, k)))
      invariant TaskRun(tables, ev, plan, k).products == tables.products
    {
      k := k + 1;
      TaskStep(tables, ev, plan, k);
    }
  }

  lemma TaskStep(tables: Tables, ev: Event, plan: seq<Execution>, n: nat)
    requires 0 < n <= |plan|
    requires SameButLogs(TaskRun(tables, ev, plan, n - 1), RunTries(tables, ev, Tries(plan, n - 1)))
    ensures SameButLogs(TaskRun(tables, ev, plan, n), RunTries(tables, ev, Tries(plan, n)))
    ensures TaskRun(tables, ev, plan, n).products == TaskRun(tables, ev, plan, n - 1).products
  {
    var before, e := Tries(plan, n - 1), plan[n - 1];
    RunTriesAppend(tables, ev, before, e.attempt);
    ExecutedIsAttempt(TaskRun(tables, ev, plan, n - 1), RunTries(tables, ev, before), ev, e);
  }

  predicate SameButLogs(a: Tables, b: Tables) {
    a.rows == b.rows && a.emails == b.emails && a.products == b.products
  }

  lemma RunTriesAppend(tables: Tables, ev: Event, tries: seq<Try>, last: Try)
    ensures RunTries(tables, ev, tries + [last]) == Attempt(RunTries(tables, ev, tries), ev, last)
  {
    assert (tries + [last])[..|tries|] == tries;
  }

  lemma ExecutedIsAttempt(task: Tables, bare: Tables, ev: Event, e: Execution)
    requires SameButLogs(task, bare)
    ensures SameButLogs(Executed(task, ev, e), Attempt(bare, ev, e.attempt))
    ensures Executed(task, ev, e).products == task.products
  {}

  /** An execution that raises queues no email, so that one task queues at most that of its last execution, whatever
      the event: only a second delivery can repeat an email. */
  lemma OneTaskOneEmail(tables: Tables, ev: Event, plan: seq<Execution>, n: nat)
    requires 0 < n <= |plan| && forall k :: 0 <= k < n - 1 ==> plan[k].attempt.stop < COMPLETE
    ensures TaskRun(tables, ev, plan, n).emails ==
            tables.emails + Mail(tables.products, TaskRun(tables, ev, plan, n - 1).rows, ev, plan[n - 1].attempt)
    ensures |TaskRun(tables, ev, plan, n).emails| <= |tables.emails| + 1
  {
    FailuresMailNothing(tables, ev, plan, n - 1);
  }

  lemma {:induction false} FailuresMailNothing(tables: Tables, ev: Event, plan: seq<Execution>, n: nat)
    requires n <= |plan| && forall k :: 0 <= k < n ==> plan[k].attempt.stop < COMPLETE
    ensures TaskRun(tables, ev, plan, n).emails == tables.emails
    ensures TaskRun(tables, ev, plan, n).products == tables.products
  {
    if n > 0 { FailuresMailNothing(tables, ev, plan, n - 1); }
  }

  /** The attempts counted in the log: one for every execution that marks it and one for every error logged. */
  function Counted(plan: seq<Execution>, n: nat): (count: nat)
    requires n <= |plan|
    ensures count <= 2 * n
  {
    if n == 0 then 0
    else
      var e := plan[n - 1];
      Counted(plan, n - 1) + (if e.attempt.stop >= 1 then 1 else 0)
      + if e.attempt.stop < COMPLETE && e.canLogError then 1 else 0
  }

  /** The message of the last execution that failed and could log its error. */
  function LastError(plan: seq<Execution>, n: nat): Option<string>
    requires n <= |plan|
  {
    if n == 0 then None
    else if plan[n - 1].attempt.stop < COMPLETE && plan[n - 1].canLogError then Some(plan[n - 1].message)
    else LastError(plan, n - 1)
  }

  /** What a webhook's log row says after its executions: an execution that marks the row and then fails counts
      twice, the error is that of the last failure, and success does not clear it. */
  lemma {:induction false} LogRowIsHistory(tables: Tables, ev: Event, plan: seq<Execution>, n: nat)
    requires n <= |plan| && ev.log in tables.logs
    ensures var was, logs := tables.logs[ev.log], TaskRun(tables, ev, plan, n).logs;
            && logs.Keys == tables.logs.Keys
            && logs[ev.log].attempts == was.attempts + Counted(plan, n)
            && logs[ev.log].error == (if LastError(plan, n).Some? then LastError(plan, n) else was.error)
            && (logs[ev.log].processed <==> was.processed || exists k :: 0 <= k < n && plan[k].attempt.stop >= 1)
  {
    if n > 0 {
      LogRowIsHistory(tables, ev, plan, n - 1);
    }
  }
}
