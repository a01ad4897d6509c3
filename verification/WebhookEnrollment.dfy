/** From a payment webhook to an enrollment: a task of several commits that may die between any two. */
module WebhookEnrollment {
  import opened Wrappers

  datatype LogRow = LogRow(processed: bool, attempts: int, error: Option<string>)

  datatype Product = Product(tenant: Uuid, id: Uuid, title: string, gatewayIds: map<string, string>)

  datatype User = User(tenant: Uuid, id: Uuid, email: string, name: string)

  datatype EnrollmentKey = EnrollmentKey(tenant: Uuid, user: Uuid, product: Uuid)

  datatype Enrollment = Enrollment(key: EnrollmentKey, status: string, enrolledBy: string)

  datatype Email = Email(to: string, template: string, userName: string, productTitle: string)

  datatype Event = Event(log: Uuid, tenant: Uuid, provider: string, productId: Option<string>,
                         buyerEmail: Option<string>, buyerName: Option<string>, status: string)

  /** The rows crash recovery is about. */
  datatype Rows = Rows(users: seq<User>, enrollments: seq<Enrollment>)

  datatype Tables = Tables(products: seq<Product>, logs: map<Uuid, LogRow>, rows: Rows, emails: seq<Email>)

  /** One execution: the id it would generate for a new user, how many of its four stages (log commit, user commit,
      enrollment commit, email) it reaches, and whether the queue takes its email; a refusal is only logged. */
  datatype Try = Try(newId: Uuid, stop: nat, queues: bool)

  const COMPLETE: nat := 4

  /******* Lookups *******/

  function Present(text: Option<string>): bool {
    text.Some? && text.value != ""
  }

  function FindProduct(products: seq<Product>, ev: Event): Option<Product> {
    if products == [] || !Present(ev.productId) || !Present(ev.buyerEmail) then None
    else
      var p := products[0];
      if p.tenant == ev.tenant && ev.provider in p.gatewayIds && p.gatewayIds[ev.provider] == ev.productId.value
      then Some(p)
      else FindProduct(products[1..], ev)
  }

  function FindUser(users: seq<User>, tenant: Uuid, email: string): Option<User> {
    if users == [] then None
    else if users[0].tenant == tenant && users[0].email == email then Some(users[0])
    else FindUser(users[1..], tenant, email)
  }

  function FindEnrollment(enrollments: seq<Enrollment>, key: EnrollmentKey): Option<Enrollment> {
    if enrollments == [] then None
    else if enrollments[0].key == key then Some(enrollments[0])
    else FindEnrollment(enrollments[1..], key)
  }

  function SetStatus(enrollments: seq<Enrollment>, key: EnrollmentKey, status: string): seq<Enrollment> {
    if enrollments == [] then []
    else
      var e := enrollments[0];
      [if e.key == key then e.(status := status) else e] + SetStatus(enrollments[1..], key, status)
  }

  function LocalPart(email: string): string {
    if email == "" || email[0] == '@' then "" else [email[0]] + LocalPart(email[1..])
  }

  /******* The stages *******/

  predicate Withdraws(status: string) {
    status == "refunded" || status == "cancelled"
  }

  function MarkLog(logs: map<Uuid, LogRow>, log: Uuid): map<Uuid, LogRow> {
    if log in logs then logs[log := logs[log].(processed := true, attempts := logs[log].attempts + 1)] else logs
  }

  function NewUser(ev: Event, id: Uuid): User
    requires ev.buyerEmail.Some?
  {
    var email := ev.buyerEmail.value;
    User(ev.tenant, id, email, if Present(ev.buyerName) then ev.buyerName.value else LocalPart(email))
  }

  function EnsureUser(users: seq<User>, ev: Event, newId: Uuid): seq<User>
    requires ev.buyerEmail.Some?
  {
    if FindUser(users, ev.tenant, ev.buyerEmail.value).Some? then users else users + [NewUser(ev, newId)]
  }

  function BuyerId(users: seq<User>, ev: Event): Uuid
    requires ev.buyerEmail.Some?
  {
    var user := FindUser(users, ev.tenant, ev.buyerEmail.value);
    if user.Some? then user.value.id else 0
  }

  function KeyFor(users: seq<User>, ev: Event, product: Uuid): EnrollmentKey
    requires ev.buyerEmail.Some?
  {
    EnrollmentKey(ev.tenant, BuyerId(users, ev), product)
  }

  /** The enrollment commit. */
  function Apply(enrollments: seq<Enrollment>, key: EnrollmentKey, status: string): seq<Enrollment> {
    if Withdraws(status) then SetStatus(enrollments, key, status)
    else
      match FindEnrollment(enrollments, key)
      case Some(existing) =>
        if existing.status != "active" then SetStatus(enrollments, key, "active") else enrollments
      case None => enrollments + [Enrollment(key, "active", "webhook")]
  }

  /** The template of the email an execution queues after the enrollment commit, by the state before it. */
  function Template(enrollments: seq<Enrollment>, key: EnrollmentKey, status: string): Option<string> {
    if status == "refunded" then Some("enrollment.access_refunded")
    else if status == "cancelled" then Some("enrollment.access_cancelled")
    else
      match FindEnrollment(enrollments, key)
      case Some(existing) => if existing.status != "active" then Some("enrollment.access_reactivated") else None
      case None => Some("enrollment.access_granted")
  }

  /** Users and enrollments after the stages an execution reached. */
  function RowsAfter(products: seq<Product>, rows: Rows, ev: Event, t: Try): Rows {
    var product := FindProduct(products, ev);
    if t.stop < 2 || product == None || !Present(ev.buyerEmail) then rows
    else
      var users := EnsureUser(rows.users, ev, t.newId);
      Rows(users,
           if t.stop < 3 then rows.enrollments
           else Apply(rows.enrollments, KeyFor(users, ev, product.value.id), ev.status))
  }

  /** The execution gets to its email, and the queue takes it. */
  predicate Mails(t: Try) {
    t.stop >= COMPLETE && t.queues
  }

  /** The emails an execution queues. */
  function Mail(products: seq<Product>, rows: Rows, ev: Event, t: Try): seq<Email> {
    var product := FindProduct(products, ev);
    if !Mails(t) || product == None || !Present(ev.buyerEmail) then []
    else
      var users := EnsureUser(rows.users, ev, t.newId);
      var user := FindUser(users, ev.tenant, ev.buyerEmail.value);
      var template := Template(rows.enrollments, KeyFor(users, ev, product.value.id), ev.status);
      if template.Some? && user.Some?
      then [Email(user.value.email, template.value, user.value.name, product.value.title)]
      else []
  }

  function Attempt(tables: Tables, ev: Event, t: Try): Tables {
    Tables(tables.products,
           if t.stop < 1 then tables.logs else MarkLog(tables.logs, ev.log),
           RowsAfter(tables.products, tables.rows, ev, t),
           tables.emails + Mail(tables.products, tables.rows, ev, t))
  }

  /******* Facts about the rows *******/

  lemma {:induction false} FindUserAppend(users: seq<User>, u: User, tenant: Uuid, email: string)
    ensures FindUser(users + [u], tenant, email) ==
            if FindUser(users, tenant, email).Some? then FindUser(users, tenant, email)
            else if u.tenant == tenant && u.email == email then Some(u) else None
  {
    if users != [] {
      FindUserAppend(users[1..], u, tenant, email);
      assert (users + [u])[1..] == users[1..] + [u];
    }
  }

  lemma {:induction false} FindUserFinds(users: seq<User>, tenant: Uuid, email: string)
    ensures var found := FindUser(users, tenant, email);
            && (found.Some? ==> found.value in users && found.value.tenant == tenant && found.value.email == email)
            && (found == None ==> forall u :: u in users ==> !(u.tenant == tenant && u.email == email))
  {
    if users != [] { FindUserFinds(users[1..], tenant, email); }
  }

  /** The product is the one the event names: of its tenant, with its product id as the id at its gateway. */
  ghost predicate Sells(p: Product, ev: Event) {
    && p.tenant == ev.tenant
    && ev.provider in p.gatewayIds
    && ev.productId == Some(p.gatewayIds[ev.provider])
  }

  /** Of an event that has both fields, the first product it names is found; of others none is. */
  lemma {:induction false} FindProductFinds(products: seq<Product>, ev: Event)
    ensures match FindProduct(products, ev)
            case Some(p) =>
              && ev.productId.Some? && ev.productId.value != "" && ev.buyerEmail.Some? && ev.buyerEmail.value != ""
              && exists k | 0 <= k < |products| ::
                   products[k] == p && Sells(p, ev) && forall j | 0 <= j < k :: !Sells(products[j], ev)
            case None =>
              || ev.productId == None || ev.productId.value == "" || ev.buyerEmail == None || ev.buyerEmail.value == ""
              || forall p <- products :: !Sells(p, ev)
  {
    if products != [] && Present(ev.productId) && Present(ev.buyerEmail) {
      FindProductFinds(products[1..], ev);
      assert forall k :: 0 < k < |products| ==> products[k] == products[1..][k - 1];
      if Sells(products[0], ev) {
        assert products[0] == FindProduct(products, ev).value;
      } else if FindProduct(products, ev).Some? {
        var p := FindProduct(products, ev).value;
        var k :| 0 <= k < |products[1..]| && products[1..][k] == p && Sells(p, ev)
                 && forall j | 0 <= j < k :: !Sells(products[1..][j], ev);
        assert products[k + 1] == p;
        forall j | 0 <= j < k + 1 ensures !Sells(products[j], ev) {
          assert j > 0 ==> products[j] == products[1..][j - 1];
        }
      }
    }
  }

  lemma {:induction false} FindEnrollmentAppend(rows: seq<Enrollment>, e: Enrollment, key: EnrollmentKey)
    ensures FindEnrollment(rows + [e], key) ==
            if FindEnrollment(rows, key).Some? then FindEnrollment(rows, key)
            else if e.key == key then Some(e) else None
  {
    if rows != [] {
      FindEnrollmentAppend(rows[1..], e, key);
      assert (rows + [e])[1..] == rows[1..] + [e];
    }
  }

  lemma {:induction false} FindEnrollmentSet(rows: seq<Enrollment>, key: EnrollmentKey, status: string,
                                             other: EnrollmentKey)
    ensures FindEnrollment(SetStatus(rows, key, status), other) ==
            if other == key && FindEnrollment(rows, other).Some?
            then Some(FindEnrollment(rows, other).value.(status := status)) else FindEnrollment(rows, other)
    ensures SetStatus(SetStatus(rows, key, status), key, status) == SetStatus(rows, key, status)
  {
    if rows != [] {
      FindEnrollmentSet(rows[1..], key, status, other);
      assert SetStatus(rows, key, status)[1..] == SetStatus(rows[1..], key, status);
    }
  }

  lemma {:induction false} FindEnrollmentFinds(rows: seq<Enrollment>, key: EnrollmentKey)
    ensures FindEnrollment(rows, key).Some? <==> exists i :: 0 <= i < |rows| && rows[i].key == key
    ensures FindEnrollment(rows, key).Some? ==> FindEnrollment(rows, key).value.key == key
  {
    if rows != [] && rows[0].key != key {
      FindEnrollmentFinds(rows[1..], key);
      assert forall i :: 0 < i < |rows| ==> rows[i] == rows[1..][i - 1];
    }
  }

  /** What the enrollment commit means for any enrollment: a withdrawal changes an existing one, anything
      else makes it active. */
  lemma ApplyMeans(rows: seq<Enrollment>, key: EnrollmentKey, status: string, other: EnrollmentKey)
    ensures var before, after := FindEnrollment(rows, other), FindEnrollment(Apply(rows, key, status), other);
            if other != key then after == before
            else if status == "refunded" || status == "cancelled" then
              (after.Some? <==> before.Some?) && (after.Some? ==> after.value == before.value.(status := status))
            else after.Some? && after.value.status == "active"
                 && after.value.enrolledBy == if before.Some? then before.value.enrolledBy else "webhook"
  {
    FindEnrollmentSet(rows, key, status, other);
    FindEnrollmentSet(rows, key, "active", other);
    FindEnrollmentAppend(rows, Enrollment(key, "active", "webhook"), other);
  }

  lemma ApplyTwice(rows: seq<Enrollment>, key: EnrollmentKey, status: string)
    ensures Apply(Apply(rows, key, status), key, status) == Apply(rows, key, status)
  {
    FindEnrollmentSet(rows, key, status, key);
    FindEnrollmentSet(rows, key, "active", key);
    FindEnrollmentAppend(rows, Enrollment(key, "active", "webhook"), key);
  }

  lemma EnsureUserTwice(users: seq<User>, ev: Event, first: Uuid, second: Uuid)
    requires ev.buyerEmail.Some?
    ensures EnsureUser(EnsureUser(users, ev, first), ev, second) == EnsureUser(users, ev, first)
    ensures FindUser(EnsureUser(users, ev, first), ev.tenant, ev.buyerEmail.value).Some?
  {
    FindUserAppend(users, NewUser(ev, first), ev.tenant, ev.buyerEmail.value);
  }

  lemma {:induction false} LocalPartCuts(email: string)
    ensures var name := LocalPart(email);
            name <= email && '@' !in name && (name == email || email[|name|] == '@')
  {
    if email != "" && email[0] != '@' { LocalPartCuts(email[1..]); }
  }

  /** Past the user commit the buyer has an account: the one there was, or a new one under the generated id, with the
      name the event gives or else what stands before the `@`. */
  lemma BuyerHasAccount(products: seq<Product>, rows: Rows, ev: Event, t: Try)
    requires FindProduct(products, ev).Some? && t.stop >= 2
    ensures var email := ev.buyerEmail.value;
            var before, after := FindUser(rows.users, ev.tenant, email),
                                 FindUser(RowsAfter(products, rows, ev, t).users, ev.tenant, email);
            if before.Some? then after == before
            else
              && after.Some?
              && after.value.id == t.newId && after.value.tenant == ev.tenant && after.value.email == email
              && var name := after.value.name;
                 if ev.buyerName.Some? && ev.buyerName.value != "" then name == ev.buyerName.value
                 else name <= email && '@' !in name && (name == email || email[|name|] == '@')
  {
    var email := ev.buyerEmail.value;
    FindUserAppend(rows.users, NewUser(ev, t.newId), ev.tenant, email);
    LocalPartCuts(email);
  }

  /******* Crash recovery *******/

  function RunTries(tables: Tables, ev: Event, tries: seq<Try>): Tables {
    if tries == [] then tables
    else Attempt(RunTries(tables, ev, tries[..|tries| - 1]), ev, tries[|tries| - 1])
  }

  function Max(a: nat, b: nat): nat {
    if a < b then b else a
  }

  /** The single execution a series of executions amounts to: the id of the first that got to create the
      user, and the furthest stage any of them reached. */
  function Merge(tries: seq<Try>): Try {
    if tries == [] then Try(0, 0, false)
    else
      var before, last := Merge(tries[..|tries| - 1]), tries[|tries| - 1];
      Try(if before.stop >= 2 then before.newId else last.newId, Max(before.stop, last.stop),
          before.queues || last.queues)
  }

  lemma RowsCompose(products: seq<Product>, rows: Rows, ev: Event, first: Try, second: Try)
    ensures RowsAfter(products, RowsAfter(products, rows, ev, first), ev, second) ==
            RowsAfter(products, rows, ev, Try(if first.stop >= 2 then first.newId else second.newId,
                                             Max(first.stop, second.stop), first.queues || second.queues))
  {
    var product := FindProduct(products, ev);
    if product.Some? && Present(ev.buyerEmail) && first.stop >= 2 {
      EnsureUserTwice(rows.users, ev, first.newId, second.newId);
      if first.stop >= 3 {
        var users := EnsureUser(rows.users, ev, first.newId);
        ApplyTwice(rows.enrollments, KeyFor(users, ev, product.value.id), ev.status);
      }
    }
  }

  lemma {:induction false} TriesMerge(tables: Tables, ev: Event, tries: seq<Try>)
    ensures RunTries(tables, ev, tries).rows == RowsAfter(tables.products, tables.rows, ev, Merge(tries))
    ensures RunTries(tables, ev, tries).products == tables.products
  {
    if tries != [] {
      var prefix := tries[..|tries| - 1];
      TriesMerge(tables, ev, prefix);
      RowsCompose(tables.products, tables.rows, ev, Merge(prefix), tries[|tries| - 1]);
    }
  }

  /** However often the webhook task dies, wherever it dies: once one execution completes, users and enrollments are
      those of a single uninterrupted execution, up to the id generated for a new user. */
  lemma CrashRecovery(tables: Tables, ev: Event, killed: seq<Try>, last: Try)
    requires last.stop == COMPLETE && forall t :: t in killed ==> t.stop <= COMPLETE
    ensures exists id: Uuid :: (id == last.newId || exists t :: t in killed && t.newId == id)
              && RunTries(tables, ev, killed + [last]).rows == Attempt(tables, ev, Try(id, COMPLETE, last.queues)).rows
  {
    var tries := killed + [last];
    TriesMerge(tables, ev, tries);
    MergeBounds(killed);
    assert tries[..|tries| - 1] == killed;
    assert Merge(tries).stop == COMPLETE;
    var id := Merge(tries).newId;
    assert Attempt(tables, ev, Try(id, COMPLETE, last.queues)).rows == RunTries(tables, ev, tries).rows;
  }

  lemma {:induction false} MergeBounds(tries: seq<Try>)
    requires forall t :: t in tries ==> t.stop <= COMPLETE
    ensures Merge(tries).stop <= COMPLETE
    ensures tries != [] ==> exists t :: t in tries && t.newId == Merge(tries).newId
  {
    if tries != [] {
      MergeBounds(tries[..|tries| - 1]);
      assert tries[|tries| - 1] in tries;
      if Merge(tries[..|tries| - 1]).stop >= 2 {
        var t :| t in tries[..|tries| - 1] && t.newId == Merge(tries[..|tries| - 1]).newId;
        assert t in tries;
      }
    }
  }

  /******* Emails *******/

  /** The enrollment status the event's buyer and product have, if any. */
  function StatusFor(products: seq<Product>, rows: Rows, ev: Event): Option<string> {
    var product := FindProduct(products, ev);
    if product == None || !Present(ev.buyerEmail) || FindUser(rows.users, ev.tenant, ev.buyerEmail.value) == None
    then None
    else
      var e := FindEnrollment(rows.enrollments, KeyFor(rows.users, ev, product.value.id));
      if e.Some? then Some(e.value.status) else None
  }

  predicate Resolves(products: seq<Product>, ev: Event) {
    FindProduct(products, ev).Some? && Present(ev.buyerEmail)
  }

  /** No enrollment belongs to a user id that is not in the table. */
  ghost predicate NoOrphans(rows: Rows, newId: Uuid) {
    forall e :: e in rows.enrollments ==> e.key.user != newId
  }

  /** An execution that gets past the enrollment commit leaves an active enrollment for an active event. */
  lemma ActiveAfterCommit(products: seq<Product>, rows: Rows, ev: Event, t: Try)
    requires Resolves(products, ev) && !Withdraws(ev.status) && t.stop >= 3
    ensures StatusFor(products, RowsAfter(products, rows, ev, t), ev) == Some("active")
  {
    EnsureUserTwice(rows.users, ev, t.newId, t.newId);
    var key := KeyFor(EnsureUser(rows.users, ev, t.newId), ev, FindProduct(products, ev).value.id);
    ApplyMeans(rows.enrollments, key, ev.status, key);
  }

  /** An execution that dies before the enrollment commit leaves the buyer's status alone. */
  lemma StatusBeforeCommit(products: seq<Product>, rows: Rows, ev: Event, t: Try)
    requires t.stop < 3 && NoOrphans(rows, t.newId)
    ensures StatusFor(products, RowsAfter(products, rows, ev, t), ev) == StatusFor(products, rows, ev)
  {
    if Resolves(products, ev) && t.stop == 2 && FindUser(rows.users, ev.tenant, ev.buyerEmail.value) == None {
      FindUserAppend(rows.users, NewUser(ev, t.newId), ev.tenant, ev.buyerEmail.value);
      FindEnrollmentFinds(rows.enrollments, EnrollmentKey(ev.tenant, t.newId, FindProduct(products, ev).value.id));
    }
  }

  /** Active events queue their email in exactly one situation. */
  lemma MailWhen(products: seq<Product>, rows: Rows, ev: Event, t: Try)
    requires Resolves(products, ev) && !Withdraws(ev.status) && NoOrphans(rows, t.newId)
    ensures |Mail(products, rows, ev, t)| ==
            if Mails(t) && StatusFor(products, rows, ev) != Some("active") then 1 else 0
  {
    EnsureUserTwice(rows.users, ev, t.newId, t.newId);
    if FindUser(rows.users, ev.tenant, ev.buyerEmail.value) == None {
      FindUserAppend(rows.users, NewUser(ev, t.newId), ev.tenant, ev.buyerEmail.value);
      FindEnrollmentFinds(rows.enrollments, EnrollmentKey(ev.tenant, t.newId, FindProduct(products, ev).value.id));
    }
  }

  /** What the email of an execution says, by the event and by the buyer's status before it. */
  lemma MailSays(products: seq<Product>, rows: Rows, ev: Event, t: Try)
    requires Resolves(products, ev) && NoOrphans(rows, t.newId)
    ensures var mail, status := Mail(products, rows, ev, t), StatusFor(products, rows, ev);
            var user := FindUser(RowsAfter(products, rows, ev, t).users, ev.tenant, ev.buyerEmail.value);
            if t.stop < 4 || !t.queues then mail == []
            else if ev.status != "refunded" && ev.status != "cancelled" && status == Some("active") then mail == []
            else
              user.Some? && mail ==
              [Email(ev.buyerEmail.value,
                     if ev.status == "refunded" then "enrollment.access_refunded"
                     else if ev.status == "cancelled" then "enrollment.access_cancelled"
                     else if status == None then "enrollment.access_granted" else "enrollment.access_reactivated",
                     user.value.name, FindProduct(products, ev).value.title)]
  {
    EnsureUserTwice(rows.users, ev, t.newId, t.newId);
    FindUserFinds(EnsureUser(rows.users, ev, t.newId), ev.tenant, ev.buyerEmail.value);
    if FindUser(rows.users, ev.tenant, ev.buyerEmail.value) == None {
      FindUserAppend(rows.users, NewUser(ev, t.newId), ev.tenant, ev.buyerEmail.value);
      FindEnrollmentFinds(rows.enrollments, EnrollmentKey(ev.tenant, t.newId, FindProduct(products, ev).value.id));
    }
  }

  /** Whether the first execution to pass the enrollment commit also got to queue the email. */
  predicate FirstCommitterMailed(tries: seq<Try>) {
    tries != [] &&
    if Merge(tries[..|tries| - 1]).stop >= 3 then FirstCommitterMailed(tries[..|tries| - 1])
    else Mails(tries[|tries| - 1])
  }

  lemma {:induction false} TriesKeepOrphans(tables: Tables, ev: Event, tries: seq<Try>)
    requires forall t :: t in tries ==> NoOrphans(tables.rows, t.newId)
    requires Merge(tries).stop < 3
    ensures RunTries(tables, ev, tries).rows.enrollments == tables.rows.enrollments
    ensures StatusFor(tables.products, RunTries(tables, ev, tries).rows, ev) ==
            StatusFor(tables.products, tables.rows, ev)
  {
    if tries != [] {
      var prefix, last := tries[..|tries| - 1], tries[|tries| - 1];
      assert last in tries;
      TriesKeepOrphans(tables, ev, prefix);
      TriesMerge(tables, ev, prefix);
      StatusBeforeCommit(tables.products, RunTries(tables, ev, prefix).rows, ev, last);
    }
  }

  /** An active event queues its email at most once over all its executions: once if the enrollment was not
      active before and the first execution to commit it survived to queue, never otherwise. */
  lemma {:induction false} ActiveMailAtMostOnce(tables: Tables, ev: Event, tries: seq<Try>)
    requires Resolves(tables.products, ev) && !Withdraws(ev.status)
    requires forall t :: t in tries ==> NoOrphans(tables.rows, t.newId)
    ensures |RunTries(tables, ev, tries).emails| == |tables.emails| +
            if StatusFor(tables.products, tables.rows, ev) != Some("active") && FirstCommitterMailed(tries)
            then 1 else 0
  {
    if tries != [] {
      var prefix, last := tries[..|tries| - 1], tries[|tries| - 1];
      assert last in tries;
      ActiveMailAtMostOnce(tables, ev, prefix);
      TriesMerge(tables, ev, prefix);
      var before := RunTries(tables, ev, prefix);
      if Merge(prefix).stop >= 3 {
        ActiveAfterCommit(tables.products, tables.rows, ev, Merge(prefix));
        MailToActive(tables.products, before.rows, ev, last);
      } else {
        TriesKeepOrphans(tables, ev, prefix);
        MailWhen(tables.products, before.rows, ev, last);
        NoMailBeforeCommit(tries);
      }
    }
  }

  lemma MailToActive(products: seq<Product>, rows: Rows, ev: Event, t: Try)
    requires !Withdraws(ev.status) && StatusFor(products, rows, ev) == Some("active")
    ensures Mail(products, rows, ev, t) == []
  {}

  lemma {:induction false} NoMailBeforeCommit(tries: seq<Try>)
    ensures FirstCommitterMailed(tries) ==> Merge(tries).stop >= 4
  {
    if tries != [] { NoMailBeforeCommit(tries[..|tries| - 1]); }
  }

  /** How many executions get to their email and have it queued. */
  function Mailings(tries: seq<Try>): nat {
    if tries == [] then 0 else Mailings(tries[..|tries| - 1]) + if Mails(tries[|tries| - 1]) then 1 else 0
  }

  /** A withdrawal has no such protection: over several deliveries it queues its email at every execution that gets
      there. */
  lemma {:induction false} WithdrawalMailEveryTime(tables: Tables, ev: Event, tries: seq<Try>)
    requires Resolves(tables.products, ev) && Withdraws(ev.status)
    ensures |RunTries(tables, ev, tries).emails| == |tables.emails| + Mailings(tries)
  {
    if tries != [] {
      var prefix, last := tries[..|tries| - 1], tries[|tries| - 1];
      WithdrawalMailEveryTime(tables, ev, prefix);
      TriesMerge(tables, ev, prefix);
      EnsureUserTwice(RunTries(tables, ev, prefix).rows.users, ev, last.newId, last.newId);
    }
  }
}
