/** What the enrollment of one buyer says about the history of webhook events. */
module WebhookHistory {
  import opened Wrappers
  import opened WebhookEnrollment

  /** A processed event, the id it would have generated, and whether its email was queued. */
  datatype Delivery = Delivery(event: Event, newId: Uuid, queues: bool)

  function Process(tables: Tables, d: Delivery): Tables {
    Attempt(tables, d.event, Try(d.newId, COMPLETE, d.queues))
  }

  function RunEvents(tables: Tables, ds: seq<Delivery>): Tables {
    if ds == [] then tables else Process(RunEvents(tables, ds[..|ds| - 1]), ds[|ds| - 1])
  }

  /** Identity of the tables: user ids are unique, enrollments belong to users, one row per enrollment key. */
  ghost predicate Consistent(rows: Rows) {
    && (forall i, j :: 0 <= i < j < |rows.users| ==> rows.users[i].id != rows.users[j].id)
    && (forall e :: e in rows.enrollments ==> exists u :: u in rows.users && u.id == e.key.user)
    && (forall i, j :: 0 <= i < j < |rows.enrollments| ==> rows.enrollments[i].key != rows.enrollments[j].key)
  }

  ghost predicate Unused(rows: Rows, id: Uuid) {
    forall u :: u in rows.users ==> u.id != id
  }

  /** Every generated id is new when it is generated. */
  ghost predicate FreshIds(tables: Tables, ds: seq<Delivery>) {
    ds != [] ==>
      && FreshIds(tables, ds[..|ds| - 1])
      && Unused(RunEvents(tables, ds[..|ds| - 1]).rows, ds[|ds| - 1].newId)
  }

  /** The enrollment status of one buyer for one product. */
  function StatusOf(rows: Rows, tenant: Uuid, email: string, product: Uuid): Option<string> {
    var user := FindUser(rows.users, tenant, email);
    if user == None then None
    else
      var e := FindEnrollment(rows.enrollments, EnrollmentKey(tenant, user.value.id, product));
      if e.Some? then Some(e.value.status) else None
  }

  /** The event is about this buyer and product. */
  predicate Concerns(products: seq<Product>, ev: Event, tenant: Uuid, email: string, product: Uuid) {
    && ev.tenant == tenant && ev.buyerEmail == Some(email) && email != ""
    && FindProduct(products, ev).Some? && FindProduct(products, ev).value.id == product
  }

  /** Where no two products of a tenant share an id at a gateway: an event is about a buyer and a product exactly if it
      names both. */
  lemma ConcernsIff(products: seq<Product>, ev: Event, tenant: Uuid, email: string, product: Uuid)
    requires forall p, q | p in products && q in products :: Sells(p, ev) && Sells(q, ev) ==> p == q
    ensures Concerns(products, ev, tenant, email, product) <==>
            && ev.tenant == tenant && ev.buyerEmail == Some(email) && email != ""
            && ev.productId.Some? && ev.productId.value != ""
            && exists p <- products :: p.id == product && Sells(p, ev)
  {
    FindProductFinds(products, ev);
  }

  /** The status an event stands for: anything but a withdrawal means active. */
  function Meaning(status: string): string {
    if Withdraws(status) then status else "active"
  }

  function NextStatus(before: Option<string>, status: string): Option<string> {
    if Withdraws(status) && before == None then None else Some(Meaning(status))
  }

  lemma {:induction false} SetStatusShape(rows: seq<Enrollment>, key: EnrollmentKey, status: string)
    ensures |SetStatus(rows, key, status)| == |rows|
    ensures forall i :: 0 <= i < |rows| ==>
              SetStatus(rows, key, status)[i] == if rows[i].key == key then rows[i].(status := status) else rows[i]
  {
    if rows != [] { SetStatusShape(rows[1..], key, status); }
  }

  lemma ApplyKeepsKeys(rows: seq<Enrollment>, key: EnrollmentKey, status: string)
    requires forall i, j :: 0 <= i < j < |rows| ==> rows[i].key != rows[j].key
    ensures var after := Apply(rows, key, status);
            && (forall i, j :: 0 <= i < j < |after| ==> after[i].key != after[j].key)
            && (forall e :: e in after ==> e.key == key || exists was :: was in rows && was.key == e.key)
  {
    SetStatusShape(rows, key, status);
    SetStatusShape(rows, key, "active");
    FindEnrollmentFinds(rows, key);
  }

  lemma ProcessKeepsConsistent(tables: Tables, d: Delivery)
    requires Consistent(tables.rows) && Unused(tables.rows, d.newId)
    ensures Consistent(Process(tables, d).rows)
  {
    var ev, product := d.event, FindProduct(tables.products, d.event);
    if product.Some? && Present(ev.buyerEmail) {
      var users := EnsureUser(tables.rows.users, ev, d.newId);
      var key := KeyFor(users, ev, product.value.id);
      ApplyKeepsKeys(tables.rows.enrollments, key, ev.status);
      EnsureUserTwice(tables.rows.users, ev, d.newId, d.newId);
      FindUserFinds(users, ev.tenant, ev.buyerEmail.value);
      assert forall u :: u in tables.rows.users ==> u in users;
      forall e | e in Process(tables, d).rows.enrollments ensures exists u :: u in users && u.id == e.key.user {
        if e.key == key {
          var u := FindUser(users, ev.tenant, ev.buyerEmail.value).value;
          assert u in users && u.id == e.key.user;
        } else {
          var was :| was in tables.rows.enrollments && was.key == e.key;
          var u :| u in tables.rows.users && u.id == was.key.user;
          assert u in users;
        }
      }
    }
  }

  lemma SameIdSameUser(users: seq<User>, a: User, b: User)
    requires forall i, j :: 0 <= i < j < |users| ==> users[i].id != users[j].id
    requires a in users && b in users && a.id == b.id
    ensures a == b
  {}

  lemma ProcessMoves(tables: Tables, d: Delivery, tenant: Uuid, email: string, product: Uuid)
    requires Consistent(tables.rows) && Unused(tables.rows, d.newId)
    ensures var before := StatusOf(tables.rows, tenant, email, product);
            StatusOf(Process(tables, d).rows, tenant, email, product) ==
            if Concerns(tables.products, d.event, tenant, email, product) then NextStatus(before, d.event.status)
            else before
  {
    var ev, found := d.event, FindProduct(tables.products, d.event);
    if found.Some? && Present(ev.buyerEmail) {
      var prior, users := tables.rows.users, EnsureUser(tables.rows.users, ev, d.newId);
      var key := KeyFor(users, ev, found.value.id);
      FindUserAppend(prior, NewUser(ev, d.newId), tenant, email);
      FindUserAppend(prior, NewUser(ev, d.newId), ev.tenant, ev.buyerEmail.value);
      FindUserFinds(users, tenant, email);
      FindUserFinds(users, ev.tenant, ev.buyerEmail.value);
      NewIdHasNoEnrollment(tables.rows, EnrollmentKey(tenant, d.newId, product));
      var user := FindUser(users, tenant, email);
      if user.Some? {
        var target := EnrollmentKey(tenant, user.value.id, product);
        ApplyMeans(tables.rows.enrollments, key, ev.status, target);
        if target == key {
          ProcessKeepsConsistent(tables, d);
          SameIdSameUser(users, user.value, FindUser(users, ev.tenant, ev.buyerEmail.value).value);
        }
      }
    }
  }

  /** One event moves the status of its own buyer for a product that has the event's product id at its gateway, and of
      nobody else. */
  lemma ProcessMovesStatus(tables: Tables, d: Delivery, tenant: Uuid, email: string, product: Uuid)
    requires Consistent(tables.rows) && Unused(tables.rows, d.newId)
    ensures var before := StatusOf(tables.rows, tenant, email, product);
            StatusOf(Process(tables, d).rows, tenant, email, product) ==
            if Concerns(tables.products, d.event, tenant, email, product) then NextStatus(before, d.event.status)
            else before
    ensures Concerns(tables.products, d.event, tenant, email, product) ==>
              d.event.tenant == tenant && d.event.buyerEmail == Some(email)
              && exists p <- tables.products :: p.id == product && Sells(p, d.event)
  {
    ProcessMoves(tables, d, tenant, email, product);
    FindProductFinds(tables.products, d.event);
  }

  lemma NewIdHasNoEnrollment(rows: Rows, key: EnrollmentKey)
    requires Consistent(rows)
    ensures Unused(rows, key.user) ==> FindEnrollment(rows.enrollments, key) == None
  {
    FindEnrollmentFinds(rows.enrollments, key);
    forall i | 0 <= i < |rows.enrollments| && Unused(rows, key.user) ensures rows.enrollments[i].key != key {
      assert rows.enrollments[i] in rows.enrollments;
    }
  }

  lemma {:induction false} RunKeepsConsistent(tables: Tables, ds: seq<Delivery>)
    requires Consistent(tables.rows) && FreshIds(tables, ds)
    ensures Consistent(RunEvents(tables, ds).rows) && RunEvents(tables, ds).products == tables.products
  {
    if ds != [] {
      RunKeepsConsistent(tables, ds[..|ds| - 1]);
      ProcessKeepsConsistent(RunEvents(tables, ds[..|ds| - 1]), ds[|ds| - 1]);
    }
  }

  /******* The status is a function of the history *******/

  ghost predicate ActiveHappened(products: seq<Product>, ds: seq<Delivery>, tenant: Uuid,
                                 email: string, product: Uuid) {
    exists i :: 0 <= i < |ds| && Concerns(products, ds[i].event, tenant, email, product)
      && !Withdraws(ds[i].event.status)
  }

  /** The last event about the buyer and product. */
  function LastStatus(products: seq<Product>, ds: seq<Delivery>, tenant: Uuid, email: string,
                      product: Uuid): Option<string> {
    if ds == [] then None
    else if Concerns(products, ds[|ds| - 1].event, tenant, email, product) then Some(ds[|ds| - 1].event.status)
    else LastStatus(products, ds[..|ds| - 1], tenant, email, product)
  }

  /** The status one buyer and product goes through. */
  function StatusPath(products: seq<Product>, ds: seq<Delivery>, tenant: Uuid, email: string,
                      product: Uuid): Option<string> {
    if ds == [] then None
    else
      var before, ev := StatusPath(products, ds[..|ds| - 1], tenant, email, product), ds[|ds| - 1].event;
      if Concerns(products, ev, tenant, email, product) then NextStatus(before, ev.status) else before
  }

  lemma {:induction false} StatusFollowsPath(tables: Tables, ds: seq<Delivery>, tenant: Uuid,
                                             email: string, product: Uuid)
    requires Consistent(tables.rows) && FreshIds(tables, ds)
    requires StatusOf(tables.rows, tenant, email, product) == None
    ensures StatusOf(RunEvents(tables, ds).rows, tenant, email, product) ==
            StatusPath(tables.products, ds, tenant, email, product)
  {
    if ds != [] {
      var prefix := ds[..|ds| - 1];
      StatusFollowsPath(tables, prefix, tenant, email, product);
      RunKeepsConsistent(tables, prefix);
      ProcessMovesStatus(RunEvents(tables, prefix), ds[|ds| - 1], tenant, email, product);
    }
  }

  lemma ActiveHappenedLast(products: seq<Product>, ds: seq<Delivery>, tenant: Uuid, email: string, product: Uuid)
    requires ds != []
    ensures ActiveHappened(products, ds, tenant, email, product) <==>
            ActiveHappened(products, ds[..|ds| - 1], tenant, email, product)
            || (Concerns(products, ds[|ds| - 1].event, tenant, email, product) && !Withdraws(ds[|ds| - 1].event.status))
  {
    var prefix := ds[..|ds| - 1];
    assert forall i :: 0 <= i < |prefix| ==> ds[i] == prefix[i];
    if ActiveHappened(products, prefix, tenant, email, product) {
      var i :| 0 <= i < |prefix| && Concerns(products, prefix[i].event, tenant, email, product)
               && !Withdraws(prefix[i].event.status);
      assert Concerns(products, ds[i].event, tenant, email, product);
    }
  }

  lemma {:induction false} PathIsLastEvent(products: seq<Product>, ds: seq<Delivery>, tenant: Uuid,
                                           email: string, product: Uuid)
    ensures var status, last := StatusPath(products, ds, tenant, email, product),
                                LastStatus(products, ds, tenant, email, product);
            && (status.Some? <==> ActiveHappened(products, ds, tenant, email, product))
            && (status.Some? ==> last.Some? && status == Some(Meaning(last.value)))
  {
    if ds != [] {
      PathIsLastEvent(products, ds[..|ds| - 1], tenant, email, product);
      ActiveHappenedLast(products, ds, tenant, email, product);
    }
  }

  /** For any events of anybody in any order: starting from no enrollment there is none as long as no active event
      has occurred, and from then on its status is that of the last event; there is never a second one. */
  lemma StatusIsLastEvent(tables: Tables, ds: seq<Delivery>, tenant: Uuid, email: string, product: Uuid)
    requires Consistent(tables.rows) && FreshIds(tables, ds)
    requires StatusOf(tables.rows, tenant, email, product) == None
    ensures var status, last := StatusOf(RunEvents(tables, ds).rows, tenant, email, product),
                                LastStatus(tables.products, ds, tenant, email, product);
            && (status.Some? <==> ActiveHappened(tables.products, ds, tenant, email, product))
            && (status.Some? ==>
                  last.Some? && status.value == if last == Some("refunded") then "refunded"
                                                else if last == Some("cancelled") then "cancelled" else "active")
    ensures Consistent(RunEvents(tables, ds).rows)
  {
    RunKeepsConsistent(tables, ds);
    StatusFollowsPath(tables, ds, tenant, email, product);
    PathIsLastEvent(tables.products, ds, tenant, email, product);
  }

  /** Delivering the latest event again changes neither users nor enrollments. */
  lemma RepeatIsIdle(tables: Tables, ds: seq<Delivery>, again: Uuid, queues: bool)
    requires ds != []
    ensures var after := RunEvents(tables, ds);
            Process(after, Delivery(ds[|ds| - 1].event, again, queues)).rows == after.rows
  {
    var before, d := RunEvents(tables, ds[..|ds| - 1]), ds[|ds| - 1];
    RowsCompose(before.products, before.rows, d.event, Try(d.newId, COMPLETE, d.queues), Try(again, COMPLETE, queues));
  }
}
