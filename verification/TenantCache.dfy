/** Which tenant a host belongs to: a table, and a cache in front of it that some writers clear. */
module TenantCache {
  import opened Wrappers

  /** `branding` stands for the six columns the cache does not hold. */
  datatype Tenant = Tenant(slug: string, name: string, customDomain: Option<string>, subdomain: Option<string>,
                           plan: string, features: Option<string>, branding: map<string, Option<string>>)

  /** What the cache holds of a tenant. */
  datatype Payload = Payload(id: Uuid, slug: string, name: string, customDomain: Option<string>,
                             subdomain: Option<string>, plan: string, features: Option<string>)

  datatype Entry = Entry(payload: Payload, expires: int)

  /** `Ambiguous` is the exception raised when several tenants have the host. */
  datatype Answer = NoTenant | Found(payload: Payload) | Ambiguous

  /** A field of a partial update: not sent, sent as null, or sent with a value. */
  datatype Field<T> = Unset | Null | Set(value: T)

  datatype TenantUpdate = TenantUpdate(slug: Field<string>, name: Field<string>, customDomain: Field<string>,
                                       subdomain: Field<string>, plan: Field<string>,
                                       branding: map<string, Option<string>>)

  datatype State = State(now: int, redis: bool, rows: map<Uuid, Tenant>, cache: map<string, Entry>)

  datatype Event =
    | Read(host: string)
    | Branding(id: Uuid, branding: map<string, Option<string>>)
    | Settings(id: Uuid, name: Field<string>, features: Field<string>)
    | Create(id: Uuid, tenant: Tenant)
    | SuperUpdate(id: Uuid, update: TenantUpdate)
    | Wait(seconds: nat)

  const TTL: int := 300

  const PLANS: set<string> := {"free", "starter", "pro", "enterprise"}

  /******* The table *******/

  predicate HasHost(t: Tenant, host: string) {
    t.customDomain == Some(host) || t.subdomain == Some(host)
  }

  function Project(id: Uuid, t: Tenant): Payload {
    Payload(id, t.slug, t.name, t.customDomain, t.subdomain, t.plan, t.features)
  }

  ghost predicate Matches(rows: map<Uuid, Tenant>, host: string, id: Uuid) {
    id in rows && HasHost(rows[id], host)
  }

  /** The query of both readers. */
  ghost function Lookup(rows: map<Uuid, Tenant>, host: string): Answer {
    if !exists id :: Matches(rows, host, id) then NoTenant
    else
      var id :| Matches(rows, host, id);
      if exists other :: other != id && Matches(rows, host, other) then Ambiguous else Found(Project(id, rows[id]))
  }

  /** The constraints of the database that an insert or update may break. */
  predicate Refused(rows: map<Uuid, Tenant>, id: Uuid, t: Tenant) {
    || t.plan !in PLANS
    || exists other | other in rows :: other != id
         && (rows[other].slug == t.slug || (t.customDomain.Some? && rows[other].customDomain == t.customDomain))
  }

  function Given<T>(f: Field<T>, was: T): T {
    if f.Set? then f.value else was
  }

  function GivenOrNull<T>(f: Field<T>, was: Option<T>): Option<T> {
    match f case Unset => was case Null => None case Set(v) => Some(v)
  }

  /** The row an update would write; columns that must not be null make it fail. */
  function Updated(t: Tenant, u: TenantUpdate): Option<Tenant> {
    if u.slug.Null? || u.name.Null? || u.plan.Null? then None
    else Some(Tenant(Given(u.slug, t.slug), Given(u.name, t.name), GivenOrNull(u.customDomain, t.customDomain),
                     GivenOrNull(u.subdomain, t.subdomain), Given(u.plan, t.plan), t.features, t.branding + u.branding))
  }

  /******* The cache *******/

  /** The keys `_invalidate_tenant_cache` deletes: empty hosts are skipped. */
  function Keys(t: Tenant): set<string> {
    (if t.customDomain.Some? && t.customDomain.value != "" then {t.customDomain.value} else {})
    + (if t.subdomain.Some? && t.subdomain.value != "" then {t.subdomain.value} else {})
  }

  predicate Live(s: State, host: string) {
    s.redis && host in s.cache && s.now < s.cache[host].expires
  }

  /** What a reader answers. */
  ghost function AnswerTo(s: State, host: string): Answer {
    if Live(s, host) then Found(s.cache[host].payload) else Lookup(s.rows, host)
  }

  function Store(s: State, host: string, payload: Payload): State {
    s.(cache := s.cache[host := Entry(payload, s.now + TTL)])
  }

  function AdminWrite(s: State, id: Uuid, row: Tenant): State {
    s.(rows := s.rows[id := row], cache := if s.redis then s.cache - Keys(row) else s.cache)
  }

  ghost function Step(s: State, ev: Event): State {
    match ev
    case Read(host) =>
      var found := Lookup(s.rows, host);
      if Live(s, host) || !s.redis || !found.Found? then s else Store(s, host, found.payload)
    case Branding(id, branding) =>
      if id !in s.rows then s else AdminWrite(s, id, s.rows[id].(branding := s.rows[id].branding + branding))
    case Settings(id, name, features) =>
      if id !in s.rows || name.Null? then s
      else AdminWrite(s, id, s.rows[id].(name := Given(name, s.rows[id].name),
                                        features := GivenOrNull(features, s.rows[id].features)))
    case Create(id, tenant) =>
      if id in s.rows || Refused(s.rows, id, tenant) then s else s.(rows := s.rows[id := tenant])
    case SuperUpdate(id, update) =>
      if id !in s.rows then s
      else
        var row := Updated(s.rows[id], update);
        if row == None || Refused(s.rows, id, row.value) then s else s.(rows := s.rows[id := row.value])
    case Wait(seconds) => s.(now := s.now + seconds)
  }

  ghost function After(s: State, events: seq<Event>): State {
    if events == [] then s else Step(After(s, events[..|events| - 1]), events[|events| - 1])
  }

  /******* Lookups *******/

  lemma LookupOne(rows: map<Uuid, Tenant>, host: string, id: Uuid)
    requires Matches(rows, host, id) && forall other :: Matches(rows, host, other) ==> other == id
    ensures Lookup(rows, host) == Found(Project(id, rows[id]))
  {}

  /** A found tenant has the host, and no other tenant does. */
  lemma FoundIsTheOne(rows: map<Uuid, Tenant>, host: string)
    requires Lookup(rows, host).Found?
    ensures var p := Lookup(rows, host).payload;
            && Matches(rows, host, p.id) && p == Project(p.id, rows[p.id])
            && forall other :: Matches(rows, host, other) ==> other == p.id
  {}

  /** What a lookup answers, column by column: the tenant that has the host as its custom domain or as its subdomain, if
      there is exactly one; none if there is none. */
  lemma LookupIff(rows: map<Uuid, Tenant>, host: string, p: Payload)
    ensures Lookup(rows, host) == NoTenant <==>
            forall id | id in rows :: rows[id].customDomain != Some(host) && rows[id].subdomain != Some(host)
    ensures Lookup(rows, host) == Found(p) <==>
            && p.id in rows && (rows[p.id].customDomain == Some(host) || rows[p.id].subdomain == Some(host))
            && (forall id | id in rows && id != p.id ::
                  rows[id].customDomain != Some(host) && rows[id].subdomain != Some(host))
            && var t := rows[p.id];
               && p.slug == t.slug && p.name == t.name && p.customDomain == t.customDomain
               && p.subdomain == t.subdomain && p.plan == t.plan && p.features == t.features
  {
    if id :| id in rows && (rows[id].customDomain == Some(host) || rows[id].subdomain == Some(host)) {
      assert Matches(rows, host, id);
    }
    if Lookup(rows, host).Found? {
      FoundIsTheOne(rows, host);
      assert forall id | id in rows :: HasHost(rows[id], host) ==> Matches(rows, host, id);
    }
    if p.id in rows && HasHost(rows[p.id], host) && forall id | id in rows && id != p.id :: !HasHost(rows[id], host) {
      LookupOne(rows, host, p.id);
    }
  }

  /******* Writes, column by column *******/

  /** The table's constraints: slugs and custom domains are unique, and there are four plans. */
  ghost predicate Constrained(rows: map<Uuid, Tenant>) {
    && (forall id | id in rows :: rows[id].plan in {"free", "starter", "pro", "enterprise"})
    && (forall id, other | id in rows && other in rows && id != other ::
          rows[id].slug != rows[other].slug
          && (rows[id].customDomain.Some? ==> rows[id].customDomain != rows[other].customDomain))
  }

  lemma RefusedIff(rows: map<Uuid, Tenant>, id: Uuid, t: Tenant)
    requires Constrained(rows)
    ensures Refused(rows, id, t) <==> !Constrained(rows[id := t])
  {
    var after := rows[id := t];
    forall other | other in rows && other != id ensures other in after && after[other] == rows[other] {}
    assert id in after && after[id] == t;
  }

  /** A new tenant is inserted exactly if the table still meets its constraints with it; nothing else changes. */
  lemma CreateIff(s: State, id: Uuid, tenant: Tenant)
    requires id !in s.rows && Constrained(s.rows)
    ensures Step(s, Create(id, tenant)) ==
            if Constrained(s.rows[id := tenant]) then s.(rows := s.rows[id := tenant]) else s
  {
    RefusedIff(s.rows, id, tenant);
  }

  /** The row is what an update makes of another one: a field that was sent has the value sent, one sent as null is
      cleared, and one not sent stays. */
  predicate IsUpdate(t: Tenant, u: TenantUpdate, next: Tenant) {
    && (if u.slug.Set? then next.slug == u.slug.value else u.slug.Unset? && next.slug == t.slug)
    && (if u.name.Set? then next.name == u.name.value else u.name.Unset? && next.name == t.name)
    && (if u.plan.Set? then next.plan == u.plan.value else u.plan.Unset? && next.plan == t.plan)
    && (match u.customDomain case Unset => next.customDomain == t.customDomain case Null => next.customDomain == None
        case Set(host) => next.customDomain == Some(host))
    && (match u.subdomain case Unset => next.subdomain == t.subdomain case Null => next.subdomain == None
        case Set(host) => next.subdomain == Some(host))
    && next.features == t.features
    && next.branding.Keys == t.branding.Keys + u.branding.Keys
    && (forall k | k in next.branding :: next.branding[k] == if k in u.branding then u.branding[k] else t.branding[k])
  }

  /** A superadmin's update writes that row exactly if the table still meets its constraints with it; otherwise, and
      when the slug, the name or the plan is sent as null, it changes nothing.  It never touches the cache. */
  lemma SuperUpdateIff(s: State, id: Uuid, u: TenantUpdate, next: Tenant)
    requires id in s.rows && Constrained(s.rows)
    ensures IsUpdate(s.rows[id], u, next) ==>
              Step(s, SuperUpdate(id, u)) ==
              if Constrained(s.rows[id := next]) then s.(rows := s.rows[id := next]) else s
    ensures u.slug.Null? || u.name.Null? || u.plan.Null? ==> Step(s, SuperUpdate(id, u)) == s
  {
    if IsUpdate(s.rows[id], u, next) {
      assert next.branding == s.rows[id].branding + u.branding;
      RefusedIff(s.rows, id, next);
    }
  }

  /** An admin's write of branding or settings: what it changes in its tenant's row, and that it deletes the entries of
      the row's hosts that are not empty, and no other. */
  lemma AdminWrites(s: State, ev: Event)
    requires (ev.Branding? || (ev.Settings? && !ev.name.Null?)) && ev.id in s.rows
    ensures ev.id in Step(s, ev).rows
    ensures var after := Step(s, ev);
            var t, next := s.rows[ev.id], after.rows[ev.id];
            && after.rows == s.rows[ev.id := next]
            && next.slug == t.slug && next.customDomain == t.customDomain && next.subdomain == t.subdomain
            && next.plan == t.plan
            && (ev.Branding? ==>
                  && next.name == t.name && next.features == t.features
                  && next.branding.Keys == t.branding.Keys + ev.branding.Keys
                  && forall k | k in next.branding ::
                       next.branding[k] == if k in ev.branding then ev.branding[k] else t.branding[k])
            && (ev.Settings? ==>
                  && next.name == (if ev.name.Set? then ev.name.value else t.name) && next.branding == t.branding
                  && next.features == match ev.features case Unset => t.features case Null => None
                                                        case Set(features) => Some(features))
            && (forall host :: host in after.cache <==>
                  host in s.cache
                  && !(s.redis && host != "" && (t.customDomain == Some(host) || t.subdomain == Some(host))))
            && (forall host :: host in after.cache ==> after.cache[host] == s.cache[host])
  {}

  lemma StepStaysConstrained(s: State, ev: Event)
    requires Constrained(s.rows)
    ensures Constrained(Step(s, ev).rows)
  {
    match ev
    case Branding(id, branding) =>
      if id in s.rows { RefusedIff(s.rows, id, Step(s, ev).rows[id]); }
    case Settings(id, name, features) =>
      if id in s.rows { RefusedIff(s.rows, id, Step(s, ev).rows[id]); }
    case Create(id, tenant) =>
      RefusedIff(s.rows, id, tenant);
    case SuperUpdate(id, u) =>
      if id in s.rows && Updated(s.rows[id], u).Some? { RefusedIff(s.rows, id, Updated(s.rows[id], u).value); }
    case _ =>
  }

  /** Over any run slugs and custom domains stay unique, and plans stay within the four. */
  lemma {:induction false} TableStaysConstrained(s: State, events: seq<Event>)
    requires Constrained(s.rows)
    ensures Constrained(After(s, events).rows)
  {
    if events != [] {
      TableStaysConstrained(s, events[..|events| - 1]);
      StepStaysConstrained(After(s, events[..|events| - 1]), events[|events| - 1]);
    }
  }

  lemma SameMatchesSameLookup(before: map<Uuid, Tenant>, after: map<Uuid, Tenant>, host: string)
    requires Lookup(before, host).Found?
    requires forall id :: Matches(before, host, id) <==> Matches(after, host, id)
    requires forall id :: Matches(before, host, id) ==> id in after && before[id] == after[id]
    ensures Lookup(after, host) == Lookup(before, host)
  {
    FoundIsTheOne(before, host);
    LookupOne(after, host, Lookup(before, host).payload.id);
  }

  lemma LookupAfterWrite(rows: map<Uuid, Tenant>, host: string, row: Tenant)
    requires Lookup(rows, host).Found? && HasHost(row, host)
    ensures var id := Lookup(rows, host).payload.id; Lookup(rows[id := row], host) == Found(Project(id, row))
  {
    FoundIsTheOne(rows, host);
    var id := Lookup(rows, host).payload.id;
    var after := rows[id := row];
    forall other | Matches(after, host, other) ensures other == id {
      assert other != id ==> Matches(rows, host, other);
    }
    assert Matches(after, host, id);
    LookupOne(after, host, id);
  }

  /******* Agreement *******/

  /** Every entry, for a host that is not empty, is what the table says now. */
  ghost predicate Agrees(s: State) {
    forall host :: host in s.cache && host != "" ==> Lookup(s.rows, host) == Found(s.cache[host].payload)
  }

  /** Everything but superadmin updates; new tenants take hosts that no tenant has. */
  ghost predicate AdminOnly(s: State, ev: Event) {
    && !ev.SuperUpdate?
    && (ev.Create? ==> forall host :: HasHost(ev.tenant, host) ==> Lookup(s.rows, host) == NoTenant)
  }

  lemma AdminWriteKeepsAgreement(s: State, id: Uuid, row: Tenant)
    requires Agrees(s) && s.redis && id in s.rows
    requires row.customDomain == s.rows[id].customDomain && row.subdomain == s.rows[id].subdomain
    ensures Agrees(AdminWrite(s, id, row))
  {
    var after := AdminWrite(s, id, row);
    forall host | host in after.cache && host != ""
      ensures Lookup(after.rows, host) == Found(after.cache[host].payload)
    {
      assert !HasHost(row, host);
      SameMatchesSameLookup(s.rows, after.rows, host);
    }
  }

  lemma CreateKeepsAgreement(s: State, id: Uuid, tenant: Tenant)
    requires Agrees(s) && AdminOnly(s, Create(id, tenant))
    ensures Agrees(Step(s, Create(id, tenant)))
  {
    var after := Step(s, Create(id, tenant));
    forall host | host in after.cache && host != ""
      ensures Lookup(after.rows, host) == Found(after.cache[host].payload)
    {
      if after.rows != s.rows {
        assert !HasHost(tenant, host);
        SameMatchesSameLookup(s.rows, after.rows, host);
      }
    }
  }

  lemma StepKeepsAgreement(s: State, ev: Event)
    requires Agrees(s) && AdminOnly(s, ev) && (!s.redis ==> s.cache == map[])
    ensures Agrees(Step(s, ev)) && (!s.redis ==> Step(s, ev).cache == map[]) && Step(s, ev).redis == s.redis
  {
    match ev
    case Branding(id, branding) =>
      if id in s.rows && s.redis {
        AdminWriteKeepsAgreement(s, id, s.rows[id].(branding := s.rows[id].branding + branding));
      }
    case Settings(id, name, features) =>
      if id in s.rows && s.redis && !name.Null? {
        AdminWriteKeepsAgreement(s, id, s.rows[id].(name := Given(name, s.rows[id].name),
                                                   features := GivenOrNull(features, s.rows[id].features)));
      }
    case Create(id, tenant) => CreateKeepsAgreement(s, id, tenant);
    case _ =>
  }

  /** Over any run without superadmin updates, readers of a host that is not empty answer what the table says
      at that moment, as if there were no cache. */
  lemma {:induction false} AdminRunsAnswerCurrently(s: State, events: seq<Event>)
    requires s.cache == map[]
    requires forall k :: 0 <= k < |events| ==> AdminOnly(After(s, events[..k]), events[k])
    ensures var after := After(s, events);
            && Agrees(after) && (!s.redis ==> after.cache == map[]) && after.redis == s.redis
            && forall host :: host != "" ==> AnswerTo(after, host) == Lookup(after.rows, host)
  {
    if events != [] {
      var front := events[..|events| - 1];
      assert forall k :: 0 <= k < |front| ==> front[..k] == events[..k];
      AdminRunsAnswerCurrently(s, front);
      StepKeepsAgreement(After(s, front), events[|events| - 1]);
    }
  }

  /** The empty host is different: a request without a Host header is cached under it when a tenant has an empty
      subdomain, and no admin write clears that entry. */
  lemma EmptyHostGoesStale(s: State, name: string)
    requires s.redis && s.cache == map[] && Lookup(s.rows, "").Found? && Lookup(s.rows, "").payload.name != name
    ensures var p := Lookup(s.rows, "").payload;
            var after := After(s, [Read(""), Settings(p.id, Set(name), Unset)]);
            AnswerTo(after, "") == Found(p) && Lookup(after.rows, "") == Found(p.(name := name))
  {
    var p := Lookup(s.rows, "").payload;
    FoundIsTheOne(s.rows, "");
    var events := [Read(""), Settings(p.id, Set(name), Unset)];
    assert events[..1] == [Read("")] && events[..1][..0] == [];
    var read := Step(s, Read(""));
    assert After(s, [Read("")]) == read == Store(s, "", p);
    var after := Step(read, events[1]);
    assert After(s, events) == after;
    assert "" !in Keys(after.rows[p.id]);
    LookupAfterWrite(read.rows, "", after.rows[p.id]);
  }

  /******* Staleness *******/

  /** The table held the entry's tenant at some point of the run, as long before the entry's expiry as the
      cache keeps entries. */
  ghost predicate Justified(s: State, events: seq<Event>, host: string, entry: Entry) {
    exists k :: 0 <= k <= |events|
      && After(s, events[..k]).now + TTL == entry.expires
      && Lookup(After(s, events[..k]).rows, host) == Found(entry.payload)
  }

  lemma {:induction false} EntriesAreJustified(s: State, events: seq<Event>, host: string)
    requires s.cache == map[] && host in After(s, events).cache
    ensures Justified(s, events, host, After(s, events).cache[host])
  {
    var front, last := events[..|events| - 1], events[|events| - 1];
    var before, entry := After(s, front), After(s, events).cache[host];
    if host in before.cache && before.cache[host] == entry {
      EntriesAreJustified(s, front, host);
      var k :| 0 <= k <= |front| && After(s, front[..k]).now + TTL == entry.expires
               && Lookup(After(s, front[..k]).rows, host) == Found(entry.payload);
      assert front[..k] == events[..k];
    } else {
      assert last == Read(host);
      assert events[..|front|] == front;
    }
  }

  /** With superadmin updates as well: every answer is what the table said at some moment of the run less than
      300 seconds ago. */
  lemma AnswersAreRecent(s: State, events: seq<Event>, host: string)
    requires s.cache == map[]
    ensures exists k :: 0 <= k <= |events|
              && After(s, events[..k]).now > After(s, events).now - 300
              && Lookup(After(s, events[..k]).rows, host) == AnswerTo(After(s, events), host)
  {
    var after := After(s, events);
    if Live(after, host) {
      EntriesAreJustified(s, events, host);
      var k :| 0 <= k <= |events| && After(s, events[..k]).now + TTL == after.cache[host].expires
               && Lookup(After(s, events[..k]).rows, host) == Found(after.cache[host].payload);
    } else {
      assert events[..|events|] == events;
    }
  }

  /** So a host whose tenant has not changed for 300 seconds is answered currently. */
  lemma QuietHostsAreCurrent(s: State, events: seq<Event>, host: string)
    requires s.cache == map[]
    requires forall k :: 0 <= k <= |events| && After(s, events[..k]).now > After(s, events).now - 300 ==>
               Lookup(After(s, events[..k]).rows, host) == Lookup(After(s, events).rows, host)
    ensures AnswerTo(After(s, events), host) == Lookup(After(s, events).rows, host)
  {
    AnswersAreRecent(s, events, host);
  }

  /** A host that no tenant has had is not in the cache, whoever has asked for it and whatever has been written. */
  lemma UnknownIsNeverCached(s: State, events: seq<Event>, host: string)
    requires s.cache == map[]
    requires forall k :: 0 <= k <= |events| ==> !Lookup(After(s, events[..k]).rows, host).Found?
    ensures host !in After(s, events).cache
  {
    if host in After(s, events).cache { EntriesAreJustified(s, events, host); }
  }

  /** The bound is reached: after a superadmin renames a cached tenant, the old name is answered for as long as
      the entry lives, and not longer. */
  lemma StaleUntilExpiry(s: State, host: string, name: string, seconds: nat)
    requires s.redis && s.cache == map[] && Lookup(s.rows, host).Found?
    requires s.rows[Lookup(s.rows, host).payload.id].plan in PLANS
    requires forall id, other :: id in s.rows && other in s.rows && id != other ==>
               s.rows[id].slug != s.rows[other].slug
               && (s.rows[id].customDomain.Some? ==> s.rows[id].customDomain != s.rows[other].customDomain)
    ensures var p := Lookup(s.rows, host).payload;
            var rename := TenantUpdate(Unset, Set(name), Unset, Unset, Unset, map[]);
            var after := Step(Step(Step(s, Read(host)), SuperUpdate(p.id, rename)), Wait(seconds));
            && Lookup(after.rows, host) == Found(p.(name := name))
            && AnswerTo(after, host) == if seconds < 300 then Found(p) else Found(p.(name := name))
  {
    var p := Lookup(s.rows, host).payload;
    FoundIsTheOne(s.rows, host);
    var rename := TenantUpdate(Unset, Set(name), Unset, Unset, Unset, map[]);
    var read := Step(s, Read(host));
    var row := Updated(s.rows[p.id], rename).value;
    assert !Refused(s.rows, p.id, row);
    var renamed := Step(read, SuperUpdate(p.id, rename));
    assert renamed.rows == s.rows[p.id := row];
    LookupAfterWrite(s.rows, host, row);
  }
}
