/** The readers and writers of the tenant table and its cache. */
module TenantService {
  import opened Wrappers
  import opened TenantCache

  datatype TenantError = TenantNotFound | MultipleResults | NullColumn | ConstraintViolated

  class Platform {
    var now: int // the clock, which runs by itself
    var redis: bool
    var rows: map<Uuid, Tenant>
    var cache: map<string, Entry>

    ghost function Now(): State
      reads this
    {
      State(now, redis, rows, cache)
    }

    constructor (redis: bool)
      ensures this.redis == redis && rows == map[] && cache == map[]
    {
      this.redis := redis;
      now, rows, cache := 0, map[], map[];
    }

    /** The query both readers send. */
    method Query(host: string) returns (a: Answer)
      ensures a == Lookup(rows, host)
    {
      var matches := set id | id in rows && HasHost(rows[id], host);
      assert forall id :: id in matches <==> Matches(rows, host, id);
      if matches == {} { return NoTenant; }
      var id :| id in matches;
      if matches != {id} {
        TwoMatchesAreAmbiguous(rows, host, matches, id);
        return Ambiguous;
      }
      LookupOne(rows, host, id);
      return Found(Project(id, rows[id]));
    }

    /** `TenantMiddleware._resolve_tenant`; `NoTenant` becomes a 404 response. */
    method ResolveTenant(host: string) returns (a: Answer)
      modifies this`cache
      ensures a == AnswerTo(old(Now()), host)
      ensures Now() == Step(old(Now()), Read(host))
    {
      if redis && host in cache && now < cache[host].expires { return Found(cache[host].payload); }
      a := Query(host);
      if a.Found? && redis {
        cache := cache[host := Entry(a.payload, now + TTL)];
      }
    }

    /** `get_current_tenant`: what the middleware resolved, if it ran, and the same cache otherwise. */
    method GetCurrentTenant(resolved: Option<Payload>, host: string) returns (r: Result<Payload, TenantError>)
      modifies this`cache
      ensures resolved.Some? ==> r == Success(resolved.value) && Now() == old(Now())
      ensures resolved == None ==> Now() == Step(old(Now()), Read(host))
      ensures resolved == None ==> match AnswerTo(old(Now()), host)
                case Found(payload) => r == Success(payload)
                case NoTenant => r == Failure(TenantNotFound)
                case Ambiguous => r == Failure(MultipleResults)
    {
      if resolved.Some? { return Success(resolved.value); }
      if redis {
        if host in cache && now < cache[host].expires { return Success(cache[host].payload); }
      }
      var tenant := Query(host);
      if tenant.Ambiguous? { return Failure(MultipleResults); }
      if tenant.NoTenant? { return Failure(TenantNotFound); }
      if redis { cache := cache[host := Entry(tenant.payload, now + TTL)]; }
      return Success(tenant.payload);
    }

    /** `_invalidate_tenant_cache`. */
    method InvalidateTenantCache(t: Tenant)
      modifies this`cache
      ensures cache == if redis then old(cache) - Keys(t) else old(cache)
      ensures forall host :: host in cache <==>
                host in old(cache)
                && !(redis && host != "" && (t.customDomain == Some(host) || t.subdomain == Some(host)))
    {
      if !redis { return; }
      var keys: set<string> := {};
      if t.customDomain.Some? && t.customDomain.value != "" { keys := keys + {t.customDomain.value}; }
      if t.subdomain.Some? && t.subdomain.value != "" { keys := keys + {t.subdomain.value}; }
      assert keys == Keys(t);
      if keys != {} { cache := cache - keys; } else { assert cache - keys == cache; }
    }

    method UpdateBranding(id: Uuid, branding: map<string, Option<string>>) returns (r: Result<Tenant, TenantError>)
      modifies this`rows, this`cache
      ensures Now() == Step(old(Now()), Branding(id, branding))
      ensures if id in old(rows) then id in rows && r == Success(rows[id]) else r == Failure(TenantNotFound)
    {
      if id !in rows { return Failure(TenantNotFound); }
      var t := rows[id].(branding := rows[id].branding + branding);
      rows := rows[id := t];
      InvalidateTenantCache(t);
      return Success(t);
    }

    method UpdateSettings(id: Uuid, name: Field<string>, features: Field<string>)
      returns (r: Result<Tenant, TenantError>)
      modifies this`rows, this`cache
      ensures Now() == Step(old(Now()), Settings(id, name, features))
      ensures r.Success? <==> id in old(rows) && !name.Null?
      ensures r.Success? ==> id in rows && r.value == rows[id]
    {
      if id !in rows { return Failure(TenantNotFound); }
      var t := rows[id];
      match name {
        case Unset =>
        case Null => return Failure(NullColumn);
        case Set(value) => t := t.(name := value);
      }
      match features {
        case Unset =>
        case Null => t := t.(features := None);
        case Set(value) => t := t.(features := Some(value));
      }
      rows := rows[id := t];
      InvalidateTenantCache(t);
      return Success(t);
    }

    /** `create_tenant`, without the menus it also writes. */
    method CreateTenant(id: Uuid, t: Tenant) returns (r: Result<Tenant, TenantError>)
      requires id !in rows
      modifies this`rows
      ensures Now() == Step(old(Now()), Create(id, t))
      ensures r.Success? <==> !Refused(old(rows), id, t)
    {
      if Refused(rows, id, t) { return Failure(ConstraintViolated); }
      rows := rows[id := t];
      return Success(t);
    }

    /** `update_tenant` of the superadmin: it leaves the cache alone. */
    method UpdateTenant(id: Uuid, update: TenantUpdate) returns (r: Result<Tenant, TenantError>)
      modifies this`rows
      ensures Now() == Step(old(Now()), SuperUpdate(id, update))
      ensures r == Failure(TenantNotFound) <==> id !in old(rows)
      ensures r.Success? ==> id in rows && r.value == rows[id]
      ensures r.Failure? ==> rows == old(rows)
    {
      if id !in rows { return Failure(TenantNotFound); }
      var row := Updated(rows[id], update);
      if row == None { return Failure(NullColumn); }
      if Refused(rows, id, row.value) { return Failure(ConstraintViolated); }
      rows := rows[id := row.value];
      return Success(row.value);
    }
  }

  lemma TwoMatchesAreAmbiguous(rows: map<Uuid, Tenant>, host: string, matches: set<Uuid>, id: Uuid)
    requires forall other :: other in matches <==> Matches(rows, host, other)
    requires id in matches && matches != {id}
    ensures Lookup(rows, host) == Ambiguous
  {
    assert (forall other :: other in matches ==> other == id) ==> matches == {id};
    if Lookup(rows, host).Found? { FoundIsTheOne(rows, host); }
  }
}
