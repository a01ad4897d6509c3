/** The tenant cache with overlapping requests: readers load from the table and store into the cache in separate
    moments, writers commit and delete keys in separate moments. */
module TenantRace {
  import opened Wrappers
  import opened TenantCache

  datatype Loaded = Loaded(host: string, payload: Payload)

  /** A reader that has found no live entry loads from the table; later it puts what it has loaded into the cache.
      A writer commits; if its request clears the cache, it later deletes the keys of the tenant it has written. An
      event that clears nothing, such as time passing, is a commit alone. */
  datatype Moment =
    | Load(reader: nat, host: string)
    | Put(reader: nat)
    | Commit(writer: nat, event: Event)
    | Delete(writer: nat, tenant: Uuid)

  /** `pending` holds the writers that have committed to a tenant and not yet deleted its keys. */
  datatype Race = Race(state: State, flight: map<nat, Loaded>, pending: set<(nat, Uuid)>)

  /** The tenant whose keys a request deletes after its commit. */
  function Clears(s: State, ev: Event): Option<Uuid> {
    match ev
    case Branding(id, _) => if id in s.rows then Some(id) else None
    case Settings(id, name, _) => if id in s.rows && !name.Null? then Some(id) else None
    case _ => None
  }

  ghost function Step(r: Race, m: Moment): Race {
    match m
    case Load(reader, host) =>
      var found := Lookup(r.state.rows, host);
      if found.Found? then r.(flight := r.flight[reader := Loaded(host, found.payload)])
      else r.(flight := r.flight - {reader})
    case Put(reader) =>
      if reader !in r.flight then r
      else
        var l := r.flight[reader];
        r.(state := if r.state.redis then Store(r.state, l.host, l.payload) else r.state, flight := r.flight - {reader})
    case Commit(writer, ev) =>
      var clears := Clears(r.state, ev);
      r.(state := TenantCache.Step(r.state, ev).(cache := r.state.cache),
         pending := r.pending + if clears.Some? then {(writer, clears.value)} else {})
    case Delete(writer, id) =>
      if (writer, id) !in r.pending || id !in r.state.rows then r
      else r.(state := if r.state.redis then r.state.(cache := r.state.cache - Keys(r.state.rows[id])) else r.state,
              pending := r.pending - {(writer, id)})
  }

  ghost function After(s: State, ms: seq<Moment>): Race {
    if ms == [] then Race(s, map[], {}) else Step(After(s, ms[..|ms| - 1]), ms[|ms| - 1])
  }

  ghost function RowsAt(s: State, ms: seq<Moment>, n: nat): map<Uuid, Tenant>
    requires n <= |ms|
  {
    After(s, ms[..n]).state.rows
  }

  ghost function TimeAt(s: State, ms: seq<Moment>, n: nat): int
    requires n <= |ms|
  {
    After(s, ms[..n]).state.now
  }

  /** A whole read is a load with its put right after it. */
  lemma ReadIsLoadThenPut(r: Race, reader: nat, host: string)
    requires reader !in r.flight && !Live(r.state, host)
    ensures Step(Step(r, Load(reader, host)), Put(reader)) ==
            r.(state := TenantCache.Step(r.state, TenantCache.Read(host)))
  {
    var found := Lookup(r.state.rows, host);
    if found.Found? {
      assert r.flight[reader := Loaded(host, found.payload)] - {reader} == r.flight;
    } else {
      assert r.flight - {reader} == r.flight;
    }
  }

  /** A whole write is a commit with its deletion right after it, or a commit alone if the request clears nothing. */
  lemma WriteIsCommitThenDelete(r: Race, writer: nat, ev: Event)
    requires !ev.Read? && forall id :: (writer, id) !in r.pending
    ensures var clears := Clears(r.state, ev);
            r.(state := TenantCache.Step(r.state, ev)) ==
            if clears.Some? then Step(Step(r, Commit(writer, ev)), Delete(writer, clears.value))
            else Step(r, Commit(writer, ev))
  {
    var clears := Clears(r.state, ev);
    if clears.Some? {
      assert r.pending + {(writer, clears.value)} - {(writer, clears.value)} == r.pending;
    } else {
      assert r.pending + {} == r.pending;
    }
  }

  /******* Where an entry comes from *******/

  /** When the pending load of a reader happened. */
  function LoadAt(ms: seq<Moment>, reader: nat): (at: Option<nat>)
    ensures at.Some? ==> at.value < |ms| && ms[at.value].Load? && ms[at.value].reader == reader
  {
    if ms == [] then None
    else
      var last := ms[|ms| - 1];
      if last.Load? && last.reader == reader then Some(|ms| - 1)
      else if last == Put(reader) then None
      else LoadAt(ms[..|ms| - 1], reader)
  }

  /** The moment that ends the race is a put of what a reader has loaded for the host. */
  ghost predicate PutsLast(s: State, ms: seq<Moment>, host: string) {
    ms != [] && ms[|ms| - 1].Put? &&
    var front := ms[..|ms| - 1];
    var at := LoadAt(front, ms[|ms| - 1].reader);
    at.Some? && front[at.value].host == host && Lookup(After(s, front[..at.value]).state.rows, host).Found?
  }

  /** The last put for a host. */
  ghost function PutAt(s: State, ms: seq<Moment>, host: string): (at: Option<nat>)
    ensures at.Some? ==> at.value < |ms| && ms[at.value].Put?
  {
    if ms == [] then None
    else if PutsLast(s, ms, host) then Some(|ms| - 1)
    else PutAt(s, ms[..|ms| - 1], host)
  }

  /** The entry of a host was put at moment `put` by a reader that had loaded it at moment `load`. */
  ghost predicate From(s: State, ms: seq<Moment>, host: string, load: nat, put: nat, entry: Entry) {
    && load < put < |ms|
    && PutAt(s, ms, host) == Some(put)
    && LoadAt(ms[..put], ms[put].reader) == Some(load)
    && Lookup(RowsAt(s, ms, load), host) == Found(entry.payload)
    && entry.expires == TimeAt(s, ms, put) + TTL
  }

  lemma PrefixOfFront(ms: seq<Moment>, n: nat)
    requires n < |ms|
    ensures ms[..|ms| - 1][..n] == ms[..n]
  {}

  lemma {:induction false} FlightIsLoaded(s: State, ms: seq<Moment>, reader: nat)
    ensures var r, at := After(s, ms), LoadAt(ms, reader);
            if at == None then reader !in r.flight
            else
              var found := Lookup(RowsAt(s, ms, at.value), ms[at.value].host);
              (reader in r.flight <==> found.Found?)
              && (reader in r.flight ==> r.flight[reader] == Loaded(ms[at.value].host, found.payload))
  {
    if ms != [] {
      var front := ms[..|ms| - 1];
      FlightIsLoaded(s, front, reader);
      var at := LoadAt(ms, reader);
      if at.Some? && at.value < |front| { PrefixOfFront(ms, at.value); }
    }
  }

  /** What the last moment does to the entry of a host. */
  lemma LastMoment(s: State, ms: seq<Moment>, host: string)
    requires ms != []
    ensures var before, after := After(s, ms[..|ms| - 1]).state, After(s, ms).state;
            if PutsLast(s, ms, host) && before.redis then host in after.cache
            else host in after.cache ==> host in before.cache && after.cache[host] == before.cache[host]
  {
    var front, last := ms[..|ms| - 1], ms[|ms| - 1];
    if last.Put? { FlightIsLoaded(s, front, last.reader); }
  }

  lemma PutEntry(s: State, ms: seq<Moment>, host: string, load: nat)
    requires PutsLast(s, ms, host) && After(s, ms[..|ms| - 1]).state.redis
    requires LoadAt(ms[..|ms| - 1], ms[|ms| - 1].reader) == Some(load)
    ensures var after := After(s, ms).state;
            && host in after.cache
            && Lookup(After(s, ms[..load]).state.rows, host) == Found(after.cache[host].payload)
            && after.cache[host].expires == After(s, ms[..|ms| - 1]).state.now + TTL
  {
    FlightIsLoaded(s, ms[..|ms| - 1], ms[|ms| - 1].reader);
    PrefixOfFront(ms, load);
  }

  lemma {:induction false} RedisStays(s: State, ms: seq<Moment>)
    ensures After(s, ms).state.redis == s.redis
    ensures !s.redis && s.cache == map[] ==> After(s, ms).state.cache == map[]
  {
    if ms != [] { RedisStays(s, ms[..|ms| - 1]); }
  }

  lemma FromFront(s: State, ms: seq<Moment>, host: string, load: nat, put: nat, entry: Entry)
    requires ms != [] && !PutsLast(s, ms, host) && From(s, ms[..|ms| - 1], host, load, put, entry)
    ensures From(s, ms, host, load, put, entry)
  {
    PrefixOfFront(ms, put);
    PrefixOfFront(ms, load);
  }

  /** Every entry has been put by a reader that had loaded it before. */
  lemma {:induction false} EntryOrigin(s: State, ms: seq<Moment>, host: string) returns (load: nat, put: nat)
    requires s.cache == map[] && host in After(s, ms).state.cache
    ensures From(s, ms, host, load, put, After(s, ms).state.cache[host])
  {
    var front := ms[..|ms| - 1];
    LastMoment(s, ms, host);
    RedisStays(s, front);
    RedisStays(s, ms);
    if PutsLast(s, ms, host) {
      put := |front|;
      load := LoadAt(front, ms[put].reader).value;
      PutEntry(s, ms, host, load);
    } else {
      load, put := EntryOrigin(s, front, host);
      FromFront(s, ms, host, load, put, After(s, ms).state.cache[host]);
    }
  }

  /******* Staleness *******/

  /** No reader takes longer than `delay` from its load to its put. */
  ghost predicate DelaysAtMost(s: State, ms: seq<Moment>, delay: int) {
    forall k :: 0 <= k < |ms| && ms[k].Put? && LoadAt(ms[..k], ms[k].reader).Some? ==>
      TimeAt(s, ms, k) - TimeAt(s, ms, LoadAt(ms[..k], ms[k].reader).value) <= delay
  }

  /** Whatever is written, superadmin updates included: every answer is what the table said at some moment of the race
      less than 300 seconds and the longest delay from load to put ago. */
  lemma AnswersAreRecent(s: State, ms: seq<Moment>, host: string, delay: nat)
    requires s.cache == map[] && DelaysAtMost(s, ms, delay)
    ensures exists k :: 0 <= k <= |ms|
              && TimeAt(s, ms, k) > After(s, ms).state.now - 300 - delay
              && Lookup(RowsAt(s, ms, k), host) == AnswerTo(After(s, ms).state, host)
  {
    if Live(After(s, ms).state, host) {
      var load, put := EntryOrigin(s, ms, host);
      assert Lookup(RowsAt(s, ms, load), host) == AnswerTo(After(s, ms).state, host);
    } else {
      assert ms[..|ms|] == ms;
      assert Lookup(RowsAt(s, ms, |ms|), host) == AnswerTo(After(s, ms).state, host);
    }
  }

  /******* Agreement *******/

  /** Readers and writers in any interleaving, but no updates of the superadmin. */
  ghost predicate AdminRace(s: State, ms: seq<Moment>) {
    forall k :: 0 <= k < |ms| && ms[k].Commit? ==> AdminOnly(After(s, ms[..k]).state, ms[k].event)
  }

  /** What the settings requests committed after the first `from` moments make, one after the other, of a tenant's
      payload. */
  function Rewritten(p: Payload, ms: seq<Moment>, from: nat): Payload {
    if |ms| <= from then p
    else
      var was, last := Rewritten(p, ms[..|ms| - 1], from), ms[|ms| - 1];
      if last.Commit? && last.event.Settings? && last.event.id == p.id && !last.event.name.Null? then
        was.(name := Given(last.event.name, was.name), features := GivenOrNull(last.event.features, was.features))
      else was
  }

  lemma {:induction false} RewrittenKeepsId(p: Payload, ms: seq<Moment>, from: nat)
    ensures Rewritten(p, ms, from).id == p.id
  {
    if |ms| > from { RewrittenKeepsId(p, ms[..|ms| - 1], from); }
  }

  lemma AdminRacePrefix(s: State, ms: seq<Moment>)
    requires ms != [] && AdminRace(s, ms)
    ensures AdminRace(s, ms[..|ms| - 1])
    ensures ms[|ms| - 1].Commit? ==> AdminOnly(After(s, ms[..|ms| - 1]).state, ms[|ms| - 1].event)
  {
    var front := ms[..|ms| - 1];
    forall k | 0 <= k < |front| && front[k].Commit? ensures AdminOnly(After(s, front[..k]).state, front[k].event) {
      PrefixOfFront(ms, k);
      assert ms[k].Commit?;
    }
  }

  /** What one admin event makes of a tenant that has the host. */
  lemma AdminEventOn(s: State, writer: nat, ev: Event, host: string, p: Payload)
    requires Lookup(s.rows, host) == Found(p) && AdminOnly(s, ev)
    ensures Lookup(TenantCache.Step(s, ev).rows, host) == Found(Rewritten(p, [Commit(writer, ev)], 0))
  {
    assert [Commit(writer, ev)][..0] == [];
    FoundIsTheOne(s.rows, host);
    var after := TenantCache.Step(s, ev).rows;
    match ev
    case Branding(id, branding) =>
      if id == p.id { LookupAfterWrite(s.rows, host, after[id]); } else { OtherTenant(s.rows, after, host, id); }
    case Settings(id, name, features) =>
      if id == p.id && !name.Null? { LookupAfterWrite(s.rows, host, after[id]); }
      if id != p.id { OtherTenant(s.rows, after, host, id); }
    case Create(id, tenant) => SameElsewhere(s.rows, after, host, id);
    case _ =>
  }

  /** An admin write to another tenant, which does not have the host. */
  lemma OtherTenant(before: map<Uuid, Tenant>, after: map<Uuid, Tenant>, host: string, id: Uuid)
    requires Lookup(before, host).Found? && id != Lookup(before, host).payload.id
    requires after == before || (id in before && id in after && after == before[id := after[id]]
                                 && after[id].customDomain == before[id].customDomain
                                 && after[id].subdomain == before[id].subdomain)
    ensures Lookup(after, host) == Lookup(before, host)
  {
    FoundIsTheOne(before, host);
    if after != before {
      assert !Matches(before, host, id);
      SameElsewhere(before, after, host, id);
    }
  }

  /** A write to another tenant, which does not have the host afterwards, changes nothing for it. */
  lemma SameElsewhere(before: map<Uuid, Tenant>, after: map<Uuid, Tenant>, host: string, id: Uuid)
    requires Lookup(before, host).Found?
    requires after == before || (id in after && after == before[id := after[id]]
                                 && id != Lookup(before, host).payload.id && !HasHost(after[id], host))
    ensures Lookup(after, host) == Lookup(before, host)
  {
    FoundIsTheOne(before, host);
    if after != before {
      forall other ensures Matches(before, host, other) <==> Matches(after, host, other) {}
      SameMatchesSameLookup(before, after, host);
    }
  }

  /** From the moment a host is found, the table says of it what the settings requests since then have made of it. */
  lemma {:induction false} FoundIsRewritten(s: State, ms: seq<Moment>, from: nat, host: string, p: Payload)
    requires AdminRace(s, ms) && from <= |ms| && Lookup(RowsAt(s, ms, from), host) == Found(p)
    ensures Lookup(After(s, ms).state.rows, host) == Found(Rewritten(p, ms, from))
    decreases |ms|
  {
    if from == |ms| {
      assert ms[..from] == ms;
    } else {
      var front, last := ms[..|ms| - 1], ms[|ms| - 1];
      AdminRacePrefix(s, ms);
      PrefixOfFront(ms, from);
      FoundIsRewritten(s, front, from, host, p);
      RewrittenKeepsId(p, front, from);
      if last.Commit? {
        AdminEventOn(After(s, front).state, last.writer, last.event, host, Rewritten(p, front, from));
        assert [last][..0] == [];
      }
    }
  }

  /** For every host, the empty one included: an entry agrees with the table exactly if the settings requests since it
      was loaded have left what was loaded as it was. */
  lemma EntryAgreesIff(s: State, ms: seq<Moment>, host: string, load: nat, put: nat)
    requires s.cache == map[] && AdminRace(s, ms) && host in After(s, ms).state.cache
    requires From(s, ms, host, load, put, After(s, ms).state.cache[host])
    ensures var p := After(s, ms).state.cache[host].payload;
            Lookup(After(s, ms).state.rows, host) == Found(p) <==> Rewritten(p, ms, load) == p
  {
    FoundIsRewritten(s, ms, load, host, After(s, ms).state.cache[host].payload);
  }

  /** No writer has yet to delete the keys of a tenant. */
  ghost predicate NothingPending(r: Race, id: Uuid) {
    forall writer: nat :: (writer, id) !in r.pending
  }

  /** A moment after which an entry of a host that is not empty is still there and its tenant has no deletion pending:
      there was none before either, and no settings request for the tenant has been committed. */
  lemma QuietMoment(r: Race, m: Moment, host: string, p: Payload)
    requires r.state.redis && host != "" && Lookup(r.state.rows, host) == Found(p)
    requires !m.Put? && host in Step(r, m).state.cache && NothingPending(Step(r, m), p.id)
    ensures NothingPending(r, p.id)
    ensures m.Commit? && m.event.Settings? && m.event.id == p.id ==> m.event.name.Null?
  {
    FoundIsTheOne(r.state.rows, host);
    var after := Step(r, m);
    assert host in Keys(r.state.rows[p.id]);
    if m.Commit? {
      var writer := m.writer;
      assert Clears(r.state, m.event) == Some(p.id) ==> (writer, p.id) in after.pending;
    }
    forall writer: nat ensures (writer, p.id) !in r.pending {
      assert (writer, p.id) in r.pending && m != Delete(writer, p.id) ==> (writer, p.id) in after.pending;
    }
  }

  /** So once the deletions are done, the requests that count have been committed before the put. */
  lemma {:induction false} QuietSincePut(s: State, ms: seq<Moment>, host: string, load: nat, put: nat, entry: Entry)
    requires s.cache == map[] && AdminRace(s, ms) && host != ""
    requires host in After(s, ms).state.cache && entry == After(s, ms).state.cache[host]
    requires From(s, ms, host, load, put, entry) && NothingPending(After(s, ms), entry.payload.id)
    ensures Rewritten(entry.payload, ms, load) == Rewritten(entry.payload, ms[..put], load)
  {
    var front, last, p := ms[..|ms| - 1], ms[|ms| - 1], entry.payload;
    AdminRacePrefix(s, ms);
    LastMoment(s, ms, host);
    RedisStays(s, front);
    RedisStays(s, ms);
    if PutsLast(s, ms, host) {
      assert ms[..put] == front;
    } else {
      var l, k := EntryOrigin(s, front, host);
      FromFront(s, ms, host, l, k, entry);
      assert From(s, front, host, load, put, entry);
      PrefixOfFront(ms, put);
      PrefixOfFront(ms, load);
      FoundIsRewritten(s, front, load, host, p);
      RewrittenKeepsId(p, front, load);
      if !last.Put? { QuietMoment(After(s, front), last, host, Rewritten(p, front, load)); }
      QuietSincePut(s, front, host, load, put, entry);
    }
  }

  /** For a host that is not empty and whose tenant has no deletion pending: an entry agrees with the table exactly if
      the settings requests between its load and its put have left what was loaded as it was. */
  lemma LateStoreAgreesIff(s: State, ms: seq<Moment>, host: string, load: nat, put: nat)
    requires s.cache == map[] && AdminRace(s, ms) && host != "" && host in After(s, ms).state.cache
    requires From(s, ms, host, load, put, After(s, ms).state.cache[host])
    requires NothingPending(After(s, ms), After(s, ms).state.cache[host].payload.id)
    ensures var p := After(s, ms).state.cache[host].payload;
            Lookup(After(s, ms).state.rows, host) == Found(p) <==> Rewritten(p, ms[..put], load) == p
  {
    EntryAgreesIff(s, ms, host, load, put);
    QuietSincePut(s, ms, host, load, put, After(s, ms).state.cache[host]);
  }

  /******* What goes wrong *******/

  /** A reader that loads before a rename and puts after it caches the old name, although the rename has deleted the
      keys: nothing is pending any more, and the answer is outdated. */
  lemma LateStoreGoesStale(s: State, host: string, name: string)
    requires s.redis && s.cache == map[] && Lookup(s.rows, host).Found? && Lookup(s.rows, host).payload.name != name
    ensures var p := Lookup(s.rows, host).payload;
            var rename := Settings(p.id, Set(name), Unset);
            var after := After(s, [Load(0, host)] + [Commit(1, rename)] + [Delete(1, p.id)] + [Put(0)]);
            && after.flight == map[] && after.pending == {}
            && AnswerTo(after.state, host) == Found(p) && Lookup(after.state.rows, host) == Found(p.(name := name))
  {
    var p := Lookup(s.rows, host).payload;
    var rename := Settings(p.id, Set(name), Unset);
    var one := [Load(0, host)];
    var two := one + [Commit(1, rename)];
    var three := two + [Delete(1, p.id)];
    var four := three + [Put(0)];
    assert one[..0] == [] && two[..1] == one && three[..2] == two && four[..3] == three;
    FoundIsTheOne(s.rows, host);
    assert After(s, one) == Race(s, map[0 := Loaded(host, p)], {});
    LookupAfterWrite(s.rows, host, After(s, two).state.rows[p.id]);
    assert map[0 := Loaded(host, p)] - {0} == map[];
  }

  /** Between a rename and its deletion of the keys, the old name is answered from the cache; the deletion ends that. */
  lemma StaleUntilDeletion(s: State, host: string, name: string)
    requires s.redis && s.cache == map[] && host != ""
    requires Lookup(s.rows, host).Found? && Lookup(s.rows, host).payload.name != name
    ensures var p := Lookup(s.rows, host).payload;
            var rename := Settings(p.id, Set(name), Unset);
            var committed := After(s, [Load(0, host)] + [Put(0)] + [Commit(1, rename)]);
            var deleted := Step(committed, Delete(1, p.id));
            && AnswerTo(committed.state, host) == Found(p)
            && Lookup(committed.state.rows, host) == Found(p.(name := name)) == AnswerTo(deleted.state, host)
  {
    var p := Lookup(s.rows, host).payload;
    var rename := Settings(p.id, Set(name), Unset);
    var one := [Load(0, host)];
    var two := one + [Put(0)];
    var three := two + [Commit(1, rename)];
    assert one[..0] == [] && two[..1] == one && three[..2] == two;
    FoundIsTheOne(s.rows, host);
    assert After(s, one) == Race(s, map[0 := Loaded(host, p)], {});
    assert After(s, two).state == Store(s, host, p);
    LookupAfterWrite(s.rows, host, After(s, three).state.rows[p.id]);
    assert host in Keys(After(s, three).state.rows[p.id]);
  }
}
