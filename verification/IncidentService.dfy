/** The incident service as it runs: one request at a time over the tables and the shared cache. */
module IncidentService {
  import opened Prelude
  import opened Database
  import opened Backends
  import opened CacheService
  import KeyCodec

  function LoadOf(view: Result<Payload, Error>): Load<Payload> {
    if view.Ok? then Returns(Some(view.value)) else Raises
  }

  class IncidentDesk {
    const digest: KeyCodec.Digest
    const ttl: int
    const cache: Service<Payload>
    var db: Db

    constructor (digest: KeyCodec.Digest, ttl: int, cache: Service<Payload>, db: Db)
      ensures this.digest == digest && this.ttl == ttl && this.cache == cache && this.db == db
    {
      this.digest, this.ttl, this.cache, this.db := digest, ttl, cache, db;
    }

    /**
     * `get_incident_view`: one `get_or_set` under the incident's key. A backend that cannot be
     * read costs a load, never the request; a missing incident is never stored.
     */
    method GetIncidentView(org: nat, id: nat, now: real, storeNow: real, weather: Weather) returns (r: Result<Payload, Error>)
      modifies cache.backend, cache.metrics
      ensures var key := KeyCodec.IncidentKey(digest, org, id);
              var (s, o) := Serve(cache.codec, cache.enabled, old(cache.Now()),
                                  Request.GetOrSet(key, ttl, LoadOf(View(db, org, id)), now, storeNow, weather));
              cache.Now() == s && r == (if o.Found? then Ok(o.value) else View(db, org, id))
      ensures !weather.readUp ==> r == View(db, org, id)
      ensures !weather.readUp && Consistent(db) ==>
        if id in db.incidents && db.incidents[id].org == org then r.Ok? && ShowsRow(db, org, id, r.value) else r == Err(NotFound)
      ensures View(db, org, id).Err? ==> cache.backend.entries.Keys <= old(cache.backend.entries.Keys)
    {
      var key := KeyCodec.IncidentKey(digest, org, id);
      if Consistent(db) {
        ViewShowsRow(db, org, id);
      }
      var view := View(db, org, id);
      var value, ran, dropped := cache.GetOrSet(key, ttl, LoadOf(view), now, storeNow, weather);
      if value.Returns? && value.value.Some? {
        r := Ok(value.value.value);
      } else {
        r := Err(view.error);
      }
    }

    /** `create_incident`: the row is open and unresolved, and nothing is cached or invalidated. */
    method CreateIncident(org: nat, project: nat, user: nat, payload: NewIncident, now: real) returns (r: Result<nat, Error>)
      modifies this`db
      ensures (db, r) == Database.CreateIncident(old(db), org, project, user, payload, now)
      ensures r.Ok? ==>
        && r.value == old(db).nextIncident
        && r.value in db.incidents && db.incidents[r.value].org == org && db.incidents[r.value].project == project
        && db.incidents[r.value].columns.status == Open && db.incidents[r.value].columns.resolvedAt == None
      ensures r.Err? ==> db == old(db)
    {
      var p := GetProject(db, org, project);
      if p.Err? {
        return Err(p.error);
      }
      if db.nextIncident >= KeyCodec.ID_LIMIT {
        return Err(DatabaseError);
      }
      var service := OrElse(payload.affectedService, p.value.primaryService);
      var startedAt := if payload.startedAt.Some? then payload.startedAt.value else now;
      var columns := Columns(payload.title, payload.description, payload.severity, Open, payload.source,
                             service, startedAt, None, now, now);
      r := Ok(db.nextIncident);
      db := db.(incidents := db.incidents[db.nextIncident := Incident(org, project, user, columns)],
                nextIncident := db.nextIncident + 1);
    }

    /** `_apply_status_side_effects` on the session's row. */
    method ApplyStatusSideEffects(row: Draft, newStatus: Status, now: real) returns (after: Draft)
      ensures after.status == row.status
      ensures row.status == Some(newStatus) ==> (after.resolvedAt.Some? <==> Terminal(newStatus))
      ensures after.resolvedAt.Some? && row.resolvedAt.Some? ==> after.resolvedAt == row.resolvedAt
      ensures after == SideEffects(row, newStatus, now)
    {
      after := row;
      if Terminal(newStatus) {
        if after.resolvedAt.None? {
          after := after.(resolvedAt := Some(now));
        }
      } else {
        after := after.(resolvedAt := None);
      }
    }

    /**
     * `update_incident`: set the attributes one by one, derive `resolved_at`, commit, and only then
     * invalidate. A request that fails, in the lookup or in the commit, leaves row and cache alone.
     */
    method UpdateIncident(org: nat, id: nat, changes: seq<Change>, now: real, up: bool) returns (r: Result<(), Error>)
      modifies this`db, cache.backend, cache.metrics
      ensures (db, r) == Database.UpdateIncident(old(db), org, id, changes, now)
      ensures r.Err? ==> db == old(db) && cache.Now() == old(cache.Now())
      ensures r.Ok? ==>
        cache.Now() == DoInvalidate(cache.enabled, old(cache.Now()), [KeyCodec.IncidentKey(digest, org, id)], up).0
    {
      var found := GetIncident(db, org, id);
      if found.Err? {
        return Err(found.error);
      }
      var base := found.value.columns;
      var row, newStatus := DraftOf(base), None;
      for i := 0 to |changes|
        invariant row == SetAttrs(DraftOf(base), changes[..i])
        invariant newStatus == NewStatus(changes[..i])
        invariant db == old(db) && cache.Now() == old(cache.Now())
      {
        assert changes[..i + 1][..i] == changes[..i];
        row := SetAttr(row, changes[i]);
        if changes[i].SetStatus? {
          newStatus := changes[i].status;
        }
      }
      assert changes[..|changes|] == changes;
      if newStatus.Some? {
        row := ApplyStatusSideEffects(row, newStatus.value, now);
      }
      var (after, ok) := CommitUpdate(db, id, base, row, now);
      if !ok {
        return Err(DatabaseError);
      }
      db := after;
      var deleted := cache.Invalidate([KeyCodec.IncidentKey(digest, org, id)], up);
      return Ok(());
    }
  }

  /**
   * With the backend up, a view right after a committed update is the view of the updated tables,
   * read from the database; and until that entry lapses the next view serves the same from the cache.
   */
  lemma UpdateThenView(codec: Codec<Payload>, s: State, digest: KeyCodec.Digest, db: Db, org: nat, id: nat,
                       changes: seq<Change>, ttl: int, at: real, now: real, storeNow: real, later: real, down: Load<Payload>)
    requires Database.UpdateIncident(db, org, id, changes, at).1.Ok?
    ensures var key, up := KeyCodec.IncidentKey(digest, org, id), Weather(true, true, true);
            var after := Database.UpdateIncident(db, org, id, changes, at).0;
            var s1 := DoInvalidate(true, s, [key], true).0;
            var (s2, o) := Serve(codec, true, s1, Request.GetOrSet(key, ttl, LoadOf(View(after, org, id)), now, storeNow, up));
            && View(after, org, id).Ok?
            && o == Loaded(Some(View(after, org, id).value), 0)
            && (ReadsBack(codec, View(after, org, id).value) && later < storeNow + ttl as real ==>
                  Serve(codec, true, s2, Request.GetOrSet(key, ttl, down, later, later, up)).1
                  == Found(View(after, org, id).value, 0))
  {
    var key, up := KeyCodec.IncidentKey(digest, org, id), Weather(true, true, true);
    var after := Database.UpdateIncident(db, org, id, changes, at).0;
    UpdatedRowStays(db, org, id, changes, at);
    var s1 := DoInvalidate(true, s, [key], true).0;
    ViewAfterDrop(codec, s, key, View(after, org, id).value, ttl, now, storeNow, later, down);
  }

  lemma UpdatedRowStays(db: Db, org: nat, id: nat, changes: seq<Change>, at: real)
    requires Database.UpdateIncident(db, org, id, changes, at).1.Ok?
    ensures View(Database.UpdateIncident(db, org, id, changes, at).0, org, id).Ok?
  {
  }

  /** A lookup of a key that was just deleted loads and stores; the next one finds what was stored. */
  lemma ViewAfterDrop(codec: Codec<Payload>, s: State, key: string, p: Payload, ttl: int, now: real, storeNow: real,
                      later: real, down: Load<Payload>)
    ensures var up := Weather(true, true, true);
            var s1 := DoInvalidate(true, s, [key], true).0;
            var (s2, o) := Serve(codec, true, s1, Request.GetOrSet(key, ttl, Returns(Some(p)), now, storeNow, up));
            && o == Loaded(Some(p), 0)
            && (ReadsBack(codec, p) && later < storeNow + ttl as real ==>
                  Serve(codec, true, s2, Request.GetOrSet(key, ttl, down, later, later, up)).1 == Found(p, 0))
  {
    hide DoGet, DoSet, DoInvalidate, Serve, ReadsBack;
    var up := Weather(true, true, true);
    var s1 := DoInvalidate(true, s, [key], true).0;
    GetAfterDrop(codec, s, key, now, up);
    var first := Request.GetOrSet(key, ttl, Returns(Some(p)), now, storeNow, up);
    ServeLookup(codec, true, s1, first);
    var t := DoGet(codec, true, s1, key, now, up).0;
    var s2 := DoSet(codec, true, t, key, Some(p), ttl, storeNow, true);
    assert Serve(codec, true, s1, first) == (s2, Loaded(Some(p), 0));
    if ReadsBack(codec, p) && later < storeNow + ttl as real {
      SetThenGet(codec, t, key, p, ttl, storeNow, later, up);
      FoundDropsNothing(codec, s2, key, later, up);
      ServeLookup(codec, true, s2, Request.GetOrSet(key, ttl, down, later, later, up));
    }
  }

  lemma GetAfterDrop(codec: Codec<Payload>, s: State, key: string, now: real, w: Weather)
    ensures var s1 := DoInvalidate(true, s, [key], true).0;
            var (_, v, n) := DoGet(codec, true, s1, key, now, w);
            v.None? && n == 0
  {
    assert key in Keyed([key]);
  }

  lemma FoundDropsNothing(codec: Codec<Payload>, s: State, key: string, now: real, w: Weather)
    ensures var (_, v, n) := DoGet(codec, true, s, key, now, w);
            v.Some? ==> n == 0
  {
  }
}
