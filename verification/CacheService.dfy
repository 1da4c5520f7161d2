/**
 * The cache-aside helpers and their counters (cache/cache_service.py, cache/metrics.py).
 * Whether the backend answers or raises `CacheUnavailable` is a parameter of every call.
 */
module CacheService {
  import opened Prelude
  import opened Backends
  import Decimal
  import Glob

  /** `json.loads`: a `JSONDecodeError`, the literal null, or a document. */
  datatype Decoded<+V> = Undecodable | Null | Doc(value: V)

  datatype Codec<!V> = Codec(dumps: V -> string, loads: string -> Decoded<V>)

  /** Neither the text of a value nor that of a counter is the JSON null. */
  ghost predicate NeverNull<V(!new)>(codec: Codec<V>) {
    && (forall v: V :: !codec.loads(codec.dumps(v)).Null?)
    && (forall n: int :: !codec.loads(Decimal.Str(n)).Null?)
  }

  /** This value comes back from its text as it was, as JSON documents do. */
  predicate ReadsBack<V(==)>(codec: Codec<V>, value: V) {
    codec.loads(codec.dumps(value)) == Doc(value)
  }

  datatype Counts = Counts(hits: nat, misses: nat, errors: nat, invalidations: nat)

  class Counters {
    var hits: nat
    var misses: nat
    var errors: nat
    var invalidations: nat

    constructor ()
      ensures Snapshot() == Counts(0, 0, 0, 0)
    {
      hits, misses, errors, invalidations := 0, 0, 0, 0;
    }

    function Snapshot(): Counts
      reads this
    {
      Counts(hits, misses, errors, invalidations)
    }

    method RecordHit()
      modifies this
      ensures Snapshot() == old(Snapshot()).(hits := old(hits) + 1)
    {
      hits := hits + 1;
    }

    method RecordMiss()
      modifies this
      ensures Snapshot() == old(Snapshot()).(misses := old(misses) + 1)
    {
      misses := misses + 1;
    }

    method RecordError()
      modifies this
      ensures Snapshot() == old(Snapshot()).(errors := old(errors) + 1)
    {
      errors := errors + 1;
    }

    method RecordInvalidation(count: nat)
      modifies this
      ensures Snapshot() == old(Snapshot()).(invalidations := old(invalidations) + count)
    {
      invalidations := invalidations + count;
    }
  }

  /** The stored entries and the counters: all the state the helpers act on. */
  datatype State = State(entries: Entries, counts: Counts)

  datatype Load<+V> = Raises | Returns(value: Option<V>)

  /** How the backend behaves during one lookup: does the read, the drop of a bad entry, the store raise? */
  datatype Weather = Weather(readUp: bool, dropUp: bool, storeUp: bool)

  datatype Request<V> =
    | Get(key: string, now: real, weather: Weather)
    | Set(key: string, value: Option<V>, ttl: int, now: real, up: bool)
    | GetOrSet(key: string, ttl: int, load: Load<V>, now: real, storeNow: real, weather: Weather)
    | Invalidate(keys: seq<string>, up: bool)
    | InvalidatePattern(pattern: string, up: bool)
    | Increment(key: string, ttl: int, now: real, later: real, up: bool)

  datatype Outcome<V> =
    | Found(value: V, dropped: nat)          // served from the cache
    | Absent(dropped: nat)                   // `get` returned None
    | Loaded(loaded: Option<V>, dropped: nat) // the loader ran and returned
    | LoadFailed(dropped: nat)               // the loader ran and raised
    | Stored
    | Deleted(count: nat)
    | Counted(total: int)
    | Crashed                                // `int()` raised inside the backend

  function Raise(s: State): State {
    s.(counts := s.counts.(errors := s.counts.errors + 1))
  }

  function DoInvalidate(on: bool, s: State, keys: seq<string>, up: bool): (State, nat) {
    if keys == [] then (s, 0)
    else if !up then (Raise(s), 0)
    else if !on then (s, 0)
    else
      var n := |Keyed(keys) * s.entries.Keys|;
      (State(s.entries - Keyed(keys), s.counts.(invalidations := s.counts.invalidations + n)), n)
  }

  function DoGet<V>(codec: Codec<V>, on: bool, s: State, key: string, now: real, w: Weather): (State, Option<V>, nat) {
    if !w.readUp then (Raise(s), None, 0)
    else
      var raw := if on then Find(Live(s.entries, now), key) else None;
      var kept := if on then s.(entries := Dropped(s.entries, key, now)) else s;
      if raw.None? then (kept.(counts := kept.counts.(misses := kept.counts.misses + 1)), None, 0)
      else
        match codec.loads(raw.value)
        case Undecodable =>
          var (t, n) := DoInvalidate(on, kept, [key], w.dropUp);
          (t.(counts := t.counts.(misses := t.counts.misses + 1)), None, n)
        case Null => (kept.(counts := kept.counts.(hits := kept.counts.hits + 1)), None, 0)
        case Doc(v) => (kept.(counts := kept.counts.(hits := kept.counts.hits + 1)), Some(v), 0)
  }

  function DoSet<V>(codec: Codec<V>, on: bool, s: State, key: string, value: Option<V>, ttl: int, now: real, up: bool): State {
    if value.None? then s
    else if !up then Raise(s)
    else if !on then s
    else s.(entries := s.entries[key := Entry(codec.dumps(value.value), now + ttl as real)])
  }

  /** One helper call. `on` is false for the backend that stores nothing. */
  function Serve<V>(codec: Codec<V>, on: bool, s: State, r: Request<V>): (State, Outcome<V>) {
    match r
    case Get(key, now, w) =>
      var (t, v, n) := DoGet(codec, on, s, key, now, w);
      (t, if v.Some? then Found(v.value, n) else Absent(n))
    case Set(key, value, ttl, now, up) => (DoSet(codec, on, s, key, value, ttl, now, up), Stored)
    case GetOrSet(key, ttl, load, now, storeNow, w) =>
      var (t, v, n) := DoGet(codec, on, s, key, now, w);
      if v.Some? then (t, Found(v.value, n))
      else if load.Raises? then (t, LoadFailed(n))
      else (DoSet(codec, on, t, key, load.value, ttl, storeNow, w.storeUp), Loaded(load.value, n))
    case Invalidate(keys, up) => var (t, n) := DoInvalidate(on, s, keys, up); (t, Deleted(n))
    case InvalidatePattern(pattern, up) =>
      if !up then (Raise(s), Deleted(0))
      else if !on then (s, Deleted(0))
      else
        var n := |Matching(s.entries, pattern)|;
        (State(s.entries - Matching(s.entries, pattern),
               s.counts.(invalidations := s.counts.invalidations + n)), Deleted(n))
    case Increment(key, ttl, now, later, up) =>
      if !up then (Raise(s), Counted(0))
      else if !on then (s, Counted(0))
      else
        var (es, a) := Lazy(s.entries, Call(Op.Increment(key, ttl), now, later));
        (s.(entries := es), if a.Counter? then Counted(a.c) else Crashed)
  }

  class Service<V> {
    const codec: Codec<V>
    const enabled: bool
    const backend: MemoryBackend
    const metrics: Counters

    constructor (codec: Codec<V>, enabled: bool, backend: MemoryBackend, metrics: Counters)
      ensures this.codec == codec && this.enabled == enabled
      ensures this.backend == backend && this.metrics == metrics
    {
      this.codec, this.enabled, this.backend, this.metrics := codec, enabled, backend, metrics;
    }

    function Now(): State
      reads backend, metrics
    {
      State(backend.entries, metrics.Snapshot())
    }

    method Invalidate(keys: seq<string>, up: bool) returns (deleted: nat)
      modifies backend, metrics
      ensures (Now(), deleted) == DoInvalidate(enabled, old(Now()), keys, up)
    {
      if keys == [] {
        return 0;
      }
      if !up {
        metrics.RecordError();
        return 0;
      }
      deleted := 0;
      if enabled {
        deleted := backend.Delete(keys);
      }
      metrics.RecordInvalidation(deleted);
    }

    method Get(key: string, now: real, weather: Weather) returns (value: Option<V>, ghost dropped: nat)
      modifies backend, metrics
      ensures (Now(), value, dropped) == DoGet(codec, enabled, old(Now()), key, now, weather)
    {
      hide Lazy, Live, Find, Dropped, Keyed;
      dropped := 0;
      if !weather.readUp {
        metrics.RecordError();
        return None, 0;
      }
      var raw := None;
      if enabled {
        raw := backend.Get(key, now);
      }
      ghost var kept := if enabled then old(Now()).(entries := Dropped(old(backend.entries), key, now)) else old(Now());
      assert Now() == kept;
      if raw.None? {
        metrics.RecordMiss();
        return None, 0;
      }
      match codec.loads(raw.value)
      case Undecodable =>
        var n := Invalidate([key], weather.dropUp);
        metrics.RecordMiss();
        return None, n;
      case Null =>
        metrics.RecordHit();
        return None, 0;
      case Doc(v) =>
        metrics.RecordHit();
        return Some(v), 0;
    }

    method Set(key: string, value: Option<V>, ttl: int, now: real, up: bool)
      modifies backend, metrics
      ensures Now() == DoSet(codec, enabled, old(Now()), key, value, ttl, now, up)
    {
      if value.None? {
        return;
      }
      if !up {
        metrics.RecordError();
        return;
      }
      if enabled {
        backend.Set(key, codec.dumps(value.value), ttl, now);
      }
    }

    /** `load` is what the loader would do; `ran` says whether it was called. */
    method GetOrSet(key: string, ttl: int, load: Load<V>, now: real, storeNow: real, weather: Weather)
      returns (value: Load<V>, ran: bool, ghost dropped: nat)
      modifies backend, metrics
      ensures var (s, o) := Serve(codec, enabled, old(Now()), Request.GetOrSet(key, ttl, load, now, storeNow, weather));
              && Now() == s
              && (o.Found? <==> !ran)
              && value == (if o.Found? then Returns(Some(o.value)) else load)
    {
      var cached;
      cached, dropped := Get(key, now, weather);
      if cached.Some? {
        return Returns(cached), false, dropped;
      }
      if load.Raises? {
        return Raises, true, dropped;
      }
      Set(key, load.value, ttl, storeNow, weather.storeUp);
      return load, true, dropped;
    }

    method InvalidatePattern(pattern: string, up: bool) returns (deleted: nat)
      modifies backend, metrics
      ensures (Now(), Outcome<V>.Deleted(deleted))
           == Serve(codec, enabled, old(Now()), Request<V>.InvalidatePattern(pattern, up))
    {
      if !up {
        metrics.RecordError();
        return 0;
      }
      deleted := 0;
      if enabled {
        deleted := backend.DeleteMatching(pattern);
      }
      metrics.RecordInvalidation(deleted);
    }

    /** `None` is the `ValueError` of a value that is no decimal. */
    method Increment(key: string, ttl: int, now: real, later: real, up: bool) returns (count: Option<int>)
      modifies backend, metrics
      ensures (Now(), if count.Some? then Outcome<V>.Counted(count.value) else Outcome<V>.Crashed)
           == Serve(codec, enabled, old(Now()), Request<V>.Increment(key, ttl, now, later, up))
      ensures !(up && enabled) ==> count == Some(0) && backend.entries == old(backend.entries)
      ensures up && enabled ==>
        (backend.entries, if count.Some? then Counter(count.value) else ValueError)
        == Lazy(old(backend.entries), Call(Op.Increment(key, ttl), now, later))
    {
      if !up {
        metrics.RecordError();
        return Some(0);
      }
      if !enabled {
        return Some(0);
      }
      count := backend.Increment(key, ttl, now, later);
    }
  }

  /** No stored text decodes to null. */
  predicate NoNull<V>(codec: Codec<V>, es: Entries) {
    forall k :: k in es ==> !codec.loads(es[k].value).Null?
  }

  function Run<V>(codec: Codec<V>, on: bool, s: State, rs: seq<Request<V>>): (r: (State, seq<Outcome<V>>))
    ensures |r.1| == |rs|
    decreases |rs|
  {
    if rs == [] then (s, [])
    else
      var (t, o) := Serve(codec, on, s, rs[0]);
      var (u, os) := Run(codec, on, t, rs[1..]);
      (u, [o] + os)
  }

  /** How many of the requests, with their outcomes, satisfy `p`. */
  function Tally<V>(rs: seq<Request<V>>, os: seq<Outcome<V>>, p: (Request<V>, Outcome<V>) -> nat): nat
    requires |rs| == |os|
    decreases |rs|
  {
    if rs == [] then 0 else p(rs[0], os[0]) + Tally(rs[1..], os[1..], p)
  }

  function Lookups<V>(r: Request<V>, o: Outcome<V>): nat {
    if r.Get? || r.GetOrSet? then 1 else 0
  }

  function FailedLookups<V>(r: Request<V>, o: Outcome<V>): nat {
    if (r.Get? || r.GetOrSet?) && !r.weather.readUp then 1 else 0
  }

  function ServedFromCache<V>(r: Request<V>, o: Outcome<V>): nat {
    if o.Found? then 1 else 0
  }

  function LoaderRuns<V>(r: Request<V>, o: Outcome<V>): nat {
    if o.Loaded? || o.LoadFailed? then 1 else 0
  }

  function PlainNonHits<V>(r: Request<V>, o: Outcome<V>): nat {
    if o.Absent? then 1 else 0
  }

  /** The count every delete reported, including the drop of an undecodable entry during a lookup. */
  function ReportedDeletes<V>(r: Request<V>, o: Outcome<V>): nat {
    match o
    case Found(_, n) => n
    case Absent(n) => n
    case Loaded(_, n) => n
    case LoadFailed(n) => n
    case Deleted(n) => n
    case _ => 0
  }

  lemma ServeKeepsNoNull<V(!new)>(codec: Codec<V>, on: bool, s: State, r: Request<V>)
    requires NeverNull(codec) && NoNull(codec, s.entries)
    ensures NoNull(codec, Serve(codec, on, s, r).0.entries)
  {
    hide DoGet, DoSet, NeverNull, NoNull, Matching, Lazy;
    match r {
      case Get(key, now, w) => GetKeepsNoNull(codec, on, s, key, now, w);
      case GetOrSet(key, ttl, load, now, storeNow, w) =>
        GetKeepsNoNull(codec, on, s, key, now, w);
        if load.Returns? {
          SetKeepsNoNull(codec, on, DoGet(codec, on, s, key, now, w).0, key, load.value, ttl, storeNow, w.storeUp);
        }
      case Set(key, value, ttl, now, up) => SetKeepsNoNull(codec, on, s, key, value, ttl, now, up);
      case Invalidate(keys, _) => DropKeepsNoNull(codec, s.entries, Keyed(keys));
      case InvalidatePattern(pattern, _) => DropKeepsNoNull(codec, s.entries, Matching(s.entries, pattern));
      case Increment(key, ttl, now, later, _) =>
        CountKeepsNoNull(codec, s.entries, Call(Op.Increment(key, ttl), now, later));
    }
  }

  lemma DropKeepsNoNull<V>(codec: Codec<V>, es: Entries, keys: set<string>)
    requires NoNull(codec, es)
    ensures NoNull(codec, es - keys)
  {
  }

  lemma CountKeepsNoNull<V(!new)>(codec: Codec<V>, es: Entries, call: Call)
    requires NeverNull(codec) && NoNull(codec, es) && call.op.Increment?
    ensures NoNull(codec, Lazy(es, call).0)
  {
    hide NextCount, Decimal.Str;
  }

  lemma GetKeepsNoNull<V>(codec: Codec<V>, on: bool, s: State, key: string, now: real, w: Weather)
    requires NoNull(codec, s.entries)
    ensures NoNull(codec, DoGet(codec, on, s, key, now, w).0.entries)
  {
    hide Find, Live;
    DropKeepsNoNull(codec, s.entries, {key});
  }

  lemma SetKeepsNoNull<V(!new)>(codec: Codec<V>, on: bool, s: State, key: string, value: Option<V>, ttl: int,
                                now: real, up: bool)
    requires NeverNull(codec) && NoNull(codec, s.entries)
    ensures NoNull(codec, DoSet(codec, on, s, key, value, ttl, now, up).entries)
  {
  }

  lemma GetCounts<V>(codec: Codec<V>, on: bool, s: State, key: string, now: real, w: Weather)
    requires NoNull(codec, s.entries)
    ensures var (t, v, n) := DoGet(codec, on, s, key, now, w);
            && t.counts.hits == s.counts.hits + (if v.Some? then 1 else 0)
            && t.counts.misses == s.counts.misses + (if w.readUp && v.None? then 1 else 0)
            && t.counts.invalidations == s.counts.invalidations + n
            && (!w.readUp ==> v.None?)
  {
    var raw := Find(Live(s.entries, now), key);
    assert raw.Some? ==> key in s.entries && raw.value == s.entries[key].value;
  }

  lemma SetCounts<V>(codec: Codec<V>, on: bool, s: State, key: string, value: Option<V>, ttl: int, now: real, up: bool)
    ensures var t := DoSet(codec, on, s, key, value, ttl, now, up);
            t.counts == s.counts.(errors := t.counts.errors)
  {
  }

  ghost predicate TalliedRightly<V>(s: State, r: Request<V>, t: State, o: Outcome<V>) {
    && t.counts.hits == s.counts.hits + ServedFromCache(r, o)
    && t.counts.hits + t.counts.misses + FailedLookups(r, o) == s.counts.hits + s.counts.misses + Lookups(r, o)
    && t.counts.invalidations == s.counts.invalidations + ReportedDeletes(r, o)
    && t.counts.hits + PlainNonHits(r, o) + LoaderRuns(r, o) == s.counts.hits + Lookups(r, o)
  }

  /** A lookup is a `get`, and for `get_or_set` the loader and a `set` if nothing was found. */
  lemma ServeLookup<V>(codec: Codec<V>, on: bool, s: State, r: Request<V>)
    requires r.Get? || r.GetOrSet?
    ensures var (t, v, n) := DoGet(codec, on, s, r.key, r.now, r.weather);
            Serve(codec, on, s, r)
            == (if v.Some? then (t, Found(v.value, n))
                else if r.Get? then (t, Absent(n))
                else if r.load.Raises? then (t, LoadFailed(n))
                else (DoSet(codec, on, t, r.key, r.load.value, r.ttl, r.storeNow, r.weather.storeUp),
                      Loaded(r.load.value, n)))
  {
    hide DoGet, DoSet;
  }

  lemma ServeLookupCounts<V>(codec: Codec<V>, on: bool, s: State, r: Request<V>)
    requires NoNull(codec, s.entries) && (r.Get? || r.GetOrSet?)
    ensures var (t, o) := Serve(codec, on, s, r); TalliedRightly(s, r, t, o)
  {
    hide Serve, DoGet, DoSet, NoNull;
    GetCounts(codec, on, s, r.key, r.now, r.weather);
    ServeLookup(codec, on, s, r);
    var (t, v, n) := DoGet(codec, on, s, r.key, r.now, r.weather);
    if v.Some? {
      assert Serve(codec, on, s, r) == (t, Found(v.value, n));
    } else if r.Get? {
      assert Serve(codec, on, s, r) == (t, Absent(n));
    } else if r.load.Raises? {
      assert Serve(codec, on, s, r) == (t, LoadFailed(n));
    } else {
      SetCounts(codec, on, t, r.key, r.load.value, r.ttl, r.storeNow, r.weather.storeUp);
      assert Serve(codec, on, s, r).1 == Loaded(r.load.value, n);
    }
  }

  lemma ServeSetCounts<V>(codec: Codec<V>, on: bool, s: State, r: Request<V>)
    requires r.Set?
    ensures var (t, o) := Serve(codec, on, s, r); TalliedRightly(s, r, t, o)
  {
    hide DoSet;
    SetCounts(codec, on, s, r.key, r.value, r.ttl, r.now, r.up);
  }

  lemma ServeInvalidateCounts<V>(codec: Codec<V>, on: bool, s: State, r: Request<V>)
    requires r.Invalidate?
    ensures var (t, o) := Serve(codec, on, s, r); TalliedRightly(s, r, t, o)
  {
    hide Keyed;
  }

  lemma ServePatternCounts<V>(codec: Codec<V>, on: bool, s: State, r: Request<V>)
    requires r.InvalidatePattern?
    ensures var (t, o) := Serve(codec, on, s, r); TalliedRightly(s, r, t, o)
  {
    hide Matching;
  }

  lemma ServeIncrementCounts<V>(codec: Codec<V>, on: bool, s: State, r: Request<V>)
    requires r.Increment?
    ensures var (t, o) := Serve(codec, on, s, r); TalliedRightly(s, r, t, o)
  {
    hide Lazy;
  }

  lemma ServeCounts<V>(codec: Codec<V>, on: bool, s: State, r: Request<V>)
    requires NoNull(codec, s.entries)
    ensures var (t, o) := Serve(codec, on, s, r); TalliedRightly(s, r, t, o)
  {
    hide Serve, TalliedRightly, NoNull;
    match r
    case Get(_, _, _) => ServeLookupCounts(codec, on, s, r);
    case GetOrSet(_, _, _, _, _, _) => ServeLookupCounts(codec, on, s, r);
    case Set(_, _, _, _, _) => ServeSetCounts(codec, on, s, r);
    case Invalidate(_, _) => ServeInvalidateCounts(codec, on, s, r);
    case InvalidatePattern(_, _) => ServePatternCounts(codec, on, s, r);
    case Increment(_, _, _, _, _) => ServeIncrementCounts(codec, on, s, r);
  }

  /**
   * Over every run: each lookup is a hit, a miss or a failed read; hits are exactly the values
   * served; `invalidations` is the sum of all reported deletions; and every lookup that the counters
   * do not call a hit is a plain `get` answering None or exactly one run of a loader.
   */
  lemma {:induction false} Accounting<V(!new)>(codec: Codec<V>, on: bool, s: State, rs: seq<Request<V>>)
    requires NeverNull(codec) && NoNull(codec, s.entries)
    ensures var (t, os) := Run(codec, on, s, rs);
            && NoNull(codec, t.entries)
            && t.counts.hits == s.counts.hits + Tally(rs, os, ServedFromCache)
            && t.counts.hits + t.counts.misses + Tally(rs, os, FailedLookups)
               == s.counts.hits + s.counts.misses + Tally(rs, os, Lookups)
            && t.counts.invalidations == s.counts.invalidations + Tally(rs, os, ReportedDeletes)
            && t.counts.hits + Tally(rs, os, PlainNonHits) + Tally(rs, os, LoaderRuns)
               == s.counts.hits + Tally(rs, os, Lookups)
    decreases |rs|
  {
    if rs != [] {
      ServeKeepsNoNull(codec, on, s, rs[0]);
      ServeCounts(codec, on, s, rs[0]);
      Accounting(codec, on, Serve(codec, on, s, rs[0]).0, rs[1..]);
      assert Run(codec, on, s, rs).1[1..] == Run(codec, on, Serve(codec, on, s, rs[0]).0, rs[1..]).1;
    }
  }

  // ----- errors -----

  /** The backend calls of a lookup, in order, and whether each was answered. */
  function LookupCalls<V>(codec: Codec<V>, on: bool, s: State, key: string, now: real, w: Weather): seq<bool> {
    var raw := if on then Find(Live(s.entries, now), key) else None;
    if w.readUp && raw.Some? && codec.loads(raw.value).Undecodable? then [true, w.dropUp] else [w.readUp]
  }

  /** The backend calls of one request, in order, and whether each was answered. */
  function Calls<V>(codec: Codec<V>, on: bool, s: State, r: Request<V>): seq<bool> {
    match r
    case Get(key, now, w) => LookupCalls(codec, on, s, key, now, w)
    case Set(_, value, _, _, up) => if value.Some? then [up] else []
    case GetOrSet(key, _, load, now, _, w) =>
      var stores := Serve(codec, on, s, r).1.Loaded? && load.value.Some?;
      LookupCalls(codec, on, s, key, now, w) + if stores then [w.storeUp] else []
    case Invalidate(keys, up) => if keys != [] then [up] else []
    case InvalidatePattern(_, up) => [up]
    case Increment(_, _, _, _, up) => [up]
  }

  function CallsOfRun<V>(codec: Codec<V>, on: bool, s: State, rs: seq<Request<V>>): seq<bool>
    decreases |rs|
  {
    if rs == [] then [] else Calls(codec, on, s, rs[0]) + CallsOfRun(codec, on, Serve(codec, on, s, rs[0]).0, rs[1..])
  }

  /** How many calls raised `CacheUnavailable`. */
  function Raised(calls: seq<bool>): nat {
    multiset(calls)[false]
  }

  lemma RaisedConcat(a: seq<bool>, b: seq<bool>)
    ensures Raised(a + b) == Raised(a) + Raised(b)
  {
  }

  lemma GetErrors<V>(codec: Codec<V>, on: bool, s: State, key: string, now: real, w: Weather)
    ensures var t := DoGet(codec, on, s, key, now, w).0;
            t.counts.errors == s.counts.errors + Raised(LookupCalls(codec, on, s, key, now, w))
  {
    var raw := Find(Live(s.entries, now), key);
  }

  lemma SetErrors<V>(codec: Codec<V>, on: bool, s: State, key: string, value: Option<V>, ttl: int, now: real, up: bool)
    ensures DoSet(codec, on, s, key, value, ttl, now, up).counts.errors
         == s.counts.errors + if value.Some? && !up then 1 else 0
  {
  }

  lemma LookupErrors<V>(codec: Codec<V>, on: bool, s: State, r: Request<V>)
    requires r.Get? || r.GetOrSet?
    ensures Serve(codec, on, s, r).0.counts.errors == s.counts.errors + Raised(Calls(codec, on, s, r))
  {
    hide Serve, DoGet, DoSet, LookupCalls, Raised;
    GetErrors(codec, on, s, r.key, r.now, r.weather);
    ServeLookup(codec, on, s, r);
    if r.GetOrSet? && r.load.Returns? {
      var t := DoGet(codec, on, s, r.key, r.now, r.weather).0;
      SetErrors(codec, on, t, r.key, r.load.value, r.ttl, r.storeNow, r.weather.storeUp);
      RaisedConcat(LookupCalls(codec, on, s, r.key, r.now, r.weather), [r.weather.storeUp]);
      RaisedOne(r.weather.storeUp);
    }
    if r.GetOrSet? {
      assert LookupCalls(codec, on, s, r.key, r.now, r.weather) + [] == LookupCalls(codec, on, s, r.key, r.now, r.weather);
    }
  }

  lemma RaisedOne(up: bool)
    ensures Raised([up]) == if up then 0 else 1
    ensures Raised([]) == 0
  {
  }

  lemma ServeErrors<V>(codec: Codec<V>, on: bool, s: State, r: Request<V>)
    ensures Serve(codec, on, s, r).0.counts.errors == s.counts.errors + Raised(Calls(codec, on, s, r))
  {
    hide DoGet, DoSet, LookupCalls, Lazy, Matching, Raised;
    match r {
      case Get(_, _, _) => LookupErrors(codec, on, s, r);
      case GetOrSet(_, _, _, _, _, _) => LookupErrors(codec, on, s, r);
      case Set(key, value, ttl, now, up) =>
        SetErrors(codec, on, s, key, value, ttl, now, up);
        RaisedOne(up);
      case Invalidate(_, up) => RaisedOne(up);
      case InvalidatePattern(_, up) => RaisedOne(up);
      case Increment(_, _, _, _, up) => RaisedOne(up);
    }
  }

  /** Over every run, `errors` grows by exactly the number of backend calls that raised. */
  lemma {:induction false} ErrorsExact<V>(codec: Codec<V>, on: bool, s: State, rs: seq<Request<V>>)
    ensures Run(codec, on, s, rs).0.counts.errors == s.counts.errors + Raised(CallsOfRun(codec, on, s, rs))
    decreases |rs|
  {
    if rs != [] {
      var t := Serve(codec, on, s, rs[0]).0;
      ServeErrors(codec, on, s, rs[0]);
      ErrorsExact(codec, on, t, rs[1..]);
      RaisedConcat(Calls(codec, on, s, rs[0]), CallsOfRun(codec, on, t, rs[1..]));
    }
  }

  /** The invariant is needed: a stored null is counted as a hit and still runs the loader. */
  lemma StoredNullIsHitAndLoad<V>(codec: Codec<V>, v: V)
    requires codec.loads("null") == Null
    ensures var s := State(map["k" := Entry("null", 1.0)], Counts(0, 0, 0, 0));
            var (t, o) := Serve(codec, true, s, GetOrSet("k", 60, Returns(Some(v)), 0.0, 0.0, Weather(true, true, true)));
            t.counts.hits == 1 && o == Loaded(Some(v), 0)
  {
    var es: Entries := map["k" := Entry("null", 1.0)];
    assert Find(Live(es, 0.0), "k") == Some("null");
  }

  // ----- what one helper call means for the next -----

  /** A stored value is read back as itself until it lapses, and from then on not at all. */
  lemma SetThenGet<V>(codec: Codec<V>, s: State, key: string, value: V, ttl: int, now: real, later: real, w: Weather)
    requires ReadsBack(codec, value)
    ensures var t := DoSet(codec, true, s, key, Some(value), ttl, now, true);
            DoGet(codec, true, t, key, later, w).1 == if w.readUp && later < now + ttl as real then Some(value) else None
  {
    var t := DoSet(codec, true, s, key, Some(value), ttl, now, true);
    assert Find(Live(t.entries, later), key) == if later < now + ttl as real then Some(codec.dumps(value)) else None;
  }

  /** The keys a request may change the entries of. */
  predicate Targets<V>(r: Request<V>, k: string) {
    match r
    case Get(key, _, _) => k == key
    case Set(key, _, _, _, _) => k == key
    case GetOrSet(key, _, _, _, _, _) => k == key
    case Invalidate(keys, _) => k in keys
    case InvalidatePattern(pattern, _) => Glob.GlobMatch(pattern, k)
    case Increment(key, _, _, _, _) => k == key
  }

  predicate SameAt(a: Entries, b: Entries, k: string) {
    (k in a <==> k in b) && (k in a ==> a[k] == b[k])
  }

  lemma GetElsewhere<V>(codec: Codec<V>, on: bool, s: State, key: string, now: real, w: Weather, k: string)
    requires k != key
    ensures SameAt(s.entries, DoGet(codec, on, s, key, now, w).0.entries, k)
  {
  }

  /** No request touches an entry under another key than its own. */
  lemma ServeElsewhere<V>(codec: Codec<V>, on: bool, s: State, r: Request<V>, k: string)
    requires !Targets(r, k)
    ensures SameAt(s.entries, Serve(codec, on, s, r).0.entries, k)
  {
    hide DoGet, NextCount, Decimal.Str;
    if r.Get? || r.GetOrSet? {
      hide Serve;
      GetElsewhere(codec, on, s, r.key, r.now, r.weather, k);
      ServeLookup(codec, on, s, r);
    }
  }

  /** The request leaves an entry under this key that is good until `until` in place: it is elsewhere or a lookup in time. */
  predicate Spares<V>(r: Request<V>, k: string, until: real) {
    !Targets(r, k) || ((r.Get? || r.GetOrSet?) && r.weather.readUp && r.now < until)
  }

  /** A lookup that finds a value leaves it where it is. */
  lemma HitStays<V>(codec: Codec<V>, s: State, r: Request<V>, value: V)
    requires (r.Get? || r.GetOrSet?) && r.weather.readUp && r.key in s.entries && r.now < s.entries[r.key].expiresAt
    requires codec.loads(s.entries[r.key].value) == Doc(value)
    ensures Serve(codec, true, s, r).1 == Found(value, 0)
    ensures SameAt(s.entries, Serve(codec, true, s, r).0.entries, r.key)
  {
    assert Find(Live(s.entries, r.now), r.key) == Some(s.entries[r.key].value);
    assert Dropped(s.entries, r.key, r.now) == s.entries;
  }

  lemma {:induction false} EntryStays<V>(codec: Codec<V>, s: State, rs: seq<Request<V>>, k: string, value: V)
    requires k in s.entries && codec.loads(s.entries[k].value) == Doc(value)
    requires forall r :: r in rs ==> Spares(r, k, s.entries[k].expiresAt)
    ensures SameAt(s.entries, Run(codec, true, s, rs).0.entries, k)
    decreases |rs|
  {
    hide Serve;
    if rs != [] {
      assert rs[0] in rs && forall r :: r in rs[1..] ==> r in rs;
      if Targets(rs[0], k) {
        HitStays(codec, s, rs[0], value);
      } else {
        ServeElsewhere(codec, true, s, rs[0], k);
      }
      EntryStays(codec, Serve(codec, true, s, rs[0]).0, rs[1..], k, value);
    }
  }

  /**
   * A stored value survives any run of requests that are about other keys or only look it up in time:
   * it is then read back as itself until its TTL ends, and from then on not at all.
   */
  lemma StoredStays<V>(codec: Codec<V>, s: State, key: string, value: V, ttl: int, now: real, rs: seq<Request<V>>,
                       later: real, w: Weather)
    requires ReadsBack(codec, value)
    requires forall r :: r in rs ==> Spares(r, key, now + ttl as real)
    ensures var t := Run(codec, true, DoSet(codec, true, s, key, Some(value), ttl, now, true), rs).0;
            DoGet(codec, true, t, key, later, w).1 == if w.readUp && later < now + ttl as real then Some(value) else None
  {
    hide Run, Serve, Targets;
    var s0 := DoSet(codec, true, s, key, Some(value), ttl, now, true);
    var t := Run(codec, true, s0, rs).0;
    EntryStays(codec, s0, rs, key, value);
    assert Find(Live(t.entries, later), key) == if later < now + ttl as real then Some(codec.dumps(value)) else None;
  }

  /** Text that does not decode is met once: the lookup that misses on it also removes it, if the backend lets it. */
  lemma UndecodableIsDropped<V>(codec: Codec<V>, s: State, key: string, now: real, w: Weather)
    requires w.readUp && key in s.entries && now < s.entries[key].expiresAt
    requires codec.loads(s.entries[key].value).Undecodable?
    ensures var (t, v, n) := DoGet(codec, true, s, key, now, w);
            && v.None? && t.counts.misses == s.counts.misses + 1
            && t.entries == (if w.dropUp then s.entries - {key} else s.entries)
            && t.counts.invalidations == s.counts.invalidations + (if w.dropUp then 1 else 0)
            && t.counts.errors == s.counts.errors + (if w.dropUp then 0 else 1)
  {
    assert Keyed([key]) == {key} && {key} * s.entries.Keys == {key};
    assert Find(Live(s.entries, now), key) == Some(s.entries[key].value);
  }

  /** The request makes no call that the backend answers. */
  predicate AllDown<V>(r: Request<V>) {
    match r
    case Get(_, _, w) => !w.readUp
    case Set(_, _, _, _, up) => !up
    case GetOrSet(_, _, _, _, _, w) => !w.readUp && !w.storeUp
    case Invalidate(_, up) => !up
    case InvalidatePattern(_, up) => !up
    case Increment(_, _, _, _, up) => !up
  }

  /** What the caller gets when there is no cache at all. */
  function Uncached<V>(r: Request<V>): Outcome<V> {
    match r
    case Get(_, _, _) => Absent(0)
    case Set(_, _, _, _, _) => Stored
    case GetOrSet(_, _, load, _, _, _) => if load.Raises? then LoadFailed(0) else Loaded(load.value, 0)
    case Invalidate(_, _) => Deleted(0)
    case InvalidatePattern(_, _) => Deleted(0)
    case Increment(_, _, _, _, _) => Counted(0)
  }

  function UncachedAll<V>(rs: seq<Request<V>>): seq<Outcome<V>> {
    seq(|rs|, i requires 0 <= i < |rs| => Uncached(rs[i]))
  }

  /** How many backend calls the request makes when none is answered. */
  function Attempts<V>(r: Request<V>, o: Outcome<V>): nat {
    match r
    case Set(_, value, _, _, _) => if value.Some? then 1 else 0
    case GetOrSet(_, _, load, _, _, _) => if load.Returns? && load.value.Some? then 2 else 1
    case Invalidate(keys, _) => if keys != [] then 1 else 0
    case _ => 1
  }

  /**
   * A cache failure is never a request failure: through a whole outage every caller gets what it
   * would get without a cache, no entry and no counter but `errors` changes, and that one by one
   * for each call attempted.
   */
  lemma {:induction false} OutageIsHarmless<V>(codec: Codec<V>, on: bool, s: State, rs: seq<Request<V>>)
    requires forall r :: r in rs ==> AllDown(r)
    ensures var (t, os) := Run(codec, on, s, rs);
            && os == UncachedAll(rs)
            && t.entries == s.entries
            && t.counts.(errors := 0) == s.counts.(errors := 0)
            && t.counts.errors == s.counts.errors + Tally(rs, os, Attempts)
    decreases |rs|
  {
    if rs != [] {
      assert AllDown(rs[0]);
      OneOutage(codec, on, s, rs[0]);
      OutageIsHarmless(codec, on, Serve(codec, on, s, rs[0]).0, rs[1..]);
      assert [Uncached(rs[0])] + UncachedAll(rs[1..]) == UncachedAll(rs);
    }
  }

  lemma OneOutage<V>(codec: Codec<V>, on: bool, s: State, r: Request<V>)
    requires AllDown(r)
    ensures var (t, o) := Serve(codec, on, s, r);
            && o == Uncached(r) && t.entries == s.entries
            && t.counts == s.counts.(errors := s.counts.errors + Attempts(r, o))
  {
  }
}
