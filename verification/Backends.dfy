/**
 * The cache backend with lazy expiry (cache/backends.py). Clock readings are parameters, one for
 * each time the source calls `self.clock()`.
 */
module Backends {
  import opened Prelude
  import Decimal
  import Glob

  datatype Entry = Entry(value: string, expiresAt: real)

  type Entries = map<string, Entry>

  /** The entries an ideal cache would hold at `now`. */
  function Live(es: Entries, now: real): Entries {
    map k | k in es && now < es[k].expiresAt :: es[k]
  }

  function Find(es: Entries, key: string): Option<string> {
    if key in es then Some(es[key].value) else None
  }

  function Keyed(keys: seq<string>): set<string> {
    set k | k in keys
  }

  function Matching(es: Entries, pattern: string): set<string> {
    set k | k in es && Glob.GlobMatch(pattern, k)
  }

  /** `int(current) + 1`, or 1 for an absent counter; `None` where `int` raises. */
  function NextCount(current: Option<string>): Option<int> {
    if current.None? then Some(1)
    else
      var n := Decimal.Parse(current.value);
      if n.Some? then Some(n.value + 1) else None
  }

  datatype Op =
    | Get(key: string)
    | Set(key: string, value: string, ttl: int)
    | Delete(keys: seq<string>)
    | DeleteMatching(pattern: string)
    | Increment(key: string, ttl: int)
    | Sweep(doomed: set<string>)

  datatype Answer = Value(v: Option<string>) | Done | Count(n: nat) | Counter(c: int) | ValueError

  /** One backend call; `later` is the second clock reading of a call that takes two. */
  datatype Call = Call(op: Op, now: real, later: real)

  /** `_live_value` as it leaves the dictionary. */
  function Dropped(es: Entries, key: string, now: real): Entries {
    if key in es && es[key].expiresAt <= now then es - {key} else es
  }

  /** What `MemoryBackend` does. `Sweep` drops expired entries at a moment of its own choosing. */
  function Lazy(es: Entries, call: Call): (Entries, Answer) {
    match call.op
    case Get(key) => (Dropped(es, key, call.now), Value(Find(Dropped(es, key, call.now), key)))
    case Set(key, value, ttl) => (es[key := Entry(value, call.now + ttl as real)], Done)
    case Delete(keys) => (es - Keyed(keys), Count(|Keyed(keys) * es.Keys|))
    case DeleteMatching(pattern) => (es - Matching(es, pattern), Count(|Matching(es, pattern)|))
    case Increment(key, ttl) =>
      var kept := Dropped(es, key, call.now);
      var next := NextCount(Find(kept, key));
      if next.None? then (kept, ValueError)
      else (kept[key := Entry(Decimal.Str(next.value), call.later + ttl as real)], Counter(next.value))
    case Sweep(doomed) => (map k | k in es && !(k in doomed && es[k].expiresAt <= call.now) :: es[k], Done)
  }

  /** The reference: a map from which entries vanish exactly at `expiresAt`. Sweeping means nothing to it. */
  function Ideal(es: Entries, call: Call): (Entries, Answer) {
    var m := Live(es, call.now);
    match call.op
    case Get(key) => (m, Value(Find(m, key)))
    case Set(key, value, ttl) => (m[key := Entry(value, call.now + ttl as real)], Done)
    case Delete(keys) => (m - Keyed(keys), Count(|Keyed(keys) * m.Keys|))
    case DeleteMatching(pattern) => (m - Matching(m, pattern), Count(|Matching(m, pattern)|))
    case Increment(key, ttl) =>
      var next := NextCount(Find(m, key));
      if next.None? then (m, ValueError)
      else (m[key := Entry(Decimal.Str(next.value), call.later + ttl as real)], Counter(next.value))
    case Sweep(_) => (m, Done)
  }

  predicate Monotone(since: real, calls: seq<Call>)
    decreases |calls|
  {
    calls != [] ==> since <= calls[0].now <= calls[0].later && Monotone(calls[0].later, calls[1..])
  }

  function LazyAnswers(es: Entries, calls: seq<Call>): seq<Answer>
    decreases |calls|
  {
    if calls == [] then []
    else var (es', a) := Lazy(es, calls[0]); [a] + LazyAnswers(es', calls[1..])
  }

  function IdealAnswers(es: Entries, calls: seq<Call>): seq<Answer>
    decreases |calls|
  {
    if calls == [] then []
    else var (es', a) := Ideal(es, calls[0]); [a] + IdealAnswers(es', calls[1..])
  }

  /** Counts of deleted entries may include dead ones; every other answer is the ideal one. */
  predicate Agrees(actual: Answer, ideal: Answer) {
    if actual.Count? && ideal.Count? then ideal.n <= actual.n else actual == ideal
  }

  lemma LiveLater(es: Entries, m: Entries, t0: real, t1: real)
    requires t0 <= t1 && Live(es, t0) == Live(m, t0)
    ensures Live(es, t1) == Live(m, t1) == Live(Live(m, t0), t1)
  {
    assert Live(es, t1) == Live(Live(es, t0), t1);
    assert Live(m, t1) == Live(Live(m, t0), t1);
  }

  lemma LivePut(es: Entries, key: string, e: Entry, t: real)
    ensures Live(es[key := e], t) == if t < e.expiresAt then Live(es, t)[key := e] else Live(es, t) - {key}
  {
  }

  lemma LiveMinus(es: Entries, keys: set<string>, t: real)
    ensures Live(es - keys, t) == Live(es, t) - keys
  {
  }

  lemma LiveDropped(es: Entries, key: string, now: real, t: real)
    requires now <= t
    ensures Live(Dropped(es, key, now), t) == Live(es, t)
    ensures Find(Dropped(es, key, now), key) == Find(Live(es, now), key)
  {
  }

  lemma DeletionAgrees(es: Entries, m: Entries, doomed: set<string>, liveDoomed: set<string>, now: real, t: real)
    requires now <= t && Live(es, now) == Live(m, now)
    requires liveDoomed == doomed * Live(m, now).Keys && doomed <= es.Keys
    ensures Live(es - doomed, t) == Live(Live(m, now) - liveDoomed, t)
    ensures |liveDoomed| <= |doomed|
  {
    hide Live;
    LiveLater(es, m, now, t);
    SubsetSize(liveDoomed, doomed);
    LiveMinus(es, doomed, t);
    LiveMinus(Live(m, now), liveDoomed, t);
    LiveFewer(Live(m, now), t);
    SameRemoved(Live(es, t), doomed, liveDoomed);
  }

  lemma LiveFewer(es: Entries, t: real)
    ensures Live(es, t).Keys <= es.Keys
  {
  }

  lemma SameRemoved(es: Entries, a: set<string>, b: set<string>)
    requires es.Keys * a == es.Keys * b
    ensures es - a == es - b
  {
    forall k
      ensures k in es - a <==> k in es - b
    {
      assert k in es.Keys * a <==> k in es.Keys * b;
    }
  }

  lemma IncrementAgrees(es: Entries, m: Entries, call: Call)
    requires call.op.Increment? && call.now <= call.later && Live(es, call.now) == Live(m, call.now)
    ensures Agrees(Lazy(es, call).1, Ideal(m, call).1)
    ensures Live(Lazy(es, call).0, call.later) == Live(Ideal(m, call).0, call.later)
  {
    hide Live, Dropped, Find, NextCount, Decimal.Str;
    var key, now, later, live := call.op.key, call.now, call.later, Live(m, call.now);
    LiveLater(es, m, now, later);
    LiveDropped(es, key, now, later);
    var next := NextCount(Find(live, key));
    if next.Some? {
      var e := Entry(Decimal.Str(next.value), later + call.op.ttl as real);
      LivePut(Dropped(es, key, now), key, e, later);
      LivePut(live, key, e, later);
    }
  }

  lemma MinusHeld(es: Entries, keys: set<string>)
    ensures es - keys == es - keys * es.Keys
  {
  }

  lemma DeleteAgrees(es: Entries, m: Entries, call: Call)
    requires call.op.Delete? && call.now <= call.later && Live(es, call.now) == Live(m, call.now)
    ensures Agrees(Lazy(es, call).1, Ideal(m, call).1)
    ensures Live(Lazy(es, call).0, call.later) == Live(Ideal(m, call).0, call.later)
  {
    var live, keys := Live(m, call.now), Keyed(call.op.keys);
    DeletionAgrees(es, m, keys * es.Keys, keys * live.Keys, call.now, call.later);
    MinusHeld(es, keys);
    MinusHeld(live, keys);
  }

  lemma DeleteMatchingAgrees(es: Entries, m: Entries, call: Call)
    requires call.op.DeleteMatching? && call.now <= call.later && Live(es, call.now) == Live(m, call.now)
    ensures Agrees(Lazy(es, call).1, Ideal(m, call).1)
    ensures Live(Lazy(es, call).0, call.later) == Live(Ideal(m, call).0, call.later)
  {
    var live, pattern := Live(m, call.now), call.op.pattern;
    DeletionAgrees(es, m, Matching(es, pattern), Matching(live, pattern), call.now, call.later);
  }

  lemma GetAgrees(es: Entries, m: Entries, call: Call)
    requires call.op.Get? && call.now <= call.later && Live(es, call.now) == Live(m, call.now)
    ensures Agrees(Lazy(es, call).1, Ideal(m, call).1)
    ensures Live(Lazy(es, call).0, call.later) == Live(Ideal(m, call).0, call.later)
  {
    hide Live, Dropped;
    LiveLater(es, m, call.now, call.later);
    LiveDropped(es, call.op.key, call.now, call.later);
  }

  lemma SetAgrees(es: Entries, m: Entries, call: Call)
    requires call.op.Set? && call.now <= call.later && Live(es, call.now) == Live(m, call.now)
    ensures Agrees(Lazy(es, call).1, Ideal(m, call).1)
    ensures Live(Lazy(es, call).0, call.later) == Live(Ideal(m, call).0, call.later)
  {
    hide Live;
    var e := Entry(call.op.value, call.now + call.op.ttl as real);
    LiveLater(es, m, call.now, call.later);
    LivePut(es, call.op.key, e, call.later);
    LivePut(Live(m, call.now), call.op.key, e, call.later);
  }

  lemma SweepAgrees(es: Entries, m: Entries, call: Call)
    requires call.op.Sweep? && call.now <= call.later && Live(es, call.now) == Live(m, call.now)
    ensures Agrees(Lazy(es, call).1, Ideal(m, call).1)
    ensures Live(Lazy(es, call).0, call.later) == Live(Ideal(m, call).0, call.later)
  {
    LiveLater(es, m, call.now, call.later);
    assert Live(Lazy(es, call).0, call.later) == Live(es, call.later);
  }

  lemma StepAgrees(es: Entries, m: Entries, call: Call, since: real)
    requires since <= call.now <= call.later
    requires Live(es, since) == Live(m, since)
    ensures Agrees(Lazy(es, call).1, Ideal(m, call).1)
    ensures Live(Lazy(es, call).0, call.later) == Live(Ideal(m, call).0, call.later)
  {
    hide Lazy, Ideal, Live, Agrees;
    LiveLater(es, m, since, call.now);
    match call.op
    case Get(_) => GetAgrees(es, m, call);
    case Set(_, _, _) => SetAgrees(es, m, call);
    case Delete(_) => DeleteAgrees(es, m, call);
    case DeleteMatching(_) => DeleteMatchingAgrees(es, m, call);
    case Increment(_, _) => IncrementAgrees(es, m, call);
    case Sweep(_) => SweepAgrees(es, m, call);
  }

  /**
   * For every sequence of calls under a non-decreasing clock, lazy expiry is unobservable:
   * reads and counters answer as the ideal map does, whenever expired entries happen to be swept.
   */
  lemma {:induction false} LazyRefinesIdeal(es: Entries, m: Entries, calls: seq<Call>, since: real)
    requires Monotone(since, calls)
    requires Live(es, since) == Live(m, since)
    ensures |LazyAnswers(es, calls)| == |IdealAnswers(m, calls)| == |calls|
    ensures forall i :: 0 <= i < |calls| ==> Agrees(LazyAnswers(es, calls)[i], IdealAnswers(m, calls)[i])
    decreases |calls|
  {
    if calls != [] {
      StepAgrees(es, m, calls[0], since);
      LazyRefinesIdeal(Lazy(es, calls[0]).0, Ideal(m, calls[0]).0, calls[1..], calls[0].later);
    }
  }

  lemma MinusMinus(es: Entries, a: set<string>, b: set<string>)
    ensures es - a - b == es - (a + b)
  {
  }

  lemma PopCount(keys: seq<string>, i: nat, held: set<string>)
    requires i < |keys|
    ensures Keyed(keys[..i + 1]) == Keyed(keys[..i]) + {keys[i]}
    ensures |Keyed(keys[..i + 1]) * held|
         == |Keyed(keys[..i]) * held| + if keys[i] in held && keys[i] !in Keyed(keys[..i]) then 1 else 0
  {
    assert keys[..i + 1] == keys[..i] + [keys[i]];
    assert Keyed(keys[..i + 1]) == Keyed(keys[..i]) + {keys[i]};
    var before, after := Keyed(keys[..i]) * held, Keyed(keys[..i + 1]) * held;
    if keys[i] in held && keys[i] !in Keyed(keys[..i]) {
      assert after == before + {keys[i]};
    } else {
      assert after == before;
    }
  }

  class MemoryBackend {
    var entries: Entries

    constructor ()
      ensures entries == map[]
    {
      entries := map[];
    }

    method LiveValue(key: string, now: real) returns (value: Option<string>)
      modifies this
      ensures entries == Dropped(old(entries), key, now)
      ensures value == Find(Live(old(entries), now), key) == Find(entries, key)
      ensures Live(entries, now) == Live(old(entries), now)
    {
      if key !in entries {
        return None;
      }
      var entry := entries[key];
      if entry.expiresAt <= now {
        entries := entries - {key};
        return None;
      }
      return Some(entry.value);
    }

    method Get(key: string, now: real) returns (value: Option<string>)
      modifies this
      ensures (entries, Value(value)) == Lazy(old(entries), Call(Op.Get(key), now, now))
      ensures entries == Dropped(old(entries), key, now) && value == Find(Live(old(entries), now), key)
    {
      value := LiveValue(key, now);
    }

    method Set(key: string, value: string, ttl: int, now: real)
      modifies this
      ensures (entries, Done) == Lazy(old(entries), Call(Op.Set(key, value, ttl), now, now))
      ensures Find(Live(entries, now), key) == if ttl > 0 then Some(value) else None
    {
      entries := entries[key := Entry(value, now + ttl as real)];
    }

    method Delete(keys: seq<string>) returns (count: nat)
      modifies this
      ensures entries == old(entries) - Keyed(keys)
      ensures count == |Keyed(keys) * old(entries).Keys|
    {
      count := 0;
      ghost var held := old(entries).Keys;
      assert Keyed(keys[..0]) == {};
      hide Keyed;
      for i := 0 to |keys|
        invariant entries == old(entries) - Keyed(keys[..i])
        invariant count == |Keyed(keys[..i]) * held|
      {
        PopCount(keys, i, held);
        if keys[i] in entries {
          count := count + 1;
        }
        entries := entries - {keys[i]};
        MinusMinus(old(entries), Keyed(keys[..i]), {keys[i]});
      }
      assert keys[..|keys|] == keys;
    }

    method DeleteMatching(pattern: string) returns (count: nat)
      modifies this
      ensures entries == old(entries) - Matching(old(entries), pattern)
      ensures count == |Matching(old(entries), pattern)|
    {
      var matched := Matching(entries, pattern);
      var remaining := matched;
      while remaining != {}
        invariant remaining <= matched
        invariant entries == old(entries) - (matched - remaining)
        decreases remaining
      {
        var key :| key in remaining;
        entries := entries - {key};
        remaining := remaining - {key};
      }
      assert matched - remaining == matched;
      count := |matched|;
    }

    /** `now` and `later` are the two clock readings inside the lock. `None` is Python's `ValueError`. */
    method Increment(key: string, ttl: int, now: real, later: real) returns (count: Option<int>)
      modifies this
      ensures (entries, if count.Some? then Counter(count.value) else ValueError)
           == Lazy(old(entries), Call(Op.Increment(key, ttl), now, later))
    {
      hide Decimal.Parse, Decimal.Str;
      var current := LiveValue(key, now);
      if current.Some? {
        var parsed := Decimal.Parse(current.value);
        if parsed.None? {
          return None;
        }
        count := Some(parsed.value + 1);
      } else {
        count := Some(1);
      }
      entries := entries[key := Entry(Decimal.Str(count.value), later + ttl as real)];
    }
  }
}
