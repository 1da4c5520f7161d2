/**
 * The distributed fixed-window rate limiter (middleware/rate_limit.py). Tasks read their own
 * clocks; the counters live in one cache with its own clock.
 */
module RateLimit {
  import opened Prelude
  import opened Backends
  import Text
  import Decimal
  import Glob
  import KeyCodec
  import CS = CacheService

  const WINDOW: int := 60
  const KEY_TTL: int := WINDOW * 2

  /** `int(now // WINDOW_SECONDS) * WINDOW_SECONDS` */
  function WindowStart(now: real): int {
    (now / WINDOW as real).Floor * WINDOW
  }

  /** Python's `int(x)`. */
  function Truncate(x: real): int {
    if x >= 0.0 then x.Floor else -(-x).Floor
  }

  function RetryAfter(now: real): int {
    Max(1, Truncate((WindowStart(now) + WINDOW) as real - now))
  }

  datatype Verdict = Allowed | Limited(retryAfter: int) | Crashed | Unasked

  function Judge(count: int, limit: int, now: real): Verdict {
    if count == 0 then Allowed
    else if count > limit then Limited(RetryAfter(now))
    else Allowed
  }

  /**
   * `Ask` is one rate-limited request: its task's clock reads `local`, the cache's reads `at`, then
   * `later`. `Other` is any other use of the same cache.
   */
  datatype Event =
    | Ask(rule: string, limit: int, identity: string, local: real, at: real, later: real)
    | Other(op: Op, at: real, later: real)

  function AskKey(digest: KeyCodec.Digest, e: Event): string
    requires e.Ask?
  {
    KeyCodec.RateKey(digest, e.rule, e.identity, WindowStart(e.local))
  }

  function Step(digest: KeyCodec.Digest, es: Entries, e: Event): (Entries, Verdict) {
    match e
    case Ask(_, limit, _, local, at, later) =>
      var (es', a) := Lazy(es, Call(Op.Increment(AskKey(digest, e), KEY_TTL), at, later));
      (es', if a.Counter? then Judge(a.c, limit, local) else Crashed)
    case Other(op, at, later) => (Lazy(es, Call(op, at, later)).0, Unasked)
  }

  function Run(digest: KeyCodec.Digest, es: Entries, events: seq<Event>): (r: (Entries, seq<Verdict>))
    ensures |r.1| == |events|
    decreases |events|
  {
    if events == [] then (es, [])
    else
      var n := |events| - 1;
      var before := Run(digest, es, events[..n]);
      var after := Step(digest, before.0, events[n]);
      (after.0, before.1 + [after.1])
  }

  /** Not a key of the rate limiter's namespace. */
  predicate Foreign(key: string) {
    var segments := Text.Split(key);
    |segments| > 2 ==> segments[2] != KeyCodec.NS_RATE_LIMIT
  }

  /** What the rest of the application and the passage of time do to the cache: nothing to counters but expiry. */
  ghost predicate Benign(op: Op) {
    match op
    case Get(_) => true
    case Set(key, _, _) => Foreign(key)
    case Delete(keys) => forall k :: k in keys ==> Foreign(k)
    case DeleteMatching(pattern) => forall k :: Glob.GlobMatch(pattern, k) ==> Foreign(k)
    case Sweep(_) => true
    case Increment(_, _) => false
  }

  ghost predicate OthersBenign(events: seq<Event>) {
    forall e :: e in events && e.Other? ==> Benign(e.op)
  }

  function LastTime(since: real, events: seq<Event>): real {
    if events == [] then since else events[|events| - 1].later
  }

  /** The cache's clock never goes back, and no task's clock is more than `skew` away from it. */
  predicate Timely(skew: real, since: real, events: seq<Event>)
    decreases |events|
  {
    events != [] ==>
      var n := |events| - 1;
      var e := events[n];
      && Timely(skew, since, events[..n])
      && LastTime(since, events[..n]) <= e.at <= e.later
      && (e.Ask? ==> e.at - skew <= e.local <= e.at + skew)
  }

  /** One limit per rule name, up to sanitising. */
  predicate RuleLimit(digest: KeyCodec.Digest, events: seq<Event>, rule: string, limit: int) {
    forall e :: e in events && e.Ask?
      && KeyCodec.Sanitize(digest, KeyCodec.Word(e.rule)) == KeyCodec.Sanitize(digest, KeyCodec.Word(rule))
      ==> e.limit == limit
  }

  function Count(events: seq<Event>, vs: seq<Verdict>, p: (Event, Verdict) -> bool): nat
    requires |events| == |vs|
    decreases |events|
  {
    if events == [] then 0
    else
      var n := |events| - 1;
      Count(events[..n], vs[..n], p) + if p(events[n], vs[n]) then 1 else 0
  }

  function Asks(digest: KeyCodec.Digest, key: string): (Event, Verdict) -> bool {
    (e: Event, v: Verdict) => e.Ask? && AskKey(digest, e) == key
  }

  function Accepts(digest: KeyCodec.Digest, key: string): (Event, Verdict) -> bool {
    (e: Event, v: Verdict) => e.Ask? && AskKey(digest, e) == key && v == Allowed
  }

  function AcceptsBetween(rule: string, identity: string, lo: real, hi: real): (Event, Verdict) -> bool {
    (e: Event, v: Verdict) => e.Ask? && e.rule == rule && e.identity == identity && lo <= e.local < hi && v == Allowed
  }

  /** Window starts whose decimal text is short enough not to be hashed into the key. */
  predicate InRange(window: int) {
    -KeyCodec.SHORT_LIMIT < window < KeyCodec.SHORT_LIMIT
  }

  lemma WindowStartBounds(now: real)
    ensures WindowStart(now) as real <= now < (WindowStart(now) + WINDOW) as real
  {
    var q := now / WINDOW as real;
    assert q.Floor as real <= q < q.Floor as real + 1.0;
    assert now == q * 60.0;
  }

  lemma WindowStartIs(now: real, n: int)
    requires (n * WINDOW) as real <= now < (n * WINDOW + WINDOW) as real
    ensures WindowStart(now) == n * WINDOW
  {
    WindowStartBounds(now);
    var q := (now / WINDOW as real).Floor;
    assert q * WINDOW < n * WINDOW + WINDOW && n * WINDOW < q * WINDOW + WINDOW;
  }

  /**
   * Retry-After is between 1 and 60 seconds. It ends less than a second before the boundary and, but
   * for the least answer of one second, never after it; it reaches the next window exactly when the
   * rest of the window is at most a second or whole.
   */
  lemma RetryAfterReaches(now: real)
    ensures var rest := (WindowStart(now) + WINDOW) as real - now;
            && 1 <= RetryAfter(now) <= WINDOW
            && RetryAfter(now) as real > rest - 1.0
            && (RetryAfter(now) == 1 || RetryAfter(now) as real <= rest)
            && (WindowStart(now + RetryAfter(now) as real) != WindowStart(now)
                <==> rest <= 1.0 || rest == rest.Floor as real)
  {
    WindowStartBounds(now);
    var r := RetryAfter(now) as real;
    WindowStartBounds(now + r);
    var n := (now / WINDOW as real).Floor;
    if now + r < (WindowStart(now) + WINDOW) as real {
      WindowStartIs(now + r, n);
    }
  }

  /** `seconds` is the wait for a boundary `rest` seconds away: whole seconds, rounded down, and at least one. */
  predicate WaitsFor(seconds: int, rest: real) {
    && 1 <= seconds && rest - 1.0 < seconds as real
    && (seconds == 1 || seconds as real <= rest)
  }

  lemma RetryAfterWaits(now: real)
    ensures WaitsFor(RetryAfter(now), (WindowStart(now) + WINDOW) as real - now)
  {
    RetryAfterReaches(now);
  }

  /** That leaves one answer. */
  lemma OneWait(a: int, b: int, rest: real)
    requires WaitsFor(a, rest) && WaitsFor(b, rest)
    ensures a == b
  {
    assert a as real < b as real + 1.0 && b as real < a as real + 1.0;
  }

  /** A request that is limited is told the wait for the end of its own minute, by its task's clock. */
  lemma LimitedWaits(digest: KeyCodec.Digest, es: Entries, e: Event, n: int)
    requires e.Ask? && (n * 60) as real <= e.local < (n * 60 + 60) as real
    ensures var verdict := Step(digest, es, e).1;
            verdict.Limited? ==> WaitsFor(verdict.retryAfter, (n * 60 + 60) as real - e.local)
  {
    hide RetryAfter, Lazy, KeyCodec.RateKey;
    WindowStartIs(e.local, n);
    RetryAfterWaits(e.local);
  }

  /** So is every limited request of every run; nothing but a request is ever limited. */
  lemma {:induction false} LimitedAlwaysWaits(digest: KeyCodec.Digest, es: Entries, events: seq<Event>, i: nat, n: int)
    requires i < |events| && Run(digest, es, events).1[i].Limited?
    requires events[i].Ask? ==> (n * 60) as real <= events[i].local < (n * 60 + 60) as real
    ensures events[i].Ask?
    ensures WaitsFor(Run(digest, es, events).1[i].retryAfter, (n * 60 + 60) as real - events[i].local)
    decreases |events|
  {
    var last := |events| - 1;
    RunLast(digest, es, events);
    hide WaitsFor, Run;
    if i == last {
      if events[i].Ask? {
        LimitedWaits(digest, Run(digest, es, events[..last]).0, events[i], n);
      }
    } else {
      LimitedAlwaysWaits(digest, es, events[..last], i, n);
    }
  }

  // ----- counters only ever meet decimals -----

  predicate DecimalCounters(es: Entries) {
    forall k :: k in es ==> Foreign(k) || Decimal.Parse(es[k].value).Some?
  }

  lemma RateKeyNotForeign(digest: KeyCodec.Digest, rule: string, identity: string, window: int)
    ensures !Foreign(KeyCodec.RateKey(digest, rule, identity, window))
  {
    KeyCodec.KeySplits(digest, KeyCodec.NS_RATE_LIMIT, [KeyCodec.Word(rule), KeyCodec.Word(identity), KeyCodec.Num(window)]);
  }

  /** The incident service's own cache calls are benign. */
  lemma IncidentCallsAreBenign(digest: KeyCodec.Digest, org: int, id: int, text: string, ttl: int)
    ensures var key := KeyCodec.IncidentKey(digest, org, id);
            Benign(Op.Get(key)) && Benign(Op.Set(key, text, ttl)) && Benign(Op.Delete([key]))
  {
    KeyCodec.KeySplits(digest, KeyCodec.NS_INCIDENT, [KeyCodec.Num(org), KeyCodec.Num(id)]);
  }

  lemma AskKeepsDecimals(digest: KeyCodec.Digest, es: Entries, e: Event)
    requires e.Ask? && DecimalCounters(es)
    ensures DecimalCounters(Step(digest, es, e).0)
    ensures Step(digest, es, e).1 != Crashed
  {
    hide Decimal.Parse, Decimal.Str, KeyCodec.RateKey, Foreign;
    var key := AskKey(digest, e);
    RateKeyNotForeign(digest, e.rule, e.identity, WindowStart(e.local));
    var kept := Dropped(es, key, e.at);
    assert DecimalCounters(kept);
    var next := NextCount(Find(kept, key));
    assert next.Some?;
    Decimal.ParseStr(next.value);
  }

  lemma OtherKeepsDecimals(digest: KeyCodec.Digest, es: Entries, e: Event)
    requires e.Other? && Benign(e.op) && DecimalCounters(es)
    ensures DecimalCounters(Step(digest, es, e).0)
    ensures Step(digest, es, e).1 == Unasked
  {
    var es' := Step(digest, es, e).0;
    assert forall k :: k in es' ==> Foreign(k) || (k in es && es'[k] == es[k]);
  }

  lemma RunLast(digest: KeyCodec.Digest, es: Entries, events: seq<Event>)
    requires events != []
    ensures var n := |events| - 1;
            var before := Run(digest, es, events[..n]);
            var (after, verdict) := Step(digest, before.0, events[n]);
            Run(digest, es, events) == (after, before.1 + [verdict])
  {
  }

  lemma StepKeepsDecimals(digest: KeyCodec.Digest, es: Entries, e: Event)
    requires DecimalCounters(es) && (e.Other? ==> Benign(e.op))
    ensures DecimalCounters(Step(digest, es, e).0) && Step(digest, es, e).1 != Crashed
  {
    if e.Ask? {
      AskKeepsDecimals(digest, es, e);
    } else {
      OtherKeepsDecimals(digest, es, e);
    }
  }

  /** From a cache whose counters are decimals, no increment ever meets text it cannot parse. */
  lemma {:induction false} IncrementNeverCrashes(digest: KeyCodec.Digest, es: Entries, events: seq<Event>)
    requires DecimalCounters(es) && OthersBenign(events)
    ensures DecimalCounters(Run(digest, es, events).0)
    ensures Crashed !in Run(digest, es, events).1
    decreases |events|
  {
    if events != [] {
      var n := |events| - 1;
      assert events[n] in events;
      assert forall x :: x in events[..n] ==> x in events;
      IncrementNeverCrashes(digest, es, events[..n]);
      RunLast(digest, es, events);
      StepKeepsDecimals(digest, Run(digest, es, events[..n]).0, events[n]);
    } else {
      assert Run(digest, es, events) == (es, []);
    }
  }

  // ----- one counter -----

  /** Where the counter of one window stands after a run. */
  ghost predicate CounterState(es: Entries, key: string, window: int, asked: nat, skew: real, now: real) {
    && (asked == 0 ==> key !in es)
    && (asked > 0 ==>
          || now >= (window + WINDOW) as real + skew
          || (key in es && es[key].value == Decimal.Str(asked)
              && es[key].expiresAt >= (window + KEY_TTL) as real - skew))
  }

  lemma OtherKeepsCounter(digest: KeyCodec.Digest, es: Entries, e: Event, key: string, window: int, asked: nat,
                          skew: real, now: real)
    requires e.Other? && Benign(e.op) && !Foreign(key)
    requires now <= e.at <= e.later && skew <= 30.0
    requires CounterState(es, key, window, asked, skew, now)
    ensures CounterState(Step(digest, es, e).0, key, window, asked, skew, e.later)
  {
    var es' := Step(digest, es, e).0;
    assert key in es' ==> key in es && es'[key] == es[key];
    assert key in es && key !in es' ==> es[key].expiresAt <= e.at;
  }

  lemma AskElsewhereKeepsCounter(digest: KeyCodec.Digest, es: Entries, e: Event, key: string, window: int, asked: nat,
                                 skew: real, now: real)
    requires e.Ask? && AskKey(digest, e) != key
    requires now <= e.at <= e.later
    requires CounterState(es, key, window, asked, skew, now)
    ensures CounterState(Step(digest, es, e).0, key, window, asked, skew, e.later)
  {
  }

  lemma IncrementFrom(es: Entries, key: string, asked: nat, at: real, later: real)
    requires asked == 0 ==> key !in es
    requires asked > 0 ==> key in es && es[key].value == Decimal.Str(asked) && at < es[key].expiresAt
    ensures Lazy(es, Call(Op.Increment(key, KEY_TTL), at, later))
         == (es[key := Entry(Decimal.Str(asked + 1), later + KEY_TTL as real)], Counter(asked + 1))
  {
    hide Decimal.Parse, Decimal.Str;
    assert Dropped(es, key, at) == es;
    if asked > 0 {
      Decimal.ParseStr(asked);
    }
  }

  /** A request of the window finds the counter alive, however its task's clock is off. */
  lemma AskAdvancesCounter(digest: KeyCodec.Digest, es: Entries, e: Event, window: int, asked: nat, skew: real, now: real)
    requires e.Ask? && WindowStart(e.local) == window
    requires 0.0 <= skew <= 30.0 && e.at - skew <= e.local <= e.at + skew
    requires now <= e.at <= e.later
    requires CounterState(es, AskKey(digest, e), window, asked, skew, now)
    ensures CounterState(Step(digest, es, e).0, AskKey(digest, e), window, asked + 1, skew, e.later)
    ensures Step(digest, es, e).1 == Judge(asked + 1, e.limit, e.local)
  {
    WindowStartBounds(e.local);
    assert e.at < (window + WINDOW) as real + skew <= (window + KEY_TTL) as real - skew;
    IncrementFrom(es, AskKey(digest, e), asked, e.at, e.later);
  }

  lemma SameKeySameWindow(digest: KeyCodec.Digest, e: Event, rule: string, identity: string, window: int)
    requires e.Ask? && InRange(window)
    requires AskKey(digest, e) == KeyCodec.RateKey(digest, rule, identity, window)
    ensures WindowStart(e.local) == window
    ensures KeyCodec.Sanitize(digest, KeyCodec.Word(e.rule)) == KeyCodec.Sanitize(digest, KeyCodec.Word(rule))
  {
    KeyCodec.RateKeysEqual(digest, e.rule, e.identity, WindowStart(e.local), rule, identity, window);
  }

  /** One more event, seen from one counter. */
  lemma CounterStep(digest: KeyCodec.Digest, es: Entries, e: Event, skew: real, now: real,
                    rule: string, identity: string, window: int, asked: nat)
    requires 0.0 <= skew <= 30.0 && now <= e.at <= e.later
    requires e.Ask? ==> e.at - skew <= e.local <= e.at + skew
    requires e.Other? ==> Benign(e.op)
    requires InRange(window)
    requires CounterState(es, KeyCodec.RateKey(digest, rule, identity, window), window, asked, skew, now)
    ensures var key := KeyCodec.RateKey(digest, rule, identity, window);
            var hit := e.Ask? && AskKey(digest, e) == key;
            && CounterState(Step(digest, es, e).0, key, window, asked + (if hit then 1 else 0), skew, e.later)
            && (hit ==> Step(digest, es, e).1 == Judge(asked + 1, e.limit, e.local))
  {
    var key := KeyCodec.RateKey(digest, rule, identity, window);
    if e.Other? {
      RateKeyNotForeign(digest, rule, identity, window);
      OtherKeepsCounter(digest, es, e, key, window, asked, skew, now);
    } else if AskKey(digest, e) != key {
      AskElsewhereKeepsCounter(digest, es, e, key, window, asked, skew, now);
    } else {
      SameKeySameWindow(digest, e, rule, identity, window);
      AskAdvancesCounter(digest, es, e, window, asked, skew, now);
    }
  }

  /** As many requests were accepted as the limit allows, and no fewer. */
  predicate Exact(asked: nat, accepted: nat, limit: int) {
    accepted == Min(asked, Max(0, limit))
  }

  /** How many of the requests on one counter came, and how many were let through. */
  function Asked(digest: KeyCodec.Digest, es: Entries, events: seq<Event>, key: string): nat {
    Count(events, Run(digest, es, events).1, Asks(digest, key))
  }

  function Accepted(digest: KeyCodec.Digest, es: Entries, events: seq<Event>, key: string): nat {
    Count(events, Run(digest, es, events).1, Accepts(digest, key))
  }

  ghost predicate Guarantee(digest: KeyCodec.Digest, es: Entries, events: seq<Event>, skew: real, since: real,
                            key: string, window: int, limit: int) {
    && CounterState(Run(digest, es, events).0, key, window, Asked(digest, es, events, key), skew, LastTime(since, events))
    && Exact(Asked(digest, es, events, key), Accepted(digest, es, events, key), limit)
  }

  lemma ExactStep(asked: nat, accepted: nat, limit: int, local: real)
    requires Exact(asked, accepted, limit)
    ensures Exact(asked + 1, accepted + (if Judge(asked + 1, limit, local) == Allowed then 1 else 0), limit)
  {
  }

  lemma CountLast(digest: KeyCodec.Digest, es: Entries, events: seq<Event>, p: (Event, Verdict) -> bool)
    requires events != []
    ensures var n := |events| - 1;
            var before, after := Run(digest, es, events[..n]), Run(digest, es, events);
            && after.0 == Step(digest, before.0, events[n]).0
            && Count(events, after.1, p) == Count(events[..n], before.1, p)
                 + if p(events[n], Step(digest, before.0, events[n]).1) then 1 else 0
  {
    var n := |events| - 1;
    var before := Run(digest, es, events[..n]);
    assert (before.1 + [Step(digest, before.0, events[n]).1])[..n] == before.1;
  }

  lemma LastEvent(digest: KeyCodec.Digest, skew: real, since: real, events: seq<Event>)
    requires events != [] && Timely(skew, since, events) && OthersBenign(events)
    ensures var n := |events| - 1;
            var e := events[n];
            && LastTime(since, events[..n]) <= e.at <= e.later
            && (e.Ask? ==> e.at - skew <= e.local <= e.at + skew)
            && (e.Other? ==> Benign(e.op))
            && LastTime(since, events) == e.later && e in events
  {
    assert events[|events| - 1] in events;
  }

  lemma TalliesStep(digest: KeyCodec.Digest, es: Entries, events: seq<Event>, key: string)
    requires events != []
    ensures var n := |events| - 1;
            var (e, prefix) := (events[n], events[..n]);
            var (after, verdict) := Step(digest, Run(digest, es, prefix).0, e);
            var hit := e.Ask? && AskKey(digest, e) == key;
            && Run(digest, es, events).0 == after
            && Asked(digest, es, events, key) == Asked(digest, es, prefix, key) + (if hit then 1 else 0)
            && Accepted(digest, es, events, key)
               == Accepted(digest, es, prefix, key) + (if hit && verdict == Allowed then 1 else 0)
  {
    CountLast(digest, es, events, Asks(digest, key));
    CountLast(digest, es, events, Accepts(digest, key));
  }

  lemma CounterAfter(digest: KeyCodec.Digest, before: Entries, events: seq<Event>, skew: real, since: real,
                     rule: string, identity: string, window: int, limit: int, asked: nat)
    requires events != [] && 0.0 <= skew <= 30.0 && Timely(skew, since, events) && OthersBenign(events)
    requires RuleLimit(digest, events, rule, limit) && InRange(window)
    requires CounterState(before, KeyCodec.RateKey(digest, rule, identity, window), window, asked, skew,
                          LastTime(since, events[..|events| - 1]))
    ensures var key, e := KeyCodec.RateKey(digest, rule, identity, window), events[|events| - 1];
            var hit := e.Ask? && AskKey(digest, e) == key;
            && CounterState(Step(digest, before, e).0, key, window, asked + (if hit then 1 else 0), skew, LastTime(since, events))
            && (hit ==> Step(digest, before, e).1 == Judge(asked + 1, limit, e.local))
  {
    var e := events[|events| - 1];
    LastEvent(digest, skew, since, events);
    CounterStep(digest, before, e, skew, LastTime(since, events[..|events| - 1]), rule, identity, window, asked);
    if e.Ask? && AskKey(digest, e) == KeyCodec.RateKey(digest, rule, identity, window) {
      LimitOfRule(digest, events, e, rule, identity, window, limit);
    }
  }

  lemma GuaranteeStep(digest: KeyCodec.Digest, es: Entries, events: seq<Event>, skew: real, since: real,
                      rule: string, identity: string, window: int, limit: int)
    requires events != [] && 0.0 <= skew <= 30.0 && Timely(skew, since, events) && OthersBenign(events)
    requires RuleLimit(digest, events, rule, limit) && InRange(window)
    requires var key := KeyCodec.RateKey(digest, rule, identity, window);
             Guarantee(digest, es, events[..|events| - 1], skew, since, key, window, limit)
    ensures Guarantee(digest, es, events, skew, since, KeyCodec.RateKey(digest, rule, identity, window), window, limit)
  {
    var key, prefix := KeyCodec.RateKey(digest, rule, identity, window), events[..|events| - 1];
    var asked := Asked(digest, es, prefix, key);
    CounterAfter(digest, Run(digest, es, prefix).0, events, skew, since, rule, identity, window, limit, asked);
    TalliesStep(digest, es, events, key);
    if events[|events| - 1].Ask? {
      ExactStep(asked, Accepted(digest, es, prefix, key), limit, events[|events| - 1].local);
    }
  }

  lemma LimitOfRule(digest: KeyCodec.Digest, events: seq<Event>, e: Event, rule: string, identity: string,
                    window: int, limit: int)
    requires RuleLimit(digest, events, rule, limit) && e in events && e.Ask? && InRange(window)
    requires AskKey(digest, e) == KeyCodec.RateKey(digest, rule, identity, window)
    ensures e.limit == limit
  {
    SameKeySameWindow(digest, e, rule, identity, window);
  }

  /**
   * With clocks at most 30 seconds off the cache's, every window accepts exactly
   * min(requests, max(0, limit)) of the requests that share its counter, over all tasks, and the
   * counter is not dropped while they still arrive.
   */
  lemma {:induction false} LimiterExact(digest: KeyCodec.Digest, es: Entries, events: seq<Event>, skew: real, since: real,
                                        rule: string, identity: string, window: int, limit: int)
    requires 0.0 <= skew <= 30.0 && Timely(skew, since, events) && OthersBenign(events)
    requires RuleLimit(digest, events, rule, limit)
    requires InRange(window)
    requires forall k :: k in es ==> Foreign(k)
    ensures Guarantee(digest, es, events, skew, since, KeyCodec.RateKey(digest, rule, identity, window), window, limit)
    decreases |events|
  {
    RateKeyNotForeign(digest, rule, identity, window);
    if events != [] {
      var prefix := events[..|events| - 1];
      assert forall x :: x in prefix ==> x in events;
      LimiterExact(digest, es, prefix, skew, since, rule, identity, window, limit);
      GuaranteeStep(digest, es, events, skew, since, rule, identity, window, limit);
    }
  }

  // ----- the skew the TTL tolerates -----

  datatype Scenario = Scenario(events: seq<Event>, since: real, rule: string, identity: string, window: int, limit: int)

  ghost predicate Possible(digest: KeyCodec.Digest, skew: real, sc: Scenario) {
    && Timely(skew, sc.since, sc.events) && OthersBenign(sc.events)
    && RuleLimit(digest, sc.events, sc.rule, sc.limit) && InRange(sc.window)
  }

  ghost predicate CountsExactly(digest: KeyCodec.Digest, sc: Scenario) {
    var key := KeyCodec.RateKey(digest, sc.rule, sc.identity, sc.window);
    Exact(Asked(digest, map[], sc.events, key), Accepted(digest, map[], sc.events, key), sc.limit)
  }

  /** Two requests of one window, the first seen early by the cache and the second late. */
  function Straddle(skew: real): Scenario
    requires 30.0 < skew <= 31.0
  {
    var gap := if 2.0 * skew - 60.0 < 1.0 then 2.0 * skew - 60.0 else 1.0;
    var late := 120.0 - gap;
    Scenario([Ask("api", 1, "user_1", 60.0, 60.0 - skew, 60.0 - skew),
              Ask("api", 1, "user_1", late, late + skew, late + skew)], 0.0, "api", "user_1", 60, 1)
  }

  lemma StraddleDropsCounter(digest: KeyCodec.Digest, skew: real)
    requires 30.0 < skew <= 31.0
    ensures Possible(digest, skew, Straddle(skew)) && !CountsExactly(digest, Straddle(skew))
  {
    hide KeyCodec.RateKey, KeyCodec.Sanitize, Decimal.Parse, Decimal.Str;
    var sc := Straddle(skew);
    var first, second := sc.events[0], sc.events[1];
    var key := KeyCodec.RateKey(digest, "api", "user_1", 60);
    WindowStartIs(first.local, 1);
    WindowStartIs(second.local, 1);
    assert sc.events[..1] == [first] && sc.events[..1][..0] == [];
    assert Timely(skew, 0.0, [first]) by { assert [first][..0] == []; }
    assert Possible(digest, skew, sc);
    TwoFirstRequests(digest, first, second, key);
  }

  /** A request that comes when its counter has expired counts as the first. */
  lemma TwoFirstRequests(digest: KeyCodec.Digest, first: Event, second: Event, key: string)
    requires first.Ask? && second.Ask? && AskKey(digest, first) == key && AskKey(digest, second) == key
    requires first.limit == 1 && second.limit == 1
    requires first.later + KEY_TTL as real <= second.at
    ensures var events := [first, second];
            Asked(digest, map[], events, key) == 2 && Accepted(digest, map[], events, key) == 2
  {
    var events := [first, second];
    assert events[..1] == [first] && [first][..0] == [];
    var r1 := Run(digest, map[], [first]);
    CountLast(digest, map[], [first], Asks(digest, key));
    CountLast(digest, map[], [first], Accepts(digest, key));
    CountLast(digest, map[], events, Asks(digest, key));
    CountLast(digest, map[], events, Accepts(digest, key));
    IncrementFrom(map[], key, 0, first.at, first.later);
    assert r1.0 == map[key := Entry(Decimal.Str(1), first.later + KEY_TTL as real)];
    assert Dropped(r1.0, key, second.at) == map[];
    assert Step(digest, r1.0, second).1 == Judge(1, 1, second.local);
  }

  lemma {:induction false} TimelyWider(narrow: real, wide: real, since: real, events: seq<Event>)
    requires narrow <= wide && Timely(narrow, since, events)
    ensures Timely(wide, since, events)
    decreases |events|
  {
    if events != [] {
      TimelyWider(narrow, wide, since, events[..|events| - 1]);
    }
  }

  /** The two-window TTL tolerates a clock skew of 30 seconds and no more. */
  lemma SkewToleranceExact(digest: KeyCodec.Digest, skew: real)
    requires 0.0 <= skew
    ensures (forall sc: Scenario :: Possible(digest, skew, sc) ==> CountsExactly(digest, sc)) <==> skew <= 30.0
  {
    if skew <= 30.0 {
      forall sc: Scenario | Possible(digest, skew, sc)
        ensures CountsExactly(digest, sc)
      {
        LimiterExact(digest, map[], sc.events, skew, sc.since, sc.rule, sc.identity, sc.window, sc.limit);
      }
    } else {
      var narrow := if skew < 31.0 then skew else 31.0;
      var sc := Straddle(narrow);
      StraddleDropsCounter(digest, narrow);
      TimelyWider(narrow, skew, sc.since, sc.events);
      assert Possible(digest, skew, sc) && !CountsExactly(digest, sc);
    }
  }

  // ----- bursts across a boundary, on one clock -----

  lemma {:induction false} CountUnion(events: seq<Event>, vs: seq<Verdict>, p: (Event, Verdict) -> bool,
                                      q: (Event, Verdict) -> bool, r: (Event, Verdict) -> bool)
    requires |events| == |vs|
    requires forall e, v :: p(e, v) ==> q(e, v) || r(e, v)
    ensures Count(events, vs, p) <= Count(events, vs, q) + Count(events, vs, r)
    decreases |events|
  {
    if events != [] {
      var n := |events| - 1;
      CountUnion(events[..n], vs[..n], p, q, r);
    }
  }

  lemma OneMoreWindow(digest: KeyCodec.Digest, events: seq<Event>, since: real, rule: string,
                      identity: string, limit: nat, lo: real, n: int)
    requires Timely(0.0, since, events) && OthersBenign(events) && RuleLimit(digest, events, rule, limit)
    requires 0 <= n && n * WINDOW < KeyCodec.SHORT_LIMIT
    ensures var vs := Run(digest, map[], events).1;
            Count(events, vs, AcceptsBetween(rule, identity, lo, (n * WINDOW + WINDOW) as real))
              <= Count(events, vs, AcceptsBetween(rule, identity, lo, (n * WINDOW) as real)) + limit
  {
    var vs := Run(digest, map[], events).1;
    var key := KeyCodec.RateKey(digest, rule, identity, n * WINDOW);
    LimiterExact(digest, map[], events, 0.0, since, rule, identity, n * WINDOW, limit);
    var p := AcceptsBetween(rule, identity, lo, (n * WINDOW + WINDOW) as real);
    var q := AcceptsBetween(rule, identity, lo, (n * WINDOW) as real);
    forall e: Event, v: Verdict | p(e, v)
      ensures q(e, v) || Accepts(digest, key)(e, v)
    {
      if (n * WINDOW) as real <= e.local {
        WindowStartIs(e.local, n);
      }
    }
    CountUnion(events, vs, p, q, Accepts(digest, key));
  }

  lemma OneMoreLimit(windows: nat, limit: nat)
    requires windows > 0
    ensures windows * limit == (windows - 1) * limit + limit
  {
  }

  lemma {:induction false} WindowsBound(digest: KeyCodec.Digest, events: seq<Event>, since: real, rule: string,
                                        identity: string, limit: nat, first: nat, windows: nat)
    requires Timely(0.0, since, events) && OthersBenign(events) && RuleLimit(digest, events, rule, limit)
    requires (first + windows) * WINDOW <= KeyCodec.SHORT_LIMIT
    ensures Count(events, Run(digest, map[], events).1,
                  AcceptsBetween(rule, identity, (first * WINDOW) as real, ((first + windows) * WINDOW) as real))
         <= windows * limit
    decreases windows
  {
    hide Run, Count, Timely, OthersBenign, RuleLimit;
    var lo := (first * WINDOW) as real;
    if windows == 0 {
      CountNothing(events, Run(digest, map[], events).1, AcceptsBetween(rule, identity, lo, lo));
    } else {
      WindowsBound(digest, events, since, rule, identity, limit, first, windows - 1);
      var last := first + windows - 1;
      OneMoreWindow(digest, events, since, rule, identity, limit, lo, last);
      assert (first + windows) * WINDOW == last * WINDOW + WINDOW;
      OneMoreLimit(windows, limit);
    }
  }

  lemma {:induction false} CountNothing(events: seq<Event>, vs: seq<Verdict>, p: (Event, Verdict) -> bool)
    requires |events| == |vs| && forall e, v :: !p(e, v)
    ensures Count(events, vs, p) == 0
    decreases |events|
  {
    if events != [] {
      CountNothing(events[..|events| - 1], vs[..|events| - 1], p);
    }
  }

  function Ceiling(x: real): int {
    -(-x).Floor
  }

  /**
   * On one clock, a half-open interval of `length` seconds accepts at most
   * (ceil(length / 60) + 1) * limit requests of one identity: twice the limit for a minute.
   */
  lemma BurstBound(digest: KeyCodec.Digest, events: seq<Event>, since: real, rule: string, identity: string,
                   limit: nat, from: real, length: real)
    requires Timely(0.0, since, events) && OthersBenign(events) && RuleLimit(digest, events, rule, limit)
    requires 0.0 <= from && 0.0 < length && from + length <= (KeyCodec.SHORT_LIMIT - 3 * WINDOW) as real
    ensures Count(events, Run(digest, map[], events).1, AcceptsBetween(rule, identity, from, from + length))
         <= (Ceiling(length / WINDOW as real) + 1) * limit
  {
    WindowStartBounds(from);
    var first, windows := (from / WINDOW as real).Floor, Ceiling(length / WINDOW as real) + 1;
    var q := length / WINDOW as real;
    assert length == q * 60.0 && q <= Ceiling(q) as real < q + 1.0;
    assert ((first + windows) * WINDOW) as real >= from + length;
    WindowsBound(digest, events, since, rule, identity, limit, first, windows);
    var wide := AcceptsBetween(rule, identity, (first * WINDOW) as real, ((first + windows) * WINDOW) as real);
    var none := AcceptsBetween(rule, identity, 0.0, 0.0);
    var vs := Run(digest, map[], events).1;
    CountUnion(events, vs, AcceptsBetween(rule, identity, from, from + length), wide, none);
    CountNothing(events, vs, none);
  }

  /** `limit` requests in the last second of the first window, then `limit` at the start of the next. */
  function DoubleBurst(rule: string, identity: string, limit: nat): (events: seq<Event>)
    ensures |events| == 2 * limit
  {
    seq(2 * limit, i => if i < limit then Ask(rule, limit, identity, 59.0, 59.0, 59.0)
                        else Ask(rule, limit, identity, 60.0, 60.0, 60.0))
  }

  lemma {:induction false} DoubleBurstTimely(rule: string, identity: string, limit: nat, n: nat)
    requires n <= 2 * limit
    ensures Timely(0.0, 0.0, DoubleBurst(rule, identity, limit)[..n])
  {
    if n > 0 {
      var events := DoubleBurst(rule, identity, limit);
      DoubleBurstTimely(rule, identity, limit, n - 1);
      assert events[..n][..n - 1] == events[..n - 1];
    }
  }

  lemma {:induction false} CountAtLeast(events: seq<Event>, vs: seq<Verdict>, p: (Event, Verdict) -> bool, lo: nat, hi: nat)
    requires |events| == |vs| && lo <= hi <= |events|
    requires forall i :: lo <= i < hi ==> p(events[i], vs[i])
    ensures Count(events, vs, p) >= hi - lo
    decreases |events|
  {
    if lo < hi {
      var n := |events| - 1;
      CountAtLeast(events[..n], vs[..n], p, lo, if hi <= n then hi else n);
    }
  }

  lemma {:induction false} CountDisjoint(events: seq<Event>, vs: seq<Verdict>, p: (Event, Verdict) -> bool,
                                         q: (Event, Verdict) -> bool, r: (Event, Verdict) -> bool)
    requires |events| == |vs|
    requires forall i :: 0 <= i < |events| ==> q(events[i], vs[i]) || r(events[i], vs[i]) ==> p(events[i], vs[i])
    requires forall i :: 0 <= i < |events| ==> !(q(events[i], vs[i]) && r(events[i], vs[i]))
    ensures Count(events, vs, q) + Count(events, vs, r) <= Count(events, vs, p)
    decreases |events|
  {
    if events != [] {
      var n := |events| - 1;
      CountDisjoint(events[..n], vs[..n], p, q, r);
    }
  }

  lemma DoubleBurstPossible(digest: KeyCodec.Digest, rule: string, identity: string, limit: nat)
    ensures var events := DoubleBurst(rule, identity, limit);
            Timely(0.0, 0.0, events) && OthersBenign(events) && RuleLimit(digest, events, rule, limit)
  {
    DoubleBurstTimely(rule, identity, limit, 2 * limit);
    var events := DoubleBurst(rule, identity, limit);
    assert events[..2 * limit] == events;
  }

  lemma DoubleBurstKeys(digest: KeyCodec.Digest, rule: string, identity: string, limit: nat, i: nat)
    requires i < 2 * limit
    ensures DoubleBurst(rule, identity, limit)[i].Ask?
    ensures AskKey(digest, DoubleBurst(rule, identity, limit)[i])
         == if i < limit then KeyCodec.RateKey(digest, rule, identity, 0) else KeyCodec.RateKey(digest, rule, identity, 60)
  {
    WindowStartIs(59.0, 0);
    WindowStartIs(60.0, 1);
  }

  /** Each half of the double burst fills its window. */
  lemma BurstWindow(digest: KeyCodec.Digest, rule: string, identity: string, limit: nat, window: int, lo: nat)
    requires (window == 0 && lo == 0) || (window == 60 && lo == limit)
    ensures Accepted(digest, map[], DoubleBurst(rule, identity, limit), KeyCodec.RateKey(digest, rule, identity, window)) >= limit
  {
    var events, key := DoubleBurst(rule, identity, limit), KeyCodec.RateKey(digest, rule, identity, window);
    DoubleBurstPossible(digest, rule, identity, limit);
    LimiterExact(digest, map[], events, 0.0, 0.0, rule, identity, window, limit);
    forall i | lo <= i < lo + limit
      ensures events[i].Ask? && AskKey(digest, events[i]) == key
    {
      DoubleBurstKeys(digest, rule, identity, limit, i);
    }
    CountAtLeast(events, Run(digest, map[], events).1, Asks(digest, key), lo, lo + limit);
  }

  lemma HalvesDiffer(digest: KeyCodec.Digest, rule: string, identity: string)
    ensures KeyCodec.RateKey(digest, rule, identity, 0) != KeyCodec.RateKey(digest, rule, identity, 60)
  {
    KeyCodec.RateKeysEqual(digest, rule, identity, 0, rule, identity, 60);
  }

  /** The bound of twice the limit within one minute is reached, for every limit. */
  lemma BurstAttained(digest: KeyCodec.Digest, rule: string, identity: string, limit: nat)
    ensures var events := DoubleBurst(rule, identity, limit);
            && Timely(0.0, 0.0, events) && OthersBenign(events) && RuleLimit(digest, events, rule, limit)
            && Count(events, Run(digest, map[], events).1, AcceptsBetween(rule, identity, 59.0, 119.0)) == 2 * limit
  {
    hide Run, Count, Timely, OthersBenign, RuleLimit, KeyCodec.RateKey;
    var events := DoubleBurst(rule, identity, limit);
    var vs := Run(digest, map[], events).1;
    DoubleBurstPossible(digest, rule, identity, limit);
    BurstWindow(digest, rule, identity, limit, 0, 0);
    BurstWindow(digest, rule, identity, limit, 60, limit);
    HalvesDiffer(digest, rule, identity);
    var k0, k1 := KeyCodec.RateKey(digest, rule, identity, 0), KeyCodec.RateKey(digest, rule, identity, 60);
    CountDisjoint(events, vs, AcceptsBetween(rule, identity, 59.0, 119.0), Accepts(digest, k0), Accepts(digest, k1));
    assert Ceiling(1.0) == 1;
    BurstBound(digest, events, 0.0, rule, identity, limit, 59.0, 60.0);
  }

  // ----- the limiter object -----

  class Limiter<V> {
    const digest: KeyCodec.Digest
    const cache: CS.Service<V>

    constructor (digest: KeyCodec.Digest, cache: CS.Service<V>)
      ensures this.digest == digest && this.cache == cache
    {
      this.digest, this.cache := digest, cache;
    }

    /** With no backend the request is let through and no counter moves; otherwise one `Step`. */
    method Check(rule: string, limit: int, identity: string, now: real, at: real, later: real, up: bool)
      returns (verdict: Verdict)
      modifies cache.backend, cache.metrics
      ensures up && cache.enabled ==>
        (cache.backend.entries, verdict) == Step(digest, old(cache.backend.entries), Ask(rule, limit, identity, now, at, later))
      ensures !(up && cache.enabled) ==> verdict == Allowed && cache.backend.entries == old(cache.backend.entries)
      ensures verdict.Limited? ==> WaitsFor(verdict.retryAfter, (WindowStart(now) + WINDOW) as real - now)
    {
      hide CS.Serve, Lazy, KeyCodec.RateKey, WindowStart, Truncate, WaitsFor;
      var windowStart := WindowStart(now);
      var key := KeyCodec.RateKey(digest, rule, identity, windowStart);
      var count := cache.Increment(key, KEY_TTL, at, later, up);
      if count.None? {
        return Crashed;
      }
      if count.value == 0 {
        return Allowed;
      }
      if count.value > limit {
        var retryAfter := Max(1, Truncate((windowStart + WINDOW) as real - now));
        RetryAfterWaits(now);
        return Limited(retryAfter);
      }
      return Allowed;
    }
  }
}
