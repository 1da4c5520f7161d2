/** The protocol's cache steps are those of the cache service, seen through the stored text. */
module ProtocolCache {
  import opened Prelude
  import opened Database
  import CS = CacheService
  import Backends
  import P = Protocol

  /** The backend's entries for a protocol cache. */
  function Stored(codec: CS.Codec<Payload>, cache: map<string, P.Entry>): Backends.Entries {
    map k | k in cache :: Backends.Entry(codec.dumps(cache[k].payload), cache[k].expiresAt)
  }

  function Service(codec: CS.Codec<Payload>, s: P.State, counts: CS.Counts): CS.State {
    CS.State(Stored(codec, s.cache), counts)
  }

  /** `get` on the stored text returns the payload the protocol serves, and nothing while the cache is down. */
  lemma GetServes(codec: CS.Codec<Payload>, c: P.Config, s: P.State, counts: CS.Counts, org: nat, id: nat, w: CS.Weather)
    requires P.KeyOf(c, org, id) in s.cache ==> CS.ReadsBack(codec, s.cache[P.KeyOf(c, org, id)].payload)
    ensures CS.DoGet(codec, true, Service(codec, s, counts), P.KeyOf(c, org, id), s.now, w).1
         == if w.readUp then P.Served(c, s, org, id) else None
  {
  }

  /** What is asked of a codec here can be met for every state of the protocol. */
  lemma CodecExists(s: P.State)
    ensures exists codec: CS.Codec<Payload> ::
              CS.NeverNull(codec) && forall k :: k in s.cache ==> CS.ReadsBack(codec, s.cache[k].payload)
  {
    var dumps := (p: Payload) =>
      if exists k :: k in s.cache && s.cache[k].payload == p
      then (var k :| k in s.cache && s.cache[k].payload == p; k)
      else "";
    var loads := (text: string) => if text in s.cache then CS.Doc(s.cache[text].payload) else CS.Undecodable;
    var codec := CS.Codec(dumps, loads);
    assert CS.NeverNull(codec);
    assert forall k :: k in s.cache ==> CS.ReadsBack(codec, s.cache[k].payload);
  }

  lemma StoredPut(codec: CS.Codec<Payload>, cache: map<string, P.Entry>, k: string, e: P.Entry)
    ensures Stored(codec, cache[k := e]) == Stored(codec, cache)[k := Backends.Entry(codec.dumps(e.payload), e.expiresAt)]
  {
  }

  /** `set` stores what the protocol's `Store` step stores. */
  lemma SetStores(codec: CS.Codec<Payload>, c: P.Config, s: P.State, counts: CS.Counts, r: nat, up: bool)
    requires s.log != [] && r in s.readers && s.readers[r].Loaded?
    ensures var rd := s.readers[r];
            var key := P.KeyOf(c, rd.org, rd.id);
            CS.DoSet(codec, true, Service(codec, s, counts), key, Some(rd.payload), c.ttl, s.now, up).entries
            == Stored(codec, P.StepStore(c, s, r, up).cache)
  {
    var rd := s.readers[r];
    StoredPut(codec, s.cache, P.KeyOf(c, rd.org, rd.id), P.NewEntry(c, s, rd));
  }

  /** `invalidate` drops what the protocol's `Drop` step drops. */
  lemma InvalidateDrops(codec: CS.Codec<Payload>, c: P.Config, s: P.State, counts: CS.Counts, w: nat, up: bool)
    requires w in s.writers && s.writers[w].Committed?
    ensures CS.DoInvalidate(true, Service(codec, s, counts), [P.KeyOf(c, s.writers[w].org, s.writers[w].id)], up).0.entries
         == Stored(codec, P.StepDrop(c, s, w, up).cache)
  {
    var k := P.KeyOf(c, s.writers[w].org, s.writers[w].id);
    assert Backends.Keyed([k]) == {k};
    assert Stored(codec, s.cache) - {k} == Stored(codec, s.cache - {k});
  }
}
