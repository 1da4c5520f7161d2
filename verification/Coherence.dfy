/** Commit-then-invalidate coherence over every interleaving of the protocol. */
module Coherence {
  import opened Prelude
  import opened Database
  import opened KeyCodec
  import opened Protocol
  import opened Versions
  import History

  /** A writer has committed this version and not invalidated yet. */
  predicate Pending(s: State, v: nat) {
    exists w :: w in s.writers && s.writers[w].Committed? && s.writers[w].version == v
  }

  /**
   * Every update of the incident committed since this entry's load is waiting for its
   * invalidation, had its invalidation lost to a cache failure, or was invalidated before the
   * entry was stored: the reader overtook both the commit and the invalidation.
   */
  predicate EntryCoherent(s: State, e: Entry) {
    && (forall v :: v in e.seen ==> v <= e.storedVersion)
    && (forall v: nat :: e.version < v < |s.log| && s.log[v].touched == Some(e.id) ==>
          Pending(s, v) || v in s.lost || v in e.seen)
  }

  ghost predicate Coherent(s: State) {
    && (forall w :: w in s.writers ==> !s.writers[w].Cleared?)
    && (forall v :: v in s.invalidated ==> v < |s.log|)
    && (forall v: nat :: v < |s.log| && s.log[v].touched.Some? ==> Pending(s, v) || v in s.lost || v in s.invalidated)
    && (forall k :: k in s.cache ==> EntryCoherent(s, s.cache[k]))
  }

  lemma CoherentFrame(s: State, t: State)
    requires Coherent(s) && t.log == s.log && t.lost == s.lost && t.invalidated == s.invalidated
    requires forall k :: k in t.cache ==> k in s.cache && t.cache[k] == s.cache[k]
    requires forall w :: w in t.writers ==> !t.writers[w].Cleared?
    requires forall w :: w in s.writers && s.writers[w].Committed? ==> w in t.writers && t.writers[w] == s.writers[w]
    ensures Coherent(t)
  {
    forall v: nat | Pending(s, v)
      ensures Pending(t, v)
    {
      var w :| w in s.writers && s.writers[w].Committed? && s.writers[w].version == v;
      assert w in t.writers && t.writers[w] == s.writers[w];
    }
    forall k | k in t.cache
      ensures EntryCoherent(t, t.cache[k])
    {
      assert EntryCoherent(s, s.cache[k]);
    }
  }

  lemma CoherentStore(c: Config, s: State, r: nat, up: bool)
    requires Coherent(s) && s.log != [] && r in s.readers && s.readers[r].Loaded?
    ensures Coherent(StepStore(c, s, r, up))
  {
    var t := StepStore(c, s, r, up);
    assert forall v: nat :: Pending(s, v) <==> Pending(t, v);
    forall k | k in t.cache
      ensures EntryCoherent(t, t.cache[k])
    {
      if k in s.cache && t.cache[k] == s.cache[k] {
        assert EntryCoherent(s, s.cache[k]);
      }
    }
  }

  lemma CoherentAppend(s: State, t: State, next: Commit, w: nat)
    requires Coherent(s) && t.log == s.log + [next] && t.lost == s.lost && t.invalidated == s.invalidated
    requires t.cache == s.cache
    requires forall x :: x in t.writers ==> !t.writers[x].Cleared?
    requires forall x :: x in s.writers && s.writers[x].Committed? ==> x in t.writers && t.writers[x] == s.writers[x]
    requires next.touched.Some? ==> w in t.writers && t.writers[w].Committed? && t.writers[w].version == |s.log|
    ensures Coherent(t)
  {
    forall v: nat | Pending(s, v)
      ensures Pending(t, v)
    {
      var x :| x in s.writers && s.writers[x].Committed? && s.writers[x].version == v;
      assert x in t.writers && t.writers[x] == s.writers[x];
    }
    assert next.touched.Some? ==> Pending(t, |s.log|);
    forall k | k in t.cache
      ensures EntryCoherent(t, t.cache[k])
    {
      assert EntryCoherent(s, s.cache[k]);
    }
  }

  /** An invalidation reaches every entry of its incident. */
  lemma OneKeyPerIncident(c: Config, s: State, k: string, w: nat)
    requires Inv(c, s) && k in s.cache && w in s.writers && s.cache[k].id == s.writers[w].id
    ensures k == KeyOf(c, s.writers[w].org, s.writers[w].id)
  {
    var e := s.cache[k];
    assert EntryOk(c, s.log, s.now, s.maxDelay, k, e) && WriterOk(s.log, s.writers[w]);
    assert Preserves(s.log[e.version].db, s.log[|s.log| - 1].db);
  }

  /** Taking a writer out of the waiting state: its version is lost, or no entry of its incident is left. */
  lemma CoherentSettle(s: State, t: State, w: nat, v: nat)
    requires Coherent(s) && t.log == s.log && v < |s.log|
    requires w in s.writers && s.writers[w].Committed? && s.writers[w].version == v && t.writers == s.writers - {w}
    requires || (t.lost == s.lost + {v} && t.invalidated == s.invalidated)
             || (t.lost == s.lost && t.invalidated == s.invalidated + {v}
                 && forall k :: k in t.cache ==> s.log[v].touched != Some(t.cache[k].id))
    requires forall k :: k in t.cache ==> k in s.cache && t.cache[k] == s.cache[k]
    ensures Coherent(t)
  {
    forall u: nat | Pending(s, u) && u != v
      ensures Pending(t, u)
    {
      var x :| x in s.writers && s.writers[x].Committed? && s.writers[x].version == u;
      assert x in t.writers && t.writers[x] == s.writers[x];
    }
    forall k | k in t.cache
      ensures EntryCoherent(t, t.cache[k])
    {
      assert EntryCoherent(s, s.cache[k]);
    }
  }

  lemma DropClears(c: Config, s: State, w: nat, k: string)
    requires Inv(c, s) && w in s.writers && s.writers[w].Committed? && k in StepDrop(c, s, w, true).cache
    ensures k in s.cache && s.cache[k] == StepDrop(c, s, w, true).cache[k]
    ensures s.writers[w].version < |s.log|
    ensures s.log[s.writers[w].version].touched != Some(s.cache[k].id)
  {
    WriterStillOk(c, s, w);
    if s.cache[k].id == s.writers[w].id {
      OneKeyPerIncident(c, s, k, w);
    }
  }

  lemma CoherentDrop(c: Config, s: State, w: nat, up: bool)
    requires Inv(c, s) && Coherent(s) && c.order.CommitFirst? && w in s.writers
    ensures Coherent(StepDrop(c, s, w, up))
  {
    hide Coherent, KeyOf, Inv;
    if s.writers[w].Committed? {
      WriterStillOk(c, s, w);
      if up {
        forall k | k in StepDrop(c, s, w, true).cache
          ensures k in s.cache && s.cache[k] == StepDrop(c, s, w, true).cache[k]
          ensures s.writers[w].version < |s.log| && s.log[s.writers[w].version].touched != Some(s.cache[k].id)
        {
          DropClears(c, s, w, k);
        }
      }
      CoherentSettle(s, StepDrop(c, s, w, up), w, s.writers[w].version);
    } else {
      NoneCleared(s, w);
    }
  }

  lemma NoneCleared(s: State, w: nat)
    requires Coherent(s) && w in s.writers
    ensures !s.writers[w].Cleared?
  {
  }

  lemma CoherentStep(c: Config, s: State, a: Action)
    requires c.order.CommitFirst? && Inv(c, s) && Coherent(s) && s.log != []
    ensures Coherent(Step(c, s, a))
  {
    hide Coherent, Inv, Served, View, StepStore, StepCommit, StepDrop, StepOther, GetIncident, KeyOf;
    match a
    case Tick(_) => CoherentQuiet(c, s, a);
    case Sweep(_) => CoherentQuiet(c, s, a);
    case Begin(_, _, _, _) => CoherentQuiet(c, s, a);
    case LoadRow(_) => CoherentQuiet(c, s, a);
    case Read(w, org, id) => CoherentRead(c, s, w, org, id);
    case Store(r, up) =>
      if r in s.readers && s.readers[r].Loaded? {
        CoherentStore(c, s, r, up);
      }
    case CommitRow(w, changes) =>
      if w in s.writers && !s.writers[w].Committed? {
        CoherentCommit(c, s, w, changes);
      }
    case Drop(w, up) =>
      if w in s.writers {
        CoherentDrop(c, s, w, up);
      }
    case Other(request) =>
      if !request.EditIncident? {
        CoherentOther(s, request);
      }
  }

  lemma CoherentOther(s: State, request: History.Action)
    requires Coherent(s) && s.log != []
    ensures Coherent(StepOther(s, request))
  {
    var t := StepOther(s, request);
    CoherentAppend(s, t, t.log[|s.log|], 0);
  }

  /** Nothing that coherence speaks of changes. */
  predicate SameStores(s: State, t: State) {
    t.log == s.log && t.cache == s.cache && t.lost == s.lost && t.invalidated == s.invalidated
  }

  lemma LoadRowStores(c: Config, s: State, r: nat)
    requires s.log != []
    ensures SameStores(s, Step(c, s, LoadRow(r))) && Step(c, s, LoadRow(r)).writers == s.writers
  {
  }

  lemma CoherentRead(c: Config, s: State, w: nat, org: nat, id: nat)
    requires Coherent(s) && s.log != []
    ensures Coherent(Step(c, s, Read(w, org, id)))
  {
    hide EntryCoherent, Pending, GetIncident, KeyOf;
    CoherentFrame(s, Step(c, s, Read(w, org, id)));
  }

  lemma CoherentQuiet(c: Config, s: State, a: Action)
    requires Coherent(s) && s.log != [] && (a.Tick? || a.Sweep? || a.Begin? || a.LoadRow?)
    ensures Coherent(Step(c, s, a))
  {
    if a.LoadRow? {
      LoadRowStores(c, s, a.reader);
    }
    CoherentFrame(s, Step(c, s, a));
  }

  lemma CoherentCommit(c: Config, s: State, w: nat, changes: seq<Change>)
    requires c.order.CommitFirst? && Coherent(s) && s.log != [] && w in s.writers && !s.writers[w].Committed?
    ensures Coherent(StepCommit(c, s, w, changes))
  {
    var wr, t := s.writers[w], StepCommit(c, s, w, changes);
    var (db, ok) := CommitUpdate(Current(s), wr.id, wr.base, Edited(wr.base, changes, s.now), s.now);
    if ok {
      CoherentAppend(s, t, Commit(db, s.now, Some(wr.id), None), w);
    } else {
      CoherentFrame(s, t);
    }
  }

  lemma {:induction false} RunCoherent(c: Config, actions: seq<Action>)
    requires c.order.CommitFirst?
    ensures Coherent(Run(c, actions))
  {
    if actions != [] {
      RunCoherent(c, actions[..|actions| - 1]);
      RunKeeps(c, actions[..|actions| - 1]);
      CoherentStep(c, Run(c, actions[..|actions| - 1]), actions[|actions| - 1]);
    }
  }

  /** The entry's incident columns are no longer the committed ones. */
  predicate Stale(s: State, e: Entry) {
    s.log != [] && !(e.id in Current(s).incidents && Current(s).incidents[e.id].columns == e.payload.columns)
  }

  predicate MissedUpdate(s: State, e: Entry, v: nat) {
    e.version < v < |s.log| && s.log[v].touched == Some(e.id)
  }

  /** A missed update that gave the incident other columns. */
  predicate MissedChange(s: State, e: Entry, v: nat) {
    MissedUpdate(s, e, v) && ChangedAt(s.log, v, e.id)
  }

  /** The row an entry was loaded from, and the row now. */
  lemma EntryRow(c: Config, s: State, k: string)
    requires Inv(c, s) && k in s.cache
    ensures var e := s.cache[k];
            && LogOk(s.log, s.now) && e.version < |s.log| && e.id in s.log[e.version].db.incidents
            && s.log[e.version].db.incidents[e.id].columns == e.payload.columns
  {
    hide KeyOf, LogOk;
    assert EntryOk(c, s.log, s.now, s.maxDelay, k, s.cache[k]);
  }

  lemma StaleMissed(c: Config, s: State, k: string)
    requires Inv(c, s) && Chained(s.log) && k in s.cache && Stale(s, s.cache[k])
    ensures exists v: nat :: MissedChange(s, s.cache[k], v)
  {
    hide Inv, LogOk, Chained;
    var e := s.cache[k];
    EntryRow(c, s, k);
    ColumnsBetween(s.log, e.version, |s.log| - 1, e.id);
    var v: nat :| e.version < v <= |s.log| - 1 && ChangedAt(s.log, v, e.id);
    ChangeIsUpdate(s.log, v, e.id);
    assert MissedChange(s, e, v);
  }

  /** A change stamps the row with its own time, and later ones with theirs: the old stamp never comes back. */
  lemma MissedStale(c: Config, s: State, k: string, v: nat)
    requires Inv(c, s) && Chained(s.log) && k in s.cache && MissedChange(s, s.cache[k], v)
    ensures s.log[v].at >= s.cache[k].payload.columns.updatedAt
    ensures s.log[v].at > s.cache[k].payload.columns.updatedAt ==> Stale(s, s.cache[k])
  {
    hide Inv, LogOk, Chained;
    var e := s.cache[k];
    EntryRow(c, s, k);
    ChangeIsUpdate(s.log, v, e.id);
    StampsBetween(s.log, s.now, e.version, v, e.id);
    StampsBetween(s.log, s.now, v, |s.log| - 1, e.id);
  }

  /** Awaiting invalidation, or lost to a cache failure, or invalidated before the entry was stored. */
  predicate Excused(s: State, e: Entry, v: nat) {
    Pending(s, v) || v in s.lost || (v in e.seen && v <= e.storedVersion)
  }

  /**
   * In every interleaving: every update an entry missed is between commit and invalidation, had its
   * invalidation lost by the cache, or was committed and invalidated between the entry's load and
   * its store. An entry whose incident columns differ from the committed row missed an update that
   * changed them; and any such update committed later than the payload's `updated_at` leaves it stale.
   */
  lemma Coherence(c: Config, actions: seq<Action>, k: string)
    requires c.order.CommitFirst? && k in Run(c, actions).cache
    ensures var s := Run(c, actions);
            var e := s.cache[k];
            && (forall v: nat :: MissedUpdate(s, e, v) ==> Excused(s, e, v))
            && (Stale(s, e) ==> exists v: nat :: MissedChange(s, e, v))
            && (forall v: nat :: MissedChange(s, e, v) && s.log[v].at > e.payload.columns.updatedAt ==> Stale(s, e))
  {
    hide Run, Inv, Chained, Stale, ChangedAt;
    RunKeeps(c, actions);
    RunCoherent(c, actions);
    RunChained(c, actions);
    var s := Run(c, actions);
    assert EntryCoherent(s, s.cache[k]);
    if Stale(s, s.cache[k]) {
      StaleMissed(c, s, k);
    }
    forall v: nat | MissedChange(s, s.cache[k], v)
      ensures v < |s.log| && (s.log[v].at > s.cache[k].payload.columns.updatedAt ==> Stale(s, s.cache[k]))
    {
      MissedStale(c, s, k, v);
    }
  }

  /**
   * Staleness, exactly: unless an update it missed changed the row in the very instant of the
   * payload's `updated_at`, an entry is stale if and only if it missed an update that changed the row.
   */
  lemma StaleExactly(c: Config, actions: seq<Action>, k: string)
    requires k in Run(c, actions).cache
    requires var s := Run(c, actions);
             forall v: nat :: MissedChange(s, s.cache[k], v) ==> s.log[v].at != s.cache[k].payload.columns.updatedAt
    ensures var s := Run(c, actions);
            Stale(s, s.cache[k]) <==> exists v: nat :: MissedChange(s, s.cache[k], v)
  {
    hide Run, Inv, Chained, Stale, ChangedAt;
    RunKeeps(c, actions);
    RunChained(c, actions);
    var s := Run(c, actions);
    if Stale(s, s.cache[k]) {
      StaleMissed(c, s, k);
    }
    if v: nat :| MissedChange(s, s.cache[k], v) {
      MissedStale(c, s, k, v);
    }
  }

  /** With no update in flight and no invalidation lost, entries no commit overtook are up to date. */
  predicate QuietlyCoherent(s: State) {
    s.writers == map[] && s.lost == {} ==>
      forall k :: k in s.cache && s.cache[k].version == s.cache[k].storedVersion ==> !Stale(s, s.cache[k])
  }

  /** In every reachable state, the previous predicate holds. */
  lemma QuietCoherence(c: Config, actions: seq<Action>)
    requires c.order.CommitFirst?
    ensures QuietlyCoherent(Run(c, actions))
  {
    var s := Run(c, actions);
    forall k | k in s.cache && s.writers == map[] && s.lost == {} && s.cache[k].version == s.cache[k].storedVersion
      ensures !Stale(s, s.cache[k])
    {
      Coherence(c, actions, k);
    }
  }
}
