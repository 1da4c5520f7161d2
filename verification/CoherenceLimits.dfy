/** Where coherence ends: concrete runs of the protocol, and of the protocol with its writer steps swapped. */
module CoherenceLimits {
  import opened Prelude
  import opened Database
  import opened KeyCodec
  import opened Protocol
  import opened Coherence
  import History

  const SETUP: seq<Action> := [
    Other(History.AddProject(1, "owner", NewProject("SHOP", "Shop", None, None, None))),
    Other(History.AddIncident(1, 1, 1, NewIncident("t", None, "SEV-3", "manual", None, None)))]

  /** One open incident of organization 1 and nothing else going on. */
  predicate OneOpenIncident(s: State) {
    && |s.log| >= 1 && s.cache == map[] && s.readers == map[] && s.writers == map[] && s.lost == {} && s.now == 0.0
    && 1 in Current(s).incidents && 1 in Current(s).projects
    && Current(s).incidents[1].org == 1 && Current(s).incidents[1].project == 1
    && Current(s).incidents[1].columns.status == Open && Current(s).incidents[1].columns.resolvedAt == None
    && Current(s).incidents[1].columns.updatedAt == s.now
    && Current(s).projects[1].org == 1 && Current(s).projects[1].name == "Shop"
  }

  lemma SetupSteps(c: Config)
    ensures OneOpenIncident(Step(c, Step(c, INIT, SETUP[0]), SETUP[1]))
  {
    hide KeyOf, OneOpenIncident;
    var s := Step(c, INIT, SETUP[0]);
    assert Current(s).projects == map[1 := Project(1, "SHOP", "Shop", None, None, None)];
    assert s == INIT.(log := s.log);
    ThenTheIncident(c, s);
  }

  lemma ThenTheIncident(c: Config, s: State)
    requires s.log != [] && s == INIT.(log := s.log) && Current(s).nextIncident == 1
    requires Current(s).projects == map[1 := Project(1, "SHOP", "Shop", None, None, None)]
    ensures OneOpenIncident(Step(c, s, SETUP[1]))
  {
    hide KeyOf;
  }

  lemma SetupReady(c: Config)
    ensures OneOpenIncident(Run(c, SETUP))
  {
    hide Step, OneOpenIncident;
    SetupSteps(c);
    RunMore(c, [], SETUP[0]);
    RunMore(c, [SETUP[0]], SETUP[1]);
    assert [] + [SETUP[0]] == [SETUP[0]] && [SETUP[0]] + [SETUP[1]] == SETUP;
    assert Run(c, []) == INIT;
  }

  function ReadAndStore(): seq<Action> {
    [Begin(0, 1, 1, true), LoadRow(0), Store(0, true)]
  }

  function Close(): seq<Change> {
    [SetStatus(Some(Closed))]
  }

  /** Closing the open incident commits. */
  lemma CloseCommits(db: Db, base: Columns, now: real)
    requires 1 in db.incidents && base == db.incidents[1].columns && base.status == Open
    ensures var (after, ok) := CommitUpdate(db, 1, base, Edited(base, Close(), now), now);
            && ok && 1 in after.incidents && after.incidents[1].columns.status == Closed
            && after.incidents[1].columns != base
  {
    assert Close()[..0] == [];
    assert SetAttrs(DraftOf(base), Close()) == DraftOf(base).(status := Some(Closed));
    assert NewStatus(Close()) == Some(Closed);
  }

  lemma RunThree(c: Config, actions: seq<Action>, a: Action, b: Action, d: Action)
    ensures Run(c, actions + [a, b, d]) == Step(c, Step(c, Step(c, Run(c, actions), a), b), d)
  {
    hide Step;
    RunMore(c, actions, a);
    RunMore(c, actions + [a], b);
    RunMore(c, actions + [a] + [b], d);
    assert actions + [a, b, d] == actions + [a] + [b] + [d];
  }

  /** Steps that a state where nothing is cached takes to store the incident's view. */
  lemma StoresView(c: Config, s: State)
    requires s.log != [] && s.cache == map[] && s.readers == map[]
    requires 1 in Current(s).incidents && Current(s).incidents[1].org == 1
    ensures var t := Step(c, Step(c, Step(c, s, Begin(0, 1, 1, true)), LoadRow(0)), Store(0, true));
            && t.log == s.log && t.writers == s.writers && t.lost == s.lost && t.now == s.now && t.readers == map[]
            && KeyOf(c, 1, 1) in t.cache && t.cache.Keys == {KeyOf(c, 1, 1)}
            && var e := t.cache[KeyOf(c, 1, 1)];
               && e.id == 1 && e.payload == Serialize(Current(s), 1, Current(s).incidents[1])
               && e.version == e.storedVersion == |s.log| - 1 && e.expiresAt == s.now + c.ttl as real
  {
    var s1 := Step(c, s, Begin(0, 1, 1, true));
    assert s1 == s.(readers := map[0 := Missed(1, 1)]);
    var s2 := Step(c, s1, LoadRow(0));
    assert s2 == s.(readers := map[0 := Loaded(1, 1, Serialize(Current(s), 1, Current(s).incidents[1]), |s.log| - 1, s.now)]);
  }

  lemma ReadThenDrop(c: Config, s: State)
    requires c.order.InvalidateFirst? && OneOpenIncident(s)
    ensures var t := Step(c, Step(c, s, Read(0, 1, 1)), Drop(0, true));
            t == s.(writers := map[0 := Cleared(1, 1, Current(s).incidents[1].columns)])
  {
    var s1 := Step(c, s, Read(0, 1, 1));
    assert s1 == s.(writers := map[0 := Ready(1, 1, Current(s).incidents[1].columns)]);
    assert s1.cache - {KeyOf(c, 1, 1)} == map[];
  }

  lemma LateCommitStales(c: Config, s: State)
    requires c.order.InvalidateFirst? && s.log != [] && s.lost == {}
    requires 1 in Current(s).incidents && Current(s).incidents[1].columns.status == Open
    requires s.writers == map[0 := Cleared(1, 1, Current(s).incidents[1].columns)]
    requires exists k :: k in s.cache && s.cache[k].id == 1 && s.cache[k].version == s.cache[k].storedVersion
               && s.cache[k].payload.columns == Current(s).incidents[1].columns
    ensures !QuietlyCoherent(Step(c, s, CommitRow(0, Close())))
  {
    var k :| k in s.cache && s.cache[k].id == 1 && s.cache[k].version == s.cache[k].storedVersion
      && s.cache[k].payload.columns == Current(s).incidents[1].columns;
    CloseCommits(Current(s), Current(s).incidents[1].columns, s.now);
    var t := Step(c, s, CommitRow(0, Close()));
    assert t.writers == map[];
    assert Stale(t, t.cache[k]);
  }

  /** With invalidation before commit, a reader in between leaves a stale entry that nothing overtook. */
  lemma SwappedOrderBreaks(c: Config)
    requires c.order.InvalidateFirst?
    ensures exists actions :: !QuietlyCoherent(Run(c, actions))
  {
    hide KeyOf, Serialize, Step, QuietlyCoherent;
    SetupReady(c);
    var s := Run(c, SETUP);
    ReadThenDrop(c, s);
    RunMore(c, SETUP, Read(0, 1, 1));
    RunMore(c, SETUP + [Read(0, 1, 1)], Drop(0, true));
    var a := SETUP + [Read(0, 1, 1)] + [Drop(0, true)];
    RunThree(c, a, Begin(0, 1, 1, true), LoadRow(0), Store(0, true));
    StoresView(c, Run(c, a));
    SerializeColumns(Current(s), 1);
    var b := a + ReadAndStore();
    LateCommitStales(c, Run(c, b));
    RunMore(c, b, CommitRow(0, Close()));
  }

  function LoadedReader(s: State): Reader
    requires s.log != [] && 1 in Current(s).incidents
  {
    Loaded(1, 1, Serialize(Current(s), 1, Current(s).incidents[1]), |s.log| - 1, s.now)
  }

  lemma LoadThenRead(c: Config, s: State)
    requires OneOpenIncident(s)
    ensures Step(c, Step(c, Step(c, s, Begin(0, 1, 1, true)), LoadRow(0)), Read(0, 1, 1))
         == s.(readers := map[0 := LoadedReader(s)], writers := map[0 := Ready(1, 1, Current(s).incidents[1].columns)])
  {
    var s1 := Step(c, s, Begin(0, 1, 1, true));
    assert s1 == s.(readers := map[0 := Missed(1, 1)]);
    var s2 := Step(c, s1, LoadRow(0));
    assert s2 == s.(readers := map[0 := LoadedReader(s)]);
  }

  lemma CommitThenDrop(c: Config, s: State)
    requires c.order.CommitFirst? && s.log != [] && s.cache == map[]
    requires 1 in Current(s).incidents && Current(s).incidents[1].columns.status == Open
    requires s.writers == map[0 := Ready(1, 1, Current(s).incidents[1].columns)]
    ensures var t := Step(c, Step(c, s, CommitRow(0, Close())), Drop(0, true));
            && t.writers == map[] && t.lost == s.lost && t.readers == s.readers && t.now == s.now && |t.log| == |s.log| + 1
            && 1 in Current(t).incidents && Current(t).incidents[1].columns != Current(s).incidents[1].columns
  {
    CloseCommits(Current(s), Current(s).incidents[1].columns, s.now);
    var s1 := Step(c, s, CommitRow(0, Close()));
    assert s1.writers == map[0 := Committed(1, 1, |s.log|)];
  }

  lemma StoreLate(c: Config, s: State, columns: Columns)
    requires s.log != [] && 0 in s.readers && s.readers[0].Loaded? && s.readers[0].org == 1 && s.readers[0].id == 1
    requires s.readers[0].payload.columns == columns
    requires 1 in Current(s).incidents && Current(s).incidents[1].columns != columns
    ensures var t := Step(c, s, Store(0, true));
            && t.writers == s.writers && t.lost == s.lost && t.now == s.now && KeyOf(c, 1, 1) in t.cache
            && Stale(t, t.cache[KeyOf(c, 1, 1)]) && t.cache[KeyOf(c, 1, 1)].expiresAt == t.now + c.ttl as real
  {
  }

  /**
   * Unconditional coherence is false: a reader overtaken by an update's commit and invalidation
   * stores a stale entry that nothing is going to remove before its TTL.
   */
  lemma OvertakenReaderLeavesStaleEntry(c: Config)
    requires c.order.CommitFirst?
    ensures exists actions ::
              var s := Run(c, actions);
              && s.writers == map[] && s.readers == map[] && s.lost == {} && KeyOf(c, 1, 1) in s.cache
              && Stale(s, s.cache[KeyOf(c, 1, 1)]) && s.cache[KeyOf(c, 1, 1)].expiresAt == s.now + c.ttl as real
  {
    hide KeyOf, Serialize, Step, Stale;
    SetupReady(c);
    var s := Run(c, SETUP);
    RunThree(c, SETUP, Begin(0, 1, 1, true), LoadRow(0), Read(0, 1, 1));
    LoadThenRead(c, s);
    SerializeColumns(Current(s), 1);
    var a := SETUP + [Begin(0, 1, 1, true), LoadRow(0), Read(0, 1, 1)];
    CommitThenDrop(c, Run(c, a));
    RunThree(c, a, CommitRow(0, Close()), Drop(0, true), Store(0, true));
    StoreLate(c, Step(c, Step(c, Run(c, a), CommitRow(0, Close())), Drop(0, true)), Current(s).incidents[1].columns);
    StoreEndsReader(c, Step(c, Step(c, Run(c, a), CommitRow(0, Close())), Drop(0, true)));
    var b := a + [CommitRow(0, Close()), Drop(0, true), Store(0, true)];
    assert Run(c, b).readers == map[];
  }

  /** An update that commits, up to its invalidation. */
  lemma ReadThenCommit(c: Config, s: State, changes: seq<Change>)
    requires c.order.CommitFirst? && s.log != [] && s.writers == map[]
    requires 1 in Current(s).incidents && Current(s).incidents[1].org == 1
    requires var base := Current(s).incidents[1].columns;
             CommitUpdate(Current(s), 1, base, Edited(base, changes, s.now), s.now).1
    ensures var base := Current(s).incidents[1].columns;
            var db := CommitUpdate(Current(s), 1, base, Edited(base, changes, s.now), s.now).0;
            Step(c, Step(c, s, Read(0, 1, 1)), CommitRow(0, changes))
            == s.(log := s.log + [Commit(db, s.now, Some(1), None)], writers := map[0 := Committed(1, 1, |s.log|)])
  {
    hide CommitUpdate, Edited;
    var s1 := Step(c, s, Read(0, 1, 1));
    assert s1 == s.(writers := map[0 := Ready(1, 1, Current(s).incidents[1].columns)]);
    assert s1.writers[0 := Committed(1, 1, |s.log|)] == map[0 := Committed(1, 1, |s.log|)];
  }

  /** A committed update that has not invalidated yet leaves the entry of its incident stale. */
  lemma CommitStales(c: Config, s: State, k: string)
    requires c.order.CommitFirst? && s.log != [] && s.writers == map[]
    requires 1 in Current(s).incidents && Current(s).incidents[1].org == 1 && Current(s).incidents[1].columns.status == Open
    requires k in s.cache && s.cache[k].id == 1 && s.cache[k].version < |s.log|
    requires s.cache[k].payload.columns == Current(s).incidents[1].columns
    ensures var t := Step(c, Step(c, s, Read(0, 1, 1)), CommitRow(0, Close()));
            && t.writers == map[0 := Committed(1, 1, |s.log|)] && t.cache == s.cache && t.lost == s.lost
            && t.readers == s.readers && Stale(t, t.cache[k]) && MissedUpdate(t, t.cache[k], |s.log|)
  {
    hide Step;
    CloseCommits(Current(s), Current(s).incidents[1].columns, s.now);
    ReadThenCommit(c, s, Close());
  }

  /** A lost invalidation changes nothing but what is known to be lost. */
  lemma LosesInvalidation(c: Config, s: State, v: nat)
    requires s.log != [] && s.writers == map[0 := Committed(1, 1, v)]
    ensures Step(c, s, Drop(0, false)) == s.(writers := map[], lost := s.lost + {v})
  {
  }

  /** The run that caches the incident's view and then commits an update of it, up to the invalidation. */
  function ReadStoreCommit(): seq<Action> {
    SETUP + ReadAndStore() + [Read(0, 1, 1)] + [CommitRow(0, Close())]
  }

  lemma ReadStoreCommitStales(c: Config)
    requires c.order.CommitFirst?
    ensures var s := Run(c, ReadStoreCommit());
            && s.readers == map[] && s.lost == {} && KeyOf(c, 1, 1) in s.cache && Stale(s, s.cache[KeyOf(c, 1, 1)])
            && exists v: nat :: s.writers == map[0 := Committed(1, 1, v)] && MissedUpdate(s, s.cache[KeyOf(c, 1, 1)], v)
  {
    hide KeyOf, Serialize, Step, Stale, MissedUpdate;
    SetupReady(c);
    var s := Run(c, SETUP);
    RunThree(c, SETUP, Begin(0, 1, 1, true), LoadRow(0), Store(0, true));
    StoresView(c, s);
    SerializeColumns(Current(s), 1);
    var a := SETUP + ReadAndStore();
    CommitStales(c, Run(c, a), KeyOf(c, 1, 1));
    RunMore(c, a, Read(0, 1, 1));
    RunMore(c, a + [Read(0, 1, 1)], CommitRow(0, Close()));
  }

  /** The first excuse occurs: an entry is stale while its incident's writer is between commit and invalidation. */
  lemma PendingWriterLeavesStaleEntry(c: Config)
    requires c.order.CommitFirst?
    ensures exists actions ::
              var s := Run(c, actions);
              && s.readers == map[] && s.lost == {} && KeyOf(c, 1, 1) in s.cache && Stale(s, s.cache[KeyOf(c, 1, 1)])
              && exists v: nat :: MissedUpdate(s, s.cache[KeyOf(c, 1, 1)], v) && Pending(s, v)
  {
    hide KeyOf, Run, Stale, MissedUpdate;
    ReadStoreCommitStales(c);
    var s := Run(c, ReadStoreCommit());
    var v: nat :| s.writers == map[0 := Committed(1, 1, v)] && MissedUpdate(s, s.cache[KeyOf(c, 1, 1)], v);
    assert s.writers[0].Committed? && Pending(s, v);
  }

  /** So does the second: a stale entry with nothing in flight, after a cache failure lost the invalidation. */
  lemma LostInvalidationLeavesStaleEntry(c: Config)
    requires c.order.CommitFirst?
    ensures exists actions ::
              var s := Run(c, actions);
              && s.readers == map[] && s.writers == map[] && KeyOf(c, 1, 1) in s.cache && Stale(s, s.cache[KeyOf(c, 1, 1)])
              && exists v: nat :: MissedUpdate(s, s.cache[KeyOf(c, 1, 1)], v) && v in s.lost
  {
    hide KeyOf, Run, Step;
    ReadStoreCommitStales(c);
    var s := Run(c, ReadStoreCommit());
    var v: nat :| s.writers == map[0 := Committed(1, 1, v)] && MissedUpdate(s, s.cache[KeyOf(c, 1, 1)], v);
    LosesInvalidation(c, s, v);
    RunMore(c, ReadStoreCommit(), Drop(0, false));
    var t := Run(c, ReadStoreCommit() + [Drop(0, false)]);
    assert Stale(t, t.cache[KeyOf(c, 1, 1)]) && MissedUpdate(t, t.cache[KeyOf(c, 1, 1)], v) && v in t.lost;
  }

  function Reopen(): seq<Change> {
    [SetStatus(Some(Open))]
  }

  /** Closing and reopening in the instant of the row's stamp restores every column. */
  lemma CloseReopenRestores(db: Db, now: real)
    requires 1 in db.incidents
    requires var base := db.incidents[1].columns; base.status == Open && base.resolvedAt == None && base.updatedAt == now
    ensures var base := db.incidents[1].columns;
            var (closed, ok) := CommitUpdate(db, 1, base, Edited(base, Close(), now), now);
            && ok && 1 in closed.incidents && closed.incidents[1].org == db.incidents[1].org
            && var c := closed.incidents[1].columns;
               var (reopened, ok2) := CommitUpdate(closed, 1, c, Edited(c, Reopen(), now), now);
               c != base && ok2 && 1 in reopened.incidents && reopened.incidents[1].columns == base
  {
    var base := db.incidents[1].columns;
    CloseCommits(db, base, now);
    assert Reopen()[..0] == [] && Close()[..0] == [];
    assert SetAttrs(DraftOf(base), Close()) == DraftOf(base).(status := Some(Closed));
    var c := CommitUpdate(db, 1, base, Edited(base, Close(), now), now).0.incidents[1].columns;
    assert c == base.(status := Closed, resolvedAt := Some(now));
    assert SetAttrs(DraftOf(c), Reopen()) == DraftOf(c).(status := Some(Open));
  }

  /** Two updates whose invalidations are lost, in the instant of the cached payload's stamp. */
  lemma CloseAndReopen(c: Config, s: State, k: string)
    requires c.order.CommitFirst? && s.log != [] && s.writers == map[] && 1 in Current(s).incidents
    requires Current(s).incidents[1].org == 1
    requires var base := Current(s).incidents[1].columns;
             base.status == Open && base.resolvedAt == None && base.updatedAt == s.now
    requires k in s.cache && s.cache[k].id == 1 && s.cache[k].version < |s.log|
    requires s.cache[k].payload.columns == Current(s).incidents[1].columns
    ensures var s1 := Step(c, Step(c, Step(c, s, Read(0, 1, 1)), CommitRow(0, Close())), Drop(0, false));
            var s2 := Step(c, Step(c, Step(c, s1, Read(0, 1, 1)), CommitRow(0, Reopen())), Drop(0, false));
            k in s2.cache && !Stale(s2, s2.cache[k]) && MissedChange(s2, s2.cache[k], |s.log|)
  {
    hide Step, CommitUpdate, Edited;
    CloseReopenRestores(Current(s), s.now);
    ReadThenCommit(c, s, Close());
    var t1 := Step(c, Step(c, s, Read(0, 1, 1)), CommitRow(0, Close()));
    LosesInvalidation(c, t1, |s.log|);
    var s1 := Step(c, t1, Drop(0, false));
    ReadThenCommit(c, s1, Reopen());
    LosesInvalidation(c, Step(c, Step(c, s1, Read(0, 1, 1)), CommitRow(0, Reopen())), |s1.log|);
  }

  /** Why exactness needs the clock to move: a row changed and restored in one instant is not stale. */
  lemma RestoredAtOnce(c: Config)
    requires c.order.CommitFirst?
    ensures exists actions ::
              var s := Run(c, actions);
              && KeyOf(c, 1, 1) in s.cache && !Stale(s, s.cache[KeyOf(c, 1, 1)])
              && exists v: nat :: MissedChange(s, s.cache[KeyOf(c, 1, 1)], v)
  {
    hide KeyOf, Serialize, Step, Stale, MissedChange;
    SetupReady(c);
    var s := Run(c, SETUP);
    RunThree(c, SETUP, Begin(0, 1, 1, true), LoadRow(0), Store(0, true));
    StoresView(c, s);
    SerializeColumns(Current(s), 1);
    var a := SETUP + ReadAndStore();
    CloseAndReopen(c, Run(c, a), KeyOf(c, 1, 1));
    RunThree(c, a, Read(0, 1, 1), CommitRow(0, Close()), Drop(0, false));
    RunThree(c, a + [Read(0, 1, 1), CommitRow(0, Close()), Drop(0, false)],
             Read(0, 1, 1), CommitRow(0, Reopen()), Drop(0, false));
  }

  lemma StoreEndsReader(c: Config, s: State)
    requires s.log != [] && 0 in s.readers && s.readers[0].Loaded?
    ensures Step(c, s, Store(0, true)).readers == s.readers - {0}
  {
  }

  lemma RenameStales(c: Config, s: State)
    requires s.log != [] && 1 in Current(s).incidents && Current(s).incidents[1].org == 1 && Current(s).incidents[1].project == 1
    requires 1 in Current(s).projects && Current(s).projects[1].org == 1 && Current(s).projects[1].name == "Shop"
    ensures var t := Step(c, s, Other(History.EditProject(1, "owner", 1, [Name(Some("Store"))])));
            && t.cache == s.cache && t.now == s.now && t.writers == s.writers
            && View(Current(t), 1, 1).Ok? && View(Current(t), 1, 1).value.projectName == Some("Store")
            && View(Current(s), 1, 1).value.projectName == Some("Shop")
  {
    var changes := [Name(Some("Store"))];
    assert changes[..0] == [];
    assert SetProjectAttrs(Current(s).projects[1], Some("Shop"), changes) == (Current(s).projects[1], Some("Store"));
  }

  /** Renaming a project invalidates nothing: its name in cached incidents is bounded by the TTL only. */
  lemma ProjectNameIsNotCoherent(c: Config)
    requires c.ttl > 0
    ensures exists actions ::
              var s := Run(c, actions);
              && s.writers == map[] && Served(c, s, 1, 1).Some? && View(Current(s), 1, 1).Ok?
              && Served(c, s, 1, 1).value.projectName != View(Current(s), 1, 1).value.projectName
  {
    hide KeyOf, Step;
    SetupReady(c);
    var s := Run(c, SETUP);
    RunThree(c, SETUP, Begin(0, 1, 1, true), LoadRow(0), Store(0, true));
    StoresView(c, s);
    var a := SETUP + ReadAndStore();
    var rename := Other(History.EditProject(1, "owner", 1, [Name(Some("Store"))]));
    RenameStales(c, Run(c, a));
    RunMore(c, a, rename);
    assert Served(c, Run(c, a + [rename]), 1, 1).value.projectName == Some("Shop");
  }

  lemma SerializeColumns(db: Db, id: nat)
    requires id in db.incidents
    ensures Serialize(db, id, db.incidents[id]).columns == db.incidents[id].columns
  {
  }
}
