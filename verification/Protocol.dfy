/**
 * The cache-aside protocol over incidents as interleaved steps: readers run get, load, store;
 * writers run read, commit, invalidate; projects change under both; any cache call may fail
 * (cache/cache_service.py, services/incident_service.py, services/project_service.py).
 */
module Protocol {
  import opened Prelude
  import opened Database
  import opened KeyCodec
  import History

  /** The source commits, then invalidates. The other order exists only to be refuted. */
  datatype Order = CommitFirst | InvalidateFirst

  datatype Config = Config(digest: Digest, ttl: int, order: Order)

  /**
   * A cached payload and when it lapses, with the history a statement about it needs: whose view it
   * is, the version loaded and when, the version current when it was stored, and the versions
   * whose invalidation had already happened by then.
   */
  datatype Entry = Entry(payload: Payload, expiresAt: real, org: nat, id: nat, version: nat, loadedAt: real,
                         storedAt: real, storedVersion: nat, seen: set<nat>)

  datatype Reader =
    | Missed(org: nat, id: nat)
    | Loaded(org: nat, id: nat, payload: Payload, version: nat, loadedAt: real)

  datatype Writer =
    | Ready(org: nat, id: nat, base: Columns)
    | Committed(org: nat, id: nat, version: nat)  // committed, not yet invalidated
    | Cleared(org: nat, id: nat, base: Columns)   // invalidated, not yet committed: InvalidateFirst only

  /** The tables as of one commit, its time, and the incident or the project it updated, if it was an update. */
  datatype Commit = Commit(db: Db, at: real, touched: Option<nat>, edited: Option<nat>)

  /** `log[v]` is version v; the last one is the database. */
  datatype State = State(now: real, log: seq<Commit>, cache: map<string, Entry>, readers: map<nat, Reader>,
                         writers: map<nat, Writer>, invalidated: set<nat>, lost: set<nat>, maxDelay: real)

  datatype Action =
    | Tick(seconds: real)
    | Sweep(keys: set<string>)
    | Begin(reader: nat, org: nat, id: nat, up: bool)
    | LoadRow(reader: nat)
    | Store(reader: nat, up: bool)
    | Read(writer: nat, org: nat, id: nat)
    | CommitRow(writer: nat, changes: seq<Change>)
    | Drop(writer: nat, up: bool)
    | Other(request: History.Action)

  const INIT := State(0.0, [Commit(EMPTY, 0.0, None, None)], map[], map[], map[], {}, {}, 0.0)

  function Current(s: State): Db
    requires s.log != []
  {
    s.log[|s.log| - 1].db
  }

  function KeyOf(c: Config, org: nat, id: nat): string {
    IncidentKey(c.digest, org, id)
  }

  /** What `get` returns now. */
  function Served(c: Config, s: State, org: nat, id: nat): Option<Payload> {
    var k := KeyOf(c, org, id);
    if k in s.cache && s.now < s.cache[k].expiresAt then Some(s.cache[k].payload) else None
  }

  function Append(s: State, db: Db, touched: Option<nat>, edited: Option<nat>): (t: State)
    ensures t.log == s.log + [Commit(db, s.now, touched, edited)]
  {
    s.(log := s.log + [Commit(db, s.now, touched, edited)])
  }

  /** The project that a request commits an edit of. */
  function EditedBy(db: Db, request: History.Action): Option<nat> {
    if request.EditProject? && UpdateProject(db, request.org, request.role, request.id, request.projectChanges).1.Ok?
    then Some(request.id) else None
  }

  function NewEntry(c: Config, s: State, rd: Reader): Entry
    requires s.log != [] && rd.Loaded?
  {
    Entry(rd.payload, s.now + c.ttl as real, rd.org, rd.id, rd.version, rd.loadedAt, s.now, |s.log| - 1, s.invalidated)
  }

  function StepStore(c: Config, s: State, r: nat, up: bool): (t: State)
    requires s.log != [] && r in s.readers && s.readers[r].Loaded?
    ensures t.log == s.log
  {
    var rd := s.readers[r];
    var e := NewEntry(c, s, rd);
    var delay := s.now - rd.loadedAt;
    var done := s.(readers := s.readers - {r});
    if !up then done
    else done.(cache := s.cache[KeyOf(c, rd.org, rd.id) := e], maxDelay := if delay > s.maxDelay then delay else s.maxDelay)
  }

  function StepCommit(c: Config, s: State, w: nat, changes: seq<Change>): (t: State)
    requires s.log != [] && w in s.writers && !s.writers[w].Committed?
    ensures t.log != []
  {
    var wr := s.writers[w];
    var (db, ok) := CommitUpdate(Current(s), wr.id, wr.base, Edited(wr.base, changes, s.now), s.now);
    if !ok then s.(writers := s.writers - {w})
    else
      var t := Append(s, db, Some(wr.id), None);
      if c.order.CommitFirst? then t.(writers := s.writers[w := Committed(wr.org, wr.id, |s.log|)])
      else t.(writers := s.writers - {w})
  }

  function StepDrop(c: Config, s: State, w: nat, up: bool): (t: State)
    requires w in s.writers
    ensures t.log == s.log
  {
    var wr := s.writers[w];
    var cache := if up then s.cache - {KeyOf(c, wr.org, wr.id)} else s.cache;
    match wr
    case Committed(_, _, v) =>
      s.(cache := cache, writers := s.writers - {w},
         invalidated := if up then s.invalidated + {v} else s.invalidated,
         lost := if up then s.lost else s.lost + {v})
    case Ready(org, id, base) =>
      if c.order.CommitFirst? then s
      else s.(cache := cache, writers := s.writers[w := Cleared(org, id, base)])
    case Cleared(_, _, _) => s
  }

  function StepOther(s: State, request: History.Action): (t: State)
    requires s.log != []
    ensures t.log != []
  {
    Append(s, History.Apply(Current(s), History.Timed(request, s.now)), None, EditedBy(Current(s), request))
  }

  /** One step. An action that is not enabled changes nothing. */
  function Step(c: Config, s: State, a: Action): (t: State)
    requires s.log != []
    ensures t.log != []
  {
    match a
    case Tick(seconds) => if seconds >= 0.0 then s.(now := s.now + seconds) else s
    case Sweep(keys) => s.(cache := map k | k in s.cache && !(k in keys && s.cache[k].expiresAt <= s.now) :: s.cache[k])
    case Begin(r, org, id, up) =>
      if r in s.readers || (up && Served(c, s, org, id).Some?) then s
      else s.(readers := s.readers[r := Missed(org, id)])
    case LoadRow(r) =>
      if r !in s.readers || !s.readers[r].Missed? then s
      else
        var rd := s.readers[r];
        var v := View(Current(s), rd.org, rd.id);
        if v.Err? then s.(readers := s.readers - {r})
        else s.(readers := s.readers[r := Loaded(rd.org, rd.id, v.value, |s.log| - 1, s.now)])
    case Store(r, up) => if r in s.readers && s.readers[r].Loaded? then StepStore(c, s, r, up) else s
    case Read(w, org, id) =>
      var i := GetIncident(Current(s), org, id);
      if w in s.writers || i.Err? then s
      else s.(writers := s.writers[w := Ready(org, id, i.value.columns)])
    case CommitRow(w, changes) =>
      if w !in s.writers || s.writers[w].Committed? || (s.writers[w].Ready? && !c.order.CommitFirst?) then s
      else StepCommit(c, s, w, changes)
    case Drop(w, up) => if w in s.writers then StepDrop(c, s, w, up) else s
    case Other(request) =>
      if request.EditIncident? then s
      else StepOther(s, request)
  }

  function Run(c: Config, actions: seq<Action>): (s: State)
    ensures s.log != []
  {
    if actions == [] then INIT
    else Step(c, Run(c, actions[..|actions| - 1]), actions[|actions| - 1])
  }

  lemma RunMore(c: Config, actions: seq<Action>, a: Action)
    ensures Run(c, actions + [a]) == Step(c, Run(c, actions), a)
  {
    assert (actions + [a])[..|actions|] == actions;
  }

  // ----- the log -----

  predicate ColumnsSame(a: Db, b: Db, id: nat) {
    id in a.incidents && id in b.incidents && a.incidents[id].columns == b.incidents[id].columns
  }

  /** Some commit in (from, to] updated this incident. */
  predicate TouchedIn(log: seq<Commit>, from: nat, to: nat, id: nat)
    requires to < |log|
  {
    exists v :: from < v <= to && log[v].touched == Some(id)
  }

  ghost predicate LogOk(log: seq<Commit>, now: real) {
    && log != [] && log[|log| - 1].at <= now
    && (forall v :: 0 <= v < |log| ==> Consistent(log[v].db))
    && (forall u, v :: 0 <= u <= v < |log| ==> log[u].at <= log[v].at && Preserves(log[u].db, log[v].db))
    && (forall u, v, id :: 0 <= u <= v < |log| && id in log[u].db.incidents ==>
          ColumnsSame(log[u].db, log[v].db, id) || TouchedIn(log, u, v, id))
  }

  /** The next commit: only the incident it names may have new columns. */
  ghost predicate Follows(before: Db, after: Db, touched: Option<nat>) {
    && Consistent(after) && Preserves(before, after)
    && (forall id :: id in before.incidents && touched != Some(id) ==> ColumnsSame(before, after, id))
    && (touched.Some? ==> touched.value in before.incidents)
  }

  lemma PreservesTransitive(a: Db, b: Db, c: Db)
    requires Preserves(a, b) && Preserves(b, c)
    ensures Preserves(a, c)
  {
  }

  lemma AppendOrder(log: seq<Commit>, next: Commit, u: nat)
    requires LogOk(log, next.at) && Follows(log[|log| - 1].db, next.db, next.touched) && u < |log|
    ensures log[u].at <= next.at && Preserves(log[u].db, next.db)
  {
    PreservesTransitive(log[u].db, log[|log| - 1].db, next.db);
  }

  lemma AppendColumns(log: seq<Commit>, next: Commit, u: nat, id: nat)
    requires LogOk(log, next.at) && Follows(log[|log| - 1].db, next.db, next.touched)
    requires u < |log| && id in log[u].db.incidents
    ensures ColumnsSame(log[u].db, next.db, id) || TouchedIn(log + [next], u, |log|, id)
  {
    hide Consistent;
    var n, longer := |log|, log + [next];
    assert Preserves(log[u].db, log[n - 1].db);
    if next.touched == Some(id) {
      assert longer[n].touched == Some(id);
    } else if TouchedIn(log, u, n - 1, id) {
      var w :| u < w <= n - 1 && log[w].touched == Some(id);
      assert longer[w].touched == Some(id);
    }
  }

  lemma TouchedStays(log: seq<Commit>, next: Commit, u: nat, v: nat, id: nat)
    requires v < |log| && TouchedIn(log, u, v, id)
    ensures TouchedIn(log + [next], u, v, id)
  {
    var w :| u < w <= v && log[w].touched == Some(id);
    assert (log + [next])[w].touched == Some(id);
  }

  lemma AppendKeepsLog(log: seq<Commit>, next: Commit)
    requires LogOk(log, next.at) && Follows(log[|log| - 1].db, next.db, next.touched)
    ensures LogOk(log + [next], next.at)
  {
    hide Consistent, Preserves, TouchedIn;
    var n, longer := |log|, log + [next];
    PreservesItself(next.db);
    forall u, v | 0 <= u <= v < |longer|
      ensures longer[u].at <= longer[v].at && Preserves(longer[u].db, longer[v].db)
    {
      if v == n && u < n {
        AppendOrder(log, next, u);
      }
    }
    forall u, v, id | 0 <= u <= v < |longer| && id in longer[u].db.incidents
      ensures ColumnsSame(longer[u].db, longer[v].db, id) || TouchedIn(longer, u, v, id)
    {
      if v < n {
        if TouchedIn(log, u, v, id) {
          TouchedStays(log, next, u, v, id);
        }
      } else if u < n {
        AppendColumns(log, next, u, id);
      }
    }
  }

  lemma PreservesItself(db: Db)
    ensures Preserves(db, db)
  {
  }

  // ----- what every run keeps -----

  /** Version `v` was the database at instant `t`. */
  predicate CurrentAt(log: seq<Commit>, v: nat, t: real) {
    v < |log| && log[v].at <= t && (v + 1 < |log| ==> t <= log[v + 1].at)
  }

  predicate ReaderOk(log: seq<Commit>, now: real, r: Reader) {
    r.Loaded? ==>
      && CurrentAt(log, r.version, r.loadedAt) && r.loadedAt <= now
      && View(log[r.version].db, r.org, r.id) == Ok(r.payload)
  }

  predicate WriterOk(log: seq<Commit>, w: Writer) {
    && log != [] && w.id in log[|log| - 1].db.incidents && log[|log| - 1].db.incidents[w.id].org == w.org
    && (w.Committed? ==> w.version < |log| && log[w.version].touched == Some(w.id))
  }

  predicate EntryOk(c: Config, log: seq<Commit>, now: real, maxDelay: real, k: string, e: Entry) {
    && k == KeyOf(c, e.org, e.id) && e.org < ID_LIMIT && e.id < ID_LIMIT
    && CurrentAt(log, e.version, e.loadedAt) && e.version <= e.storedVersion < |log|
    && View(log[e.version].db, e.org, e.id) == Ok(e.payload)
    && e.storedAt <= now && e.storedAt - e.loadedAt <= maxDelay && e.loadedAt <= e.storedAt
    && e.expiresAt == e.storedAt + c.ttl as real
  }

  ghost predicate Inv(c: Config, s: State) {
    && LogOk(s.log, s.now)
    && (forall r :: r in s.readers ==> ReaderOk(s.log, s.now, s.readers[r]))
    && (forall w :: w in s.writers ==> WriterOk(s.log, s.writers[w]))
    && (forall k :: k in s.cache ==> EntryOk(c, s.log, s.now, s.maxDelay, k, s.cache[k]))
  }

  lemma SameLogKeeps(c: Config, s: State, t: State)
    requires Inv(c, s) && t.log == s.log && t.now >= s.now && t.maxDelay >= s.maxDelay
    requires forall r :: r in t.readers ==>
               (r in s.readers && t.readers[r] == s.readers[r]) || ReaderOk(t.log, t.now, t.readers[r])
    requires forall w :: w in t.writers ==>
               (w in s.writers && t.writers[w] == s.writers[w]) || WriterOk(t.log, t.writers[w])
    requires forall k :: k in t.cache ==>
               (k in s.cache && t.cache[k] == s.cache[k]) || EntryOk(c, t.log, t.now, t.maxDelay, k, t.cache[k])
    ensures Inv(c, t)
  {
    hide View, Consistent, Preserves, TouchedIn, ColumnsSame, KeyOf;
  }

  lemma ReaderAppend(log: seq<Commit>, now: real, next: Commit, r: Reader)
    requires ReaderOk(log, now, r) && next.at == now
    ensures ReaderOk(log + [next], now, r)
  {
  }

  lemma EntryAppend(c: Config, log: seq<Commit>, now: real, next: Commit, maxDelay: real, k: string, e: Entry)
    requires EntryOk(c, log, now, maxDelay, k, e) && next.at == now
    ensures EntryOk(c, log + [next], now, maxDelay, k, e)
  {
  }

  lemma WriterAppend(log: seq<Commit>, next: Commit, w: Writer)
    requires WriterOk(log, w) && Preserves(log[|log| - 1].db, next.db)
    ensures WriterOk(log + [next], w)
  {
  }

  lemma ItemsAppend(c: Config, s: State, next: Commit)
    requires Inv(c, s) && s.log != [] && next.at == s.now && Preserves(Current(s), next.db)
    requires LogOk(s.log + [next], s.now)
    ensures Inv(c, s.(log := s.log + [next]))
  {
    hide Preserves, Consistent, ReaderOk, WriterOk, EntryOk, LogOk;
    forall w | w in s.writers
      ensures WriterOk(s.log + [next], s.writers[w])
    {
      WriterAppend(s.log, next, s.writers[w]);
    }
    forall r | r in s.readers
      ensures ReaderOk(s.log + [next], s.now, s.readers[r])
    {
      ReaderAppend(s.log, s.now, next, s.readers[r]);
    }
    forall k | k in s.cache
      ensures EntryOk(c, s.log + [next], s.now, s.maxDelay, k, s.cache[k])
    {
      EntryAppend(c, s.log, s.now, next, s.maxDelay, k, s.cache[k]);
    }
  }

  lemma AppendKeepsItems(c: Config, s: State, db: Db, touched: Option<nat>, edited: Option<nat>)
    requires Inv(c, s) && s.log != [] && Follows(Current(s), db, touched)
    ensures Inv(c, Append(s, db, touched, edited))
  {
    var next := Commit(db, s.now, touched, edited);
    AppendKeepsLog(s.log, next);
    ItemsAppend(c, s, next);
  }

  lemma CommitFollows(db: Db, id: nat, base: Columns, d: Draft, now: real)
    requires Consistent(db) && CommitUpdate(db, id, base, d, now).1
    ensures Follows(db, CommitUpdate(db, id, base, d, now).0, Some(id))
  {
    CommitUpdateKeeps(db, id, base, d, now);
  }

  lemma OtherFollows(db: Db, t: History.Timed)
    requires Consistent(db) && !t.action.EditIncident?
    ensures Follows(db, History.Apply(db, t), None)
  {
    History.ApplyKeeps(db, t);
    match t.action
    case AddProject(_, _, _) =>
    case AddIncident(_, _, _, _) =>
    case EditProject(org, role, id, changes) => UpdateProjectKeeps(db, org, role, id, changes);
  }

  lemma NewEntryOk(c: Config, s: State, rd: Reader, maxDelay: real)
    requires LogOk(s.log, s.now) && rd.Loaded? && ReaderOk(s.log, s.now, rd) && s.now - rd.loadedAt <= maxDelay
    ensures EntryOk(c, s.log, s.now, maxDelay, KeyOf(c, rd.org, rd.id), NewEntry(c, s, rd))
  {
    VersionConsistent(s.log, s.now, rd.version);
    RowIdsAreSmall(s.log[rd.version].db, rd.org, rd.id);
  }

  lemma VersionConsistent(log: seq<Commit>, now: real, v: nat)
    requires LogOk(log, now) && v < |log|
    ensures Consistent(log[v].db)
  {
  }

  lemma StoreKeeps(c: Config, s: State, r: nat, up: bool)
    requires Inv(c, s) && r in s.readers && s.readers[r].Loaded?
    ensures Inv(c, StepStore(c, s, r, up))
  {
    var t := StepStore(c, s, r, up);
    if up {
      NewEntryOk(c, s, s.readers[r], t.maxDelay);
    }
    SameLogKeeps(c, s, t);
  }

  /** A view exists only for rows, whose ids are 32-bit. */
  lemma RowIdsAreSmall(db: Db, org: nat, id: nat)
    ensures Consistent(db) && View(db, org, id).Ok? ==> org < ID_LIMIT && id < ID_LIMIT
  {
  }

  lemma WriterMoves(c: Config, u: State, w: nat, writers: map<nat, Writer>)
    requires Inv(c, u)
    requires forall x :: x in writers && x != w ==> x in u.writers && writers[x] == u.writers[x]
    requires w in writers ==> WriterOk(u.log, writers[w])
    ensures Inv(c, u.(writers := writers))
  {
  }

  /** A successful commit: a new version, and the writer either waits to invalidate or is done. */
  lemma CommittedKeeps(c: Config, s: State, w: nat, db: Db)
    requires Inv(c, s) && s.log != [] && w in s.writers && Follows(Current(s), db, Some(s.writers[w].id))
    ensures var wr, u := s.writers[w], Append(s, db, Some(s.writers[w].id), None);
            && Inv(c, u.(writers := s.writers - {w}))
            && Inv(c, u.(writers := s.writers[w := Committed(wr.org, wr.id, |s.log|)]))
  {
    hide LogOk, ReaderOk, EntryOk, Follows, Inv;
    var wr := s.writers[w];
    AppendKeepsItems(c, s, db, Some(wr.id), None);
    var u := Append(s, db, Some(wr.id), None);
    WriterStillOk(c, u, w);
    WriterMoves(c, u, w, s.writers - {w});
    WriterMoves(c, u, w, s.writers[w := Committed(wr.org, wr.id, |s.log|)]);
  }

  lemma CommitRowKeeps(c: Config, s: State, w: nat, changes: seq<Change>)
    requires Inv(c, s) && s.log != [] && w in s.writers && !s.writers[w].Committed?
    ensures Inv(c, StepCommit(c, s, w, changes))
  {
    var wr := s.writers[w];
    var d := Edited(wr.base, changes, s.now);
    var (db, ok) := CommitUpdate(Current(s), wr.id, wr.base, d, s.now);
    CurrentConsistent(c, s);
    if !ok {
      WriterMoves(c, s, w, s.writers - {w});
    } else {
      CommitFollows(Current(s), wr.id, wr.base, d, s.now);
      CommittedKeeps(c, s, w, db);
    }
  }

  lemma WriterStillOk(c: Config, u: State, w: nat)
    requires Inv(c, u) && w in u.writers
    ensures WriterOk(u.log, u.writers[w])
  {
  }

  lemma CurrentConsistent(c: Config, s: State)
    requires Inv(c, s)
    ensures s.log != [] && Consistent(Current(s))
  {
  }

  lemma DropKeeps(c: Config, s: State, w: nat, up: bool)
    requires Inv(c, s) && w in s.writers
    ensures Inv(c, StepDrop(c, s, w, up))
  {
    hide View, KeyOf, Consistent, Preserves, TouchedIn, ColumnsSame, LogOk;
    assert WriterOk(s.log, s.writers[w]);
    SameLogKeeps(c, s, StepDrop(c, s, w, up));
  }

  lemma LoadKeeps(c: Config, s: State, r: nat)
    requires Inv(c, s) && s.log != []
    ensures Inv(c, Step(c, s, LoadRow(r)))
  {
    hide KeyOf, Consistent, Preserves, TouchedIn, ColumnsSame, EntryOk, WriterOk, View;
    SameLogKeeps(c, s, Step(c, s, LoadRow(r)));
  }

  lemma ReadKeeps(c: Config, s: State, w: nat, org: nat, id: nat)
    requires Inv(c, s) && s.log != []
    ensures Inv(c, Step(c, s, Read(w, org, id)))
  {
    hide LogOk, EntryOk, ReaderOk;
    SameLogKeeps(c, s, Step(c, s, Read(w, org, id)));
  }

  lemma QuietKeeps(c: Config, s: State, a: Action)
    requires Inv(c, s) && s.log != [] && (a.Tick? || a.Sweep? || a.Begin?)
    ensures Inv(c, Step(c, s, a))
  {
    hide Inv, KeyOf, Served, View, EntryOk, WriterOk, CurrentAt;
    SameLogKeeps(c, s, Step(c, s, a));
  }

  lemma StepKeeps(c: Config, s: State, a: Action)
    requires Inv(c, s)
    ensures Inv(c, Step(c, s, a))
  {
    hide Inv, Served, View, StepStore, StepCommit, StepDrop, StepOther, GetIncident, KeyOf;
    CurrentConsistent(c, s);
    match a {
      case Tick(_) => QuietKeeps(c, s, a);
      case Sweep(_) => QuietKeeps(c, s, a);
      case Begin(_, _, _, _) => QuietKeeps(c, s, a);
      case LoadRow(r) => LoadKeeps(c, s, r);
      case Read(w, org, id) => ReadKeeps(c, s, w, org, id);
      case Store(r, up) =>
        if r in s.readers && s.readers[r].Loaded? {
          StoreKeeps(c, s, r, up);
        }
      case CommitRow(w, changes) =>
        if w in s.writers && !s.writers[w].Committed? {
          CommitRowKeeps(c, s, w, changes);
        }
      case Drop(w, up) =>
        if w in s.writers {
          DropKeeps(c, s, w, up);
        }
      case Other(request) =>
        if !request.EditIncident? {
          OtherKeeps(c, s, request);
        }
    }
  }

  lemma OtherKeeps(c: Config, s: State, request: History.Action)
    requires Inv(c, s) && s.log != [] && Consistent(Current(s)) && !request.EditIncident?
    ensures Inv(c, StepOther(s, request))
  {
    hide Inv, Consistent, History.Apply;
    var t := History.Timed(request, s.now);
    OtherFollows(Current(s), t);
    AppendKeepsItems(c, s, History.Apply(Current(s), t), None, EditedBy(Current(s), request));
  }

  lemma {:induction false} RunKeeps(c: Config, actions: seq<Action>)
    ensures Inv(c, Run(c, actions))
  {
    if actions == [] {
      assert Consistent(EMPTY) && Preserves(EMPTY, EMPTY);
    } else {
      RunKeeps(c, actions[..|actions| - 1]);
      StepKeeps(c, Run(c, actions[..|actions| - 1]), actions[|actions| - 1]);
    }
  }

  // ----- bounded staleness and tenancy of what is served -----

  /** At some instant after `oldest` the committed row of this incident was what the payload shows. */
  ghost predicate WasViewAfter(log: seq<Commit>, org: nat, id: nat, p: Payload, oldest: real, now: real) {
    exists v: nat, t: real :: CurrentAt(log, v, t) && oldest < t <= now && ShowsRow(log[v].db, org, id, p)
  }

  lemma ServedEntry(c: Config, s: State, org: nat, id: nat)
    requires Inv(c, s) && Served(c, s, org, id).Some?
    ensures var e := s.cache[KeyOf(c, org, id)];
            && e.org == org && e.id == id && s.now < e.expiresAt
            && EntryOk(c, s.log, s.now, s.maxDelay, KeyOf(c, org, id), e)
  {
    var e := s.cache[KeyOf(c, org, id)];
    IncidentKeyInjective(c.digest, org, id, e.org, e.id);
  }

  lemma VersionShows(log: seq<Commit>, now: real, v: nat, org: nat, id: nat, p: Payload)
    requires LogOk(log, now) && v < |log| && View(log[v].db, org, id) == Ok(p)
    ensures ShowsRow(log[v].db, org, id, p)
  {
    hide View, ShowsRow;
    VersionConsistent(log, now, v);
    ViewShowsRow(log[v].db, org, id);
  }

  lemma EntryIsBounded(c: Config, log: seq<Commit>, now: real, maxDelay: real, k: string, e: Entry)
    requires LogOk(log, now) && EntryOk(c, log, now, maxDelay, k, e) && now < e.expiresAt
    ensures WasViewAfter(log, e.org, e.id, e.payload, now - c.ttl as real - maxDelay, now)
  {
    hide LogOk, ShowsRow, View, KeyOf;
    VersionShows(log, now, e.version, e.org, e.id, e.payload);
    assert CurrentAt(log, e.version, e.loadedAt);
  }

  /**
   * In every interleaving, whatever fails: a payload served at time t was that incident's committed
   * row, with its project, at some instant later than t - ttl - d, where d is the longest
   * load-to-store delay so far.
   */
  lemma BoundedStaleness(c: Config, actions: seq<Action>, org: nat, id: nat)
    ensures var s := Run(c, actions);
            var p := Served(c, s, org, id);
            p.Some? ==> WasViewAfter(s.log, org, id, p.value, s.now - c.ttl as real - s.maxDelay, s.now)
  {
    hide LogOk, EntryOk, WasViewAfter, Run, KeyOf, ReaderOk, WriterOk;
    var s := Run(c, actions);
    RunKeeps(c, actions);
    if Served(c, s, org, id).Some? {
      ServedEntry(c, s, org, id);
      EntryIsBounded(c, s.log, s.now, s.maxDelay, KeyOf(c, org, id), s.cache[KeyOf(c, org, id)]);
    }
  }

  /** The payload names a row of the organization as it stands now: its id, its project and that project's key. */
  predicate NamesRow(db: Db, org: nat, id: nat, p: Payload) {
    && id in db.incidents && db.incidents[id].org == org
    && p.id == id && p.project == db.incidents[id].project
    && p.project in db.projects && db.projects[p.project].org == org && p.projectKey == Some(db.projects[p.project].key)
  }

  lemma RowIdentity(log: seq<Commit>, now: real, v: nat, org: nat, id: nat, p: Payload)
    requires LogOk(log, now) && v < |log| && ShowsRow(log[v].db, org, id, p)
    ensures NamesRow(log[|log| - 1].db, org, id, p)
  {
    assert Preserves(log[v].db, log[|log| - 1].db) && Consistent(log[|log| - 1].db);
  }

  /**
   * In every interleaving, what the cache serves names a present row of the caller's organization, by its
   * own id, with its project and that project's key, and shows the columns of a committed version of it.
   */
  lemma ServedToOwner(c: Config, actions: seq<Action>, org: nat, id: nat)
    ensures var s := Run(c, actions);
            var p := Served(c, s, org, id);
            p.Some? ==>
              && NamesRow(Current(s), org, id, p.value)
              && exists v: nat :: v < |s.log| && ShowsRow(s.log[v].db, org, id, p.value)
  {
    hide LogOk, ShowsRow, NamesRow, View, Run, KeyOf, ReaderOk, WriterOk;
    var s := Run(c, actions);
    RunKeeps(c, actions);
    if Served(c, s, org, id).Some? {
      ServedEntry(c, s, org, id);
      var e := s.cache[KeyOf(c, org, id)];
      VersionShows(s.log, s.now, e.version, org, id, e.payload);
      RowIdentity(s.log, s.now, e.version, org, id, e.payload);
    }
  }

  /** So does what a reader has loaded from the tables; and a load finds a row exactly if the organization has it. */
  lemma LoadedFromRow(c: Config, actions: seq<Action>, r: nat)
    requires r in Run(c, actions).readers
    ensures var s := Run(c, actions);
            var rd, t := s.readers[r], Step(c, s, LoadRow(r));
            && (rd.Loaded? ==>
                  && NamesRow(Current(s), rd.org, rd.id, rd.payload)
                  && rd.version < |s.log| && ShowsRow(s.log[rd.version].db, rd.org, rd.id, rd.payload))
            && (rd.Missed? ==>
                  && (r in t.readers <==> rd.id in Current(s).incidents && Current(s).incidents[rd.id].org == rd.org)
                  && (r in t.readers ==>
                        && t.readers[r].Loaded? && t.readers[r].org == rd.org && t.readers[r].id == rd.id
                        && ShowsRow(Current(s), rd.org, rd.id, t.readers[r].payload)))
  {
    hide LogOk, ShowsRow, NamesRow, View, Run, EntryOk, WriterOk;
    var s := Run(c, actions);
    RunKeeps(c, actions);
    var rd := s.readers[r];
    assert ReaderOk(s.log, s.now, rd);
    if rd.Loaded? {
      VersionShows(s.log, s.now, rd.version, rd.org, rd.id, rd.payload);
      RowIdentity(s.log, s.now, rd.version, rd.org, rd.id, rd.payload);
    } else {
      CurrentConsistent(c, s);
      ViewShowsRow(Current(s), rd.org, rd.id);
    }
  }

  // ----- the delay in that bound -----

  /** Steps `i` and `j` loaded and stored for one reader, this far apart. */
  predicate DelayOf(c: Config, actions: seq<Action>, i: nat, j: nat, delay: real) {
    && i < j < |actions|
    && actions[i].LoadRow? && actions[j] == Store(actions[i].reader, true)
    && delay == Run(c, actions[..j]).now - Run(c, actions[..i]).now
  }

  /** Every reader's load is one of the steps. */
  predicate LoadedAtStep(c: Config, actions: seq<Action>, r: nat, rd: Reader) {
    rd.Loaded? ==>
      exists i: nat :: i < |actions| && actions[i] == LoadRow(r) && rd.loadedAt == Run(c, actions[..i]).now
  }

  lemma StepReaders(c: Config, s: State, a: Action, r: nat)
    requires s.log != [] && r in Step(c, s, a).readers && Step(c, s, a).readers[r].Loaded?
    ensures var t := Step(c, s, a);
            (r in s.readers && t.readers[r] == s.readers[r]) || (a == LoadRow(r) && t.readers[r].loadedAt == s.now)
  {
    hide KeyOf, View, Served, GetIncident, CommitUpdate, Edited, History.Apply, EditedBy;
  }

  lemma StepDelay(c: Config, s: State, a: Action)
    requires s.log != []
    ensures var t := Step(c, s, a);
            t.maxDelay == s.maxDelay
            || (a.Store? && a.up && a.reader in s.readers && s.readers[a.reader].Loaded?
                && t.maxDelay == s.now - s.readers[a.reader].loadedAt)
  {
    hide KeyOf, View, Served, GetIncident, CommitUpdate, Edited, History.Apply, EditedBy;
  }

  lemma {:induction false} LoadsAreSteps(c: Config, actions: seq<Action>, r: nat)
    ensures r in Run(c, actions).readers ==> LoadedAtStep(c, actions, r, Run(c, actions).readers[r])
  {
    hide Step;
    if actions != [] {
      var n := |actions| - 1;
      LoadsAreSteps(c, actions[..n], r);
      if r in Run(c, actions).readers && Run(c, actions).readers[r].Loaded? {
        StepReaders(c, Run(c, actions[..n]), actions[n], r);
        if actions[n] == LoadRow(r) && Run(c, actions).readers[r].loadedAt == Run(c, actions[..n]).now {
        } else {
          var i: nat :| i < n && actions[..n][i] == LoadRow(r)
            && Run(c, actions).readers[r].loadedAt == Run(c, actions[..n][..i]).now;
          assert actions[..n][..i] == actions[..i];
        }
      }
    }
  }

  lemma DelayEarlier(c: Config, actions: seq<Action>, n: nat, i: nat, j: nat, delay: real)
    requires n <= |actions| && DelayOf(c, actions[..n], i, j, delay)
    ensures DelayOf(c, actions, i, j, delay)
  {
    assert actions[..n][..i] == actions[..i] && actions[..n][..j] == actions[..j];
  }

  lemma StoreDelay(c: Config, actions: seq<Action>, n: nat, r: nat, delay: real)
    requires n < |actions| && actions[n] == Store(r, true)
    requires r in Run(c, actions[..n]).readers && Run(c, actions[..n]).readers[r].Loaded?
    requires delay == Run(c, actions[..n]).now - Run(c, actions[..n]).readers[r].loadedAt
    ensures exists i: nat :: DelayOf(c, actions, i, n, delay)
  {
    hide Run;
    LoadsAreSteps(c, actions[..n], r);
    var s := Run(c, actions[..n]);
    var i: nat :| i < n && actions[..n][i] == LoadRow(r) && s.readers[r].loadedAt == Run(c, actions[..n][..i]).now;
    assert actions[..n][..i] == actions[..i];
    assert DelayOf(c, actions, i, n, delay);
  }

  /** The delay in the bound is no overestimate: it is nothing, or that of one of the stores of the run. */
  lemma {:induction false} DelayAttained(c: Config, actions: seq<Action>)
    ensures Run(c, actions).maxDelay == 0.0
            || exists i: nat, j: nat :: DelayOf(c, actions, i, j, Run(c, actions).maxDelay)
  {
    hide Step, DelayOf;
    if actions != [] {
      var n := |actions| - 1;
      var s := Run(c, actions[..n]);
      DelayAttained(c, actions[..n]);
      StepDelay(c, s, actions[n]);
      if Run(c, actions).maxDelay == s.maxDelay {
        if i: nat, j: nat :| DelayOf(c, actions[..n], i, j, s.maxDelay) {
          DelayEarlier(c, actions, n, i, j, s.maxDelay);
        }
      } else {
        StoreDelay(c, actions, n, actions[n].reader, Run(c, actions).maxDelay);
      }
    }
  }

  lemma SameIdentity(log: seq<Commit>, now: real, v: nat, org: nat, id: nat)
    requires LogOk(log, now) && v < |log| && View(log[v].db, org, id).Ok?
    ensures var before, after := View(log[v].db, org, id), View(log[|log| - 1].db, org, id);
            && after.Ok? && before.value.id == after.value.id && before.value.project == after.value.project
            && before.value.projectKey == after.value.projectKey
  {
    assert Preserves(log[v].db, log[|log| - 1].db) && Consistent(log[v].db);
  }

  // ----- tenants -----

  /** The organization on whose behalf a step runs; the passage of time acts for nobody. */
  function ActingFor(s: State, a: Action): Option<nat> {
    match a
    case Tick(_) => None
    case Sweep(_) => None
    case Begin(_, org, _, _) => Some(org)
    case LoadRow(r) => if r in s.readers then Some(s.readers[r].org) else None
    case Store(r, _) => if r in s.readers then Some(s.readers[r].org) else None
    case Read(_, org, _) => Some(org)
    case CommitRow(w, _) => if w in s.writers then Some(s.writers[w].org) else None
    case Drop(w, _) => if w in s.writers then Some(s.writers[w].org) else None
    case Other(request) => Some(request.org)
  }

  predicate SameEntry(before: State, after: State, k: string) {
    (k in after.cache <==> k in before.cache) && (k in before.cache ==> after.cache[k] == before.cache[k])
  }

  lemma KeysDiffer(c: Config, rowOrg: nat, rowId: nat, other: nat, id: nat)
    requires rowOrg < ID_LIMIT && rowId < ID_LIMIT && other != rowOrg
    ensures KeyOf(c, other, id) != KeyOf(c, rowOrg, rowId)
  {
    IncidentKeyInjective(c.digest, other, id, rowOrg, rowId);
  }

  lemma ReaderIdsAreSmall(c: Config, s: State, r: nat)
    requires Inv(c, s) && r in s.readers && s.readers[r].Loaded?
    ensures s.readers[r].org < ID_LIMIT && s.readers[r].id < ID_LIMIT
  {
    var rd := s.readers[r];
    assert ReaderOk(s.log, s.now, rd);
    VersionConsistent(s.log, s.now, rd.version);
    RowIdsAreSmall(s.log[rd.version].db, rd.org, rd.id);
  }

  lemma StoreElsewhere(c: Config, s: State, r: nat, up: bool, other: nat, id: nat)
    requires Inv(c, s) && s.log != [] && r in s.readers && s.readers[r].Loaded? && s.readers[r].org != other
    ensures SameEntry(s, StepStore(c, s, r, up), KeyOf(c, other, id))
  {
    ReaderIdsAreSmall(c, s, r);
    KeysDiffer(c, s.readers[r].org, s.readers[r].id, other, id);
  }

  lemma WriterIdsAreSmall(c: Config, s: State, w: nat)
    requires Inv(c, s) && w in s.writers
    ensures s.writers[w].org < ID_LIMIT && s.writers[w].id < ID_LIMIT
  {
    CurrentConsistent(c, s);
    WriterStillOk(c, s, w);
  }

  lemma DropElsewhere(c: Config, s: State, w: nat, up: bool, other: nat, id: nat)
    requires Inv(c, s) && w in s.writers && s.writers[w].org != other
    ensures SameEntry(s, StepDrop(c, s, w, up), KeyOf(c, other, id))
  {
    hide Inv, KeyOf;
    WriterIdsAreSmall(c, s, w);
    KeysDiffer(c, s.writers[w].org, s.writers[w].id, other, id);
  }

  lemma UpdateRowsElsewhere(db: Db, row: nat, base: Columns, d: Draft, now: real, other: nat)
    requires row in db.incidents && db.incidents[row].org != other
    ensures History.RowsOf(CommitUpdate(db, row, base, d, now).0, other) == History.RowsOf(db, other)
  {
    assert History.SameRows(CommitUpdate(db, row, base, d, now).0, db, other);
    History.SameRowsSuffice(CommitUpdate(db, row, base, d, now).0, db, other);
  }

  lemma CommitDb(c: Config, s: State, w: nat, changes: seq<Change>)
    requires s.log != [] && w in s.writers && !s.writers[w].Committed?
    ensures var wr := s.writers[w];
            Current(StepCommit(c, s, w, changes))
            == CommitUpdate(Current(s), wr.id, wr.base, Edited(wr.base, changes, s.now), s.now).0
  {
    var wr := s.writers[w];
    CommitFailureKeepsDb(Current(s), wr.id, wr.base, Edited(wr.base, changes, s.now), s.now);
  }

  lemma CommitFailureKeepsDb(db: Db, id: nat, base: Columns, d: Draft, now: real)
    ensures !CommitUpdate(db, id, base, d, now).1 ==> CommitUpdate(db, id, base, d, now).0 == db
  {
  }

  lemma CommitElsewhere(c: Config, s: State, w: nat, changes: seq<Change>, other: nat)
    requires Inv(c, s) && s.log != [] && w in s.writers && !s.writers[w].Committed? && s.writers[w].org != other
    ensures History.RowsOf(Current(StepCommit(c, s, w, changes)), other) == History.RowsOf(Current(s), other)
  {
    WriterStillOk(c, s, w);
    CommitDb(c, s, w, changes);
    var wr := s.writers[w];
    UpdateRowsElsewhere(Current(s), wr.id, wr.base, Edited(wr.base, changes, s.now), s.now, other);
  }

  /** A step run for one organization changes neither the rows nor the cached entries of any other. */
  lemma StepElsewhere(c: Config, s: State, a: Action, other: nat, id: nat)
    requires Inv(c, s) && s.log != [] && Consistent(Current(s))
    requires ActingFor(s, a).Some? && ActingFor(s, a).value != other
    ensures SameEntry(s, Step(c, s, a), KeyOf(c, other, id))
    ensures History.RowsOf(Current(Step(c, s, a)), other) == History.RowsOf(Current(s), other)
  {
    hide Inv, KeyOf, History.RowsOf, StepStore, StepCommit, StepDrop, History.Apply, View, Served, Consistent, GetIncident;
    match a {
      case Begin(_, _, _, _) =>
      case LoadRow(_) =>
      case Read(_, _, _) =>
      case Store(r, up) =>
        if s.readers[r].Loaded? {
          StoreElsewhere(c, s, r, up, other, id);
        }
      case CommitRow(w, changes) =>
        if !s.writers[w].Committed? {
          CommitElsewhere(c, s, w, changes, other);
          CommitKeepsCache(c, s, w, changes);
        }
      case Drop(w, up) =>
        DropElsewhere(c, s, w, up, other, id);
      case Other(request) =>
        if !request.EditIncident? {
          History.RowsUntouched(Current(s), History.Timed(request, s.now), other);
        }
    }
  }

  /** In every reachable state, a step run for one organization leaves the rows and cached entries of all others. */
  lemma TenantIndependence(c: Config, actions: seq<Action>, a: Action, other: nat, id: nat)
    ensures var s := Run(c, actions);
            ActingFor(s, a).Some? && ActingFor(s, a).value != other ==>
              && SameEntry(s, Step(c, s, a), KeyOf(c, other, id))
              && History.RowsOf(Current(Step(c, s, a)), other) == History.RowsOf(Current(s), other)
  {
    var s := Run(c, actions);
    RunKeeps(c, actions);
    CurrentConsistent(c, s);
    if ActingFor(s, a).Some? && ActingFor(s, a).value != other {
      StepElsewhere(c, s, a, other, id);
    }
  }

  lemma CommitKeepsCache(c: Config, s: State, w: nat, changes: seq<Change>)
    requires s.log != [] && w in s.writers && !s.writers[w].Committed?
    ensures StepCommit(c, s, w, changes).cache == s.cache
  {
  }
}
