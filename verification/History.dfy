/**
 * Serial runs of the incident and project services: what every run keeps, and what
 * `resolved_at` says about an incident's status history.
 */
module History {
  import opened Prelude
  import opened Database
  import opened Updates
  import KeyCodec

  datatype Action =
    | AddProject(org: nat, role: string, project: NewProject)
    | AddIncident(org: nat, projectId: nat, user: nat, incident: NewIncident)
    | EditIncident(org: nat, id: nat, changes: seq<Change>)
    | EditProject(org: nat, role: string, id: nat, projectChanges: seq<ProjectChange>)

  datatype Timed = Timed(action: Action, now: real)

  function Apply(db: Db, t: Timed): Db {
    match t.action
    case AddProject(org, role, p) => CreateProject(db, org, role, p).0
    case AddIncident(org, project, user, n) => CreateIncident(db, org, project, user, n, t.now).0
    case EditIncident(org, id, changes) => UpdateIncident(db, org, id, changes, t.now).0
    case EditProject(org, role, id, changes) => UpdateProject(db, org, role, id, changes).0
  }

  /** The tables after the first `n` requests of a run that starts empty. */
  function After(run: seq<Timed>, n: nat): Db
    requires n <= |run|
  {
    if n == 0 then EMPTY else Apply(After(run, n - 1), run[n - 1])
  }

  lemma ApplyKeeps(db: Db, t: Timed)
    requires Consistent(db)
    ensures Consistent(Apply(db, t)) && Preserves(db, Apply(db, t))
  {
    match t.action
    case AddProject(org, role, p) => CreateProjectKeeps(db, org, role, p);
    case AddIncident(org, project, user, n) => CreateIncidentKeeps(db, org, project, user, n, t.now);
    case EditIncident(org, id, changes) =>
      var i := GetIncident(db, org, id);
      if i.Ok? {
        CommitUpdateKeeps(db, id, i.value.columns, Edited(i.value.columns, changes, t.now), t.now);
      }
    case EditProject(org, role, id, changes) => UpdateProjectKeeps(db, org, role, id, changes);
  }

  /** In every run, each incident's organization is its project's. */
  lemma {:induction false} AlwaysConsistent(run: seq<Timed>, n: nat)
    requires n <= |run|
    ensures Consistent(After(run, n))
  {
    if n > 0 {
      AlwaysConsistent(run, n - 1);
      ApplyKeeps(After(run, n - 1), run[n - 1]);
    }
  }

  lemma ApplyKeepsKeys(db: Db, t: Timed)
    requires Consistent(db) && UniqueKeys(db)
    ensures UniqueKeys(Apply(db, t))
  {
    hide SetProjectAttrs, Flush, Edited;
    match t.action
    case AddProject(org, role, p) =>
    case AddIncident(org, project, user, n) =>
    case EditIncident(org, id, changes) =>
    case EditProject(org, role, id, changes) =>
      UpdateProjectKeeps(db, org, role, id, changes);
  }

  /** In every run, a project's key is unique within its organization. */
  lemma {:induction false} AlwaysUniqueKeys(run: seq<Timed>, n: nat)
    requires n <= |run|
    ensures UniqueKeys(After(run, n))
  {
    hide Apply, UniqueKeys;
    if n > 0 {
      AlwaysUniqueKeys(run, n - 1);
      AlwaysConsistent(run, n - 1);
      ApplyKeepsKeys(After(run, n - 1), run[n - 1]);
    } else {
      EmptyHasUniqueKeys();
    }
  }

  lemma EmptyHasUniqueKeys()
    ensures UniqueKeys(EMPTY)
  {
  }

  // ----- requests take effect -----

  /**
   * In every serial run, an update of an incident is merged into the row it read unless the row is not the
   * organization's or a null is sent that a column cannot hold, and then nothing changes.
   */
  lemma UpdateTakesEffect(run: seq<Timed>, n: nat)
    requires n < |run| && run[n].action.EditIncident?
    ensures var (db, after, a) := (After(run, n), After(run, n + 1), run[n].action);
            if a.id in db.incidents && db.incidents[a.id].org == a.org && !SendsUnfit(a.changes) then
              && a.id in after.incidents
              && var row := db.incidents[a.id].columns;
                 Merges(row, a.changes, row, after.incidents[a.id].columns, run[n].now)
            else after == db
  {
    hide UpdateIncident, Merges, SendsUnfit;
    var a := run[n].action;
    UpdateIncidentExact(After(run, n), a.org, a.id, a.changes, run[n].now);
  }

  /** A report against one of the organization's projects adds the next incident, until the ids run out. */
  lemma ReportTakesEffect(run: seq<Timed>, n: nat)
    requires n < |run| && run[n].action.AddIncident?
    ensures var (db, after, a) := (After(run, n), After(run, n + 1), run[n].action);
            if a.projectId in db.projects && db.projects[a.projectId].org == a.org && db.nextIncident < KeyCodec.ID_LIMIT then
              && after.incidents.Keys == db.incidents.Keys + {db.nextIncident}
              && var row := after.incidents[db.nextIncident];
                 row.org == a.org && row.project == a.projectId && row.createdBy == a.user
                 && row.columns.title == a.incident.title && row.columns.createdAt == run[n].now
            else after == db
  {
    hide CreateIncident;
    var a := run[n].action;
    NewIncidentRow(After(run, n), a.org, a.projectId, a.user, a.incident, run[n].now);
  }

  // ----- resolved_at -----

  /** `resolved_at` is set exactly on terminal rows. */
  predicate Settled(c: Columns) {
    c.resolvedAt.Some? <==> Terminal(c.status)
  }

  predicate TerminalAt(run: seq<Timed>, n: nat, id: nat)
    requires n <= |run|
  {
    var db := After(run, n);
    id in db.incidents && Terminal(db.incidents[id].columns.status)
  }

  /** Request `j` took the incident from a non-terminal to a terminal status, and it stayed terminal up to `n`. */
  predicate LastResolution(run: seq<Timed>, n: nat, id: nat, j: nat)
    requires n <= |run|
  {
    && j < n && id in After(run, j).incidents
    && !TerminalAt(run, j, id)
    && (forall k: nat :: j < k <= n ==> TerminalAt(run, k, id))
  }

  ghost predicate ResolvedProperly(run: seq<Timed>, n: nat, id: nat)
    requires n <= |run| && id in After(run, n).incidents
  {
    var c := After(run, n).incidents[id].columns;
    && Settled(c)
    && (Terminal(c.status) ==> exists j: nat :: LastResolution(run, n, id, j) && c.resolvedAt == Some(run[j].now))
  }

  /** The status and resolution time a committed update leaves behind. */
  lemma UpdateSettles(base: Columns, changes: seq<Change>, now: real)
    requires Settled(base)
    ensures var flushed := Flush(base, Edited(base, changes, now), base, now);
            flushed.Some? ==>
              && Settled(flushed.value)
              && (Terminal(flushed.value.status) ==>
                    flushed.value.resolvedAt == if Terminal(base.status) then base.resolvedAt else Some(now))
  {
    AttrsKeepResolvedAt(DraftOf(base), changes);
  }

  /** A terminal row was resolved by this request, or earlier and has stayed terminal since. */
  lemma ResolutionMoves(run: seq<Timed>, n: nat, id: nat)
    requires 0 < n <= |run| && id in After(run, n - 1).incidents && id in After(run, n).incidents
    requires ResolvedProperly(run, n - 1, id) && TerminalAt(run, n, id)
    requires var before, after := After(run, n - 1).incidents[id].columns, After(run, n).incidents[id].columns;
             Settled(after) && after.resolvedAt == if Terminal(before.status) then before.resolvedAt else Some(run[n - 1].now)
    ensures ResolvedProperly(run, n, id)
  {
    hide After;
    var before := After(run, n - 1).incidents[id].columns;
    if Terminal(before.status) {
      var j: nat :| LastResolution(run, n - 1, id, j) && before.resolvedAt == Some(run[j].now);
      assert LastResolution(run, n, id, j);
    } else {
      assert LastResolution(run, n, id, n - 1);
    }
  }

  lemma AfterApplies(run: seq<Timed>, n: nat)
    requires 0 < n <= |run|
    ensures After(run, n) == Apply(After(run, n - 1), run[n - 1])
  {
  }

  /** An incident that a request adds is open and unresolved. */
  lemma NewRowIsOpen(db: Db, t: Timed, id: nat)
    requires id !in db.incidents && id in Apply(db, t).incidents
    ensures var c := Apply(db, t).incidents[id].columns; Settled(c) && !Terminal(c.status)
  {
    hide Edited, Flush, SetProjectAttrs;
  }

  /**
   * Over every serial run, `resolved_at` is set iff the status is terminal, and then it is the time
   * of the latest move from a non-terminal to a terminal status.
   */
  lemma {:induction false} ResolutionHistory(run: seq<Timed>, n: nat, id: nat)
    requires n <= |run| && id in After(run, n).incidents
    ensures ResolvedProperly(run, n, id)
  {
    if n == 0 {
    } else {
      hide Apply, After, LastResolution, Consistent;
      var db, t := After(run, n - 1), run[n - 1];
      AfterApplies(run, n);
      if id in db.incidents {
        AlwaysConsistent(run, n - 1);
        ResolutionHistory(run, n - 1, id);
        RowAfter(db, t, id);
        if TerminalAt(run, n, id) {
          ResolutionMoves(run, n, id);
        }
      } else {
        NewRowIsOpen(db, t, id);
      }
    }
  }

  /** One request, seen from one existing incident. */
  lemma RowAfter(db: Db, t: Timed, id: nat)
    requires Consistent(db) && id in db.incidents && id in Apply(db, t).incidents
    requires Settled(db.incidents[id].columns)
    ensures var before, after := db.incidents[id].columns, Apply(db, t).incidents[id].columns;
            && Settled(after)
            && (Terminal(after.status) ==>
                  after.resolvedAt == if Terminal(before.status) then before.resolvedAt else Some(t.now))
  {
    match t.action
    case AddProject(_, _, _) =>
    case AddIncident(_, _, _, _) =>
    case EditIncident(org, edited, changes) =>
      if edited == id {
        UpdateSettles(db.incidents[id].columns, changes, t.now);
      }
    case EditProject(org, role, pid, changes) =>
      UpdateProjectKeeps(db, org, role, pid, changes);
  }

  /** The update would change the status without crossing between terminal and non-terminal. */
  predicate MovesWithin(base: Columns, changes: seq<Change>) {
    var s := NewStatus(changes);
    s.Some? && s.value != base.status && (Terminal(s.value) <==> Terminal(base.status))
  }

  /** The update moves within one class of statuses over a row that has meanwhile crossed to the other. */
  predicate Crossed(base: Columns, changes: seq<Change>, current: Columns) {
    MovesWithin(base, changes) && (Terminal(current.status) <==> !Terminal(base.status))
  }

  /**
   * Overlapping updates, exactly: a commit over a row that changed since it was read leaves
   * `resolved_at` consistent unless the update moves within one class of statuses while the row
   * has meanwhile crossed to the other class.
   */
  lemma OverlapExact(base: Columns, changes: seq<Change>, current: Columns, now: real)
    requires Settled(base) && Settled(current)
    requires Flush(base, Edited(base, changes, now), current, now).Some?
    ensures Settled(Flush(base, Edited(base, changes, now), current, now).value)
       <==> !Crossed(base, changes, current)
  {
    AttrsKeepResolvedAt(DraftOf(base), changes);
  }

  /** Reopening and closing a resolved incident at once leaves it CLOSED with no resolution time. */
  lemma OverlapBreaksResolution(base: Columns, now: real)
    requires base.status == Resolved && base.resolvedAt.Some?
    ensures var reopened := Flush(base, Edited(base, [SetStatus(Some(Open))], now), base, now);
            && reopened.Some? && Settled(reopened.value)
            && var both := Flush(base, Edited(base, [SetStatus(Some(Closed))], now), reopened.value, now);
               both.Some? && both.value.status == Closed && both.value.resolvedAt == None
  {
    assert SetAttrs(DraftOf(base), [SetStatus(Some(Open))]) == DraftOf(base).(status := Some(Open)) by {
      assert [SetStatus(Some(Open))][..0] == [];
    }
    assert SetAttrs(DraftOf(base), [SetStatus(Some(Closed))]) == DraftOf(base).(status := Some(Closed)) by {
      assert [SetStatus(Some(Closed))][..0] == [];
    }
  }

  // ----- tenants -----

  /** Everything in the tables that belongs to one organization. */
  function RowsOf(db: Db, org: nat): (map<nat, Project>, map<nat, Incident>) {
    (map id | id in db.projects && db.projects[id].org == org :: db.projects[id],
     map id | id in db.incidents && db.incidents[id].org == org :: db.incidents[id])
  }

  /** A request of one organization leaves every other organization's rows and views as they were. */
  lemma OtherTenantsUntouched(db: Db, t: Timed, other: nat)
    requires Consistent(db) && t.action.org != other
    ensures RowsOf(Apply(db, t), other) == RowsOf(db, other)
    ensures forall id: nat :: View(Apply(db, t), other, id) == View(db, other, id)
  {
    RowsUntouched(db, t, other);
    ApplyKeeps(db, t);
    forall id: nat
      ensures View(Apply(db, t), other, id) == View(db, other, id)
    {
      ViewFromRows(db, other, id);
      ViewFromRows(Apply(db, t), other, id);
    }
  }

  /** Row by row, nothing of `org` was added, removed or changed. */
  predicate SameRows(a: Db, b: Db, org: nat) {
    && (forall id :: id in a.projects && a.projects[id].org == org ==> id in b.projects && b.projects[id] == a.projects[id])
    && (forall id :: id in b.projects && b.projects[id].org == org ==> id in a.projects && a.projects[id] == b.projects[id])
    && (forall id :: id in a.incidents && a.incidents[id].org == org ==> id in b.incidents && b.incidents[id] == a.incidents[id])
    && (forall id :: id in b.incidents && b.incidents[id].org == org ==> id in a.incidents && a.incidents[id] == b.incidents[id])
  }

  lemma SameRowsSuffice(a: Db, b: Db, org: nat)
    requires SameRows(a, b, org)
    ensures RowsOf(a, org) == RowsOf(b, org)
  {
    var ra, rb := RowsOf(a, org), RowsOf(b, org);
    assert ra.0 == rb.0;
    assert ra.1 == rb.1;
  }

  lemma ProjectAddedElsewhere(db: Db, org: nat, role: string, p: NewProject, other: nat)
    requires (forall id :: id in db.projects ==> id < db.nextProject) && org != other
    ensures SameRows(CreateProject(db, org, role, p).0, db, other)
  {
  }

  lemma IncidentAddedElsewhere(db: Db, org: nat, project: nat, user: nat, n: NewIncident, now: real, other: nat)
    requires (forall id :: id in db.incidents ==> id < db.nextIncident) && org != other
    ensures SameRows(CreateIncident(db, org, project, user, n, now).0, db, other)
  {
  }

  lemma EditsElsewhere(db: Db, t: Timed, other: nat)
    requires Consistent(db) && t.action.org != other && (t.action.EditIncident? || t.action.EditProject?)
    ensures SameRows(Apply(db, t), db, other)
  {
    hide Flush, Edited, SetProjectAttrs;
    if t.action.EditProject? {
      UpdateProjectKeeps(db, t.action.org, t.action.role, t.action.id, t.action.projectChanges);
    }
  }

  lemma RowsUntouched(db: Db, t: Timed, other: nat)
    requires Consistent(db) && t.action.org != other
    ensures RowsOf(Apply(db, t), other) == RowsOf(db, other)
  {
    hide RowsOf, SameRows, CreateProject, CreateIncident, UpdateIncident, UpdateProject;
    match t.action {
      case AddProject(org, role, p) => ProjectAddedElsewhere(db, org, role, p, other);
      case AddIncident(org, project, user, n) => IncidentAddedElsewhere(db, org, project, user, n, t.now, other);
      case EditIncident(_, _, _) => EditsElsewhere(db, t, other);
      case EditProject(_, _, _, _) => EditsElsewhere(db, t, other);
    }
    SameRowsSuffice(Apply(db, t), db, other);
  }

  /** A view is determined by its organization's own rows. */
  lemma ViewFromRows(db: Db, org: nat, id: nat)
    requires Consistent(db)
    ensures var rows := RowsOf(db, org);
            View(db, org, id) == View(Db(rows.0, rows.1, 0, 0), org, id)
  {
  }
}
