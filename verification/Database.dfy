/**
 * Projects and incidents as finite tables, and what one committed request does to them
 * (services/incident_service.py, services/project_service.py, database/models.py).
 */
module Database {
  import opened Prelude
  import KeyCodec

  datatype Status = Open | Investigating | Mitigated | Resolved | Closed

  /** INCIDENT_TERMINAL_STATUSES */
  predicate Terminal(s: Status) {
    s == Resolved || s == Closed
  }

  datatype Project = Project(org: nat, key: string, name: string, description: Option<string>,
                             primaryService: Option<string>, repositoryUrl: Option<string>)

  /** The incident columns a response shows; `updatedAt` changes with every effective update. */
  datatype Columns = Columns(title: string, description: Option<string>, severity: string, status: Status,
                             source: string, affectedService: Option<string>, startedAt: real,
                             resolvedAt: Option<real>, createdAt: real, updatedAt: real)

  datatype Incident = Incident(org: nat, project: nat, createdBy: nat, columns: Columns)

  datatype Db = Db(projects: map<nat, Project>, incidents: map<nat, Incident>, nextProject: nat, nextIncident: nat)

  const EMPTY := Db(map[], map[], 1, 1)

  datatype Error = NotFound | Forbidden | Conflict | Invalid | DatabaseError

  /** `serialize_incident`: the columns and the project's id, key and current name. */
  datatype Payload = Payload(id: nat, columns: Columns, project: nat, projectKey: Option<string>, projectName: Option<string>)

  function GetProject(db: Db, org: nat, id: nat): Result<Project, Error> {
    if id in db.projects && db.projects[id].org == org then Ok(db.projects[id]) else Err(NotFound)
  }

  function GetIncident(db: Db, org: nat, id: nat): Result<Incident, Error> {
    if id in db.incidents && db.incidents[id].org == org then Ok(db.incidents[id]) else Err(NotFound)
  }

  function Serialize(db: Db, id: nat, i: Incident): Payload {
    if i.project in db.projects
    then Payload(id, i.columns, i.project, Some(db.projects[i.project].key), Some(db.projects[i.project].name))
    else Payload(id, i.columns, i.project, None, None)
  }

  /** What the loader of `get_incident_view` returns at this instant. */
  function View(db: Db, org: nat, id: nat): Result<Payload, Error> {
    var i := GetIncident(db, org, id);
    if i.Ok? then Ok(Serialize(db, id, i.value)) else Err(i.error)
  }

  /** The payload shows this row of the tables: its own id and columns, and its project's id, key and name. */
  predicate ShowsRow(db: Db, org: nat, id: nat, p: Payload) {
    && id in db.incidents && db.incidents[id].org == org
    && p.id == id && p.columns == db.incidents[id].columns && p.project == db.incidents[id].project
    && p.project in db.projects
    && p.projectKey == Some(db.projects[p.project].key) && p.projectName == Some(db.projects[p.project].name)
  }

  /** A view shows the row if the organization has it, and is not found otherwise. */
  lemma ViewShowsRow(db: Db, org: nat, id: nat)
    requires Consistent(db)
    ensures var v := View(db, org, id);
            if id in db.incidents && db.incidents[id].org == org then v.Ok? && ShowsRow(db, org, id, v.value)
            else v == Err(NotFound)
  {
  }

  // ----- creating -----

  datatype NewProject = NewProject(key: string, name: string, description: Option<string>,
                                   primaryService: Option<string>, repositoryUrl: Option<string>)

  datatype NewIncident = NewIncident(title: string, description: Option<string>, severity: string, source: string,
                                     affectedService: Option<string>, startedAt: Option<real>)

  predicate CanWrite(role: string) {
    role == "owner" || role == "admin"
  }

  /** Ids are 32-bit: the insert fails once they run out, and so does a foreign key to no row. */
  function CreateProject(db: Db, org: nat, role: string, p: NewProject): (Db, Result<nat, Error>) {
    if !CanWrite(role) then (db, Err(Forbidden))
    else if exists id :: id in db.projects && db.projects[id].org == org && db.projects[id].key == p.key then
      (db, Err(Conflict))
    else if db.nextProject >= KeyCodec.ID_LIMIT || org >= KeyCodec.ID_LIMIT then (db, Err(DatabaseError))
    else
      var row := Project(org, p.key, p.name, p.description, p.primaryService, p.repositoryUrl);
      (db.(projects := db.projects[db.nextProject := row], nextProject := db.nextProject + 1), Ok(db.nextProject))
  }

  /** Python's `a or b` on optional text: an empty string counts as absent. */
  function OrElse(a: Option<string>, b: Option<string>): Option<string> {
    if a.Some? && a.value != "" then a else b
  }

  function CreateIncident(db: Db, org: nat, project: nat, user: nat, n: NewIncident, now: real): (Db, Result<nat, Error>) {
    var p := GetProject(db, org, project);
    if p.Err? then (db, Err(p.error))
    else if db.nextIncident >= KeyCodec.ID_LIMIT then (db, Err(DatabaseError))
    else
      var columns := Columns(n.title, n.description, n.severity, Open, n.source,
                             OrElse(n.affectedService, p.value.primaryService),
                             if n.startedAt.Some? then n.startedAt.value else now, None, now, now);
      (db.(incidents := db.incidents[db.nextIncident := Incident(org, project, user, columns)],
           nextIncident := db.nextIncident + 1), Ok(db.nextIncident))
  }

  // ----- updating an incident -----

  /** One field the client sent, possibly null. */
  datatype Change =
    | Title(text: Option<string>)
    | Description(text: Option<string>)
    | Severity(text: Option<string>)
    | SetStatus(status: Option<Status>)
    | AffectedService(text: Option<string>)
    | StartedAt(time: Option<real>)

  /** The session's copy of a row: any attribute may be null until the commit checks it. */
  datatype Draft = Draft(title: Option<string>, description: Option<string>, severity: Option<string>,
                         status: Option<Status>, affectedService: Option<string>, startedAt: Option<real>,
                         resolvedAt: Option<real>)

  function DraftOf(c: Columns): Draft {
    Draft(Some(c.title), c.description, Some(c.severity), Some(c.status), c.affectedService, Some(c.startedAt), c.resolvedAt)
  }

  /** `setattr(incident, field, value)` */
  function SetAttr(d: Draft, c: Change): Draft {
    match c
    case Title(v) => d.(title := v)
    case Description(v) => d.(description := v)
    case Severity(v) => d.(severity := v)
    case SetStatus(v) => d.(status := v)
    case AffectedService(v) => d.(affectedService := v)
    case StartedAt(v) => d.(startedAt := v)
  }

  function SetAttrs(d: Draft, changes: seq<Change>): Draft {
    if changes == [] then d else SetAttr(SetAttrs(d, changes[..|changes| - 1]), changes[|changes| - 1])
  }

  /** `changes.get("status")`: absent and null alike give None. */
  function NewStatus(changes: seq<Change>): Option<Status> {
    if changes == [] then None
    else
      var last := changes[|changes| - 1];
      if last.SetStatus? then last.status else NewStatus(changes[..|changes| - 1])
  }

  /** `_apply_status_side_effects` */
  function SideEffects(d: Draft, status: Status, now: real): Draft {
    if Terminal(status) then (if d.resolvedAt.None? then d.(resolvedAt := Some(now)) else d)
    else d.(resolvedAt := None)
  }

  /** The session's row after `update_incident`, just before its commit. */
  function Edited(base: Columns, changes: seq<Change>, now: real): Draft {
    var d := SetAttrs(DraftOf(base), changes);
    var s := NewStatus(changes);
    if s.Some? then SideEffects(d, s.value, now) else d
  }

  function Pick<T(==)>(read: T, wanted: T, current: T): T {
    if wanted != read then wanted else current
  }

  /**
   * The UPDATE that a commit issues: only attributes that differ from what the session read are
   * written, over whatever the row holds by now. None when a NOT NULL column is set to null.
   */
  function Flush(base: Columns, d: Draft, current: Columns, now: real): Option<Columns> {
    if d.title.None? || d.severity.None? || d.status.None? || d.startedAt.None? then None
    else if d == DraftOf(base) then Some(current)
    else Some(current.(
      title := Pick(base.title, d.title.value, current.title),
      description := Pick(base.description, d.description, current.description),
      severity := Pick(base.severity, d.severity.value, current.severity),
      status := Pick(base.status, d.status.value, current.status),
      affectedService := Pick(base.affectedService, d.affectedService, current.affectedService),
      startedAt := Pick(base.startedAt, d.startedAt.value, current.startedAt),
      resolvedAt := Pick(base.resolvedAt, d.resolvedAt, current.resolvedAt),
      updatedAt := now))
  }

  /** Commit of an update that had read `base`, against the table as it is now. */
  function CommitUpdate(db: Db, id: nat, base: Columns, d: Draft, now: real): (Db, bool) {
    if id !in db.incidents then (db, false)
    else
      var flushed := Flush(base, d, db.incidents[id].columns, now);
      if flushed.None? then (db, false)
      else (db.(incidents := db.incidents[id := db.incidents[id].(columns := flushed.value)]), true)
  }

  /** `update_incident` with nothing in between its read and its commit. */
  function UpdateIncident(db: Db, org: nat, id: nat, changes: seq<Change>, now: real): (Db, Result<(), Error>) {
    var i := GetIncident(db, org, id);
    if i.Err? then (db, Err(i.error))
    else
      var (after, ok) := CommitUpdate(db, id, i.value.columns, Edited(i.value.columns, changes, now), now);
      (after, if ok then Ok(()) else Err(DatabaseError))
  }

  // ----- updating a project -----

  datatype ProjectChange =
    | Name(name: Option<string>)
    | ProjectDescription(text: Option<string>)
    | PrimaryService(text: Option<string>)
    | RepositoryUrl(text: Option<string>)

  /** `setattr(project, field, value)` on the row as the session holds it: its name may be null until the commit. */
  function SetProjectAttr(p: Project, name: Option<string>, c: ProjectChange): (Project, Option<string>) {
    match c
    case Name(v) => (p, v)
    case ProjectDescription(v) => (p.(description := v), name)
    case PrimaryService(v) => (p.(primaryService := v), name)
    case RepositoryUrl(v) => (p.(repositoryUrl := v), name)
  }

  function SetProjectAttrs(p: Project, name: Option<string>, changes: seq<ProjectChange>): (Project, Option<string>) {
    if changes == [] then (p, name)
    else
      var (q, n) := SetProjectAttrs(p, name, changes[..|changes| - 1]);
      SetProjectAttr(q, n, changes[|changes| - 1])
  }

  function UpdateProject(db: Db, org: nat, role: string, id: nat, changes: seq<ProjectChange>): (Db, Result<(), Error>) {
    if !CanWrite(role) then (db, Err(Forbidden))
    else
      var p := GetProject(db, org, id);
      if p.Err? then (db, Err(p.error))
      else
        var (row, name) := SetProjectAttrs(p.value, Some(p.value.name), changes);
        if name.None? then (db, Err(DatabaseError))
        else (db.(projects := db.projects[id := row.(name := name.value)]), Ok(()))
  }

  // ----- invariants -----

  /** Every incident belongs to its project's organization, and ids are 32-bit and fresh. */
  predicate Consistent(db: Db) {
    && (forall id :: id in db.projects ==> id < db.nextProject && db.projects[id].org < KeyCodec.ID_LIMIT)
    && (forall id :: id in db.incidents ==>
          id < db.nextIncident && db.incidents[id].project in db.projects
          && db.projects[db.incidents[id].project].org == db.incidents[id].org)
    && db.nextProject <= KeyCodec.ID_LIMIT && db.nextIncident <= KeyCodec.ID_LIMIT
  }

  /** No two projects of an organization have the same key. */
  predicate UniqueKeys(db: Db) {
    forall a, b | a in db.projects && b in db.projects && a != b ::
      db.projects[a].org != db.projects[b].org || db.projects[a].key != db.projects[b].key
  }

  /** Rows survive, and the fields no request may change are as they were. */
  predicate Preserves(before: Db, after: Db) {
    && (forall id :: id in before.projects ==>
          id in after.projects && after.projects[id].org == before.projects[id].org
          && after.projects[id].key == before.projects[id].key)
    && (forall id :: id in before.incidents ==>
          id in after.incidents && after.incidents[id].org == before.incidents[id].org
          && after.incidents[id].project == before.incidents[id].project
          && after.incidents[id].createdBy == before.incidents[id].createdBy)
  }

  lemma {:induction false} SetProjectAttrsKeepsKey(p: Project, name: Option<string>, changes: seq<ProjectChange>)
    ensures var (q, _) := SetProjectAttrs(p, name, changes);
            q.org == p.org && q.key == p.key
  {
    if changes != [] {
      SetProjectAttrsKeepsKey(p, name, changes[..|changes| - 1]);
    }
  }

  lemma CreateProjectKeeps(db: Db, org: nat, role: string, p: NewProject)
    requires Consistent(db)
    ensures Consistent(CreateProject(db, org, role, p).0) && Preserves(db, CreateProject(db, org, role, p).0)
  {
  }

  lemma CreateIncidentKeeps(db: Db, org: nat, project: nat, user: nat, n: NewIncident, now: real)
    requires Consistent(db)
    ensures var after := CreateIncident(db, org, project, user, n, now).0;
            Consistent(after) && Preserves(db, after)
  {
  }

  lemma CommitUpdateKeeps(db: Db, id: nat, base: Columns, d: Draft, now: real)
    requires Consistent(db)
    ensures var after := CommitUpdate(db, id, base, d, now).0;
            && Consistent(after) && Preserves(db, after) && after.projects == db.projects
            && (forall other :: other in db.incidents && other != id ==> after.incidents[other] == db.incidents[other])
  {
  }

  lemma UpdateProjectKeeps(db: Db, org: nat, role: string, id: nat, changes: seq<ProjectChange>)
    requires Consistent(db)
    ensures var after := UpdateProject(db, org, role, id, changes).0;
            && Consistent(after) && Preserves(db, after)
            && after.incidents == db.incidents && after.projects.Keys == db.projects.Keys
  {
    hide SetProjectAttrs;
    if GetProject(db, org, id).Ok? {
      var p := db.projects[id];
      SetProjectAttrsKeepsKey(p, Some(p.name), changes);
    }
  }
}
