/**
 * What one committed request leaves in the tables, field by field: the rows that creations store and
 * what a partial update writes, over a row that may have changed since it was read
 * (services/incident_service.py, services/project_service.py).
 */
module Updates {
  import opened Prelude
  import opened Database
  import KeyCodec

  // ----- what a creation stores -----

  /** A project is refused to other roles than owner and admin, then for a taken key; else it is stored as sent. */
  lemma NewProjectRow(db: Db, org: nat, role: string, p: NewProject)
    ensures var (after, r) := CreateProject(db, org, role, p);
            var taken := exists id :: id in db.projects && db.projects[id].org == org && db.projects[id].key == p.key;
            && (r == Err(Forbidden) <==> role != "owner" && role != "admin")
            && (r == Err(Conflict) <==> (role == "owner" || role == "admin") && taken)
            && (r.Ok? <==> ((role == "owner" || role == "admin") && !taken
                            && db.nextProject < KeyCodec.ID_LIMIT && org < KeyCodec.ID_LIMIT))
            && (r.Err? ==> after == db)
            && (r.Ok? ==>
                  && r.value == db.nextProject && after.nextProject == db.nextProject + 1
                  && after.projects.Keys == db.projects.Keys + {r.value}
                  && (forall id :: id in db.projects && id != r.value ==> after.projects[id] == db.projects[id])
                  && after.incidents == db.incidents && after.nextIncident == db.nextIncident
                  && var row := after.projects[r.value];
                     && row.org == org && row.key == p.key && row.name == p.name
                     && row.description == p.description && row.primaryService == p.primaryService
                     && row.repositoryUrl == p.repositoryUrl)
  {
  }

  /** An incident of a project that is not the caller's is refused; else it is stored as sent, open and unresolved. */
  lemma NewIncidentRow(db: Db, org: nat, project: nat, user: nat, n: NewIncident, now: real)
    ensures var (after, r) := CreateIncident(db, org, project, user, n, now);
            var mine := project in db.projects && db.projects[project].org == org;
            && (r == Err(NotFound) <==> !mine)
            && (r.Ok? <==> mine && db.nextIncident < KeyCodec.ID_LIMIT)
            && (r.Err? ==> after == db)
            && (r.Ok? ==>
                  && r.value == db.nextIncident && after.nextIncident == db.nextIncident + 1
                  && after.incidents.Keys == db.incidents.Keys + {r.value}
                  && (forall id :: id in db.incidents && id != r.value ==> after.incidents[id] == db.incidents[id])
                  && after.projects == db.projects && after.nextProject == db.nextProject
                  && var row := after.incidents[r.value];
                     && row.org == org && row.project == project && row.createdBy == user
                     && row.columns.title == n.title && row.columns.description == n.description
                     && row.columns.severity == n.severity && row.columns.source == n.source
                     && row.columns.status == Open && row.columns.resolvedAt == None
                     && row.columns.createdAt == now && row.columns.updatedAt == now
                     && (n.startedAt.Some? ==> row.columns.startedAt == n.startedAt.value)
                     && (n.startedAt.None? ==> row.columns.startedAt == now)
                     && (n.affectedService.Some? && n.affectedService.value != "" ==>
                           row.columns.affectedService == n.affectedService)
                     && (n.affectedService == None || n.affectedService == Some("") ==>
                           row.columns.affectedService == db.projects[project].primaryService))
  {
  }

  // ----- partial updates -----

  datatype Field = TitleField | DescriptionField | SeverityField | StatusField | ServiceField | StartedField

  datatype FieldValue = TextValue(text: Option<string>) | StatusValue(status: Option<Status>) | TimeValue(time: Option<real>)

  function FieldOf(c: Change): Field {
    match c
    case Title(_) => TitleField
    case Description(_) => DescriptionField
    case Severity(_) => SeverityField
    case SetStatus(_) => StatusField
    case AffectedService(_) => ServiceField
    case StartedAt(_) => StartedField
  }

  function SentValue(c: Change): FieldValue {
    match c
    case Title(v) => TextValue(v)
    case Description(v) => TextValue(v)
    case Severity(v) => TextValue(v)
    case SetStatus(v) => StatusValue(v)
    case AffectedService(v) => TextValue(v)
    case StartedAt(v) => TimeValue(v)
  }

  /** The field as a committed row holds it. */
  function Held(c: Columns, f: Field): FieldValue {
    match f
    case TitleField => TextValue(Some(c.title))
    case DescriptionField => TextValue(c.description)
    case SeverityField => TextValue(Some(c.severity))
    case StatusField => StatusValue(Some(c.status))
    case ServiceField => TextValue(c.affectedService)
    case StartedField => TimeValue(Some(c.startedAt))
  }

  /** The field as a session holds it. */
  function ReadField(d: Draft, f: Field): FieldValue {
    match f
    case TitleField => TextValue(d.title)
    case DescriptionField => TextValue(d.description)
    case SeverityField => TextValue(d.severity)
    case StatusField => StatusValue(d.status)
    case ServiceField => TextValue(d.affectedService)
    case StartedField => TimeValue(d.startedAt)
  }

  /** No change names the field. */
  predicate Unsent(changes: seq<Change>, f: Field) {
    forall i :: 0 <= i < |changes| ==> FieldOf(changes[i]) != f
  }

  /** Change `i` is the last to name its field. */
  predicate LastSent(changes: seq<Change>, i: nat) {
    i < |changes| && forall j :: i < j < |changes| ==> FieldOf(changes[j]) != FieldOf(changes[i])
  }

  /** `v` is the value that the last change to name the field sends. */
  ghost predicate Sends(changes: seq<Change>, f: Field, v: FieldValue) {
    exists i: nat :: LastSent(changes, i) && FieldOf(changes[i]) == f && SentValue(changes[i]) == v
  }

  /** Some field is sent with a null that its column cannot hold. */
  ghost predicate SendsUnfit(changes: seq<Change>) {
    || Sends(changes, TitleField, TextValue(None)) || Sends(changes, SeverityField, TextValue(None))
    || Sends(changes, StatusField, StatusValue(None)) || Sends(changes, StartedField, TimeValue(None))
  }

  /** Some field is sent with another value than was read. */
  ghost predicate SendsNew(base: Columns, changes: seq<Change>) {
    exists f: Field, v: FieldValue :: Sends(changes, f, v) && v != Held(base, f)
  }

  /** The update sets this status. */
  ghost predicate Sets(changes: seq<Change>, s: Status) {
    Sends(changes, StatusField, StatusValue(Some(s)))
  }

  /** The status sent resolves a row that was read without a resolution time. */
  ghost predicate Resolves(base: Columns, changes: seq<Change>) {
    base.resolvedAt.None? && (Sets(changes, Resolved) || Sets(changes, Closed))
  }

  /** The status sent reopens a row that was read with a resolution time. */
  ghost predicate Reopens(base: Columns, changes: seq<Change>) {
    base.resolvedAt.Some? && (Sets(changes, Open) || Sets(changes, Investigating) || Sets(changes, Mitigated))
  }

  /** The last value sent if it differs from what was read, else what the row holds at the commit. */
  ghost predicate MergesField(base: Columns, changes: seq<Change>, current: Columns, after: Columns, f: Field) {
    && (Unsent(changes, f) ==> Held(after, f) == Held(current, f))
    && (forall v: FieldValue :: Sends(changes, f, v) ==>
          && (v != Held(base, f) ==> Held(after, f) == v)
          && (v == Held(base, f) ==> Held(after, f) == Held(current, f)))
  }

  /**
   * What an update that had read `base` makes of the row as it stands at the commit. Nothing is
   * stamped unless something is written.
   */
  ghost predicate Merges(base: Columns, changes: seq<Change>, current: Columns, after: Columns, now: real) {
    && (forall f: Field :: MergesField(base, changes, current, after, f))
    && after.source == current.source && after.createdAt == current.createdAt
    && after.resolvedAt == (if Resolves(base, changes) then Some(now)
                            else if Reopens(base, changes) then None else current.resolvedAt)
    && after.updatedAt == (if SendsNew(base, changes) || Resolves(base, changes) || Reopens(base, changes)
                           then now else current.updatedAt)
  }

  lemma AttrAsSent(d: Draft, c: Change, f: Field)
    ensures ReadField(SetAttr(d, c), f) == if FieldOf(c) == f then SentValue(c) else ReadField(d, f)
  {
  }

  lemma {:induction false} UnsentKept(d: Draft, changes: seq<Change>, f: Field)
    requires Unsent(changes, f)
    ensures ReadField(SetAttrs(d, changes), f) == ReadField(d, f)
  {
    hide SetAttr, ReadField, SentValue, FieldOf;
    if changes != [] {
      var n := |changes| - 1;
      UnsentKept(d, changes[..n], f);
      AttrAsSent(SetAttrs(d, changes[..n]), changes[n], f);
    }
  }

  lemma {:induction false} LastSentWins(d: Draft, changes: seq<Change>, i: nat)
    requires LastSent(changes, i)
    ensures ReadField(SetAttrs(d, changes), FieldOf(changes[i])) == SentValue(changes[i])
  {
    hide SetAttr, ReadField, SentValue, FieldOf;
    var n, f := |changes| - 1, FieldOf(changes[i]);
    AttrAsSent(SetAttrs(d, changes[..n]), changes[n], f);
    if i < n {
      LastSentWins(d, changes[..n], i);
    }
  }

  /** A field is unsent, or one change is the last to name it. */
  lemma {:induction false} SentOrNot(changes: seq<Change>, f: Field)
    ensures Unsent(changes, f) || exists i: nat :: LastSent(changes, i) && FieldOf(changes[i]) == f
  {
    hide FieldOf;
    if changes != [] {
      var n := |changes| - 1;
      if FieldOf(changes[n]) == f {
        assert LastSent(changes, n);
      } else {
        SentOrNot(changes[..n], f);
        if i: nat :| LastSent(changes[..n], i) && FieldOf(changes[..n][i]) == f {
          assert forall k :: i < k < n ==> changes[..n][k] == changes[k];
          assert LastSent(changes, i) && FieldOf(changes[i]) == f;
        }
      }
    }
  }

  /** What the session's row holds in a field: the one value sent for it, or what was read. */
  lemma DraftedField(base: Columns, changes: seq<Change>, f: Field)
    ensures var w := ReadField(SetAttrs(DraftOf(base), changes), f);
            && (Unsent(changes, f) ==> w == Held(base, f))
            && (Unsent(changes, f) || Sends(changes, f, w))
            && (forall v: FieldValue :: Sends(changes, f, v) ==> v == w)
  {
    var d := DraftOf(base);
    hide SetAttrs, SentValue, FieldOf, Unsent;
    SentOrNot(changes, f);
    if Unsent(changes, f) {
      UnsentKept(d, changes, f);
    }
    forall i: nat | LastSent(changes, i) && FieldOf(changes[i]) == f
      ensures SentValue(changes[i]) == ReadField(SetAttrs(d, changes), f)
    {
      LastSentWins(d, changes, i);
    }
  }

  predicate SetsStatus(changes: seq<Change>) {
    exists i :: 0 <= i < |changes| && changes[i].SetStatus?
  }

  lemma {:induction false} AttrsKeepResolvedAt(d: Draft, changes: seq<Change>)
    ensures SetAttrs(d, changes).resolvedAt == d.resolvedAt
    ensures SetAttrs(d, changes).status == if SetsStatus(changes) then NewStatus(changes) else d.status
    ensures !SetsStatus(changes) ==> NewStatus(changes) == None
  {
    if changes != [] {
      var n := |changes| - 1;
      AttrsKeepResolvedAt(d, changes[..n]);
      if SetsStatus(changes) && !changes[n].SetStatus? {
        var i :| 0 <= i < |changes| && changes[i].SetStatus?;
        assert changes[..n][i].SetStatus?;
      }
      if SetsStatus(changes[..n]) {
        var i :| 0 <= i < n && changes[..n][i].SetStatus?;
        assert changes[i].SetStatus?;
      }
    }
  }

  /** The side effects run for the status that the update sets. */
  lemma NewStatusIsSent(base: Columns, changes: seq<Change>, s: Status)
    ensures NewStatus(changes) == Some(s) <==> Sets(changes, s)
  {
    hide SetAttrs, NewStatus;
    DraftedField(base, changes, StatusField);
    AttrsKeepResolvedAt(DraftOf(base), changes);
    assert forall i :: 0 <= i < |changes| ==> (FieldOf(changes[i]) == StatusField <==> changes[i].SetStatus?);
    assert SetsStatus(changes) <==> !Unsent(changes, StatusField);
    assert Sets(changes, s) ==> !Unsent(changes, StatusField);
  }

  /** The resolution time of the session's row before the commit. */
  lemma DraftedResolution(base: Columns, changes: seq<Change>, now: real)
    ensures var d := Edited(base, changes, now);
            && (forall f: Field :: ReadField(d, f) == ReadField(SetAttrs(DraftOf(base), changes), f))
            && d.resolvedAt == (if Resolves(base, changes) then Some(now)
                                else if Reopens(base, changes) then None else base.resolvedAt)
  {
    hide SetAttrs, NewStatus, Sets;
    AttrsKeepResolvedAt(DraftOf(base), changes);
    NewStatusIsSent(base, changes, Open);
    NewStatusIsSent(base, changes, Investigating);
    NewStatusIsSent(base, changes, Mitigated);
    NewStatusIsSent(base, changes, Resolved);
    NewStatusIsSent(base, changes, Closed);
  }

  /** A flush, field by field. */
  lemma FlushedField(base: Columns, d: Draft, current: Columns, now: real, f: Field)
    ensures var r := Flush(base, d, current, now);
            && (r.Some? <==> d.title.Some? && d.severity.Some? && d.status.Some? && d.startedAt.Some?)
            && (r.Some? ==>
                  Held(r.value, f) == if ReadField(d, f) != Held(base, f) then ReadField(d, f) else Held(current, f))
  {
  }

  lemma FlushedRest(base: Columns, d: Draft, current: Columns, now: real)
    requires Flush(base, d, current, now).Some?
    ensures var after := Flush(base, d, current, now).value;
            && after.source == current.source && after.createdAt == current.createdAt
            && after.resolvedAt == (if d.resolvedAt != base.resolvedAt then d.resolvedAt else current.resolvedAt)
            && after.updatedAt == (if d.resolvedAt != base.resolvedAt || (exists f: Field :: ReadField(d, f) != Held(base, f))
                                   then now else current.updatedAt)
  {
    if d != DraftOf(base) && d.resolvedAt == base.resolvedAt {
      assert ReadField(d, TitleField) != Held(base, TitleField) || ReadField(d, DescriptionField) != Held(base, DescriptionField)
        || ReadField(d, SeverityField) != Held(base, SeverityField) || ReadField(d, StatusField) != Held(base, StatusField)
        || ReadField(d, ServiceField) != Held(base, ServiceField) || ReadField(d, StartedField) != Held(base, StartedField);
    }
  }

  lemma UnfitExactly(base: Columns, changes: seq<Change>)
    ensures var d := SetAttrs(DraftOf(base), changes);
            SendsUnfit(changes) <==> d.title.None? || d.severity.None? || d.status.None? || d.startedAt.None?
  {
    hide SetAttrs, Sends, Unsent;
    DraftedField(base, changes, TitleField);
    DraftedField(base, changes, SeverityField);
    DraftedField(base, changes, StatusField);
    DraftedField(base, changes, StartedField);
  }

  lemma FlushMergesFields(base: Columns, changes: seq<Change>, current: Columns, now: real)
    ensures var r := Flush(base, Edited(base, changes, now), current, now);
            && (r.Some? <==> !SendsUnfit(changes))
            && (r.Some? ==> forall f: Field :: MergesField(base, changes, current, r.value, f))
  {
    hide SetAttrs, Edited, Flush, Sends, Unsent, Resolves, Reopens, SendsUnfit;
    var d := Edited(base, changes, now);
    UnfitExactly(base, changes);
    DraftedResolution(base, changes, now);
    assert ReadField(d, TitleField) == TextValue(d.title) && ReadField(d, SeverityField) == TextValue(d.severity)
      && ReadField(d, StatusField) == StatusValue(d.status) && ReadField(d, StartedField) == TimeValue(d.startedAt);
    FlushedField(base, d, current, now, TitleField);
    hide Held, ReadField;
    forall f: Field | Flush(base, d, current, now).Some?
      ensures MergesField(base, changes, current, Flush(base, d, current, now).value, f)
    {
      DraftedField(base, changes, f);
      FlushedField(base, d, current, now, f);
    }
  }

  lemma NewExactly(base: Columns, changes: seq<Change>)
    ensures SendsNew(base, changes)
       <==> exists f: Field :: ReadField(SetAttrs(DraftOf(base), changes), f) != Held(base, f)
  {
    hide SetAttrs, Sends, Unsent, ReadField, Held;
    forall f: Field
      ensures ReadField(SetAttrs(DraftOf(base), changes), f) != Held(base, f)
         <==> exists v: FieldValue :: Sends(changes, f, v) && v != Held(base, f)
    {
      DraftedField(base, changes, f);
    }
  }

  lemma FlushMerges(base: Columns, changes: seq<Change>, current: Columns, now: real)
    ensures var r := Flush(base, Edited(base, changes, now), current, now);
            && (r.Some? <==> !SendsUnfit(changes))
            && (r.Some? ==> Merges(base, changes, current, r.value, now))
  {
    hide SetAttrs, Edited, Flush, MergesField, SendsUnfit, SendsNew, Held, ReadField;
    var d := Edited(base, changes, now);
    FlushMergesFields(base, changes, current, now);
    if Flush(base, d, current, now).Some? {
      FlushedRest(base, d, current, now);
      DraftedResolution(base, changes, now);
      NewExactly(base, changes);
    }
  }

  /**
   * A commit is refused exactly for a missing row or a null that a column cannot hold. Otherwise, whatever
   * the row has become since it was read: a field takes the last value sent for it if that is new, and
   * every other field, and all that no request can send, stays as the row holds it now.
   */
  lemma UpdateWritesWhatWasSent(db: Db, id: nat, base: Columns, changes: seq<Change>, now: real)
    ensures var (after, ok) := CommitUpdate(db, id, base, Edited(base, changes, now), now);
            && (ok <==> id in db.incidents && !SendsUnfit(changes))
            && (!ok ==> after == db)
            && (ok ==>
                  && after == db.(incidents := after.incidents) && after.incidents.Keys == db.incidents.Keys
                  && (forall other :: other in db.incidents && other != id ==> after.incidents[other] == db.incidents[other])
                  && after.incidents[id] == db.incidents[id].(columns := after.incidents[id].columns)
                  && Merges(base, changes, db.incidents[id].columns, after.incidents[id].columns, now))
  {
    hide Edited, Flush, Merges, SendsUnfit;
    if id in db.incidents {
      FlushMerges(base, changes, db.incidents[id].columns, now);
    }
  }

  /** One update with nothing in between: not found, refused for a null, or merged into the row it read. */
  lemma UpdateIncidentExact(db: Db, org: nat, id: nat, changes: seq<Change>, now: real)
    ensures var (after, r) := UpdateIncident(db, org, id, changes, now);
            var mine := id in db.incidents && db.incidents[id].org == org;
            && (r == Err(NotFound) <==> !mine)
            && (r == Err(DatabaseError) <==> mine && SendsUnfit(changes))
            && (r == Ok(()) <==> mine && !SendsUnfit(changes))
            && (r.Err? ==> after == db)
            && (r.Ok? ==>
                  && after == db.(incidents := after.incidents) && after.incidents.Keys == db.incidents.Keys
                  && (forall other :: other in db.incidents && other != id ==> after.incidents[other] == db.incidents[other])
                  && after.incidents[id] == db.incidents[id].(columns := after.incidents[id].columns)
                  && var row := db.incidents[id].columns;
                     Merges(row, changes, row, after.incidents[id].columns, now))
  {
    hide Edited, CommitUpdate, Merges, SendsUnfit;
    if id in db.incidents {
      UpdateWritesWhatWasSent(db, id, db.incidents[id].columns, changes, now);
    }
  }

  // ----- partial updates of a project -----

  datatype ProjectField = NameField | AboutField | PrimaryField | RepositoryField

  function ProjectFieldOf(c: ProjectChange): ProjectField {
    match c
    case Name(_) => NameField
    case ProjectDescription(_) => AboutField
    case PrimaryService(_) => PrimaryField
    case RepositoryUrl(_) => RepositoryField
  }

  function ProjectSent(c: ProjectChange): Option<string> {
    match c
    case Name(v) => v
    case ProjectDescription(v) => v
    case PrimaryService(v) => v
    case RepositoryUrl(v) => v
  }

  function ProjectHeld(p: Project, name: Option<string>, f: ProjectField): Option<string> {
    match f
    case NameField => name
    case AboutField => p.description
    case PrimaryField => p.primaryService
    case RepositoryField => p.repositoryUrl
  }

  /** Change `i` is the last to name the field, and sends `v`. */
  predicate ProjectLast(changes: seq<ProjectChange>, i: nat, f: ProjectField, v: Option<string>) {
    && i < |changes| && ProjectFieldOf(changes[i]) == f && ProjectSent(changes[i]) == v
    && forall j :: i < j < |changes| ==> ProjectFieldOf(changes[j]) != f
  }

  /** `v` is the value that the last change to name the field sends. */
  ghost predicate ProjectSends(changes: seq<ProjectChange>, f: ProjectField, v: Option<string>) {
    exists i: nat :: ProjectLast(changes, i, f, v)
  }

  predicate ProjectUnsent(changes: seq<ProjectChange>, f: ProjectField) {
    forall i :: 0 <= i < |changes| ==> ProjectFieldOf(changes[i]) != f
  }

  lemma {:induction false} ProjectDrafted(p: Project, name: Option<string>, changes: seq<ProjectChange>, f: ProjectField)
    ensures var (q, m) := SetProjectAttrs(p, name, changes);
            var w := ProjectHeld(q, m, f);
            && (ProjectUnsent(changes, f) ==> w == ProjectHeld(p, name, f))
            && (ProjectUnsent(changes, f) || ProjectSends(changes, f, w))
            && (forall v: Option<string> :: ProjectSends(changes, f, v) ==> v == w)
  {
    if changes != [] {
      var n := |changes| - 1;
      var last := changes[n];
      ProjectDrafted(p, name, changes[..n], f);
      ProjectAttrAsSent(p, name, changes, f);
      hide SetProjectAttrs, SetProjectAttr, ProjectHeld, ProjectFieldOf, ProjectSent;
      if ProjectFieldOf(last) == f {
        assert ProjectLast(changes, n, f, ProjectSent(last));
      } else {
        forall v: Option<string>
          ensures ProjectSends(changes, f, v) <==> ProjectSends(changes[..n], f, v)
        {
          ProjectSendsBefore(changes, f, v);
        }
      }
    }
  }

  lemma ProjectSendsBefore(changes: seq<ProjectChange>, f: ProjectField, v: Option<string>)
    requires changes != [] && ProjectFieldOf(changes[|changes| - 1]) != f
    ensures ProjectSends(changes, f, v) <==> ProjectSends(changes[..|changes| - 1], f, v)
  {
    hide ProjectFieldOf, ProjectSent;
    var before := changes[..|changes| - 1];
    assert forall k :: 0 <= k < |before| ==> before[k] == changes[k];
    if i: nat :| ProjectLast(changes, i, f, v) {
      assert ProjectLast(before, i, f, v);
    }
    if i: nat :| ProjectLast(before, i, f, v) {
      assert ProjectLast(changes, i, f, v);
    }
  }

  lemma ProjectAttrAsSent(p: Project, name: Option<string>, changes: seq<ProjectChange>, f: ProjectField)
    requires changes != []
    ensures var n := |changes| - 1;
            var ((q, m), (q', m')) := (SetProjectAttrs(p, name, changes[..n]), SetProjectAttrs(p, name, changes));
            ProjectHeld(q', m', f) == if ProjectFieldOf(changes[n]) == f then ProjectSent(changes[n]) else ProjectHeld(q, m, f)
  {
  }

  /**
   * A project update is refused to every role but owner and admin, then for a project of another
   * organization, then for a null name; otherwise every field sent takes its last value and every
   * other one stays.
   */
  lemma ProjectUpdateWritesWhatWasSent(db: Db, org: nat, role: string, id: nat, changes: seq<ProjectChange>)
    ensures var (after, r) := UpdateProject(db, org, role, id, changes);
            var allowed, mine := role == "owner" || role == "admin", id in db.projects && db.projects[id].org == org;
            && (r == Err(Forbidden) <==> !allowed)
            && (r == Err(NotFound) <==> allowed && !mine)
            && (r == Ok(()) <==> allowed && mine && !ProjectSends(changes, NameField, None))
            && (r.Err? ==> after == db)
            && (r.Ok? ==>
                  && after == db.(projects := after.projects) && after.projects.Keys == db.projects.Keys
                  && (forall other :: other in db.projects && other != id ==> after.projects[other] == db.projects[other])
                  && var was, row := db.projects[id], after.projects[id];
                     && row.org == was.org && row.key == was.key
                     && (forall v :: ProjectSends(changes, NameField, Some(v)) ==> row.name == v)
                     && (ProjectUnsent(changes, NameField) ==> row.name == was.name)
                     && (forall v :: ProjectSends(changes, AboutField, v) ==> row.description == v)
                     && (ProjectUnsent(changes, AboutField) ==> row.description == was.description)
                     && (forall v :: ProjectSends(changes, PrimaryField, v) ==> row.primaryService == v)
                     && (ProjectUnsent(changes, PrimaryField) ==> row.primaryService == was.primaryService)
                     && (forall v :: ProjectSends(changes, RepositoryField, v) ==> row.repositoryUrl == v)
                     && (ProjectUnsent(changes, RepositoryField) ==> row.repositoryUrl == was.repositoryUrl))
  {
    hide SetProjectAttrs, ProjectSends, ProjectUnsent;
    if id in db.projects {
      var p := db.projects[id];
      SetProjectAttrsKeepsKey(p, Some(p.name), changes);
      ProjectDrafted(p, Some(p.name), changes, NameField);
      ProjectDrafted(p, Some(p.name), changes, AboutField);
      ProjectDrafted(p, Some(p.name), changes, PrimaryField);
      ProjectDrafted(p, Some(p.name), changes, RepositoryField);
    }
  }
}
