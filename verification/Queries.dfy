/**
 * Lists, pages, counts and the dashboard as queries over the tables
 * (repositories/incident_repository.py, repositories/project_repository.py).
 */
module Queries {
  import opened Prelude
  import opened Database
  import History

  const MAX_PAGE_SIZE: nat := 100
  const RECENT_ON_DASHBOARD: nat := 8
  const OPEN_STATUSES: seq<Status> := [Open, Investigating, Mitigated]

  /** An empty `statuses` means no status filter. */
  datatype Filter = Filter(org: nat, project: Option<nat>, statuses: seq<Status>)

  predicate Selects(f: Filter, i: Incident) {
    && i.org == f.org
    && (f.project.Some? ==> i.project == f.project.value)
    && (f.statuses != [] ==> i.columns.status in f.statuses)
  }

  function Rows(db: Db, f: Filter): set<nat> {
    set id | id in db.incidents && Selects(f, db.incidents[id])
  }

  /** `count_for_organization` */
  function CountRows(db: Db, f: Filter): nat {
    |Rows(db, f)|
  }

  /** ORDER BY started_at DESC, id DESC */
  predicate Precedes(db: Db, a: nat, b: nat)
    requires a in db.incidents && b in db.incidents
  {
    var s, t := db.incidents[a].columns.startedAt, db.incidents[b].columns.startedAt;
    s > t || (s == t && a > b)
  }

  predicate Listed(db: Db, ids: seq<nat>) {
    forall i :: 0 <= i < |ids| ==> ids[i] in db.incidents
  }

  function Elems(ids: seq<nat>): set<nat> {
    set id | id in ids
  }

  /** `ids` lists exactly `rows`, each once, newest first. */
  predicate IsRanking(db: Db, rows: set<nat>, ids: seq<nat>) {
    && Listed(db, ids)
    && Elems(ids) == rows
    && forall i, j :: 0 <= i < j < |ids| ==> Precedes(db, ids[i], ids[j])
  }

  ghost predicate IsFirst(db: Db, rows: set<nat>, x: nat)
    requires rows <= db.incidents.Keys
  {
    x in rows && forall y :: y in rows && y != x ==> Precedes(db, x, y)
  }

  lemma FirstOfMore(db: Db, rows: set<nat>, x: nat, z: nat)
    requires rows <= db.incidents.Keys && x in rows && IsFirst(db, rows - {x}, z)
    ensures IsFirst(db, rows, if Precedes(db, x, z) then x else z)
  {
    forall y | y in rows && y != x && y != z
      ensures Precedes(db, z, y)
    {
      assert y in rows - {x};
    }
  }

  lemma {:induction false} FirstExists(db: Db, rows: set<nat>)
    requires rows <= db.incidents.Keys && rows != {}
    ensures exists x :: IsFirst(db, rows, x)
  {
    var x :| x in rows;
    if rows == {x} {
      assert IsFirst(db, rows, x);
    } else {
      FirstExists(db, rows - {x});
      var z :| IsFirst(db, rows - {x}, z);
      FirstOfMore(db, rows, x, z);
    }
  }

  lemma RankingCons(db: Db, rows: set<nat>, x: nat, rest: seq<nat>)
    requires rows <= db.incidents.Keys && x in rows && IsRanking(db, rows - {x}, rest)
    requires IsFirst(db, rows, x)
    ensures IsRanking(db, rows, [x] + rest)
  {
    var ids := [x] + rest;
    assert forall i :: 0 <= i < |rest| ==> rest[i] in rest && rest[i] in Elems(rest);
    assert Elems(ids) == {x} + Elems(rest);
  }

  /** The ordered result set, before LIMIT and OFFSET. */
  ghost function Ranking(db: Db, rows: set<nat>): (ids: seq<nat>)
    requires rows <= db.incidents.Keys
    ensures IsRanking(db, rows, ids)
    ensures |ids| == |rows|
  {
    if rows == {} then []
    else
      FirstExists(db, rows);
      var x :| IsFirst(db, rows, x);
      RankingCons(db, rows, x, Ranking(db, rows - {x}));
      [x] + Ranking(db, rows - {x})
  }

  lemma RankingEmpty(db: Db, rows: set<nat>, a: seq<nat>)
    requires IsRanking(db, rows, a)
    ensures a == [] <==> rows == {}
  {
    if a == [] {
      assert Elems(a) == {};
    } else {
      assert a[0] in a && a[0] in Elems(a);
    }
  }

  /** The ordering leaves no choice: there is one ranking of a set of rows. */
  lemma {:induction false} RankingUnique(db: Db, rows: set<nat>, a: seq<nat>, b: seq<nat>)
    requires IsRanking(db, rows, a) && IsRanking(db, rows, b)
    ensures a == b
    decreases |a|
  {
    RankingEmpty(db, rows, a);
    RankingEmpty(db, rows, b);
    if rows != {} {
      assert a[0] in a && a[0] in Elems(a) && b[0] in b && b[0] in Elems(b);
      var i :| 0 <= i < |b| && b[i] == a[0];
      var j :| 0 <= j < |a| && a[j] == b[0];
      assert a[0] == b[0];
      RankingTail(db, rows, a);
      RankingTail(db, rows, b);
      RankingUnique(db, rows - {a[0]}, a[1..], b[1..]);
      assert a == [a[0]] + a[1..] && b == [b[0]] + b[1..];
    }
  }

  lemma RankingTail(db: Db, rows: set<nat>, a: seq<nat>)
    requires IsRanking(db, rows, a) && a != []
    ensures IsRanking(db, rows - {a[0]}, a[1..])
  {
    forall id | id in Elems(a[1..])
      ensures id != a[0]
    {
      var k :| 0 <= k < |a| - 1 && a[1..][k] == id;
      assert Precedes(db, a[0], a[k + 1]);
    }
    assert a == [a[0]] + a[1..];
    assert Elems(a) == {a[0]} + Elems(a[1..]);
  }

  /** LIMIT min(limit, 100) OFFSET offset */
  function Slice(ids: seq<nat>, limit: nat, offset: nat): seq<nat> {
    var lo := Min(offset, |ids|);
    ids[lo..Min(lo + Min(limit, MAX_PAGE_SIZE), |ids|)]
  }

  /** `list_for_organization` */
  ghost function ListPage(db: Db, f: Filter, limit: nat, offset: nat): seq<nat> {
    Slice(Ranking(db, Rows(db, f)), limit, offset)
  }

  /** The first `pages` pages at offsets 0, limit, 2 * limit, ..., one after the other. */
  function PagesOf(ids: seq<nat>, limit: nat, pages: nat): seq<nat> {
    if pages == 0 then [] else PagesOf(ids, limit, pages - 1) + Slice(ids, limit, (pages - 1) * limit)
  }

  ghost function Pages(db: Db, f: Filter, limit: nat, pages: nat): seq<nat> {
    PagesOf(Ranking(db, Rows(db, f)), limit, pages)
  }

  lemma OneMorePage(limit: nat, pages: nat)
    requires pages > 0
    ensures pages * limit == (pages - 1) * limit + limit && (pages - 1) * limit >= 0
  {
  }

  lemma SliceWithinCap(ids: seq<nat>, limit: nat, at: nat)
    requires limit <= MAX_PAGE_SIZE
    ensures Slice(ids, limit, at) == ids[Min(at, |ids|)..Min(at + limit, |ids|)]
  {
  }

  lemma {:induction false} PagesPrefix(ids: seq<nat>, limit: nat, pages: nat)
    requires 1 <= limit <= MAX_PAGE_SIZE
    ensures PagesOf(ids, limit, pages) == ids[..Min(pages * limit, |ids|)]
  {
    hide Slice;
    if pages > 0 {
      PagesPrefix(ids, limit, pages - 1);
      var at := (pages - 1) * limit;
      OneMorePage(limit, pages);
      SliceWithinCap(ids, limit, at);
      SlicesJoin(ids, Min(at, |ids|), Min(at + limit, |ids|));
    }
  }

  lemma SlicesJoin(ids: seq<nat>, a: nat, b: nat)
    requires a <= b <= |ids|
    ensures ids[..a] + ids[a..b] == ids[..b]
  {
  }

  /** Enough pages of this size reproduce every result set, in order and each row once. */
  ghost predicate Tiles(limit: nat) {
    forall db: Db, f: Filter, pages: nat ::
      CountRows(db, f) <= pages * limit ==> Pages(db, f, limit, pages) == Ranking(db, Rows(db, f))
  }

  /** `n` open incidents of organization 1. */
  function Numbered(n: nat): (m: map<nat, Incident>)
    ensures |m| == n && forall id :: id in m ==> id < n && m[id].org == 1
  {
    if n == 0 then map[]
    else Numbered(n - 1)[n - 1 := Incident(1, 1, 1, Columns("t", None, "SEV-3", Open, "manual", None, 0.0, None, 0.0, 0.0))]
  }

  lemma OversizedPageLosesARow(limit: nat)
    requires limit > MAX_PAGE_SIZE
    ensures !Tiles(limit)
  {
    hide Ranking, PagesOf, Slice, Numbered, IsRanking;
    var db, f := Db(map[], Numbered(101), 1, 101), Filter(1, None, []);
    assert Rows(db, f) == db.incidents.Keys;
    var ids := Ranking(db, Rows(db, f));
    FirstPageIsShort(ids, limit);
    assert Pages(db, f, limit, 1) != ids && CountRows(db, f) <= 1 * limit;
  }

  lemma FirstPageIsShort(ids: seq<nat>, limit: nat)
    requires |ids| > MAX_PAGE_SIZE && limit >= MAX_PAGE_SIZE
    ensures |PagesOf(ids, limit, 1)| == MAX_PAGE_SIZE
  {
    assert PagesOf(ids, limit, 0) == [];
    assert (1 - 1) * limit == 0;
  }

  /** Paging partitions every result set exactly for page sizes the cap does not cut. */
  lemma TilesIff(limit: nat)
    requires limit >= 1
    ensures Tiles(limit) <==> limit <= MAX_PAGE_SIZE
  {
    if limit > MAX_PAGE_SIZE {
      OversizedPageLosesARow(limit);
    } else {
      forall db: Db, f: Filter, pages: nat | CountRows(db, f) <= pages * limit
        ensures Pages(db, f, limit, pages) == Ranking(db, Rows(db, f))
      {
        var ids := Ranking(db, Rows(db, f));
        PagesPrefix(ids, limit, pages);
        assert ids[..|ids|] == ids;
      }
    }
  }

  // ----- counts -----

  /** `count_open_incidents_by_project`: one GROUP BY over the organization's open incidents. */
  function OpenByProject(db: Db, org: nat): map<nat, nat> {
    map p | p in ProjectsOf(db, Rows(db, Filter(org, None, OPEN_STATUSES))) :: |OpenOf(db, org, p)|
  }

  function ProjectsOf(db: Db, rows: set<nat>): set<nat>
    requires rows <= db.incidents.Keys
  {
    set id | id in rows :: db.incidents[id].project
  }

  function OpenOf(db: Db, org: nat, project: nat): set<nat> {
    set id | id in Rows(db, Filter(org, None, OPEN_STATUSES)) && db.incidents[id].project == project
  }

  /** `order` enumerates the organization's projects, in whatever order their names put them. */
  ghost predicate IsProjectList(db: Db, org: nat, order: seq<nat>) {
    && (forall p :: p in order <==> p in db.projects && db.projects[p].org == org)
    && (forall i, j :: 0 <= i < j < |order| ==> order[i] != order[j])
  }

  /** `list_projects`, reduced to its counts. */
  function OpenCounts(db: Db, org: nat, order: seq<nat>): seq<nat> {
    seq(|order|, i requires 0 <= i < |order| =>
      if order[i] in OpenByProject(db, org) then OpenByProject(db, org)[order[i]] else 0)
  }

  function Sum(counts: seq<nat>): nat {
    if counts == [] then 0 else Sum(counts[..|counts| - 1]) + counts[|counts| - 1]
  }

  function OpenIn(db: Db, org: nat, projects: seq<nat>): set<nat> {
    set id | id in Rows(db, Filter(org, None, OPEN_STATUSES)) && db.incidents[id].project in projects
  }

  /** `counts.get(project.id, 0)` is the number of open incidents of that project. */
  lemma GroupCount(db: Db, org: nat, p: nat)
    ensures (if p in OpenByProject(db, org) then OpenByProject(db, org)[p] else 0) == |OpenOf(db, org, p)|
  {
    var open := Rows(db, Filter(org, None, OPEN_STATUSES));
    if p !in OpenByProject(db, org) {
      assert forall id :: id in open ==> db.incidents[id].project in ProjectsOf(db, open);
      assert OpenOf(db, org, p) == {};
    }
  }

  lemma OpenInStep(db: Db, org: nat, order: seq<nat>)
    requires order != [] && forall i, j :: 0 <= i < j < |order| ==> order[i] != order[j]
    ensures var n := |order| - 1;
            |OpenIn(db, org, order)| == |OpenIn(db, org, order[..n])| + |OpenOf(db, org, order[n])|
  {
    var n := |order| - 1;
    assert order == order[..n] + [order[n]];
    assert OpenIn(db, org, order) == OpenIn(db, org, order[..n]) + OpenOf(db, org, order[n]);
    assert order[n] !in order[..n];
    assert OpenIn(db, org, order[..n]) !! OpenOf(db, org, order[n]);
  }

  lemma {:induction false} CountsAddUp(db: Db, org: nat, order: seq<nat>)
    requires forall i, j :: 0 <= i < j < |order| ==> order[i] != order[j]
    ensures Sum(OpenCounts(db, org, order)) == |OpenIn(db, org, order)|
  {
    if order == [] {
      assert OpenIn(db, org, order) == {};
    } else {
      var n := |order| - 1;
      CountsAddUp(db, org, order[..n]);
      assert OpenCounts(db, org, order)[..n] == OpenCounts(db, org, order[..n]);
      GroupCount(db, org, order[n]);
      OpenInStep(db, org, order);
    }
  }

  datatype Dashboard = Dashboard(openIncidents: nat, totalIncidents: nat, projectCount: nat, recent: seq<nat>)

  /** `dashboard_summary` */
  ghost function Summary(db: Db, org: nat, order: seq<nat>): Dashboard {
    Dashboard(CountRows(db, Filter(org, None, OPEN_STATUSES)), CountRows(db, Filter(org, None, [])),
              |OpenCounts(db, org, order)|, ListPage(db, Filter(org, None, []), RECENT_ON_DASHBOARD, 0))
  }

  lemma StatusSplit(s: Status)
    ensures s in OPEN_STATUSES <==> s !in [Resolved, Closed]
    ensures s in OPEN_STATUSES <==> !Terminal(s)
  {
    assert Open in OPEN_STATUSES && Investigating in OPEN_STATUSES && Mitigated in OPEN_STATUSES by {
      assert OPEN_STATUSES[0] == Open && OPEN_STATUSES[1] == Investigating && OPEN_STATUSES[2] == Mitigated;
    }
    match s
    case Open => case Investigating => case Mitigated => case Resolved => case Closed =>
  }

  lemma OpenAndTerminal(db: Db, org: nat)
    ensures CountRows(db, Filter(org, None, OPEN_STATUSES)) + CountRows(db, Filter(org, None, [Resolved, Closed]))
         == CountRows(db, Filter(org, None, []))
  {
    var open, closed := Rows(db, Filter(org, None, OPEN_STATUSES)), Rows(db, Filter(org, None, [Resolved, Closed]));
    forall id | id in db.incidents
      ensures db.incidents[id].columns.status in OPEN_STATUSES <==> db.incidents[id].columns.status !in [Resolved, Closed]
    {
      StatusSplit(db.incidents[id].columns.status);
    }
    assert Rows(db, Filter(org, None, [])) == open + closed;
    assert open !! closed;
  }

  /**
   * After every run, the open counts on an organization's project cards add up to its dashboard's
   * `open_incidents`, and open plus terminal incidents make `total_incidents`.
   */
  lemma OpenCountConservation(run: seq<History.Timed>, n: nat, org: nat, order: seq<nat>)
    requires n <= |run| && IsProjectList(History.After(run, n), org, order)
    ensures var db := History.After(run, n);
            var summary := Summary(db, org, order);
            && Sum(OpenCounts(db, org, order)) == summary.openIncidents
            && summary.openIncidents + CountRows(db, Filter(org, None, [Resolved, Closed])) == summary.totalIncidents
  {
    var db := History.After(run, n);
    History.AlwaysConsistent(run, n);
    CountsAddUp(db, org, order);
    OpenAndTerminal(db, org);
    assert OpenIn(db, org, order) == Rows(db, Filter(org, None, OPEN_STATUSES));
  }

  /** Lists and dashboard are determined by the organization's own rows. */
  lemma QueriesFromRows(a: Db, b: Db, f: Filter, limit: nat, offset: nat)
    requires History.RowsOf(a, f.org).1 == History.RowsOf(b, f.org).1
    ensures Rows(a, f) == Rows(b, f) && ListPage(a, f, limit, offset) == ListPage(b, f, limit, offset)
  {
    hide Selects, IsRanking, Ranking, History.RowsOf;
    RowsFromRows(a, f);
    RowsFromRows(b, f);
    var x := Ranking(a, Rows(a, f));
    SameOrder(a, b, f, x);
    RankingUnique(b, Rows(b, f), x, Ranking(b, Rows(b, f)));
  }

  /** The rows a filter selects are the organization's own that pass it. */
  lemma RowsFromRows(db: Db, f: Filter)
    ensures var rows := History.RowsOf(db, f.org).1;
            Rows(db, f) == set id | id in rows && Selects(f, rows[id])
  {
    var rows := History.RowsOf(db, f.org).1;
    assert forall id :: id in Rows(db, f) <==> id in rows && Selects(f, rows[id]);
  }

  /** A ranking in one table is one in any that holds the organization's same rows. */
  lemma SameOrder(a: Db, b: Db, f: Filter, x: seq<nat>)
    requires History.RowsOf(a, f.org).1 == History.RowsOf(b, f.org).1 && IsRanking(a, Rows(a, f), x)
    ensures IsRanking(b, Rows(a, f), x)
  {
    hide Elems;
    forall i | 0 <= i < |x|
      ensures x[i] in b.incidents && b.incidents[x[i]] == a.incidents[x[i]]
    {
      assert x[i] in Rows(a, f) by { InElems(x, i); }
      assert x[i] in History.RowsOf(a, f.org).1 && x[i] in History.RowsOf(b, f.org).1;
    }
  }

  lemma InElems(x: seq<nat>, i: nat)
    requires i < |x|
    ensures x[i] in Elems(x)
  {
  }

  /** A request of one organization changes no other organization's list, page or count. */
  lemma OtherTenantsListsUntouched(db: Db, t: History.Timed, f: Filter, limit: nat, offset: nat)
    requires Consistent(db) && t.action.org != f.org
    ensures CountRows(History.Apply(db, t), f) == CountRows(db, f)
    ensures ListPage(History.Apply(db, t), f, limit, offset) == ListPage(db, f, limit, offset)
  {
    History.OtherTenantsUntouched(db, t, f.org);
    QueriesFromRows(History.Apply(db, t), db, f, limit, offset);
  }

  /** A request of one organization leaves the project list, dashboard and project cards of every other as they were. */
  lemma OtherTenantsDashboardUntouched(db: Db, t: History.Timed, org: nat, order: seq<nat>)
    requires Consistent(db) && t.action.org != org
    ensures IsProjectList(History.Apply(db, t), org, order) <==> IsProjectList(db, org, order)
    ensures Summary(History.Apply(db, t), org, order) == Summary(db, org, order)
    ensures OpenCounts(History.Apply(db, t), org, order) == OpenCounts(db, org, order)
  {
    var after := History.Apply(db, t);
    ProjectListUntouched(db, t, org, order);
    OtherTenantsListsUntouched(db, t, Filter(org, None, OPEN_STATUSES), RECENT_ON_DASHBOARD, 0);
    OtherTenantsListsUntouched(db, t, Filter(org, None, []), RECENT_ON_DASHBOARD, 0);
    forall i | 0 <= i < |order|
      ensures OpenCounts(after, org, order)[i] == OpenCounts(db, org, order)[i]
    {
      GroupCount(db, org, order[i]);
      GroupCount(after, org, order[i]);
      OpenOfUntouched(db, t, org, order[i]);
    }
  }

  lemma ProjectListUntouched(db: Db, t: History.Timed, org: nat, order: seq<nat>)
    requires Consistent(db) && t.action.org != org
    ensures IsProjectList(History.Apply(db, t), org, order) <==> IsProjectList(db, org, order)
  {
    hide History.Apply;
    History.OtherTenantsUntouched(db, t, org);
    ProjectListFromRows(db, org, order);
    ProjectListFromRows(History.Apply(db, t), org, order);
  }

  lemma ProjectListFromRows(db: Db, org: nat, order: seq<nat>)
    ensures IsProjectList(db, org, order)
       <==> && (forall p :: p in order <==> p in History.RowsOf(db, org).0)
            && (forall i, j :: 0 <= i < j < |order| ==> order[i] != order[j])
  {
    assert forall p :: p in History.RowsOf(db, org).0 <==> p in db.projects && db.projects[p].org == org;
  }

  lemma OpenOfUntouched(db: Db, t: History.Timed, org: nat, project: nat)
    requires Consistent(db) && t.action.org != org
    ensures OpenOf(History.Apply(db, t), org, project) == OpenOf(db, org, project)
  {
    History.OtherTenantsUntouched(db, t, org);
    var after, rows := History.Apply(db, t), History.RowsOf(db, org).1;
    assert rows == History.RowsOf(after, org).1;
    forall id
      ensures id in OpenOf(after, org, project) <==> id in OpenOf(db, org, project)
    {
      assert id in OpenOf(db, org, project) ==> id in rows && rows[id] == db.incidents[id];
      assert id in OpenOf(after, org, project) ==> id in rows && rows[id] == after.incidents[id];
    }
  }

  // ----- list_incidents -----

  function StatusNamed(name: string): Option<Status> {
    if name == "OPEN" then Some(Open)
    else if name == "INVESTIGATING" then Some(Investigating)
    else if name == "MITIGATED" then Some(Mitigated)
    else if name == "RESOLVED" then Some(Resolved)
    else if name == "CLOSED" then Some(Closed)
    else None
  }

  /** `_statuses_for_filter`, given what `str.upper()` makes of the text. */
  function StatusesForFilter(status: Option<string>, upper: string -> string): Result<seq<Status>, Error> {
    if status.None? || status.value == "" then Ok([])
    else
      var normalized := upper(status.value);
      if normalized == "OPEN_ONLY" then Ok(OPEN_STATUSES)
      else if StatusNamed(normalized).Some? then Ok([StatusNamed(normalized).value])
      else Err(Invalid)
  }

  /** The filter `list_incidents` builds: the project must be the caller's, then the status must be known. */
  function FilterFor(db: Db, org: nat, project: Option<nat>, status: Option<string>, upper: string -> string)
    : Result<Filter, Error>
  {
    if project.Some? && GetProject(db, org, project.value).Err? then Err(NotFound)
    else
      var statuses := StatusesForFilter(status, upper);
      if statuses.Err? then Err(statuses.error) else Ok(Filter(org, project, statuses.value))
  }

  /** `list_incidents`: one page and the total. */
  ghost function ListIncidents(db: Db, org: nat, project: Option<nat>, status: Option<string>, upper: string -> string,
                               limit: nat, offset: nat): Result<(seq<nat>, nat), Error> {
    var f := FilterFor(db, org, project, status, upper);
    if f.Err? then Err(f.error) else Ok((ListPage(db, f.value, limit, offset), CountRows(db, f.value)))
  }

  /** The constant that a status is stored as. */
  function Constant(s: Status): string {
    match s
    case Open => "OPEN"
    case Investigating => "INVESTIGATING"
    case Mitigated => "MITIGATED"
    case Resolved => "RESOLVED"
    case Closed => "CLOSED"
  }

  /** A status passes: any if none is asked for, the non-terminal ones for OPEN_ONLY, else the one that is named. */
  predicate Passes(s: Status, status: Option<string>, upper: string -> string) {
    status.Some? && status.value != "" ==>
      if upper(status.value) == "OPEN_ONLY" then s != Resolved && s != Closed else upper(status.value) == Constant(s)
  }

  /** The incidents that a list request asks for. */
  function Requested(db: Db, org: nat, project: Option<nat>, status: Option<string>, upper: string -> string): set<nat> {
    set id | id in db.incidents && db.incidents[id].org == org
      && (project.Some? ==> db.incidents[id].project == project.value)
      && Passes(db.incidents[id].columns.status, status, upper)
  }

  /** `ids` holds exactly `rows`, latest start first and the higher id first among equal starts. */
  ghost predicate NewestFirst(db: Db, rows: set<nat>, ids: seq<nat>) {
    && (forall id :: id in ids <==> id in rows)
    && (forall id :: id in ids ==> id in db.incidents)
    && (forall i, j :: 0 <= i < j < |ids| ==>
          || db.incidents[ids[i]].columns.startedAt > db.incidents[ids[j]].columns.startedAt
          || (db.incidents[ids[i]].columns.startedAt == db.incidents[ids[j]].columns.startedAt && ids[i] > ids[j]))
  }

  lemma RankingIsNewestFirst(db: Db, rows: set<nat>, ids: seq<nat>)
    ensures IsRanking(db, rows, ids) <==> NewestFirst(db, rows, ids)
  {
    assert forall id :: id in ids <==> id in Elems(ids);
    assert (forall id :: id in ids ==> id in db.incidents) <==> Listed(db, ids);
  }

  lemma NamedConstant(s: Status, name: string)
    ensures StatusNamed(name) == Some(s) <==> name == Constant(s)
  {
  }

  lemma StatusPasses(s: Status, status: Option<string>, upper: string -> string)
    requires StatusesForFilter(status, upper).Ok?
    ensures var statuses := StatusesForFilter(status, upper).value;
            (statuses == [] || s in statuses) <==> Passes(s, status, upper)
  {
    hide Constant, StatusNamed;
    StatusSplit(s);
    if status.Some? && status.value != "" {
      NamedConstant(s, upper(status.value));
    }
  }

  /** A list request fails exactly for a project that is not the caller's, and then for a status nobody defined. */
  lemma ListRefusedIff(db: Db, org: nat, project: Option<nat>, status: Option<string>, upper: string -> string,
                       limit: nat, offset: nat)
    ensures var r := ListIncidents(db, org, project, status, upper, limit, offset);
            var foreign := project.Some? && !(project.value in db.projects && db.projects[project.value].org == org);
            var unknown := status.Some? && status.value != "" && upper(status.value) != "OPEN_ONLY"
                           && forall s: Status :: upper(status.value) != Constant(s);
            && (r == Err(NotFound) <==> foreign)
            && (r == Err(Invalid) <==> !foreign && unknown)
            && (r.Ok? <==> !foreign && !unknown)
  {
    hide ListPage, CountRows;
    if status.Some? {
      var name := upper(status.value);
      NamedConstant(Open, name);
      NamedConstant(Investigating, name);
      NamedConstant(Mitigated, name);
      NamedConstant(Resolved, name);
      NamedConstant(Closed, name);
      assert StatusNamed(name).Some? <==> exists s: Status :: name == Constant(s);
    }
  }

  lemma RequestedRows(db: Db, org: nat, project: Option<nat>, status: Option<string>, upper: string -> string)
    requires FilterFor(db, org, project, status, upper).Ok?
    ensures Rows(db, FilterFor(db, org, project, status, upper).value) == Requested(db, org, project, status, upper)
  {
    hide Passes, StatusesForFilter;
    var f := FilterFor(db, org, project, status, upper).value;
    forall id | id in db.incidents
      ensures id in Rows(db, f) <==> id in Requested(db, org, project, status, upper)
    {
      StatusPasses(db.incidents[id].columns.status, status, upper);
    }
  }

  /**
   * Any page of any list: the total is the number of incidents asked for, and the page is the part of
   * their one ordering, newest first, that starts at the offset and has `limit` rows, or 100 if that is less.
   */
  lemma PageExact(db: Db, org: nat, project: Option<nat>, status: Option<string>, upper: string -> string,
                  limit: nat, offset: nat, all: seq<nat>)
    requires ListIncidents(db, org, project, status, upper, limit, offset).Ok?
    requires NewestFirst(db, Requested(db, org, project, status, upper), all)
    ensures var (page, total) := ListIncidents(db, org, project, status, upper, limit, offset).value;
            var size := if limit <= 100 then limit else 100;
            && total == |Requested(db, org, project, status, upper)| == |all|
            && (offset >= |all| ==> page == [])
            && (offset < |all| ==> page == if offset + size <= |all| then all[offset..offset + size] else all[offset..])
  {
    hide IsRanking, NewestFirst, Requested, Selects, StatusesForFilter;
    var f := FilterFor(db, org, project, status, upper).value;
    RequestedRows(db, org, project, status, upper);
    RankingIsNewestFirst(db, Rows(db, f), all);
    RankingUnique(db, Rows(db, f), all, Ranking(db, Rows(db, f)));
  }

  /** The rows of all pages that a client walking through `list_incidents` collects. */
  ghost function Walk(db: Db, org: nat, project: Option<nat>, status: Option<string>, upper: string -> string,
                      limit: nat, pages: nat): seq<nat>
  {
    if pages == 0 then []
    else
      var page := ListIncidents(db, org, project, status, upper, limit, (pages - 1) * limit);
      Walk(db, org, project, status, upper, limit, pages - 1) + if page.Ok? then page.value.0 else []
  }

  lemma {:induction false} WalkIsPages(db: Db, org: nat, project: Option<nat>, status: Option<string>,
                                       upper: string -> string, limit: nat, pages: nat)
    requires FilterFor(db, org, project, status, upper).Ok?
    ensures Walk(db, org, project, status, upper, limit, pages)
         == Pages(db, FilterFor(db, org, project, status, upper).value, limit, pages)
  {
    if pages > 0 {
      WalkIsPages(db, org, project, status, upper, limit, pages - 1);
    }
  }

  /**
   * For page sizes 1 to 100, walking the pages until the reported total is covered collects exactly
   * the incidents of the caller's organization and of the project asked for whose status passes, once
   * each and newest first; there are exactly `total` of them.
   */
  lemma WalkCollectsAll(db: Db, org: nat, project: Option<nat>, status: Option<string>, upper: string -> string,
                        limit: nat, pages: nat)
    requires 1 <= limit <= 100 && ListIncidents(db, org, project, status, upper, limit, 0).Ok?
    requires ListIncidents(db, org, project, status, upper, limit, 0).value.1 <= pages * limit
    ensures var ids := Walk(db, org, project, status, upper, limit, pages);
            && NewestFirst(db, Requested(db, org, project, status, upper), ids)
            && |ids| == ListIncidents(db, org, project, status, upper, limit, 0).value.1
  {
    hide IsRanking, NewestFirst, Requested, StatusesForFilter;
    WalkIsPages(db, org, project, status, upper, limit, pages);
    TilesIff(limit);
    var f := FilterFor(db, org, project, status, upper).value;
    assert Pages(db, f, limit, pages) == Ranking(db, Rows(db, f));
    RequestedRows(db, org, project, status, upper);
    RankingIsNewestFirst(db, Rows(db, f), Ranking(db, Rows(db, f)));
  }

  // ----- the dashboard, row by row -----

  function IncidentsOf(db: Db, org: nat): set<nat> {
    set id | id in db.incidents && db.incidents[id].org == org
  }

  function Unfinished(db: Db, rows: set<nat>): set<nat> {
    set id | id in rows && id in db.incidents
      && db.incidents[id].columns.status != Resolved && db.incidents[id].columns.status != Closed
  }

  lemma OpenRows(db: Db, org: nat)
    ensures Rows(db, Filter(org, None, OPEN_STATUSES)) == Unfinished(db, IncidentsOf(db, org))
    ensures Rows(db, Filter(org, None, [])) == IncidentsOf(db, org)
  {
    hide StatusNamed;
    forall id | id in db.incidents
      ensures db.incidents[id].columns.status in OPEN_STATUSES
         <==> db.incidents[id].columns.status != Resolved && db.incidents[id].columns.status != Closed
    {
      StatusSplit(db.incidents[id].columns.status);
    }
  }

  /**
   * The dashboard counts the organization's unfinished incidents, all its incidents and its projects, and
   * shows the first eight of all its incidents, whatever their status, newest first. A project card shows
   * the number of the project's unfinished incidents.
   */
  lemma DashboardExact(db: Db, org: nat, order: seq<nat>, all: seq<nat>)
    requires IsProjectList(db, org, order) && NewestFirst(db, IncidentsOf(db, org), all)
    ensures var d := Summary(db, org, order);
            && d.openIncidents == |Unfinished(db, IncidentsOf(db, org))|
            && d.totalIncidents == |IncidentsOf(db, org)|
            && d.projectCount == |(set p | p in db.projects && db.projects[p].org == org)|
            && d.recent == (if |all| <= 8 then all else all[..8])
    ensures forall i :: 0 <= i < |order| ==>
              OpenCounts(db, org, order)[i]
              == |Unfinished(db, set id | id in IncidentsOf(db, org) && db.incidents[id].project == order[i])|
  {
    hide IsRanking, NewestFirst, Rows, Unfinished;
    OpenRows(db, org);
    var rows := Rows(db, Filter(org, None, []));
    RankingIsNewestFirst(db, rows, all);
    RankingUnique(db, rows, all, Ranking(db, rows));
    DistinctCount(order);
    assert Elems(order) == set p | p in db.projects && db.projects[p].org == org;
    hide OpenCounts, OpenByProject, OpenOf;
    CardsExact(db, org, order);
  }

  lemma CardsExact(db: Db, org: nat, order: seq<nat>)
    ensures forall i :: 0 <= i < |order| ==>
              OpenCounts(db, org, order)[i]
              == |Unfinished(db, set id | id in IncidentsOf(db, org) && db.incidents[id].project == order[i])|
  {
    hide Selects;
    OpenRows(db, org);
    forall i | 0 <= i < |order|
      ensures OpenCounts(db, org, order)[i]
           == |Unfinished(db, set id | id in IncidentsOf(db, org) && db.incidents[id].project == order[i])|
    {
      GroupCount(db, org, order[i]);
      assert OpenOf(db, org, order[i])
          == Unfinished(db, set id | id in IncidentsOf(db, org) && db.incidents[id].project == order[i]);
    }
  }

  lemma {:induction false} DistinctCount(ids: seq<nat>)
    requires forall i, j :: 0 <= i < j < |ids| ==> ids[i] != ids[j]
    ensures |Elems(ids)| == |ids|
  {
    if ids != [] {
      var n := |ids| - 1;
      DistinctCount(ids[..n]);
      assert ids == ids[..n] + [ids[n]];
      assert ids[n] !in ids[..n];
      assert Elems(ids) == Elems(ids[..n]) + {ids[n]};
    }
  }

  /** Another organization's project cannot be told from one that does not exist. */
  lemma ForeignProjectIsNotFound(db: Db, org: nat, project: nat, status: Option<string>, upper: string -> string,
                                 limit: nat, offset: nat)
    ensures ListIncidents(db, org, Some(project), status, upper, limit, offset) == Err(NotFound)
       <==> !(project in db.projects && db.projects[project].org == org)
  {
  }
}
