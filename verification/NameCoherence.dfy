/** When the project name inside a cached incident is the committed one: renames invalidate nothing. */
module NameCoherence {
  import opened Prelude
  import opened Database
  import opened Protocol
  import opened Versions
  import Coherence
  import History

  /** The project name in this entry is no longer the committed one. */
  predicate NameStale(s: State, e: Entry)
    requires s.log != []
  {
    var now := View(Current(s), e.org, e.id);
    now.Ok? && e.payload.projectName != now.value.projectName
  }

  /** The latest commit after version `from` that edited the project. */
  predicate LastEdit(log: seq<Commit>, from: nat, v: nat, p: nat) {
    && from < v < |log| && log[v].edited == Some(p) && p in log[v].db.projects
    && forall w :: v < w < |log| ==> log[w].edited != Some(p)
  }

  lemma ViewName(db: Db, org: nat, id: nat)
    requires Consistent(db) && View(db, org, id).Ok?
    ensures var p := View(db, org, id).value;
            p.project in db.projects && p.projectName == Some(db.projects[p.project].name)
  {
  }

  lemma {:induction false} LastEditExists(log: seq<Commit>, from: nat, last: nat, p: nat)
    requires last < |log| && EditedIn(log, from, last, p) && forall w :: last < w < |log| ==> log[w].edited != Some(p)
    requires forall w :: 0 <= w < |log| && from < w ==> p in log[w].db.projects
    ensures exists v: nat :: LastEdit(log, from, v, p)
    decreases last
  {
    if log[last].edited == Some(p) {
      assert LastEdit(log, from, last, p);
    } else {
      LastEditExists(log, from, last - 1, p);
    }
  }

  lemma AfterLastEdit(log: seq<Commit>, u: nat, v: nat, p: nat)
    requires Chained(log) && LastEdit(log, u, v, p)
    ensures var newest := log[|log| - 1].db; p in newest.projects && newest.projects[p] == log[v].db.projects[p]
  {
    hide Chained;
    ProjectBetween(log, v, |log| - 1, p);
  }

  lemma ProjectStays(log: seq<Commit>, now: real, u: nat, v: nat, p: nat)
    requires LogOk(log, now) && u <= v < |log| && p in log[u].db.projects
    ensures p in log[v].db.projects
  {
    hide Consistent;
    assert Preserves(log[u].db, log[v].db);
  }

  /** Between a version and the newest one, a project's name is that of its latest edit, if it has one. */
  lemma NameSince(log: seq<Commit>, now: real, u: nat, p: nat)
    requires Chained(log) && LogOk(log, now) && u < |log| && p in log[u].db.projects
    ensures var newest := log[|log| - 1].db;
            && p in newest.projects
            && (EditedIn(log, u, |log| - 1, p) ==> exists v: nat :: LastEdit(log, u, v, p))
            && (!EditedIn(log, u, |log| - 1, p) ==> newest.projects[p] == log[u].db.projects[p])
            && forall v: nat :: LastEdit(log, u, v, p) ==> newest.projects[p] == log[v].db.projects[p]
  {
    hide Chained, LogOk, EditedIn;
    var n := |log| - 1;
    forall w: nat | u <= w < |log|
      ensures p in log[w].db.projects
    {
      ProjectStays(log, now, u, w, p);
    }
    if EditedIn(log, u, n, p) {
      LastEditExists(log, u, n, p);
    } else {
      ProjectBetween(log, u, n, p);
    }
    forall v: nat | LastEdit(log, u, v, p)
      ensures log[n].db.projects[p] == log[v].db.projects[p]
    {
      AfterLastEdit(log, u, v, p);
    }
  }

  /** The name an entry holds is that of its version, and the committed one is that of the newest. */
  lemma EntryNames(c: Config, s: State, k: string)
    requires Inv(c, s) && k in s.cache
    ensures var e := s.cache[k];
            var p := e.payload.project;
            && LogOk(s.log, s.now) && e.version < |s.log| && View(Current(s), e.org, e.id).Ok?
            && p in s.log[e.version].db.projects && p in Current(s).projects
            && e.payload.projectName == Some(s.log[e.version].db.projects[p].name)
            && View(Current(s), e.org, e.id).value.projectName == Some(Current(s).projects[p].name)
  {
    hide KeyOf, View, LogOk, Consistent;
    var e := s.cache[k];
    assert EntryOk(c, s.log, s.now, s.maxDelay, k, e);
    VersionConsistent(s.log, s.now, e.version);
    CurrentConsistent(c, s);
    SameIdentity(s.log, s.now, e.version, e.org, e.id);
    ViewName(s.log[e.version].db, e.org, e.id);
    ViewName(Current(s), e.org, e.id);
  }

  /**
   * In every interleaving, exactly: the project name in a cached incident differs from the committed
   * one if and only if the project was edited after the entry's load and the latest such edit left
   * another name than the cached one. Without such an edit the name is current.
   */
  lemma NameExact(c: Config, actions: seq<Action>, k: string)
    requires k in Run(c, actions).cache
    ensures var s := Run(c, actions);
            var e := s.cache[k];
            var p := e.payload.project;
            && View(Current(s), e.org, e.id).Ok?
            && (NameStale(s, e) <==> exists v: nat ::
                  LastEdit(s.log, e.version, v, p) && e.payload.projectName != Some(s.log[v].db.projects[p].name))
            && (NameStale(s, e) ==> EditedIn(s.log, e.version, |s.log| - 1, p))
  {
    hide View, EditedIn, Chained, Inv, LogOk, Run;
    RunKeeps(c, actions);
    RunChained(c, actions);
    var s := Run(c, actions);
    EntryNames(c, s, k);
    NameSince(s.log, s.now, s.cache[k].version, s.cache[k].payload.project);
  }

  /** An entry is the whole committed view exactly when neither its columns nor its project name are stale. */
  lemma PayloadExact(c: Config, actions: seq<Action>, k: string)
    requires k in Run(c, actions).cache
    ensures var s := Run(c, actions);
            var e := s.cache[k];
            View(Current(s), e.org, e.id) == Ok(e.payload) <==> !Coherence.Stale(s, e) && !NameStale(s, e)
  {
    hide KeyOf, LogOk, Run, ReaderOk, WriterOk;
    RunKeeps(c, actions);
    var s := Run(c, actions);
    var e := s.cache[k];
    assert EntryOk(c, s.log, s.now, s.maxDelay, k, e);
    SameIdentity(s.log, s.now, e.version, e.org, e.id);
  }

  // ----- a rename, as its requester sees it -----

  /** The last name that the request sends. */
  predicate Renames(changes: seq<ProjectChange>, name: string) {
    exists i :: 0 <= i < |changes| && changes[i] == Name(Some(name)) && forall j :: i < j < |changes| ==> !changes[j].Name?
  }

  lemma {:induction false} AttrsName(p: Project, was: Option<string>, changes: seq<ProjectChange>, name: string)
    requires Renames(changes, name)
    ensures SetProjectAttrs(p, was, changes).1 == Some(name)
  {
    var n := |changes| - 1;
    if !changes[n].Name? {
      var i :| 0 <= i < |changes| && changes[i] == Name(Some(name)) && forall j :: i < j < |changes| ==> !changes[j].Name?;
      assert changes[..n][i] == changes[i];
      AttrsName(p, was, changes[..n], name);
    }
  }

  /** A committed rename is logged as an edit that leaves the new name. */
  lemma RenameIsLogged(c: Config, s: State, request: History.Action, name: string)
    requires s.log != [] && request.EditProject? && Renames(request.projectChanges, name)
    requires EditedBy(Current(s), request) == Some(request.id)
    ensures var t := Step(c, s, Other(request));
            && t.log[..|s.log|] == s.log && |t.log| == |s.log| + 1
            && t.log[|s.log|].edited == Some(request.id)
            && request.id in Current(t).projects && Current(t).projects[request.id].name == name
  {
    var p := Current(s).projects[request.id];
    AttrsName(p, Some(p.name), request.projectChanges, name);
  }

  lemma {:induction false} RunGrows(c: Config, before: seq<Action>, after: seq<Action>, p: nat)
    requires forall a :: a in after ==> !EditsProject(a, p)
    ensures var shorter, log := Run(c, before).log, Run(c, before + after).log;
            && |shorter| <= |log| && log[..|shorter|] == shorter
            && forall v :: |shorter| <= v < |log| ==> log[v].edited != Some(p)
    decreases |after|
  {
    hide Run, Step, Advances, Inv, Consistent;
    if after == [] {
      assert before + after == before;
    } else {
      var a, rest := after[|after| - 1], after[..|after| - 1];
      var most := before + rest;
      assert before + after == most + [a];
      RunMore(c, most, a);
      RunGrows(c, before, rest, p);
      RunKeeps(c, most);
      CurrentConsistent(c, Run(c, most));
      StepLog(c, Run(c, most), a);
    }
  }

  /**
   * A rename that commits makes every entry loaded before it stale in its name, and only those that
   * do not hold the new name already; this lasts until the project is edited again or the entry is gone.
   */
  lemma RenameExact(c: Config, before: seq<Action>, request: History.Action, name: string, after: seq<Action>, k: string)
    requires request.EditProject? && Renames(request.projectChanges, name)
    requires EditedBy(Current(Run(c, before)), request) == Some(request.id)
    requires forall a :: a in after ==> !EditsProject(a, request.id)
    requires k in Run(c, before + [Other(request)] + after).cache
    ensures var s := Run(c, before + [Other(request)] + after);
            var e := s.cache[k];
            e.payload.project == request.id && e.version < |Run(c, before).log| ==>
              (NameStale(s, e) <==> e.payload.projectName != Some(name))
  {
    hide Step, Run, NameStale, EditedBy, Renames;
    var s0, s1, s := Run(c, before), Run(c, before + [Other(request)]), Run(c, before + [Other(request)] + after);
    var e := s.cache[k];
    RunMore(c, before, Other(request));
    RenameIsLogged(c, s0, request, name);
    RunGrows(c, before + [Other(request)], after, request.id);
    NameExact(c, before + [Other(request)] + after, k);
    if e.payload.project == request.id && e.version < |s0.log| {
      assert s.log[..|s1.log|][|s0.log|] == s1.log[|s0.log|];
      assert LastEdit(s.log, e.version, |s0.log|, request.id);
    }
  }
}
