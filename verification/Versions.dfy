/** What one version of the tables says about another: who was edited in between, and when. */
module Versions {
  import opened Prelude
  import opened Database
  import opened Protocol
  import History

  /** What one commit may do: change the columns of one incident and stamp them, or edit one project. */
  ghost predicate Advances(before: Db, next: Commit) {
    && Follows(before, next.db, next.touched)
    && (forall p :: p in before.projects && next.edited != Some(p) ==>
          p in next.db.projects && next.db.projects[p] == before.projects[p])
    && (forall id :: id in next.db.incidents && !ColumnsSame(before, next.db, id) ==>
          next.db.incidents[id].columns.updatedAt == next.at)
  }

  ghost predicate Chained(log: seq<Commit>) {
    && log != [] && log[0].db == EMPTY
    && forall v :: 0 < v < |log| ==> Advances(log[v - 1].db, log[v])
  }

  lemma CommitAdvances(db: Db, id: nat, base: Columns, d: Draft, now: real)
    requires Consistent(db) && CommitUpdate(db, id, base, d, now).1
    ensures Advances(db, Commit(CommitUpdate(db, id, base, d, now).0, now, Some(id), None))
  {
    hide Consistent, Preserves;
    CommitFollows(db, id, base, d, now);
  }

  lemma EditAdvances(db: Db, request: History.Action, now: real)
    requires Consistent(db) && request.EditProject?
    ensures Advances(db, Commit(History.Apply(db, History.Timed(request, now)), now, None, EditedBy(db, request)))
  {
    hide Consistent, Preserves, SetProjectAttrs;
    OtherFollows(db, History.Timed(request, now));
    UpdateProjectKeeps(db, request.org, request.role, request.id, request.projectChanges);
  }

  lemma CreationAdvances(db: Db, request: History.Action, now: real)
    requires Consistent(db) && (request.AddProject? || request.AddIncident?)
    ensures Advances(db, Commit(History.Apply(db, History.Timed(request, now)), now, None, EditedBy(db, request)))
  {
    hide Preserves, Follows;
    OtherFollows(db, History.Timed(request, now));
  }

  lemma OtherAdvances(db: Db, request: History.Action, now: real)
    requires Consistent(db) && !request.EditIncident?
    ensures Advances(db, Commit(History.Apply(db, History.Timed(request, now)), now, None, EditedBy(db, request)))
  {
    hide Advances, Consistent, History.Apply, EditedBy;
    if request.EditProject? {
      EditAdvances(db, request, now);
    } else {
      CreationAdvances(db, request, now);
    }
  }

  lemma EditedIsRequested(db: Db, request: History.Action)
    ensures EditedBy(db, request).Some? ==> EditsProject(Other(request), EditedBy(db, request).value)
  {
  }

  predicate EditsProject(a: Action, p: nat) {
    a.Other? && a.request.EditProject? && a.request.id == p
  }

  /** A step either leaves the log alone or adds one commit of the present instant. */
  lemma StepLog(c: Config, s: State, a: Action)
    requires s.log != [] && Consistent(Current(s))
    ensures var t := Step(c, s, a);
            t.log == s.log
            || exists next: Commit ::
                 && t.log == s.log + [next] && next.at == s.now && Advances(Current(s), next)
                 && (next.edited.Some? ==> EditsProject(a, next.edited.value))
  {
    hide Advances, Consistent, View, Served, GetIncident, CommitUpdate, Edited, History.Apply, EditedBy, KeyOf;
    match a {
      case Tick(_) =>
      case Sweep(_) =>
      case Begin(_, _, _, _) =>
      case LoadRow(_) =>
      case Store(_, _) =>
      case Read(_, _, _) =>
      case Drop(_, _) =>
      case CommitRow(w, changes) =>
        if w in s.writers && !s.writers[w].Committed? {
          var wr := s.writers[w];
          var d := Edited(wr.base, changes, s.now);
          var (db, ok) := CommitUpdate(Current(s), wr.id, wr.base, d, s.now);
          if ok {
            CommitAdvances(Current(s), wr.id, wr.base, d, s.now);
            var next := Commit(db, s.now, Some(wr.id), None);
            assert next.at == s.now && Advances(Current(s), next);
          }
        }
      case Other(request) =>
        if !request.EditIncident? {
          OtherAdvances(Current(s), request, s.now);
          var next := StepOther(s, request).log[|s.log|];
          EditedIsRequested(Current(s), request);
          assert next.at == s.now && Advances(Current(s), next);
        }
    }
  }

  lemma {:induction false} RunChained(c: Config, actions: seq<Action>)
    ensures Chained(Run(c, actions).log)
  {
    hide Advances, Step;
    if actions != [] {
      var before, a := actions[..|actions| - 1], actions[|actions| - 1];
      RunChained(c, before);
      RunKeeps(c, before);
      CurrentConsistent(c, Run(c, before));
      StepLog(c, Run(c, before), a);
    }
  }

  // ----- projects -----

  /** Some commit in (from, to] edited this project. */
  predicate EditedIn(log: seq<Commit>, from: nat, to: nat, p: nat)
    requires to < |log|
  {
    exists v :: from < v <= to && log[v].edited == Some(p)
  }

  /** Nothing about a project changes but by an edit of it. */
  lemma {:induction false} ProjectBetween(log: seq<Commit>, u: nat, v: nat, p: nat)
    requires Chained(log) && u <= v < |log| && p in log[u].db.projects && !EditedIn(log, u, v, p)
    ensures p in log[v].db.projects && log[v].db.projects[p] == log[u].db.projects[p]
    decreases v
  {
    hide Follows;
    if u < v {
      assert forall w :: u < w <= v - 1 ==> u < w <= v && log[w].edited != Some(p);
      ProjectBetween(log, u, v - 1, p);
      assert log[v].edited != Some(p);
      assert Advances(log[v - 1].db, log[v]);
    }
  }

  // ----- incidents -----

  /** This commit gave the incident other columns. */
  predicate ChangedAt(log: seq<Commit>, v: nat, id: nat) {
    && 0 < v < |log| && id in log[v - 1].db.incidents && id in log[v].db.incidents
    && log[v - 1].db.incidents[id].columns != log[v].db.incidents[id].columns
  }

  lemma ChangeIsUpdate(log: seq<Commit>, v: nat, id: nat)
    requires Chained(log) && ChangedAt(log, v, id)
    ensures log[v].touched == Some(id) && log[v].db.incidents[id].columns.updatedAt == log[v].at
  {
    hide Consistent, Preserves;
    assert Advances(log[v - 1].db, log[v]);
  }

  /** Columns that differ were changed by some commit in between. */
  lemma {:induction false} ColumnsBetween(log: seq<Commit>, u: nat, v: nat, id: nat)
    requires Chained(log) && u <= v < |log| && id in log[u].db.incidents
    ensures id in log[v].db.incidents
    ensures log[v].db.incidents[id].columns == log[u].db.incidents[id].columns
            || exists w: nat :: u < w <= v && ChangedAt(log, w, id)
    decreases v
  {
    hide Consistent;
    if u < v {
      ColumnsBetween(log, u, v - 1, id);
      assert Advances(log[v - 1].db, log[v]);
      if log[v - 1].db.incidents[id].columns != log[v].db.incidents[id].columns {
        assert ChangedAt(log, v, id);
      }
    }
  }

  lemma VersionStep(log: seq<Commit>, now: real, v: nat)
    requires Chained(log) && LogOk(log, now) && 0 < v < |log|
    ensures Advances(log[v - 1].db, log[v]) && log[v - 1].at <= log[v].at
  {
    hide Advances, Consistent, Preserves;
  }

  /** `updated_at` is never ahead of the version that shows it, and never goes back. */
  lemma NothingYet(log: seq<Commit>, id: nat)
    requires Chained(log)
    ensures id !in log[0].db.incidents
  {
  }

  lemma {:induction false} StampsBetween(log: seq<Commit>, now: real, u: nat, v: nat, id: nat)
    requires Chained(log) && LogOk(log, now) && u <= v < |log| && id in log[u].db.incidents
    ensures id in log[v].db.incidents
    ensures log[u].db.incidents[id].columns.updatedAt <= log[v].db.incidents[id].columns.updatedAt <= log[v].at
    decreases v, v - u
  {
    hide Consistent, Chained, LogOk;
    if v > 0 {
      VersionStep(log, now, v);
      if u < v {
        StampsBetween(log, now, u, v - 1, id);
      } else if id in log[v - 1].db.incidents {
        StampsBetween(log, now, v - 1, v - 1, id);
      }
    } else {
      NothingYet(log, id);
    }
  }
}
