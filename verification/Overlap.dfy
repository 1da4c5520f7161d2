/** `resolved_at` under overlapping updates: which interleavings keep it in step with the status. */
module Overlap {
  import opened Prelude
  import opened Database
  import opened Protocol
  import History

  /** Every row's resolution time is set exactly if its status is terminal. */
  ghost predicate AllSettled(db: Db) {
    forall id :: id in db.incidents ==> History.Settled(db.incidents[id].columns)
  }

  /** So was every row that an update in flight has read. */
  predicate BasesSettled(s: State) {
    forall w :: w in s.writers && !s.writers[w].Committed? ==> History.Settled(s.writers[w].base)
  }

  /** The step commits such an update. */
  predicate Crosses(c: Config, s: State, a: Action)
    requires s.log != []
  {
    && a.CommitRow? && a.writer in s.writers && !s.writers[a.writer].Committed?
    && (s.writers[a.writer].Ready? ==> c.order.CommitFirst?)
    && var wr := s.writers[a.writer];
       && CommitUpdate(Current(s), wr.id, wr.base, Edited(wr.base, a.changes, s.now), s.now).1
       && History.Crossed(wr.base, a.changes, Current(s).incidents[wr.id].columns)
  }

  lemma CommitSettles(db: Db, id: nat, base: Columns, changes: seq<Change>, now: real)
    requires AllSettled(db) && History.Settled(base)
    requires CommitUpdate(db, id, base, Edited(base, changes, now), now).1
    ensures AllSettled(CommitUpdate(db, id, base, Edited(base, changes, now), now).0)
       <==> !History.Crossed(base, changes, db.incidents[id].columns)
  {
    hide Edited, Flush, History.Crossed, History.Settled;
    var current, after := db.incidents[id].columns, CommitUpdate(db, id, base, Edited(base, changes, now), now).0;
    History.OverlapExact(base, changes, current, now);
    assert after.incidents[id].columns == Flush(base, Edited(base, changes, now), current, now).value;
    assert forall other :: other in db.incidents && other != id ==> after.incidents[other] == db.incidents[other];
  }

  lemma OtherSettles(db: Db, t: History.Timed)
    requires Consistent(db) && AllSettled(db) && !t.action.EditIncident?
    ensures AllSettled(History.Apply(db, t))
  {
    hide SetProjectAttrs;
    match t.action
    case AddProject(_, _, _) =>
    case AddIncident(_, _, _, _) =>
    case EditProject(org, role, id, changes) => UpdateProjectKeeps(db, org, role, id, changes);
  }

  /** Steps of readers, of invalidations and of time touch no row and no base. */
  lemma CacheStepSettles(c: Config, s: State, a: Action)
    requires s.log != [] && BasesSettled(s) && !a.Read? && !a.CommitRow? && !a.Other?
    ensures BasesSettled(Step(c, s, a)) && Step(c, s, a).log == s.log
  {
    hide History.Settled, View, Served, KeyOf, NewEntry;
  }

  lemma CommitStepSettles(c: Config, s: State, w: nat, changes: seq<Change>)
    requires s.log != [] && AllSettled(Current(s)) && BasesSettled(s) && w in s.writers && !s.writers[w].Committed?
    ensures var wr, t := s.writers[w], StepCommit(c, s, w, changes);
            && BasesSettled(t)
            && (AllSettled(Current(t)) <==>
                  !(CommitUpdate(Current(s), wr.id, wr.base, Edited(wr.base, changes, s.now), s.now).1
                    && History.Crossed(wr.base, changes, Current(s).incidents[wr.id].columns)))
  {
    hide AllSettled, History.Settled, CommitUpdate, Edited, History.Crossed;
    var wr := s.writers[w];
    if CommitUpdate(Current(s), wr.id, wr.base, Edited(wr.base, changes, s.now), s.now).1 {
      CommitSettles(Current(s), wr.id, wr.base, changes, s.now);
    }
  }

  /** The step that commits such an update breaks the pairing, and no other step does. */
  lemma StepSettles(c: Config, s: State, a: Action)
    requires s.log != [] && Consistent(Current(s)) && AllSettled(Current(s)) && BasesSettled(s)
    ensures BasesSettled(Step(c, s, a))
    ensures AllSettled(Current(Step(c, s, a))) <==> !Crosses(c, s, a)
  {
    hide AllSettled, Consistent, History.Settled, History.Apply, CommitUpdate, Edited, History.Crossed, View, Served, KeyOf;
    hide StepCommit, StepStore, StepDrop;
    match a {
      case Tick(_) => CacheStepSettles(c, s, a);
      case Sweep(_) => CacheStepSettles(c, s, a);
      case Begin(_, _, _, _) => CacheStepSettles(c, s, a);
      case LoadRow(_) => CacheStepSettles(c, s, a);
      case Store(_, _) => CacheStepSettles(c, s, a);
      case Drop(_, _) => CacheStepSettles(c, s, a);
      case Read(w, org, id) => ReadSettled(s, org, id);
      case CommitRow(w, changes) =>
        if w in s.writers && !s.writers[w].Committed? {
          CommitStepSettles(c, s, w, changes);
        }
      case Other(request) =>
        if !request.EditIncident? {
          OtherSettles(Current(s), History.Timed(request, s.now));
        }
    }
  }

  lemma ReadSettled(s: State, org: nat, id: nat)
    requires s.log != [] && AllSettled(Current(s))
    ensures var i := GetIncident(Current(s), org, id); i.Ok? ==> History.Settled(i.value.columns)
  {
  }

  ghost predicate SettledUpTo(c: Config, actions: seq<Action>, n: nat)
    requires n <= |actions|
  {
    forall i :: 0 <= i <= n ==> AllSettled(Current(Run(c, actions[..i])))
  }

  ghost predicate UncrossedUpTo(c: Config, actions: seq<Action>, n: nat)
    requires n <= |actions|
  {
    forall i :: 0 <= i < n ==> !Crosses(c, Run(c, actions[..i]), actions[i])
  }

  lemma OneFurther(c: Config, actions: seq<Action>, n: nat)
    requires 0 < n <= |actions|
    ensures SettledUpTo(c, actions, n) <==> SettledUpTo(c, actions, n - 1) && AllSettled(Current(Run(c, actions[..n])))
    ensures UncrossedUpTo(c, actions, n)
       <==> UncrossedUpTo(c, actions, n - 1) && !Crosses(c, Run(c, actions[..n - 1]), actions[n - 1])
    ensures SettledUpTo(c, actions, n - 1) ==> AllSettled(Current(Run(c, actions[..n - 1])))
  {
    hide Run, Crosses, AllSettled, Current;
  }

  lemma RunLast(c: Config, actions: seq<Action>, n: nat)
    requires 0 < n <= |actions|
    ensures Run(c, actions[..n]) == Step(c, Run(c, actions[..n - 1]), actions[n - 1])
  {
    hide Step;
    assert actions[..n] == actions[..n - 1] + [actions[n - 1]];
    RunMore(c, actions[..n - 1], actions[n - 1]);
  }

  lemma {:induction false} UpTo(c: Config, actions: seq<Action>, n: nat)
    requires n <= |actions|
    ensures SettledUpTo(c, actions, n) <==> UncrossedUpTo(c, actions, n)
    ensures SettledUpTo(c, actions, n) ==> BasesSettled(Run(c, actions[..n]))
  {
    hide Step, Crosses, AllSettled, BasesSettled;
    if n == 0 {
      NothingUnsettled();
      assert Run(c, actions[..0]) == INIT;
    } else {
      hide Run, SettledUpTo, UncrossedUpTo, Inv, Current;
      UpTo(c, actions, n - 1);
      OneFurther(c, actions, n);
      RunLast(c, actions, n);
      var s := Run(c, actions[..n - 1]);
      RunKeeps(c, actions[..n - 1]);
      CurrentConsistent(c, s);
      if SettledUpTo(c, actions, n - 1) {
        StepSettles(c, s, actions[n - 1]);
      }
    }
  }

  lemma NothingUnsettled()
    ensures AllSettled(EMPTY) && BasesSettled(INIT) && Current(INIT) == EMPTY
  {
  }

  /**
   * Over every interleaving, exactly: all rows keep `resolved_at` in step with their status throughout
   * if and only if no commit moves a row within one class of statuses after it crossed to the other.
   */
  lemma SettledRuns(c: Config, actions: seq<Action>)
    ensures (forall i :: 0 <= i <= |actions| ==> AllSettled(Current(Run(c, actions[..i]))))
       <==> (forall i :: 0 <= i < |actions| ==> !Crosses(c, Run(c, actions[..i]), actions[i]))
  {
    UpTo(c, actions, |actions|);
  }
}
