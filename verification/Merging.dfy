/** What overlapping updates leave of each other: every interleaving of reads and commits of one row. */
module Merging {
  import opened Prelude
  import opened Database
  import opened Updates
  import opened Protocol
  import Overlap
  import History

  /** The columns that an update in flight has read are those of some committed version of its row. */
  ghost predicate ReadFrom(log: seq<Commit>, w: Writer) {
    !w.Committed? ==>
      exists v: nat :: v < |log| && w.id in log[v].db.incidents && log[v].db.incidents[w.id].columns == w.base
  }

  ghost predicate AllRead(s: State) {
    forall w :: w in s.writers ==> ReadFrom(s.log, s.writers[w])
  }

  lemma ReadFromLonger(log: seq<Commit>, longer: seq<Commit>, w: Writer)
    requires |log| <= |longer| && longer[..|log|] == log && ReadFrom(log, w)
    ensures ReadFrom(longer, w)
  {
    if !w.Committed? {
      var v: nat :| v < |log| && w.id in log[v].db.incidents && log[v].db.incidents[w.id].columns == w.base;
      assert longer[v] == longer[..|log|][v];
    }
  }

  /** A step keeps the log, and makes no writer but by a read of the present row. */
  lemma StepWriters(c: Config, s: State, a: Action, w: nat)
    requires s.log != [] && w in Step(c, s, a).writers
    ensures var t := Step(c, s, a);
            var wr := t.writers[w];
            && |s.log| <= |t.log| && t.log[..|s.log|] == s.log
            && (wr.Committed?
                || (w in s.writers && !s.writers[w].Committed? && wr.id == s.writers[w].id && wr.base == s.writers[w].base)
                || (wr.id in Current(s).incidents && wr.base == Current(s).incidents[wr.id].columns))
  {
    hide KeyOf, View, Served, CommitUpdate, Edited, History.Apply, EditedBy;
  }

  lemma {:induction false} RunReads(c: Config, actions: seq<Action>)
    ensures AllRead(Run(c, actions))
  {
    hide Step, ReadFrom;
    if actions != [] {
      var n := |actions| - 1;
      var s, t := Run(c, actions[..n]), Run(c, actions);
      RunReads(c, actions[..n]);
      forall w | w in t.writers
        ensures ReadFrom(t.log, t.writers[w])
      {
        StepWriters(c, s, actions[n], w);
        WriterRead(s, t, w);
      }
    }
  }

  lemma WriterRead(s: State, t: State, w: nat)
    requires s.log != [] && |s.log| <= |t.log| && t.log[..|s.log|] == s.log && AllRead(s) && w in t.writers
    requires var wr := t.writers[w];
             || wr.Committed?
             || (w in s.writers && !s.writers[w].Committed? && wr.id == s.writers[w].id && wr.base == s.writers[w].base)
             || (wr.id in Current(s).incidents && wr.base == Current(s).incidents[wr.id].columns)
    ensures ReadFrom(t.log, t.writers[w])
  {
    var wr := t.writers[w];
    if !wr.Committed? {
      assert ReadFrom(s.log, wr) by {
        if wr.id in Current(s).incidents && wr.base == Current(s).incidents[wr.id].columns {
          var v := |s.log| - 1;
          assert v < |s.log| && wr.id in s.log[v].db.incidents;
        } else {
          assert ReadFrom(s.log, s.writers[w]);
        }
      }
      ReadFromLonger(s.log, t.log, wr);
    }
  }

  /** The writer may commit now. */
  predicate MayCommit(c: Config, s: State, w: nat) {
    w in s.writers && !s.writers[w].Committed? && (s.writers[w].Ready? ==> c.order.CommitFirst?)
  }

  /** One more version, in which only the columns of this incident are other. */
  ghost predicate CommitsRow(s: State, t: State, id: nat) {
    && s.log != [] && |t.log| == |s.log| + 1 && t.log[..|s.log|] == s.log && t.log[|s.log|].at == s.now
    && id in Current(s).incidents && id in Current(t).incidents
    && Current(t) == Current(s).(incidents := Current(s).incidents[id :=
         Current(s).incidents[id].(columns := Current(t).incidents[id].columns)])
  }

  lemma StepCommits(c: Config, s: State, w: nat, changes: seq<Change>)
    requires s.log != [] && MayCommit(c, s, w) && s.writers[w].id in Current(s).incidents
    ensures var wr, t := s.writers[w], Step(c, s, CommitRow(w, changes));
            && (SendsUnfit(changes) ==> t.log == s.log)
            && (!SendsUnfit(changes) ==>
                  && CommitsRow(s, t, wr.id)
                  && Merges(wr.base, changes, Current(s).incidents[wr.id].columns, Current(t).incidents[wr.id].columns, s.now))
  {
    hide CommitUpdate, Edited, Merges, SendsUnfit;
    var wr := s.writers[w];
    UpdateWritesWhatWasSent(Current(s), wr.id, wr.base, changes, s.now);
  }

  /**
   * In every interleaving, an update is based on some committed version of its row and is merged into the
   * row as it is at the commit: a field takes the last value sent for it if that differs from what was
   * read, and keeps what the other requests left in it otherwise. Only a null that a column cannot hold
   * makes the commit fail, and then it writes nothing.
   */
  lemma CommitsMerge(c: Config, actions: seq<Action>, w: nat, changes: seq<Change>)
    requires MayCommit(c, Run(c, actions), w)
    ensures var s, t := Run(c, actions), Run(c, actions + [CommitRow(w, changes)]);
            var wr := s.writers[w];
            && ReadFrom(s.log, wr)
            && wr.id in Current(s).incidents && Current(s).incidents[wr.id].org == wr.org
            && (SendsUnfit(changes) ==> t.log == s.log)
            && (!SendsUnfit(changes) ==>
                  && CommitsRow(s, t, wr.id)
                  && Merges(wr.base, changes, Current(s).incidents[wr.id].columns, Current(t).incidents[wr.id].columns, s.now))
  {
    hide Run, Step, Inv, ReadFrom, Merges, SendsUnfit, CommitsRow;
    var s := Run(c, actions);
    RunKeeps(c, actions);
    RunReads(c, actions);
    WriterStillOk(c, s, w);
    RunMore(c, actions, CommitRow(w, changes));
    StepCommits(c, s, w, changes);
  }

  // ----- no other way to change a field -----

  /** The step may commit an update of this incident that names the field. */
  predicate Names(s: State, a: Action, id: nat, f: Field) {
    a.CommitRow? && a.writer in s.writers && s.writers[a.writer].id == id && !Unsent(a.changes, f)
  }

  lemma ElsewhereStays(c: Config, s: State, a: Action, id: nat)
    requires Inv(c, s) && s.log != [] && id in Current(s).incidents && !a.CommitRow?
    ensures ColumnsSame(Current(s), Current(Step(c, s, a)), id)
  {
    hide Inv, KeyOf, View, Served, History.Apply, EditedBy, Consistent;
    if a.Other? {
      if !a.request.EditIncident? {
        CurrentConsistent(c, s);
        OtherFollows(Current(s), History.Timed(a.request, s.now));
      }
    }
  }

  lemma FieldStep(c: Config, s: State, a: Action, id: nat, f: Field)
    requires Inv(c, s) && s.log != [] && id in Current(s).incidents && !Names(s, a, id, f)
    ensures var t := Step(c, s, a);
            id in Current(t).incidents && Held(Current(t).incidents[id].columns, f) == Held(Current(s).incidents[id].columns, f)
  {
    hide Inv, Step, SendsUnfit, Held, Unsent;
    if a.CommitRow? {
      CommitStepStays(c, s, a.writer, a.changes, id, f);
    } else {
      ElsewhereStays(c, s, a, id);
    }
  }

  lemma CommitStepStays(c: Config, s: State, w: nat, changes: seq<Change>, id: nat, f: Field)
    requires Inv(c, s) && s.log != [] && id in Current(s).incidents && !Names(s, CommitRow(w, changes), id, f)
    ensures var t := Step(c, s, CommitRow(w, changes));
            id in Current(t).incidents && Held(Current(t).incidents[id].columns, f) == Held(Current(s).incidents[id].columns, f)
  {
    hide Inv, SendsUnfit, Held, Unsent, StepCommit;
    if MayCommit(c, s, w) {
      WriterStillOk(c, s, w);
      StepCommits(c, s, w, changes);
      if s.writers[w].id == id && !SendsUnfit(changes) {
        assert MergesField(s.writers[w].base, changes, Current(s).incidents[id].columns,
                           Current(Step(c, s, CommitRow(w, changes))).incidents[id].columns, f);
      }
    }
  }

  /**
   * No lost updates: between two points of any run, a field of an incident keeps its value unless an
   * update that names this very field commits in between, however many updates of other fields overlap.
   */
  lemma {:induction false} FieldStays(c: Config, actions: seq<Action>, m: nat, n: nat, id: nat, f: Field)
    requires m <= n <= |actions| && id in Current(Run(c, actions[..m])).incidents
    requires forall i :: m <= i < n ==> !Names(Run(c, actions[..i]), actions[i], id, f)
    ensures var s, t := Run(c, actions[..m]), Run(c, actions[..n]);
            id in Current(t).incidents && Held(Current(t).incidents[id].columns, f) == Held(Current(s).incidents[id].columns, f)
    decreases n
  {
    hide Run, Step, Inv, Names, Held;
    if m < n {
      FieldStays(c, actions, m, n - 1, id, f);
      RunKeeps(c, actions[..n - 1]);
      Overlap.RunLast(c, actions, n);
      FieldStep(c, Run(c, actions[..n - 1]), actions[n - 1], id, f);
    }
  }
}
