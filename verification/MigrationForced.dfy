// When all the runs of a stage must give the same answers, although each lookup
// may return any matching row.
module MigrationForced {
  import opened MigrationModel
  import opened MigrationExecution

  ghost predicate CanStep<R, A(!new)>(step: Step<R, A>, i: nat, row: R, before: Db) {
    exists after, answer :: step(i, row, before, after, answer)
  }

  // Whatever the lookup finds, the answer is `want`.
  ghost predicate Forced<R, A(!new)>(step: Step<R, A>, i: nat, row: R, before: Db, want: A) {
    forall after, answer :: step(i, row, before, after, answer) ==> answer == want
  }

  ghost predicate NeverStuck<R(!new), A(!new)>(step: Step<R, A>) {
    forall i: nat, row, before :: CanStep(step, i, row, before)
  }

  // The states that the expected answers lead to.
  ghost predicate Determined<R, A>(rows: seq<R>, step: Step<R, A>, e: Trace<A>) {
    && |e.dbs| == |rows| + 1 && |e.answers| == |rows|
    && forall i, after :: 0 <= i < |rows| && step(i, rows[i], e.dbs[i], after, e.answers[i]) ==> after == e.dbs[i + 1]
  }

  ghost predicate ForcedUpTo<R, A(!new)>(rows: seq<R>, step: Step<R, A>, e: Trace<A>, n: nat)
    requires |e.dbs| == |rows| + 1 && |e.answers| == |rows| && n <= |rows|
  {
    forall i: nat :: i < n ==> Forced(step, i, rows[i], e.dbs[i], e.answers[i])
  }

  ghost predicate Runs<R, A>(rows: seq<R>, step: Step<R, A>, start: Db, t: Trace<A>) {
    Steps(rows, step, t) && t.First() == start
  }

  // A run of the first rows can be continued to the end.
  lemma {:induction false} Continued<R(!new), A(!new)>(rows: seq<R>, step: Step<R, A>, t: Trace<A>, i: nat)
    returns (full: Trace<A>)
    requires i <= |rows| && Steps(rows[..i], step, t) && NeverStuck(step)
    ensures Steps(rows, step, full) && full.First() == t.First() && t.answers <= full.answers
    decreases |rows| - i
  {
    if i == |rows| {
      assert rows[..i] == rows;
      full := t;
    } else {
      assert CanStep(step, i, rows[i], t.Last());
      var after, answer :| step(i, rows[i], t.Last(), after, answer);
      StepsSnoc(rows[..i], rows[i], step, t, after, answer);
      assert rows[..i + 1] == rows[..i] + [rows[i]];
      full := Continued(rows, step, Then(t, after, answer), i + 1);
    }
  }

  // While the answers are forced, the expected trace is itself a run.
  lemma {:induction false} ExpectedRuns<R(!new), A(!new)>(rows: seq<R>, step: Step<R, A>, e: Trace<A>, n: nat)
    requires Determined(rows, step, e) && NeverStuck(step) && n <= |rows| && ForcedUpTo(rows, step, e, n)
    ensures Steps(rows[..n], step, Trace(e.dbs[..n + 1], e.answers[..n]))
  {
    forall i | 0 <= i < n ensures step(i, rows[i], e.dbs[i], e.dbs[i + 1], e.answers[i]) {
      assert CanStep(step, i, rows[i], e.dbs[i]);
      var after, answer :| step(i, rows[i], e.dbs[i], after, answer);
      assert Forced(step, i, rows[i], e.dbs[i], e.answers[i]);
    }
  }

  // ... and every run agrees with it.
  lemma {:induction false} ForcedRunsAgree<R(!new), A(!new)>(rows: seq<R>, step: Step<R, A>, e: Trace<A>, t: Trace<A>,
                                                             n: nat)
    requires Determined(rows, step, e) && n <= |rows| && ForcedUpTo(rows, step, e, n)
    requires Runs(rows, step, e.First(), t)
    ensures t.dbs[..n + 1] == e.dbs[..n + 1] && t.answers[..n] == e.answers[..n]
  {
    if n > 0 {
      ForcedRunsAgree(rows, step, e, t, n - 1);
      var i := n - 1;
      assert t.dbs[i] == t.dbs[..n][i] == e.dbs[..n][i] == e.dbs[i];
      assert step(i, rows[i], e.dbs[i], t.dbs[i + 1], t.answers[i]);
      assert Forced(step, i, rows[i], e.dbs[i], e.answers[i]);
      assert t.answers[i] == e.answers[i] && t.dbs[n] == e.dbs[n];
      assert t.dbs[..n + 1] == t.dbs[..n] + [t.dbs[n]] && e.dbs[..n + 1] == e.dbs[..n] + [e.dbs[n]];
      assert t.answers[..n] == t.answers[..i] + [t.answers[i]] && e.answers[..n] == e.answers[..i] + [e.answers[i]];
    }
  }

  // At the first row that is not forced, some run answers differently.
  lemma Deviates<R(!new), A(!new)>(rows: seq<R>, step: Step<R, A>, e: Trace<A>, n: nat) returns (t: Trace<A>)
    requires Determined(rows, step, e) && NeverStuck(step) && n < |rows| && ForcedUpTo(rows, step, e, n)
    requires !Forced(step, n, rows[n], e.dbs[n], e.answers[n])
    ensures Runs(rows, step, e.First(), t) && t.answers != e.answers
  {
    ExpectedRuns(rows, step, e, n);
    var after, answer :| step(n, rows[n], e.dbs[n], after, answer) && answer != e.answers[n];
    var front := Trace(e.dbs[..n + 1], e.answers[..n]);
    StepsSnoc(rows[..n], rows[n], step, front, after, answer);
    assert rows[..n + 1] == rows[..n] + [rows[n]];
    t := Continued(rows, step, Then(front, after, answer), n + 1);
    assert t.answers[n] == answer;
  }

  lemma {:induction false} AgreementForces<R(!new), A(!new)>(rows: seq<R>, step: Step<R, A>, e: Trace<A>, n: nat)
    requires Determined(rows, step, e) && NeverStuck(step) && n <= |rows|
    requires forall t :: Runs(rows, step, e.First(), t) ==> t.answers == e.answers
    ensures ForcedUpTo(rows, step, e, n)
  {
    if n > 0 {
      AgreementForces(rows, step, e, n - 1);
      if !Forced(step, n - 1, rows[n - 1], e.dbs[n - 1], e.answers[n - 1]) {
        var t := Deviates(rows, step, e, n - 1);
      }
    }
  }

  // All runs give the expected answers exactly when each of them is forced.
  lemma AnswersAgreeIff<R(!new), A(!new)>(rows: seq<R>, step: Step<R, A>, e: Trace<A>)
    requires Determined(rows, step, e) && NeverStuck(step)
    ensures (forall t :: Runs(rows, step, e.First(), t) ==> t.answers == e.answers) <==>
            ForcedUpTo(rows, step, e, |rows|)
  {
    if ForcedUpTo(rows, step, e, |rows|) {
      forall t | Runs(rows, step, e.First(), t) ensures t.answers == e.answers {
        ForcedRunsAgree(rows, step, e, t, |rows|);
        assert t.answers[..|rows|] == t.answers && e.answers[..|rows|] == e.answers;
      }
    }
    if forall t :: Runs(rows, step, e.First(), t) ==> t.answers == e.answers {
      AgreementForces(rows, step, e, |rows|);
    }
  }

  lemma SomeRun<R(!new), A(!new)>(rows: seq<R>, step: Step<R, A>, start: Db) returns (t: Trace<A>)
    requires NeverStuck(step)
    ensures Runs(rows, step, start, t)
  {
    t := Continued(rows, step, Trace([start], []), 0);
  }

  // Forced answers make the expected trace a run, and every run ends where it does.
  lemma ForcedRunsEnd<R(!new), A(!new)>(rows: seq<R>, step: Step<R, A>, e: Trace<A>)
    requires Determined(rows, step, e) && NeverStuck(step) && ForcedUpTo(rows, step, e, |rows|)
    ensures Runs(rows, step, e.First(), e)
    ensures forall t :: Runs(rows, step, e.First(), t) ==> t.answers == e.answers && t.Last() == e.Last()
  {
    ExpectedRuns(rows, step, e, |rows|);
    assert rows[..|rows|] == rows && e.dbs[..|rows| + 1] == e.dbs && e.answers[..|rows|] == e.answers;
    forall t | Runs(rows, step, e.First(), t) ensures t.answers == e.answers && t.Last() == e.Last() {
      ForcedRunsAgree(rows, step, e, t, |rows|);
      assert t.dbs[..|rows| + 1] == t.dbs && t.answers[..|rows|] == t.answers;
    }
  }
}
