/**
 * What `Migrate` promises, stated over its specification `Run`: migrations
 * run in catalog order and at most once, a migration's effects and its
 * version bump commit together, a failed run can be resumed, and a run with
 * nothing pending does nothing.
 */
module MigrationProperties {
  import opened Wrappers
  import opened VersionStore
  import opened MigrationRunner

  function Max(a: nat, b: nat): nat
  {
    if a < b then b else a
  }

  /** No step fails in the index range lo..hi-1. */
  ghost predicate Clean(steps: nat -> StepFaults, lo: nat, hi: nat)
  {
    forall j :: lo <= j < hi ==> StepFault(steps(j)) == None
  }

  /** Every step before `FirstFault` succeeds. */
  lemma {:induction false} FirstFaultIsFirst(catalog: seq<Migration>, steps: nat -> StepFaults, i: nat)
    ensures Clean(steps, i, FirstFault(catalog, steps, i))
    decreases |catalog| + 1 - i
  {
    if !(i > |catalog| || StepFault(steps(i)).Some?) {
      FirstFaultIsFirst(catalog, steps, i + 1);
    }
  }

  /** A run of clean steps from i leaves the first fault where it was. */
  lemma {:induction false} FirstFaultSkipsClean(catalog: seq<Migration>, steps: nat -> StepFaults, i: nat, j: nat)
    requires i <= j <= |catalog| + 1 && Clean(steps, i, j)
    ensures FirstFault(catalog, steps, i) == FirstFault(catalog, steps, j)
    decreases j - i
  {
    if i < j {
      FirstFaultSkipsClean(catalog, steps, i + 1, j);
    }
  }

  /** The step-by-step loop and the description by its stopping point agree on every input. */
  lemma {:induction false} LoopMatchesPending(catalog: seq<Migration>, steps: nat -> StepFaults, i: nat)
    requires 1 <= i
    ensures Loop(catalog, steps, i) == Pending(catalog, steps, i)
    decreases |catalog| + 1 - i
  {
    if i <= |catalog| && StepFault(steps(i)).None? {
      LoopMatchesPending(catalog, steps, i + 1);
      var k := FirstFault(catalog, steps, i);
      assert k == FirstFault(catalog, steps, i + 1);
      var tail := if k <= |catalog| && StepFault(steps(k)) == Some(Close) then [k] else [];
      assert Interval(i, k) + tail == [i] + (Interval(i + 1, k) + tail);
      var tail' := if k <= |catalog| && StepFault(steps(k)) != Some(Open) then [k] else [];
      assert Interval(i, k) + tail' == [i] + (Interval(i + 1, k) + tail');
    }
  }

  /**
   * Ordering: the indices whose `Apply` a run invokes are v+1, v+2, ...
   * without gaps or repeats, and none lies past the catalog.
   */
  lemma VisitsPendingInOrder(row: Row, catalog: seq<Migration>, o: Oracle)
    requires StoredVersion(row).Some?
    ensures var v := StoredVersion(row).value;
      var r := Run(row, catalog, o);
      && r.invoked == Interval(v + 1, v + 1 + |r.invoked|)
      && v + |r.invoked| <= Max(v, |catalog|)
  {
    var v := StoredVersion(row).value;
    if ReadFault(row, o.setup).None? {
      var k := FirstFault(catalog, o.steps, v + 1);
      if k <= |catalog| && StepFault(o.steps(k)) != Some(Open) {
        IntervalConcat(v + 1, k, k + 1);
      }
    }
  }

  /**
   * Atomicity: every invoked migration committed, except possibly the last
   * one, and that one did not commit exactly when its `Apply`, its version
   * write or its commit failed.
   */
  lemma UncommittedOnlyWhenTransactionFails(row: Row, catalog: seq<Migration>, o: Oracle)
    ensures var r := Run(row, catalog, o);
      && r.committed <= r.invoked
      && |r.invoked| <= |r.committed| + 1
      && (|r.invoked| == |r.committed| + 1 <==>
            r.err.Some? && r.err.value.MigrationFailed? && r.err.value.stage in {Apply, Write, Commit})
  {
  }

  /**
   * The version record moves with the committed effects: after any run the
   * stored version counts the committed migrations, and the log of
   * committed effects is still exactly 1..version. Together with
   * `Store.Valid`, this is "each migration is applied exactly once, in order".
   */
  lemma {:induction false} VersionTracksCommittedEffects(row: Row, catalog: seq<Migration>, o: Oracle)
    requires StoredVersion(row).Some?
    ensures var v := StoredVersion(row).value;
      var r := Run(row, catalog, o);
      && StoredVersion(r.row) == Some(v + |r.committed|)
      && Interval(1, v + 1) + r.committed == Interval(1, v + |r.committed| + 1)
  {
    var v := StoredVersion(row).value;
    if ReadFault(row, o.setup).None? {
      PendingCommitsInOrder(catalog, o.steps, v + 1);
      IntervalConcat(1, v + 1, v + 1 + |Pending(catalog, o.steps, v + 1).committed|);
    }
  }

  /** A run commits the indices right after the stored version, and the version moves past them. */
  lemma CommitsFollowVersion(row: Row, catalog: seq<Migration>, o: Oracle)
    requires StoredVersion(row).Some?
    ensures var v := StoredVersion(row).value;
      var r := Run(row, catalog, o);
      && StoredVersion(r.row) == Some(v + |r.committed|)
      && r.committed == Interval(v + 1, v + 1 + |r.committed|)
  {
    var v := StoredVersion(row).value;
    if ReadFault(row, o.setup).None? {
      PendingCommitsInOrder(catalog, o.steps, v + 1);
    }
  }

  /**
   * A run succeeds exactly when reading the version works and no pending
   * step fails; it then commits every pending migration and leaves the
   * version at the end of the catalog (or where it was, if already past).
   */
  lemma {:induction false} SucceedsIffNothingFails(row: Row, catalog: seq<Migration>, o: Oracle)
    requires StoredVersion(row).Some?
    ensures var v := StoredVersion(row).value;
      var r := Run(row, catalog, o);
      && (r.err == None <==> ReadFault(row, o.setup) == None && Clean(o.steps, v + 1, |catalog| + 1))
      && (r.err == None ==>
            && r.committed == r.invoked == Interval(v + 1, Max(v, |catalog|) + 1)
            && StoredVersion(r.row) == Some(Max(v, |catalog|)))
  {
    var v := StoredVersion(row).value;
    if ReadFault(row, o.setup).None? {
      var k := FirstFault(catalog, o.steps, v + 1);
      FirstFaultIsFirst(catalog, o.steps, v + 1);
      if Clean(o.steps, v + 1, |catalog| + 1) && v < |catalog| {
        FirstFaultSkipsClean(catalog, o.steps, v + 1, |catalog| + 1);
      }
      if k <= |catalog| {
        assert !Clean(o.steps, v + 1, |catalog| + 1);
      }
    }
  }

  /**
   * A failure inside the loop names the migration it happened in: the
   * first pending index k whose step failed. Every earlier pending index
   * ran cleanly and nothing after k was invoked.
   */
  lemma {:induction false} FailureNamesFirstFailingMigration(row: Row, catalog: seq<Migration>, o: Oracle)
    requires StoredVersion(row).Some?
    requires Run(row, catalog, o).err.Some?
    ensures var v := StoredVersion(row).value;
      var r := Run(row, catalog, o);
      var e := r.err.value;
      e.Failed? ==> r.invoked == [] && r.committed == [] && e == ReadFault(row, o.setup).value
    ensures var v := StoredVersion(row).value;
      var r := Run(row, catalog, o);
      var e := r.err.value;
      var k := v + |r.committed| + (if e.stage == Close then 0 else 1);
      e.MigrationFailed? ==>
        && v < k <= |catalog|
        && e.name == catalog[k - 1].name
        && StepFault(o.steps(k)) == Some(e.stage)
        && Clean(o.steps, v + 1, k)
        && v + |r.invoked| <= k
  {
    var v := StoredVersion(row).value;
    if ReadFault(row, o.setup).None? {
      FirstFaultIsFirst(catalog, o.steps, v + 1);
    }
  }

  /** A run whose stored version already reaches the end of the catalog invokes nothing and changes nothing. */
  lemma NothingPendingIsNoOp(row: Row, catalog: seq<Migration>, o: Oracle)
    requires StoredVersion(row).Some? && StoredVersion(row).value >= |catalog|
    ensures var r := Run(row, catalog, o);
      && r.invoked == [] && r.committed == []
      && r.row == RowAfterRead(row, o.setup)
      && StoredVersion(r.row) == StoredVersion(row)
      && (ReadFault(row, o.setup) == None ==> r.err == None)
  {
  }

  /** A missing row or a nil value reads as version 0, so every migration 1..N is pending. */
  lemma {:induction false} FreshStoreStartsAtFirst(row: Row, catalog: seq<Migration>, o: Oracle)
    requires row == Absent || row == Present(None)
    requires o.setup == SetupFaults(false, false, false) && Clean(o.steps, 1, |catalog| + 1)
    ensures var r := Run(row, catalog, o);
      && r.err == None
      && r.invoked == r.committed == Interval(1, |catalog| + 1)
      && StoredVersion(r.row) == Some(|catalog|)
  {
    SucceedsIffNothingFails(row, catalog, o);
  }

  /** A value that does not decode ends the run before any migration, and the row is left as it was. */
  lemma MalformedRecordStopsBeforeMigrations(catalog: seq<Migration>, o: Oracle)
    ensures var row := Present(Some(Garbled));
      var r := Run(row, catalog, o);
      && r.invoked == [] && r.committed == [] && r.row == row
      && (o.setup == SetupFaults(false, false, false) ==> r.err == Some(Failed(Decode)))
  {
  }

  /**
   * A failed close comes after the commit: the run reports the migration
   * as failed, but its effects and its version bump are already durable.
   */
  lemma CloseFailureStillCommits(row: Row, catalog: seq<Migration>, o: Oracle)
    requires StoredVersion(row).Some?
    requires Run(row, catalog, o).err.Some? && Run(row, catalog, o).err.value.stage == Close
             && Run(row, catalog, o).err.value.MigrationFailed?
    ensures var v := StoredVersion(row).value;
      var r := Run(row, catalog, o);
      var k := v + |r.committed|;
      && r.committed != [] && r.committed[|r.committed| - 1] == k
      && StoredVersion(r.row) == Some(k)
      && r.err.value.name == catalog[k - 1].name
  {
    var v := StoredVersion(row).value;
    FailureNamesFirstFailingMigration(row, catalog, o);
    VersionTracksCommittedEffects(row, catalog, o);
  }

  /**
   * Resumability: a later run starts right after the last migration the
   * earlier one committed (the failed one, unless only its close failed),
   * so it never re-invokes a committed migration.
   */
  lemma RerunStartsAfterLastCommit(row: Row, catalog: seq<Migration>, first: Oracle, second: Oracle)
    requires StoredVersion(row).Some?
    ensures var r1 := Run(row, catalog, first);
      var r2 := Run(r1.row, catalog, second);
      var resume := StoredVersion(row).value + |r1.committed| + 1;
      r2.invoked == Interval(resume, resume + |r2.invoked|)
  {
    VersionTracksCommittedEffects(row, catalog, first);
    VisitsPendingInOrder(Run(row, catalog, first).row, catalog, second);
  }

  /** Over two consecutive runs, the committed migrations are v+1, v+2, ... once each and in order. */
  lemma TwoRunsCommitEachOnce(row: Row, catalog: seq<Migration>, r1: Outcome, r2: Outcome, first: Oracle, second: Oracle)
    requires StoredVersion(row).Some?
    requires r1 == Run(row, catalog, first) && r2 == Run(r1.row, catalog, second)
    ensures var v := StoredVersion(row).value;
      r1.committed + r2.committed == Interval(v + 1, v + 1 + |r1.committed| + |r2.committed|)
  {
    var v := StoredVersion(row).value;
    var v1 := v + |r1.committed|;
    var n := v1 + |r2.committed|;
    CommitsFollowVersion(row, catalog, first);
    CommitsFollowVersion(r1.row, catalog, second);
    IntervalConcat(v + 1, v1 + 1, n + 1);
  }

  /** After a failed run, a rerun in which nothing fails finishes the catalog. */
  lemma RerunWithoutFaultsFinishes(row: Row, catalog: seq<Migration>, r1: Outcome, first: Oracle, second: Oracle)
    requires StoredVersion(row).Some?
    requires r1 == Run(row, catalog, first)
    requires second.setup == SetupFaults(false, false, false)
    requires Clean(second.steps, StoredVersion(row).value + |r1.committed| + 1, |catalog| + 1)
    ensures var r2 := Run(r1.row, catalog, second);
      r2.err == None && StoredVersion(r2.row) == Some(Max(StoredVersion(row).value, |catalog|))
  {
    var v := StoredVersion(row).value;
    VersionTracksCommittedEffects(row, catalog, first);
    VisitsPendingInOrder(row, catalog, first);
    UncommittedOnlyWhenTransactionFails(row, catalog, first);
    SucceedsIffNothingFails(r1.row, catalog, second);
  }

  /** Three migrations that all succeed, on a fresh store: applied once each, in order, version 3. */
  lemma ThreeCleanMigrations()
    ensures var catalog := [Migration("m1"), Migration("m2"), Migration("m3")];
      var r := Run(Absent, catalog, Oracle(SetupFaults(false, false, false), _ => StepFaults(false, false, false, false, false)));
      && r.err == None && r.invoked == [1, 2, 3] && r.committed == [1, 2, 3]
      && r.row == Present(Some(Encoded(3)))
  {
    var catalog := [Migration("m1"), Migration("m2"), Migration("m3")];
    var o := Oracle(SetupFaults(false, false, false), _ => StepFaults(false, false, false, false, false));
    FreshStoreStartsAtFirst(Absent, catalog, o);
    assert Interval(1, 4) == [1, 2, 3];
  }

  /** The second of three migrations fails to apply: version 1, m3 never invoked, the error names m2. */
  lemma SecondOfThreeFails()
    ensures var catalog := [Migration("m1"), Migration("m2"), Migration("m3")];
      var steps := (j: nat) => StepFaults(false, j == 2, false, false, false);
      var r := Run(Absent, catalog, Oracle(SetupFaults(false, false, false), steps));
      && r.err == Some(MigrationFailed("m2", Apply)) && r.invoked == [1, 2] && r.committed == [1]
      && StoredVersion(r.row) == Some(1)
  {
    var catalog := [Migration("m1"), Migration("m2"), Migration("m3")];
    var steps := (j: nat) => StepFaults(false, j == 2, false, false, false);
    assert FirstFault(catalog, steps, 1) == 2;
    assert Interval(1, 2) == [1];
  }
}
