/**
 * The versioned migration runner: `Migrate` reads the persisted version,
 * then applies every pending migration in catalog order, each together with
 * its version bump in one transaction, and stops at the first failure.
 *
 * Connections, the transaction machinery and migration bodies are outside
 * the model; every call that can fail is driven by an `Oracle` of injected
 * faults, so that each failure path of the source can be followed.
 */
module MigrationRunner {
  import opened Wrappers
  import opened VersionStore

  /** A catalog entry: the `Migration` interface reduced to its `Name()`; its `Apply` is `ApplyMigration` below. */
  datatype Migration = Migration(name: string)

  /** The call whose failure ended a run. */
  datatype Stage = Open | Read | Close | Decode | Apply | Write | Commit

  /**
   * An error returned by `Migrate`: a bare (or `liberr.Wrap`ped) failure
   * before the loop, or one wrapped with `"version", m.Name()` inside it.
   */
  datatype Error = Failed(stage: Stage) | MigrationFailed(name: string, stage: Stage)

  /** Which calls fail while the version is read: `database.Open`, `FirstOrCreate`, `database.Close`. */
  datatype SetupFaults = SetupFaults(open: bool, read: bool, close: bool)

  /** Which calls fail while migration i runs: `Open`, `m.Apply`, `setVersion`, the commit, `Close`. */
  datatype StepFaults = StepFaults(open: bool, apply: bool, write: bool, commit: bool, close: bool)

  /** The fault oracle of one run; `steps(i)` is consulted for migration index i. */
  datatype Oracle = Oracle(setup: SetupFaults, steps: nat -> StepFaults)

  /** What a run did: the version row it left, the indices whose transaction committed, the indices whose `Apply` was invoked, and the returned error. */
  datatype Outcome = Outcome(row: Row, committed: seq<nat>, invoked: seq<nat>, err: Option<Error>)

  /** What the loop did from some index on. */
  datatype Tail = Tail(committed: seq<nat>, invoked: seq<nat>, err: Option<Error>)

  /**
   * `append([]Migration{nil}, migrations...)`: with the nil sentinel in
   * front, the caller's k-th migration (1-based) sits at index k.
   */
  function WithSentinel(catalog: seq<Migration>): (migrations: seq<Option<Migration>>)
    ensures |migrations| == |catalog| + 1
    ensures migrations[0] == None
    ensures forall k :: 1 <= k < |migrations| ==> migrations[k] == Some(catalog[k - 1])
  {
    [None] + seq(|catalog|, k requires 0 <= k < |catalog| => Some(catalog[k]))
  }

  /** The failure `db.Transaction(f)` reports for one step, if any: apply, then version write, then commit. */
  function TransactionFault(f: StepFaults): (fault: Option<Stage>)
    ensures fault.None? <==> !f.apply && !f.write && !f.commit
    ensures fault.Some? ==> fault.value in {Apply, Write, Commit}
  {
    if f.apply then Some(Apply)
    else if f.write then Some(Write)
    else if f.commit then Some(Commit)
    else None
  }

  /** The first call that fails while migration i runs (migration/migrate.go:54-81), in the order the source makes them. */
  function StepFault(f: StepFaults): (fault: Option<Stage>)
    ensures fault.None? <==> !f.open && !f.apply && !f.write && !f.commit && !f.close
    ensures f.open ==> fault == Some(Open)
    ensures fault == Some(Close) <==> !f.open && TransactionFault(f).None? && f.close
  {
    if f.open then Some(Open)
    else if TransactionFault(f).Some? then TransactionFault(f)
    else if f.close then Some(Close)
    else None
  }

  /** The `Apply` call step i makes: none when opening its connection failed. */
  function StepCalls(fault: Option<Stage>, i: nat): seq<nat>
  {
    if fault == Some(Open) then [] else [i]
  }

  /** What step i commits: its effect and version bump, unless a call before the close failed. */
  function StepCommits(fault: Option<Stage>, i: nat): seq<nat>
  {
    if fault == None || fault == Some(Close) then [i] else []
  }

  /** The loop from index i to the end of the catalog, one step at a time. */
  function Loop(catalog: seq<Migration>, steps: nat -> StepFaults, i: nat): (t: Tail)
    requires 1 <= i
    ensures t.committed <= t.invoked && |t.invoked| <= |t.committed| + 1
    ensures t.err.None? ==> t.committed == t.invoked
    decreases |catalog| + 1 - i
  {
    if i > |catalog| then Tail([], [], None)
    else match StepFault(steps(i))
      case None =>
        var rest := Loop(catalog, steps, i + 1);
        Tail([i] + rest.committed, [i] + rest.invoked, rest.err)
      case Some(stage) =>
        Tail(StepCommits(Some(stage), i), StepCalls(Some(stage), i),
             Some(MigrationFailed(catalog[i - 1].name, stage)))
  }

  /** The first index from i on whose step fails, or the first index past the catalog when none does. */
  function FirstFault(catalog: seq<Migration>, steps: nat -> StepFaults, i: nat): (k: nat)
    ensures i <= k && (k == i || k <= |catalog| + 1)
    ensures k <= |catalog| ==> StepFault(steps(k)).Some?
    decreases |catalog| + 1 - i
  {
    if i > |catalog| || StepFault(steps(i)).Some? then i else FirstFault(catalog, steps, i + 1)
  }

  /**
   * The loop from index i described by where it stops: every index before
   * the first failing one k commits; k itself is invoked unless opening the
   * connection failed, and counts as committed only when the close failed.
   */
  function Pending(catalog: seq<Migration>, steps: nat -> StepFaults, i: nat): Tail
    requires 1 <= i
  {
    var k := FirstFault(catalog, steps, i);
    if k > |catalog| then Tail(Interval(i, k), Interval(i, k), None)
    else
      var fault := StepFault(steps(k));
      Tail(Interval(i, k) + StepCommits(fault, k),
           Interval(i, k) + StepCalls(fault, k),
           Some(MigrationFailed(catalog[k - 1].name, fault.value)))
  }

  /** The error, if any, with which migration/migrate.go:16-46 end the run before the loop. */
  function ReadFault(row: Row, setup: SetupFaults): (err: Option<Error>)
    ensures err.Some? ==> err.value.Failed?
    ensures err.None? <==> !setup.open && !setup.read && !setup.close && StoredVersion(row).Some?
  {
    if setup.open then Some(Failed(Open))
    else if setup.read then Some(Failed(Read))
    else if setup.close then Some(Failed(Close))
    else if StoredVersion(row).None? then Some(Failed(Decode))
    else None
  }

  /** The version row after migration/migrate.go:16-37: `FirstOrCreate` has created it unless it never ran or failed. */
  function RowAfterRead(row: Row, setup: SetupFaults): (r: Row)
    ensures StoredVersion(r) == StoredVersion(row)
    ensures row.Present? ==> r == row
    ensures r.Absent? <==> row.Absent? && (setup.open || setup.read)
  {
    if setup.open || setup.read then row else Created(row)
  }

  /** Specification of a whole `Migrate` call on a store whose version row is `row`. */
  function Run(row: Row, catalog: seq<Migration>, o: Oracle): (r: Outcome)
    ensures r.err.None? ==> r.committed == r.invoked && r.row.Present?
    ensures r.row.Absent? ==> row.Absent? && r.err.Some?
  {
    match ReadFault(row, o.setup)
    case Some(e) => Outcome(RowAfterRead(row, o.setup), [], [], Some(e))
    case None =>
      var v := StoredVersion(row).value;
      var t := Pending(catalog, o.steps, v + 1);
      var row' := if t.committed == [] then Created(row) else Present(Some(Encode(v + |t.committed|)));
      Outcome(row', t.committed, t.invoked, t.err)
  }

  /**
   * `m.Apply(db)` inside the scope. Its body is not modelled: on success it
   * stages the effect of migration `index`; a failing migration may already
   * have staged part of its work, which only the rollback removes.
   */
  method ApplyMigration(m: Migration, store: Store, tx: Tx, index: nat, fails: bool) returns (ok: bool)
    modifies tx`effects, store`calls
    ensures ok == !fails
    ensures ok ==> tx.effects == old(tx.effects) + [index]
    ensures store.calls == old(store.calls) + [index]
  {
    store.calls := store.calls + [index];
    tx.effects := tx.effects + [index];
    ok := !fails;
  }

  /**
   * `db.Transaction(f)` with f = apply, then `setVersion(db, i)`: the
   * migration's effects and the version bump commit together or not at all.
   */
  method Transaction(store: Store, m: Migration, i: nat, f: StepFaults) returns (fault: Option<Stage>)
    requires store.row.Present?
    modifies store
    ensures fault == TransactionFault(f)
    ensures fault == None ==> store.row == Present(Some(Encode(i))) && store.effects == old(store.effects) + [i]
    ensures fault != None ==> store.row == old(store.row) && store.effects == old(store.effects)
    ensures store.calls == old(store.calls) + [i]
  {
    var tx := store.Begin();
    var ok := ApplyMigration(m, store, tx, i, f.apply);
    if !ok {
      return Some(Apply);
    }
    ok := SetVersion(tx, i, f.write);
    if !ok {
      return Some(Write);
    }
    ok := store.Commit(tx, f.commit);
    if !ok {
      return Some(Commit);
    }
    fault := None;
  }

  /**
   * One iteration of the loop (migration/migrate.go:52-82): open a connection, run the
   * transaction, close the connection. A failed close comes after the
   * commit, so the migration has committed although the step reports it.
   */
  method Step(store: Store, m: Migration, i: nat, f: StepFaults) returns (fault: Option<Stage>)
    requires store.row.Present?
    modifies store
    ensures fault == StepFault(f)
    ensures store.calls == old(store.calls) + StepCalls(fault, i)
    ensures store.effects == old(store.effects) + StepCommits(fault, i)
    ensures store.row == if StepCommits(fault, i) == [] then old(store.row) else Present(Some(Encode(i)))
  {
    if f.open {
      return Some(Open);
    }
    fault := Transaction(store, m, i, f);
    if fault.Some? {
      return;
    }
    if f.close {
      return Some(Close);
    }
  }

  /**
   * migration/migrate.go:16-46: open a connection, read (or create) the version row, close
   * the connection and decode the value; `v` is the starting version.
   */
  method ReadVersion(store: Store, setup: SetupFaults) returns (v: nat, err: Option<Error>)
    requires store.Valid()
    modifies store`row
    ensures store.Valid()
    ensures err == ReadFault(old(store.row), setup)
    ensures store.row == RowAfterRead(old(store.row), setup)
    ensures err.None? ==> Some(v) == StoredVersion(old(store.row))
  {
    v := 0;
    if setup.open {
      return v, Some(Failed(Open));
    }
    var ok, value := store.FirstOrCreate(setup.read);
    if !ok {
      return v, Some(Failed(Read));
    }
    if setup.close {
      return v, Some(Failed(Close));
    }
    if value.Some? {
      match value.value
      case Garbled =>
        return v, Some(Failed(Decode));
      case Encoded(n) =>
        v := n;
    }
    err := None;
  }

  /** The loop commits a run of consecutive indices starting at i. */
  lemma PendingCommitsInOrder(catalog: seq<Migration>, steps: nat -> StepFaults, i: nat)
    requires 1 <= i
    ensures var t := Pending(catalog, steps, i);
      t.committed == Interval(i, i + |t.committed|)
  {
    var k := FirstFault(catalog, steps, i);
    if k <= |catalog| && StepFault(steps(k)) == Some(Close) {
      IntervalConcat(i, k, k + 1);
    }
  }

  /** At the first failing index i, or past the end, the loop's result is fixed (a helper for the loop's exits). */
  lemma PendingStopsAt(catalog: seq<Migration>, steps: nat -> StepFaults, v: nat, i: nat)
    requires v + 1 <= i
    requires FirstFault(catalog, steps, v + 1) == FirstFault(catalog, steps, i)
    requires i > |catalog| || StepFault(steps(i)).Some?
    ensures var t := Pending(catalog, steps, v + 1);
      if i > |catalog| then t == Tail(Interval(v + 1, i), Interval(v + 1, i), None)
      else
        var fault := StepFault(steps(i));
        t == Tail(Interval(v + 1, i) + StepCommits(fault, i),
                  Interval(v + 1, i) + StepCalls(fault, i),
                  Some(MigrationFailed(catalog[i - 1].name, fault.value)))
  {
  }

  /**
   * migration/migrate.go:50-85: the sentinel is prepended and
   * migrations v+1..N run in increasing order, each in its own transaction,
   * until one fails.
   */
  method RunPending(store: Store, catalog: seq<Migration>, steps: nat -> StepFaults, v: nat) returns (err: Option<Error>)
    requires store.row.Present? && StoredVersion(store.row) == Some(v)
    modifies store
    ensures var t := Pending(catalog, steps, v + 1);
      && err == t.err && store.calls == old(store.calls) + t.invoked
      && store.row == (if t.committed == [] then old(store.row) else Present(Some(Encode(v + |t.committed|))))
      && store.effects == old(store.effects) + t.committed
  {
    var migrations := WithSentinel(catalog);
    var i := v + 1;
    while i < |migrations|
      invariant v + 1 <= i && (i <= |migrations| || i == v + 1)
      invariant FirstFault(catalog, steps, v + 1) == FirstFault(catalog, steps, i)
      invariant store.row == if i == v + 1 then old(store.row) else Present(Some(Encode(i - 1)))
      invariant store.effects == old(store.effects) + Interval(v + 1, i)
      invariant store.calls == old(store.calls) + Interval(v + 1, i)
      decreases |migrations| - i
    {
      var m := migrations[i].value;
      var fault := Step(store, m, i, steps(i));
      if fault.Some? {
        PendingStopsAt(catalog, steps, v, i);
        assert store.calls == old(store.calls) + (Interval(v + 1, i) + StepCalls(fault, i));
        assert store.effects == old(store.effects) + (Interval(v + 1, i) + StepCommits(fault, i));
        return Some(MigrationFailed(m.name, fault.value));
      }
      IntervalConcat(v + 1, i, i + 1);
      i := i + 1;
    }
    PendingStopsAt(catalog, steps, v, i);
    err := None;
  }

  /**
   * `Migrate(migrations)`: read the version, then apply the pending
   * migrations; `store.calls` records every `Apply` the run makes.
   */
  method Migrate(store: Store, catalog: seq<Migration>, o: Oracle) returns (err: Option<Error>)
    requires store.Valid()
    modifies store
    ensures store.Valid()
    ensures var r := Run(old(store.row), catalog, o);
      && err == r.err && store.calls == old(store.calls) + r.invoked
      && store.row == r.row && store.effects == old(store.effects) + r.committed
  {
    var v;
    v, err := ReadVersion(store, o.setup);
    if err.Some? {
      return err;
    }
    err := RunPending(store, catalog, o.steps, v);
    PendingCommitsInOrder(catalog, o.steps, v + 1);
    IntervalConcat(1, v + 1, v + 1 + |Pending(catalog, o.steps, v + 1).committed|);
  }
}
