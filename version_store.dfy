/**
 * The persisted version record of the migration package: one settings row
 * stored under `VersionKey`, whose value is the JSON encoding of `Version`,
 * the index of the last migration that committed.
 *
 * The store also carries a ghost log of the migrations whose effects have
 * committed, so that "applied exactly once, in order" can be stated.
 */
module VersionStore {
  import opened Wrappers

  /** The bytes of the row's value: either a well-formed `Version` document or something `json.Unmarshal` rejects. */
  datatype Payload = Encoded(version: nat) | Garbled

  /** The settings row under `VersionKey`: absent, or present with a possibly nil value. */
  datatype Row = Absent | Present(value: Option<Payload>)

  /**
   * The version a run starts from: 0 for a missing row or a nil value
   * (the zero `Version`), the decoded number otherwise, and None when
   * the value does not decode.
   */
  function StoredVersion(row: Row): (v: Option<nat>)
    ensures v.None? <==> row == Present(Some(Garbled))
    ensures row.Absent? || row.value.None? ==> v == Some(0)
  {
    match row
    case Absent => Some(0)
    case Present(None) => Some(0)
    case Present(Some(Encoded(n))) => Some(n)
    case Present(Some(Garbled)) => None
  }

  /** `json.Marshal(Version{Version: version})`; decoding it gives the version back. */
  function Encode(version: nat): (p: Payload)
    ensures StoredVersion(Present(Some(p))) == Some(version)
  {
    Encoded(version)
  }

  /** The row `FirstOrCreate` leaves behind: an absent row is created with a nil value. */
  function Created(row: Row): (r: Row)
    ensures r.Present?
    ensures StoredVersion(r) == StoredVersion(row)
    ensures row.Present? ==> r == row
  {
    if row.Absent? then Present(None) else row
  }

  /** The indices lo, lo+1, ..., hi-1 (empty when hi <= lo). */
  function Interval(lo: nat, hi: nat): (s: seq<nat>)
    ensures |s| == if lo <= hi then hi - lo else 0
    decreases hi - lo
  {
    if lo < hi then [lo] + Interval(lo + 1, hi) else []
  }

  lemma {:induction false} IntervalConcat(lo: nat, mid: nat, hi: nat)
    requires lo <= mid <= hi
    ensures Interval(lo, mid) + Interval(mid, hi) == Interval(lo, hi)
    decreases mid - lo
  {
    if lo < mid {
      IntervalConcat(lo + 1, mid, hi);
      assert Interval(lo, mid) + Interval(mid, hi) == [lo] + (Interval(lo + 1, mid) + Interval(mid, hi));
    }
  }

  /** A transactional scope: a staged copy of the store that commits as a whole or is dropped. */
  class Tx {
    var row: Row
    ghost var effects: seq<nat>

    constructor (row: Row, ghost effects: seq<nat>)
      ensures this.row == row && this.effects == effects
    {
      this.row := row;
      this.effects := effects;
    }
  }

  /** The database, reduced to the version row and the effects of committed migrations. */
  class Store {
    var row: Row
    /** Indices of the migrations whose effects have committed, in commit order. */
    ghost var effects: seq<nat>
    /**
     * Indices of the migrations whose `Apply` has been called, in call order.
     * An instrument rather than persisted state: a rollback does not remove a call.
     */
    ghost var calls: seq<nat>

    /** Migrations 1..version, and no others, have committed, once each and in order. */
    ghost predicate Valid()
      reads this
    {
      StoredVersion(row).Some? ==> effects == Interval(1, StoredVersion(row).value + 1)
    }

    /** A store holding `row` whose committed effects are exactly 1..version; no `Apply` has been called yet. */
    constructor (row: Row)
      requires StoredVersion(row).Some?
      ensures Valid() && this.row == row && calls == []
    {
      this.row := row;
      effects := Interval(1, StoredVersion(row).value + 1);
      calls := [];
    }

    /** `FirstOrCreate(setting, Setting{Key: VersionKey})`: read the row, creating it when absent. */
    method FirstOrCreate(fails: bool) returns (ok: bool, value: Option<Payload>)
      requires Valid()
      modifies this`row
      ensures Valid()
      ensures ok == !fails
      ensures row == if ok then Created(old(row)) else old(row)
      ensures ok ==> row == Present(value)
    {
      if fails {
        return false, None;
      }
      row := Created(row);
      ok, value := true, row.value;
    }

    /** Begin a transaction: the scope starts as a copy of the committed state. */
    method Begin() returns (tx: Tx)
      ensures fresh(tx) && tx.row == row && tx.effects == effects
    {
      tx := new Tx(row, effects);
    }

    /** Commit a scope: everything it staged becomes visible at once, or nothing does. */
    method Commit(tx: Tx, fails: bool) returns (ok: bool)
      modifies this`row, this`effects
      ensures ok == !fails
      ensures ok ==> row == tx.row && effects == tx.effects
      ensures !ok ==> row == old(row) && effects == old(effects)
    {
      if fails {
        return false;
      }
      row, effects := tx.row, tx.effects;
      ok := true;
    }
  }

  /**
   * `setVersion(db, version)`: write the version record inside the caller's
   * scope. `Where("key", VersionKey).Updates` reports no error when no row
   * matches, so an absent row stays absent and the write is lost silently.
   */
  method SetVersion(tx: Tx, version: nat, fails: bool) returns (ok: bool)
    modifies tx`row
    ensures ok == !fails
    ensures tx.row == if ok && old(tx.row).Present? then Present(Some(Encode(version))) else old(tx.row)
  {
    if fails {
      return false;
    }
    if tx.row.Present? {
      tx.row := Present(Some(Encode(version)));
    }
    ok := true;
  }
}
