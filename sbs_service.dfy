/**
 * The `sbsService` package: the ingestion cycle and the table set-up as
 * ordered calls on a `Database`, a deferred Rollback that fires whenever
 * the shared `err` is set on the way out, and the clean-up scheduling.
 *
 * The `Database` implementation is not part of this model. It is modelled as
 * a store with snapshot transactions: Begin saves the current table,
 * Rollback puts the saved table back, Commit drops the saved copy. Whether
 * a call fails is an oracle of the store, fixed per call and its arguments.
 */
module SbsService {
  import opened Wrappers
  import opened Models

  /** `global.MaxDaysHistory`. */
  const MaxDaysHistory: int := 1

  /** The calls the service makes on its `Database` and `Scheduler`. */
  datatype Call =
    | InsertHistoryFromCurrent
    | Begin
    | Commit
    | Rollback
    | DropAircraftCurrentTable
    | CreateAircraftCurrentTable
    | CreateAircraftCurrentTimestampIndex
    | CreateAircraftHistoryTable
    | BulkInsertAircraftCurrent(aircraft: seq<AircraftCurrent>)
    | DeleteOldHistory(days: int)

  /** What the service returns: a store's error passed on unchanged, or its own. */
  datatype Error = StoreError(msg: string) | CronSchedulerIsNotInitialized

  /** What Begin saves and Rollback restores. */
  datatype Snapshot = Snapshot(currentExists: bool, indexExists: bool, current: seq<AircraftCurrent>)

  /**
   * The tables as the service sees them: the current table, whether it and
   * its timestamp index exist, whether the history table exists, every
   * current table copied into the history (in order), and the snapshot of
   * an open transaction.
   */
  datatype Tables = Tables(
    current: seq<AircraftCurrent>,
    currentExists: bool,
    indexExists: bool,
    historyExists: bool,
    carried: seq<seq<AircraftCurrent>>,
    open: Option<Snapshot>)

  function SnapshotOf(t: Tables): Snapshot
  {
    Snapshot(t.currentExists, t.indexExists, t.current)
  }

  /** The index of the first call in `steps` that fails, or `|steps|` when none does. */
  function FirstFailing(steps: seq<Call>, failure: Call -> Option<string>): (k: nat)
    ensures k <= |steps|
  {
    if steps == [] then 0
    else if failure(steps[0]).Some? then 0
    else 1 + FirstFailing(steps[1..], failure)
  }

  /** Every call before the first failing one succeeds, and that one fails. */
  lemma {:induction false} FirstFailingSpec(steps: seq<Call>, failure: Call -> Option<string>)
    ensures forall j :: 0 <= j < FirstFailing(steps, failure) ==> failure(steps[j]).None?
    ensures FirstFailing(steps, failure) < |steps| ==> failure(steps[FirstFailing(steps, failure)]).Some?
  {
    if steps != [] && failure(steps[0]).None? {
      FirstFailingSpec(steps[1..], failure);
      forall j | 1 <= j < FirstFailing(steps, failure) ensures failure(steps[j]).None? {
        assert steps[j] == steps[1..][j - 1];
      }
    }
  }

  /** The first failing call among four, as a case split. */
  lemma FirstFailingOfFour(a: Call, b: Call, c: Call, d: Call, failure: Call -> Option<string>)
    ensures FirstFailing([a, b, c, d], failure) ==
      if failure(a).Some? then 0 else if failure(b).Some? then 1
      else if failure(c).Some? then 2 else if failure(d).Some? then 3 else 4
  {
    assert [a, b, c, d][1..] == [b, c, d];
    assert [b, c, d][1..] == [c, d];
    assert [c, d][1..] == [d];
    assert [d][1..] == [];
    assert FirstFailing([d], failure) == if failure(d).Some? then 0 else 1;
    assert FirstFailing([c, d], failure) == if failure(c).Some? then 0 else 1 + FirstFailing([d], failure);
    assert FirstFailing([b, c, d], failure) == if failure(b).Some? then 0 else 1 + FirstFailing([c, d], failure);
  }

  /** The calls InsertNewSbsData makes inside its transaction. */
  function InsertSteps(aircraft: seq<AircraftCurrent>): seq<Call>
  {
    [DropAircraftCurrentTable, CreateAircraftCurrentTable, BulkInsertAircraftCurrent(aircraft), Commit]
  }

  /** The calls CreateAdsbTables makes after Begin. */
  const CreateSteps: seq<Call> :=
    [CreateAircraftCurrentTable, CreateAircraftCurrentTimestampIndex, Commit, CreateAircraftHistoryTable]

  /** The `Database` behind the service. */
  class Store {
    var tables: Tables
    /** Every call made, in order. */
    var calls: seq<Call>
    /** The error, if any, each call returns. */
    const failure: Call -> Option<string>
    /** How many rows a failing bulk insert leaves behind. */
    const kept: nat

    function Partial(n: nat): (m: nat)
      ensures m <= n
    {
      if kept < n then kept else n
    }

    constructor (tables: Tables, failure: Call -> Option<string>, kept: nat)
      ensures this.tables == tables && this.calls == [] && this.failure == failure && this.kept == kept
    {
      this.tables, this.calls := tables, [];
      this.failure, this.kept := failure, kept;
    }

    /** Copies the current table into the history (the call's own upsert is in the Database module). */
    method InsertHistoryFromCurrent() returns (err: Option<string>)
      modifies this
      ensures err == failure(Call.InsertHistoryFromCurrent) && calls == old(calls) + [Call.InsertHistoryFromCurrent]
      ensures tables == if err.None? then old(tables).(carried := old(tables).carried + [old(tables).current]) else old(tables)
    {
      err := failure(Call.InsertHistoryFromCurrent);
      calls := calls + [Call.InsertHistoryFromCurrent];
      if err.None? {
        tables := tables.(carried := tables.carried + [tables.current]);
      }
    }

    /** Opens a transaction: the current table is saved. */
    method Begin() returns (err: Option<string>)
      modifies this
      ensures err == failure(Call.Begin) && calls == old(calls) + [Call.Begin]
      ensures tables == if err.None? then old(tables).(open := Some(SnapshotOf(old(tables)))) else old(tables)
    {
      err := failure(Call.Begin);
      calls := calls + [Call.Begin];
      if err.None? {
        tables := tables.(open := Some(SnapshotOf(tables)));
      }
    }

    /** Ends the transaction: the saved copy is dropped. */
    method Commit() returns (err: Option<string>)
      modifies this
      ensures err == failure(Call.Commit) && calls == old(calls) + [Call.Commit]
      ensures tables == if err.None? then old(tables).(open := None) else old(tables)
    {
      err := failure(Call.Commit);
      calls := calls + [Call.Commit];
      if err.None? {
        tables := tables.(open := None);
      }
    }

    /** Drops the current table, and with it its rows and its index. */
    method DropAircraftCurrentTable() returns (err: Option<string>)
      modifies this
      ensures err == failure(Call.DropAircraftCurrentTable) && calls == old(calls) + [Call.DropAircraftCurrentTable]
      ensures tables == if err.None? then old(tables).(currentExists := false, indexExists := false, current := []) else old(tables)
    {
      err := failure(Call.DropAircraftCurrentTable);
      calls := calls + [Call.DropAircraftCurrentTable];
      if err.None? {
        tables := tables.(currentExists := false, indexExists := false, current := []);
      }
    }

    /** Creates the current table if it does not exist. */
    method CreateAircraftCurrentTable() returns (err: Option<string>)
      modifies this
      ensures err == failure(Call.CreateAircraftCurrentTable) && calls == old(calls) + [Call.CreateAircraftCurrentTable]
      ensures tables == if err.None? then old(tables).(currentExists := true) else old(tables)
    {
      err := failure(Call.CreateAircraftCurrentTable);
      calls := calls + [Call.CreateAircraftCurrentTable];
      if err.None? {
        tables := tables.(currentExists := true);
      }
    }

    /** Creates the timestamp index. */
    method CreateAircraftCurrentTimestampIndex() returns (err: Option<string>)
      modifies this
      ensures err == failure(Call.CreateAircraftCurrentTimestampIndex) && calls == old(calls) + [Call.CreateAircraftCurrentTimestampIndex]
      ensures tables == if err.None? then old(tables).(indexExists := true) else old(tables)
    {
      err := failure(Call.CreateAircraftCurrentTimestampIndex);
      calls := calls + [Call.CreateAircraftCurrentTimestampIndex];
      if err.None? {
        tables := tables.(indexExists := true);
      }
    }

    /** Creates the history table if it does not exist. */
    method CreateAircraftHistoryTable() returns (err: Option<string>)
      modifies this
      ensures err == failure(Call.CreateAircraftHistoryTable) && calls == old(calls) + [Call.CreateAircraftHistoryTable]
      ensures tables == if err.None? then old(tables).(historyExists := true) else old(tables)
    {
      err := failure(Call.CreateAircraftHistoryTable);
      calls := calls + [Call.CreateAircraftHistoryTable];
      if err.None? {
        tables := tables.(historyExists := true);
      }
    }

    /** Inserts the rows; a failure may leave the first `kept` of them behind. */
    method BulkInsertAircraftCurrent(aircraft: seq<AircraftCurrent>) returns (err: Option<string>)
      modifies this
      ensures err == failure(Call.BulkInsertAircraftCurrent(aircraft)) && calls == old(calls) + [Call.BulkInsertAircraftCurrent(aircraft)]
      ensures tables == old(tables).(current := old(tables).current + (if err.None? then aircraft else aircraft[..Partial(|aircraft|)]))
    {
      err := failure(Call.BulkInsertAircraftCurrent(aircraft));
      calls := calls + [Call.BulkInsertAircraftCurrent(aircraft)];
      tables := tables.(current := tables.current + (if err.None? then aircraft else aircraft[..Partial(|aircraft|)]));
    }

    /** History retention, whose effect on the rows is not modelled. */
    method DeleteOldHistory(days: int) returns (err: Option<string>)
      modifies this
      ensures err == failure(Call.DeleteOldHistory(days)) && calls == old(calls) + [Call.DeleteOldHistory(days)]
      ensures tables == old(tables)
    {
      err := failure(Call.DeleteOldHistory(days));
      calls := calls + [Call.DeleteOldHistory(days)];
    }

    /** Ends the transaction: the saved tables come back. Its error is never read, so it is not returned. */
    method Rollback()
      modifies this
      ensures calls == old(calls) + [Call.Rollback]
      ensures tables == match old(tables).open
        case None => old(tables)
        case Some(saved) => old(tables).(currentExists := saved.currentExists, indexExists := saved.indexExists,
                                         current := saved.current, open := None)
    {
      calls := calls + [Call.Rollback];
      match tables.open
      case None =>
      case Some(saved) =>
        tables := tables.(currentExists := saved.currentExists, indexExists := saved.indexExists,
                          current := saved.current, open := None);
    }
  }

  /** The functions `SbsImpl` hands to the scheduler: only its clean-up job. */
  datatype Job = Cleanup

  /** A `cronScheduler.Scheduler`: started or not, and each job it holds with its schedule. */
  class Scheduler {
    var started: bool
    var jobs: seq<(string, Job)>
    /** `cron.AddFunc`'s error for a schedule it cannot parse. */
    const rejects: string -> Option<string>

    constructor (rejects: string -> Option<string>)
      ensures !started && jobs == [] && this.rejects == rejects
    {
      started, jobs := false, [];
      this.rejects := rejects;
    }

    method Start()
      modifies this
      ensures started && jobs == old(jobs)
    {
      started := true;
    }

    method ScheduleJob(schedule: string, job: Job) returns (err: Option<string>)
      modifies this
      ensures err == rejects(schedule) && started == old(started)
      ensures jobs == old(jobs) + (if err.None? then [(schedule, job)] else [])
    {
      err := rejects(schedule);
      if err.None? {
        jobs := jobs + [(schedule, job)];
      }
    }
  }

  function Lift(e: Option<string>): Option<Error>
  {
    match e
    case None => None
    case Some(m) => Some(StoreError(m))
  }

  /** `SbsImpl`: a store and a scheduler that may be nil. */
  class SbsImpl {
    const db: Store
    const cron: Scheduler?

    constructor (db: Store, cron: Scheduler?)
      ensures this.db == db && this.cron == cron
    {
      this.db, this.cron := db, cron;
    }

    /**
     * The carry-forward into history, then one transaction that replaces
     * the current table by `aircraft`. A failure before Begin returns with
     * no Rollback; a failure after Begin returns that error, makes no later
     * step call and rolls back once, so the current table is as it was
     * while the carry-forward stays. No transaction is left open.
     */
    method InsertNewSbsData(aircraft: seq<AircraftCurrent>) returns (err: Option<Error>)
      requires db.tables.open.None?
      modifies db
      ensures db.tables.open.None?
      ensures var steps, t := InsertSteps(aircraft), old(db.tables);
        var carried := t.(carried := t.carried + [t.current]);
        var k := FirstFailing(steps, db.failure);
        if db.failure(InsertHistoryFromCurrent).Some? then
          err == Lift(db.failure(InsertHistoryFromCurrent)) && db.calls == old(db.calls) + [InsertHistoryFromCurrent]
          && db.tables == t
        else if db.failure(Begin).Some? then
          err == Lift(db.failure(Begin)) && db.calls == old(db.calls) + [InsertHistoryFromCurrent, Begin]
          && db.tables == carried
        else if k == |steps| then
          err == None && db.calls == old(db.calls) + [InsertHistoryFromCurrent, Begin] + steps
          && db.tables == carried.(current := aircraft, currentExists := true, indexExists := false)
        else
          err == Lift(db.failure(steps[k]))
          && db.calls == old(db.calls) + [InsertHistoryFromCurrent, Begin] + steps[..k + 1] + [Rollback]
          && db.tables == carried
    {
      var e := db.InsertHistoryFromCurrent();
      if e.Some? {
        return Lift(e);
      }
      e := db.Begin();
      if e.Some? {
        return Lift(e);
      }
      ghost var before := db.calls;
      e := InsertInTransaction(aircraft);
      assert before == old(db.calls) + [InsertHistoryFromCurrent, Begin];
      err := Lift(e);
    }

    /**
     * The part of InsertNewSbsData after a successful Begin: drop, create,
     * bulk insert and Commit, stopping at the first error, which the
     * deferred closure answers with one Rollback back to the snapshot.
     */
    method InsertInTransaction(aircraft: seq<AircraftCurrent>) returns (e: Option<string>)
      requires db.tables.open == Some(SnapshotOf(db.tables))
      modifies db
      ensures db.tables.open.None?
      ensures var steps, t := InsertSteps(aircraft), old(db.tables);
        var k := FirstFailing(steps, db.failure);
        if k == |steps| then
          e == None && db.calls == old(db.calls) + steps
          && db.tables == t.(current := aircraft, currentExists := true, indexExists := false, open := None)
        else
          e == db.failure(steps[k]) && db.calls == old(db.calls) + steps[..k + 1] + [Rollback]
          && db.tables == t.(open := None)
    {
      ghost var steps := InsertSteps(aircraft);
      FirstFailingOfFour(steps[0], steps[1], steps[2], steps[3], db.failure);
      assert steps == [steps[0], steps[1], steps[2], steps[3]];
      // Every return from here on runs the deferred Rollback, since err is set.
      e := db.DropAircraftCurrentTable();
      if e.Some? {
        db.Rollback();
        return;
      }
      e := db.CreateAircraftCurrentTable();
      if e.Some? {
        db.Rollback();
        return;
      }
      e := db.BulkInsertAircraftCurrent(aircraft);
      if e.Some? {
        db.Rollback();
        return;
      }
      e := db.Commit();
      if e.Some? {
        db.Rollback();
        return;
      }
    }

    /**
     * Begin, the current table, its index and Commit, then the history
     * table outside the transaction. The first failure is returned and, once
     * Begin has succeeded, rolls back: before Commit that undoes the
     * current table; after it, when the history table fails, there is no
     * transaction left and the current table stays.
     */
    method CreateAdsbTables() returns (err: Option<Error>)
      requires db.tables.open.None?
      modifies db
      ensures db.tables.open.None?
      ensures var t := old(db.tables);
        var k := FirstFailing(CreateSteps, db.failure);
        if db.failure(Begin).Some? then
          err == Lift(db.failure(Begin)) && db.calls == old(db.calls) + [Begin] && db.tables == t
        else if k == |CreateSteps| then
          err == None && db.calls == old(db.calls) + [Begin] + CreateSteps
          && db.tables == t.(currentExists := true, indexExists := true, historyExists := true)
        else
          err == Lift(db.failure(CreateSteps[k]))
          && db.calls == old(db.calls) + [Begin] + CreateSteps[..k + 1] + [Rollback]
          && db.tables == (if k < 3 then t else t.(currentExists := true, indexExists := true))
    {
      var e := db.Begin();
      if e.Some? {
        return Lift(e);
      }
      e := CreateInTransaction();
      err := Lift(e);
    }

    /**
     * The part of CreateAdsbTables after a successful Begin. Every return
     * with an error runs the deferred Rollback, also the one after Commit,
     * where no transaction is left to undo.
     */
    method CreateInTransaction() returns (e: Option<string>)
      requires db.tables.open == Some(SnapshotOf(db.tables))
      modifies db
      ensures db.tables.open.None?
      ensures var t := old(db.tables);
        var k := FirstFailing(CreateSteps, db.failure);
        if k == |CreateSteps| then
          e == None && db.calls == old(db.calls) + CreateSteps
          && db.tables == t.(currentExists := true, indexExists := true, historyExists := true, open := None)
        else
          e == db.failure(CreateSteps[k]) && db.calls == old(db.calls) + CreateSteps[..k + 1] + [Rollback]
          && db.tables == (if k < 3 then t.(open := None) else t.(currentExists := true, indexExists := true, open := None))
    {
      FirstFailingOfFour(CreateSteps[0], CreateSteps[1], CreateSteps[2], CreateSteps[3], db.failure);
      assert CreateSteps == [CreateSteps[0], CreateSteps[1], CreateSteps[2], CreateSteps[3]];
      e := db.CreateAircraftCurrentTable();
      if e.Some? {
        db.Rollback();
        return;
      }
      e := db.CreateAircraftCurrentTimestampIndex();
      if e.Some? {
        db.Rollback();
        return;
      }
      e := db.Commit();
      if e.Some? {
        db.Rollback();
        return;
      }
      e := db.CreateAircraftHistoryTable();
      if e.Some? {
        db.Rollback();
        return;
      }
    }

    /** Starts the scheduler, or reports that there is none. */
    method StartScheduler() returns (err: Option<Error>)
      modifies cron
      ensures cron == null ==> err == Some(CronSchedulerIsNotInitialized)
      ensures cron != null ==> err == None && cron.started && cron.jobs == old(cron.jobs)
    {
      if cron == null {
        return Some(CronSchedulerIsNotInitialized);
      }
      cron.Start();
      err := None;
    }

    /** The scheduled job: deletes old history once and only logs a failure. */
    method CleanupJob()
      modifies db
      ensures db.calls == old(db.calls) + [DeleteOldHistory(MaxDaysHistory)]
      ensures db.tables == old(db.tables)
    {
      var e := db.DeleteOldHistory(MaxDaysHistory);
    }

    /** Adds the clean-up job under `schedule` and returns the scheduler's answer unchanged. */
    method ScheduleCleanUpJob(schedule: string) returns (err: Option<Error>)
      modifies cron
      ensures cron == null ==> err == Some(CronSchedulerIsNotInitialized)
      ensures cron != null ==>
        && err == Lift(cron.rejects(schedule)) && cron.started == old(cron.started)
        && cron.jobs == old(cron.jobs) + (if err.None? then [(schedule, Cleanup)] else [])
    {
      if cron == null {
        return Some(CronSchedulerIsNotInitialized);
      }
      var e := cron.ScheduleJob(schedule, Cleanup);
      err := Lift(e);
    }
  }
}
