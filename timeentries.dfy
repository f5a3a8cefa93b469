/** The time-entry routes: the batch save of new and edited entries, the
    daily summary and the monthly overview. */
module TimeEntries {
  import opened Common
  import opened Text
  import opened Calendar
  import opened Tables
  import opened Http
  import opened Overtime

  /** The legal limit of overtime hours in a month, reported with the overview. */
  const OVERTIME_LIMIT: int := 46

  // ---------------------------------------------------------------------------
  // Rounding to hundredths

  /** A whole number of hundredths. */
  predicate IsHundredths(x: real)
  {
    (x * 100.0).Floor as real == x * 100.0
  }

  /** The nearest hundredth of `x`, a half rounding up. */
  function HalfUpHundredths(x: real): (r: real)
    ensures IsHundredths(r)
    ensures -0.005 < r - x <= 0.005
    ensures IsHundredths(x) ==> r == x
  {
    var n := (x * 100.0 + 0.5).Floor;
    assert n as real <= x * 100.0 + 0.5 < n as real + 1.0;
    var r := n as real / 100.0;
    assert r * 100.0 == n as real;
    assert IsHundredths(x) ==> n == (x * 100.0).Floor by {
      if IsHundredths(x) {
        var m := (x * 100.0).Floor;
        assert m as real <= x * 100.0 + 0.5 < m as real + 1.0;
      }
    }
    r
  }

  /** `hours.toFixed(2)` read back as a decimal: the nearest hundredth, a half
      rounding away from zero. */
  function RoundHundredths(x: real): (r: real)
    ensures IsHundredths(r)
    ensures -0.005 <= r - x <= 0.005
    ensures x >= 0.0 ==> r >= 0.0
    ensures IsHundredths(x) ==> r == x
  {
    if x < 0.0 then
      NegatedHundredths(x);
      NegatedHundredths(HalfUpHundredths(-x));
      -HalfUpHundredths(-x)
    else HalfUpHundredths(x)
  }

  lemma NegatedHundredths(y: real)
    ensures IsHundredths(y) <==> IsHundredths(-y)
  {
    if IsHundredths(y) {
      FloorOfWhole(-(y * 100.0).Floor);
    }
    if IsHundredths(-y) {
      FloorOfWhole(-(-y * 100.0).Floor);
    }
  }

  lemma FloorOfWhole(m: int)
    ensures (m as real).Floor == m
  {
  }

  /** Rounding twice is rounding once. */
  lemma RoundIdempotent(x: real)
    ensures RoundHundredths(RoundHundredths(x)) == RoundHundredths(x)
  {
  }

  // ---------------------------------------------------------------------------
  // The batch: partition and not-found check

  /** An entry of a submitted batch as the client sends it; a new entry has
      no id. */
  datatype Submitted = Submitted(id: Option<string>, userId: string, projectId: string, date: CivilDate, hours: real)

  /** `!e.id`: no id, or the empty string. */
  predicate IsNew(e: Submitted)
  {
    e.id.None? || e.id.value == ""
  }

  function UpdateId(e: Submitted): string
  {
    if e.id.Some? then e.id.value else ""
  }

  function ToCreate(entries: seq<Submitted>): seq<Submitted>
  {
    Filter(entries, IsNew)
  }

  function ToUpdate(entries: seq<Submitted>): seq<Submitted>
  {
    Filter(entries, e => !IsNew(e))
  }

  /** Every submitted entry lands in exactly one of the two parts: the new
      ones are created, the ones with an id are updates. */
  lemma PartitionExact(entries: seq<Submitted>)
    ensures multiset(ToCreate(entries)) + multiset(ToUpdate(entries)) == multiset(entries)
    ensures |ToCreate(entries)| + |ToUpdate(entries)| == |entries|
    ensures forall e :: e in ToCreate(entries) ==> IsNew(e)
    ensures forall e :: e in ToUpdate(entries) ==> e.id.Some? && e.id.value != ""
  {
    var both := multiset(ToCreate(entries)) + multiset(ToUpdate(entries));
    forall x
      ensures both[x] == multiset(entries)[x]
    {
      FilterCount(entries, IsNew, x);
      FilterCount(entries, e => !IsNew(e), x);
    }
    assert both == multiset(entries);
    forall e | e in ToCreate(entries) ensures IsNew(e) {
      FilterMembers(entries, IsNew, e);
    }
    forall e | e in ToUpdate(entries) ensures e.id.Some? && e.id.value != "" {
      FilterMembers(entries, e => !IsNew(e), e);
    }
  }

  /** The ids of the update part, in the order submitted. */
  function UpdateIds(entries: seq<Submitted>): seq<string>
  {
    Map(ToUpdate(entries), UpdateId)
  }

  /** The update ids that no row of the table has, each once, in order of
      first mention. */
  function NotFoundIds(table: seq<TimeEntry>, ids: seq<string>): (r: seq<string>)
    ensures NoDuplicates(r)
    ensures forall id :: id in r <==> id in ids && !HasId(table, id)
  {
    var missing := (id: string) => !HasId(table, id);
    FilterNoDuplicates(Distinct(ids), missing);
    assert forall id :: id in Filter(Distinct(ids), missing) <==> id in ids && !HasId(table, id) by {
      forall id ensures id in Filter(Distinct(ids), missing) <==> id in ids && !HasId(table, id) {
        FilterMembers(Distinct(ids), missing, id);
        DistinctMembers(ids, id);
      }
    }
    Filter(Distinct(ids), missing)
  }

  function NotFoundMessage(ids: seq<string>): string
  {
    "Time entry ids not found: " + Join(ids, ", ")
  }

  // ---------------------------------------------------------------------------
  // The batch: error mapping

  /** The `catch` of the batch: a Prisma error code picks the API code and
      message; anything else is a database error. */
  function BatchError(err: DbError): (r: (ApiErrorCode, string))
  {
    match err
    case KnownRequestError(code, message) =>
      if code == "P2002" then (Conflict, "Duplicate entry - record already exists")
      else if code == "P2025" then (NotFound, "Record not found")
      else if code == "P2003" then (Conflict, "Foreign key constraint violation")
      else (DatabaseError, "Database error: " + message)
    case OtherError => (DatabaseError, "An unexpected error occurred")
  }

  predicate IsKnown(err: DbError, code: string)
  {
    err.KnownRequestError? && err.code == code
  }

  /** The status a batch error is reported with: 409 for a duplicate or a
      foreign-key violation, 404 for a missing record, 500 for everything
      else; the message is never empty, so the failure is always reported. */
  lemma BatchErrorStatus(err: DbError)
    ensures Status(BatchError(err).0) == 409 <==> IsKnown(err, "P2002") || IsKnown(err, "P2003")
    ensures Status(BatchError(err).0) == 404 <==> IsKnown(err, "P2025")
    ensures Status(BatchError(err).0) == 500 <==>
      !(IsKnown(err, "P2002") || IsKnown(err, "P2003") || IsKnown(err, "P2025"))
    ensures BatchError(err).1 != ""
  {
    assert "P2002" != "P2025" && "P2002" != "P2003" && "P2025" != "P2003" by {
      assert "P2002"[3] == '0' && "P2025"[3] == '2';
      assert "P2002"[4] == '2' && "P2003"[4] == '3';
      assert "P2025"[3] == '2' && "P2003"[3] == '0';
    }
  }

  // ---------------------------------------------------------------------------
  // The batch: writes

  /** The row written for a submitted entry: its values, the hours rounded to
      hundredths, under the given id. */
  function NewRow(e: Submitted, id: string): TimeEntry
  {
    TimeEntry(id, e.userId, e.projectId, e.date, RoundHundredths(e.hours))
  }

  /** Some row of the table already holds the key of `row`. */
  predicate KeyTaken(table: seq<TimeEntry>, row: TimeEntry)
  {
    exists i :: 0 <= i < |table| && SameEntryKey(table[i], row)
  }

  /** The rows the create statement is given: the new entries under the ids
      the database assigns them. */
  function NewRows(data: seq<Submitted>, ids: seq<string>): (rows: seq<TimeEntry>)
    requires |ids| >= |data|
    ensures |rows| == |data|
    ensures forall k :: 0 <= k < |data| ==> rows[k] == NewRow(data[k], ids[k])
  {
    seq(|data|, k requires 0 <= k < |data| => NewRow(data[k], ids[k]))
  }

  /** `createManyAndReturn({ data, skipDuplicates: true })`: each row is
      inserted unless its key is already taken, by a row of the table or one
      inserted before it; the result is what was inserted. */
  function CreateMany(table: seq<TimeEntry>, rows: seq<TimeEntry>): (created: seq<TimeEntry>)
    ensures |created| <= |rows|
    ensures forall i :: 0 <= i < |created| ==> created[i] in rows && !KeyTaken(table, created[i])
    ensures UniqueEntryKeys(table) ==> UniqueEntryKeys(table + created)
    ensures forall k :: 0 <= k < |rows| ==> KeyTaken(table + created, rows[k])
    decreases |rows|
  {
    if rows == [] then []
    else if KeyTaken(table, rows[0]) then
      var rest := CreateMany(table, rows[1..]);
      CreateManySkips(table, rows, rest);
      rest
    else
      var rest := CreateMany(table + [rows[0]], rows[1..]);
      CreateManyInserts(table, rows, rest);
      [rows[0]] + rest
  }

  /** A skipped first row: its key is already in `table`, so it stays taken. */
  lemma CreateManySkips(table: seq<TimeEntry>, rows: seq<TimeEntry>, rest: seq<TimeEntry>)
    requires rows != [] && KeyTaken(table, rows[0])
    requires forall k :: 0 <= k < |rows| - 1 ==> KeyTaken(table + rest, rows[1..][k])
    ensures forall k :: 0 <= k < |rows| ==> KeyTaken(table + rest, rows[k])
  {
    var j :| 0 <= j < |table| && SameEntryKey(table[j], rows[0]);
    assert (table + rest)[j] == table[j];
    forall k | 1 <= k < |rows|
      ensures KeyTaken(table + rest, rows[k])
    {
      assert rows[1..][k - 1] == rows[k];
    }
  }

  /** An inserted first row: its key is new to `table`, and taken by the row
      itself from then on. */
  lemma CreateManyInserts(table: seq<TimeEntry>, rows: seq<TimeEntry>, rest: seq<TimeEntry>)
    requires rows != [] && !KeyTaken(table, rows[0])
    requires forall i :: 0 <= i < |rest| ==> !KeyTaken(table + [rows[0]], rest[i])
    requires UniqueEntryKeys(table + [rows[0]]) ==> UniqueEntryKeys(table + [rows[0]] + rest)
    requires forall k :: 0 <= k < |rows| - 1 ==> KeyTaken(table + [rows[0]] + rest, rows[1..][k])
    ensures forall i :: 0 <= i < |rest| ==> !KeyTaken(table, rest[i])
    ensures UniqueEntryKeys(table) ==> UniqueEntryKeys(table + ([rows[0]] + rest))
    ensures forall k :: 0 <= k < |rows| ==> KeyTaken(table + ([rows[0]] + rest), rows[k])
  {
    var row := rows[0];
    var all := table + ([row] + rest);
    assert table + [row] + rest == all;
    assert all[|table|] == row;
    forall i | 0 <= i < |rest|
      ensures !KeyTaken(table, rest[i])
    {
      KeyTakenGrows(table, [row], rest[i]);
    }
    if UniqueEntryKeys(table) {
      forall i, j | 0 <= i < j < |table + [row]|
        ensures !SameEntryKey((table + [row])[i], (table + [row])[j])
      {
        if j == |table| {
          assert (table + [row])[i] == table[i];
        }
      }
    }
    forall k | 1 <= k < |rows|
      ensures KeyTaken(all, rows[k])
    {
      assert rows[1..][k - 1] == rows[k];
    }
  }

  /** A key taken in a table stays taken when rows are appended. */
  lemma KeyTakenGrows(table: seq<TimeEntry>, extra: seq<TimeEntry>, row: TimeEntry)
    ensures KeyTaken(table, row) ==> KeyTaken(table + extra, row)
  {
    if KeyTaken(table, row) {
      var j :| 0 <= j < |table| && SameEntryKey(table[j], row);
      assert (table + extra)[j] == table[j];
    }
  }

  /** Another row, under a different id, already holds the key of `row`. */
  predicate KeyHeldByOther(table: seq<TimeEntry>, row: TimeEntry)
  {
    exists i :: 0 <= i < |table| && table[i].id != row.id && SameEntryKey(table[i], row)
  }

  /** `timeEntry.update({ where: { id }, data })`: the row with that id takes
      the new values; every other row is kept. */
  function SetRow(table: seq<TimeEntry>, row: TimeEntry): (r: seq<TimeEntry>)
    ensures |r| == |table|
    ensures forall i :: 0 <= i < |table| ==> r[i] == if table[i].id == row.id then row else table[i]
  {
    seq(|table|, i requires 0 <= i < |table| => if table[i].id == row.id then row else table[i])
  }

  /** What one update does on the current table: an injected fault, a missing
      row (`P2025`), a key another row holds (`P2002`), or success. The
      messages of these two are never shown, so none is modelled. */
  function UpdateOutcome(table: seq<TimeEntry>, row: TimeEntry, fault: Option<DbError>): Option<DbError>
  {
    if fault.Some? then fault
    else if !HasId(table, row.id) then Some(KnownRequestError("P2025", ""))
    else if KeyHeldByOther(table, row) then Some(KnownRequestError("P2002", ""))
    else None
  }

  /** The state the update loop leaves: the table, the rows it has written,
      and the error that stopped it, if any. The loop pushes each written row
      onto `updated`, its date rendered as `toISOString().split("T")[0]`,
      that is `ToISODate(date)`; the model keeps the day itself. */
  datatype UpdateRun = UpdateRun(table: seq<TimeEntry>, updated: seq<TimeEntry>, failure: Option<DbError>)

  /** The update loop from position `k` on: each update in turn, stopping at
      the first that fails; `faults` holds the failures the database injects,
      by position. */
  function RunUpdates(table: seq<TimeEntry>, updates: seq<Submitted>, faults: map<nat, DbError>, k: nat): UpdateRun
    requires k <= |updates|
    decreases |updates| - k
  {
    if k == |updates| then UpdateRun(table, [], None)
    else
      var row := NewRow(updates[k], UpdateId(updates[k]));
      var fault := if k in faults then Some(faults[k]) else None;
      match UpdateOutcome(table, row, fault)
      case Some(err) => UpdateRun(table, [], Some(err))
      case None =>
        var rest := RunUpdates(SetRow(table, row), updates, faults, k + 1);
        UpdateRun(rest.table, [row] + rest.updated, rest.failure)
  }

  /** The rows written before a run, followed by the run. */
  function AfterRows(rows: seq<TimeEntry>, run: UpdateRun): UpdateRun
  {
    UpdateRun(run.table, rows + run.updated, run.failure)
  }

  /** Updates rewrite rows in place: the table keeps its length and its ids. */
  lemma {:induction false} RunUpdatesShape(table: seq<TimeEntry>, updates: seq<Submitted>, faults: map<nat, DbError>, k: nat)
    requires k <= |updates|
    ensures |RunUpdates(table, updates, faults, k).table| == |table|
    ensures forall i :: 0 <= i < |table| ==> RunUpdates(table, updates, faults, k).table[i].id == table[i].id
    decreases |updates| - k
  {
    if k < |updates| {
      var row := NewRow(updates[k], UpdateId(updates[k]));
      RunUpdatesShape(SetRow(table, row), updates, faults, k + 1);
    }
  }

  /** A row no remaining update names is left as it was. */
  lemma {:induction false} RunUpdatesUntouched(table: seq<TimeEntry>, updates: seq<Submitted>, faults: map<nat, DbError>, k: nat, i: nat)
    requires k <= |updates| && i < |table|
    requires forall j :: k <= j < |updates| ==> UpdateId(updates[j]) != table[i].id
    ensures i < |RunUpdates(table, updates, faults, k).table|
    ensures RunUpdates(table, updates, faults, k).table[i] == table[i]
    decreases |updates| - k
  {
    RunUpdatesShape(table, updates, faults, k);
    if k < |updates| {
      var row := NewRow(updates[k], UpdateId(updates[k]));
      RunUpdatesUntouched(SetRow(table, row), updates, faults, k + 1, i);
    }
  }

  /** A run that stops at no failure has made every update; a run that stops
      at a failure has made fewer. */
  lemma {:induction false} RunUpdatesCount(table: seq<TimeEntry>, updates: seq<Submitted>, faults: map<nat, DbError>, k: nat)
    requires k <= |updates|
    ensures RunUpdates(table, updates, faults, k).failure.None? ==> |RunUpdates(table, updates, faults, k).updated| == |updates| - k
    ensures RunUpdates(table, updates, faults, k).failure.Some? ==> |RunUpdates(table, updates, faults, k).updated| < |updates| - k
    decreases |updates| - k
  {
    if k < |updates| {
      var row := NewRow(updates[k], UpdateId(updates[k]));
      RunUpdatesCount(SetRow(table, row), updates, faults, k + 1);
    }
  }

  /** The rows reported are those the updates made wrote, in order. */
  lemma {:induction false} RunUpdatesRows(table: seq<TimeEntry>, updates: seq<Submitted>, faults: map<nat, DbError>, k: nat, j: nat)
    requires k <= |updates|
    requires j < |RunUpdates(table, updates, faults, k).updated|
    ensures k + j < |updates|
    ensures RunUpdates(table, updates, faults, k).updated[j] == NewRow(updates[k + j], UpdateId(updates[k + j]))
    decreases |updates| - k
  {
    var row := NewRow(updates[k], UpdateId(updates[k]));
    var rest := RunUpdates(SetRow(table, row), updates, faults, k + 1);
    assert RunUpdates(table, updates, faults, k).updated == [row] + rest.updated;
    if j > 0 {
      RunUpdatesRows(SetRow(table, row), updates, faults, k + 1, j - 1);
      assert k + 1 + (j - 1) == k + j;
    }
  }

  /** Updates keep both keys of the table unique: the id, and (userId,
      projectId, date), since an update to a key another row holds fails. */
  lemma {:induction false} RunUpdatesKeepsKeys(table: seq<TimeEntry>, updates: seq<Submitted>, faults: map<nat, DbError>, k: nat)
    requires k <= |updates|
    requires UniqueIds(table) && UniqueEntryKeys(table)
    ensures UniqueIds(RunUpdates(table, updates, faults, k).table)
    ensures UniqueEntryKeys(RunUpdates(table, updates, faults, k).table)
    decreases |updates| - k
  {
    if k < |updates| {
      var row := NewRow(updates[k], UpdateId(updates[k]));
      var fault := if k in faults then Some(faults[k]) else None;
      if UpdateOutcome(table, row, fault).None? {
        SetRowKeepsKeys(table, row);
        RunUpdatesKeepsKeys(SetRow(table, row), updates, faults, k + 1);
      }
    }
  }

  lemma SetRowKeepsKeys(table: seq<TimeEntry>, row: TimeEntry)
    requires UniqueIds(table) && UniqueEntryKeys(table)
    requires !KeyHeldByOther(table, row)
    ensures UniqueIds(SetRow(table, row)) && UniqueEntryKeys(SetRow(table, row))
  {
    var r := SetRow(table, row);
    forall i, j | 0 <= i < j < |r|
      ensures r[i].id != r[j].id && !SameEntryKey(r[i], r[j])
    {
      if table[i].id == row.id {
        assert table[j].id != row.id;
      } else if table[j].id == row.id {
        assert table[i].id != row.id;
      }
    }
  }

  /** Once every update names a stored row and no fault is injected, the loop
      can only stop at a key conflict: `Record not found` is out of reach. */
  lemma {:induction false} RunUpdatesOnlyConflicts(table: seq<TimeEntry>, updates: seq<Submitted>, k: nat)
    requires k <= |updates|
    requires forall j :: k <= j < |updates| ==> HasId(table, UpdateId(updates[j]))
    ensures RunUpdates(table, updates, map[], k).failure.Some? ==>
      IsKnown(RunUpdates(table, updates, map[], k).failure.value, "P2002")
    decreases |updates| - k
  {
    if k < |updates| {
      var row := NewRow(updates[k], UpdateId(updates[k]));
      var next := SetRow(table, row);
      forall j | k + 1 <= j < |updates|
        ensures HasId(next, UpdateId(updates[j]))
      {
        var p :| 0 <= p < |table| && table[p].id == UpdateId(updates[j]);
        assert next[p].id == table[p].id;
      }
      RunUpdatesOnlyConflicts(next, updates, k + 1);
    }
  }

  /** What the batch route answers with when nothing failed: the rows updated
      and the rows inserted (of which the route selects the id, project,
      hours and date). */
  datatype BatchData = BatchData(updated: seq<TimeEntry>, created: seq<TimeEntry>)

  /** The batch POST: split the batch, reject update ids the table lacks,
      insert the new entries, then update the others one by one. The
      transaction callback returns its stats from `finally`, so an error does
      not roll back what was written before it. `ids` are the ids the
      database assigns to inserted rows; `createFault` and `faults` are the
      failures it injects into the insert and, by position, into the updates. */
  method SaveBatch(table: seq<TimeEntry>, entries: seq<Submitted>, ids: seq<string>,
                   createFault: Option<DbError>, faults: map<nat, DbError>)
    returns (table': seq<TimeEntry>, reply: Reply<BatchData>)
    requires |ids| >= |ToCreate(entries)|
    ensures NotFoundIds(table, UpdateIds(entries)) != [] ==>
      table' == table && reply == SendFail(NotFound, NotFoundMessage(NotFoundIds(table, UpdateIds(entries))), None)
    ensures NotFoundIds(table, UpdateIds(entries)) == [] && createFault.Some? ==>
      table' == table && reply == SendFail(BatchError(createFault.value).0, BatchError(createFault.value).1, None)
    ensures NotFoundIds(table, UpdateIds(entries)) == [] && createFault.None? ==>
      var created := CreateMany(table, NewRows(ToCreate(entries), ids));
      var run := RunUpdates(table + created, ToUpdate(entries), faults, 0);
      && table' == run.table
      && reply == BatchReply(run.failure, BatchData(run.updated, created))
  {
    var updates := ToUpdate(entries);
    var missing := NotFoundIds(table, UpdateIds(entries));
    if |missing| > 0 {
      table' := table;
      reply := SendFail(NotFound, NotFoundMessage(missing), None);
      return;
    }
    if createFault.Some? {
      table' := table;
      reply := SendFail(BatchError(createFault.value).0, BatchError(createFault.value).1, None);
      return;
    }
    var created := CreateMany(table, NewRows(ToCreate(entries), ids));
    var updated, failure;
    table', updated, failure := UpdateEach(table + created, updates, faults);
    reply := BatchReply(failure, BatchData(updated, created));
  }

  /** The reply the client receives after the transaction: the mapped
      failure, or the stats. */
  function BatchReply(failure: Option<DbError>, data: BatchData): (r: Reply<BatchData>)
    ensures r.body.Success() <==> failure.None?
    ensures failure.Some? ==> r.status == Status(BatchError(failure.value).0) && r.status != 200
    ensures failure.Some? ==> r.body.code == BatchError(failure.value).0 && r.body.message == BatchError(failure.value).1
    ensures failure.None? ==> r.status == 200 && r.body.message == "OK" && r.body.data == Data(data)
  {
    if failure.Some? then
      SendFail(BatchError(failure.value).0, BatchError(failure.value).1, None)
    else SendOk(Some(data), None, None)
  }

  /** The `for` loop over the updates: write each in turn and push its view;
      the first failure ends the loop. */
  method UpdateEach(table: seq<TimeEntry>, updates: seq<Submitted>, faults: map<nat, DbError>)
    returns (table': seq<TimeEntry>, updated: seq<TimeEntry>, failure: Option<DbError>)
    ensures table' == RunUpdates(table, updates, faults, 0).table
    ensures failure == RunUpdates(table, updates, faults, 0).failure
    ensures updated == RunUpdates(table, updates, faults, 0).updated
  {
    ghost var run := RunUpdates(table, updates, faults, 0);
    table' := table;
    updated := [];
    failure := None;
    var k := 0;
    while k < |updates|
      invariant k <= |updates|
      invariant AfterRows(updated, RunUpdates(table', updates, faults, k)) == run
    {
      var row := NewRow(updates[k], UpdateId(updates[k]));
      var fault := if k in faults then Some(faults[k]) else None;
      var outcome := UpdateOutcome(table', row, fault);
      UpdateStep(table', updates, faults, k, updated, run);
      if outcome.Some? {
        failure := outcome;
        return;
      }
      table' := SetRow(table', row);
      updated := updated + [row];
      k := k + 1;
    }
  }

  /** One turn of the update loop against its specification. */
  lemma UpdateStep(table: seq<TimeEntry>, updates: seq<Submitted>, faults: map<nat, DbError>, k: nat,
                   done: seq<TimeEntry>, run: UpdateRun)
    requires k < |updates|
    requires AfterRows(done, RunUpdates(table, updates, faults, k)) == run
    ensures var row := NewRow(updates[k], UpdateId(updates[k]));
      var outcome := UpdateOutcome(table, row, if k in faults then Some(faults[k]) else None);
      && (outcome.Some? ==> run.failure == outcome && run.table == table && run.updated == done)
      && (outcome.None? ==> AfterRows(done + [row], RunUpdates(SetRow(table, row), updates, faults, k + 1)) == run)
  {
    var row := NewRow(updates[k], UpdateId(updates[k]));
    var rest := RunUpdates(SetRow(table, row), updates, faults, k + 1);
    assert done + ([row] + rest.updated) == done + [row] + rest.updated;
  }

  // ---------------------------------------------------------------------------
  // The daily summary

  datatype ProjectHours = ProjectHours(name: string, hours: real)

  datatype DailySummaryData = DailySummaryData(date: string, totalHours: real, regularHours: real,
                                               overtimeHours: real, overtimePay: real, projects: seq<ProjectHours>)

  /** The entries of `findMany({ where: { userId, date } })`: those whose
      stored instant, a midnight, equals `at`. */
  function EntriesAt(table: seq<TimeEntry>, userId: string, at: Instant): seq<TimeEntry>
  {
    Filter(table, (e: TimeEntry) => e.userId == userId && Midnight(e.date) == at)
  }

  /** `dailyOvertime.findFirst({ where: { userId, date } })`. */
  function OvertimeAt(rows: seq<DailyOvertime>, userId: string, at: Instant): (r: Option<DailyOvertime>)
    ensures r.Some? ==> r.value in rows && r.value.userId == userId && Midnight(r.value.date) == at
    ensures r.None? ==> forall i :: 0 <= i < |rows| ==> !(rows[i].userId == userId && Midnight(rows[i].date) == at)
    decreases |rows|
  {
    if rows == [] then None
    else if rows[0].userId == userId && Midnight(rows[0].date) == at then Some(rows[0])
    else OvertimeAt(rows[1..], userId, at)
  }

  /** The project name the `include: { project: true }` join brings; the
      foreign key guarantees the project exists, so the fallback is never used. */
  function ProjectName(projects: map<string, string>, id: string): string
  {
    if id in projects then projects[id] else ""
  }

  /** `GET /summary` for the instant `at`: the entries' hours, the regular part
      capped at 8, and the stored overtime row's hours and pay, or 0. */
  function DailySummary(table: seq<TimeEntry>, rows: seq<DailyOvertime>, projects: map<string, string>,
                        userId: string, at: Instant): (s: DailySummaryData)
    ensures s.regularHours <= 8.0 && s.regularHours <= s.totalHours
    ensures s.totalHours <= 8.0 ==> s.regularHours == s.totalHours
    ensures s.regularHours + OvertimeHours(s.totalHours) == s.totalHours
    ensures at.ms == 0 ==>
      s.overtimeHours == DayRowValue(rows, userId, at.day, OvertimeHoursOf) &&
      s.overtimePay == DayRowValue(rows, userId, at.day, OvertimePayOf)
  {
    var entries := EntriesAt(table, userId, at);
    var total := Sum(entries, Hours);
    var record := OvertimeAt(rows, userId, at);
    DailySummaryData(
      ToISODate(at.day),
      total,
      Min(total, 8.0),
      if record.Some? then record.value.overtimeHours else 0.0,
      if record.Some? then record.value.overtimePay else 0.0,
      Map(entries, (e: TimeEntry) => ProjectHours(ProjectName(projects, e.projectId), e.hours)))
  }

  /** With a unique row per (userId, date), the summary reports that row's
      hours and pay, and 0 for a day without a row. */
  lemma SummaryOvertimeFromRow(table: seq<TimeEntry>, rows: seq<DailyOvertime>, projects: map<string, string>,
                               userId: string, d: CivilDate)
    requires UniqueOvertimeKeys(rows)
    ensures forall i :: 0 <= i < |rows| && rows[i].userId == userId && rows[i].date == d ==>
      DailySummary(table, rows, projects, userId, Midnight(d)).overtimeHours == rows[i].overtimeHours &&
      DailySummary(table, rows, projects, userId, Midnight(d)).overtimePay == rows[i].overtimePay
    ensures (forall i :: 0 <= i < |rows| ==> !(rows[i].userId == userId && rows[i].date == d)) ==>
      DailySummary(table, rows, projects, userId, Midnight(d)).overtimeHours == 0.0 &&
      DailySummary(table, rows, projects, userId, Midnight(d)).overtimePay == 0.0
  {
    var r := OvertimeAt(rows, userId, Midnight(d));
    if r.Some? {
      var j :| 0 <= j < |rows| && rows[j] == r.value;
      assert forall i :: 0 <= i < |rows| && rows[i].userId == userId && rows[i].date == d ==> i == j;
    }
  }

  /** The midnight query counts the same entries as the overtime sync's day
      total. */
  lemma SummaryTotalIsDayTotal(table: seq<TimeEntry>, rows: seq<DailyOvertime>, projects: map<string, string>,
                               userId: string, d: CivilDate)
    ensures DailySummary(table, rows, projects, userId, Midnight(d)).totalHours == DayTotal(table, userId, d)
  {
    FilterAgree(table, (e: TimeEntry) => e.userId == userId && Midnight(e.date) == Midnight(d), (e: TimeEntry) => EntryOfDay(e, userId, d));
  }

  /** After a sync of the day, the summary's overtime and pay are those of its
      own total: the stored row and the entries agree. */
  lemma SummaryAfterSync(table: seq<TimeEntry>, rows: seq<DailyOvertime>, projects: map<string, string>,
                         userId: string, d: CivilDate)
    requires UniqueOvertimeKeys(rows)
    ensures var s := DailySummary(table, SyncedRows(table, rows, userId, d), projects, userId, Midnight(d));
      s.overtimeHours == OvertimeHours(s.totalHours) && s.overtimePay == OvertimePay(s.overtimeHours)
  {
    var synced := SyncedRows(table, rows, userId, d);
    var row := SummaryRow(table, userId, d);
    var i :| 0 <= i < |synced| && synced[i] == row;
    SummaryOvertimeFromRow(table, synced, projects, userId, d);
    SummaryTotalIsDayTotal(table, synced, projects, userId, d);
  }

  /** The instant the route queries, as written: midnight of the given date,
      or the current instant when no date is given. */
  function SummaryInstantAsWritten(date: Option<CivilDate>, now: Instant): Instant
  {
    if date.Some? then Midnight(date.value) else now
  }

  /** Without a date, the as-written query compares stored midnights with the
      current instant, so at any time of day but midnight it finds nothing. */
  lemma SummaryWithoutDateIsEmpty(table: seq<TimeEntry>, rows: seq<DailyOvertime>, projects: map<string, string>,
                                  userId: string, now: Instant)
    requires now.ms != 0
    ensures var s := DailySummary(table, rows, projects, userId, SummaryInstantAsWritten(None, now));
      s.totalHours == 0.0 && s.projects == [] && s.overtimeHours == 0.0 && s.overtimePay == 0.0
  {
    var entries := EntriesAt(table, userId, now);
    if entries != [] {
      FilterMembers(table, (e: TimeEntry) => e.userId == userId && Midnight(e.date) == now, entries[0]);
    }
    assert OvertimeAt(rows, userId, now).None?;
  }

  /** The instant the route evidently means: midnight of the given date, or
      of today. */
  function SummaryInstant(date: Option<CivilDate>, now: Instant): Instant
  {
    Midnight(if date.Some? then date.value else now.day)
  }

  /** The corrected query counts the day's entries whatever the time of day. */
  lemma SummaryCountsTheDay(table: seq<TimeEntry>, rows: seq<DailyOvertime>, projects: map<string, string>,
                            userId: string, date: Option<CivilDate>, now: Instant)
    ensures DailySummary(table, rows, projects, userId, SummaryInstant(date, now)).totalHours
         == DayTotal(table, userId, if date.Some? then date.value else now.day)
  {
    SummaryTotalIsDayTotal(table, rows, projects, userId, if date.Some? then date.value else now.day);
  }

  // ---------------------------------------------------------------------------
  // The monthly overview

  /** `parseInt(q, 10) || fallback`: an absent query parameter reaches
      `parseInt` as the text "undefined"; NaN and 0 take the fallback. */
  function QueryInt(q: Option<string>, fallback: int): (n: int)
    ensures n == fallback || JsParseInt(if q.Some? then q.value else "undefined") == Some(n)
    ensures n == 0 ==> fallback == 0
  {
    var parsed := JsParseInt(if q.Some? then q.value else "undefined");
    if parsed.Some? && parsed.value != 0 then parsed.value else fallback
  }

  /** A missing parameter takes the fallback. */
  lemma QueryIntAbsent(fallback: int)
    ensures QueryInt(None, fallback) == fallback
  {
    var u := "undefined";
    assert u[0] == 'u';
    assert TrimStart(u) == u;
    assert LeadingDigits(u) == [];
  }

  /** "0" is falsy after parsing and takes the fallback too. */
  lemma QueryIntZero(fallback: int)
    ensures QueryInt(Some("0"), fallback) == fallback
  {
    JsParseIntOfNat(0, "");
    assert NatToString(0) + "" == "0";
  }

  /** A positive decimal, with or without trailing text, is read as itself. */
  lemma QueryIntOfNat(n: nat, rest: string, fallback: int)
    requires n > 0
    requires rest == [] || !IsDigit(rest[0])
    ensures QueryInt(Some(NatToString(n) + rest), fallback) == n
  {
    JsParseIntOfNat(n, rest);
    QueryIntOfParsed(NatToString(n) + rest, fallback, n);
  }

  lemma QueryIntOfParsed(q: string, fallback: int, v: int)
    requires JsParseInt(q) == Some(v) && v != 0
    ensures QueryInt(Some(q), fallback) == v
  {
  }

  /** The user's entries dated within `[start, end]`. */
  function MonthEntries(table: seq<TimeEntry>, userId: string, start: CivilDate, end: CivilDate): seq<TimeEntry>
  {
    Filter(table, (e: TimeEntry) => e.userId == userId && InRange(e.date, start, end))
  }

  /** The dates of the entries, one per entry. */
  function EntryDates(entries: seq<TimeEntry>): (dates: seq<CivilDate>)
    ensures |dates| == |entries|
    ensures forall k :: 0 <= k < |entries| ==> dates[k] == entries[k].date
  {
    seq(|entries|, k requires 0 <= k < |entries| => entries[k].date)
  }

  /** The groups of `groupBy(["date"])`: one per distinct entry date in range. */
  function WorkedDays(table: seq<TimeEntry>, userId: string, start: CivilDate, end: CivilDate): (days: seq<CivilDate>)
    ensures NoDuplicates(days)
    ensures |days| <= |table|
    ensures forall i :: 0 <= i < |days| ==> InRange(days[i], start, end)
  {
    var entries := MonthEntries(table, userId, start, end);
    var dates := EntryDates(entries);
    var days := Distinct(dates);
    assert forall i :: 0 <= i < |days| ==> InRange(days[i], start, end) by {
      forall i | 0 <= i < |days| ensures InRange(days[i], start, end) {
        DistinctMembers(dates, days[i]);
        var j :| 0 <= j < |dates| && dates[j] == days[i];
        assert entries[j] in entries;
        FilterMembers(table, (e: TimeEntry) => e.userId == userId && InRange(e.date, start, end), entries[j]);
      }
    }
    days
  }

  /** A date is a worked day exactly when it lies in the range and the user
      has an entry on it. */
  lemma WorkedDayIff(table: seq<TimeEntry>, userId: string, start: CivilDate, end: CivilDate, d: CivilDate)
    ensures d in WorkedDays(table, userId, start, end) <==>
      InRange(d, start, end) && exists i :: 0 <= i < |table| && EntryOfDay(table[i], userId, d)
  {
    WorkedDayHasEntry(table, userId, start, end, d);
    if InRange(d, start, end) && exists i :: 0 <= i < |table| && EntryOfDay(table[i], userId, d) {
      var i :| 0 <= i < |table| && EntryOfDay(table[i], userId, d);
      EntryGivesWorkedDay(table, userId, start, end, i);
    }
  }

  lemma WorkedDayHasEntry(table: seq<TimeEntry>, userId: string, start: CivilDate, end: CivilDate, d: CivilDate)
    ensures d in WorkedDays(table, userId, start, end) ==>
      InRange(d, start, end) && exists i :: 0 <= i < |table| && EntryOfDay(table[i], userId, d)
  {
    var entries := MonthEntries(table, userId, start, end);
    var dates := EntryDates(entries);
    DistinctMembers(dates, d);
    if d in dates {
      var m :| 0 <= m < |dates| && dates[m] == d;
      assert entries[m] in entries;
      FilterMembers(table, (e: TimeEntry) => e.userId == userId && InRange(e.date, start, end), entries[m]);
      var i :| 0 <= i < |table| && table[i] == entries[m];
      assert EntryOfDay(table[i], userId, d);
    }
  }

  lemma EntryGivesWorkedDay(table: seq<TimeEntry>, userId: string, start: CivilDate, end: CivilDate, i: nat)
    requires i < |table| && table[i].userId == userId && InRange(table[i].date, start, end)
    ensures table[i].date in WorkedDays(table, userId, start, end)
  {
    var entries := MonthEntries(table, userId, start, end);
    var dates := EntryDates(entries);
    FilterMembers(table, (e: TimeEntry) => e.userId == userId && InRange(e.date, start, end), table[i]);
    var k :| 0 <= k < |entries| && entries[k] == table[i];
    assert dates[k] == table[i].date;
    DistinctMembers(dates, table[i].date);
  }

  /** Σ min(day total, 8) over the worked days. */
  function RegularHours(table: seq<TimeEntry>, userId: string, days: seq<CivilDate>): (r: real)
    ensures r <= 8.0 * |days| as real
  {
    var capped := (d: CivilDate) => Min(DayTotal(table, userId, d), 8.0);
    SumAtMost(days, capped, 8.0);
    Sum(days, capped)
  }

  /** With no negative hours logged, no day contributes negative regular hours. */
  lemma RegularHoursNonNegative(table: seq<TimeEntry>, userId: string, days: seq<CivilDate>)
    requires forall i :: 0 <= i < |table| ==> table[i].hours >= 0.0
    ensures RegularHours(table, userId, days) >= 0.0
  {
    var capped := (d: CivilDate) => Min(DayTotal(table, userId, d), 8.0);
    forall i | 0 <= i < |days|
      ensures capped(days[i]) >= 0.0
    {
      var entries := DayEntries(table, userId, days[i]);
      FilterAll(table, e => EntryOfDay(e, userId, days[i]));
      assert forall j :: 0 <= j < |entries| ==> 0.0 <= Hours(entries[j]);
      SumAtLeast(entries, Hours, 0.0);
    }
    SumAtLeast(days, capped, 0.0);
  }

  /** The user's overtime rows dated within `[start, end]`. */
  function MonthOvertimeRows(rows: seq<DailyOvertime>, userId: string, start: CivilDate, end: CivilDate): seq<DailyOvertime>
  {
    Filter(rows, (r: DailyOvertime) => r.userId == userId && InRange(r.date, start, end))
  }

  function OvertimeHoursOf(r: DailyOvertime): real
  {
    r.overtimeHours
  }

  function OvertimePayOf(r: DailyOvertime): real
  {
    r.overtimePay
  }

  datatype MonthlyOverviewData = MonthlyOverviewData(year: int, month: int, daysWorked: nat, regularHours: real,
                                                     overtimeHours: real, overtimePay: real, overtimeLimit: int)

  /** `GET /monthly-overview`: month and year from the query or `today`, the
      range from day 1 to the month's last day, the worked days and their
      capped hours, and the aggregate of the overtime rows in range (whose
      `_sum` is null, read as 0, when there are none: the empty sum). */
  function MonthlyOverview(table: seq<TimeEntry>, rows: seq<DailyOvertime>, userId: string,
                           monthQuery: Option<string>, yearQuery: Option<string>, today: CivilDate): (o: MonthlyOverviewData)
    ensures o.overtimeLimit == OVERTIME_LIMIT
    ensures o.month != 0
    ensures o.month == QueryInt(monthQuery, today.month) && o.year == QueryInt(yearQuery, today.year)
    ensures var (start, end) := MonthBounds(o.year, o.month);
      && o.daysWorked == |WorkedDays(table, userId, start, end)|
      && o.regularHours <= 8.0 * o.daysWorked as real
      && o.overtimeHours == Sum(MonthOvertimeRows(rows, userId, start, end), OvertimeHoursOf)
      && o.overtimePay == Sum(MonthOvertimeRows(rows, userId, start, end), OvertimePayOf)
  {
    var month := QueryInt(monthQuery, today.month);
    var year := QueryInt(yearQuery, today.year);
    var (start, end) := MonthBounds(year, month);
    var days := WorkedDays(table, userId, start, end);
    var inRange := MonthOvertimeRows(rows, userId, start, end);
    MonthlyOverviewData(year, month, |days|, RegularHours(table, userId, days),
                        Sum(inRange, OvertimeHoursOf), Sum(inRange, OvertimePayOf), OVERTIME_LIMIT)
  }

  /** Without query parameters the overview is of today's month. */
  lemma MonthlyOverviewDefaults(table: seq<TimeEntry>, rows: seq<DailyOvertime>, userId: string, today: CivilDate)
    requires today.year != 0
    ensures var o := MonthlyOverview(table, rows, userId, None, None, today);
      o.month == today.month && o.year == today.year
  {
    QueryIntAbsent(today.month);
    QueryIntAbsent(today.year);
  }

  /** A month without overtime rows reports 0 hours and 0 pay. */
  lemma MonthlyOverviewNoOvertime(table: seq<TimeEntry>, userId: string, monthQuery: Option<string>,
                                  yearQuery: Option<string>, today: CivilDate)
    ensures var o := MonthlyOverview(table, [], userId, monthQuery, yearQuery, today);
      o.overtimeHours == 0.0 && o.overtimePay == 0.0
  {
  }

  /** The value `f` of the day's overtime row, as the daily summary reports
      it, or 0 for a day without a row. */
  function DayRowValue(rows: seq<DailyOvertime>, userId: string, d: CivilDate, f: DailyOvertime -> real): real
  {
    var r := OvertimeAt(rows, userId, Midnight(d));
    if r.Some? then f(r.value) else 0.0
  }

  /** The month's aggregate is the sum of the days' values: for any
      duplicate-free list of dates in the range that covers the dates of the
      user's overtime rows in range, Σ over the rows in range equals Σ over
      those dates of each day's row value. */
  lemma {:induction false} MonthIsSumOfDays(rows: seq<DailyOvertime>, userId: string, start: CivilDate, end: CivilDate,
                                            days: seq<CivilDate>, f: DailyOvertime -> real)
    requires UniqueOvertimeKeys(rows)
    requires NoDuplicates(days)
    requires forall i :: 0 <= i < |days| ==> InRange(days[i], start, end)
    requires forall i :: 0 <= i < |rows| && rows[i].userId == userId && InRange(rows[i].date, start, end) ==>
      rows[i].date in days
    ensures Sum(MonthOvertimeRows(rows, userId, start, end), f)
         == Sum(days, (d: CivilDate) => DayRowValue(rows, userId, d, f))
    decreases |rows|
  {
    var whole := (d: CivilDate) => DayRowValue(rows, userId, d, f);
    if rows == [] {
      SumSingle(days, whole, start, 0.0);
    } else {
      var r, rest := rows[0], rows[1..];
      var tail := (d: CivilDate) => DayRowValue(rest, userId, d, f);
      var head := (d: CivilDate) => if r.userId == userId && d == r.date then f(r) else 0.0;
      forall i | 0 <= i < |days|
        ensures whole(days[i]) == head(days[i]) + tail(days[i])
      {
        if r.userId == userId && days[i] == r.date {
          RestHasNoRow(rows, userId, r.date);
        }
      }
      SumAdd(days, head, tail, whole);
      SumSingle(days, head, r.date, if r.userId == userId then f(r) else 0.0);
      MonthIsSumOfDays(rest, userId, start, end, days, f);
    }
  }

  /** Under the unique key, the rows after the first hold no row of its key. */
  lemma RestHasNoRow(rows: seq<DailyOvertime>, userId: string, d: CivilDate)
    requires UniqueOvertimeKeys(rows)
    requires rows != [] && rows[0].userId == userId && rows[0].date == d
    ensures OvertimeAt(rows[1..], userId, Midnight(d)).None?
  {
  }

  /** When every overtime row in the month has entries on its day (as a sync
      leaves it), the month's overtime hours and pay are the sums over the
      worked days of what the daily summary reports for each. */
  lemma MonthlyOvertimeIsDailySum(table: seq<TimeEntry>, rows: seq<DailyOvertime>, userId: string,
                                  start: CivilDate, end: CivilDate)
    requires UniqueOvertimeKeys(rows)
    requires forall i :: 0 <= i < |rows| && rows[i].userId == userId && InRange(rows[i].date, start, end) ==>
      exists j :: 0 <= j < |table| && EntryOfDay(table[j], userId, rows[i].date)
    ensures var days := WorkedDays(table, userId, start, end);
      && Sum(MonthOvertimeRows(rows, userId, start, end), OvertimeHoursOf)
         == Sum(days, (d: CivilDate) => DayRowValue(rows, userId, d, OvertimeHoursOf))
      && Sum(MonthOvertimeRows(rows, userId, start, end), OvertimePayOf)
         == Sum(days, (d: CivilDate) => DayRowValue(rows, userId, d, OvertimePayOf))
  {
    var days := WorkedDays(table, userId, start, end);
    forall i | 0 <= i < |rows| && rows[i].userId == userId && InRange(rows[i].date, start, end)
      ensures rows[i].date in days
    {
      WorkedDayIff(table, userId, start, end, rows[i].date);
    }
    MonthIsSumOfDays(rows, userId, start, end, days, OvertimeHoursOf);
    MonthIsSumOfDays(rows, userId, start, end, days, OvertimePayOf);
  }

  /** On any list of days, the capped sum is the sum of the regular hours the
      daily summary reports for each day. */
  lemma RegularIsDailySum(table: seq<TimeEntry>, rows: seq<DailyOvertime>, projects: map<string, string>,
                          userId: string, days: seq<CivilDate>)
    ensures RegularHours(table, userId, days)
         == Sum(days, (d: CivilDate) => DailySummary(table, rows, projects, userId, Midnight(d)).regularHours)
  {
    var capped := (d: CivilDate) => Min(DayTotal(table, userId, d), 8.0);
    var daily := (d: CivilDate) => DailySummary(table, rows, projects, userId, Midnight(d)).regularHours;
    forall i | 0 <= i < |days|
      ensures capped(days[i]) == daily(days[i])
    {
      SummaryTotalIsDayTotal(table, rows, projects, userId, days[i]);
    }
    SumAgree(days, capped, daily);
  }

  /** The overview's regular hours are the sum, over the worked days, of the
      regular hours the daily summary reports for each day: min(day total, 8). */
  lemma MonthlyRegularIsDailySum(table: seq<TimeEntry>, rows: seq<DailyOvertime>, projects: map<string, string>,
                                 userId: string, monthQuery: Option<string>, yearQuery: Option<string>, today: CivilDate)
    ensures var o := MonthlyOverview(table, rows, userId, monthQuery, yearQuery, today);
      var (start, end) := MonthBounds(o.year, o.month);
      o.regularHours
        == Sum(WorkedDays(table, userId, start, end),
               (d: CivilDate) => DailySummary(table, rows, projects, userId, Midnight(d)).regularHours)
  {
    var month := QueryInt(monthQuery, today.month);
    var year := QueryInt(yearQuery, today.year);
    var (start, end) := MonthBounds(year, month);
    RegularIsDailySum(table, rows, projects, userId, WorkedDays(table, userId, start, end));
  }
}
