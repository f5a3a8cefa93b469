/** The daily overtime calculation and the retried upsert of its result into the
    `DailyOvertime` table. Hours and pay are exact decimals. */
module Overtime {
  import opened Common
  import opened Calendar
  import opened Tables

  const OVERTIME_THRESHOLD: real := 8.0
  const OVERTIME_PAY_RATE_1: real := 1.33
  const OVERTIME_PAY_RATE_2: real := 1.66
  const MAX_RETRIES: nat := 3

  // ---------------------------------------------------------------------------
  // The day's total

  /** The `findMany({ where: { userId, date } })` rows of one user and day. */
  function DayEntries(entries: seq<TimeEntry>, userId: string, date: CivilDate): seq<TimeEntry>
  {
    Filter(entries, e => EntryOfDay(e, userId, date))
  }

  function Hours(e: TimeEntry): real
  {
    e.hours
  }

  /** The `reduce` of the day's hours, starting from 0. */
  function DayTotal(entries: seq<TimeEntry>, userId: string, date: CivilDate): real
  {
    Sum(DayEntries(entries, userId, date), Hours)
  }

  /** The total does not depend on the order the rows come back in. */
  lemma DayTotalOrderIndependent(a: seq<TimeEntry>, b: seq<TimeEntry>, userId: string, date: CivilDate)
    requires multiset(a) == multiset(b)
    ensures DayTotal(a, userId, date) == DayTotal(b, userId, date)
  {
    FilterPermutation(a, b, e => EntryOfDay(e, userId, date));
    SumPermutation(DayEntries(a, userId, date), DayEntries(b, userId, date), Hours);
  }

  // ---------------------------------------------------------------------------
  // Overtime hours, tiers and pay

  /** Hours beyond the 8-hour threshold, or 0. */
  function OvertimeHours(total: real): (ot: real)
    ensures ot >= 0.0
    ensures total <= OVERTIME_THRESHOLD ==> ot == 0.0
    ensures total > OVERTIME_THRESHOLD ==> OVERTIME_THRESHOLD + ot == total
  {
    if total > OVERTIME_THRESHOLD then total - OVERTIME_THRESHOLD else 0.0
  }

  /** The first part: `Decimal.min(overtimeHours, 2)`. */
  function Tier1(ot: real): (t: real)
    ensures t <= 2.0 && t <= ot
    ensures ot >= 0.0 ==> t >= 0.0
    ensures t == ot || t == 2.0
  {
    if ot <= 2.0 then ot else 2.0
  }

  /** The second part, as the source forks on it: the rest of the overtime
      when the first part came to exactly 2, and 0 otherwise. */
  function Tier2(ot: real): (t: real)
    ensures t == (if ot > 2.0 then ot - 2.0 else 0.0)
    ensures ot >= 0.0 ==> Tier1(ot) + t == ot
    ensures t >= 0.0
  {
    var first := Tier1(ot);
    if first == 2.0 then ot - first else 0.0
  }

  /** `first × 1.33 + second × 1.66`; no hourly rate enters the backend formula. */
  function OvertimePay(ot: real): (pay: real)
    ensures ot >= 0.0 ==> pay >= 0.0
    ensures ot >= 0.0 ==> (pay == 0.0 <==> ot == 0.0)
  {
    Tier1(ot) * OVERTIME_PAY_RATE_1 + Tier2(ot) * OVERTIME_PAY_RATE_2
  }

  /** More hours in a day never lower the overtime or the pay. */
  lemma PayMonotone(total1: real, total2: real)
    requires total1 <= total2
    ensures OvertimeHours(total1) <= OvertimeHours(total2)
    ensures OvertimePay(OvertimeHours(total1)) <= OvertimePay(OvertimeHours(total2))
  {
    var ot1, ot2 := OvertimeHours(total1), OvertimeHours(total2);
    if ot2 <= 2.0 {
      assert OvertimePay(ot1) == ot1 * OVERTIME_PAY_RATE_1;
    } else if ot1 > 2.0 {
      assert OvertimePay(ot1) == 2.0 * OVERTIME_PAY_RATE_1 + (ot1 - 2.0) * OVERTIME_PAY_RATE_2;
    }
  }

  /** An 11-hour day: 3 overtime hours, split 2 + 1, paid 2 × 1.33 + 1 × 1.66. */
  lemma ElevenHourDay()
    ensures OvertimeHours(11.0) == 3.0
    ensures Tier1(3.0) == 2.0 && Tier2(3.0) == 1.0
    ensures OvertimePay(3.0) == 4.32
  {
  }

  // ---------------------------------------------------------------------------
  // The summary row and its upsert

  /** The row `syncOvertimeSummary` writes for a user and day. */
  function SummaryRow(entries: seq<TimeEntry>, userId: string, date: CivilDate): DailyOvertime
  {
    var ot := OvertimeHours(DayTotal(entries, userId, date));
    DailyOvertime(userId, date, ot, OvertimePay(ot))
  }

  predicate SameKey(a: DailyOvertime, b: DailyOvertime)
  {
    a.userId == b.userId && a.date == b.date
  }

  /** `dailyOvertime.upsert` on the unique key (userId, date): the matching row
      takes the new hours and pay, or the row is created. */
  function Upsert(rows: seq<DailyOvertime>, row: DailyOvertime): (r: seq<DailyOvertime>)
    requires UniqueOvertimeKeys(rows)
    ensures UniqueOvertimeKeys(r)
    ensures row in r
    ensures forall i :: 0 <= i < |r| ==> r[i] == row || (r[i] in rows && !SameKey(r[i], row))
    ensures forall i :: 0 <= i < |rows| && !SameKey(rows[i], row) ==> rows[i] in r
    ensures |r| == |rows| || |r| == |rows| + 1
  {
    if rows == [] then [row]
    else if SameKey(rows[0], row) then
      assert forall i :: 1 <= i < |rows| ==> !SameKey(rows[i], row);
      [row] + rows[1..]
    else
      var rest := Upsert(rows[1..], row);
      assert forall i :: 0 <= i < |rest| ==> !SameKey(rest[i], rows[0]);
      [rows[0]] + rest
  }

  /** Upserting the same row twice leaves what one upsert leaves. */
  lemma {:induction false} UpsertIdempotent(rows: seq<DailyOvertime>, row: DailyOvertime)
    requires UniqueOvertimeKeys(rows)
    ensures Upsert(Upsert(rows, row), row) == Upsert(rows, row)
    decreases |rows|
  {
    if rows != [] && !SameKey(rows[0], row) {
      UpsertIdempotent(rows[1..], row);
    }
  }

  /** After an upsert the key has exactly the one row just written. */
  lemma UpsertKeyRow(rows: seq<DailyOvertime>, row: DailyOvertime, i: nat)
    requires UniqueOvertimeKeys(rows)
    requires i < |Upsert(rows, row)| && SameKey(Upsert(rows, row)[i], row)
    ensures Upsert(rows, row)[i] == row
  {
  }

  // ---------------------------------------------------------------------------
  // The retry loop

  /** A unique-constraint conflict (`P2002`), the one error worth retrying. */
  predicate IsConflict(err: DbError)
  {
    err.KnownRequestError? && err.code == "P2002"
  }

  /** What one upsert attempt does; the sequence of them stands in for the database. */
  datatype Attempt = Succeeded | Failed(error: DbError)

  /** `safeUpsertOvertimeSummary`: try the upsert, retrying after a conflict
      until `MAX_RETRIES` attempts are used; any other error, or a conflict on
      the last attempt, is rethrown. */
  method SafeUpsertOvertimeSummary(rows: seq<DailyOvertime>, userId: string, date: CivilDate,
                                   overtimeHours: real, overtimePay: real, outcomes: seq<Attempt>)
    returns (rows': seq<DailyOvertime>, result: Result<(), DbError>, attempts: nat)
    requires UniqueOvertimeKeys(rows)
    requires |outcomes| >= MAX_RETRIES
    ensures 1 <= attempts <= MAX_RETRIES
    ensures forall k :: 0 <= k < attempts - 1 ==> outcomes[k].Failed? && IsConflict(outcomes[k].error)
    ensures result.Ok? <==> outcomes[attempts - 1].Succeeded?
    ensures result.Err? ==> result.error == outcomes[attempts - 1].error
    ensures result.Err? ==> !IsConflict(result.error) || attempts == MAX_RETRIES
    ensures rows' == if result.Ok? then Upsert(rows, DailyOvertime(userId, date, overtimeHours, overtimePay)) else rows
  {
    rows' := rows;
    result := Err(OtherError);
    attempts := 0;
    var i := 0;
    while i < MAX_RETRIES
      invariant i < MAX_RETRIES
      invariant forall k :: 0 <= k < i ==> outcomes[k].Failed? && IsConflict(outcomes[k].error)
      decreases MAX_RETRIES - i
    {
      attempts := i + 1;
      match outcomes[i] {
        case Succeeded =>
          rows' := Upsert(rows, DailyOvertime(userId, date, overtimeHours, overtimePay));
          result := Ok(());
          return;
        case Failed(err) =>
          if !IsConflict(err) || i == MAX_RETRIES - 1 {
            result := Err(err);
            return;
          }
      }
      i := i + 1;
    }
  }

  // ---------------------------------------------------------------------------
  // The sync

  /** The table after a successful sync of one user and day. */
  function SyncedRows(entries: seq<TimeEntry>, rows: seq<DailyOvertime>, userId: string, date: CivilDate): seq<DailyOvertime>
    requires UniqueOvertimeKeys(rows)
  {
    Upsert(rows, SummaryRow(entries, userId, date))
  }

  /** `syncOvertimeSummary`: total the day, derive overtime and pay, upsert. */
  method SyncOvertimeSummary(entries: seq<TimeEntry>, rows: seq<DailyOvertime>, userId: string,
                             date: CivilDate, outcomes: seq<Attempt>)
    returns (rows': seq<DailyOvertime>, result: Result<(), DbError>)
    requires UniqueOvertimeKeys(rows)
    requires |outcomes| >= MAX_RETRIES
    ensures result.Ok? ==> rows' == SyncedRows(entries, rows, userId, date)
    ensures result.Err? ==> rows' == rows
    ensures UniqueOvertimeKeys(rows')
  {
    var totalHours := DayTotal(entries, userId, date);
    var overtimeHours := OvertimeHours(totalHours);
    var overtimePay := OvertimePay(overtimeHours);
    var attempts;
    rows', result, attempts := SafeUpsertOvertimeSummary(rows, userId, date, overtimeHours, overtimePay, outcomes);
  }

  /** Syncing twice with unchanged entries leaves the table as one sync left it. */
  lemma SyncIdempotent(entries: seq<TimeEntry>, rows: seq<DailyOvertime>, userId: string, date: CivilDate)
    requires UniqueOvertimeKeys(rows)
    ensures SyncedRows(entries, SyncedRows(entries, rows, userId, date), userId, date)
         == SyncedRows(entries, rows, userId, date)
  {
    UpsertIdempotent(rows, SummaryRow(entries, userId, date));
  }

  /** After a sync the day's row holds the overtime and pay of the day's total. */
  lemma SyncedRowMatchesEntries(entries: seq<TimeEntry>, rows: seq<DailyOvertime>, userId: string, date: CivilDate, i: nat)
    requires UniqueOvertimeKeys(rows)
    requires i < |SyncedRows(entries, rows, userId, date)|
    requires SyncedRows(entries, rows, userId, date)[i].userId == userId
    requires SyncedRows(entries, rows, userId, date)[i].date == date
    ensures SyncedRows(entries, rows, userId, date)[i].overtimeHours == OvertimeHours(DayTotal(entries, userId, date))
    ensures SyncedRows(entries, rows, userId, date)[i].overtimePay
         == OvertimePay(OvertimeHours(DayTotal(entries, userId, date)))
  {
    UpsertKeyRow(rows, SummaryRow(entries, userId, date), i);
  }
}
