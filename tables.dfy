/** The rows of the persisted tables that the core reads and writes. A table is
    held in memory as the sequence a `findMany` would return, in storage order. */
module Tables {
  import opened Calendar

  /** `TimeEntry`: hours one user logged on one project for one day. The
      overtime sync reads the hours column as `hoursWorked`, the routes as
      `hours`; both name this one field. */
  datatype TimeEntry = TimeEntry(id: string, userId: string, projectId: string, date: CivilDate, hours: real)

  /** `DailyOvertime`: the derived per-user, per-day overtime row, keyed by
      (userId, date). */
  datatype DailyOvertime = DailyOvertime(userId: string, date: CivilDate, overtimeHours: real, overtimePay: real)

  /** The slice of `User` that the manager queries select. */
  datatype Member = Member(id: string, firstName: string, lastName: string, teamId: string, isActive: bool)

  /** A stored date lies in the inclusive range `[start, end]` (`gte` / `lte`). */
  predicate InRange(d: CivilDate, start: CivilDate, end: CivilDate)
  {
    DayNumber(start) <= DayNumber(d) <= DayNumber(end)
  }

  /** The `where: { userId, date }` filter of a day's entries. */
  predicate EntryOfDay(e: TimeEntry, userId: string, date: CivilDate)
  {
    e.userId == userId && e.date == date
  }

  /** The unique key of a time entry: (userId, projectId, date). */
  predicate SameEntryKey(a: TimeEntry, b: TimeEntry)
  {
    a.userId == b.userId && a.projectId == b.projectId && a.date == b.date
  }

  /** At most one time entry per (userId, projectId, date). */
  predicate UniqueEntryKeys(table: seq<TimeEntry>)
  {
    forall i, j :: 0 <= i < j < |table| ==> !SameEntryKey(table[i], table[j])
  }

  /** At most one time entry per id: the primary key. */
  predicate UniqueIds(table: seq<TimeEntry>)
  {
    forall i, j :: 0 <= i < j < |table| ==> table[i].id != table[j].id
  }

  /** Some row of the table has this id. */
  predicate HasId(table: seq<TimeEntry>, id: string)
  {
    exists i :: 0 <= i < |table| && table[i].id == id
  }

  /** What a failed database call throws: a Prisma known-request error with
      its code and message, or anything else. */
  datatype DbError = KnownRequestError(code: string, message: string) | OtherError

  /** At most one overtime row per (userId, date): the table's unique key. */
  predicate UniqueOvertimeKeys(rows: seq<DailyOvertime>)
  {
    forall i, j :: 0 <= i < j < |rows| ==>
      !(rows[i].userId == rows[j].userId && rows[i].date == rows[j].date)
  }
}
