/** The manager service: per-team overtime summaries for a month, and per-member
    overviews of monthly overtime and the last-7-workdays average, over the
    in-memory tables. */
module Manager {
  import opened Common
  import opened Calendar
  import opened Tables
  import opened Overtime
  import opened TimeEntries

  /** The slice of `Team` that the service selects. */
  datatype Team = Team(id: string, managerId: string)

  /** Why a manager query fails: there is no team to report on ("No team(s)
      found"), or the month text reads as an invalid date, which the queries
      reject. */
  datatype ManagerError = NoTeams | InvalidMonth

  // ---------------------------------------------------------------------------
  // Teams and month

  /** `month ?? getCurrentMonth()`. */
  function TargetMonth(month: Option<string>, today: CivilDate): (m: string)
    ensures month.Some? ==> m == month.value
    ensures month.None? ==> m == GetCurrentMonth(today)
  {
    if month.Some? then month.value else GetCurrentMonth(today)
  }

  /** Without a month the range is today's month, day 1 to its last day. */
  lemma DefaultMonthIsCurrent(today: CivilDate)
    requires today.year >= 100
    ensures GetMonthRange(TargetMonth(None, today)) ==
      Some((Date(today.year, today.month, 1), Date(today.year, today.month, DaysInMonth(today.year, today.month))))
  {
    CurrentMonthRange(today);
  }

  /** `getManagerTeamIds`: the ids of the manager's teams, in table order. */
  function ManagerTeamIds(teams: seq<Team>, managerId: string): (ids: seq<string>)
    ensures |ids| <= |teams|
    ensures forall id :: id in ids <==> exists i :: 0 <= i < |teams| && teams[i].managerId == managerId && teams[i].id == id
    decreases |teams|
  {
    if teams == [] then []
    else
      var rest := ManagerTeamIds(teams[1..], managerId);
      assert forall i :: 1 <= i < |teams| ==> teams[i] == teams[1..][i - 1];
      if teams[0].managerId == managerId then [teams[0].id] + rest else rest
  }

  /** `teamId ? [teamId] : await getManagerTeamIds(managerId)`, failing on an
      empty list. */
  function ResolveTeams(teamId: Option<string>, teams: seq<Team>, managerId: string): (r: Result<seq<string>, ManagerError>)
    ensures teamId.Some? && teamId.value != "" ==> r == Ok([teamId.value])
    ensures !(teamId.Some? && teamId.value != "") && r.Ok? ==> r.value == ManagerTeamIds(teams, managerId)
    ensures r.Err? <==> !(teamId.Some? && teamId.value != "") && ManagerTeamIds(teams, managerId) == []
    ensures r.Err? ==> r.error == NoTeams
    ensures r.Ok? ==> |r.value| > 0
  {
    var ids := if teamId.Some? && teamId.value != "" then [teamId.value] else ManagerTeamIds(teams, managerId);
    if |ids| == 0 then Err(NoTeams) else Ok(ids)
  }

  /** `user.findMany({ where: { teamId, isActive: true } })`. */
  function ActiveMembers(users: seq<Member>, teamId: string): (ms: seq<Member>)
    ensures forall i :: 0 <= i < |ms| ==> ms[i] in users && ms[i].teamId == teamId && ms[i].isActive
    ensures forall i :: 0 <= i < |users| && users[i].teamId == teamId && users[i].isActive ==> users[i] in ms
  {
    var p := (u: Member) => u.teamId == teamId && u.isActive;
    FilterAll(users, p);
    forall i | 0 <= i < |users| && users[i].teamId == teamId && users[i].isActive
      ensures users[i] in Filter(users, p)
    {
      FilterKeeps(users, p, i);
    }
    Filter(users, p)
  }

  function MemberIds(ms: seq<Member>): (ids: seq<string>)
    ensures |ids| == |ms|
    ensures forall k :: 0 <= k < |ms| ==> ids[k] == ms[k].id
  {
    seq(|ms|, k requires 0 <= k < |ms| => ms[k].id)
  }

  /** At most one user per id: the primary key. */
  predicate UniqueMemberIds(users: seq<Member>)
  {
    forall i, j :: 0 <= i < j < |users| ==> users[i].id != users[j].id
  }

  // ---------------------------------------------------------------------------
  // The team summary

  datatype TeamSummary = TeamSummary(teamId: string, month: string, totalOvertime: real,
                                     avgDailyOvertime: real, totalOtCost: real)

  /** The overtime rows of the given users dated within `[start, end]`. */
  function TeamOvertimeRows(rows: seq<DailyOvertime>, ids: seq<string>, start: CivilDate, end: CivilDate): seq<DailyOvertime>
  {
    Filter(rows, (r: DailyOvertime) => r.userId in ids && InRange(r.date, start, end))
  }

  /** The `distinct: ["date"]` query: the dates within `[start, end]` on which
      any of the users has an entry. */
  function TeamDays(table: seq<TimeEntry>, ids: seq<string>, start: CivilDate, end: CivilDate): (days: seq<CivilDate>)
    ensures NoDuplicates(days)
    ensures forall i :: 0 <= i < |days| ==> InRange(days[i], start, end)
  {
    var entries := Filter(table, (e: TimeEntry) => e.userId in ids && InRange(e.date, start, end));
    var dates := EntryDates(entries);
    var days := Distinct(dates);
    assert forall i :: 0 <= i < |days| ==> InRange(days[i], start, end) by {
      forall i | 0 <= i < |days| ensures InRange(days[i], start, end) {
        DistinctMembers(dates, days[i]);
        var j :| 0 <= j < |dates| && dates[j] == days[i];
        assert entries[j] in entries;
        FilterMembers(table, (e: TimeEntry) => e.userId in ids && InRange(e.date, start, end), entries[j]);
      }
    }
    days
  }

  /** A date counts exactly when it lies in the range and one of the users has
      an entry on it. */
  lemma TeamDayIff(table: seq<TimeEntry>, ids: seq<string>, start: CivilDate, end: CivilDate, d: CivilDate)
    ensures d in TeamDays(table, ids, start, end) <==>
      InRange(d, start, end) && exists i :: 0 <= i < |table| && table[i].userId in ids && table[i].date == d
  {
    TeamDayHasEntry(table, ids, start, end, d);
    if InRange(d, start, end) && exists i :: 0 <= i < |table| && table[i].userId in ids && table[i].date == d {
      var i :| 0 <= i < |table| && table[i].userId in ids && table[i].date == d;
      EntryGivesTeamDay(table, ids, start, end, i);
    }
  }

  lemma TeamDayHasEntry(table: seq<TimeEntry>, ids: seq<string>, start: CivilDate, end: CivilDate, d: CivilDate)
    ensures d in TeamDays(table, ids, start, end) ==>
      exists i :: 0 <= i < |table| && table[i].userId in ids && table[i].date == d
  {
    var entries := Filter(table, (e: TimeEntry) => e.userId in ids && InRange(e.date, start, end));
    var dates := EntryDates(entries);
    DistinctMembers(dates, d);
    if d in dates {
      var m :| 0 <= m < |dates| && dates[m] == d;
      assert entries[m] in entries;
      FilterMembers(table, (e: TimeEntry) => e.userId in ids && InRange(e.date, start, end), entries[m]);
      var i :| 0 <= i < |table| && table[i] == entries[m];
      assert table[i].userId in ids && table[i].date == d;
    }
  }

  lemma EntryGivesTeamDay(table: seq<TimeEntry>, ids: seq<string>, start: CivilDate, end: CivilDate, i: nat)
    requires i < |table| && table[i].userId in ids && InRange(table[i].date, start, end)
    ensures table[i].date in TeamDays(table, ids, start, end)
  {
    var entries := Filter(table, (e: TimeEntry) => e.userId in ids && InRange(e.date, start, end));
    var dates := EntryDates(entries);
    FilterMembers(table, (e: TimeEntry) => e.userId in ids && InRange(e.date, start, end), table[i]);
    var k :| 0 <= k < |entries| && entries[k] == table[i];
    assert dates[k] == table[i].date;
    DistinctMembers(dates, table[i].date);
  }

  /** `count > 0 ? total / count : 0`. */
  function Average(total: real, count: nat): (avg: real)
    ensures count > 0 ==> avg * count as real == total
    ensures count == 0 ==> avg == 0.0
    ensures count > 0 && total >= 0.0 ==> 0.0 <= avg <= total
  {
    if count > 0 then total / count as real else 0.0
  }

  /** `getTeamSummaryData` over the range `[start, end]`: the team's active
      members, the sums of their overtime rows in range, and the average over
      the days any of them worked. */
  function TeamSummaryIn(users: seq<Member>, table: seq<TimeEntry>, rows: seq<DailyOvertime>,
                         teamId: string, month: string, start: CivilDate, end: CivilDate): (s: TeamSummary)
    ensures s.teamId == teamId && s.month == month
    ensures var days := |TeamDays(table, MemberIds(ActiveMembers(users, teamId)), start, end)|;
      && (days > 0 ==> s.avgDailyOvertime == s.totalOvertime / days as real)
      && (days == 0 ==> s.avgDailyOvertime == 0.0)
    ensures UniqueMemberIds(users) ==>
      var ids := MemberIds(ActiveMembers(users, teamId));
      && s.totalOvertime == Sum(ids, (id: string) => Sum(MonthOvertimeRows(rows, id, start, end), OvertimeHoursOf))
      && s.totalOtCost == Sum(ids, (id: string) => Sum(MonthOvertimeRows(rows, id, start, end), OvertimePayOf))
  {
    var ids := MemberIds(ActiveMembers(users, teamId));
    ActiveTotalsAreMemberSums(users, rows, teamId, start, end);
    var inRange := TeamOvertimeRows(rows, ids, start, end);
    var total := Sum(inRange, OvertimeHoursOf);
    var days := |TeamDays(table, ids, start, end)|;
    var avg := Average(total, days);
    TeamSummary(teamId, month, total, avg, Sum(inRange, OvertimePayOf))
  }

  /** `getTeamSummaryData(teamId, month)`; an unreadable month is an invalid
      date, which the queries reject. */
  function GetTeamSummaryData(users: seq<Member>, table: seq<TimeEntry>, rows: seq<DailyOvertime>,
                              teamId: string, month: string): (r: Result<TeamSummary, ManagerError>)
    ensures r.Err? <==> GetMonthRange(month).None?
    ensures r.Err? ==> r.error == InvalidMonth
    ensures r.Ok? ==> r.value.teamId == teamId && r.value.month == month
  {
    match GetMonthRange(month)
    case None => Err(InvalidMonth)
    case Some(range) => Ok(TeamSummaryIn(users, table, rows, teamId, month, range.0, range.1))
  }

  /** `getTeamSummary`: `getTeamSummaryData` for each resolved team, in the
      order of the team list, all for the target month. */
  function GetTeamSummary(managerId: string, teamId: Option<string>, month: Option<string>, today: CivilDate,
                          teams: seq<Team>, users: seq<Member>, table: seq<TimeEntry>, rows: seq<DailyOvertime>)
    : (r: Result<seq<TeamSummary>, ManagerError>)
    ensures ResolveTeams(teamId, teams, managerId).Err? ==> r == Err(NoTeams)
    ensures r.Err? <==> ResolveTeams(teamId, teams, managerId).Err? || GetMonthRange(TargetMonth(month, today)).None?
    ensures r.Ok? ==> |r.value| == |ResolveTeams(teamId, teams, managerId).value|
  {
    var target := TargetMonth(month, today);
    match ResolveTeams(teamId, teams, managerId)
    case Err(e) => Err(e)
    case Ok(ids) =>
      if GetMonthRange(target).None? then Err(InvalidMonth)
      else
        Ok(seq(|ids|, i requires 0 <= i < |ids| => GetTeamSummaryData(users, table, rows, ids[i], target).value))
  }

  /** Each summary of `getTeamSummary` is the successful
      `getTeamSummaryData` of the team at the same place in the team list. */
  lemma TeamSummaryPerTeam(managerId: string, teamId: Option<string>, month: Option<string>, today: CivilDate,
                           teams: seq<Team>, users: seq<Member>, table: seq<TimeEntry>, rows: seq<DailyOvertime>)
    ensures var r := GetTeamSummary(managerId, teamId, month, today, teams, users, table, rows);
      r.Ok? ==> var ids := ResolveTeams(teamId, teams, managerId).value;
        forall i :: 0 <= i < |ids| ==>
          GetTeamSummaryData(users, table, rows, ids[i], TargetMonth(month, today)) == Ok(r.value[i])
  {
    var r := GetTeamSummary(managerId, teamId, month, today, teams, users, table, rows);
    if r.Ok? {
      var ids := ResolveTeams(teamId, teams, managerId).value;
      forall i | 0 <= i < |ids|
        ensures GetTeamSummaryData(users, table, rows, ids[i], TargetMonth(month, today)) == Ok(r.value[i])
      {
        SummaryDataOk(users, table, rows, ids[i], TargetMonth(month, today));
      }
    }
  }

  /** For a readable month the summary data is a success. */
  lemma SummaryDataOk(users: seq<Member>, table: seq<TimeEntry>, rows: seq<DailyOvertime>, teamId: string, month: string)
    requires GetMonthRange(month).Some?
    ensures GetTeamSummaryData(users, table, rows, teamId, month) == Ok(GetTeamSummaryData(users, table, rows, teamId, month).value)
  {
  }

  /** The team's total is the sum over its members of each member's own
      monthly total, the figure of that member's monthly overview. */
  lemma {:induction false} TeamTotalIsSumOfMembers(rows: seq<DailyOvertime>, ids: seq<string>, start: CivilDate,
                                                   end: CivilDate, f: DailyOvertime -> real)
    requires NoDuplicates(ids)
    ensures Sum(TeamOvertimeRows(rows, ids, start, end), f)
         == Sum(ids, (id: string) => Sum(MonthOvertimeRows(rows, id, start, end), f))
    decreases |rows|
  {
    var whole := (id: string) => Sum(MonthOvertimeRows(rows, id, start, end), f);
    if rows == [] {
      SumSingle(ids, whole, "", 0.0);
    } else {
      var r, rest := rows[0], rows[1..];
      var tail := (id: string) => Sum(MonthOvertimeRows(rest, id, start, end), f);
      var head := (id: string) => if r.userId == id && InRange(r.date, start, end) then f(r) else 0.0;
      forall i | 0 <= i < |ids|
        ensures whole(ids[i]) == head(ids[i]) + tail(ids[i])
      {
      }
      SumAdd(ids, head, tail, whole);
      SumSingle(ids, head, r.userId, if InRange(r.date, start, end) then f(r) else 0.0);
      TeamTotalIsSumOfMembers(rest, ids, start, end, f);
    }
  }

  /** With distinct user ids, the totals over the active members' rows are
      the sums of each member's own monthly totals. */
  lemma ActiveTotalsAreMemberSums(users: seq<Member>, rows: seq<DailyOvertime>, teamId: string, start: CivilDate, end: CivilDate)
    ensures UniqueMemberIds(users) ==>
      var ids := MemberIds(ActiveMembers(users, teamId));
      && Sum(TeamOvertimeRows(rows, ids, start, end), OvertimeHoursOf)
         == Sum(ids, (id: string) => Sum(MonthOvertimeRows(rows, id, start, end), OvertimeHoursOf))
      && Sum(TeamOvertimeRows(rows, ids, start, end), OvertimePayOf)
         == Sum(ids, (id: string) => Sum(MonthOvertimeRows(rows, id, start, end), OvertimePayOf))
  {
    if UniqueMemberIds(users) {
      var ms := ActiveMembers(users, teamId);
      var ids := MemberIds(ms);
      forall i, j | 0 <= i < j < |ids|
        ensures ids[i] != ids[j]
      {
        ActiveMembersUnique(users, teamId, i, j);
      }
      TeamTotalIsSumOfMembers(rows, ids, start, end, OvertimeHoursOf);
      TeamTotalIsSumOfMembers(rows, ids, start, end, OvertimePayOf);
    }
  }

  /** Filtering keeps ids distinct. */
  lemma ActiveMembersUnique(users: seq<Member>, teamId: string, i: nat, j: nat)
    requires UniqueMemberIds(users)
    requires i < j < |ActiveMembers(users, teamId)|
    ensures ActiveMembers(users, teamId)[i].id != ActiveMembers(users, teamId)[j].id
  {
    var a, b := FilterOrder(users, (u: Member) => u.teamId == teamId && u.isActive, i, j);
  }

  // ---------------------------------------------------------------------------
  // The member overview

  /** A row of a grouped query: a user and one aggregate of theirs. */
  datatype UserValue = UserValue(userId: string, value: real)

  /** What a lookup by user ends up holding after the rows are written in
      order: the value of the last row for `id`, or `initial`. */
  function LastValue(rows: seq<UserValue>, id: string, initial: real): (v: real)
    ensures (forall i :: 0 <= i < |rows| ==> rows[i].userId != id) ==> v == initial
    decreases |rows|
  {
    if rows == [] then initial
    else if rows[|rows| - 1].userId == id then rows[|rows| - 1].value
    else LastValue(rows[..|rows| - 1], id, initial)
  }

  /** One row per user, in the order the users are given. */
  function Grouped(users: seq<string>, agg: string -> real): (rows: seq<UserValue>)
    ensures |rows| == |users|
    ensures forall k :: 0 <= k < |users| ==> rows[k] == UserValue(users[k], agg(users[k]))
  {
    seq(|users|, k requires 0 <= k < |users| => UserValue(users[k], agg(users[k])))
  }

  /** In a grouped result the lookup finds the group's aggregate, and the
      initial value for a user without a group. */
  lemma {:induction false} LastValueOfGrouped(users: seq<string>, agg: string -> real, id: string, initial: real)
    requires NoDuplicates(users)
    ensures LastValue(Grouped(users, agg), id, initial) == if id in users then agg(id) else initial
    decreases |users|
  {
    if users != [] {
      var n := |users| - 1;
      assert Grouped(users, agg)[..n] == Grouped(users[..n], agg);
      assert users == users[..n] + [users[n]];
      LastValueOfGrouped(users[..n], agg, id, initial);
    }
  }

  /** The entries of user `id` whose date the window admits. */
  function WindowEntries(table: seq<TimeEntry>, id: string, inWindow: CivilDate -> bool): seq<TimeEntry>
  {
    Filter(table, (e: TimeEntry) => e.userId == id && inWindow(e.date))
  }

  /** `SUM("hours") / COUNT(DISTINCT "date")` of one user's entries in the
      window, and 0 (the initial value of the overview) without any. */
  function WindowAverage(table: seq<TimeEntry>, id: string, inWindow: CivilDate -> bool): real
  {
    var entries := WindowEntries(table, id, inWindow);
    Average(Sum(entries, Hours), |Distinct(EntryDates(entries))|)
  }

  function EntryUsers(entries: seq<TimeEntry>): (users: seq<string>)
    ensures |users| == |entries|
    ensures forall k :: 0 <= k < |entries| ==> users[k] == entries[k].userId
  {
    seq(|entries|, k requires 0 <= k < |entries| => entries[k].userId)
  }

  function RowUsers(rows: seq<DailyOvertime>): (users: seq<string>)
    ensures |users| == |rows|
    ensures forall k :: 0 <= k < |rows| ==> users[k] == rows[k].userId
  {
    seq(|rows|, k requires 0 <= k < |rows| => rows[k].userId)
  }

  /** The raw last-7 query: `GROUP BY "userId"` over the users' entries whose
      date the window admits. */
  function Last7Rows(table: seq<TimeEntry>, ids: seq<string>, inWindow: CivilDate -> bool): (rows: seq<UserValue>)
  {
    var users := Distinct(EntryUsers(Filter(table, (e: TimeEntry) => e.userId in ids && inWindow(e.date))));
    Grouped(users, WindowAverages(table, inWindow))
  }

  /** Each user's window average. */
  function WindowAverages(table: seq<TimeEntry>, inWindow: CivilDate -> bool): string -> real
  {
    (id: string) => WindowAverage(table, id, inWindow)
  }

  /** The `groupBy(["userId"])` of the users' overtime rows in the month, with
      the `_sum` of their hours. */
  function MonthlyOvertimeRows(rows: seq<DailyOvertime>, ids: seq<string>, start: CivilDate, end: CivilDate): seq<UserValue>
  {
    var users := Distinct(RowUsers(TeamOvertimeRows(rows, ids, start, end)));
    Grouped(users, MonthlySums(rows, start, end))
  }

  /** Each user's overtime hours in the month. */
  function MonthlySums(rows: seq<DailyOvertime>, start: CivilDate, end: CivilDate): string -> real
  {
    (id: string) => Sum(MonthOvertimeRows(rows, id, start, end), OvertimeHoursOf)
  }

  /** Looking a member up in the last-7 rows gives their window average. */
  lemma Last7Lookup(table: seq<TimeEntry>, ids: seq<string>, inWindow: CivilDate -> bool, id: string)
    requires id in ids
    ensures LastValue(Last7Rows(table, ids, inWindow), id, 0.0) == WindowAverage(table, id, inWindow)
  {
    var matching := Filter(table, (e: TimeEntry) => e.userId in ids && inWindow(e.date));
    var users := Distinct(EntryUsers(matching));
    LastValueOfGrouped(users, WindowAverages(table, inWindow), id, 0.0);
    OwnEntriesGrouped(table, ids, inWindow, id);
    if id !in users {
      assert WindowEntries(table, id, inWindow) == [];
      assert EntryDates([]) == [];
      assert Distinct(EntryDates([])) == [];
    }
  }

  /** A member with an entry in the window is one of the grouped users. */
  lemma OwnEntriesGrouped(table: seq<TimeEntry>, ids: seq<string>, inWindow: CivilDate -> bool, id: string)
    requires id in ids
    ensures WindowEntries(table, id, inWindow) != [] ==>
      id in Distinct(EntryUsers(Filter(table, (e: TimeEntry) => e.userId in ids && inWindow(e.date))))
  {
    var own := WindowEntries(table, id, inWindow);
    var matching := Filter(table, (e: TimeEntry) => e.userId in ids && inWindow(e.date));
    if own != [] {
      var e := own[0];
      FilterMembers(table, (e: TimeEntry) => e.userId == id && inWindow(e.date), e);
      FilterMembers(table, (e: TimeEntry) => e.userId in ids && inWindow(e.date), e);
      var j :| 0 <= j < |matching| && matching[j] == e;
      assert EntryUsers(matching)[j] == id;
      DistinctMembers(EntryUsers(matching), id);
    }
  }

  /** Looking a member up in the monthly rows gives their month's overtime. */
  lemma MonthlyLookup(rows: seq<DailyOvertime>, ids: seq<string>, start: CivilDate, end: CivilDate, id: string)
    requires id in ids
    ensures LastValue(MonthlyOvertimeRows(rows, ids, start, end), id, 0.0)
         == Sum(MonthOvertimeRows(rows, id, start, end), OvertimeHoursOf)
  {
    var matching := TeamOvertimeRows(rows, ids, start, end);
    var users := Distinct(RowUsers(matching));
    LastValueOfGrouped(users, MonthlySums(rows, start, end), id, 0.0);
    OwnRowsGrouped(rows, ids, start, end, id);
  }

  /** A member with a row in the month is one of the grouped users. */
  lemma OwnRowsGrouped(rows: seq<DailyOvertime>, ids: seq<string>, start: CivilDate, end: CivilDate, id: string)
    requires id in ids
    ensures MonthOvertimeRows(rows, id, start, end) != [] ==>
      id in Distinct(RowUsers(TeamOvertimeRows(rows, ids, start, end)))
  {
    var own := MonthOvertimeRows(rows, id, start, end);
    var matching := TeamOvertimeRows(rows, ids, start, end);
    if own != [] {
      var r := own[0];
      FilterMembers(rows, (r: DailyOvertime) => r.userId == id && InRange(r.date, start, end), r);
      FilterMembers(rows, (r: DailyOvertime) => r.userId in ids && InRange(r.date, start, end), r);
      var j :| 0 <= j < |matching| && matching[j] == r;
      assert RowUsers(matching)[j] == id;
      DistinctMembers(RowUsers(matching), id);
    }
  }

  /** A value of the `result` map: the member's names and the two metrics. */
  datatype Tally = Tally(firstName: string, lastName: string, monthlyOvertime: real, last7WorkdaysAvgHours: real)

  datatype MemberOverview = MemberOverview(userId: string, name: string, monthlyOvertime: real, last7WorkdaysAvgHours: real)

  /** The map after the first loop, with its insertion order: one zeroed tally
      per member id, the first member with the id giving the names. */
  function Seeded(members: seq<Member>): (s: (map<string, Tally>, seq<string>))
    ensures NoDuplicates(s.1)
    ensures forall id :: id in s.0 <==> id in s.1
    ensures forall id :: id in s.0 ==> s.0[id].monthlyOvertime == 0.0 && s.0[id].last7WorkdaysAvgHours == 0.0
    decreases |members|
  {
    if members == [] then (map[], [])
    else
      var prev := Seeded(members[..|members| - 1]);
      var m := members[|members| - 1];
      if m.id in prev.0 then prev
      else (prev.0[m.id := Tally(m.firstName, m.lastName, 0.0, 0.0)], prev.1 + [m.id])
  }

  /** With distinct ids the seeding keeps every member, in order, under its
      own names. */
  lemma {:induction false} SeededDistinct(members: seq<Member>)
    requires UniqueMemberIds(members)
    ensures Seeded(members).1 == MemberIds(members)
    ensures forall k :: 0 <= k < |members| ==>
      Seeded(members).0[members[k].id] == Tally(members[k].firstName, members[k].lastName, 0.0, 0.0)
    decreases |members|
  {
    if members != [] {
      var n := |members| - 1;
      var init := members[..n];
      var m := members[n];
      UniqueInit(members);
      SeededDistinct(init);
      SeededNewLast(members);
      MemberIdsSnoc(members);
      forall k | 0 <= k < |members|
        ensures Seeded(members).0[members[k].id] == Tally(members[k].firstName, members[k].lastName, 0.0, 0.0)
      {
        if k < n {
          assert members[k] == init[k] && members[k].id != m.id;
        }
      }
    }
  }

  /** A last member whose id the others do not use adds its own tally and id. */
  lemma SeededNewLast(members: seq<Member>)
    requires members != []
    requires Seeded(members[..|members| - 1]).1 == MemberIds(members[..|members| - 1])
    requires forall k :: 0 <= k < |members| - 1 ==> members[k].id != members[|members| - 1].id
    ensures var prev := Seeded(members[..|members| - 1]); var m := members[|members| - 1];
      Seeded(members) == (prev.0[m.id := Tally(m.firstName, m.lastName, 0.0, 0.0)], prev.1 + [m.id])
  {
    var n := |members| - 1;
    var init := members[..n];
    var m := members[n];
    var prev := Seeded(init);
    assert m.id !in prev.1 by {
      forall k | 0 <= k < n ensures prev.1[k] != m.id {
        assert prev.1[k] == init[k].id == members[k].id;
      }
    }
  }

  lemma MemberIdsSnoc(members: seq<Member>)
    requires members != []
    ensures MemberIds(members) == MemberIds(members[..|members| - 1]) + [members[|members| - 1].id]
  {
    var n := |members| - 1;
    var ids := MemberIds(members[..n]) + [members[n].id];
    forall k | 0 <= k < |members| ensures ids[k] == MemberIds(members)[k] {
      if k < n {
        assert ids[k] == MemberIds(members[..n])[k] == members[..n][k].id;
      }
    }
  }

  /** Dropping the last member keeps the ids distinct, and the dropped id is
      new to the rest. */
  lemma UniqueInit(members: seq<Member>)
    requires UniqueMemberIds(members) && members != []
    ensures UniqueMemberIds(members[..|members| - 1])
    ensures forall k :: 0 <= k < |members| - 1 ==> members[k].id != members[|members| - 1].id
  {
    var init := members[..|members| - 1];
    forall i, j | 0 <= i < j < |init| ensures init[i].id != init[j].id {
      assert init[i] == members[i] && init[j] == members[j];
    }
  }

  /** What `getTeamMembersWithEntries` returns for the members and the two
      grouped results: one row per member id in first-seen order, each metric
      the last grouped value for the id or 0. */
  function MembersOverview(members: seq<Member>, last7: seq<UserValue>, monthly: seq<UserValue>): (r: seq<MemberOverview>)
  {
    var (tallies, order) := Seeded(members);
    seq(|order|, k requires 0 <= k < |order| =>
      MemberOverview(order[k], tallies[order[k]].firstName + " " + tallies[order[k]].lastName,
                     LastValue(monthly, order[k], 0.0), LastValue(last7, order[k], 0.0)))
  }

  /** The overview of a team's active members over the month's overtime rows
      and the window's entries. */
  function TeamMemberRows(users: seq<Member>, table: seq<TimeEntry>, rows: seq<DailyOvertime>, teamId: string,
                          monthStart: CivilDate, monthEnd: CivilDate, inWindow: CivilDate -> bool): seq<MemberOverview>
  {
    var members := ActiveMembers(users, teamId);
    var ids := MemberIds(members);
    MembersOverview(members, Last7Rows(table, ids, inWindow), MonthlyOvertimeRows(rows, ids, monthStart, monthEnd))
  }

  /** The three loops of `getTeamMembersWithEntries` over the team's active
      members and the two grouped query results: seed a zeroed tally per
      member, then overwrite the average and the monthly overtime of each
      member the results name, ignoring the rows of anyone else. */
  method GetTeamMembersWithEntries(users: seq<Member>, table: seq<TimeEntry>, rows: seq<DailyOvertime>, teamId: string,
                                   monthStart: CivilDate, monthEnd: CivilDate, inWindow: CivilDate -> bool)
    returns (overview: seq<MemberOverview>)
    ensures overview == TeamMemberRows(users, table, rows, teamId, monthStart, monthEnd, inWindow)
  {
    var members := ActiveMembers(users, teamId);
    var userIds := MemberIds(members);
    var last7 := Last7Rows(table, userIds, inWindow);
    var monthly := MonthlyOvertimeRows(rows, userIds, monthStart, monthEnd);
    overview := Tabulate(members, last7, monthly);
  }

  /** The `result` map and its three loops: seed, then overwrite from each
      grouped result in turn; the map's insertion order is the output order. */
  method Tabulate(members: seq<Member>, last7: seq<UserValue>, monthly: seq<UserValue>)
    returns (overview: seq<MemberOverview>)
    ensures overview == MembersOverview(members, last7, monthly)
  {
    var result, order := SeedResult(members);
    ghost var seeded := result;
    result := OverwriteLast7(result, last7);
    result := OverwriteMonthly(result, monthly);
    overview := seq(|order|, k requires 0 <= k < |order| =>
      MemberOverview(order[k], result[order[k]].firstName + " " + result[order[k]].lastName,
                     result[order[k]].monthlyOvertime, result[order[k]].last7WorkdaysAvgHours));
    assert forall k :: 0 <= k < |order| ==> overview[k] == MembersOverview(members, last7, monthly)[k];
  }

  /** The first loop: a zeroed tally per member id not seen before, the ids in
      insertion order. */
  method SeedResult(members: seq<Member>) returns (result: map<string, Tally>, order: seq<string>)
    ensures (result, order) == Seeded(members)
  {
    result := map[];
    order := [];
    for k := 0 to |members|
      invariant (result, order) == Seeded(members[..k])
    {
      var member := members[k];
      SeededStep(members, k);
      if member.id !in result {
        result := result[member.id := Tally(member.firstName, member.lastName, 0.0, 0.0)];
        order := order + [member.id];
      }
    }
    assert members[..|members|] == members;
  }

  /** The second loop: each last-7 row overwrites the average of a user the
      map holds; rows of other users are ignored. */
  method OverwriteLast7(start: map<string, Tally>, last7: seq<UserValue>) returns (result: map<string, Tally>)
    ensures result.Keys == start.Keys
    ensures forall id :: id in result ==>
      result[id] == start[id].(last7WorkdaysAvgHours := LastValue(last7, id, start[id].last7WorkdaysAvgHours))
  {
    result := start;
    for k := 0 to |last7|
      invariant result.Keys == start.Keys
      invariant forall id :: id in result ==>
        result[id] == start[id].(last7WorkdaysAvgHours := LastValue(last7[..k], id, start[id].last7WorkdaysAvgHours))
    {
      var entry := last7[k];
      LastValueStep(last7, k);
      if entry.userId in result {
        result := result[entry.userId := result[entry.userId].(last7WorkdaysAvgHours := entry.value)];
      }
    }
    assert last7[..|last7|] == last7;
  }

  /** The third loop: each monthly row overwrites the overtime of a user the
      map holds; rows of other users are ignored. */
  method OverwriteMonthly(start: map<string, Tally>, monthly: seq<UserValue>) returns (result: map<string, Tally>)
    ensures result.Keys == start.Keys
    ensures forall id :: id in result ==>
      result[id] == start[id].(monthlyOvertime := LastValue(monthly, id, start[id].monthlyOvertime))
  {
    result := start;
    for k := 0 to |monthly|
      invariant result.Keys == start.Keys
      invariant forall id :: id in result ==>
        result[id] == start[id].(monthlyOvertime := LastValue(monthly[..k], id, start[id].monthlyOvertime))
    {
      var entry := monthly[k];
      LastValueStep(monthly, k);
      if entry.userId in result {
        result := result[entry.userId := result[entry.userId].(monthlyOvertime := entry.value)];
      }
    }
    assert monthly[..|monthly|] == monthly;
  }

  /** One turn of the seeding loop. */
  lemma SeededStep(members: seq<Member>, k: nat)
    requires k < |members|
    ensures var prev := Seeded(members[..k]);
      Seeded(members[..k + 1]) ==
        if members[k].id in prev.0 then prev
        else (prev.0[members[k].id := Tally(members[k].firstName, members[k].lastName, 0.0, 0.0)], prev.1 + [members[k].id])
  {
    assert members[..k + 1][..k] == members[..k];
  }

  /** One more row written: the lookup of its user now gives its value. */
  lemma LastValueStep(rows: seq<UserValue>, k: nat)
    requires k < |rows|
    ensures forall id, initial :: LastValue(rows[..k + 1], id, initial) ==
                                 (if rows[k].userId == id then rows[k].value else LastValue(rows[..k], id, initial))
  {
    var front := rows[..k + 1];
    assert front[..|front| - 1] == rows[..k];
    assert front[|front| - 1] == rows[k];
    forall id, initial
      ensures LastValue(front, id, initial) ==
              (if rows[k].userId == id then rows[k].value else LastValue(rows[..k], id, initial))
    {
    }
  }

  /** With distinct user ids the overview has exactly one row per active
      member, in order: the member's id, "firstName lastName", the sum of the
      member's overtime hours in the month and the member's window average,
      each 0 without rows. */
  lemma MembersOverviewRows(users: seq<Member>, table: seq<TimeEntry>, rows: seq<DailyOvertime>, teamId: string,
                            monthStart: CivilDate, monthEnd: CivilDate, inWindow: CivilDate -> bool, k: nat)
    requires UniqueMemberIds(users)
    requires k < |ActiveMembers(users, teamId)|
    ensures var members := ActiveMembers(users, teamId);
      var ids := MemberIds(members);
      var overview := MembersOverview(members, Last7Rows(table, ids, inWindow), MonthlyOvertimeRows(rows, ids, monthStart, monthEnd));
      && |overview| == |members|
      && overview[k] == MemberOverview(members[k].id, members[k].firstName + " " + members[k].lastName,
                                       Sum(MonthOvertimeRows(rows, members[k].id, monthStart, monthEnd), OvertimeHoursOf),
                                       WindowAverage(table, members[k].id, inWindow))
  {
    var members := ActiveMembers(users, teamId);
    var ids := MemberIds(members);
    forall i, j | 0 <= i < j < |members|
      ensures members[i].id != members[j].id
    {
      ActiveMembersUnique(users, teamId, i, j);
    }
    SeededDistinct(members);
    assert ids[k] == members[k].id;
    Last7Lookup(table, ids, inWindow, members[k].id);
    MonthlyLookup(rows, ids, monthStart, monthEnd, members[k].id);
  }

  // ---------------------------------------------------------------------------
  // The last-7-workdays window

  /** The window as written: `"date" BETWEEN start AND end` with the instants
      that `getLastNWorkdays(new Date(), 7)` returns, which carry the current
      time of day, compared with the stored midnights. */
  function AsWrittenWindow(start: Instant, end: Instant): CivilDate -> bool
  {
    (d: CivilDate) => EpochMs(start) <= EpochMs(Midnight(d)) <= EpochMs(end)
  }

  /** At any time of day but midnight the as-written window drops the oldest
      of the seven workdays and keeps the newest: a member who worked only on
      that day averages 0. */
  lemma AsWrittenWindowDropsFirstDay(first: CivilDate, last: CivilDate, ms: int, e: TimeEntry)
    requires DayNumber(first) < DayNumber(last)
    requires 0 < ms < MS_PER_DAY
    requires e.date == first && e.hours > 0.0
    ensures !AsWrittenWindow(Instant(first, ms), Instant(last, ms))(first)
    ensures AsWrittenWindow(Instant(first, ms), Instant(last, ms))(last)
    ensures WindowAverage([e], e.userId, AsWrittenWindow(Instant(first, ms), Instant(last, ms))) == 0.0
    ensures WindowAverage([e], e.userId, WorkdayWindow(first, last)) == e.hours
  {
    var w := AsWrittenWindow(Instant(first, ms), Instant(last, ms));
    assert !w(first);
    assert WindowEntries([e], e.userId, w) == [];
    assert WindowEntries([e], e.userId, WorkdayWindow(first, last)) == [e];
    assert EntryDates([e]) == [first];
    assert Distinct([first]) == [first];
  }

  /** The window evidently meant: the days from the first to the last of the
      seven workdays, inclusive. */
  function WorkdayWindow(first: CivilDate, last: CivilDate): CivilDate -> bool
  {
    (d: CivilDate) => InRange(d, first, last)
  }

  /** The intended window admits each of the seven workdays. */
  lemma WorkdayWindowHasAll(workdays: seq<CivilDate>)
    requires |workdays| == 7
    requires forall i, j :: 0 <= i < j < 7 ==> DayNumber(workdays[i]) < DayNumber(workdays[j])
    ensures forall i :: 0 <= i < 7 ==> WorkdayWindow(workdays[0], workdays[6])(workdays[i])
  {
  }

  // ---------------------------------------------------------------------------
  // The team entries

  datatype TeamEntries = TeamEntries(teamId: string, month: string, rangeStart: string, rangeEnd: string,
                                     members: seq<MemberOverview>)

  /** `getTeamEntries`: the last 7 workdays ending today, then per resolved
      team, in order, its member overview over the target month and that
      window, with the window's first and last dates. The window is the one
      the code queries: `BETWEEN` the first and last workday at the current
      time of day. */
  method GetTeamEntries(managerId: string, teamId: Option<string>, month: Option<string>, now: Instant,
                        teams: seq<Team>, users: seq<Member>, table: seq<TimeEntry>, rows: seq<DailyOvertime>)
    returns (r: Result<seq<TeamEntries>, ManagerError>, workingDates: seq<CivilDate>)
    ensures |workingDates| == 7
    ensures forall i :: 0 <= i < 7 ==> IsWorkday(workingDates[i]) && DayNumber(workingDates[i]) <= DayNumber(now.day)
    ensures forall i, j :: 0 <= i < j < 7 ==> DayNumber(workingDates[i]) < DayNumber(workingDates[j])
    ensures workingDates[6] == now.day <==> IsWorkday(now.day)
    ensures ResolveTeams(teamId, teams, managerId).Err? ==> r == Err(NoTeams)
    ensures r.Err? <==> ResolveTeams(teamId, teams, managerId).Err? || GetMonthRange(TargetMonth(month, now.day)).None?
    ensures r.Ok? ==>
      var ids := ResolveTeams(teamId, teams, managerId).value;
      var range := GetMonthRange(TargetMonth(month, now.day)).value;
      && |r.value| == |ids|
      && forall i :: 0 <= i < |ids| ==>
           r.value[i] == TeamOverview(ids[i], TargetMonth(month, now.day),
                                      ToISODate(workingDates[0]), ToISODate(workingDates[6]),
                                      users, table, rows, range.0, range.1,
                                      AsWrittenWindow(Instant(workingDates[0], now.ms), Instant(workingDates[6], now.ms)))
  {
    workingDates := GetLastNWorkdays(now.day, 7);
    r := EntriesOverWindow(managerId, teamId, month, now.day, teams, users, table, rows, workingDates,
                           AsWrittenWindow(Instant(workingDates[0], now.ms), Instant(workingDates[6], now.ms)));
  }

  /** `getTeamEntries` with the window evidently meant: every day from the
      first to the last of the seven workdays, whatever the time of day. */
  method GetTeamEntriesCorrected(managerId: string, teamId: Option<string>, month: Option<string>, now: Instant,
                                 teams: seq<Team>, users: seq<Member>, table: seq<TimeEntry>, rows: seq<DailyOvertime>)
    returns (r: Result<seq<TeamEntries>, ManagerError>, workingDates: seq<CivilDate>)
    ensures |workingDates| == 7
    ensures forall i :: 0 <= i < 7 ==> WorkdayWindow(workingDates[0], workingDates[6])(workingDates[i])
    ensures r.Err? <==> ResolveTeams(teamId, teams, managerId).Err? || GetMonthRange(TargetMonth(month, now.day)).None?
    ensures r.Ok? ==>
      var ids := ResolveTeams(teamId, teams, managerId).value;
      var range := GetMonthRange(TargetMonth(month, now.day)).value;
      && |r.value| == |ids|
      && forall i :: 0 <= i < |ids| ==>
           r.value[i] == TeamOverview(ids[i], TargetMonth(month, now.day),
                                      ToISODate(workingDates[0]), ToISODate(workingDates[6]),
                                      users, table, rows, range.0, range.1,
                                      WorkdayWindow(workingDates[0], workingDates[6]))
  {
    workingDates := GetLastNWorkdays(now.day, 7);
    WorkdayWindowHasAll(workingDates);
    r := EntriesOverWindow(managerId, teamId, month, now.day, teams, users, table, rows, workingDates,
                           WorkdayWindow(workingDates[0], workingDates[6]));
  }

  /** The part of `getTeamEntries` after the window is fixed: resolve the
      teams, read the month, and build one overview per team. */
  method EntriesOverWindow(managerId: string, teamId: Option<string>, month: Option<string>, today: CivilDate,
                           teams: seq<Team>, users: seq<Member>, table: seq<TimeEntry>, rows: seq<DailyOvertime>,
                           workingDates: seq<CivilDate>, window: CivilDate -> bool)
    returns (r: Result<seq<TeamEntries>, ManagerError>)
    requires |workingDates| == 7
    ensures ResolveTeams(teamId, teams, managerId).Err? ==> r == Err(NoTeams)
    ensures r.Err? <==> ResolveTeams(teamId, teams, managerId).Err? || GetMonthRange(TargetMonth(month, today)).None?
    ensures r.Ok? ==>
      var ids := ResolveTeams(teamId, teams, managerId).value;
      var range := GetMonthRange(TargetMonth(month, today)).value;
      && |r.value| == |ids|
      && forall i :: 0 <= i < |ids| ==>
           r.value[i] == TeamOverview(ids[i], TargetMonth(month, today),
                                      ToISODate(workingDates[0]), ToISODate(workingDates[6]),
                                      users, table, rows, range.0, range.1, window)
  {
    var target := TargetMonth(month, today);
    var resolved := ResolveTeams(teamId, teams, managerId);
    if resolved.Err? {
      r := Err(resolved.error);
      return;
    }
    var ids := resolved.value;
    var range := GetMonthRange(target);
    if range.None? {
      r := Err(InvalidMonth);
      return;
    }
    var done := EntriesPerTeam(ids, target, ToISODate(workingDates[0]), ToISODate(workingDates[6]),
                               users, table, rows, range.value.0, range.value.1, window);
    r := Ok(done);
  }

  /** The overview of one team: its active members over the month's overtime
      rows and the window's entries. */
  function TeamOverview(id: string, month: string, start: string, end: string,
                        users: seq<Member>, table: seq<TimeEntry>, rows: seq<DailyOvertime>,
                        monthStart: CivilDate, monthEnd: CivilDate, window: CivilDate -> bool): TeamEntries
  {
    TeamEntries(id, month, start, end, TeamMemberRows(users, table, rows, id, monthStart, monthEnd, window))
  }

  /** The `teams.map(...)` of `getTeamEntries`: one overview per team, in order. */
  method EntriesPerTeam(ids: seq<string>, month: string, start: string, end: string,
                        users: seq<Member>, table: seq<TimeEntry>, rows: seq<DailyOvertime>,
                        monthStart: CivilDate, monthEnd: CivilDate, window: CivilDate -> bool)
    returns (done: seq<TeamEntries>)
    ensures |done| == |ids|
    ensures forall j :: 0 <= j < |ids| ==>
      done[j] == TeamOverview(ids[j], month, start, end, users, table, rows, monthStart, monthEnd, window)
  {
    ghost var expected := seq(|ids|, j requires 0 <= j < |ids| =>
      TeamOverview(ids[j], month, start, end, users, table, rows, monthStart, monthEnd, window));
    done := [];
    for i := 0 to |ids|
      invariant done == expected[..i]
    {
      var members := GetTeamMembersWithEntries(users, table, rows, ids[i], monthStart, monthEnd, window);
      var entry := TeamEntries(ids[i], month, start, end, members);
      assert entry == expected[i];
      PrefixStep(expected, i);
      done := done + [entry];
    }
    assert done == expected;
  }
}
