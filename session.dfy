/** The session store: the session table keyed by session id, each row holding
    the serialized session, its expiry and the user it belongs to. A row whose
    expiry is before the current time is expired; the current time is a
    parameter. */
module Sessions {
  import opened Common

  const DEFAULT_CHECK_PERIOD: nat := 5 * 60 * 1000
  const DEFAULT_MAX_AGE: nat := 24 * 60 * 60 * 1000

  datatype StoreOptions = StoreOptions(checkPeriod: Option<nat>, maxAge: Option<nat>)

  /** A session as the framework hands it over: the id of its user, if any,
      and the text `JSON.stringify` makes of it. */
  datatype SessionData = SessionData(userId: Option<string>, serialized: string)

  /** A row of the session table; times are milliseconds. */
  datatype SessionRow = SessionRow(data: string, expiresAt: int, userId: Option<string>)

  type Table = map<string, SessionRow>

  predicate Expired(r: SessionRow, now: int)
  {
    r.expiresAt < now
  }

  /** What `get` hands back: the stored text of a row that has not expired. */
  function Lookup(t: Table, sid: string, now: int): (r: Option<string>)
    ensures r.Some? <==> sid in t && !Expired(t[sid], now)
    ensures r.Some? ==> r.value == t[sid].data
  {
    if sid in t && !Expired(t[sid], now) then Some(t[sid].data) else None
  }

  /** The table after `get`: an expired row it finds is deleted. */
  function AfterGet(t: Table, sid: string, now: int): (r: Table)
    ensures forall id :: id in r <==> id in t && !(id == sid && Expired(t[id], now))
    ensures forall id :: id in r ==> r[id] == t[id]
    ensures Lookup(r, sid, now) == Lookup(t, sid, now)
  {
    if sid in t && Expired(t[sid], now) then t - {sid} else t
  }

  /** The row `set` leaves: the upsert writes data and expiry; a session
      without a user leaves an existing row's user as it was (an undefined
      field is not written) and creates a row without one. */
  function Stored(t: Table, sid: string, d: SessionData, expiresAt: int): (r: Table)
    ensures sid in r && r[sid].data == d.serialized && r[sid].expiresAt == expiresAt
    ensures d.userId.Some? ==> r[sid].userId == d.userId
    ensures d.userId.None? ==> r[sid].userId == (if sid in t then t[sid].userId else None)
    ensures forall id :: id != sid ==> (id in r <==> id in t)
    ensures forall id :: id != sid && id in t ==> r[id] == t[id]
    ensures |r.Keys| == if sid in t then |t.Keys| else |t.Keys| + 1
  {
    var userId := if d.userId.Some? then d.userId else if sid in t then t[sid].userId else None;
    var r := t[sid := SessionRow(d.serialized, expiresAt, userId)];
    assert r.Keys == t.Keys + {sid};
    r
  }

  /** The row `touch` leaves: an existing row only gets the new expiry; a
      missing one makes the update fail and is stored as `set` stores it. */
  function Touched(t: Table, sid: string, d: SessionData, expiresAt: int): (r: Table)
    ensures sid in r && r[sid].expiresAt == expiresAt
    ensures sid in t ==> r[sid].data == t[sid].data && r[sid].userId == t[sid].userId
    ensures sid !in t ==> r[sid] == SessionRow(d.serialized, expiresAt, d.userId)
    ensures forall id :: id != sid ==> (id in r <==> id in t)
    ensures forall id :: id != sid && id in t ==> r[id] == t[id]
  {
    if sid in t then t[sid := t[sid].(expiresAt := expiresAt)] else Stored(t, sid, d, expiresAt)
  }

  /** The ids whose rows have not expired: `expiresAt >= now`. */
  function ActiveIds(t: Table, now: int): set<string>
  {
    set id | id in t && !Expired(t[id], now)
  }

  function ExpiredIds(t: Table, now: int): set<string>
  {
    set id | id in t && Expired(t[id], now)
  }

  /** What `all` hands back: stored text by id, for the rows not expired. */
  function Active(t: Table, now: int): (r: map<string, string>)
    ensures r.Keys == ActiveIds(t, now)
    ensures forall id :: id in r ==> r[id] == t[id].data
  {
    map id | id in ActiveIds(t, now) :: t[id].data
  }

  /** The table after cleanup: `deleteMany` of the rows with `expiresAt < now`. */
  function Cleaned(t: Table, now: int): Table
  {
    map id | id in t && !Expired(t[id], now) :: t[id]
  }

  function SessionsOf(t: Table, userId: string): set<string>
  {
    set id | id in t && t[id].userId == Some(userId)
  }

  /** The table after `deleteMany({ where: { userId } })`. */
  function WithoutUser(t: Table, userId: string): Table
  {
    map id | id in t && t[id].userId != Some(userId) :: t[id]
  }

  /** A set split by a test is the two parts side by side. */
  lemma SplitCount(all: set<string>, kept: set<string>, dropped: set<string>)
    requires kept <= all && dropped == all - kept
    ensures |all| == |kept| + |dropped|
  {
    assert all == kept + dropped;
    assert kept * dropped == {};
  }

  /** Cleanup keeps every row that has not expired and drops every other:
      what `all` and `length` report is unchanged, and the rows dropped are
      exactly the expired ones. */
  lemma CleanupKeepsActive(t: Table, now: int)
    ensures Active(Cleaned(t, now), now) == Active(t, now)
    ensures Cleaned(t, now).Keys == ActiveIds(t, now)
    ensures ExpiredIds(Cleaned(t, now), now) == {}
    ensures |t.Keys| == |Cleaned(t, now).Keys| + |ExpiredIds(t, now)|
  {
    var c := Cleaned(t, now);
    assert c.Keys == ActiveIds(t, now);
    assert ActiveIds(c, now) == ActiveIds(t, now);
    SplitCount(t.Keys, ActiveIds(t, now), ExpiredIds(t, now));
  }

  /** Logging a user out everywhere removes exactly that user's rows, leaves
      every other row as it was and reports how many went. */
  lemma LogoutRemovesExactly(t: Table, userId: string)
    ensures forall id :: id in WithoutUser(t, userId) <==> id in t && id !in SessionsOf(t, userId)
    ensures forall id :: id in WithoutUser(t, userId) ==> WithoutUser(t, userId)[id] == t[id]
    ensures SessionsOf(WithoutUser(t, userId), userId) == {}
    ensures |t.Keys| == |WithoutUser(t, userId).Keys| + |SessionsOf(t, userId)|
  {
    var w := WithoutUser(t, userId);
    assert w.Keys == t.Keys - SessionsOf(t, userId);
    SplitCount(t.Keys, w.Keys, SessionsOf(t, userId));
  }

  /** A session stored now is found until its maximum age has passed and
      not after. */
  lemma GetAfterSet(t: Table, sid: string, d: SessionData, now: int, maxAge: nat, later: int)
    requires now <= later
    ensures later <= now + maxAge ==> Lookup(Stored(t, sid, d, now + maxAge), sid, later) == Some(d.serialized)
    ensures later > now + maxAge ==> Lookup(Stored(t, sid, d, now + maxAge), sid, later).None?
  {
  }

  /** Touching a found session keeps it found for another maximum age. */
  lemma TouchExtends(t: Table, sid: string, d: SessionData, now: int, maxAge: nat, later: int)
    requires sid in t && now <= later <= now + maxAge
    ensures Lookup(Touched(t, sid, d, now + maxAge), sid, later) == Some(t[sid].data)
  {
  }

  /** The active rows are among all rows. */
  lemma ActiveAtMostTotal(t: Table, now: int)
    ensures |ActiveIds(t, now)| <= |t.Keys|
    ensures |t.Keys| - |ActiveIds(t, now)| == |ExpiredIds(t, now)|
  {
    SplitCount(t.Keys, ActiveIds(t, now), ExpiredIds(t, now));
  }

  /** `PrismaSessionStore` over its table. */
  class SessionStore {
    var rows: Table
    const checkPeriod: nat
    const maxAge: nat
    /** Whether the periodic cleanup is scheduled. */
    var cleanupScheduled: bool

    /** The options default to a 5-minute check period and a 24-hour
        maximum age; the cleanup is scheduled at once. */
    constructor (rows: Table, options: StoreOptions)
      ensures this.rows == rows && cleanupScheduled
      ensures checkPeriod == if options.checkPeriod.Some? then options.checkPeriod.value else DEFAULT_CHECK_PERIOD
      ensures maxAge == if options.maxAge.Some? then options.maxAge.value else DEFAULT_MAX_AGE
    {
      this.rows := rows;
      checkPeriod := if options.checkPeriod.Some? then options.checkPeriod.value else DEFAULT_CHECK_PERIOD;
      maxAge := if options.maxAge.Some? then options.maxAge.value else DEFAULT_MAX_AGE;
      cleanupScheduled := true;
    }

    method Get(sid: string, now: int) returns (session: Option<string>)
      modifies this
      ensures session == Lookup(old(rows), sid, now)
      ensures rows == AfterGet(old(rows), sid, now) && cleanupScheduled == old(cleanupScheduled)
    {
      if sid !in rows {
        return None;
      }
      if rows[sid].expiresAt < now {
        Destroy(sid);
        return None;
      }
      session := Some(rows[sid].data);
    }

    method Set(sid: string, data: SessionData, now: int)
      modifies this
      ensures rows == Stored(old(rows), sid, data, now + maxAge) && cleanupScheduled == old(cleanupScheduled)
    {
      var expiresAt := now + maxAge;
      if sid in rows {
        var userId := if data.userId.Some? then data.userId else rows[sid].userId;
        rows := rows[sid := SessionRow(data.serialized, expiresAt, userId)];
      } else {
        rows := rows[sid := SessionRow(data.serialized, expiresAt, data.userId)];
      }
    }

    /** Deleting a missing id is not an error. */
    method Destroy(sid: string)
      modifies this
      ensures rows == old(rows) - {sid} && cleanupScheduled == old(cleanupScheduled)
    {
      rows := rows - {sid};
    }

    method Touch(sid: string, data: SessionData, now: int)
      modifies this
      ensures rows == Touched(old(rows), sid, data, now + maxAge) && cleanupScheduled == old(cleanupScheduled)
    {
      if sid in rows {
        rows := rows[sid := rows[sid].(expiresAt := now + maxAge)];
      } else {
        Set(sid, data, now);
      }
    }

    method All(now: int) returns (sessions: map<string, string>)
      ensures sessions.Keys == ActiveIds(rows, now)
      ensures forall id :: id in sessions ==> sessions[id] == rows[id].data
    {
      sessions := map id | id in rows && rows[id].expiresAt >= now :: rows[id].data;
    }

    method Length(now: int) returns (count: nat)
      ensures count == |Active(rows, now)|
    {
      var active := set id | id in rows && rows[id].expiresAt >= now;
      assert active == Active(rows, now).Keys;
      count := |active|;
    }

    method Clear()
      modifies this
      ensures rows == map[] && cleanupScheduled == old(cleanupScheduled)
    {
      rows := map[];
    }

    /** One run of the periodic cleanup; it returns how many rows it removed. */
    method Cleanup(now: int) returns (count: nat)
      modifies this
      ensures rows == Cleaned(old(rows), now) && cleanupScheduled == old(cleanupScheduled)
      ensures count == |ExpiredIds(old(rows), now)|
    {
      var expired := set id | id in rows && rows[id].expiresAt < now;
      assert expired == ExpiredIds(rows, now);
      count := |expired|;
      rows := map id | id in rows && rows[id].expiresAt >= now :: rows[id];
    }

    method StartCleanup()
      modifies this
      ensures cleanupScheduled && rows == old(rows)
    {
      cleanupScheduled := true;
    }

    method StopCleanup()
      modifies this
      ensures !cleanupScheduled && rows == old(rows)
    {
      cleanupScheduled := false;
    }

    method LogoutUserEverywhere(userId: string) returns (count: nat)
      modifies this
      ensures rows == WithoutUser(old(rows), userId) && cleanupScheduled == old(cleanupScheduled)
      ensures count == |old(rows).Keys| - |rows.Keys|
      ensures count == |SessionsOf(old(rows), userId)|
    {
      LogoutRemovesExactly(rows, userId);
      var before := |rows.Keys|;
      rows := map id | id in rows && rows[id].userId != Some(userId) :: rows[id];
      count := before - |rows.Keys|;
    }

    method GetSessionStats(now: int) returns (total: nat, active: nat, expired: int)
      ensures total == |rows.Keys| && active == |ActiveIds(rows, now)|
      ensures expired == total - active && expired == |ExpiredIds(rows, now)|
      ensures active <= total
    {
      ActiveAtMostTotal(rows, now);
      total := |rows.Keys|;
      var live := set id | id in rows && rows[id].expiresAt >= now;
      assert live == ActiveIds(rows, now);
      active := |live|;
      expired := total - active;
    }
  }
}
