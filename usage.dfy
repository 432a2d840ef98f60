/** The usage endpoint: it finds or mints the caller's session id, keys the
    day by the ISO date, looks up that day's row and reports the count
    against the fixed daily limit.  It only reads: the usage table is an
    input value and nothing in the endpoint writes to it. */
module Usage {
  import opened Wrappers
  import opened Text

  // ---------------------------------------------------------------------
  // the session cookie

  const SessionCookie: string := "session_id"
  /** Thirty days, in seconds. */
  const SessionMaxAge: nat := 60 * 60 * 24 * 30

  datatype Cookie = Cookie(name: string, value: string, httpOnly: bool, secure: bool, sameSite: string, maxAge: nat)

  /** The cookie minted for a new session; it is `secure` only in production. */
  function SessionCookieFor(id: string, production: bool): Cookie {
    Cookie(SessionCookie, id, true, production, "strict", SessionMaxAge)
  }

  /** A cookie value the endpoint reuses: present and not empty. */
  predicate Reusable(cookie: Option<string>) {
    cookie.Some? && cookie.value != ""
  }

  /** Get or create the session id.  `cookie` is the request's `session_id`
      cookie, `freshId` the UUID minted when it cannot be reused; `written` is the
      cookie written on the response, if any. */
  method ResolveSession(cookie: Option<string>, freshId: string, production: bool)
    returns (sessionId: string, written: Option<Cookie>)
    ensures Reusable(cookie) ==> sessionId == cookie.value && written.None?
    ensures !Reusable(cookie) ==> sessionId == freshId && written == Some(SessionCookieFor(freshId, production))
    ensures written.Some? ==> written.value.value == sessionId && written.value.maxAge == 2592000 && written.value.httpOnly
    ensures freshId != "" ==> sessionId != ""
  {
    written := None;
    var id := if cookie.Some? then cookie.value else "";
    if id == "" {
      id := freshId;
      written := Some(SessionCookieFor(id, production));
    }
    sessionId := id;
  }

  // ---------------------------------------------------------------------
  // the day key: `new Date().toISOString().split('T')[0]`

  function DayKey(iso: string): (day: string)
    ensures 'T' !in day
  {
    Split(iso, 'T')[0]
  }

  /** The day key is the part of the timestamp before its first `T`. */
  lemma {:induction false} DayKeyIsDatePart(date: string, time: string)
    requires 'T' !in date
    ensures DayKey(date + "T" + time) == date
  {
    SplitCons(date, 'T', time);
  }

  /** The day key is always a prefix of the timestamp. */
  lemma {:induction false} DayKeyIsPrefix(iso: string)
    ensures DayKey(iso) == iso[..IndexOf(iso, 'T')]
  {
    SplitFirst(iso, 'T');
  }

  // ---------------------------------------------------------------------
  // the summary

  const DailyLimit: int := 5

  /** A usage row's `count` column, which may be null (`None`). */
  type Row = Option<int>

  /** `usageResults[0]?.count || 0`: the row's count, or 0 when there is no
      row or its count is null. */
  function CountOf(row: Option<Row>): (count: int)
    ensures row.Some? && row.value.Some? ==> count == row.value.value
    ensures count != 0 ==> row == Some(Some(count))
  {
    match row
    case Some(Some(c)) => c
    case _ => 0
  }

  datatype Summary = Summary(count: int, limit: int, remaining: int, hasReachedLimit: bool)

  /** The reported summary for a count. */
  function Summarize(count: int): (s: Summary)
    ensures s.count == count && s.limit == DailyLimit
    ensures s.remaining >= 0 && s.remaining >= s.limit - count
    ensures s.remaining == 0 || s.remaining == s.limit - count
    ensures count >= 0 ==> s.remaining <= s.limit
    ensures s.hasReachedLimit <==> count >= s.limit
    ensures s.hasReachedLimit <==> s.remaining == 0
  {
    var remaining := if DailyLimit - count > 0 then DailyLimit - count else 0;
    Summary(count, DailyLimit, remaining, count >= DailyLimit)
  }

  /** Spending one more unit never raises what remains. */
  lemma {:induction false} RemainingNeverGrows(count: int)
    ensures Summarize(count + 1).remaining <= Summarize(count).remaining
    ensures Summarize(count).hasReachedLimit ==> Summarize(count + 1).hasReachedLimit
  {
    var a, b := Summarize(count), Summarize(count + 1);
    assert b.remaining == 0 || b.remaining == a.remaining - 1;
  }

  // ---------------------------------------------------------------------
  // the endpoint

  /** The usage table, keyed by (user id, day). */
  type UsageTable = map<(string, string), Row>

  datatype HttpError = HttpError(status: int, message: string)

  /** What the endpoint reports for a session on a day. */
  function UsageOn(table: UsageTable, sessionId: string, day: string): (s: Summary)
    ensures (sessionId, day) !in table ==> s.count == 0 && s.remaining == DailyLimit && !s.hasReachedLimit
  {
    var row := if (sessionId, day) in table then Some(table[(sessionId, day)]) else None;
    Summarize(CountOf(row))
  }

  /** The endpoint.  `now` is the current time as an ISO string; `table` is
      the usage table, `None` when the database cannot be reached.  The
      result is the summary or the 500 error; `written` is the cookie written. */
  method GetUsage(cookie: Option<string>, freshId: string, production: bool, now: string, table: Option<UsageTable>)
    returns (result: Result<Summary, HttpError>, written: Option<Cookie>)
    ensures var sessionId := if Reusable(cookie) then cookie.value else freshId;
      result == (if table.None? then Failure(HttpError(500, "Failed to get usage"))
                 else Success(UsageOn(table.value, sessionId, DayKey(now))))
    ensures written == (if Reusable(cookie) then None else Some(SessionCookieFor(freshId, production)))
  {
    var sessionId;
    sessionId, written := ResolveSession(cookie, freshId, production);
    var today := DayKey(now);
    if table.None? {
      result := Failure(HttpError(500, "Failed to get usage"));
      return;
    }
    result := Success(UsageOn(table.value, sessionId, today));
  }
}
