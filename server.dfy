/** The login and session bookkeeping of main.go: the table of failed login attempts
    with its lockout and daily cleanup, the session table with its expiry, the
    ownership rule for `/markdown/<name>/`, and the hourly sweep of `Job`. Times are
    Unix seconds; the clock is a parameter `now`. */
module Server {
  import opened Text
  import opened Wrappers

  /** `loginRecordTimeOut`: a day, in seconds. */
  const LoginRecordTimeOut: int := 60 * 60 * 24

  /** `SessionExpires`: thirty days, in seconds. */
  const SessionExpires: int := 30 * 24 * 60 * 60

  /** The number of failed attempts above which a known user is turned away. */
  const MaxAttempts: int := 3

  /** `LoginRecord`: the time of the last failed attempt and how many there were. */
  datatype LoginRecord = LoginRecord(lastTime: int, count: int)

  /** `UserSession`. */
  datatype UserSession = UserSession(sessionId: string, name: string, expires: int)

  /** The two tables the operations change: `loginRecord` and `session_map`. */
  datatype Tables = Tables(loginRecord: map<string, LoginRecord>, sessions: map<string, UserSession>)

  /** What `login` answers for a POST. */
  datatype LoginOutcome = NoSuchUser | LockedOut | LoggedIn(session: UserSession) | WrongPassword

  // ---------------------------------------------------------------------------
  // The failed-login table.

  /** The table after `loginErr(username)` at `now`. */
  function Failed(records: map<string, LoginRecord>, username: string, now: int): map<string, LoginRecord> {
    if username in records then records[username := LoginRecord(now, records[username].count + 1)]
    else records[username := LoginRecord(now, 1)]
  }

  /** A user is locked out once it has more than three failed attempts on record. */
  predicate Locked(records: map<string, LoginRecord>, username: string) {
    username in records && records[username].count > MaxAttempts
  }

  /** A record `loginRecordClear` removes at `now`: locked, and its last attempt more
      than a day before. */
  predicate Stale(r: LoginRecord, now: int) {
    r.count > MaxAttempts && now - LoginRecordTimeOut > r.lastTime
  }

  function StaleNames(records: map<string, LoginRecord>, now: int): set<string> {
    set u | u in records && Stale(records[u], now)
  }

  /** The table after `loginRecordClear()` at `now`. */
  function Cleared(records: map<string, LoginRecord>, now: int): map<string, LoginRecord> {
    records - StaleNames(records, now)
  }

  // ---------------------------------------------------------------------------
  // Login, session checks and the sweep, as functions of the tables.

  /** `login` for a POST of `username` and `password` at `now`: `users` maps each
      known user to its stored password hash, `verify` is bcrypt's comparison and
      `sessionId` the fresh `Uuid()`. */
  function LoginOf(t: Tables, users: map<string, string>, username: string, password: string,
                   verify: (string, string) -> bool, sessionId: string, now: int): (Tables, LoginOutcome)
  {
    if username !in users then
      (t.(loginRecord := Failed(t.loginRecord, username, now)), NoSuchUser)
    else if Locked(t.loginRecord, username) then
      (t, LockedOut)
    else if verify(users[username], password) then
      var s := UserSession(sessionId, username, now + SessionExpires);
      (t.(sessions := t.sessions[sessionId := s]), LoggedIn(s))
    else
      (t.(loginRecord := Failed(t.loginRecord, username, now)), WrongPassword)
  }

  /** A session that `Auth` and the sweep throw away at `now`. */
  predicate Expired(s: UserSession, now: int) {
    s.expires < now
  }

  /** A path `s` may reach: anything outside `/markdown/`, and under it only the
      owner's own directory. */
  predicate MayAccess(s: UserSession, path: string) {
    !HasPrefix(path, "/markdown/") || HasPrefix(path, "/markdown/" + s.name + "/")
  }

  /** `Auth` for a request with the `session_id` cookie `cookie` (or none) for `path`
      at `now`: the session table afterwards and the answer. */
  function AuthOf(sessions: map<string, UserSession>, cookie: Option<string>, path: string, now: int)
    : (map<string, UserSession>, Option<UserSession>)
  {
    if cookie.None? || cookie.value !in sessions then (sessions, None)
    else
      var s := sessions[cookie.value];
      if Expired(s, now) then (sessions - {cookie.value}, None)
      else if MayAccess(s, path) then (sessions, Some(s))
      else (sessions, None)
  }

  function ExpiredIds(sessions: map<string, UserSession>, now: int): set<string> {
    set k | k in sessions && Expired(sessions[k], now)
  }

  /** The session table after the sweep of `Job` at `now`. */
  function Swept(sessions: map<string, UserSession>, now: int): map<string, UserSession> {
    sessions - ExpiredIds(sessions, now)
  }

  // ---------------------------------------------------------------------------
  // The global state of main.go.

  class WebMark {
    /** `user_map`: each user's stored password hash. */
    var users: map<string, string>
    /** `loginRecord`. */
    var loginRecord: map<string, LoginRecord>
    /** `session_map`. */
    var sessions: map<string, UserSession>

    function State(): Tables
      reads this
    {
      Tables(loginRecord, sessions)
    }

    constructor(users: map<string, string>)
      ensures this.users == users && loginRecord == map[] && sessions == map[]
    {
      this.users := users;
      loginRecord := map[];
      sessions := map[];
    }

    /** `loginErr(username)`. */
    method LoginErr(username: string, now: int)
      modifies this
      ensures loginRecord == Failed(old(loginRecord), username, now)
      ensures sessions == old(sessions) && users == old(users)
    {
      if username in loginRecord {
        var r := loginRecord[username];
        loginRecord := loginRecord[username := r.(lastTime := now, count := r.count + 1)];
      } else {
        loginRecord := loginRecord[username := LoginRecord(now, 1)];
      }
    }

    /** The first loop of `loginRecordClear()`: the names of the stale records. */
    method StaleUsers(now: int) returns (dels: seq<string>)
      ensures forall u :: u in dels <==> u in StaleNames(loginRecord, now)
    {
      var diff := now - LoginRecordTimeOut;
      dels := [];
      var pending := loginRecord.Keys;
      while pending != {}
        invariant pending <= loginRecord.Keys
        invariant forall u :: u in dels <==> u in loginRecord && u !in pending && Stale(loginRecord[u], now)
        decreases |pending|
      {
        var username :| username in pending;
        var r := loginRecord[username];
        if r.count > MaxAttempts && diff > r.lastTime {
          dels := dels + [username];
        }
        pending := pending - {username};
      }
    }

    /** `loginRecordClear()`: collect the stale names, then delete them. */
    method LoginRecordClear(now: int)
      modifies this
      ensures loginRecord == Cleared(old(loginRecord), now)
      ensures sessions == old(sessions) && users == old(users)
    {
      var dels := StaleUsers(now);
      ghost var records := loginRecord;
      ghost var removed: set<string> := {};
      for i := 0 to |dels|
        invariant loginRecord == records - removed
        invariant forall u :: u in removed <==> u in dels[..i]
        invariant sessions == old(sessions) && users == old(users)
      {
        assert dels[..i + 1] == dels[..i] + [dels[i]];
        loginRecord := loginRecord - {dels[i]};
        removed := removed + {dels[i]};
      }
      assert dels[..|dels|] == dels;
      assert removed == StaleNames(records, now);
    }

    /** `login` for a POST; the redirect and the cookies are left to the caller. */
    method Login(username: string, password: string, verify: (string, string) -> bool, sessionId: string, now: int)
      returns (outcome: LoginOutcome)
      modifies this
      ensures (State(), outcome) == LoginOf(old(State()), users, username, password, verify, sessionId, now)
      ensures users == old(users)
    {
      if username !in users {
        LoginErr(username, now);
        return NoSuchUser;
      }
      if username in loginRecord && loginRecord[username].count > MaxAttempts {
        return LockedOut;
      }
      if verify(users[username], password) {
        var session := UserSession(sessionId, username, now + SessionExpires);
        sessions := sessions[sessionId := session];
        return LoggedIn(session);
      }
      LoginErr(username, now);
      outcome := WrongPassword;
    }

    /** `Auth`: `cookie` is the value of the `session_id` cookie, if the request has
        one. */
    method Auth(cookie: Option<string>, path: string, now: int) returns (ok: bool, session: Option<UserSession>)
      modifies this
      ensures (sessions, session) == AuthOf(old(sessions), cookie, path, now)
      ensures ok <==> session.Some?
      ensures loginRecord == old(loginRecord) && users == old(users)
    {
      if cookie.None? {
        return false, None;
      }
      var sessionId := cookie.value;
      if sessionId in sessions {
        var s := sessions[sessionId];
        if s.expires < now {
          sessions := sessions - {sessionId};
          return false, None;
        }
        if HasPrefix(path, "/markdown/") {
          if HasPrefix(path, "/markdown/" + s.name + "/") {
            return true, Some(s);
          }
          return false, None;
        }
        return true, Some(s);
      }
      return false, None;
    }

    /** One round of `Job`: drop the expired sessions, then clear the login records. */
    method Job(now: int)
      modifies this
      ensures sessions == Swept(old(sessions), now)
      ensures loginRecord == Cleared(old(loginRecord), now)
      ensures users == old(users)
    {
      SweepSessions(now);
      LoginRecordClear(now);
    }

    /** The loop of `Job` over `session_map`. */
    method SweepSessions(now: int)
      modifies this
      ensures sessions == Swept(old(sessions), now)
      ensures loginRecord == old(loginRecord) && users == old(users)
    {
      ghost var before := sessions;
      ghost var gone: set<string> := {};
      var pending := sessions.Keys;
      while pending != {}
        invariant pending <= before.Keys
        invariant forall k :: k in gone <==> k in before && k !in pending && Expired(before[k], now)
        invariant sessions == before - gone
        invariant loginRecord == old(loginRecord) && users == old(users)
        decreases |pending|
      {
        var k :| k in pending;
        assert k in sessions;
        var us := sessions[k];
        if us.expires < now {
          sessions := sessions - {k};
          gone := gone + {k};
        }
        pending := pending - {k};
      }
      assert gone == ExpiredIds(before, now);
    }
  }
}
