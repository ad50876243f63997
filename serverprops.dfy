/** What the login table, the session table and `Auth` promise, proved of the
    functions that the methods of `Server.WebMark` are specified by. */
module ServerProps {
  import opened Text
  import opened Wrappers
  import opened Server

  // ---------------------------------------------------------------------------
  // loginErr

  /** A failed attempt stamps the user's record with `now` and counts one more
      attempt, starting from one; every other record stays as it was. */
  lemma FailedEffect(records: map<string, LoginRecord>, username: string, now: int)
    ensures var r := Failed(records, username, now);
      r.Keys == records.Keys + {username} &&
      r[username] == LoginRecord(now, if username in records then records[username].count + 1 else 1) &&
      forall u :: u in records && u != username ==> r[u] == records[u]
  {
  }

  // ---------------------------------------------------------------------------
  // loginRecordClear

  /** The cleanup removes exactly the locked records whose last attempt is more than a
      day old, and leaves every other record as it was. */
  lemma ClearedEffect(records: map<string, LoginRecord>, now: int)
    ensures var r := Cleared(records, now);
      (forall u :: u in r <==> u in records && !(records[u].count > 3 && records[u].lastTime < now - 86400)) &&
      forall u :: u in r ==> r[u] == records[u]
  {
  }

  /** After a cleanup at `now`, every user still locked out failed within the last
      day. */
  lemma ClearedRecent(records: map<string, LoginRecord>, now: int, u: string)
    requires Locked(Cleared(records, now), u)
    ensures Cleared(records, now)[u].lastTime >= now - LoginRecordTimeOut
  {
  }

  /** A second cleanup at the same time removes nothing more. */
  lemma ClearedIdempotent(records: map<string, LoginRecord>, now: int)
    ensures Cleared(Cleared(records, now), now) == Cleared(records, now)
  {
    var r := Cleared(records, now);
    assert StaleNames(r, now) == {};
    assert r - {} == r;
  }

  /** A lockout is lifted by the first cleanup more than a day after the last failed
      attempt, and not before. */
  lemma LockoutLifted(records: map<string, LoginRecord>, now: int, u: string)
    requires Locked(records, u)
    ensures !Locked(Cleared(records, now), u) <==> records[u].lastTime < now - LoginRecordTimeOut
  {
  }

  // ---------------------------------------------------------------------------
  // login

  /** A known user who is locked out is turned away before the password is looked
      at: whatever the password and the hash comparison, nothing changes. */
  lemma LockoutBeforeVerify(t: Tables, users: map<string, string>, username: string, password: string,
                            verify: (string, string) -> bool, sessionId: string, now: int)
    requires username in users && Locked(t.loginRecord, username)
    ensures LoginOf(t, users, username, password, verify, sessionId, now) == (t, LockedOut)
  {
  }

  /** Every outcome of `login`: an unknown user and a wrong password are counted as a
      failed attempt, a locked-out user changes nothing, and a good password opens a
      thirty-day session under the fresh id without touching the failed-login table. */
  lemma LoginOutcomes(t: Tables, users: map<string, string>, username: string, password: string,
                      verify: (string, string) -> bool, sessionId: string, now: int)
    ensures var (t', outcome) := LoginOf(t, users, username, password, verify, sessionId, now);
      (outcome == NoSuchUser <==> username !in users) &&
      (outcome == LockedOut <==> username in users && Locked(t.loginRecord, username)) &&
      (outcome.LoggedIn? <==>
        username in users && !Locked(t.loginRecord, username) && verify(users[username], password)) &&
      (outcome.NoSuchUser? || outcome.WrongPassword? ==>
        t' == t.(loginRecord := Failed(t.loginRecord, username, now))) &&
      (outcome.LoggedIn? ==>
        outcome.session == UserSession(sessionId, username, now + SessionExpires) &&
        t' == Tables(t.loginRecord, t.sessions[sessionId := outcome.session]))
  {
  }

  /** Four wrong passwords in a row for a known user with no failed attempts on
      record lock the user out: the fifth attempt is refused even with the right
      password. */
  lemma FourFailuresLock(t: Tables, users: map<string, string>, username: string, wrong: string, right: string,
                         verify: (string, string) -> bool, ids: seq<string>, times: seq<int>)
    requires username in users && username !in t.loginRecord
    requires !verify(users[username], wrong)
    requires |ids| == 5 && |times| == 5
    ensures var t1 := LoginOf(t, users, username, wrong, verify, ids[0], times[0]).0;
      var t2 := LoginOf(t1, users, username, wrong, verify, ids[1], times[1]).0;
      var t3 := LoginOf(t2, users, username, wrong, verify, ids[2], times[2]).0;
      var t4 := LoginOf(t3, users, username, wrong, verify, ids[3], times[3]).0;
      t4.loginRecord[username] == LoginRecord(times[3], 4) &&
      LoginOf(t4, users, username, right, verify, ids[4], times[4]) == (t4, LockedOut)
  {
    var t1 := LoginOf(t, users, username, wrong, verify, ids[0], times[0]).0;
    assert t1.loginRecord[username] == LoginRecord(times[0], 1);
    var t2 := LoginOf(t1, users, username, wrong, verify, ids[1], times[1]).0;
    assert t2.loginRecord[username] == LoginRecord(times[1], 2);
    var t3 := LoginOf(t2, users, username, wrong, verify, ids[2], times[2]).0;
    assert t3.loginRecord[username] == LoginRecord(times[2], 3);
    var t4 := LoginOf(t3, users, username, wrong, verify, ids[3], times[3]).0;
    assert t4.loginRecord[username] == LoginRecord(times[3], 4);
    LockoutBeforeVerify(t4, users, username, right, verify, ids[4], times[4]);
  }

  // ---------------------------------------------------------------------------
  // Auth

  /** `Auth` lets a request through exactly when it carries the id of a session in the
      table that has not expired and may reach the path, and answers with that
      session; the only change it makes is to drop the session of an expired id. */
  lemma AuthGrants(sessions: map<string, UserSession>, cookie: Option<string>, path: string, now: int)
    ensures var (sessions', answer) := AuthOf(sessions, cookie, path, now);
      (answer.Some? <==>
        cookie.Some? && cookie.value in sessions && !Expired(sessions[cookie.value], now) &&
        MayAccess(sessions[cookie.value], path)) &&
      (answer.Some? ==> answer.value == sessions[cookie.value]) &&
      (sessions' == if cookie.Some? && cookie.value in sessions && Expired(sessions[cookie.value], now)
                    then sessions - {cookie.value} else sessions)
  {
  }

  /** An expired session is gone after `Auth` sees it, and the same request is
      refused again afterwards. */
  lemma AuthExpiredGone(sessions: map<string, UserSession>, id: string, path: string, now: int)
    requires id in sessions && Expired(sessions[id], now)
    ensures var (sessions', answer) := AuthOf(sessions, Some(id), path, now);
      answer == None && id !in sessions' && AuthOf(sessions', Some(id), path, now) == (sessions', None)
  {
  }

  /** Paths outside `/markdown/` are open to every live session. */
  lemma OutsideMarkdown(s: UserSession, path: string)
    requires !HasPrefix(path, "/markdown/")
    ensures MayAccess(s, path)
  {
  }

  /** A session reaches everything under its own user's markdown directory. */
  lemma OwnMarkdown(s: UserSession, rest: string)
    ensures MayAccess(s, "/markdown/" + s.name + "/" + rest)
  {
    var q := "/markdown/" + s.name + "/";
    var p := q + rest;
    assert "/markdown/" + s.name + "/" + rest == p;
    assert p[..10] == "/markdown/";
    assert p[..|q|] == q;
  }

  /** Two user names without `/` that differ: the prefix of one is not a prefix of a
      path under the other. */
  lemma DirectoriesDiffer(name: string, other: string, rest: string)
    requires '/' !in name && '/' !in other && name != other
    ensures !HasPrefix("/markdown/" + other + "/" + rest, "/markdown/" + name + "/")
  {
    var q := "/markdown/" + name + "/";
    var p := "/markdown/" + other + "/" + rest;
    var k := FirstDifference(name, other);
    assert q[10 + k] == (name + "/")[k];
    assert p[10 + k] == (other + "/")[k];
  }

  /** The first position where two different names without `/`, each followed by
      `/`, differ. */
  lemma FirstDifference(a: string, b: string) returns (k: nat)
    requires '/' !in a && '/' !in b && a != b
    ensures k <= |a| && k <= |b| && (a + "/")[k] != (b + "/")[k]
  {
    k := 0;
    while k < |a| && k < |b| && a[k] == b[k]
      invariant k <= |a| && k <= |b|
      invariant a[..k] == b[..k]
    {
      assert a[..k + 1] == a[..k] + [a[k]];
      assert b[..k + 1] == b[..k] + [b[k]];
      k := k + 1;
    }
    assert a[..|a|] == a && b[..|b|] == b;
  }

  /** Under `/markdown/`, a session is refused another user's directory. */
  lemma OthersMarkdown(s: UserSession, other: string, rest: string)
    requires '/' !in s.name && '/' !in other && other != s.name
    ensures !MayAccess(s, "/markdown/" + other + "/" + rest)
  {
    DirectoriesDiffer(s.name, other, rest);
  }

  // ---------------------------------------------------------------------------
  // The sweep of Job

  /** The sweep keeps exactly the sessions that have not expired, each as it was. */
  lemma SweptEffect(sessions: map<string, UserSession>, now: int)
    ensures var r := Swept(sessions, now);
      (forall k :: k in r <==> k in sessions && sessions[k].expires >= now) &&
      forall k :: k in r ==> r[k] == sessions[k]
  {
  }

  /** The sweep and `Auth` agree on expiry: a session the sweep keeps at `now` is not
      turned away by `Auth` for being expired, and one it drops `Auth` refuses. */
  lemma SweepAgreesWithAuth(sessions: map<string, UserSession>, id: string, path: string, now: int)
    requires id in sessions
    ensures id in Swept(sessions, now) <==> !Expired(sessions[id], now)
    ensures id !in Swept(sessions, now) ==> AuthOf(sessions, Some(id), path, now).1 == None
  {
  }

  /** A session opened by `login` at `now` outlives every sweep until thirty days
      later, and the first sweep after that removes it. */
  lemma SessionLifetime(t: Tables, users: map<string, string>, username: string, password: string,
                        verify: (string, string) -> bool, sessionId: string, now: int, later: int)
    requires LoginOf(t, users, username, password, verify, sessionId, now).1.LoggedIn?
    ensures var sessions := LoginOf(t, users, username, password, verify, sessionId, now).0.sessions;
      sessionId in sessions &&
      (sessionId in Swept(sessions, later) <==> later <= now + SessionExpires)
  {
  }
}
