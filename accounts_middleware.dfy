/** Single-device login: each authenticated request revokes the user's other sessions and
    records the current one (elearning/accounts/middleware.py). */
module AccountsMiddleware {
  import opened Wrappers
  import opened Tables
  import opened AccountsModels
  import opened Store

  /** The width of `UserSession.device_info`. */
  const MaxDeviceInfo: nat := 255

  /** `s[:n]`: the first `n` characters, or all of `s` when it is shorter. */
  function Truncate(s: string, n: nat): (r: string)
    ensures r <= s
    ensures |r| == if |s| <= n then |s| else n
  {
    if |s| <= n then s else s[..n]
  }

  /** `s.split(',')[0]`: the text before the first comma, untrimmed; all of `s` if it has none. */
  function BeforeFirstComma(s: string): (r: string)
    ensures r <= s
    ensures ',' !in r
    ensures r == s || s[|r|] == ','
  {
    if s == [] then []
    else if s[0] == ',' then []
    else [s[0]] + BeforeFirstComma(s[1..])
  }

  /** `get_client_ip`: the first entry of a non-empty `X-Forwarded-For` header, otherwise the
      peer address (which may itself be missing). */
  function ClientIp(forwardedFor: Option<string>, remoteAddr: Option<string>): (ip: Option<string>)
    ensures forwardedFor.Some? && forwardedFor.value != "" ==>
      ip.Some? && ip.value <= forwardedFor.value && ',' !in ip.value
      && (ip.value == forwardedFor.value || forwardedFor.value[|ip.value|] == ',')
    ensures !(forwardedFor.Some? && forwardedFor.value != "") ==> ip == remoteAddr
  {
    if forwardedFor.Some? && forwardedFor.value != "" then Some(BeforeFirstComma(forwardedFor.value))
    else remoteAddr
  }

  /** The first hop is taken as it stands: neither the rest of the list nor surrounding blanks
      are removed from it. */
  lemma ClientIpTakesFirstHopUntrimmed()
    ensures ClientIp(Some(" a, b"), Some("c")) == Some(" a")
    ensures ClientIp(Some(""), Some("c")) == Some("c")
  {
    var s := " a, b";
    assert s[1..][1..] == ", b";
    assert BeforeFirstComma(s[1..][1..]) == [];
    assert s[1..][0] == 'a' && s[1..][1..][0] == ',';
    assert BeforeFirstComma(s[1..]) == "a";
    assert BeforeFirstComma(s) == [' '] + "a" == " a";
    assert ClientIp(Some(s), Some("c")) == Some(BeforeFirstComma(s));
  }

  /** The keys of the user's active sessions other than the current one. */
  function RevokedKeys(sessions: map<string, UserSession>, user: Id, key: string): set<string>
  {
    set k | k in sessions && sessions[k].user == user && sessions[k].isActive && k != key
  }

  /** The session rows once every key of `RevokedKeys` has been switched off. */
  function Revoked(sessions: map<string, UserSession>, user: Id, key: string): (r: map<string, UserSession>)
    ensures r.Keys == sessions.Keys
    ensures forall k :: k in r && r[k].user == user && r[k].isActive ==> k == key
    ensures forall k :: k in sessions && (sessions[k].user != user || k == key) ==> r[k] == sessions[k]
    ensures forall k :: k in sessions ==> r[k] == sessions[k].(isActive := r[k].isActive)
  {
    map k | k in sessions :: if k in RevokedKeys(sessions, user, key) then sessions[k].(isActive := false) else sessions[k]
  }

  /** The current session's row after the upsert: refreshed and re-activated if it exists,
      otherwise a new active row. */
  function Upserted(sessions: map<string, UserSession>, user: Id, key: string, deviceInfo: string, ip: Option<string>): UserSession
  {
    if key in sessions then sessions[key].(deviceInfo := deviceInfo, ipAddress := ip, isActive := true)
    else NewUserSession(user, deviceInfo, ip)
  }

  /** The session rows after a request of `user` on session `key`. */
  function AfterRequest(sessions: map<string, UserSession>, user: Id, key: string, deviceInfo: string, ip: Option<string>): map<string, UserSession>
  {
    Revoked(sessions, user, key)[key := Upserted(sessions, user, key, deviceInfo, ip)]
  }

  /** After a request, the current session is the user's only active one, and it is recorded
      with the request's device and address. */
  lemma OnlyCurrentSessionActive(sessions: map<string, UserSession>, user: Id, key: string, deviceInfo: string, ip: Option<string>)
    requires key in sessions ==> sessions[key].user == user
    ensures var after := AfterRequest(sessions, user, key, deviceInfo, ip);
      && after.Keys == sessions.Keys + {key}
      && (forall k :: k in after && after[k].user == user && after[k].isActive ==> k == key)
      && after[key].user == user && after[key].isActive
      && after[key].deviceInfo == deviceInfo && after[key].ipAddress == ip
  {
  }

  /** Another user's sessions are left exactly as they were. */
  lemma OtherUsersUntouched(sessions: map<string, UserSession>, user: Id, key: string, deviceInfo: string, ip: Option<string>, k: string)
    requires k in sessions && sessions[k].user != user && k != key
    ensures AfterRequest(sessions, user, key, deviceInfo, ip)[k] == sessions[k]
  {
  }

  /** What the middleware did with a request. */
  datatype SessionOutcome =
    | Skipped              // anonymous, or no session key
    | Recorded             // other sessions revoked, current one upserted
    | KeyOwnedByOtherUser  // the unique session key belongs to another user: the insert fails

  /** The revocation loop: every other active session of the user is switched off, and its
      framework session row deleted, one at a time. */
  method RevokeOtherSessions(db: Database, user: Id, key: string)
    modifies db`accounts
    ensures db.accounts == old(db.accounts).(
      userSessions := Revoked(old(db.accounts.userSessions), user, key),
      sessionStore := old(db.accounts.sessionStore) - RevokedKeys(old(db.accounts.userSessions), user, key))
  {
    ghost var before, storeBefore := db.accounts.userSessions, db.accounts.sessionStore;
    var sessions := db.accounts.userSessions;
    var pending := set k | k in sessions && sessions[k].user == user && sessions[k].isActive && k != key;
    ghost var revoked := pending;
    while pending != {}
      invariant pending <= revoked == RevokedKeys(before, user, key)
      invariant db.accounts.users == old(db.accounts.users) && db.accounts.nextUserId == old(db.accounts.nextUserId)
      invariant db.accounts.userSessions.Keys == before.Keys
      invariant forall k :: k in before ==>
        db.accounts.userSessions[k] == if k in revoked - pending then before[k].(isActive := false) else before[k]
      invariant db.accounts.sessionStore == storeBefore - (revoked - pending)
      decreases pending
    {
      var k :| k in pending;
      sessions := db.accounts.userSessions;
      db.accounts := db.accounts.(sessionStore := db.accounts.sessionStore - {k},
                                  userSessions := sessions[k := sessions[k].(isActive := false)]);
      pending := pending - {k};
    }
    assert db.accounts.userSessions == Revoked(before, user, key);
  }

  /** `SingleDeviceLoginMiddleware.process_request`. `viewer` is the authenticated user, if any;
      `sessionKey` is `None` when the request has no (or an empty) session key. Only the session
      tables change. */
  method ProcessRequest(db: Database, viewer: Option<Id>, sessionKey: Option<string>, userAgent: string,
                        forwardedFor: Option<string>, remoteAddr: Option<string>) returns (outcome: SessionOutcome)
    requires db.Valid()
    modifies db`accounts
    ensures db.Valid()
    ensures db.accounts.users == old(db.accounts.users) && db.accounts.nextUserId == old(db.accounts.nextUserId)
    ensures viewer.None? || sessionKey.None? || sessionKey.value == "" ==>
      outcome == Skipped && db.accounts == old(db.accounts)
    ensures viewer.Some? && sessionKey.Some? && sessionKey.value != "" ==>
      var user, key, before := viewer.value, sessionKey.value, old(db.accounts.userSessions);
      && db.accounts.sessionStore == old(db.accounts.sessionStore) - RevokedKeys(before, user, key)
      && (outcome == KeyOwnedByOtherUser <==> key in before && before[key].user != user)
      && (outcome == KeyOwnedByOtherUser ==> db.accounts.userSessions == Revoked(before, user, key))
      && (outcome != KeyOwnedByOtherUser ==>
            outcome == Recorded
            && db.accounts.userSessions == AfterRequest(before, user, key,
                 Truncate(userAgent, MaxDeviceInfo), ClientIp(forwardedFor, remoteAddr)))
  {
    if viewer.None? || sessionKey.None? || sessionKey.value == "" {
      return Skipped;
    }
    var user, key := viewer.value, sessionKey.value;
    var deviceInfo := Truncate(userAgent, MaxDeviceInfo);
    var ip := ClientIp(forwardedFor, remoteAddr);

    RevokeOtherSessions(db, user, key);
    var sessions := db.accounts.userSessions;
    if key in sessions && sessions[key].user != user {
      return KeyOwnedByOtherUser;
    }
    if key in sessions {
      sessions := sessions[key := sessions[key].(deviceInfo := deviceInfo, ipAddress := ip, isActive := true)];
    } else {
      sessions := sessions[key := NewUserSession(user, deviceInfo, ip)];
    }
    db.accounts := db.accounts.(userSessions := sessions);
    outcome := Recorded;
  }
}
