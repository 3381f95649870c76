/** Refresh-token rotation across the token table and the session store
    (backend/internal/api/auth.go). Each handler runs as one step; a token stands for its own
    SHA-256 hash, and fresh tokens never repeat. */
module RefreshRotation {
  import opened Options
  import opened SessionStore

  type Token = string

  /** A row of refresh_tokens. */
  datatype Row = Row(adminID: nat, token: Token, expiresAt: int, revoked: bool)

  /** What the handlers read and write: the token table by primary key, the sessions, and which
      administrators exist and are active. */
  datatype Store = Store(rows: map<nat, Row>, nextID: nat, sessions: SessionMap, active: map<nat, bool>)

  datatype Lifetimes = Lifetimes(access: int, refresh: int)

  /** Clock readings of one handler: when it gets the session, when it checks the access token's expiry,
      for the lookup, when the new row is built, and when the session is written. */
  datatype Readings = Readings(start: int, checked: int, looked: int, stored: int, finished: int)

  predicate Ordered(at: Readings) { at.start <= at.checked <= at.looked <= at.stored <= at.finished }

  /** What a session keeps about its administrator and its client. */
  datatype Profile = Profile(
    username: string, isSuperAdmin: bool, mustChangePassword: bool, userAgent: string, ipAddress: string)

  /** Where a handler may give up half-way. */
  datatype Fault =
    | NoFault | LookupFails | AccessTokenFails | RevokeFails | RefreshTokenFails | StoreFails | SessionFails

  datatype Reply = Issued(token: Token) | SessionOK | Unauthorized | ServerError

  // ---- Table statements ----

  predicate Matches(r: Row, active: map<nat, bool>, token: Token, now: int) {
    && r.token == token && !r.revoked && r.expiresAt > now
    && r.adminID in active && active[r.adminID]
  }

  /** The row First finds: the matching one with the least primary key. */
  predicate IsFirst(st: Store, token: Token, now: int, id: nat) {
    && id in st.rows && Matches(st.rows[id], st.active, token, now)
    && forall k :: k in st.rows && Matches(st.rows[k], st.active, token, now) ==> id <= k
  }

  ghost function Find(st: Store, token: Token, now: int): Option<nat> {
    if exists id :: IsFirst(st, token, now, id)
    then var id :| IsFirst(st, token, now, id); Some(id)
    else None
  }

  lemma FindFinds(st: Store, token: Token, now: int)
    ensures Find(st, token, now).None? <==> forall id :: id in st.rows ==> !Matches(st.rows[id], st.active, token, now)
    ensures forall id: nat :: IsFirst(st, token, now, id) ==> Find(st, token, now) == Some(id)
  {
    var hits := set id | id in st.rows && Matches(st.rows[id], st.active, token, now);
    forall id | id in st.rows && Matches(st.rows[id], st.active, token, now) ensures id in hits {}
    if hits != {} {
      var id := Least(hits);
      assert IsFirst(st, token, now, id);
    }
  }

  lemma {:induction false} Least(s: set<nat>) returns (x: nat)
    requires s != {}
    ensures x in s && forall y :: y in s ==> x <= y
  {
    x :| x in s;
    if s != {x} {
      var y := Least(s - {x});
      assert forall z :: z in s ==> z == x || z in s - {x};
      x := if x <= y then x else y;
    }
  }

  function RevokedID(rows: map<nat, Row>, id: nat): map<nat, Row> {
    map k | k in rows :: if k == id then rows[k].(revoked := true) else rows[k]
  }

  function RevokedToken(rows: map<nat, Row>, token: Token): map<nat, Row> {
    map k | k in rows :: if rows[k].token == token then rows[k].(revoked := true) else rows[k]
  }

  function Inserted(st: Store, adminID: nat, token: Token, expiresAt: int): Store {
    st.(rows := st.rows[st.nextID := Row(adminID, token, expiresAt, false)], nextID := st.nextID + 1)
  }

  /** Retention: expired rows go, and revoked ones too on the nightly job. */
  function Purged(rows: map<nat, Row>, revokedToo: bool, now: int): map<nat, Row> {
    map k | k in rows && rows[k].expiresAt >= now && !(revokedToo && rows[k].revoked) :: rows[k]
  }

  /** The token has an unrevoked, unexpired row of an active administrator. */
  ghost predicate Usable(st: Store, t: Token, now: int) {
    exists id :: id in st.rows && RowUsable(st, id, t, now)
  }

  ghost predicate RowUsable(st: Store, id: nat, t: Token, now: int)
    requires id in st.rows
  {
    var r := st.rows[id];
    r.token == t && !r.revoked && now < r.expiresAt && r.adminID in st.active && st.active[r.adminID]
  }

  /** The lookup finds a row exactly for usable tokens, and then a usable row of least key. */
  lemma FindExactly(st: Store, t: Token, now: int)
    ensures Find(st, t, now).Some? <==> Usable(st, t, now)
    ensures Find(st, t, now).Some? ==>
              var id := Find(st, t, now).value;
              && id in st.rows && RowUsable(st, id, t, now)
              && forall k :: k in st.rows && RowUsable(st, k, t, now) ==> id <= k
  {
    FindFinds(st, t, now);
    if id :| id in st.rows && RowUsable(st, id, t, now) {
      assert Matches(st.rows[id], st.active, t, now);
    }
  }

  // ---- Handlers as functions of the store ----

  /** The tail of Login once the credentials are accepted. */
  function LoginStep(st: Store, ttl: Lifetimes, adminID: nat, next: Token, at: Readings, fault: Fault): (Store, Reply) {
    if fault in {AccessTokenFails, RefreshTokenFails, StoreFails} then (st, ServerError)
    else (Inserted(st, adminID, next, at.stored + ttl.refresh), Issued(next))
  }

  ghost function RefreshStep(st: Store, ttl: Lifetimes, presented: Token, next: Token, at: Readings, fault: Fault)
    : (Store, Reply)
  {
    match Find(st, presented, at.looked)
    case None => (st, Unauthorized)
    case Some(id) =>
      if fault == LookupFails then (st, Unauthorized)
      else if id !in st.rows || fault == AccessTokenFails || fault == RevokeFails then (st, ServerError)
      else
        var st1 := st.(rows := RevokedID(st.rows, id));
        if fault == RefreshTokenFails || fault == StoreFails then (st1, ServerError)
        else (Inserted(st1, st.rows[id].adminID, next, at.stored + ttl.refresh), Issued(next))
  }

  /** The revocation may fail; then nothing has changed. */
  function LogoutStep(st: Store, presented: Token, fails: bool): Store {
    if fails then st else st.(rows := RevokedToken(st.rows, presented))
  }

  function NewSession(sid: string, adminID: nat, who: Profile, access: string, next: Token, ttl: Lifetimes, now: int)
    : Session
  {
    Session(sid, adminID, who.username, who.isSuperAdmin, who.mustChangePassword, access, next,
            now + ttl.access, now + ttl.refresh, now, now, who.userAgent, who.ipAddress)
  }

  function SessionLoginStep(st: Store, ttl: Lifetimes, adminID: nat, who: Profile, sid: string, access: string,
                            next: Token, at: Readings, fault: Fault): (Store, Reply)
  {
    if fault in {AccessTokenFails, RefreshTokenFails, StoreFails} then (st, ServerError)
    else
      var st1 := Inserted(st, adminID, next, at.stored + ttl.refresh);
      if fault == SessionFails then (st1, ServerError)
      else
        var session := NewSession(sid, adminID, who, access, next, ttl, at.finished);
        (st1.(sessions := st1.sessions[sid := session]), SessionOK)
  }

  function SessionLogoutStep(st: Store, sid: string): Store {
    if sid == "" then st else st.(sessions := st.sessions - {sid})
  }

  ghost function SessionRefreshStep(st: Store, ttl: Lifetimes, sid: string, access: string, next: Token,
                                    at: Readings, fault: Fault): (Store, Reply)
  {
    if sid == "" then (st, Unauthorized)
    else
      var (sessions, answer) := Apply(st.sessions, Get(sid), at.start);
      var st0 := st.(sessions := sessions);
      if !answer.Found? then (st0, Unauthorized)
      else if at.checked < answer.session.accessExpiry then (st0, SessionOK)
      else
        match Find(st0, answer.session.refreshToken, at.looked)
        case None => (st0.(sessions := sessions - {sid}), Unauthorized)
        case Some(id) =>
          if fault == LookupFails then (st0.(sessions := sessions - {sid}), Unauthorized)
          else if id in st0.rows then SessionRotation(st0, ttl, sid, access, next, id, at, fault)
          else (st0, ServerError)
  }

  function SessionRotation(st: Store, ttl: Lifetimes, sid: string, access: string, next: Token, id: nat,
                           at: Readings, fault: Fault): (Store, Reply)
    requires id in st.rows
  {
    if fault == AccessTokenFails || fault == RevokeFails then (st, ServerError)
    else
      var st1 := st.(rows := RevokedID(st.rows, id));
      if fault == RefreshTokenFails || fault == StoreFails then (st1, ServerError)
      else
        var st2 := Inserted(st1, st.rows[id].adminID, next, at.stored + ttl.refresh);
        var renewal := UpdateRefresh(sid, access, next, ttl.access, ttl.refresh);
        var (sessions, done) := Apply(st.sessions, renewal, at.finished);
        (st2.(sessions := sessions), if done == Flag(true) then SessionOK else ServerError)
  }

  // ---- The handlers, statement by statement ----

  class AuthHandler {
    var refreshTokens: map<nat, Row>
    var nextID: nat
    var active: map<nat, bool>
    const sessionManager: BFFSessionManager
    const ttl: Lifetimes

    constructor (sessionManager: BFFSessionManager, ttl: Lifetimes)
      ensures this.sessionManager == sessionManager && this.ttl == ttl
      ensures refreshTokens == map[] && nextID == 0 && active == map[]
    {
      this.refreshTokens, this.nextID, this.active := map[], 0, map[];
      this.sessionManager, this.ttl := sessionManager, ttl;
    }

    ghost function Contents(): Store
      reads this, sessionManager, sessionManager.sessions.Values
    {
      Store(refreshTokens, nextID, sessionManager.View(), active)
    }

    method FindRow(token: Token, now: int) returns (found: Option<nat>)
      ensures found == Find(Contents(), token, now)
      ensures found.Some? ==> found.value in refreshTokens
    {
      FindFinds(Contents(), token, now);
      var hits := set id | id in refreshTokens && Matches(refreshTokens[id], active, token, now);
      forall id | id in refreshTokens && Matches(refreshTokens[id], active, token, now) ensures id in hits {}
      if hits == {} {
        return None;
      }
      ghost var least := Least(hits);
      var id :| id in hits && forall k :: k in hits ==> id <= k;
      assert IsFirst(Contents(), token, now, id);
      return Some(id);
    }

    method CreateRow(adminID: nat, token: Token, expiresAt: int)
      modifies this`refreshTokens, this`nextID
      ensures refreshTokens == old(refreshTokens)[old(nextID) := Row(adminID, token, expiresAt, false)]
      ensures nextID == old(nextID) + 1
    {
      refreshTokens := refreshTokens[nextID := Row(adminID, token, expiresAt, false)];
      nextID := nextID + 1;
    }

    method Login(adminID: nat, next: Token, at: Readings, fault: Fault) returns (reply: Reply)
      modifies this`refreshTokens, this`nextID
      ensures (Contents(), reply) == LoginStep(old(Contents()), ttl, adminID, next, at, fault)
    {
      if fault == AccessTokenFails {
        return ServerError;
      }
      if fault == RefreshTokenFails {
        return ServerError;
      }
      if fault == StoreFails {
        return ServerError;
      }
      CreateRow(adminID, next, at.stored + ttl.refresh);
      return Issued(next);
    }

    method Refresh(presented: Token, next: Token, at: Readings, fault: Fault) returns (reply: Reply)
      modifies this`refreshTokens, this`nextID
      ensures (Contents(), reply) == RefreshStep(old(Contents()), ttl, presented, next, at, fault)
    {
      var found := FindRow(presented, at.looked);
      if found.None? || fault == LookupFails {
        return Unauthorized;
      }
      var id := found.value;
      if fault == AccessTokenFails {
        return ServerError;
      }
      if fault == RevokeFails {
        return ServerError;
      }
      var adminID := refreshTokens[id].adminID;
      refreshTokens := RevokedID(refreshTokens, id);
      if fault == RefreshTokenFails {
        return ServerError;
      }
      if fault == StoreFails {
        return ServerError;
      }
      CreateRow(adminID, next, at.stored + ttl.refresh);
      return Issued(next);
    }

    method Logout(presented: Token, fails: bool)
      modifies this`refreshTokens
      ensures Contents() == LogoutStep(old(Contents()), presented, fails)
    {
      if fails {
        return;
      }
      refreshTokens := RevokedToken(refreshTokens, presented);
    }

    method SessionLogin(adminID: nat, who: Profile, sid: string, access: string, next: Token,
                        at: Readings, fault: Fault)
      returns (reply: Reply)
      requires sessionManager.Valid()
      modifies this`refreshTokens, this`nextID, sessionManager
      ensures sessionManager.Valid()
      ensures (Contents(), reply) == SessionLoginStep(old(Contents()), ttl, adminID, who, sid, access, next, at, fault)
    {
      if fault == AccessTokenFails || fault == RefreshTokenFails || fault == StoreFails {
        return ServerError;
      }
      CreateRow(adminID, next, at.stored + ttl.refresh);
      var id := sessionManager.CreateSession(
        if fault == SessionFails then None else Some(sid), adminID, who.username, who.isSuperAdmin,
        who.mustChangePassword, access, next, ttl.access, ttl.refresh, who.userAgent, who.ipAddress, at.finished);
      if id.None? {
        return ServerError;
      }
      return SessionOK;
    }

    method SessionLogout(sid: string)
      requires sessionManager.Valid()
      modifies sessionManager
      ensures sessionManager.Valid()
      ensures Contents() == SessionLogoutStep(old(Contents()), sid)
    {
      if sid != "" {
        sessionManager.DeleteSession(sid);
      }
    }

    method SessionRefresh(sid: string, access: string, next: Token, at: Readings, fault: Fault)
      returns (reply: Reply)
      requires sessionManager.Valid()
      modifies this`refreshTokens, this`nextID, sessionManager, sessionManager.sessions.Values
      ensures sessionManager.Valid()
      ensures (Contents(), reply) == SessionRefreshStep(old(Contents()), ttl, sid, access, next, at, fault)
    {
      if sid == "" {
        return Unauthorized;
      }
      var session := sessionManager.GetSession(sid, at.start);
      if session == null {
        return Unauthorized;
      }
      if at.checked < session.data.accessExpiry {
        return SessionOK;
      }
      var found := FindRow(session.data.refreshToken, at.looked);
      if found.None? || fault == LookupFails {
        sessionManager.DeleteSession(sid);
        return Unauthorized;
      }
      reply := RotateSession(sid, access, next, found.value, at, fault);
    }

    /** The part of SessionRefresh after the row is found. */
    method RotateSession(sid: string, access: string, next: Token, id: nat, at: Readings, fault: Fault)
      returns (reply: Reply)
      requires sessionManager.Valid() && id in refreshTokens
      modifies this`refreshTokens, this`nextID, sessionManager, sessionManager.sessions.Values
      ensures sessionManager.Valid()
      ensures (Contents(), reply) == SessionRotation(old(Contents()), ttl, sid, access, next, id, at, fault)
    {
      if fault == AccessTokenFails {
        return ServerError;
      }
      if fault == RevokeFails {
        return ServerError;
      }
      var adminID := refreshTokens[id].adminID;
      refreshTokens := RevokedID(refreshTokens, id);
      if fault == RefreshTokenFails || fault == StoreFails {
        return ServerError;
      }
      CreateRow(adminID, next, at.stored + ttl.refresh);
      var ok := sessionManager.UpdateRefreshToken(sid, access, next, ttl.access, ttl.refresh, at.finished);
      if !ok {
        return ServerError;
      }
      return SessionOK;
    }
  }
}
