/** What the token handlers answer, and what they leave in the two stores, field by field
    (backend/internal/api/auth.go). */
module HandlerAnswers {
  import opened Options
  import opened SessionStore
  import opened RefreshRotation

  /** Primary keys are handed out in order. */
  predicate KeysOK(st: Store) { forall id :: id in st.rows ==> id < st.nextID }

  /** One row, and no other, has been revoked. */
  predicate OneRevoked(rows: map<nat, Row>, rows': map<nat, Row>, id: nat) {
    && id in rows && rows'.Keys == rows.Keys
    && rows'[id] == Row(rows[id].adminID, rows[id].token, rows[id].expiresAt, true)
    && forall k :: k in rows && k != id ==> rows'[k] == rows[k]
  }

  /** A usable row of the token was revoked, and its administrator has a fresh unrevoked row instead. */
  ghost predicate Swapped(st: Store, st': Store, t: Token, next: Token, looked: int, expiresAt: int) {
    exists id ::
      && id in st.rows && RowUsable(st, id, t, looked)
      && st.nextID in st'.rows && st'.nextID == st.nextID + 1
      && st'.rows[st.nextID] == Row(st.rows[id].adminID, next, expiresAt, false)
      && OneRevoked(st.rows, st'.rows - {st.nextID}, id)
  }

  /** A usable row of the token was revoked, and nothing put in its place. */
  ghost predicate Consumed(st: Store, st': Store, t: Token, looked: int) {
    exists id ::
      id in st.rows && RowUsable(st, id, t, looked) && OneRevoked(st.rows, st'.rows, id) && st'.nextID == st.nextID
  }

  predicate SameTable(st: Store, st': Store) { st'.rows == st.rows && st'.nextID == st.nextID }

  /** The table after a rotation that ends with the given fault. */
  ghost predicate Rotated(st: Store, st': Store, t: Token, next: Token, ttl: Lifetimes, at: Readings, fault: Fault) {
    if fault == AccessTokenFails || fault == RevokeFails then SameTable(st, st')
    else if fault == RefreshTokenFails || fault == StoreFails then Consumed(st, st', t, at.looked)
    else Swapped(st, st', t, next, at.looked, at.stored + ttl.refresh)
  }

  lemma RowsRotated(st: Store, st': Store, id: nat, t: Token, next: Token, ttl: Lifetimes, at: Readings, fault: Fault)
    requires KeysOK(st) && id in st.rows && RowUsable(st, id, t, at.looked)
    requires fault !in {LookupFails, AccessTokenFails, RevokeFails}
    requires var revoked := st.(rows := RevokedID(st.rows, id));
             var stored := Inserted(revoked, st.rows[id].adminID, next, at.stored + ttl.refresh);
             if fault == RefreshTokenFails || fault == StoreFails
             then st'.rows == revoked.rows && st'.nextID == revoked.nextID
             else st'.rows == stored.rows && st'.nextID == stored.nextID
    ensures Rotated(st, st', t, next, ttl, at, fault)
  {
    if fault == RefreshTokenFails || fault == StoreFails {
      assert OneRevoked(st.rows, st'.rows, id);
    } else {
      assert OneRevoked(st.rows, st'.rows - {st.nextID}, id);
    }
  }

  /** Login hands out its token exactly when nothing fails, with one new row for its administrator. */
  lemma LoginAnswers(st: Store, ttl: Lifetimes, adminID: nat, next: Token, at: Readings, fault: Fault)
    requires KeysOK(st)
    ensures var (st', reply) := LoginStep(st, ttl, adminID, next, at, fault);
            if fault in {AccessTokenFails, RefreshTokenFails, StoreFails} then reply == ServerError && st' == st
            else
              && reply == Issued(next)
              && st'.rows == st.rows[st.nextID := Row(adminID, next, at.stored + ttl.refresh, false)]
              && st'.nextID == st.nextID + 1 && st'.sessions == st.sessions && st'.active == st.active
  {
  }

  /** Refresh answers 401 exactly when the token is not usable or the lookup fails, and a fresh token
      exactly when nothing fails; the sessions are not concerned. */
  lemma RefreshAnswers(st: Store, ttl: Lifetimes, presented: Token, next: Token, at: Readings, fault: Fault)
    requires KeysOK(st)
    ensures var (st', reply) := RefreshStep(st, ttl, presented, next, at, fault);
            && st'.sessions == st.sessions && st'.active == st.active
            && (if !Usable(st, presented, at.looked) || fault == LookupFails
                then reply == Unauthorized && SameTable(st, st')
                else
                  && reply == (if fault in {NoFault, SessionFails} then Issued(next) else ServerError)
                  && Rotated(st, st', presented, next, ttl, at, fault))
  {
    FindExactly(st, presented, at.looked);
    var (st', reply) := RefreshStep(st, ttl, presented, next, at, fault);
    if Find(st, presented, at.looked).Some? && fault !in {LookupFails, AccessTokenFails, RevokeFails} {
      RowsRotated(st, st', Find(st, presented, at.looked).value, presented, next, ttl, at, fault);
    }
  }

  /** SessionLogin stores the row first; the session holds what belongs to its administrator, its client
      and its tokens. */
  lemma SessionLoginAnswers(st: Store, ttl: Lifetimes, adminID: nat, who: Profile, sid: string, access: string,
                            next: Token, at: Readings, fault: Fault)
    ensures var (st', reply) := SessionLoginStep(st, ttl, adminID, who, sid, access, next, at, fault);
            if fault in {AccessTokenFails, RefreshTokenFails, StoreFails} then reply == ServerError && st' == st
            else
              && st'.rows == st.rows[st.nextID := Row(adminID, next, at.stored + ttl.refresh, false)]
              && st'.nextID == st.nextID + 1 && st'.active == st.active
              && reply == (if fault == SessionFails then ServerError else SessionOK)
              && st'.sessions == if fault == SessionFails then st.sessions else st.sessions[sid :=
                   Session(sid, adminID, who.username, who.isSuperAdmin, who.mustChangePassword, access, next,
                           at.finished + ttl.access, at.finished + ttl.refresh, at.finished, at.finished,
                           who.userAgent, who.ipAddress)]
  {
  }

  /** SessionLogout ends exactly the session of the cookie. */
  lemma SessionLogoutAnswers(st: Store, sid: string)
    ensures var st' := SessionLogoutStep(st, sid);
            && SameTable(st, st') && st'.active == st.active
            && forall k :: k in st'.sessions <==> k in st.sessions && (sid == "" || k != sid)
    ensures forall k :: k in SessionLogoutStep(st, sid).sessions ==>
                          SessionLogoutStep(st, sid).sessions[k] == st.sessions[k]
  {
  }

  // ---- SessionRefresh ----

  predicate Live(st: Store, sid: string, now: int) {
    sid != "" && sid in st.sessions && now <= st.sessions[sid].refreshExpiry
  }

  /** The session as SessionRefresh has touched it. */
  function TouchedSession(st: Store, sid: string, at: Readings): Session
    requires sid in st.sessions
  {
    st.sessions[sid].(lastAccessedAt := at.start)
  }

  /** No cookie, no such session, or one past its expiry: 401, and an expired session goes. */
  lemma NoSessionAnswers(st: Store, ttl: Lifetimes, sid: string, access: string, next: Token, at: Readings,
                         fault: Fault)
    requires !Live(st, sid, at.start)
    ensures var (st', reply) := SessionRefreshStep(st, ttl, sid, access, next, at, fault);
            && reply == Unauthorized && SameTable(st, st') && st'.active == st.active
            && st'.sessions == if sid == "" then st.sessions else st.sessions - {sid}
  {
  }

  /** An access token that is still good: 200, and nothing but the time of access changes. */
  lemma YoungSessionAnswers(st: Store, ttl: Lifetimes, sid: string, access: string, next: Token, at: Readings,
                            fault: Fault)
    requires Live(st, sid, at.start) && at.checked < st.sessions[sid].accessExpiry
    ensures var (st', reply) := SessionRefreshStep(st, ttl, sid, access, next, at, fault);
            && reply == SessionOK && SameTable(st, st') && st'.active == st.active
            && st'.sessions == st.sessions[sid := TouchedSession(st, sid, at)]
  {
  }

  /** Otherwise a refresh token that is not usable, or a lookup that fails, ends the session with 401,
      and exactly that session. */
  lemma RefusedSessionAnswers(st: Store, ttl: Lifetimes, sid: string, access: string, next: Token, at: Readings,
                              fault: Fault)
    requires Live(st, sid, at.start) && st.sessions[sid].accessExpiry <= at.checked
    requires !Usable(st, st.sessions[sid].refreshToken, at.looked) || fault == LookupFails
    ensures var (st', reply) := SessionRefreshStep(st, ttl, sid, access, next, at, fault);
            && reply == Unauthorized && SameTable(st, st') && st'.active == st.active
            && st'.sessions == st.sessions - {sid}
  {
    var st0 := st.(sessions := Apply(st.sessions, Get(sid), at.start).0);
    FindExactly(st0, st.sessions[sid].refreshToken, at.looked);
    SameRowsSameUse(st, st0, st.sessions[sid].refreshToken, at.looked);
    assert st0.sessions - {sid} == st.sessions - {sid};
  }

  lemma SameRowsSameUse(st: Store, st0: Store, t: Token, now: int)
    requires st0.rows == st.rows && st0.active == st.active
    ensures Usable(st0, t, now) <==> Usable(st, t, now)
  {
    forall id | id in st.rows ensures RowUsable(st0, id, t, now) <==> RowUsable(st, id, t, now) {}
  }

  lemma ReachesRotation(st: Store, ttl: Lifetimes, sid: string, access: string, next: Token, at: Readings, fault: Fault)
    returns (st0: Store, id: nat)
    requires Live(st, sid, at.start) && st.sessions[sid].accessExpiry <= at.checked
    requires Usable(st, st.sessions[sid].refreshToken, at.looked) && fault != LookupFails
    ensures st0 == st.(sessions := st.sessions[sid := TouchedSession(st, sid, at)])
    ensures id in st.rows && RowUsable(st, id, st.sessions[sid].refreshToken, at.looked)
    ensures SessionRefreshStep(st, ttl, sid, access, next, at, fault) ==
            SessionRotation(st0, ttl, sid, access, next, id, at, fault)
  {
    hide SessionRotation, Usable;
    var t := st.sessions[sid].refreshToken;
    st0 := st.(sessions := st.sessions[sid := TouchedSession(st, sid, at)]);
    FindExactly(st0, t, at.looked);
    SameRowsSameUse(st, st0, t, at.looked);
    id := Find(st0, t, at.looked).value;
  }

  /** A usable one is rotated: 200 exactly when nothing fails and the session has not run out by the time
      it is written, and then it holds the new tokens and expiries; if it has run out it goes. */
  lemma RotatedSessionAnswers(st: Store, ttl: Lifetimes, sid: string, access: string, next: Token, at: Readings,
                              fault: Fault)
    requires KeysOK(st) && Live(st, sid, at.start) && st.sessions[sid].accessExpiry <= at.checked
    requires Usable(st, st.sessions[sid].refreshToken, at.looked) && fault != LookupFails
    ensures var (st', reply) := SessionRefreshStep(st, ttl, sid, access, next, at, fault);
            var s := TouchedSession(st, sid, at);
            && Rotated(st, st', s.refreshToken, next, ttl, at, fault) && st'.active == st.active
            && (reply == SessionOK <==> fault in {NoFault, SessionFails} && at.finished <= s.refreshExpiry)
            && (reply != SessionOK ==> reply == ServerError)
            && st'.sessions ==
               if fault !in {NoFault, SessionFails} then st.sessions[sid := s]
               else if s.refreshExpiry < at.finished then st.sessions - {sid}
               else st.sessions[sid :=
                      s.(accessToken := access, refreshToken := next, accessExpiry := at.finished + ttl.access,
                         refreshExpiry := at.finished + ttl.refresh, lastAccessedAt := at.finished)]
  {
    hide SessionRefreshStep, Usable, RowUsable, Rotated;
    var st0, id := ReachesRotation(st, ttl, sid, access, next, at, fault);
    var (st', reply) := SessionRotation(st0, ttl, sid, access, next, id, at, fault);
    if fault == AccessTokenFails || fault == RevokeFails {
      NothingRotated(st, st', st.sessions[sid].refreshToken, next, ttl, at, fault);
    } else {
      RowsRotated(st, st', id, st.sessions[sid].refreshToken, next, ttl, at, fault);
    }
    assert st0.sessions - {sid} == st.sessions - {sid};
  }

  lemma NothingRotated(st: Store, st': Store, t: Token, next: Token, ttl: Lifetimes, at: Readings, fault: Fault)
    requires SameTable(st, st') && (fault == AccessTokenFails || fault == RevokeFails)
    ensures Rotated(st, st', t, next, ttl, at, fault)
  {
  }

  // ---- Retention ----

  /** A retention job takes away no token that could still be used, keeps every unexpired, unrevoked row,
      and leaves no expired row; the nightly one leaves no revoked row either. */
  lemma RetentionKeepsUse(st: Store, revokedToo: bool, now: int, t: Token, later: int)
    requires now <= later
    ensures var kept := st.(rows := Purged(st.rows, revokedToo, now));
            && (Usable(kept, t, later) <==> Usable(st, t, later))
            && (forall id :: id in kept.rows ==>
                  && id in st.rows && kept.rows[id] == st.rows[id]
                  && now <= kept.rows[id].expiresAt && !(revokedToo && kept.rows[id].revoked))
            && (forall id :: id in st.rows && now <= st.rows[id].expiresAt && !st.rows[id].revoked ==> id in kept.rows)
            && (!revokedToo ==> forall id :: id in st.rows && now <= st.rows[id].expiresAt ==> id in kept.rows)
  {
    var kept := st.(rows := Purged(st.rows, revokedToo, now));
    if id :| id in st.rows && RowUsable(st, id, t, later) {
      assert RowUsable(kept, id, t, later);
    }
    if id :| id in kept.rows && RowUsable(kept, id, t, later) {
      assert RowUsable(st, id, t, later);
    }
  }
}
