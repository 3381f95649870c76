/** Agreement between sessions and the token table (backend/internal/api/auth.go,
    backend/internal/auth/bff_session.go): a live session's refresh token has an unrevoked row. */
module CrossStore {
  import opened Options
  import opened SessionStore
  import opened RefreshRotation
  import opened RotationRuns

  /** Clients present only tokens they were given, or strings that are nobody's token. */
  predicate Honest(w: World, e: Event) {
    (e.DoRefresh? || e.DoLogout?) ==> e.presented in w.h.born ==> w.h.born[e.presented].holder.None?
  }

  /** The two failures that strike a SessionRefresh after it has revoked the old row. */
  predicate Breaks(fault: Fault) { fault == RefreshTokenFails || fault == StoreFails }

  predicate Clean(e: Event) { e.DoSessionRefresh? ==> !Breaks(e.fault) }

  ghost predicate RowLive(st: Store, t: Token, b: Birth) {
    b.id in st.rows && st.rows[b.id] == Row(b.adminID, t, b.expiresAt, false)
  }

  /** A session agrees with the table; after a retention job its row may be gone once it expired. */
  ghost predicate SessionAgrees(st: Store, h: History, sid: string, s: Session) {
    var t := s.refreshToken;
    && t in h.born && h.born[t].holder == Some(sid)
    && h.born[t].adminID == s.adminID && h.born[t].expiresAt <= s.refreshExpiry
    && (RowLive(st, t, h.born[t]) || (h.purged && h.born[t].expiresAt < h.clock))
  }

  ghost predicate Agreement(w: World) {
    forall sid :: sid in w.st.sessions ==> SessionAgrees(w.st, w.h, sid, w.st.sessions[sid])
  }

  /** Nothing about a token is ever rewritten except its row's revocation. */
  ghost predicate Remembers(h: History, h': History) {
    && (forall t :: t in h.born ==> t in h'.born && h'.born[t] == h.born[t])
    && h.clock <= h'.clock && (h.purged ==> h'.purged)
  }

  /** A session stays in agreement when its row stays, or goes for being expired. */
  lemma SessionKept(st: Store, h: History, st': Store, h': History, sid: string, s: Session, s': Session)
    requires SessionAgrees(st, h, sid, s) && Remembers(h, h')
    requires s'.refreshToken == s.refreshToken && s'.adminID == s.adminID && s'.refreshExpiry == s.refreshExpiry
    requires RowLive(st, s.refreshToken, h.born[s.refreshToken]) ==>
               RowLive(st', s.refreshToken, h.born[s.refreshToken])
               || (h'.purged && h.born[s.refreshToken].expiresAt < h'.clock)
    ensures SessionAgrees(st', h', sid, s')
  {
  }

  /** Changes that leave alone every row held by a session. */
  ghost predicate KeepsHeldRows(w: World, st': Store, h': History) {
    forall id :: (id in w.st.rows && !w.st.rows[id].revoked && w.st.rows[id].token in w.h.born
                  && w.h.born[w.st.rows[id].token].holder.Some?) ==>
                   (id in st'.rows && st'.rows[id] == w.st.rows[id])
                   || (h'.purged && w.st.rows[id].expiresAt < h'.clock)
  }

  lemma OthersKept(w: World, w': World)
    requires Agreement(w) && Remembers(w.h, w'.h) && KeepsHeldRows(w, w'.st, w'.h)
    requires forall sid :: sid in w'.st.sessions ==>
               sid in w.st.sessions && (var s, s' := w.st.sessions[sid], w'.st.sessions[sid];
                 s'.refreshToken == s.refreshToken && s'.adminID == s.adminID && s'.refreshExpiry == s.refreshExpiry)
    ensures Agreement(w')
  {
    forall sid | sid in w'.st.sessions ensures SessionAgrees(w'.st, w'.h, sid, w'.st.sessions[sid]) {
      SessionKept(w.st, w.h, w'.st, w'.h, sid, w.st.sessions[sid], w'.st.sessions[sid]);
    }
  }

  /** Inserting under a fresh key, and revoking rows of tokens no session holds, keep held rows. */
  lemma InsertKeepsHeld(w: World, adminID: nat, next: Token, expiresAt: int, h': History)
    requires Tables(w.st, w.h)
    ensures KeepsHeldRows(w, Inserted(w.st, adminID, next, expiresAt), h')
  {
    forall id | id in w.st.rows ensures id != w.st.nextID {
      assert RowOK(w.h, w.st.nextID, id, w.st.rows[id]);
    }
  }

  lemma LoginKeepsAgreement(w: World, ttl: Lifetimes, e: Event)
    requires Tables(w.st, w.h) && Agreement(w) && Enabled(w, e) && e.DoLogin?
    ensures Agreement(Next(w, ttl, e))
  {
    InsertKeepsHeld(w, e.adminID, e.next, e.at.stored + ttl.refresh, Next(w, ttl, e).h);
    OthersKept(w, Next(w, ttl, e));
  }

  lemma RefreshKeepsAgreement(w: World, ttl: Lifetimes, e: Event)
    requires Tables(w.st, w.h) && Agreement(w) && Enabled(w, e) && e.DoRefresh? && Honest(w, e)
    ensures Agreement(Next(w, ttl, e))
  {
    hide Tables, FamilyOf, Find, RowLive;
    var w' := Next(w, ttl, e);
    FindLive(w.st, e.presented, e.at.looked);
    InsertKeepsHeld(w, 0, e.next, 0, w'.h);
    OthersKept(w, w');
  }

  lemma LogoutKeepsAgreement(w: World, ttl: Lifetimes, e: Event)
    requires Tables(w.st, w.h) && Agreement(w) && Enabled(w, e) && e.DoLogout? && Honest(w, e)
    ensures Agreement(Next(w, ttl, e))
  {
    hide Tables, SessionAgrees;
    OthersKept(w, Next(w, ttl, e));
  }

  lemma SessionLoginKeepsAgreement(w: World, ttl: Lifetimes, e: Event)
    requires Tables(w.st, w.h) && Agreement(w) && Enabled(w, e) && e.DoSessionLogin?
    ensures Agreement(Next(w, ttl, e))
  {
    hide Tables, FamilyOf, Find;
    var w' := Next(w, ttl, e);
    InsertKeepsHeld(w, e.adminID, e.next, e.at.stored + ttl.refresh, w'.h);
    var others := World(w'.st.(sessions := w.st.sessions), w'.h);
    OthersKept(w, others);
    forall sid | sid in w'.st.sessions ensures SessionAgrees(w'.st, w'.h, sid, w'.st.sessions[sid]) {
      if sid in w.st.sessions && w'.st.sessions[sid] == w.st.sessions[sid] {
        assert SessionAgrees(others.st, others.h, sid, others.st.sessions[sid]);
      }
    }
  }

  lemma PlainStepsKeepAgreement(w: World, ttl: Lifetimes, e: Event)
    requires Tables(w.st, w.h) && Agreement(w) && Enabled(w, e)
    requires e.DoSessionLogout? || e.TouchSession? || e.SweepSessions? || e.SetActive?
    ensures Agreement(Next(w, ttl, e))
  {
    hide Tables, FamilyOf, Find, SessionAgrees, RowLive;
    OthersKept(w, Next(w, ttl, e));
  }

  lemma PurgeKeepsAgreement(w: World, ttl: Lifetimes, e: Event)
    requires Tables(w.st, w.h) && Agreement(w) && Enabled(w, e) && e.Purge?
    ensures Agreement(Next(w, ttl, e))
  {
    hide FamilyOf, Find;
    forall id | id in w.st.rows ensures RowOK(w.h, w.st.nextID, id, w.st.rows[id]) {}
    OthersKept(w, Next(w, ttl, e));
  }

  /** Revoking the row of one session's token leaves every other session in agreement. */
  lemma RotationKeepsOthers(w: World, sid: string, id: nat, other: string, st': Store, h': History)
    requires Tables(w.st, w.h) && Agreement(w) && Remembers(w.h, h')
    requires sid in w.st.sessions && other in w.st.sessions && other != sid
    requires id in w.st.rows && w.st.rows[id].token == w.st.sessions[sid].refreshToken
    requires forall k :: k in w.st.rows && k != id ==> k in st'.rows && st'.rows[k] == w.st.rows[k]
    ensures SessionAgrees(st', h', other, w.st.sessions[other])
  {
    var s := w.st.sessions[other];
    assert SessionAgrees(w.st, w.h, other, s) && SessionAgrees(w.st, w.h, sid, w.st.sessions[sid]);
    SessionKept(w.st, w.h, st', h', other, s, s);
  }

  lemma SessionRefreshKeepsAgreement(w: World, ttl: Lifetimes, e: Event)
    requires Tables(w.st, w.h) && Agreement(w) && Enabled(w, e) && e.DoSessionRefresh? && Clean(e)
    ensures Agreement(Next(w, ttl, e))
  {
    hide Next, Target, Tables;
    if StopsShort(w, e) {
      StopsShortOutcome(w, ttl, e);
      OthersKept(w, Next(w, ttl, e));
    } else {
      RotatedSession(w, ttl, e);
    }
  }

  /** The rotation itself: the session moves to the fresh token together with the new row. */
  lemma RotatedSession(w: World, ttl: Lifetimes, e: Event)
    requires Tables(w.st, w.h) && Agreement(w) && Enabled(w, e) && e.DoSessionRefresh? && Clean(e)
    requires !StopsShort(w, e)
    ensures Agreement(Next(w, ttl, e))
  {
    hide Next, Target;
    RotationOutcome(w, ttl, e);
    var w' := Next(w, ttl, e);
    var sid, id := e.sid, Target(w.st, e.sid, e.at).value;
    assert SessionAgrees(w.st, w.h, sid, w.st.sessions[sid]);
    assert RowOK(w.h, w.st.nextID, id, w.st.rows[id]);
    forall k | k in w.st.rows && k != id ensures k in w'.st.rows && w'.st.rows[k] == w.st.rows[k] {
      assert RowOK(w.h, w.st.nextID, k, w.st.rows[k]);
    }
    forall other | other in w'.st.sessions ensures SessionAgrees(w'.st, w'.h, other, w'.st.sessions[other]) {
      if other != sid {
        RotationKeepsOthers(w, sid, id, other, w'.st, w'.h);
      }
    }
  }

  lemma StepKeepsAgreement(w: World, ttl: Lifetimes, e: Event)
    requires Tables(w.st, w.h) && Agreement(w) && Enabled(w, e) && Honest(w, e) && Clean(e)
    ensures Agreement(Next(w, ttl, e))
  {
    match e
    case DoLogin(_, _, _, _) => LoginKeepsAgreement(w, ttl, e);
    case DoRefresh(_, _, _, _) => RefreshKeepsAgreement(w, ttl, e);
    case DoLogout(_, _) => LogoutKeepsAgreement(w, ttl, e);
    case DoSessionLogin(_, _, _, _, _, _, _) => SessionLoginKeepsAgreement(w, ttl, e);
    case DoSessionRefresh(_, _, _, _, _) => SessionRefreshKeepsAgreement(w, ttl, e);
    case DoSessionLogout(_) => PlainStepsKeepAgreement(w, ttl, e);
    case TouchSession(_, _) => PlainStepsKeepAgreement(w, ttl, e);
    case SweepSessions(_) => PlainStepsKeepAgreement(w, ttl, e);
    case SetActive(_, _) => PlainStepsKeepAgreement(w, ttl, e);
    case Purge(_, _) => PurgeKeepsAgreement(w, ttl, e);
  }

  // ---- Whole runs ----

  ghost predicate GoodRun(w: World, ttl: Lifetimes, es: seq<Event>)
    decreases es
  {
    es == [] || (Honest(w, es[0]) && Clean(es[0]) && GoodRun(Next(w, ttl, es[0]), ttl, es[1..]))
  }

  lemma {:induction false} RunKeepsAgreement(w: World, ttl: Lifetimes, es: seq<Event>)
    requires Tables(w.st, w.h) && Agreement(w) && Run(w, ttl, es) && GoodRun(w, ttl, es)
    ensures Agreement(Final(w, ttl, es))
    ensures (forall k :: 0 <= k < |es| ==> !es[k].Purge?) ==> Final(w, ttl, es).h.purged == w.h.purged
    decreases es
  {
    if es != [] {
      StepKeepsTables(w, ttl, es[0]);
      StepKeepsAgreement(w, ttl, es[0]);
      RunKeepsAgreement(Next(w, ttl, es[0]), ttl, es[1..]);
    }
  }

  /** The token table holds an unrevoked row for the session's refresh token, with its administrator. */
  ghost predicate Backed(st: Store, s: Session) {
    exists id :: id in st.rows && st.rows[id].token == s.refreshToken && !st.rows[id].revoked
                 && st.rows[id].adminID == s.adminID
  }

  /** Through any number of rotations every session is backed by an unrevoked row with the same
      administrator; only once a retention job has run may the row be missing, and then it had
      already expired. */
  lemma CrossStoreAgreement(clock: int, active: map<nat, bool>, ttl: Lifetimes, es: seq<Event>, sid: string)
    requires Run(Start(clock, active), ttl, es) && GoodRun(Start(clock, active), ttl, es)
    requires sid in Final(Start(clock, active), ttl, es).st.sessions
    ensures var w := Final(Start(clock, active), ttl, es);
            var s := w.st.sessions[sid];
            && s.refreshToken in w.h.born
            && (w.h.clock <= w.h.born[s.refreshToken].expiresAt ==> Backed(w.st, s))
            && ((forall k :: 0 <= k < |es| ==> !es[k].Purge?) ==> Backed(w.st, s))
  {
    RunKeepsAgreement(Start(clock, active), ttl, es);
    var w := Final(Start(clock, active), ttl, es);
    assert SessionAgrees(w.st, w.h, sid, w.st.sessions[sid]);
  }

  // ---- Exactly when a SessionRefresh spoils agreement ----

  /** A SessionRefresh that reaches the rotation, and ends before the old row would have expired,
      leaves the stores in agreement exactly when it does not fail between revoking the old row and
      storing the new one. */
  lemma RotationFailureBreaksExactly(w: World, ttl: Lifetimes, e: Event)
    requires Tables(w.st, w.h) && Agreement(w) && Enabled(w, e) && e.DoSessionRefresh?
    requires Target(w.st, e.sid, e.at).Some?
    requires e.at.finished <= w.st.rows[Target(w.st, e.sid, e.at).value].expiresAt
    ensures Agreement(Next(w, ttl, e)) <==> !Breaks(e.fault)
  {
    hide Next, Target;
    if Breaks(e.fault) {
      RotationOutcome(w, ttl, e);
      var w' := Next(w, ttl, e);
      var sid, id := e.sid, Target(w.st, e.sid, e.at).value;
      assert RowOK(w.h, w.st.nextID, id, w.st.rows[id]);
      assert w'.st.rows[id].revoked;
      assert !SessionAgrees(w'.st, w'.h, sid, w'.st.sessions[sid]);
    } else {
      SessionRefreshKeepsAgreement(w, ttl, e);
    }
  }

  // ---- Exactly when a retention job leaves a session without its row ----

  /** A retention job takes away the row of a session exactly when the row has expired by then; the
      session itself may still be live. */
  lemma PurgeBreaksExactly(w: World, ttl: Lifetimes, revokedToo: bool, now: int, sid: string)
    requires Tables(w.st, w.h) && Agreement(w) && w.h.clock <= now && sid in w.st.sessions
    ensures !w.h.purged ==> Backed(w.st, w.st.sessions[sid])
    ensures var s := w.st.sessions[sid];
            Backed(Next(w, ttl, Purge(revokedToo, now)).st, s) <==>
            Backed(w.st, s) && now <= w.h.born[s.refreshToken].expiresAt
  {
    var s, st' := w.st.sessions[sid], Next(w, ttl, Purge(revokedToo, now)).st;
    var b := w.h.born[s.refreshToken];
    assert SessionAgrees(w.st, w.h, sid, s);
    forall id | id in w.st.rows && w.st.rows[id].token == s.refreshToken
      ensures id == b.id && w.st.rows[id].expiresAt == b.expiresAt
    {
      assert RowOK(w.h, w.st.nextID, id, w.st.rows[id]);
    }
    if Backed(w.st, s) && now <= b.expiresAt {
      assert b.id in st'.rows;
    }
  }

  // ---- Handlers that stamp row and session at one time ----

  /** At most `lag` passes between storing the row and writing the session. */
  predicate Lags(e: Event, lag: int) {
    (e.DoSessionLogin? || e.DoSessionRefresh?) ==> e.at.finished - e.at.stored <= lag
  }

  /** Row and session expire together. */
  ghost predicate SameExpiry(w: World) {
    forall sid :: sid in w.st.sessions ==>
      (var s := w.st.sessions[sid]; s.refreshToken in w.h.born && w.h.born[s.refreshToken].expiresAt == s.refreshExpiry)
  }

  lemma StepKeepsSameExpiry(w: World, ttl: Lifetimes, e: Event)
    requires SameExpiry(w) && Enabled(w, e) && Lags(e, 0)
    ensures SameExpiry(Next(w, ttl, e))
  {
    hide FamilyOf, Find;
    if e.DoSessionRefresh? {
      RefreshKeepsSameExpiry(w, ttl, e);
    } else {
      var w' := Next(w, ttl, e);
      forall t | t in w.h.born ensures t in w'.h.born && w'.h.born[t] == w.h.born[t] {}
      forall sid | sid in w'.st.sessions
        ensures w'.st.sessions[sid].refreshToken in w'.h.born
        ensures w'.h.born[w'.st.sessions[sid].refreshToken].expiresAt == w'.st.sessions[sid].refreshExpiry
      {
        if !(e.DoSessionLogin? && sid == e.sid) {
          assert sid in w.st.sessions;
        }
      }
    }
  }

  lemma RefreshKeepsSameExpiry(w: World, ttl: Lifetimes, e: Event)
    requires SameExpiry(w) && Enabled(w, e) && Lags(e, 0) && e.DoSessionRefresh?
    ensures SameExpiry(Next(w, ttl, e))
  {
    hide Next, Target;
    var w' := Next(w, ttl, e);
    if StopsShort(w, e) {
      StopsShortOutcome(w, ttl, e);
    } else {
      RotationOutcome(w, ttl, e);
    }
    forall sid | sid in w'.st.sessions
      ensures w'.st.sessions[sid].refreshToken in w'.h.born
      ensures w'.h.born[w'.st.sessions[sid].refreshToken].expiresAt == w'.st.sessions[sid].refreshExpiry
    {
      assert sid in w.st.sessions;
    }
  }

  /** When row and session are stamped at one time, a live session is backed whatever retention does. */
  lemma {:induction false} InstantRunsAgree(w: World, ttl: Lifetimes, es: seq<Event>, sid: string)
    requires Tables(w.st, w.h) && Agreement(w) && SameExpiry(w)
    requires Run(w, ttl, es) && GoodRun(w, ttl, es) && forall k :: 0 <= k < |es| ==> Lags(es[k], 0)
    requires sid in Final(w, ttl, es).st.sessions
    requires !Expired(Final(w, ttl, es).st.sessions[sid], Final(w, ttl, es).h.clock)
    ensures Backed(Final(w, ttl, es).st, Final(w, ttl, es).st.sessions[sid])
    decreases es
  {
    if es == [] {
      assert SessionAgrees(w.st, w.h, sid, w.st.sessions[sid]);
    } else {
      StepKeepsTables(w, ttl, es[0]);
      StepKeepsAgreement(w, ttl, es[0]);
      StepKeepsSameExpiry(w, ttl, es[0]);
      InstantRunsAgree(Next(w, ttl, es[0]), ttl, es[1..], sid);
    }
  }

  ghost predicate LiveBacked(w: World) {
    forall sid :: sid in w.st.sessions && !Expired(w.st.sessions[sid], w.h.clock) ==> Backed(w.st, w.st.sessions[sid])
  }

  /** One good run with handlers no slower than `lag` ends with every live session backed. */
  ghost predicate RunBacked(ttl: Lifetimes, lag: nat, clock: int, active: map<nat, bool>, es: seq<Event>) {
    Run(Start(clock, active), ttl, es) && GoodRun(Start(clock, active), ttl, es)
    && (forall k :: 0 <= k < |es| ==> Lags(es[k], lag))
    ==> LiveBacked(Final(Start(clock, active), ttl, es))
  }

  /** Live sessions stay backed over all runs, retention included, exactly when no time passes between
      the two stamps; only a negative lifetime, with which no session is ever live, needs no such
      care. */
  lemma LiveSessionsBackedExactly(ttl: Lifetimes, lag: nat)
    ensures (forall clock, active, es :: RunBacked(ttl, lag, clock, active, es)) <==> lag == 0 || ttl.refresh < 0
  {
    if lag == 0 || ttl.refresh < 0 {
      forall clock, active, es ensures RunBacked(ttl, lag, clock, active, es) {
        GoodRunBacked(ttl, lag, clock, active, es);
      }
    } else {
      LateSessionUnbacked(ttl, lag);
      assert !RunBacked(ttl, lag, 0, map[], LateSession(ttl, lag));
    }
  }

  lemma GoodRunBacked(ttl: Lifetimes, lag: nat, clock: int, active: map<nat, bool>, es: seq<Event>)
    requires lag == 0 || ttl.refresh < 0
    ensures RunBacked(ttl, lag, clock, active, es)
  {
    hide Run, GoodRun, Final, Next, Backed;
    var w, end := Start(clock, active), Final(Start(clock, active), ttl, es);
    if Run(w, ttl, es) && GoodRun(w, ttl, es) && forall k :: 0 <= k < |es| ==> Lags(es[k], lag) {
      RunKeepsExpiryInReach(w, ttl, es);
      forall sid | sid in end.st.sessions && !Expired(end.st.sessions[sid], end.h.clock)
        ensures Backed(end.st, end.st.sessions[sid])
      {
        InstantRunsAgree(w, ttl, es, sid);
      }
    }
  }

  /** No session expires later than a full lifetime from now. */
  ghost predicate ExpiryInReach(w: World, ttl: Lifetimes) {
    forall sid :: sid in w.st.sessions ==> w.st.sessions[sid].refreshExpiry <= w.h.clock + ttl.refresh
  }

  lemma {:induction false} RunKeepsExpiryInReach(w: World, ttl: Lifetimes, es: seq<Event>)
    requires ExpiryInReach(w, ttl) && Run(w, ttl, es)
    ensures ExpiryInReach(Final(w, ttl, es), ttl)
    decreases es
  {
    hide ExpiryInReach, Next, Enabled;
    if es != [] {
      StepKeepsExpiryInReach(w, ttl, es[0]);
      RunKeepsExpiryInReach(Next(w, ttl, es[0]), ttl, es[1..]);
    }
  }

  lemma StepKeepsExpiryInReach(w: World, ttl: Lifetimes, e: Event)
    requires ExpiryInReach(w, ttl) && Enabled(w, e)
    ensures ExpiryInReach(Next(w, ttl, e), ttl)
  {
    hide Find, FamilyOf, Target;
    if e.DoSessionRefresh? {
      RefreshKeepsExpiryInReach(w, ttl, e);
    }
  }

  lemma RefreshKeepsExpiryInReach(w: World, ttl: Lifetimes, e: Event)
    requires ExpiryInReach(w, ttl) && Enabled(w, e) && e.DoSessionRefresh?
    ensures ExpiryInReach(Next(w, ttl, e), ttl)
  {
    hide Next, Target;
    if StopsShort(w, e) {
      StopsShortOutcome(w, ttl, e);
    } else {
      RotationOutcome(w, ttl, e);
    }
  }

  /** A login that takes `lag` between its two stamps, and a retention job at the end of the session's
      life. */
  function LateSession(ttl: Lifetimes, lag: nat): seq<Event> {
    [DoSessionLogin(0, Profile("admin", false, false, "", ""), "session", "access", "refresh",
                    Readings(0, 0, 0, 0, lag), NoFault),
     Purge(false, ttl.refresh + lag)]
  }

  lemma LateSessionUnbacked(ttl: Lifetimes, lag: nat)
    requires lag > 0 && ttl.refresh >= 0
    ensures var w, es := Start(0, map[]), LateSession(ttl, lag);
            && Run(w, ttl, es) && GoodRun(w, ttl, es) && (forall k :: 0 <= k < |es| ==> Lags(es[k], lag))
            && "session" in Final(w, ttl, es).st.sessions && !LiveBacked(Final(w, ttl, es))
  {
    var w, es := Start(0, map[]), LateSession(ttl, lag);
    var w1 := Next(w, ttl, es[0]);
    var w2 := Next(w1, ttl, es[1]);
    assert es[1..] == [es[1]] && es[1..][1..] == [];
    assert w1.st.rows == map[0 := Row(0, "refresh", ttl.refresh, false)];
    assert w2.st.rows == map[];
    assert Final(w1, ttl, es[1..]) == w2;
    assert Run(w1, ttl, es[1..]) && GoodRun(w1, ttl, es[1..]);
    assert !Backed(w2.st, w2.st.sessions["session"]);
  }
}
