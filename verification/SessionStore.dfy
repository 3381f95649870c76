/** Server-side sessions (backend/internal/auth/bff_session.go): a map of shared session objects
    with lazy and periodic eviction, and the never-evicting map it stands for. */
module SessionStore {
  import opened Options

  datatype Session = Session(
    sessionID: string,
    adminID: nat,
    username: string,
    isSuperAdmin: bool,
    mustChangePassword: bool,
    accessToken: string,
    refreshToken: string,
    accessExpiry: int,
    refreshExpiry: int,
    createdAt: int,
    lastAccessedAt: int,
    userAgent: string,
    ipAddress: string
  )

  type SessionMap = map<string, Session>

  // ---- The operations on values, as the manager performs them ----

  predicate Expired(s: Session, now: int) { now > s.refreshExpiry }

  function Touched(s: Session, now: int): Session { s.(lastAccessedAt := now) }

  function WithAccess(s: Session, access: string, expiry: int, touchedAt: int): Session {
    s.(accessToken := access, accessExpiry := expiry, lastAccessedAt := touchedAt)
  }

  function WithRefresh(s: Session, access: string, refresh: string, accessTTL: int, refreshTTL: int, now: int)
    : Session
  {
    s.(accessToken := access, refreshToken := refresh,
       accessExpiry := now + accessTTL, refreshExpiry := now + refreshTTL, lastAccessedAt := now)
  }

  function Swept(m: SessionMap, now: int): SessionMap {
    map id | id in m && !Expired(m[id], now) :: m[id]
  }

  // ---- The manager ----

  /** A session object; GetSession hands out the object itself. */
  class BFFSession {
    var data: Session

    constructor (data: Session)
      ensures this.data == data
    {
      this.data := data;
    }
  }

  // Seven days, in seconds.
  const DEFAULT_TTL := 7 * 24 * 3600

  class BFFSessionManager {
    var sessions: map<string, BFFSession>
    const ttl: int

    /** No session object is filed under two identifiers. */
    ghost predicate Valid()
      reads this
    {
      forall a, b :: a in sessions && b in sessions && sessions[a] == sessions[b] ==> a == b
    }

    /** The value of the store. */
    ghost function View(): SessionMap
      reads this, sessions.Values
    {
      map id | id in sessions :: sessions[id].data
    }

    constructor (ttl: int)
      ensures Valid() && View() == map[]
      ensures this.ttl == if ttl <= 0 then 604800 else ttl
    {
      this.ttl := if ttl <= 0 then DEFAULT_TTL else ttl;
      this.sessions := map[];
    }

    /** `sessionID` is the fresh random identifier, if the random source gives one. */
    method CreateSession(sessionID: Option<string>, adminID: nat, username: string, isSuperAdmin: bool,
                         mustChangePassword: bool, accessToken: string, refreshToken: string,
                         accessTTL: int, refreshTTL: int, userAgent: string, ipAddress: string, now: int)
      returns (id: Option<string>)
      requires Valid()
      modifies this
      ensures Valid() && id == sessionID
      ensures View() ==
              if sessionID.None? then old(View())
              else old(View())[sessionID.value :=
                Session(sessionID.value, adminID, username, isSuperAdmin, mustChangePassword, accessToken,
                        refreshToken, now + accessTTL, now + refreshTTL, now, now, userAgent, ipAddress)]
    {
      if sessionID.None? {
        return None;
      }
      var session := new BFFSession(
        Session(sessionID.value, adminID, username, isSuperAdmin, mustChangePassword, accessToken, refreshToken,
                now + accessTTL, now + refreshTTL, now, now, userAgent, ipAddress));
      sessions := sessions[sessionID.value := session];
      return sessionID;
    }

    /** The caller gets the live object, so later updates of the store show through it. */
    method GetSession(sessionID: string, now: int) returns (session: BFFSession?)
      requires Valid()
      modifies this, sessions.Values
      ensures Valid()
      ensures session != null <==> sessionID in old(View()) && !Expired(old(View())[sessionID], now)
      ensures session != null ==> sessionID in sessions && sessions[sessionID] == session
      ensures Apply(old(View()), Get(sessionID), now).1 == if session == null then Missing else Found(session.data)
      ensures View() == Apply(old(View()), Get(sessionID), now).0
      ensures sessions.Values <= old(sessions.Values)
    {
      if sessionID !in sessions {
        return null;
      }
      var found := sessions[sessionID];
      if now > found.data.refreshExpiry {
        sessions := sessions - {sessionID};
        return null;
      }
      found.data := Touched(found.data, now);
      return found;
    }

    method DeleteSession(sessionID: string)
      requires Valid()
      modifies this
      ensures Valid() && View() == old(View()) - {sessionID}
      ensures sessions.Values <= old(sessions.Values)
    {
      sessions := sessions - {sessionID};
    }

    /** The clock is read for the test, for the new expiry and for the time of access. */
    method UpdateAccessToken(sessionID: string, newAccessToken: string, accessTTL: int,
                             now: int, renewedAt: int, touchedAt: int)
      returns (ok: bool)
      requires Valid()
      modifies this, sessions.Values
      ensures Valid()
      ensures var step := Apply(old(View()),
                                UpdateAccess(sessionID, newAccessToken, renewedAt + accessTTL, touchedAt), now);
              View() == step.0 && Flag(ok) == step.1
    {
      if sessionID !in sessions {
        return false;
      }
      var session := sessions[sessionID];
      if now > session.data.refreshExpiry {
        sessions := sessions - {sessionID};
        return false;
      }
      session.data := WithAccess(session.data, newAccessToken, renewedAt + accessTTL, touchedAt);
      return true;
    }

    method UpdateRefreshToken(sessionID: string, newAccessToken: string, newRefreshToken: string,
                              accessTTL: int, refreshTTL: int, now: int) returns (ok: bool)
      requires Valid()
      modifies this, sessions.Values
      ensures Valid()
      ensures var step := Apply(old(View()),
                                UpdateRefresh(sessionID, newAccessToken, newRefreshToken, accessTTL, refreshTTL), now);
              View() == step.0 && Flag(ok) == step.1
    {
      if sessionID !in sessions {
        return false;
      }
      var session := sessions[sessionID];
      if now > session.data.refreshExpiry {
        sessions := sessions - {sessionID};
        return false;
      }
      session.data := WithRefresh(session.data, newAccessToken, newRefreshToken, accessTTL, refreshTTL, now);
      return true;
    }

    method Count() returns (n: nat)
      ensures n == |sessions|
    {
      n := |sessions|;
    }

    /** cleanup: the map is walked in any order. */
    method Cleanup(now: int)
      requires Valid()
      modifies this
      ensures Valid() && View() == Swept(old(View()), now)
    {
      var left := sessions.Keys;
      while left != {}
        invariant left <= sessions.Keys && sessions.Keys <= old(sessions.Keys)
        invariant forall id :: id in sessions ==> sessions[id] == old(sessions[id])
        invariant forall id :: id in old(sessions) && id in left ==> id in sessions
        invariant forall id :: id in old(sessions) && id !in left ==>
                                 (id in sessions <==> !Expired(old(sessions[id].data), now))
      {
        var id :| id in left;
        if now > sessions[id].data.refreshExpiry {
          sessions := sessions - {id};
        }
        left := left - {id};
      }
    }
  }

  // ---- Runs of the store, and of the reference that never evicts ----

  datatype Op =
    | Create(session: Session)
    | Get(id: string)
    | Delete(id: string)
    | UpdateAccess(id: string, access: string, expiry: int, touchedAt: int)
    | UpdateRefresh(id: string, access: string, refresh: string, accessTTL: int, refreshTTL: int)
    | Sweep

  datatype Answer = Found(session: Session) | Missing | Flag(ok: bool) | Silent

  /** One operation of the store, with its lazy deletions. */
  function Apply(m: SessionMap, op: Op, now: int): (SessionMap, Answer) {
    match op
    case Create(s) => (m[s.sessionID := s], Silent)
    case Get(id) =>
      if id !in m then (m, Missing)
      else if Expired(m[id], now) then (m - {id}, Missing)
      else (m[id := Touched(m[id], now)], Found(Touched(m[id], now)))
    case Delete(id) => (m - {id}, Silent)
    case UpdateAccess(id, access, expiry, touchedAt) =>
      if id !in m then (m, Flag(false))
      else if Expired(m[id], now) then (m - {id}, Flag(false))
      else (m[id := WithAccess(m[id], access, expiry, touchedAt)], Flag(true))
    case UpdateRefresh(id, access, refresh, accessTTL, refreshTTL) =>
      if id !in m then (m, Flag(false))
      else if Expired(m[id], now) then (m - {id}, Flag(false))
      else (m[id := WithRefresh(m[id], access, refresh, accessTTL, refreshTTL, now)], Flag(true))
    case Sweep => (Swept(m, now), Silent)
  }

  /** The reference: expiry hides a session, and nothing but Delete removes one. */
  function ApplyReference(m: SessionMap, op: Op, now: int): (SessionMap, Answer) {
    match op
    case Create(s) => (m[s.sessionID := s], Silent)
    case Get(id) =>
      if id !in m || Expired(m[id], now) then (m, Missing)
      else (m[id := Touched(m[id], now)], Found(Touched(m[id], now)))
    case Delete(id) => (m - {id}, Silent)
    case UpdateAccess(id, access, expiry, touchedAt) =>
      if id !in m || Expired(m[id], now) then (m, Flag(false))
      else (m[id := WithAccess(m[id], access, expiry, touchedAt)], Flag(true))
    case UpdateRefresh(id, access, refresh, accessTTL, refreshTTL) =>
      if id !in m || Expired(m[id], now) then (m, Flag(false))
      else (m[id := WithRefresh(m[id], access, refresh, accessTTL, refreshTTL, now)], Flag(true))
    case Sweep => (m, Silent)
  }

  // ---- What each call does, field by field ----

  /** Get finds a session up to and at its RefreshExpiry, changes nothing but its time of access, and
      otherwise removes it; no other session is concerned. */
  lemma FoundExactly(m: SessionMap, id: string, now: int)
    ensures var (m', answer) := Apply(m, Get(id), now);
            && (answer.Found? <==> id in m && now <= m[id].refreshExpiry)
            && (answer.Found? ==> id in m' && m'[id] == answer.session == m[id].(lastAccessedAt := now))
            && (!answer.Found? ==> answer == Missing && id !in m')
            && m' - {id} == m - {id}
  {
  }

  /** A renewal succeeds up to and at RefreshExpiry; both tokens and both expiries are then the new
      ones, everything else about the session stays. */
  lemma RenewedExactly(m: SessionMap, id: string, access: string, refresh: string, accessTTL: int, refreshTTL: int,
                       now: int)
    ensures var (m', answer) := Apply(m, UpdateRefresh(id, access, refresh, accessTTL, refreshTTL), now);
            && answer == Flag(id in m && now <= m[id].refreshExpiry)
            && (answer.ok ==>
                  id in m' &&
                  m'[id] == Session(m[id].sessionID, m[id].adminID, m[id].username, m[id].isSuperAdmin,
                                    m[id].mustChangePassword, access, refresh, now + accessTTL, now + refreshTTL,
                                    m[id].createdAt, now, m[id].userAgent, m[id].ipAddress))
            && (!answer.ok ==> id !in m')
            && m' - {id} == m - {id}
  {
  }

  /** Renewing the access token leaves the refresh token and its expiry alone. */
  lemma AccessRenewedExactly(m: SessionMap, id: string, access: string, expiry: int, touchedAt: int, now: int)
    ensures var (m', answer) := Apply(m, UpdateAccess(id, access, expiry, touchedAt), now);
            && answer == Flag(id in m && now <= m[id].refreshExpiry)
            && (answer.ok ==>
                  && id in m' && m'[id].accessToken == access && m'[id].accessExpiry == expiry
                  && m'[id].lastAccessedAt == touchedAt
                  && m'[id].(accessToken := m[id].accessToken, accessExpiry := m[id].accessExpiry,
                             lastAccessedAt := m[id].lastAccessedAt) == m[id])
            && (!answer.ok ==> id !in m')
            && m' - {id} == m - {id}
  {
  }

  /** A sweep removes exactly the sessions past their RefreshExpiry. */
  lemma SweptExactly(m: SessionMap, now: int)
    ensures var m' := Apply(m, Sweep, now).0;
            && (forall id :: id in m' <==> id in m && now <= m[id].refreshExpiry)
            && (forall id :: id in m' ==> m'[id] == m[id])
  {
  }

  datatype Timed = Timed(op: Op, at: int)

  /** Clock readings never go back. */
  predicate Monotone(from: int, trace: seq<Timed>)
    decreases trace
  {
    trace == [] || (from <= trace[0].at && Monotone(trace[0].at, trace[1..]))
  }

  /** The answers of a run; sweeps answer nobody and are left out. */
  function Answers(m: SessionMap, trace: seq<Timed>): seq<Answer>
    decreases trace
  {
    if trace == [] then []
    else
      var (m', a) := Apply(m, trace[0].op, trace[0].at);
      (if trace[0].op.Sweep? then [] else [a]) + Answers(m', trace[1..])
  }

  function ReferenceAnswers(m: SessionMap, trace: seq<Timed>): seq<Answer>
    decreases trace
  {
    if trace == [] then []
    else
      var (m', a) := ApplyReference(m, trace[0].op, trace[0].at);
      (if trace[0].op.Sweep? then [] else [a]) + ReferenceAnswers(m', trace[1..])
  }

  /** The trace without its sweeps: what the callers did. */
  function Visible(trace: seq<Timed>): seq<Timed> {
    if trace == [] then []
    else (if trace[0].op.Sweep? then [] else [trace[0]]) + Visible(trace[1..])
  }

  /** The store holds the reference's sessions, except some that have expired. */
  ghost predicate Refines(m: SessionMap, r: SessionMap, now: int) {
    && (forall id :: id in m ==> id in r && r[id] == m[id])
    && (forall id :: id in r && id !in m ==> Expired(r[id], now))
  }

  lemma StepRefines(m: SessionMap, r: SessionMap, op: Op, from: int, now: int)
    requires Refines(m, r, from) && from <= now
    ensures Apply(m, op, now).1 == ApplyReference(r, op, now).1
    ensures Refines(Apply(m, op, now).0, ApplyReference(r, op, now).0, now)
  {
    assert Refines(m, r, now);
  }

  /** Eviction is invisible: a run of the store answers exactly as the never-evicting map does on
      what the callers did, wherever the sweeps fall. */
  lemma {:induction false} StoreRefinesReference(m: SessionMap, r: SessionMap, from: int, trace: seq<Timed>)
    requires Refines(m, r, from) && Monotone(from, trace)
    ensures Answers(m, trace) == ReferenceAnswers(r, Visible(trace))
    decreases trace
  {
    if trace != [] {
      var t := trace[0];
      StepRefines(m, r, t.op, from, t.at);
      var m', r' := Apply(m, t.op, t.at).0, ApplyReference(r, t.op, t.at).0;
      StoreRefinesReference(m', r', t.at, trace[1..]);
      if t.op.Sweep? {
        assert Visible(trace) == Visible(trace[1..]);
      } else {
        assert Visible(trace)[0] == t && Visible(trace)[1..] == Visible(trace[1..]);
      }
    }
  }

  /** Two runs that differ only in when, or whether, sweeps happen answer alike. */
  lemma SweepsDoNotMatter(m: SessionMap, from: int, trace1: seq<Timed>, trace2: seq<Timed>)
    requires Monotone(from, trace1) && Monotone(from, trace2) && Visible(trace1) == Visible(trace2)
    ensures Answers(m, trace1) == Answers(m, trace2)
  {
    StoreRefinesReference(m, m, from, trace1);
    StoreRefinesReference(m, m, from, trace2);
  }

  // ---- Expiry is final ----

  predicate Dead(m: SessionMap, id: string, now: int) {
    id in m ==> Expired(m[id], now)
  }

  predicate Asks(op: Op, id: string) {
    (op.Get? || op.UpdateAccess? || op.UpdateRefresh?) && op.id == id
  }

  predicate Recreates(op: Op, id: string) { op.Create? && op.session.sessionID == id }

  function After(m: SessionMap, trace: seq<Timed>): SessionMap
    decreases trace
  {
    if trace == [] then m else After(Apply(m, trace[0].op, trace[0].at).0, trace[1..])
  }

  lemma DeadStays(m: SessionMap, id: string, op: Op, from: int, now: int)
    requires Dead(m, id, from) && from <= now && !Recreates(op, id)
    ensures Dead(Apply(m, op, now).0, id, now)
  {
  }

  /** A session past its RefreshExpiry stays dead unless a new one is created under its identifier:
      no later run ever finds or renews it. */
  lemma {:induction false} ExpiryIsFinal(m: SessionMap, id: string, from: int, trace: seq<Timed>, op: Op, at: int)
    requires Dead(m, id, from) && Monotone(from, trace + [Timed(op, at)]) && Asks(op, id)
    requires forall k :: 0 <= k < |trace| ==> !Recreates(trace[k].op, id)
    ensures Apply(After(m, trace), op, at).1 in {Missing, Flag(false)}
    decreases trace
  {
    if trace == [] {
      assert trace + [Timed(op, at)] == [Timed(op, at)];
    } else {
      var t := trace[0];
      assert (trace + [Timed(op, at)])[1..] == trace[1..] + [Timed(op, at)];
      DeadStays(m, id, t.op, from, t.at);
      ExpiryIsFinal(Apply(m, t.op, t.at).0, id, t.at, trace[1..], op, at);
    }
  }

  // ---- GetSession in two locked sections ----

  function ReferenceAfter(r: SessionMap, trace: seq<Timed>): SessionMap
    decreases trace
  {
    if trace == [] then r else ReferenceAfter(ApplyReference(r, trace[0].op, trace[0].at).0, trace[1..])
  }

  function Clock(from: int, trace: seq<Timed>): int { if trace == [] then from else trace[|trace| - 1].at }

  /** GetSession finds a session expired under one lock and deletes it under another. The deletion goes
      unnoticed exactly when what it finds by then is no live session. */
  lemma LateDeletionExactly(m: SessionMap, r: SessionMap, id: string, now: int)
    requires Refines(m, r, now)
    ensures Refines(m - {id}, r, now) <==> Dead(m, id, now)
  {
    if id in m && Refines(m - {id}, r, now) {
      assert id in r && id !in m - {id};
    }
  }

  /** So it does when every call in between reads its clock after the test and creates no session
      under that identifier. */
  lemma {:induction false} LateDeletionUnnoticed(m: SessionMap, r: SessionMap, id: string, tested: int,
                                                 trace: seq<Timed>)
    requires Refines(m, r, tested) && Dead(m, id, tested) && Monotone(tested, trace)
    requires forall k :: 0 <= k < |trace| ==> !Recreates(trace[k].op, id)
    ensures Refines(After(m, trace) - {id}, ReferenceAfter(r, trace), Clock(tested, trace))
    decreases trace
  {
    hide Apply, ApplyReference, Refines, Dead;
    if trace == [] {
      LateDeletionExactly(m, r, id, tested);
    } else {
      var t := trace[0];
      DeadStays(m, id, t.op, tested, t.at);
      StepRefines(m, r, t.op, tested, t.at);
      LateDeletionUnnoticed(Apply(m, t.op, t.at).0, ApplyReference(r, t.op, t.at).0, id, t.at, trace[1..]);
    }
  }

  /** A renewal that read its clock before the expiry, and wrote after GetSession read its own, is lost
      exactly as long as it would have counted. */
  lemma RenewalLostExactly(m: SessionMap, renewal: Op, id: string, renewedAt: int, tested: int, now: int)
    requires renewal.UpdateRefresh? && renewal.id == id && id in m
    requires renewedAt <= m[id].refreshExpiry < tested <= now
    ensures var renewed := Apply(m, renewal, renewedAt).0;
            Refines(renewed - {id}, renewed, now) <==> renewedAt + renewal.refreshTTL < now
  {
    var renewed := Apply(m, renewal, renewedAt).0;
    LateDeletionExactly(renewed, renewed, id, now);
  }

  /** Count is the exception: it is the one call that eviction shows through. */
  lemma CountSeesSweeps(m: SessionMap, now: int)
    ensures |Swept(m, now)| == |m| <==> forall id :: id in m ==> !Expired(m[id], now)
  {
    var s := Swept(m, now);
    if id :| id in m && Expired(m[id], now) {
      Smaller(s.Keys, m.Keys - {id});
      assert |s| == |s.Keys| && |m| == |m.Keys| && |m.Keys - {id}| == |m.Keys| - 1;
    } else {
      assert s == m;
    }
  }

  lemma {:induction false} Smaller<T>(a: set<T>, b: set<T>)
    requires a <= b
    ensures |a| <= |b|
  {
    if a != {} {
      var x :| x in a;
      Smaller(a - {x}, b - {x});
    }
  }
}
