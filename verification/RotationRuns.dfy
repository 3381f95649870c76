/** Whole runs of the authentication handlers (backend/internal/api/auth.go): single use of refresh
    tokens, one live token per login, and agreement between the token table and the sessions. */
module RotationRuns {
  import opened Options
  import opened SessionStore
  import opened RefreshRotation

  /** How a token came to be: the login it descends from; its row's key, owner and expiry; and the
      session it was put in, if it was not handed to a client. */
  datatype Birth = Birth(family: nat, id: nat, adminID: nat, expiresAt: int, holder: Option<string>)

  /** What a run has done so far; none of it is visible to the handlers. */
  datatype History = History(
    clock: int,
    born: map<Token, Birth>,
    heads: seq<nat>,         // for each login, the key of the newest row descending from it
    consumed: seq<Token>,    // tokens a handler has looked up and revoked, in order
    purged: bool             // some retention job has run
  )

  datatype World = World(st: Store, h: History)

  datatype Event =
    | DoLogin(adminID: nat, next: Token, at: Readings, fault: Fault)
    | DoRefresh(presented: Token, next: Token, at: Readings, fault: Fault)
    | DoLogout(presented: Token, fails: bool)
    | DoSessionLogin(adminID: nat, who: Profile, sid: string, access: string, next: Token, at: Readings, fault: Fault)
    | DoSessionLogout(sid: string)
    | DoSessionRefresh(sid: string, access: string, next: Token, at: Readings, fault: Fault)
    | TouchSession(sid: string, now: int)
    | SweepSessions(now: int)
    | SetActive(adminID: nat, isActive: bool)
    | Purge(revokedToo: bool, now: int)

  /** Clock readings never go back, and a generated token was never seen before. */
  predicate Enabled(w: World, e: Event) {
    match e
    case DoLogin(_, next, at, _) => w.h.clock <= at.start && Ordered(at) && next !in w.h.born
    case DoRefresh(_, next, at, _) => w.h.clock <= at.start && Ordered(at) && next !in w.h.born
    case DoLogout(_, _) => true
    case DoSessionLogin(_, _, _, _, next, at, _) => w.h.clock <= at.start && Ordered(at) && next !in w.h.born
    case DoSessionLogout(_) => true
    case DoSessionRefresh(_, _, next, at, _) => w.h.clock <= at.start && Ordered(at) && next !in w.h.born
    case TouchSession(_, now) => w.h.clock <= now
    case SweepSessions(now) => w.h.clock <= now
    case SetActive(_, _) => true
    case Purge(_, now) => w.h.clock <= now
  }

  /** A new row for a token of the given family, a new family if it is the first unused number. */
  function Bear(h: History, next: Token, b: Birth): History {
    h.(born := h.born[next := b], heads := if b.family < |h.heads| then h.heads[b.family := b.id] else h.heads + [b.id])
  }

  function FamilyOf(h: History, t: Token): nat { if t in h.born then h.born[t].family else 0 }

  /** The bookkeeping of a rotation of row `id` whose fresh token goes to `holder`. */
  function Rotated(w: World, ttl: Lifetimes, id: nat, next: Token, holder: Option<string>, at: Readings, fault: Fault)
    : History
    requires id in w.st.rows
  {
    var row := w.st.rows[id];
    if fault in {LookupFails, AccessTokenFails, RevokeFails} then w.h
    else
      var h := w.h.(consumed := w.h.consumed + [row.token]);
      if fault == RefreshTokenFails || fault == StoreFails then h
      else Bear(h, next, Birth(FamilyOf(h, row.token), w.st.nextID, row.adminID, at.stored + ttl.refresh, holder))
  }

  /** A login's fresh token starts a family of its own. */
  function Founded(w: World, ttl: Lifetimes, adminID: nat, next: Token, holder: Option<string>, at: Readings): History {
    Bear(w.h, next, Birth(|w.h.heads|, w.st.nextID, adminID, at.stored + ttl.refresh, holder))
  }

  /** The row a session's rotation would consume, if SessionRefresh gets that far. */
  ghost function Target(st: Store, sid: string, at: Readings): Option<nat> {
    if sid == "" then None
    else
      var (sessions, answer) := Apply(st.sessions, Get(sid), at.start);
      if !answer.Found? || at.checked < answer.session.accessExpiry then None
      else Find(st.(sessions := sessions), answer.session.refreshToken, at.looked)
  }

  ghost function Next(w: World, ttl: Lifetimes, e: Event): World {
    match e
    case DoLogin(adminID, next, at, fault) =>
      var (st, reply) := LoginStep(w.st, ttl, adminID, next, at, fault);
      var h := if reply.Issued? then Founded(w, ttl, adminID, next, None, at) else w.h;
      World(st, h.(clock := at.finished))
    case DoRefresh(presented, next, at, fault) =>
      var (st, reply) := RefreshStep(w.st, ttl, presented, next, at, fault);
      var target := Find(w.st, presented, at.looked);
      var h := if target.Some? && target.value in w.st.rows
               then Rotated(w, ttl, target.value, next, None, at, fault) else w.h;
      World(st, h.(clock := at.finished))
    case DoLogout(presented, fails) => w.(st := LogoutStep(w.st, presented, fails))
    case DoSessionLogin(adminID, who, sid, access, next, at, fault) =>
      var (st, reply) := SessionLoginStep(w.st, ttl, adminID, who, sid, access, next, at, fault);
      var h := if fault in {AccessTokenFails, RefreshTokenFails, StoreFails} then w.h
               else Founded(w, ttl, adminID, next, Some(sid), at);
      World(st, h.(clock := at.finished))
    case DoSessionLogout(sid) => w.(st := SessionLogoutStep(w.st, sid))
    case DoSessionRefresh(sid, access, next, at, fault) =>
      var (st, reply) := SessionRefreshStep(w.st, ttl, sid, access, next, at, fault);
      var target := Target(w.st, sid, at);
      var h := if target.Some? && target.value in w.st.rows
               then Rotated(w, ttl, target.value, next, Some(sid), at, fault) else w.h;
      World(st, h.(clock := at.finished))
    case TouchSession(sid, now) =>
      World(w.st.(sessions := Apply(w.st.sessions, Get(sid), now).0), w.h.(clock := now))
    case SweepSessions(now) =>
      World(w.st.(sessions := Swept(w.st.sessions, now)), w.h.(clock := now))
    case SetActive(adminID, isActive) => w.(st := w.st.(active := w.st.active[adminID := isActive]))
    case Purge(revokedToo, now) =>
      World(w.st.(rows := Purged(w.st.rows, revokedToo, now)), w.h.(clock := now, purged := true))
  }

  ghost predicate Run(w: World, ttl: Lifetimes, es: seq<Event>)
    decreases es
  {
    es == [] || (Enabled(w, es[0]) && Run(Next(w, ttl, es[0]), ttl, es[1..]))
  }

  ghost function Final(w: World, ttl: Lifetimes, es: seq<Event>): World
    decreases es
  {
    if es == [] then w else Final(Next(w, ttl, es[0]), ttl, es[1..])
  }

  function Start(clock: int, active: map<nat, bool>): World {
    World(Store(map[], 0, map[], active), History(clock, map[], [], [], false))
  }

  // ---- The token table ----

  predicate Distinct(ts: seq<Token>) { forall i, j :: 0 <= i < j < |ts| ==> ts[i] != ts[j] }

  /** At most one unrevoked row descends from one login. */
  ghost predicate OneLivePerFamily(st: Store, h: History) {
    forall a, b ::
      (a in st.rows && b in st.rows && !st.rows[a].revoked && !st.rows[b].revoked
       && FamilyOf(h, st.rows[a].token) == FamilyOf(h, st.rows[b].token)) ==> a == b
  }

  /** What is known of one row. */
  predicate RowOK(h: History, nextID: nat, id: nat, row: Row) {
    && id < nextID
    && row.token in h.born
    && (var b := h.born[row.token];
        && b.id == id && b.adminID == row.adminID && b.expiresAt == row.expiresAt
        && b.family < |h.heads| && (!row.revoked ==> h.heads[b.family] == id && row.token !in h.consumed))
  }

  ghost predicate Tables(st: Store, h: History) {
    && (forall id :: id in st.rows ==> RowOK(h, st.nextID, id, st.rows[id]))
    && Distinct(h.consumed)
    && (forall t :: t in h.consumed ==> t in h.born)
  }

  lemma TablesMeanKeys(st: Store, h: History)
    requires Tables(st, h)
    ensures forall id :: id in st.rows ==> id < st.nextID
  {
    forall id | id in st.rows ensures id < st.nextID {
      assert RowOK(h, st.nextID, id, st.rows[id]);
    }
  }

  lemma TablesMeanOneLive(st: Store, h: History)
    requires Tables(st, h)
    ensures OneLivePerFamily(st, h)
    ensures forall a, b :: a in st.rows && b in st.rows && st.rows[a].token == st.rows[b].token ==> a == b
  {
    assert forall id :: id in st.rows ==> RowOK(h, st.nextID, id, st.rows[id]);
  }

  /** Inserting a fresh token whose family has no live row. */
  lemma InsertKeeps(st: Store, h: History, next: Token, b: Birth)
    requires Tables(st, h) && next !in h.born && b.family <= |h.heads| && b.id == st.nextID
    requires forall id :: id in st.rows && !st.rows[id].revoked ==> FamilyOf(h, st.rows[id].token) != b.family
    ensures Tables(Inserted(st, b.adminID, next, b.expiresAt), Bear(h, next, b))
  {
    var st', h' := Inserted(st, b.adminID, next, b.expiresAt), Bear(h, next, b);
    forall id | id in st'.rows ensures RowOK(h', st'.nextID, id, st'.rows[id]) {
      if id in st.rows {
        assert RowOK(h, st.nextID, id, st.rows[id]);
      }
    }
  }

  /** Revoking the row a handler looked up: its token is consumed for the first time, and its
      family is left without a live row. */
  lemma ConsumeKeeps(st: Store, h: History, id: nat)
    requires Tables(st, h) && id in st.rows && !st.rows[id].revoked
    ensures var token := st.rows[id].token;
            var st' := st.(rows := RevokedID(st.rows, id));
            && Tables(st', h.(consumed := h.consumed + [token]))
            && FamilyOf(h, token) < |h.heads|
            && forall k :: k in st'.rows && !st'.rows[k].revoked ==>
                             FamilyOf(h, st'.rows[k].token) != FamilyOf(h, token)
  {
    var token := st.rows[id].token;
    assert RowOK(h, st.nextID, id, st.rows[id]);
    var st', h' := st.(rows := RevokedID(st.rows, id)), h.(consumed := h.consumed + [token]);
    forall k | k in st'.rows
      ensures RowOK(h', st'.nextID, k, st'.rows[k])
      ensures !st'.rows[k].revoked ==> FamilyOf(h, st'.rows[k].token) != FamilyOf(h, token)
    {
      assert RowOK(h, st.nextID, k, st.rows[k]);
    }
  }

  /** Rows may be revoked or dropped at will. */
  lemma ShrinkKeeps(st: Store, h: History, st': Store, h': History)
    requires Tables(st, h) && st'.nextID == st.nextID
    requires h'.born == h.born && h'.heads == h.heads && h'.consumed == h.consumed
    requires forall id :: id in st'.rows ==>
               id in st.rows && (st'.rows[id] == st.rows[id] || st'.rows[id] == st.rows[id].(revoked := true))
    ensures Tables(st', h')
  {
    forall id | id in st'.rows ensures RowOK(h', st'.nextID, id, st'.rows[id]) {
      assert RowOK(h, st.nextID, id, st.rows[id]);
    }
  }

  lemma RotationKeeps(w: World, ttl: Lifetimes, id: nat, next: Token, holder: Option<string>,
                      at: Readings, fault: Fault)
    requires Tables(w.st, w.h) && next !in w.h.born && id in w.st.rows && !w.st.rows[id].revoked
    ensures var st1 := w.st.(rows := RevokedID(w.st.rows, id));
            var h := Rotated(w, ttl, id, next, holder, at, fault);
            if fault in {LookupFails, AccessTokenFails, RevokeFails} then Tables(w.st, h)
            else if fault == RefreshTokenFails || fault == StoreFails then Tables(st1, h)
            else Tables(Inserted(st1, w.st.rows[id].adminID, next, at.stored + ttl.refresh), h)
  {
    hide Tables;
    var row := w.st.rows[id];
    if fault !in {LookupFails, AccessTokenFails, RevokeFails} {
      var st1 := w.st.(rows := RevokedID(w.st.rows, id));
      var h1 := w.h.(consumed := w.h.consumed + [row.token]);
      ConsumeKeeps(w.st, w.h, id);
      if fault != RefreshTokenFails && fault != StoreFails {
        InsertKeeps(st1, h1, next,
                    Birth(FamilyOf(h1, row.token), w.st.nextID, row.adminID, at.stored + ttl.refresh, holder));
      }
    }
  }

  lemma FindLive(st: Store, token: Token, now: int)
    ensures var f := Find(st, token, now);
            f.Some? ==> f.value in st.rows && Matches(st.rows[f.value], st.active, token, now)
  {
    FindFinds(st, token, now);
  }

  lemma LoginKeeps(w: World, ttl: Lifetimes, adminID: nat, next: Token, holder: Option<string>, at: Readings)
    requires Tables(w.st, w.h) && next !in w.h.born
    ensures Tables(Inserted(w.st, adminID, next, at.stored + ttl.refresh), Founded(w, ttl, adminID, next, holder, at))
  {
    forall id | id in w.st.rows ensures FamilyOf(w.h, w.st.rows[id].token) != |w.h.heads| {
      assert RowOK(w.h, w.st.nextID, id, w.st.rows[id]);
    }
    InsertKeeps(w.st, w.h, next, Birth(|w.h.heads|, w.st.nextID, adminID, at.stored + ttl.refresh, holder));
  }

  lemma ClockKeeps(st: Store, st': Store, h: History, clock: int, purged: bool)
    requires Tables(st, h) && st'.rows == st.rows && st'.nextID == st.nextID
    ensures Tables(st', h.(clock := clock, purged := purged))
  {
    ShrinkKeeps(st, h, st', h.(clock := clock, purged := purged));
  }

  lemma StepKeepsTables(w: World, ttl: Lifetimes, e: Event)
    requires Tables(w.st, w.h) && Enabled(w, e)
    ensures Tables(Next(w, ttl, e).st, Next(w, ttl, e).h)
  {
    match e
    case DoLogin(_, _, _, _) => LoginsKeepTables(w, ttl, e);
    case DoRefresh(presented, next, at, fault) =>
      RefreshKeepsTables(w, ttl, presented, next, at, fault);
    case DoLogout(presented, fails) =>
      ShrinkKeeps(w.st, w.h, LogoutStep(w.st, presented, fails), w.h);
    case DoSessionLogin(_, _, _, _, _, _, _) => LoginsKeepTables(w, ttl, e);
    case DoSessionLogout(_) =>
    case DoSessionRefresh(_, _, _, _, _) => SessionRefreshKeepsTables(w, ttl, e);
    case TouchSession(_, _) =>
    case SweepSessions(_) =>
    case SetActive(_, _) =>
    case Purge(revokedToo, now) =>
      ShrinkKeeps(w.st, w.h, w.st.(rows := Purged(w.st.rows, revokedToo, now)), w.h);
  }

  lemma LoginsKeepTables(w: World, ttl: Lifetimes, e: Event)
    requires Tables(w.st, w.h) && Enabled(w, e) && (e.DoLogin? || e.DoSessionLogin?)
    ensures Tables(Next(w, ttl, e).st, Next(w, ttl, e).h)
  {
    hide Tables, Bear;
    var w' := Next(w, ttl, e);
    var holder := if e.DoLogin? then None else Some(e.sid);
    var h := Founded(w, ttl, e.adminID, e.next, holder, e.at);
    LoginKeeps(w, ttl, e.adminID, e.next, holder, e.at);
    if w'.st.nextID == w.st.nextID {
      ClockKeeps(w.st, w'.st, w.h, e.at.finished, w.h.purged);
    } else {
      ClockKeeps(Inserted(w.st, e.adminID, e.next, e.at.stored + ttl.refresh), w'.st, h, e.at.finished, h.purged);
    }
  }

  lemma RefreshKeepsTables(w: World, ttl: Lifetimes, presented: Token, next: Token, at: Readings, fault: Fault)
    requires Tables(w.st, w.h) && next !in w.h.born
    ensures var w' := Next(w, ttl, DoRefresh(presented, next, at, fault)); Tables(w'.st, w'.h)
  {
    hide Tables, Find, FamilyOf;
    FindLive(w.st, presented, at.looked);
    var w', target := Next(w, ttl, DoRefresh(presented, next, at, fault)), Find(w.st, presented, at.looked);
    if target.None? || fault in {LookupFails, AccessTokenFails, RevokeFails} {
      ClockKeeps(w.st, w'.st, w.h, at.finished, w.h.purged);
    } else {
      RotationKeeps(w, ttl, target.value, next, None, at, fault);
      var h := Rotated(w, ttl, target.value, next, None, at, fault);
      ClockKeeps(w'.st, w'.st, h, at.finished, h.purged);
    }
  }

  /** Neither owner, refresh token nor refresh expiry of a session has changed, and none was added. */
  ghost predicate OnlyTouched(m: SessionMap, m': SessionMap) {
    forall sid :: sid in m' ==>
      sid in m && m'[sid].adminID == m[sid].adminID
      && m'[sid].refreshToken == m[sid].refreshToken && m'[sid].refreshExpiry == m[sid].refreshExpiry
  }

  /** A SessionRefresh that stops before it revokes anything. */
  ghost predicate StopsShort(w: World, e: Event)
    requires e.DoSessionRefresh?
  {
    Target(w.st, e.sid, e.at).None? || e.fault in {LookupFails, AccessTokenFails, RevokeFails}
  }

  lemma StopsShortOutcome(w: World, ttl: Lifetimes, e: Event)
    requires e.DoSessionRefresh? && StopsShort(w, e)
    ensures var w' := Next(w, ttl, e);
            && w'.st.rows == w.st.rows && w'.st.nextID == w.st.nextID
            && w'.h == w.h.(clock := e.at.finished)
            && OnlyTouched(w.st.sessions, w'.st.sessions)
  {
    if e.sid != "" {
      var (sessions, answer) := Apply(w.st.sessions, Get(e.sid), e.at.start);
      if answer.Found? {
        FindLive(w.st.(sessions := sessions), answer.session.refreshToken, e.at.looked);
      }
    }
  }

  /** A SessionRefresh that revokes a row: the row is live and holds the session's token. */
  lemma RotationOutcome(w: World, ttl: Lifetimes, e: Event)
    requires e.DoSessionRefresh? && !StopsShort(w, e)
    ensures var id, m := Target(w.st, e.sid, e.at).value, w.st.sessions;
            && e.sid in m && !Expired(m[e.sid], e.at.start)
            && id in w.st.rows && !w.st.rows[id].revoked && w.st.rows[id].token == m[e.sid].refreshToken
    ensures var w', id, m := Next(w, ttl, e), Target(w.st, e.sid, e.at).value, w.st.sessions;
            var revoked := w.st.(rows := RevokedID(w.st.rows, id));
            var stored := Inserted(revoked, w.st.rows[id].adminID, e.next, e.at.stored + ttl.refresh);
            && w'.h == Rotated(w, ttl, id, e.next, Some(e.sid), e.at, e.fault).(clock := e.at.finished)
            && (if e.fault == RefreshTokenFails || e.fault == StoreFails
                then w'.st.rows == revoked.rows && w'.st.nextID == revoked.nextID && OnlyTouched(m, w'.st.sessions)
                     && e.sid in w'.st.sessions
                else
                  && w'.st.rows == stored.rows && w'.st.nextID == stored.nextID
                  && (forall sid :: sid in w'.st.sessions && sid != e.sid ==> sid in m && w'.st.sessions[sid] == m[sid])
                  && (e.sid in w'.st.sessions ==>
                        && w'.st.sessions[e.sid].adminID == m[e.sid].adminID
                        && w'.st.sessions[e.sid].refreshToken == e.next
                        && w'.st.sessions[e.sid].refreshExpiry == e.at.finished + ttl.refresh))
  {
    var (sessions, answer) := Apply(w.st.sessions, Get(e.sid), e.at.start);
    FindLive(w.st.(sessions := sessions), answer.session.refreshToken, e.at.looked);
  }

  lemma SessionRefreshKeepsTables(w: World, ttl: Lifetimes, e: Event)
    requires Tables(w.st, w.h) && Enabled(w, e) && e.DoSessionRefresh?
    ensures Tables(Next(w, ttl, e).st, Next(w, ttl, e).h)
  {
    hide Next, Target, Tables;
    var w' := Next(w, ttl, e);
    if StopsShort(w, e) {
      StopsShortOutcome(w, ttl, e);
      ClockKeeps(w.st, w'.st, w.h, e.at.finished, w.h.purged);
    } else {
      RotationOutcome(w, ttl, e);
      var id := Target(w.st, e.sid, e.at).value;
      var h := Rotated(w, ttl, id, e.next, Some(e.sid), e.at, e.fault);
      RotationKeeps(w, ttl, id, e.next, Some(e.sid), e.at, e.fault);
      var revoked := w.st.(rows := RevokedID(w.st.rows, id));
      var stored := Inserted(revoked, w.st.rows[id].adminID, e.next, e.at.stored + ttl.refresh);
      ClockKeeps(if e.fault == RefreshTokenFails || e.fault == StoreFails then revoked else stored,
                 w'.st, h, e.at.finished, h.purged);
    }
  }

  lemma {:induction false} RunKeepsTables(w: World, ttl: Lifetimes, es: seq<Event>)
    requires Tables(w.st, w.h) && Run(w, ttl, es)
    ensures Tables(Final(w, ttl, es).st, Final(w, ttl, es).h)
    decreases es
  {
    if es != [] {
      StepKeepsTables(w, ttl, es[0]);
      RunKeepsTables(Next(w, ttl, es[0]), ttl, es[1..]);
    }
  }

  /** Over every run, with clients presenting any strings and handlers failing anywhere: no refresh
      token is consumed twice, and no login ever has two unrevoked descendants. */
  lemma RotationIsSingleUse(clock: int, active: map<nat, bool>, ttl: Lifetimes, es: seq<Event>)
    requires Run(Start(clock, active), ttl, es)
    ensures var w := Final(Start(clock, active), ttl, es); Distinct(w.h.consumed) && OneLivePerFamily(w.st, w.h)
  {
    RunKeepsTables(Start(clock, active), ttl, es);
    TablesMeanOneLive(Final(Start(clock, active), ttl, es).st, Final(Start(clock, active), ttl, es).h);
  }

  // ---- What one rotation does to acceptance ----

  /** Refresh accepts exactly the tokens with a live row of an active administrator, when it does not
      fail on the way; from then on the presented token is refused, and the fresh one is accepted
      until it expires. Every other token fares as before. */
  lemma RefreshSwapsTokens(w: World, ttl: Lifetimes, presented: Token, next: Token, at: Readings, fault: Fault)
    requires Tables(w.st, w.h) && next !in w.h.born
    ensures var (st', reply) := RefreshStep(w.st, ttl, presented, next, at, fault);
            && (reply == Issued(next) <==> fault in {NoFault, SessionFails} && Usable(w.st, presented, at.looked))
            && (reply == Issued(next) ==>
                  forall now :: !Usable(st', presented, now)
                                && (Usable(st', next, now) <==> now < at.stored + ttl.refresh))
            && (forall t, now :: t != presented && t != next ==> (Usable(st', t, now) <==> Usable(w.st, t, now)))
  {
    var (st', reply) := RefreshStep(w.st, ttl, presented, next, at, fault);
    FindFinds(w.st, presented, at.looked);
    FindLive(w.st, presented, at.looked);
    forall id | id in w.st.rows ensures RowOK(w.h, w.st.nextID, id, w.st.rows[id]) {}
    forall t, now | t != presented && t != next ensures Usable(st', t, now) <==> Usable(w.st, t, now) {
      if id :| id in w.st.rows && Matches(w.st.rows[id], w.st.active, t, now) {
        assert id in st'.rows && st'.rows[id] == w.st.rows[id];
      }
      if id :| id in st'.rows && Matches(st'.rows[id], st'.active, t, now) {
        assert id in w.st.rows && st'.rows[id] == w.st.rows[id];
      }
    }
    if reply == Issued(next) {
      forall now ensures Usable(st', next, now) <==> now < at.stored + ttl.refresh {
        assert w.st.nextID in st'.rows && st'.rows[w.st.nextID].token == next;
      }
    }
  }

  /** Logout ends the presented token and no other. */
  lemma LogoutEndsOneToken(st: Store, presented: Token, fails: bool, t: Token, now: int)
    ensures Usable(LogoutStep(st, presented, fails), t, now) <==> (t != presented || fails) && Usable(st, t, now)
  {
    var st' := LogoutStep(st, presented, fails);
    if id :| id in st.rows && Matches(st.rows[id], st.active, t, now) {
      assert t != presented || fails ==> st'.rows[id] == st.rows[id];
    }
    if id :| id in st'.rows && Matches(st'.rows[id], st'.active, t, now) {
      assert id in st.rows && st'.rows[id] == st.rows[id];
    }
  }
}
