/** Revoked access tokens (backend/internal/auth/jwt.go): an in-memory blacklist with expiry, a
    table that survives restarts, and a background cleanup that trims both. Times are integers of
    one unit, and a token stands for its own SHA-256 hash. */
module TokenBlacklist {
  import opened Options

  type Token = string
  type Expiries = map<Token, int>

  // ---- What each statement does to the two stores ----

  /** Both cleanups: entries whose expiry lies strictly in the past go. */
  function Trimmed(entries: Expiries, now: int): (kept: Expiries)
    ensures forall t :: t in kept <==> t in entries && entries[t] >= now
    ensures forall t :: t in kept ==> kept[t] == entries[t]
  {
    map t | t in entries && entries[t] >= now :: entries[t]
  }

  /** The reload at start-up takes rows that expire strictly later than now. */
  function Reloaded(entries: Expiries, table: Expiries, now: int): (all: Expiries)
    ensures forall t :: t in all <==> t in entries || (t in table && table[t] > now)
    ensures forall t :: t in table && table[t] > now ==> all[t] == table[t]
  {
    entries + map t | t in table && table[t] > now :: table[t]
  }

  /** INSERT OR IGNORE on the primary key: a row already there is left as it is. */
  function InsertOrIgnore(table: Expiries, t: Token, expiry: int): (next: Expiries)
    ensures next.Keys == table.Keys + {t}
    ensures forall u :: u in table ==> next[u] == table[u]
    ensures t !in table ==> next[t] == expiry
  {
    if t in table then table else table[t := expiry]
  }

  // ---- The service ----

  class RevokedTokens {
    var rows: Expiries

    constructor ()
      ensures rows == map[]
    {
      rows := map[];
    }
  }

  // HS256 keys have at least 64 bytes.
  const MIN_JWT_KEY_LENGTH := 64

  datatype Claims = Claims(
    adminID: nat, username: string, isSuperAdmin: bool, mustChangePassword: bool, permissions: nat, exp: int)

  /** What the validator says of the administrator, if there is a validator. */
  datatype AdminState = NoValidator | Unknown | Known(isActive: bool, isSuperAdmin: bool, mustChangePassword: bool)

  class TokenService {
    const accessTokenTTL: int
    var blacklist: Expiries
    const db: RevokedTokens?

    constructor (accessTTL: int, db: RevokedTokens?, now: int, missed: set<Token>)
      ensures accessTokenTTL == accessTTL && this.db == db
      ensures blacklist == if db == null then map[] else Reloaded(map[], db.rows - missed, now)
    {
      this.accessTokenTTL := accessTTL;
      this.db := db;
      this.blacklist := map[];
      new;
      LoadBlacklistFromDB(now, missed);
    }

    /** No service is made with a short secret. */
    static method NewTokenService(secretLength: nat, accessTTL: int, db: RevokedTokens?, now: int, missed: set<Token>)
      returns (ts: TokenService?)
      ensures ts == null <==> secretLength < 64
      ensures ts != null ==>
                && fresh(ts) && ts.accessTokenTTL == accessTTL && ts.db == db
                && ts.blacklist == if db == null then map[] else Reloaded(map[], db.rows - missed, now)
    {
      if secretLength < MIN_JWT_KEY_LENGTH {
        return null;
      }
      ts := new TokenService(accessTTL, db, now, missed);
    }

    /** The query's error is ignored: the rows it does not deliver are missed. */
    method LoadBlacklistFromDB(now: int, missed: set<Token>)
      modifies this`blacklist
      ensures blacklist == if db == null then old(blacklist) else Reloaded(old(blacklist), db.rows - missed, now)
    {
      if db == null {
        return;
      }
      var found := db.rows - missed;
      var entries := map t | t in found && found[t] > now :: found[t];
      var left := entries.Keys;
      while left != {}
        invariant left <= entries.Keys
        invariant blacklist == old(blacklist) + map t | t in entries && t !in left :: entries[t]
      {
        var t :| t in left;
        blacklist := blacklist[t := entries[t]];
        left := left - {t};
      }
    }

    /** One tick of cleanupBlacklist: the map is walked in any order, and the table's deletion may fail. */
    method CleanupTick(now: int, deleteFails: bool)
      modifies this`blacklist, db
      ensures blacklist == Trimmed(old(blacklist), now)
      ensures db != null ==> db.rows == if deleteFails then old(db.rows) else Trimmed(old(db.rows), now)
    {
      var left := blacklist.Keys;
      while left != {}
        invariant left <= blacklist.Keys
        invariant db != null ==> db.rows == old(db.rows)
        invariant blacklist ==
                  map t | t in old(blacklist) && (t in left || old(blacklist)[t] >= now) :: old(blacklist)[t]
      {
        var t :| t in left;
        if now > blacklist[t] {
          blacklist := blacklist - {t};
        }
        left := left - {t};
      }
      if db != null && !deleteFails {
        db.rows := Trimmed(db.rows, now);
      }
    }

    /** The insertion's error is ignored too. */
    method BlacklistAccessToken(token: Token, now: int, insertFails: bool)
      modifies this`blacklist, db
      ensures blacklist == old(blacklist)[token := now + accessTokenTTL]
      ensures db != null ==>
                db.rows == if insertFails then old(db.rows)
                           else InsertOrIgnore(old(db.rows), token, now + accessTokenTTL)
      ensures db != null && !insertFails ==>
                && db.rows.Keys == old(db.rows).Keys + {token}
                && (forall t :: t in old(db.rows) ==> db.rows[t] == old(db.rows)[t])
                && (token !in old(db.rows) ==> db.rows[token] == now + accessTokenTTL)
    {
      var expiry := now + accessTokenTTL;
      blacklist := blacklist[token := expiry];
      if db != null && !insertFails {
        db.rows := InsertOrIgnore(db.rows, token, expiry);
      }
    }

    /** `parsed` are the claims, if the token parses under the service's key; `admin` is what the
        validator answers for them. */
    method ValidateAccessToken(token: Token, parsed: Option<Claims>, admin: AdminState, now: int)
      returns (claims: Option<Claims>)
      ensures claims.Some? <==>
              && token !in blacklist && parsed.Some? && now < parsed.value.exp
              && (admin.NoValidator? || (admin.Known? && admin.isActive))
      ensures claims.Some? ==>
                && claims.value.adminID == parsed.value.adminID && claims.value.username == parsed.value.username
                && claims.value.permissions == parsed.value.permissions && claims.value.exp == parsed.value.exp
                && (admin.NoValidator? ==> claims.value == parsed.value)
                && (admin.Known? ==>
                      && claims.value.isSuperAdmin == admin.isSuperAdmin
                      && claims.value.mustChangePassword == admin.mustChangePassword)
    {
      var revoked := token in blacklist;
      if revoked {
        return None;
      }
      if parsed.None? || now >= parsed.value.exp {
        return None;
      }
      var current := parsed.value;
      if !admin.NoValidator? {
        if admin.Unknown? {
          return None;
        }
        if !admin.isActive {
          return None;
        }
        current := current.(isSuperAdmin := admin.isSuperAdmin, mustChangePassword := admin.mustChangePassword);
      }
      return Some(current);
    }
  }

  // ---- Runs, one lock or table statement at a time ----

  /** Issue time and exp claim of a token. */
  datatype Grant = Grant(issuedAt: int, exp: int)

  /** A call of BlacklistAccessToken that has written memory and not yet returned. */
  datatype Call = Call(token: Token, expiry: int)

  datatype State = State(
    now: int,
    ttl: int,
    hasDB: bool,
    issued: map<Token, Grant>,
    seen: set<Token>,        // every string ever issued or presented
    blacklist: Expiries,
    table: Expiries,
    calls: set<Call>,
    revoked: set<Token>      // tokens for which a call of BlacklistAccessToken has returned
  )

  datatype Event =
    | Tick(now: int)
    | Issue(token: Token, exp: int)
    | MemoryInsert(token: Token, at: int)
    | TableInsert(call: Call, fails: bool)
    | MemoryCleanup(at: int)
    | TableCleanup(at: int, fails: bool)
    | Restart(ttl: int, missed: set<Token>)

  /** `at` is a clock reading the thread took earlier; a token is presented only after it was
      issued, and a fresh token is a string never seen before. The library may round exp down. */
  predicate Enabled(s: State, e: Event) {
    match e
    case Tick(now) => s.now <= now
    case Issue(t, exp) => t !in s.seen && exp <= s.now + s.ttl
    case MemoryInsert(t, at) => at <= s.now && (t in s.issued ==> s.issued[t].issuedAt <= at)
    case TableInsert(call, _) => call in s.calls
    case MemoryCleanup(at) => at <= s.now
    case TableCleanup(at, _) => at <= s.now
    case Restart(_, _) => true
  }

  function Apply(s: State, e: Event): State {
    match e
    case Tick(now) => s.(now := now)
    case Issue(t, exp) => s.(issued := s.issued[t := Grant(s.now, exp)], seen := s.seen + {t})
    case MemoryInsert(t, at) =>
      s.(blacklist := s.blacklist[t := at + s.ttl], calls := s.calls + {Call(t, at + s.ttl)}, seen := s.seen + {t})
    case TableInsert(call, fails) =>
      s.(table := if s.hasDB && !fails then InsertOrIgnore(s.table, call.token, call.expiry) else s.table,
         calls := s.calls - {call},
         revoked := s.revoked + {call.token})
    case MemoryCleanup(at) => s.(blacklist := Trimmed(s.blacklist, at))
    case TableCleanup(at, fails) => s.(table := if s.hasDB && !fails then Trimmed(s.table, at) else s.table)
    case Restart(ttl, missed) =>
      s.(ttl := ttl, blacklist := if s.hasDB then Reloaded(map[], s.table - missed, s.now) else map[], calls := {})
  }

  predicate Run(s: State, es: seq<Event>)
    decreases es
  {
    es == [] || (Enabled(s, es[0]) && Run(Apply(s, es[0]), es[1..]))
  }

  function Final(s: State, es: seq<Event>): State
    decreases es
  {
    if es == [] then s else Final(Apply(s, es[0]), es[1..])
  }

  function Start(now: int, ttl: int, hasDB: bool): State {
    State(now, ttl, hasDB, map[], {}, map[], map[], {}, {})
  }

  /** ValidateAccessToken as two readings: the blacklist in state s, then exp against a later clock. */
  predicate Accepts(s: State, t: Token, later: int)
    requires s.now <= later
  {
    t !in s.blacklist && t in s.issued && later < s.issued[t].exp
  }

  /** Restarts read the whole of a table and never shorten the token lifetime, and insertions into it
      succeed. */
  predicate Steady(s: State, e: Event) {
    && (e.Restart? ==> s.hasDB && s.ttl <= e.ttl && e.missed == {})
    && (e.TableInsert? ==> s.hasDB ==> !e.fails)
  }

  predicate SteadyRun(s: State, es: seq<Event>)
    decreases es
  {
    es == [] || (Steady(s, es[0]) && SteadyRun(Apply(s, es[0]), es[1..]))
  }

  // ---- The invariant ----

  /** Every record of a token, wherever it is kept, lasts at least as long as the token. */
  ghost predicate RecordsOutlive(s: State) {
    && (forall t :: t in s.issued && t in s.blacklist ==> s.issued[t].exp <= s.blacklist[t])
    && (forall t :: t in s.issued && t in s.table ==> s.issued[t].exp <= s.table[t])
    && (forall c :: c in s.calls && c.token in s.issued ==> s.issued[c.token].exp <= c.expiry)
  }

  ghost predicate Recorded(s: State, t: Token) {
    t in s.blacklist && (s.hasDB ==> t in s.table)
  }

  ghost predicate Inv(s: State) {
    && RecordsOutlive(s)
    && s.issued.Keys <= s.seen && s.blacklist.Keys <= s.seen && s.table.Keys <= s.seen && s.revoked <= s.seen
    && (forall c :: c in s.calls ==> c.token in s.seen)
    && (forall t :: t in s.issued ==> s.issued[t].issuedAt <= s.now && s.issued[t].exp <= s.issued[t].issuedAt + s.ttl)
    && (forall c :: c in s.calls && c.token in s.issued && s.now < s.issued[c.token].exp ==> c.token in s.blacklist)
    && (forall t :: t in s.revoked && t in s.issued && s.now < s.issued[t].exp ==> Recorded(s, t))
  }

  lemma CleanupsKeepInv(s: State, e: Event)
    requires Inv(s) && Enabled(s, e) && (e.MemoryCleanup? || e.TableCleanup?)
    ensures Inv(Apply(s, e))
  {
  }

  lemma MemoryInsertKeepsInv(s: State, t: Token, at: int)
    requires Inv(s) && Enabled(s, MemoryInsert(t, at))
    ensures Inv(Apply(s, MemoryInsert(t, at)))
  {
    var s' := Apply(s, MemoryInsert(t, at));
    assert t in s.issued ==> s.issued[t].exp <= at + s.ttl;
    assert RecordsOutlive(s');
  }

  lemma TableInsertKeepsInv(s: State, e: Event)
    requires Inv(s) && e.TableInsert? && Enabled(s, e) && Steady(s, e)
    ensures Inv(Apply(s, e))
  {
    assert RecordsOutlive(Apply(s, e));
  }

  lemma RestartKeepsInv(s: State, ttl: int)
    requires Inv(s) && s.hasDB && s.ttl <= ttl
    ensures Inv(Apply(s, Restart(ttl, {})))
  {
    assert s.table - {} == s.table;
    assert RecordsOutlive(Apply(s, Restart(ttl, {})));
  }

  lemma StepKeepsInv(s: State, e: Event)
    requires Inv(s) && Enabled(s, e) && Steady(s, e)
    ensures Inv(Apply(s, e))
  {
    match e
    case Tick(_) =>
    case Issue(_, _) =>
    case MemoryInsert(t, at) => MemoryInsertKeepsInv(s, t, at);
    case TableInsert(_, _) => TableInsertKeepsInv(s, e);
    case MemoryCleanup(_) => CleanupsKeepInv(s, e);
    case TableCleanup(_, _) => CleanupsKeepInv(s, e);
    case Restart(ttl, _) => RestartKeepsInv(s, ttl);
  }

  lemma {:induction false} RunKeepsInv(s: State, es: seq<Event>)
    requires Inv(s) && Run(s, es) && SteadyRun(s, es)
    ensures Inv(Final(s, es))
    decreases es
  {
    if es != [] {
      StepKeepsInv(s, es[0]);
      RunKeepsInv(Apply(s, es[0]), es[1..]);
    }
  }

  /** Revocation is never forgotten: in any interleaving of issuing, blacklisting, both cleanups and
      steady restarts, a token whose blacklisting has returned is never accepted again. */
  lemma RevocationIsNeverForgotten(now: int, ttl: int, hasDB: bool, es: seq<Event>, t: Token, later: int)
    requires Run(Start(now, ttl, hasDB), es) && SteadyRun(Start(now, ttl, hasDB), es)
    requires Final(Start(now, ttl, hasDB), es).now <= later
    requires t in Final(Start(now, ttl, hasDB), es).revoked
    ensures !Accepts(Final(Start(now, ttl, hasDB), es), t, later)
  {
    RunKeepsInv(Start(now, ttl, hasDB), es);
  }

  /** The revoked set only grows, so "has returned" is a property of the past. */
  lemma {:induction false} RevokedGrows(s: State, es: seq<Event>)
    requires Run(s, es)
    ensures s.revoked <= Final(s, es).revoked
    ensures s.now <= Final(s, es).now
    decreases es
  {
    if es != [] {
      RevokedGrows(Apply(s, es[0]), es[1..]);
    }
  }

  // ---- Where the conditions come from ----

  /** Without a table a restart accepts every unexpired token again, revoked or not. */
  lemma RestartWithoutTableForgets(s: State, t: Token, ttl: int, missed: set<Token>)
    requires !s.hasDB && t in s.issued
    ensures var s' := Final(s, [Restart(ttl, missed)]);
            Run(s, [Restart(ttl, missed)]) && s'.revoked == s.revoked &&
            (Accepts(s', t, s'.now) <==> s.now < s.issued[t].exp)
  {
    assert [Restart(ttl, missed)][1..] == [];
  }

  /** An entry that expires too soon is dropped while the token is still good: when the lifetime was
      shortened between issuing and blacklisting, a cleanup forgets the revocation, and it can do so
      exactly when some instant lies strictly between the entry's expiry and the token's exp. */
  lemma ShortEntryForgottenExactly(s: State, t: Token)
    requires t in s.issued && t in s.blacklist
    ensures (exists at :: s.now <= at && var s' := Final(s, [Tick(at), MemoryCleanup(at)]);
                                         s'.now == at && Accepts(s', t, at))
            <==> s.now < s.issued[t].exp && s.blacklist[t] + 1 < s.issued[t].exp
  {
    forall at | s.now <= at
      ensures var s' := Final(s, [Tick(at), MemoryCleanup(at)]);
              s'.now == at && (Accepts(s', t, at) <==> s.blacklist[t] < at < s.issued[t].exp)
    {
      TwoSteps(s, Tick(at), MemoryCleanup(at));
    }
    var at := if s.now <= s.blacklist[t] then s.blacklist[t] + 1 else s.now;
    TwoSteps(s, Tick(at), MemoryCleanup(at));
  }

  /** A restart drops the row at the very instant it expires, one earlier than a cleanup would: it can
      forget a revocation exactly when the row does not last as long as the token. */
  lemma RestartForgetsExactly(s: State, t: Token)
    requires t in s.issued
    ensures (exists at, ttl :: s.now <= at && var s' := Final(s, [Tick(at), Restart(ttl, {})]);
                                              s'.now == at && Accepts(s', t, at))
            <==> s.now < s.issued[t].exp && (s.hasDB && t in s.table ==> s.table[t] < s.issued[t].exp)
  {
    forall at, ttl | s.now <= at
      ensures var s' := Final(s, [Tick(at), Restart(ttl, {})]);
              s'.now == at && (Accepts(s', t, at) <==>
                               at < s.issued[t].exp && (s.hasDB && t in s.table ==> s.table[t] <= at))
    {
      TwoSteps(s, Tick(at), Restart(ttl, {}));
      assert s.table - {} == s.table;
    }
    var at := if s.hasDB && t in s.table && s.now < s.table[t] then s.table[t] else s.now;
    TwoSteps(s, Tick(at), Restart(s.ttl, {}));
  }

  /** A call that nothing interrupts does to the two stores what BlacklistAccessToken ensures. */
  lemma UninterruptedCall(s: State, t: Token)
    requires t in s.issued ==> s.issued[t].issuedAt <= s.now
    ensures var e := s.now + s.ttl;
            var call := [MemoryInsert(t, s.now), TableInsert(Call(t, e), false)];
            var s' := Final(s, call);
            && Run(s, call)
            && s'.blacklist == s.blacklist[t := e]
            && s'.table == (if s.hasDB then InsertOrIgnore(s.table, t, e) else s.table)
            && t in s'.revoked
  {
    var call := [MemoryInsert(t, s.now), TableInsert(Call(t, s.now + s.ttl), false)];
    TwoSteps(s, call[0], call[1]);
    assert call[1..] == [call[1]] && call[1..][1..] == [];
    assert Run(Apply(s, call[0]), call[1..]);
  }

  /** A tick of the cleanup that nothing interrupts does what CleanupTick ensures. */
  lemma UninterruptedTick(s: State, fails: bool)
    ensures var s' := Final(s, [MemoryCleanup(s.now), TableCleanup(s.now, fails)]);
            && (forall t :: t in s'.blacklist <==> t in s.blacklist && s.now <= s.blacklist[t])
            && (forall t :: t in s'.blacklist ==> s'.blacklist[t] == s.blacklist[t])
            && (!s.hasDB || fails ==> s'.table == s.table)
            && (s.hasDB && !fails ==>
                  && (forall t :: t in s'.table <==> t in s.table && s.now <= s.table[t])
                  && (forall t :: t in s'.table ==> s'.table[t] == s.table[t]))
            && s'.issued == s.issued && s'.revoked == s.revoked
  {
    TwoSteps(s, MemoryCleanup(s.now), TableCleanup(s.now, fails));
  }

  /** A restart begins with the unexpired rows that the query delivers, and with nothing else. */
  lemma RestartLoads(s: State, ttl: int, missed: set<Token>)
    ensures var s' := Apply(s, Restart(ttl, missed));
            && s'.ttl == ttl && s'.table == s.table && s'.calls == {}
            && s'.issued == s.issued && s'.revoked == s.revoked
            && (forall t :: t in s'.blacklist <==> s.hasDB && t in s.table && t !in missed && s.now < s.table[t])
            && (forall t :: t in s'.blacklist ==> s'.blacklist[t] == s.table[t])
  {
  }

  lemma TwoSteps(s: State, e: Event, f: Event)
    ensures Final(s, [e, f]) == Apply(Apply(s, e), f)
  {
    assert [e, f][1..] == [f] && [f][1..] == [];
    assert Final(Apply(s, e), [f]) == Apply(Apply(s, e), f);
  }

  // ---- Exactly which deployments never forget ----

  /** The lifetime at first and after every restart, whether there is a table, and whether insertions
      and reloads may fail. */
  datatype Deployment = Deployment(ttl: int, nextTTL: int, hasDB: bool, insertsFail: bool, loadsFail: bool)

  predicate Allowed(d: Deployment, e: Event) {
    match e
    case Restart(ttl, missed) => ttl == d.nextTTL && (missed != {} ==> d.loadsFail)
    case TableInsert(_, fails) => fails ==> d.insertsFail
    case _ => true
  }

  predicate AllAllowed(d: Deployment, es: seq<Event>) { forall k :: 0 <= k < |es| ==> Allowed(d, es[k]) }

  function Deployed(d: Deployment, now: int): State { Start(now, d.ttl, d.hasDB) }

  /** One run does not forget one token. */
  ghost predicate Remembers(d: Deployment, now: int, es: seq<Event>, t: Token, later: int) {
    Run(Deployed(d, now), es) && AllAllowed(d, es) ==>
      var s := Final(Deployed(d, now), es);
      s.now <= later && t in s.revoked ==> !Accepts(s, t, later)
  }

  predicate Careful(d: Deployment) { d.hasDB && d.ttl <= d.nextTTL && !d.insertsFail && !d.loadsFail }

  /** A deployment never forgets a revocation exactly when it keeps a table that is always written and
      read, and does not shorten the token lifetime; or when no token is ever good. */
  lemma RememberedExactly(d: Deployment)
    ensures (forall now, es, t, later :: Remembers(d, now, es, t, later))
            <==> Careful(d) || (d.ttl <= 0 && d.nextTTL <= 0)
  {
    if Careful(d) || (d.ttl <= 0 && d.nextTTL <= 0) {
      forall now, es, t, later ensures Remembers(d, now, es, t, later) {
        if Run(Deployed(d, now), es) && AllAllowed(d, es) {
          if Careful(d) {
            CarefulRunsAreSteady(d, Deployed(d, now), es);
            RunKeepsInv(Deployed(d, now), es);
          } else {
            BarrenRuns(d, Deployed(d, now), es);
          }
        }
      }
    } else if d.hasDB && !d.insertsFail && !d.loadsFail {
      ShortenedRunForgets(d);
      assert !Remembers(d, 0, ShortenedRun(d), "token", NonNegative(d.nextTTL));
    } else {
      LossyRunForgets(d);
      assert !Remembers(d, 0, LossyRun(d), "token", 0);
    }
  }

  lemma {:induction false} CarefulRunsAreSteady(d: Deployment, s: State, es: seq<Event>)
    requires Careful(d) && AllAllowed(d, es) && s.hasDB && (s.ttl == d.ttl || s.ttl == d.nextTTL)
    ensures SteadyRun(s, es)
    decreases es
  {
    if es != [] {
      assert Allowed(d, es[0]);
      CarefulRunsAreSteady(d, Apply(s, es[0]), es[1..]);
    }
  }

  lemma {:induction false} BarrenRuns(d: Deployment, s: State, es: seq<Event>)
    requires d.ttl <= 0 && d.nextTTL <= 0 && s.ttl <= 0
    requires Run(s, es) && AllAllowed(d, es) && forall t :: t in s.issued ==> s.issued[t].exp <= s.now
    ensures forall t :: t in Final(s, es).issued ==> Final(s, es).issued[t].exp <= Final(s, es).now
    decreases es
  {
    if es != [] {
      assert Allowed(d, es[0]);
      BarrenRuns(d, Apply(s, es[0]), es[1..]);
    }
  }

  lemma RunThen(s: State, e: Event, es: seq<Event>)
    ensures Run(s, [e] + es) <==> Enabled(s, e) && Run(Apply(s, e), es)
    ensures Final(s, [e] + es) == Final(Apply(s, e), es)
  {
    assert ([e] + es)[1..] == es;
  }

  function NonNegative(n: int): nat { if n < 0 then 0 else n }

  /** Issued under the longer lifetime, revoked under the shorter one, and dropped by a second restart
      at the instant the row expires. */
  function ShortenedRun(d: Deployment): seq<Event> {
    [Issue("token", d.ttl)] + ([Restart(d.nextTTL, {})] + ([MemoryInsert("token", 0)] +
      ([TableInsert(Call("token", d.nextTTL), false)] +
        ([Tick(NonNegative(d.nextTTL))] + ([Restart(d.nextTTL, {})] + [])))))
  }

  lemma ShortenedRunForgets(d: Deployment)
    requires d.hasDB && d.nextTTL < d.ttl && 0 < d.ttl
    ensures !Remembers(d, 0, ShortenedRun(d), "token", NonNegative(d.nextTTL))
  {
    hide Run, Final;
    var call := Call("token", d.nextTTL);
    var s0 := Deployed(d, 0);
    var s1 := Apply(s0, Issue("token", d.ttl));
    var s2 := Apply(s1, Restart(d.nextTTL, {}));
    var s3 := Apply(s2, MemoryInsert("token", 0));
    var s4 := Apply(s3, TableInsert(call, false));
    var s5 := Apply(s4, Tick(NonNegative(d.nextTTL)));
    var s6 := Apply(s5, Restart(d.nextTTL, {}));
    var e6 := [Restart(d.nextTTL, {})] + [];
    var e5 := [Tick(NonNegative(d.nextTTL))] + e6;
    var e4 := [TableInsert(call, false)] + e5;
    var e3 := [MemoryInsert("token", 0)] + e4;
    var e2 := [Restart(d.nextTTL, {})] + e3;
    RunThen(s0, Issue("token", d.ttl), e2);
    RunThen(s1, Restart(d.nextTTL, {}), e3);
    RunThen(s2, MemoryInsert("token", 0), e4);
    RunThen(s3, TableInsert(call, false), e5);
    RunThen(s4, Tick(NonNegative(d.nextTTL)), e6);
    RunThen(s5, Restart(d.nextTTL, {}), []);
    NoMoreEvents(s6);
    assert "token" in s6.revoked && "token" !in s6.blacklist;
  }

  lemma NoMoreEvents(s: State)
    ensures Run(s, []) && Final(s, []) == s
  {
  }

  /** The longer of the two lifetimes is what a token is issued with, after a restart if need be; its
      row is not written, not kept or not read. */
  function LossyRun(d: Deployment): seq<Event> {
    var ttl := if d.ttl > 0 then d.ttl else d.nextTTL;
    (if d.ttl > 0 then [] else [Restart(d.nextTTL, {})]) + LossyTail(d, ttl)
  }

  function LossyTail(d: Deployment, ttl: int): seq<Event> {
    [Issue("token", ttl)] + ([MemoryInsert("token", 0)] + ([TableInsert(Call("token", ttl), d.insertsFail)] +
      ([Restart(d.nextTTL, if d.loadsFail then {"token"} else {})] + [])))
  }

  lemma LossyRunForgets(d: Deployment)
    requires (!d.hasDB || d.insertsFail || d.loadsFail) && (0 < d.ttl || 0 < d.nextTTL)
    ensures !Remembers(d, 0, LossyRun(d), "token", 0)
  {
    hide Run, Final;
    if d.ttl > 0 {
      assert LossyRun(d) == LossyTail(d, d.ttl);
      LossyTailForgets(d, Deployed(d, 0));
    } else {
      var s := Apply(Deployed(d, 0), Restart(d.nextTTL, {}));
      var empty: Expiries := map[];
      assert empty - {} == empty;
      RunThen(Deployed(d, 0), Restart(d.nextTTL, {}), LossyTail(d, d.nextTTL));
      LossyTailForgets(d, s);
    }
  }

  lemma LossyTailForgets(d: Deployment, s: State)
    requires !d.hasDB || d.insertsFail || d.loadsFail
    requires 0 < s.ttl && s == Start(0, s.ttl, d.hasDB)
    ensures Run(s, LossyTail(d, s.ttl)) && AllAllowed(d, LossyTail(d, s.ttl))
    ensures var end := Final(s, LossyTail(d, s.ttl));
            end.now == 0 && "token" in end.revoked && Accepts(end, "token", 0)
  {
    hide Run, Final;
    var call := Call("token", s.ttl);
    var missed: set<Token> := if d.loadsFail then {"token"} else {};
    var s1 := Apply(s, Issue("token", s.ttl));
    var s2 := Apply(s1, MemoryInsert("token", 0));
    var s3 := Apply(s2, TableInsert(call, d.insertsFail));
    var s4 := Apply(s3, Restart(d.nextTTL, missed));
    var e4 := [Restart(d.nextTTL, missed)] + [];
    var e3 := [TableInsert(call, d.insertsFail)] + e4;
    var e2 := [MemoryInsert("token", 0)] + e3;
    RunThen(s, Issue("token", s.ttl), e2);
    RunThen(s1, MemoryInsert("token", 0), e3);
    RunThen(s2, TableInsert(call, d.insertsFail), e4);
    RunThen(s3, Restart(d.nextTTL, missed), []);
    NoMoreEvents(s4);
    assert "token" in s4.revoked && "token" !in s4.blacklist;
  }
}
