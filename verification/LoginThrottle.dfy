/** The sliding-window login throttle shared by Login and SessionLogin
    (backend/internal/api/auth.go). The table stamps a row with CURRENT_TIMESTAMP, which is coarser
    than the clock the window is measured with. */
module LoginThrottle {

  const LIMIT := 5

  /** The granularity of a row's timestamp in the clock's own unit, the window as a whole number of
      such steps (fifteen minutes are 900 seconds), and how long retention keeps rows. */
  datatype Settings = Settings(steps: int, precision: int, retention: int) {
    function Window(): int { precision * steps }

    predicate Valid() { 0 < precision && 0 < steps && Window() <= retention }
  }

  /** A row of login_attempts; `moment` is when it was written, which the row itself has lost. */
  datatype Attempt = Attempt(ip: string, success: bool, attemptedAt: int, moment: int)

  datatype Reply = TooManyRequests | Unauthorized | RequiresTOTP | ServerError | LoggedIn

  /** What the handler finds out about one request, its two clock readings, and whether the table
      answers it. */
  datatype Request = Request(
    ip: string,
    adminFound: bool,
    passwordValid: bool,
    totpEnabled: bool,
    totpGiven: bool,
    totpValid: bool,
    tokensStored: bool,
    counted: int,
    recorded: int,
    countFails: bool,
    recordFails: bool
  )

  function Stamp(precision: int, t: int): (s: int)
    requires 0 < precision
    ensures t - precision < s <= t
  {
    precision * (t / precision)
  }

  predicate Failure(a: Attempt, ip: string) { a.ip == ip && !a.success }

  function CountFailed(attempts: seq<Attempt>, ip: string, since: int): nat {
    if attempts == [] then 0
    else
      var last := attempts[|attempts| - 1];
      CountFailed(attempts[..|attempts| - 1], ip, since)
      + if Failure(last, ip) && last.attemptedAt > since then 1 else 0
  }

  /** A count that fails is ignored, and counts as none. */
  function Blocked(attempts: seq<Attempt>, r: Request, c: Settings): bool {
    !r.countFails && CountFailed(attempts, r.ip, r.counted - c.Window()) >= LIMIT
  }

  /** The answer to a request that is not blocked. */
  function Outcome(r: Request): Reply {
    if !r.adminFound || !r.passwordValid then Unauthorized
    else if r.totpEnabled && !r.totpGiven then RequiresTOTP
    else if r.totpEnabled && !r.totpValid then Unauthorized
    else if !r.tokensStored then ServerError
    else LoggedIn
  }

  /** The row a request leaves behind, if any: refusals and successes are recorded, and a failure to
      record them is only logged. */
  function NewRows(r: Request, c: Settings): seq<Attempt>
    requires c.Valid()
  {
    if r.recordFails then []
    else if Outcome(r) == Unauthorized then [Attempt(r.ip, false, Stamp(c.precision, r.recorded), r.recorded)]
    else if Outcome(r) == LoggedIn then [Attempt(r.ip, true, Stamp(c.precision, r.recorded), r.recorded)]
    else []
  }

  // ---- The same without the functions ----

  /** The failures of one address stamped after an instant, by their places in the table. */
  ghost function Recent(attempts: seq<Attempt>, ip: string, since: int): set<nat> {
    Where(attempts, (a: Attempt) => a.ip == ip && !a.success && a.attemptedAt > since)
  }

  ghost function Where(log: seq<Attempt>, p: Attempt -> bool): set<nat> { set i: nat | i < |log| && p(log[i]) }

  lemma WhereNext(log: seq<Attempt>, p: Attempt -> bool)
    requires log != []
    ensures |Where(log, p)| == |Where(log[..|log| - 1], p)| + if p(log[|log| - 1]) then 1 else 0
  {
    var n: nat := |log| - 1;
    var before := Where(log[..n], p);
    assert Where(log, p) == if p(log[n]) then before + {n} else before;
  }

  lemma {:induction false} CountExactly(attempts: seq<Attempt>, ip: string, since: int)
    ensures CountFailed(attempts, ip, since) == |Recent(attempts, ip, since)|
  {
    if attempts != [] {
      CountExactly(attempts[..|attempts| - 1], ip, since);
      WhereNext(attempts, (a: Attempt) => a.ip == ip && !a.success && a.attemptedAt > since);
    }
  }

  /** A request is turned away exactly when its count works and finds five failures in the window. */
  lemma BlockedExactly(attempts: seq<Attempt>, r: Request, c: Settings)
    ensures Blocked(attempts, r, c) <==>
            !r.countFails && |Recent(attempts, r.ip, r.counted - c.precision * c.steps)| >= 5
  {
    CountExactly(attempts, r.ip, r.counted - c.precision * c.steps);
  }

  /** A row about the request: stamped with the last whole step before it was written. */
  ghost predicate IsRecord(a: Attempt, r: Request, success: bool, precision: int)
    requires 0 < precision
  {
    && a.ip == r.ip && a.success == success && a.moment == r.recorded
    && (exists steps :: a.attemptedAt == Elapsed(precision, steps))
    && r.recorded - precision < a.attemptedAt <= r.recorded
  }

  function Elapsed(precision: int, steps: int): int { precision * steps }

  /** Who gets which answer, and what it leaves behind. */
  lemma AnsweredExactly(r: Request, c: Settings)
    requires c.Valid()
    ensures Outcome(r) == LoggedIn <==>
            r.adminFound && r.passwordValid && (r.totpEnabled ==> r.totpGiven && r.totpValid) && r.tokensStored
    ensures Outcome(r) == RequiresTOTP <==> r.adminFound && r.passwordValid && r.totpEnabled && !r.totpGiven
    ensures Outcome(r) == Unauthorized <==>
            !r.adminFound || !r.passwordValid || (r.totpEnabled && r.totpGiven && !r.totpValid)
    ensures if (Outcome(r) == LoggedIn || Outcome(r) == Unauthorized) && !r.recordFails
            then |NewRows(r, c)| == 1 && IsRecord(NewRows(r, c)[0], r, Outcome(r) == LoggedIn, c.precision)
            else NewRows(r, c) == []
  {
    assert Stamp(c.precision, r.recorded) == Elapsed(c.precision, r.recorded / c.precision);
  }

  class AuthHandler {
    var loginAttempts: seq<Attempt>
    const settings: Settings

    constructor (settings: Settings)
      ensures this.settings == settings && loginAttempts == []
    {
      this.settings := settings;
      this.loginAttempts := [];
    }

    method CreateAttempt(ip: string, success: bool, now: int, fails: bool)
      requires settings.Valid()
      modifies this
      ensures loginAttempts == old(loginAttempts) +
                if fails then [] else [Attempt(ip, success, Stamp(settings.precision, now), now)]
    {
      if fails {
        return;
      }
      loginAttempts := loginAttempts + [Attempt(ip, success, Stamp(settings.precision, now), now)];
    }

    /** The guard, the credential checks and the records of Login; SessionLogin runs the same ones. */
    method Login(r: Request) returns (reply: Reply)
      requires settings.Valid()
      modifies this
      ensures reply == if Blocked(old(loginAttempts), r, settings) then TooManyRequests else Outcome(r)
      ensures loginAttempts == old(loginAttempts) +
                if Blocked(old(loginAttempts), r, settings) then [] else NewRows(r, settings)
      ensures reply == TooManyRequests <==>
              !r.countFails && |Recent(old(loginAttempts), r.ip, r.counted - settings.precision * settings.steps)| >= 5
      ensures reply != TooManyRequests ==>
                && (reply == LoggedIn <==>
                    r.adminFound && r.passwordValid && (r.totpEnabled ==> r.totpGiven && r.totpValid) && r.tokensStored)
                && (reply == RequiresTOTP <==> r.adminFound && r.passwordValid && r.totpEnabled && !r.totpGiven)
                && (reply == Unauthorized <==>
                    !r.adminFound || !r.passwordValid || (r.totpEnabled && r.totpGiven && !r.totpValid))
                && (reply == ServerError <==>
                    r.adminFound && r.passwordValid && (r.totpEnabled ==> r.totpGiven && r.totpValid)
                    && !r.tokensStored)
      ensures if (reply == LoggedIn || reply == Unauthorized) && !r.recordFails
              then |loginAttempts| == |old(loginAttempts)| + 1 && old(loginAttempts) <= loginAttempts
                   && IsRecord(loginAttempts[|loginAttempts| - 1], r, reply == LoggedIn, settings.precision)
              else loginAttempts == old(loginAttempts)
    {
      BlockedExactly(loginAttempts, r, settings);
      AnsweredExactly(r, settings);
      var failedCount := if r.countFails then 0 else CountFailed(loginAttempts, r.ip, r.counted - settings.Window());
      if failedCount >= LIMIT {
        return TooManyRequests;
      }
      if !r.adminFound {
        CreateAttempt(r.ip, false, r.recorded, r.recordFails);
        return Unauthorized;
      }
      if !r.passwordValid {
        CreateAttempt(r.ip, false, r.recorded, r.recordFails);
        return Unauthorized;
      }
      if r.totpEnabled {
        if !r.totpGiven {
          return RequiresTOTP;
        }
        if !r.totpValid {
          CreateAttempt(r.ip, false, r.recorded, r.recordFails);
          return Unauthorized;
        }
      }
      if !r.tokensStored {
        return ServerError;
      }
      CreateAttempt(r.ip, true, r.recorded, r.recordFails);
      return LoggedIn;
    }
  }

  // ---- Runs ----

  datatype Event = Handle(request: Request) | Retain(now: int)

  /** Everything ever recorded, the cutoff below which retention has deleted, and the clock. */
  datatype State = State(log: seq<Attempt>, cutoff: int, clock: int)

  /** The table is the log without what retention has deleted. */
  function Table(log: seq<Attempt>, cutoff: int): seq<Attempt> {
    if log == [] then []
    else
      var last := log[|log| - 1];
      Table(log[..|log| - 1], cutoff) + if last.attemptedAt >= cutoff then [last] else []
  }

  predicate Enabled(s: State, e: Event) {
    match e
    case Handle(r) => s.clock <= r.counted <= r.recorded
    case Retain(now) => s.clock <= now
  }

  function Step(s: State, e: Event, c: Settings): State
    requires c.Valid()
  {
    match e
    case Handle(r) =>
      State(s.log + if Blocked(Table(s.log, s.cutoff), r, c) then [] else NewRows(r, c), s.cutoff, r.recorded)
    case Retain(now) =>
      s.(cutoff := if now - c.retention > s.cutoff then now - c.retention else s.cutoff, clock := now)
  }

  predicate Run(s: State, es: seq<Event>, c: Settings)
    requires c.Valid()
    decreases es
  {
    es == [] || (Enabled(s, es[0]) && Run(Step(s, es[0], c), es[1..], c))
  }

  function Final(s: State, es: seq<Event>, c: Settings): State
    requires c.Valid()
    decreases es
  {
    if es == [] then s else Final(Step(s, es[0], c), es[1..], c)
  }

  /** Every count in the run is answered. */
  predicate Counted(es: seq<Event>) {
    forall k :: 0 <= k < |es| ==> es[k].Handle? ==> !es[k].request.countFails
  }

  function Start(clock: int, c: Settings): State { State([], clock - c.retention, clock) }

  // ---- Counting in windows ----

  /** Failures of one address whose recorded time lies after lo and not after hi. */
  function InWindow(log: seq<Attempt>, ip: string, lo: int, hi: int): nat {
    if log == [] then 0
    else
      var last := log[|log| - 1];
      InWindow(log[..|log| - 1], ip, lo, hi) + if Failure(last, ip) && lo < last.attemptedAt <= hi then 1 else 0
  }

  /** The same, by the moments at which the rows were written. */
  function InSpan(log: seq<Attempt>, ip: string, lo: int, hi: int): nat {
    if log == [] then 0
    else
      var last := log[|log| - 1];
      InSpan(log[..|log| - 1], ip, lo, hi) + if Failure(last, ip) && lo < last.moment <= hi then 1 else 0
  }

  lemma CountOneMore(log: seq<Attempt>, x: Attempt, ip: string, since: int)
    ensures CountFailed(log + [x], ip, since) ==
            CountFailed(log, ip, since) + if Failure(x, ip) && x.attemptedAt > since then 1 else 0
  {
    assert (log + [x])[..|log|] == log;
  }

  lemma {:induction false} TableCount(log: seq<Attempt>, cutoff: int, ip: string, since: int)
    requires cutoff <= since + 1
    ensures CountFailed(Table(log, cutoff), ip, since) == CountFailed(log, ip, since)
  {
    if log != [] {
      var n := |log| - 1;
      var before := Table(log[..n], cutoff);
      TableCount(log[..n], cutoff, ip, since);
      CountOneMore(before, log[n], ip, since);
      assert Table(log, cutoff) == if log[n].attemptedAt >= cutoff then before + [log[n]] else before;
    }
  }

  /** A window whose members the guard would count holds no more than the guard counts. */
  lemma {:induction false} WindowCounted(log: seq<Attempt>, ip: string, lo: int, hi: int, since: int)
    requires forall k :: 0 <= k < |log| && log[k].attemptedAt > lo ==> log[k].attemptedAt > since
    ensures InWindow(log, ip, lo, hi) <= CountFailed(log, ip, since)
  {
    if log != [] {
      var n := |log| - 1;
      assert forall k :: 0 <= k < n ==> log[..n][k] == log[k];
      WindowCounted(log[..n], ip, lo, hi, since);
      assert log[n].attemptedAt > lo ==> log[n].attemptedAt > since;
    }
  }

  lemma {:induction false} SpanCounted(log: seq<Attempt>, ip: string, lo: int, hi: int, since: int)
    requires forall k :: 0 <= k < |log| && log[k].moment > lo ==> log[k].attemptedAt > since
    ensures InSpan(log, ip, lo, hi) <= CountFailed(log, ip, since)
  {
    if log != [] {
      var n := |log| - 1;
      assert forall k :: 0 <= k < n ==> log[..n][k] == log[k];
      SpanCounted(log[..n], ip, lo, hi, since);
      assert log[n].moment > lo ==> log[n].attemptedAt > since;
    }
  }

  /** Different multiples of g are at least g apart. */
  lemma MultiplesApart(g: int, p: int, q: int)
    requires 0 < g && g * q > g * p
    ensures g * q >= g * p + g
  {
    var d := q - p;
    assert g * d == g * q - g * p;
    assert d <= 0 ==> g * d <= 0;
    assert g * d == g * (d - 1) + g;
  }

  // ---- The bounds ----

  predicate WindowOK(log: seq<Attempt>, c: Settings, ip: string, lo: int) {
    InWindow(log, ip, lo, lo + c.Window()) <= LIMIT
  }

  predicate SpanOK(log: seq<Attempt>, c: Settings, ip: string, lo: int) {
    InSpan(log, ip, lo, lo + c.Window() - (c.precision - 1)) <= LIMIT
  }

  ghost predicate Inv(s: State, c: Settings)
    requires c.Valid()
  {
    && Stamped(s.log, c.precision)
    && s.cutoff <= s.clock - c.retention
    && (forall ip, lo :: WindowOK(s.log, c, ip, lo))
    && (forall ip, lo :: SpanOK(s.log, c, ip, lo))
  }

  /** Rows are stamped when they are written. */
  predicate Stamped(log: seq<Attempt>, precision: int)
    requires 0 < precision
  {
    forall k :: 0 <= k < |log| ==> log[k].attemptedAt == Stamp(precision, log[k].moment)
  }

  /** The rows of a full window that ends at a new timestamp are all within the guard's view. */
  lemma WindowInView(log: seq<Attempt>, r: Request, c: Settings, ip: string, lo: int)
    requires c.Valid() && r.counted <= r.recorded && Stamped(log, c.precision)
    requires Stamp(c.precision, r.recorded) <= lo + c.Window()
    ensures InWindow(log, ip, lo, lo + c.Window()) <= CountFailed(log, ip, r.counted - c.Window())
  {
    hide InWindow, CountFailed;
    forall k | 0 <= k < |log| && log[k].attemptedAt > lo ensures log[k].attemptedAt > r.counted - c.Window() {
      StampInView(c, r.recorded, log[k].moment, lo);
    }
    WindowCounted(log, ip, lo, lo + c.Window(), r.counted - c.Window());
  }

  /** A timestamp after the start of a window that holds the newest timestamp is less than a window old. */
  lemma StampInView(c: Settings, recorded: int, moment: int, lo: int)
    requires c.Valid() && Stamp(c.precision, recorded) <= lo + c.Window() && lo < Stamp(c.precision, moment)
    ensures Stamp(c.precision, moment) > recorded - c.Window()
  {
    var g := c.precision;
    assert g * (recorded / g - c.steps) == Stamp(g, recorded) - c.Window();
    MultiplesApart(g, recorded / g - c.steps, moment / g);
  }

  /** The moments within a window shorter by one step are all within the guard's view. */
  lemma SpanInView(log: seq<Attempt>, r: Request, c: Settings, ip: string, lo: int)
    requires c.Valid() && r.counted <= r.recorded && Stamped(log, c.precision)
    requires r.recorded <= lo + c.Window() - (c.precision - 1)
    ensures InSpan(log, ip, lo, lo + c.Window() - (c.precision - 1)) <= CountFailed(log, ip, r.counted - c.Window())
  {
    hide InSpan, CountFailed, Settings.Window;
    SpanCounted(log, ip, lo, lo + c.Window() - (c.precision - 1), r.counted - c.Window());
  }

  lemma OneMoreRow(log: seq<Attempt>, x: Attempt, ip: string, lo: int, hi: int)
    ensures InWindow(log + [x], ip, lo, hi) ==
            InWindow(log, ip, lo, hi) + if Failure(x, ip) && lo < x.attemptedAt <= hi then 1 else 0
    ensures InSpan(log + [x], ip, lo, hi) ==
            InSpan(log, ip, lo, hi) + if Failure(x, ip) && lo < x.moment <= hi then 1 else 0
  {
    assert (log + [x])[..|log|] == log;
  }

  /** A counted request that gets past the guard saw fewer than five failures of its address. */
  lemma GuardSawFewer(s: State, r: Request, c: Settings)
    requires c.Valid() && Inv(s, c) && Enabled(s, Handle(r))
    requires !Blocked(Table(s.log, s.cutoff), r, c) && !r.countFails
    ensures CountFailed(s.log, r.ip, r.counted - c.Window()) < LIMIT
  {
    hide Settings.Window, CountFailed, Table, WindowOK, SpanOK, Stamped;
    TableCount(s.log, s.cutoff, r.ip, r.counted - c.Window());
  }

  /** Such a request adds at most the last place of any window of recorded times. */
  lemma RecordKeepsWindow(s: State, r: Request, c: Settings, ip: string, lo: int)
    requires c.Valid() && Inv(s, c) && Enabled(s, Handle(r))
    requires !Blocked(Table(s.log, s.cutoff), r, c) && !r.countFails
    ensures WindowOK(s.log + NewRows(r, c), c, ip, lo)
  {
    hide Settings.Window, InWindow, InSpan, CountFailed, Table, Stamp, Stamped, SpanOK;
    assert WindowOK(s.log, c, ip, lo);
    if NewRows(r, c) == [] {
      assert s.log + NewRows(r, c) == s.log;
    } else {
      var x := NewRows(r, c)[0];
      assert NewRows(r, c) == [x];
      OneMoreRow(s.log, x, ip, lo, lo + c.Window());
      if Failure(x, ip) && lo < x.attemptedAt <= lo + c.Window() {
        GuardSawFewer(s, r, c);
        WindowInView(s.log, r, c, ip, lo);
      }
    }
  }

  /** It adds at most the last place of any window of moments that is shorter by one step. */
  lemma RecordKeepsSpan(s: State, r: Request, c: Settings, ip: string, lo: int)
    requires c.Valid() && Inv(s, c) && Enabled(s, Handle(r))
    requires !Blocked(Table(s.log, s.cutoff), r, c) && !r.countFails
    ensures SpanOK(s.log + NewRows(r, c), c, ip, lo)
  {
    hide Settings.Window, InWindow, InSpan, CountFailed, Table, Stamp, Stamped, WindowOK;
    assert SpanOK(s.log, c, ip, lo);
    if NewRows(r, c) == [] {
      assert s.log + NewRows(r, c) == s.log;
    } else {
      var x := NewRows(r, c)[0];
      assert NewRows(r, c) == [x];
      var hi := lo + c.Window() - (c.precision - 1);
      OneMoreRow(s.log, x, ip, lo, hi);
      if Failure(x, ip) && lo < x.moment <= hi {
        GuardSawFewer(s, r, c);
        SpanInView(s.log, r, c, ip, lo);
      }
    }
  }

  lemma RecordKeepsStamps(log: seq<Attempt>, r: Request, c: Settings)
    requires c.Valid() && Stamped(log, c.precision)
    ensures Stamped(log + NewRows(r, c), c.precision)
  {
    hide Stamp, Settings.Window;
  }

  lemma StepKeepsInv(s: State, e: Event, c: Settings)
    requires c.Valid() && Inv(s, c) && Enabled(s, e) && (e.Handle? ==> !e.request.countFails)
    ensures Inv(Step(s, e, c), c)
  {
    hide Settings.Window, Table, Blocked, NewRows, WindowOK, SpanOK, Stamped;
    if e.Handle? && !Blocked(Table(s.log, s.cutoff), e.request, c) {
      RecordKeepsStamps(s.log, e.request, c);
      forall ip, lo
        ensures WindowOK(s.log + NewRows(e.request, c), c, ip, lo)
        ensures SpanOK(s.log + NewRows(e.request, c), c, ip, lo)
      {
        RecordKeepsWindow(s, e.request, c, ip, lo);
        RecordKeepsSpan(s, e.request, c, ip, lo);
      }
    } else {
      assert Step(s, e, c).log == s.log;
    }
  }

  lemma {:induction false} RunKeepsInv(s: State, es: seq<Event>, c: Settings)
    requires c.Valid() && Inv(s, c) && Run(s, es, c) && Counted(es)
    ensures Inv(Final(s, es, c), c)
    decreases es
  {
    hide Settings.Window, Inv, Step;
    if es != [] {
      assert es[0].Handle? ==> !es[0].request.countFails;
      StepKeepsInv(s, es[0], c);
      RunKeepsInv(Step(s, es[0], c), es[1..], c);
    }
  }

  /** The two tallies count the failures of one address, by their recorded times and by the moments of
      writing. */
  lemma {:induction false} TalliesExactly(log: seq<Attempt>, ip: string, lo: int, hi: int)
    ensures InWindow(log, ip, lo, hi) ==
            |Where(log, (a: Attempt) => a.ip == ip && !a.success && lo < a.attemptedAt <= hi)|
    ensures InSpan(log, ip, lo, hi) == |Where(log, (a: Attempt) => a.ip == ip && !a.success && lo < a.moment <= hi)|
  {
    if log != [] {
      TalliesExactly(log[..|log| - 1], ip, lo, hi);
      WhereNext(log, (a: Attempt) => a.ip == ip && !a.success && lo < a.attemptedAt <= hi);
      WhereNext(log, (a: Attempt) => a.ip == ip && !a.success && lo < a.moment <= hi);
    }
  }

  /** Over every run of the two handlers with working counts, no address has more than five failures recorded in any
      window; by the moments of writing the same holds of a window shorter by one timestamp step. */
  lemma AtMostFivePerWindow(clock: int, c: Settings, es: seq<Event>, ip: string, lo: int)
    requires c.Valid() && Run(Start(clock, c), es, c) && Counted(es)
    ensures InWindow(Final(Start(clock, c), es, c).log, ip, lo, lo + c.Window()) <= LIMIT
    ensures InSpan(Final(Start(clock, c), es, c).log, ip, lo, lo + c.Window() - (c.precision - 1)) <= LIMIT
  {
    hide Settings.Window, Run, Final;
    var s := Start(clock, c);
    assert forall ip, lo :: WindowOK(s.log, c, ip, lo) && SpanOK(s.log, c, ip, lo);
    RunKeepsInv(s, es, c);
    assert WindowOK(Final(s, es, c).log, c, ip, lo) && SpanOK(Final(s, es, c).log, c, ip, lo);
  }

  // ---- Counts that fail ----

  /** One run whose counts fail only where they may keeps to the limit by the recorded times. */
  predicate RunWindowed(c: Settings, countsMayFail: bool, clock: int, es: seq<Event>, ip: string, lo: int)
    requires c.Valid()
  {
    Run(Start(clock, c), es, c) && (countsMayFail || Counted(es)) ==>
      InWindow(Final(Start(clock, c), es, c).log, ip, lo, lo + c.Window()) <= LIMIT
  }

  /** The limit holds over all runs exactly when no count fails; rows that are not recorded do no harm. */
  lemma WindowKeptExactly(c: Settings, countsMayFail: bool)
    requires c.Valid()
    ensures (forall clock, es, ip, lo :: RunWindowed(c, countsMayFail, clock, es, ip, lo)) <==> !countsMayFail
  {
    hide Settings.Window, Run, Final, InWindow;
    if countsMayFail {
      BlindRun(c, Start(0, c), 6);
      BlindWindow(c, 6);
      assert [] + Rows(BlindRow(), 6) == Rows(BlindRow(), 6);
      assert !RunWindowed(c, countsMayFail, 0, BlindRefusals(6), "ip", -1);
    } else {
      forall clock, es, ip, lo ensures RunWindowed(c, countsMayFail, clock, es, ip, lo) {
        if Run(Start(clock, c), es, c) && Counted(es) {
          AtMostFivePerWindow(clock, c, es, ip, lo);
        }
      }
    }
  }

  function BlindRow(): Attempt { Attempt("ip", false, 0, 0) }

  /** Refusals at instant 0 whose counts all fail. */
  function BlindRefusals(n: nat): seq<Event> {
    if n == 0 then []
    else [Handle(Request("ip", false, false, false, false, false, false, 0, 0, true, false))] + BlindRefusals(n - 1)
  }

  lemma {:induction false} BlindRun(c: Settings, s: State, n: nat)
    requires c.Valid() && s.clock == 0
    ensures Run(s, BlindRefusals(n), c)
    ensures Final(s, BlindRefusals(n), c).log == s.log + Rows(BlindRow(), n)
    decreases n
  {
    hide Settings.Window, Table;
    if n > 0 {
      var es := BlindRefusals(n);
      var next := Step(s, es[0], c);
      assert Stamp(c.precision, 0) == 0;
      assert next.log == s.log + [BlindRow()];
      assert es[1..] == BlindRefusals(n - 1);
      BlindRun(c, next, n - 1);
      assert Rows(BlindRow(), n) == [BlindRow()] + Rows(BlindRow(), n - 1);
    }
  }

  lemma {:induction false} BlindWindow(c: Settings, n: nat)
    requires c.Valid()
    ensures InWindow(Rows(BlindRow(), n), "ip", -1, -1 + c.Window()) == n
  {
    assert c.Window() >= 1 by {
      assert c.precision * (c.steps - 1) >= 0;
    }
    hide Settings.Window;
    if n > 0 {
      assert Rows(BlindRow(), n)[..n - 1] == Rows(BlindRow(), n - 1);
      BlindWindow(c, n - 1);
    }
  }

  // ---- The full window, by the moments of writing ----

  function Refusal(at: int): Event {
    Handle(Request("ip", false, false, false, false, false, false, at, at, false, false))
  }

  /** Five refusals late in one timestamp step, and a sixth exactly one window after that step began. */
  function SixRefusals(c: Settings): seq<Event> {
    seq(5, _ => Refusal(c.precision - 1)) + [Refusal(c.Window())]
  }

  /** One run keeps to the limit in the full window that starts after lo. */
  predicate RunBounded(c: Settings, clock: int, es: seq<Event>, ip: string, lo: int)
    requires c.Valid()
  {
    Run(Start(clock, c), es, c) && Counted(es) ==>
      InSpan(Final(Start(clock, c), es, c).log, ip, lo, lo + c.Window()) <= LIMIT
  }

  /** Measured by the moments of writing, the full window is kept exactly when timestamps are as fine
      as the clock. */
  lemma FullSpanExactly(c: Settings)
    requires c.Valid()
    ensures (forall clock, es, ip, lo :: RunBounded(c, clock, es, ip, lo)) <==> c.precision == 1
  {
    hide Settings.Window, Run, Final, InSpan, InWindow, Counted, SixRefusals;
    if c.precision == 1 {
      forall clock, es, ip, lo ensures RunBounded(c, clock, es, ip, lo) {
        if Run(Start(clock, c), es, c) && Counted(es) {
          AtMostFivePerWindow(clock, c, es, ip, lo);
        }
      }
    } else {
      SixInOneSpan(c);
      assert !RunBounded(c, 0, SixRefusals(c), "ip", c.precision - 2);
    }
  }

  /** The source's settings in nanoseconds: fifteen minutes, whole seconds, ninety days. */
  const NANOSECOND_CLOCK := Settings(900, 1_000_000_000, 90 * 24 * 3600 * 1_000_000_000)

  /** In the source's units: five failures in any fifteen minutes by the recorded times, five in any
      899 seconds and one nanosecond by the moments of writing, and some run that writes six in
      fifteen minutes. */
  lemma BoundsInNanoseconds(clock: int, es: seq<Event>, ip: string, lo: int)
    requires Run(Start(clock, NANOSECOND_CLOCK), es, NANOSECOND_CLOCK) && Counted(es)
    ensures var log := Final(Start(clock, NANOSECOND_CLOCK), es, NANOSECOND_CLOCK).log;
            InWindow(log, ip, lo, lo + 900_000_000_000) <= 5 && InSpan(log, ip, lo, lo + 899_000_000_001) <= 5
    ensures NANOSECOND_CLOCK.Valid() && NANOSECOND_CLOCK.precision * NANOSECOND_CLOCK.steps == 15 * 60 * 1_000_000_000
    ensures exists clock, es, ip, lo :: !RunBounded(NANOSECOND_CLOCK, clock, es, ip, lo)
  {
    hide Run, Start, Final, InWindow, InSpan;
    AtMostFivePerWindow(clock, NANOSECOND_CLOCK, es, ip, lo);
    FullSpanExactly(NANOSECOND_CLOCK);
  }

  function Rows(row: Attempt, n: nat): (rows: seq<Attempt>)
    ensures |rows| == n
  {
    seq(n, _ => row)
  }

  /** The row an early refusal leaves behind; its timestamp is 0. */
  function EarlyRow(c: Settings): Attempt { Attempt("ip", false, 0, c.precision - 1) }

  lemma SixInOneSpan(c: Settings)
    requires c.Valid() && c.precision >= 2
    ensures Run(Start(0, c), SixRefusals(c), c) && Counted(SixRefusals(c))
    ensures InSpan(Final(Start(0, c), SixRefusals(c), c).log, "ip", c.precision - 2, c.precision - 2 + c.Window()) == 6
  {
    hide Step, Table, CountFailed, Blocked, NewRows;
    var late, es, row := Refusal(c.Window()), SixRefusals(c), EarlyRow(c);
    FiveEarly(c, Start(0, c), es, 5);
    var s := State(Rows(row, 5), -c.retention, c.precision - 1);
    assert es[5..] == [late] && [late][1..] == [];
    var s' := Step(s, late, c);
    LateStep(c);
    assert Final(s, [late], c) == s';
    CountRow(c, 5);
    assert s'.log[..5] == s.log;
  }

  /** The sixth refusal finds none of the five rows in view. */
  lemma LateStep(c: Settings)
    requires c.Valid() && c.precision >= 2
    ensures var s := State(Rows(EarlyRow(c), 5), -c.retention, c.precision - 1);
            && Enabled(s, Refusal(c.Window()))
            && Step(s, Refusal(c.Window()), c).log ==
               s.log + [Attempt("ip", false, Stamp(c.precision, c.Window()), c.Window())]
  {
    hide Table, CountFailed, Stamp;
    assert c.Window() >= c.precision by {
      assert c.precision * (c.steps - 1) >= 0;
    }
    CountRow(c, 5);
    TableCount(Rows(EarlyRow(c), 5), -c.retention, "ip", c.Window() - c.Window());
  }

  lemma EarlyStep(c: Settings, n: nat, clock: int)
    requires c.Valid() && n < 5 && 0 <= clock <= c.precision - 1
    ensures var s := State(Rows(EarlyRow(c), n), -c.retention, clock);
            && Enabled(s, Refusal(c.precision - 1))
            && Step(s, Refusal(c.precision - 1), c) == State(Rows(EarlyRow(c), n + 1), -c.retention, c.precision - 1)
  {
    hide Table, CountFailed;
    assert Stamp(c.precision, c.precision - 1) == 0;
    assert c.Window() >= c.precision by {
      assert c.precision * (c.steps - 1) >= 0;
    }
    CountRow(c, n);
    TableCount(Rows(EarlyRow(c), n), -c.retention, "ip", c.precision - 1 - c.Window());
  }

  /** From a start with 5 - n rows already there, n more early refusals are each recorded. */
  lemma {:induction false} FiveEarly(c: Settings, s: State, es: seq<Event>, n: nat)
    requires c.Valid() && n <= 5
    requires |es| >= n && forall k :: 0 <= k < n ==> es[k] == Refusal(c.precision - 1)
    requires s.log == Rows(EarlyRow(c), 5 - n) && s.cutoff == -c.retention && 0 <= s.clock <= c.precision - 1
    requires n == 0 ==> s.clock == c.precision - 1
    ensures var t := State(Rows(EarlyRow(c), 5), -c.retention, c.precision - 1);
            && (Run(s, es, c) <==> Run(t, es[n..], c))
            && Final(s, es, c) == Final(t, es[n..], c)
    decreases n
  {
    hide Step, Enabled, Rows;
    if n == 0 {
      assert es[0..] == es;
    } else {
      EarlyStep(c, 5 - n, s.clock);
      assert es[1..][n - 1..] == es[n..];
      FiveEarly(c, Step(s, es[0], c), es[1..], n - 1);
    }
  }

  lemma {:induction false} CountRow(c: Settings, n: nat)
    ensures forall since :: CountFailed(Rows(EarlyRow(c), n), "ip", since) == if since < 0 then n else 0
    ensures forall lo, hi :: InSpan(Rows(EarlyRow(c), n), "ip", lo, hi) == if lo < c.precision - 1 <= hi then n else 0
  {
    if n > 0 {
      assert Rows(EarlyRow(c), n)[..n - 1] == Rows(EarlyRow(c), n - 1);
      CountRow(c, n - 1);
    }
  }
}
