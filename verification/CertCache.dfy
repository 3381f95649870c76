/** The TLS certificate cache (backend/internal/app/sub_listener.go): double-checked reads, reloads
    and invalidations of two package variables under one reader/writer lock. */
module CertCache {
  import opened Options
  import opened Locks

  // certCacheTTL, in seconds.
  const TTL := 60

  /** A loaded key pair: its serial number, the version of the files it was read from, and how many
      invalidations had cleared the cache before it was loaded. */
  datatype Pair = Pair(serial: nat, version: nat, epoch: nat)

  // ---- The two procedures ----

  class Cache {
    var cachedCert: Option<Pair>
    var cachedCertAt: int

    constructor ()
      ensures cachedCert == None
    {
      cachedCert, cachedCertAt := None, 0;
    }

    /** What other threads may do while this one holds no lock. */
    method OtherThreads()
      modifies this
    {
    }

    /** `now1`, `now2` and `now3` are the clock at the two checks and at the store; `loaded` is what the
        query and the file load would give. `seen` and `seenAt` are the two variables as they stand at the
        last check, after which no other thread writes them. */
    method GetCachedCertificate(now1: int, now2: int, now3: int, loaded: Option<Pair>)
      returns (pair: Option<Pair>, ghost seen: Option<Pair>, ghost seenAt: int)
      modifies this
      ensures var young := old(cachedCert).Some? && now1 - old(cachedCertAt) < 60;
              && (young ==> seen == old(cachedCert) && seenAt == old(cachedCertAt) && pair == seen)
              && (!young ==> pair == if seen.Some? && now2 - seenAt < 60 then seen else loaded)
              && (cachedCert, cachedCertAt) ==
                 (if !young && !(seen.Some? && now2 - seenAt < 60) && loaded.Some? then (loaded, now3)
                  else (seen, seenAt))
    {
      seen, seenAt := cachedCert, cachedCertAt;
      if cachedCert.Some? && now1 - cachedCertAt < TTL {
        return cachedCert, seen, seenAt;
      }
      OtherThreads();
      seen, seenAt := cachedCert, cachedCertAt;
      if cachedCert.Some? && now2 - cachedCertAt < TTL {
        return cachedCert, seen, seenAt;
      }
      if loaded.None? {
        return None, seen, seenAt;
      }
      cachedCert := loaded;
      cachedCertAt := now3;
      return loaded, seen, seenAt;
    }

    method InvalidateCertCache()
      modifies this
      ensures cachedCert == None && cachedCertAt == 0
    {
      cachedCert := None;
      cachedCertAt := 0;
    }
  }

  // ---- Any number of threads ----

  /** What a reader may insist on: the invalidations that had returned when its call began, and the
      newest files those invalidations were called after. */
  datatype Need = Need(epoch: nat, version: nat)

  /** A finished read: where the pair came from, and for a cached one when its age was checked. */
  datatype Result = Hit(pair: Pair, checkedAt: int) | Loaded(pair: Pair) | Failed

  datatype PC =
    | Idle
    // getCachedCertificate
    | Called(need: Need)                          // before RLock
    | Check1(need: Need)                          // read lock held; is there a pair?
    | Age1(need: Need)                            // read lock held; is it young enough?
    | Take1(need: Need, at: int)                  // read lock held; about to read the pair
    | Leave1(need: Need, hit: Option<Result>)     // read lock held, RUnlock to come
    | Missed(need: Need)                          // before Lock
    | Check2(need: Need)                          // write lock held from here on
    | Age2(need: Need)
    | Take2(need: Need, at: int)
    | Load(need: Need)
    | StorePair(need: Need, pair: Pair)           // about to write cachedCert
    | StoreTime(need: Need, pair: Pair)           // about to write cachedCertAt
    | Leave2(need: Need, result: Result)          // deferred Unlock to come
    // InvalidateCertCache
    | Invalidating(version: nat)                  // before Lock
    | ClearPair(version: nat)                     // write lock held from here on
    | ClearTime(version: nat, number: nat)
    | Leave3(version: nat, number: nat)

  /** What the threads share. `stamps` records when each stored pair was stamped, and `storing` that a
      store is between its two writes; neither is visible to the code. */
  datatype Shared = Shared(
    rw: RWLock,
    cachedCert: Option<Pair>,
    cachedCertAt: int,
    clock: int,
    files: nat,                        // version of the certificate files on disk
    serials: nat,                      // pairs loaded so far
    stamps: map<nat, int>,
    storing: bool,
    cleared: Need,                     // invalidations that have cleared the cache
    settled: Need,                     // invalidations that have returned
    results: set<(Need, Result)>
  )

  datatype State = State(shared: Shared, pc: map<Thread, PC>)

  datatype Turn =
    | Tick(to: int)                    // time passes
    | Renew                            // the files change
    | Read(thread: Thread)             // an idle thread starts a read; a busy one goes on
    | Invalidate(thread: Thread)       // an idle thread starts an invalidation; a busy one goes on
    | LoadFails(thread: Thread)        // a busy thread goes on, but a load fails

  function Max(a: nat, b: nat): nat { if a < b then b else a }

  function Merge(n: Need, number: nat, version: nat): Need { Need(Max(n.epoch, number), Max(n.version, version)) }

  predicate Young(g: Shared) { g.clock - g.cachedCertAt < TTL }

  /** One step of a busy thread; one that waits for a lock stays where it is. */
  function Act(g: Shared, t: Thread, pc: PC, fails: bool): (Shared, PC)
    requires g.rw.Exclusive()
  {
    match pc
    case Idle => (g, pc)
    case Called(need) => if g.rw.CanRead() then (g.(rw := g.rw.RLock(t)), Check1(need)) else (g, pc)
    case Check1(need) => (g, if g.cachedCert.Some? then Age1(need) else Leave1(need, None))
    case Age1(need) => (g, if Young(g) then Take1(need, g.clock) else Leave1(need, None))
    case Take1(need, at) =>
      (g, Leave1(need, if g.cachedCert.Some? then Some(Hit(g.cachedCert.value, at)) else None))
    case Leave1(need, hit) =>
      var g' := g.(rw := g.rw.RUnlock(t));
      if hit.Some? then (g'.(results := g.results + {(need, hit.value)}), Idle) else (g', Missed(need))
    case Missed(need) => if g.rw.CanWrite() then (g.(rw := g.rw.Lock(t)), Check2(need)) else (g, pc)
    case Check2(need) => (g, if g.cachedCert.Some? then Age2(need) else Load(need))
    case Age2(need) => (g, if Young(g) then Take2(need, g.clock) else Load(need))
    case Take2(need, at) => (g, Leave2(need, if g.cachedCert.Some? then Hit(g.cachedCert.value, at) else Failed))
    case Load(need) =>
      if fails then (g, Leave2(need, Failed))
      else (g.(serials := g.serials + 1), StorePair(need, Pair(g.serials, g.files, g.cleared.epoch)))
    case StorePair(need, pair) => (g.(cachedCert := Some(pair), storing := true), StoreTime(need, pair))
    case StoreTime(need, pair) =>
      (g.(cachedCertAt := g.clock, storing := false, stamps := g.stamps[pair.serial := g.clock]),
       Leave2(need, Loaded(pair)))
    case Leave2(need, result) => (g.(rw := g.rw.Unlock(), results := g.results + {(need, result)}), Idle)
    case Invalidating(version) => if g.rw.CanWrite() then (g.(rw := g.rw.Lock(t)), ClearPair(version)) else (g, pc)
    case ClearPair(version) =>
      var number := g.cleared.epoch + 1;
      (g.(cachedCert := None, cleared := Merge(g.cleared, number, version)), ClearTime(version, number))
    case ClearTime(version, number) => (g.(cachedCertAt := 0), Leave3(version, number))
    case Leave3(version, number) => (g.(rw := g.rw.Unlock(), settled := Merge(g.settled, number, version)), Idle)
  }

  function Go(s: State, t: Thread, fails: bool): State
    requires s.shared.rw.Exclusive() && t in s.pc
  {
    var (g, pc) := Act(s.shared, t, s.pc[t], fails);
    State(g, s.pc[t := pc])
  }

  function Step(s: State, turn: Turn): State
    requires s.shared.rw.Exclusive()
  {
    match turn
    case Tick(to) => if s.shared.clock <= to then s.(shared := s.shared.(clock := to)) else s
    case Renew => s.(shared := s.shared.(files := s.shared.files + 1))
    case Read(t) =>
      if t !in s.pc then s
      else if s.pc[t].Idle? then s.(pc := s.pc[t := Called(s.shared.settled)])
      else Go(s, t, false)
    case Invalidate(t) =>
      if t !in s.pc then s
      else if s.pc[t].Idle? then s.(pc := s.pc[t := Invalidating(s.shared.files)])
      else Go(s, t, false)
    case LoadFails(t) => if t !in s.pc then s else Go(s, t, true)
  }

  lemma ActExclusive(g: Shared, t: Thread, pc: PC, fails: bool)
    requires g.rw.Exclusive()
    ensures Act(g, t, pc, fails).0.rw.Exclusive()
  {
  }

  lemma StepExclusive(s: State, turn: Turn)
    requires s.shared.rw.Exclusive()
    ensures Step(s, turn).shared.rw.Exclusive()
  {
    if (turn.Read? || turn.Invalidate? || turn.LoadFails?) && turn.thread in s.pc {
      ActExclusive(s.shared, turn.thread, s.pc[turn.thread], turn.LoadFails?);
    }
  }

  function Run(s: State, schedule: seq<Turn>): (s': State)
    requires s.shared.rw.Exclusive()
    ensures s'.shared.rw.Exclusive()
    decreases schedule
  {
    if schedule == [] then s
    else
      StepExclusive(s, schedule[0]);
      Run(Step(s, schedule[0]), schedule[1..])
  }

  predicate Start(s: State) {
    var g := s.shared;
    g.rw == UNLOCKED && g.cachedCert == None && g.serials == 0 && g.stamps == map[] && !g.storing && g.results == {}
    && g.cleared == Need(0, 0) && g.settled == Need(0, 0)
    && forall t :: t in s.pc ==> s.pc[t] == Idle
  }

  // ---- The invariant ----

  predicate Covers(have: Need, need: Need) { need.epoch <= have.epoch && need.version <= have.version }

  predicate PairCovers(p: Pair, need: Need) { need.epoch <= p.epoch && need.version <= p.version }

  predicate ReadLocked(pc: PC) { pc.Check1? || pc.Age1? || pc.Take1? || pc.Leave1? }

  predicate WriteLocked(pc: PC) {
    pc.Check2? || pc.Age2? || pc.Take2? || pc.Load? || pc.StorePair? || pc.StoreTime? || pc.Leave2?
    || pc.ClearPair? || pc.ClearTime? || pc.Leave3?
  }

  predicate Reader(pc: PC) {
    !pc.Idle? && !pc.Invalidating? && !pc.ClearPair? && !pc.ClearTime? && !pc.Leave3?
  }

  /** A result keeps its promises: new enough for the call that got it, and if cached, young. */
  predicate Honored(stamps: map<nat, int>, need: Need, r: Result) {
    match r
    case Hit(pair, at) => PairCovers(pair, need) && pair.serial in stamps && at - stamps[pair.serial] < TTL
    case Loaded(pair) => PairCovers(pair, need)
    case Failed => true
  }

  /** The cached pair was stamped less than TTL before the check. */
  predicate Fresh(g: Shared, at: int) {
    g.cachedCert.Some? && g.cachedCert.value.serial in g.stamps && at - g.stamps[g.cachedCert.value.serial] < TTL
  }

  predicate ThreadOK(g: Shared, t: Thread, pc: PC) {
    && (ReadLocked(pc) ==> t in g.rw.readers)
    && (WriteLocked(pc) <==> g.rw.writer == Some(t))
    && (WriteLocked(pc) ==> (g.storing <==> pc.StoreTime?))
    && (Reader(pc) ==> Covers(g.settled, pc.need))
    && (pc.Age1? || pc.Age2? ==> g.cachedCert.Some?)
    && (pc.Take1? || pc.Take2? ==> Fresh(g, pc.at))
    && (pc.Leave1? && pc.hit.Some? ==> pc.hit.value.Hit? && Honored(g.stamps, pc.need, pc.hit.value))
    && (pc.StorePair? || pc.StoreTime? ==>
          pc.pair.serial < g.serials && pc.pair.serial !in g.stamps && PairCovers(pc.pair, g.cleared))
    && (pc.StoreTime? ==> g.cachedCert == Some(pc.pair))
    && (pc.Leave2? ==> Honored(g.stamps, pc.need, pc.result))
    && (pc.Invalidating? || pc.ClearPair? ==> pc.version <= g.files)
    && (pc.ClearTime? || pc.Leave3? ==> Covers(g.cleared, Need(pc.number, pc.version)) && g.cachedCert == None)
  }

  /** The stamp of the cached pair is what cachedCertAt says, except between the two writes of a store. */
  predicate Stamped(g: Shared) {
    g.cachedCert.Some? && !g.storing ==>
      g.cachedCert.value.serial in g.stamps && g.stamps[g.cachedCert.value.serial] == g.cachedCertAt
  }

  ghost predicate CacheOK(g: Shared) {
    && g.rw.Exclusive() && Stamped(g) && (g.storing ==> g.rw.writer.Some?)
    && (g.cachedCert.Some? ==> PairCovers(g.cachedCert.value, g.cleared) && g.cachedCert.value.serial < g.serials)
    && (forall k :: k in g.stamps ==> k < g.serials)
    && Covers(g.cleared, g.settled) && g.cleared.version <= g.files
    && (forall r :: r in g.results ==> Honored(g.stamps, r.0, r.1))
  }

  ghost predicate Inv(s: State) {
    CacheOK(s.shared) && forall t :: t in s.pc ==> ThreadOK(s.shared, t, s.pc[t])
  }

  /** The effect of one step on the shared variables. */
  lemma ActKeepsCache(g: Shared, t: Thread, pc: PC, fails: bool)
    requires CacheOK(g) && ThreadOK(g, t, pc)
    ensures CacheOK(Act(g, t, pc, fails).0)
  {
    ActExclusive(g, t, pc, fails);
    var g' := Act(g, t, pc, fails).0;
    forall r | r in g'.results ensures Honored(g'.stamps, r.0, r.1) {
      if r in g.results {
        assert Honored(g.stamps, r.0, r.1);
      }
    }
  }

  lemma ActKeepsSelf(g: Shared, t: Thread, pc: PC, fails: bool)
    requires CacheOK(g) && ThreadOK(g, t, pc)
    ensures ThreadOK(Act(g, t, pc, fails).0, t, Act(g, t, pc, fails).1)
  {
  }

  lemma ActKeepsOther(g: Shared, t: Thread, pc: PC, fails: bool, u: Thread, other: PC)
    requires CacheOK(g) && t != u && ThreadOK(g, t, pc) && ThreadOK(g, u, other)
    ensures ThreadOK(Act(g, t, pc, fails).0, u, other)
  {
  }

  lemma GoKeepsInv(s: State, t: Thread, fails: bool)
    requires Inv(s) && t in s.pc
    ensures Inv(Go(s, t, fails))
  {
    ActKeepsCache(s.shared, t, s.pc[t], fails);
    ActKeepsSelf(s.shared, t, s.pc[t], fails);
    forall u | u in s.pc && u != t ensures ThreadOK(Go(s, t, fails).shared, u, s.pc[u]) {
      ActKeepsOther(s.shared, t, s.pc[t], fails, u, s.pc[u]);
    }
  }

  /** A call starts; time passes; files change. */
  lemma OutsideKeepsThread(g: Shared, t: Thread, pc: PC, to: int)
    requires CacheOK(g) && ThreadOK(g, t, pc) && g.clock <= to
    ensures ThreadOK(g.(clock := to), t, pc) && ThreadOK(g.(files := g.files + 1), t, pc)
    ensures pc.Idle? ==> ThreadOK(g, t, Called(g.settled)) && ThreadOK(g, t, Invalidating(g.files))
  {
  }

  lemma StepKeepsInv(s: State, turn: Turn)
    requires Inv(s)
    ensures Inv(Step(s, turn))
  {
    var to := if turn.Tick? && s.shared.clock <= turn.to then turn.to else s.shared.clock;
    forall t | t in s.pc
      ensures ThreadOK(s.shared.(clock := to), t, s.pc[t])
      ensures ThreadOK(s.shared.(files := s.shared.files + 1), t, s.pc[t])
      ensures s.pc[t].Idle? ==>
                ThreadOK(s.shared, t, Called(s.shared.settled)) && ThreadOK(s.shared, t, Invalidating(s.shared.files))
    {
      OutsideKeepsThread(s.shared, t, s.pc[t], to);
    }
    if (turn.Read? || turn.Invalidate? || turn.LoadFails?) && turn.thread in s.pc {
      GoKeepsInv(s, turn.thread, turn.LoadFails?);
    }
  }

  lemma {:induction false} RunKeepsInv(s: State, schedule: seq<Turn>)
    requires Inv(s)
    ensures Inv(Run(s, schedule))
    decreases schedule
  {
    if schedule != [] {
      StepKeepsInv(s, schedule[0]);
      RunKeepsInv(Step(s, schedule[0]), schedule[1..]);
    }
  }

  /** Over every interleaving of readers, invalidations, renewals and time: a cached certificate was
      under 60 seconds old when it was checked, and no call yields a pair loaded before an
      invalidation that had returned when the call began, nor files older than that invalidation saw. */
  lemma ReadsAreYoungAndCurrent(s: State, schedule: seq<Turn>, need: Need, result: Result)
    requires Start(s) && (need, result) in Run(s, schedule).shared.results
    ensures var stamps := Run(s, schedule).shared.stamps;
            result.Hit? ==> result.pair.serial in stamps && result.checkedAt - stamps[result.pair.serial] < 60
    ensures !result.Failed? ==> need.epoch <= result.pair.epoch && need.version <= result.pair.version
  {
    RunKeepsInv(s, schedule);
    assert Honored(Run(s, schedule).shared.stamps, (need, result).0, (need, result).1);
  }

  // ---- Calls that nothing interrupts ----

  function Turns(turn: Turn, k: nat): seq<Turn> {
    if k == 0 then [] else [turn] + Turns(turn, k - 1)
  }

  /** The thread runs on by itself: it starts its call, or its local state and the shared one go one
      step. */
  lemma Alone(s: State, turn: Turn, k: nat) returns (next: State)
    requires s.shared.rw.Exclusive() && (turn.Read? || turn.Invalidate?) && turn.thread in s.pc
    ensures next.shared.rw.Exclusive() && Run(s, Turns(turn, k + 1)) == Run(next, Turns(turn, k))
    ensures k == 0 ==> Run(next, Turns(turn, k)) == next
    ensures turn.thread in next.pc
    ensures (next.shared, next.pc[turn.thread]) ==
            if !s.pc[turn.thread].Idle? then Act(s.shared, turn.thread, s.pc[turn.thread], false)
            else if turn.Read? then (s.shared, Called(s.shared.settled))
            else (s.shared, Invalidating(s.shared.files))
  {
    StepExclusive(s, turn);
    assert Turns(turn, k + 1)[1..] == Turns(turn, k);
    next := Step(s, turn);
  }

  /** There is a pair, stored less than 60 seconds ago. */
  predicate Usable(g: Shared) { g.cachedCert.Some? && g.clock - g.cachedCertAt < 60 }

  lemma FirstCheckPasses(s: State, t: Thread, k: nat) returns (next: State)
    requires s.shared.rw.writer.None? && t in s.pc && s.pc[t] == Idle && Usable(s.shared)
    ensures next.shared == s.shared.(rw := s.shared.rw.RLock(t))
    ensures t in next.pc && next.pc[t] == Take1(s.shared.settled, s.shared.clock)
    ensures Run(s, Turns(Read(t), k + 4)) == Run(next, Turns(Read(t), k))
  {
    hide Run, Turns;
    next := Alone(s, Read(t), k + 3);
    next := Alone(next, Read(t), k + 2);
    next := Alone(next, Read(t), k + 1);
    next := Alone(next, Read(t), k);
  }

  lemma TakeFirst(s: State, t: Thread) returns (next: State)
    requires s.shared.rw.Exclusive() && s.shared.rw.writer.None?
    requires t in s.pc && s.pc[t].Take1? && s.shared.cachedCert.Some?
    ensures next.shared == s.shared.(rw := s.shared.rw.RUnlock(t),
              results := s.shared.results + {(s.pc[t].need, Hit(s.shared.cachedCert.value, s.pc[t].at))})
    ensures t in next.pc && next.pc[t] == Idle && Run(s, Turns(Read(t), 2)) == next
  {
    hide Run, Turns;
    next := Alone(s, Read(t), 1);
    next := Alone(next, Read(t), 0);
  }

  /** A read that finds a young pair takes it, beside any other readers, and changes nothing. */
  lemma UninterruptedHit(s: State, t: Thread)
    requires s.shared.rw.writer.None? && t !in s.shared.rw.readers
    requires t in s.pc && s.pc[t] == Idle && Usable(s.shared)
    ensures var end, g := Run(s, Turns(Read(t), 6)), s.shared;
            && end.shared == g.(results := g.results + {(g.settled, Hit(g.cachedCert.value, g.clock))})
            && t in end.pc && end.pc[t] == Idle
  {
    hide Run, Turns, Act;
    var checked := FirstCheckPasses(s, t, 2);
    var end := TakeFirst(checked, t);
    assert s.shared.rw.readers + {t} - {t} == s.shared.rw.readers;
  }

  lemma FirstCheckFails(s: State, t: Thread, k: nat) returns (next: State)
    requires s.shared.rw == UNLOCKED && t in s.pc && s.pc[t] == Idle && !Usable(s.shared)
    ensures next.shared == s.shared && t in next.pc && next.pc[t] == Missed(s.shared.settled)
    ensures Run(s, Turns(Read(t), k + if s.shared.cachedCert.Some? then 5 else 4)) == Run(next, Turns(Read(t), k))
  {
    hide Run, Turns;
    var n: nat := if s.shared.cachedCert.Some? then k + 1 else k;
    next := Alone(s, Read(t), n + 3);
    next := Alone(next, Read(t), n + 2);
    next := Alone(next, Read(t), n + 1);
    next := Alone(next, Read(t), n);
    if s.shared.cachedCert.Some? {
      next := Alone(next, Read(t), k);
    }
    assert s.shared.rw.readers + {t} - {t} == {};
  }

  function Reloaded(g: Shared, need: Need): Shared {
    var pair := Pair(g.serials, g.files, g.cleared.epoch);
    g.(serials := g.serials + 1, cachedCert := Some(pair), cachedCertAt := g.clock, storing := false,
       stamps := g.stamps[g.serials := g.clock], results := g.results + {(need, Loaded(pair))})
  }

  lemma CheckAgain(s: State, t: Thread, k: nat) returns (next: State)
    requires s.shared.rw == UNLOCKED && t in s.pc && s.pc[t].Missed? && !Usable(s.shared)
    ensures next.shared == s.shared.(rw := UNLOCKED.Lock(t)) && t in next.pc && next.pc[t] == Load(s.pc[t].need)
    ensures Run(s, Turns(Read(t), k + if s.shared.cachedCert.Some? then 3 else 2)) == Run(next, Turns(Read(t), k))
  {
    hide Run, Turns;
    var n: nat := if s.shared.cachedCert.Some? then k + 1 else k;
    next := Alone(s, Read(t), n + 1);
    next := Alone(next, Read(t), n);
    if s.shared.cachedCert.Some? {
      next := Alone(next, Read(t), k);
    }
  }

  lemma LoadPair(s: State, t: Thread, k: nat) returns (next: State)
    requires s.shared.rw == UNLOCKED.Lock(t) && t in s.pc && s.pc[t].Load?
    ensures var pair := Pair(s.shared.serials, s.shared.files, s.shared.cleared.epoch);
            && next.shared == s.shared.(serials := s.shared.serials + 1, cachedCert := Some(pair), storing := true)
            && t in next.pc && next.pc[t] == StoreTime(s.pc[t].need, pair)
    ensures Run(s, Turns(Read(t), k + 2)) == Run(next, Turns(Read(t), k))
  {
    hide Run, Turns;
    next := Alone(s, Read(t), k + 1);
    next := Alone(next, Read(t), k);
  }

  lemma StampPair(s: State, t: Thread) returns (next: State)
    requires s.shared.rw == UNLOCKED.Lock(t) && t in s.pc && s.pc[t].StoreTime?
    ensures next.shared == s.shared.(rw := UNLOCKED, cachedCertAt := s.shared.clock, storing := false,
                                     stamps := s.shared.stamps[s.pc[t].pair.serial := s.shared.clock],
                                     results := s.shared.results + {(s.pc[t].need, Loaded(s.pc[t].pair))})
    ensures t in next.pc && next.pc[t] == Idle
    ensures Run(s, Turns(Read(t), 2)) == next
  {
    hide Run, Turns;
    next := Alone(s, Read(t), 1);
    next := Alone(next, Read(t), 0);
  }

  lemma SecondCheckPasses(s: State, t: Thread, k: nat) returns (next: State)
    requires s.shared.rw == UNLOCKED && t in s.pc && s.pc[t].Missed? && Usable(s.shared)
    ensures next.shared == s.shared.(rw := UNLOCKED.Lock(t))
    ensures t in next.pc && next.pc[t] == Take2(s.pc[t].need, s.shared.clock)
    ensures Run(s, Turns(Read(t), k + 3)) == Run(next, Turns(Read(t), k))
  {
    hide Run, Turns;
    next := Alone(s, Read(t), k + 2);
    next := Alone(next, Read(t), k + 1);
    next := Alone(next, Read(t), k);
  }

  lemma TakeSecond(s: State, t: Thread) returns (next: State)
    requires s.shared.rw == UNLOCKED.Lock(t) && t in s.pc && s.pc[t].Take2? && s.shared.cachedCert.Some?
    ensures next.shared == s.shared.(rw := UNLOCKED,
              results := s.shared.results + {(s.pc[t].need, Hit(s.shared.cachedCert.value, s.pc[t].at))})
    ensures t in next.pc && next.pc[t] == Idle && Run(s, Turns(Read(t), 2)) == next
  {
    hide Run, Turns;
    next := Alone(s, Read(t), 1);
    next := Alone(next, Read(t), 0);
  }

  /** A read that finds a young pair only at its second check, another thread having loaded it, takes
      that pair and loads none. */
  lemma SecondCheckHits(s: State, t: Thread)
    requires s.shared.rw == UNLOCKED && t in s.pc && s.pc[t].Missed? && Usable(s.shared)
    ensures var end, g := Run(s, Turns(Read(t), 5)), s.shared;
            && end.shared == g.(results := g.results + {(s.pc[t].need, Hit(g.cachedCert.value, g.clock))})
            && t in end.pc && end.pc[t] == Idle
  {
    hide Run, Turns, Act;
    var checked := SecondCheckPasses(s, t, 2);
    var end := TakeSecond(checked, t);
  }

  /** A load that fails leaves the cache as it is and gives the lock back. */
  lemma FailedLoad(s: State, t: Thread)
    requires s.shared.rw == UNLOCKED.Lock(t) && t in s.pc && s.pc[t].Load?
    ensures var end := Run(s, [LoadFails(t), Read(t)]);
            && end.shared == s.shared.(rw := UNLOCKED, results := s.shared.results + {(s.pc[t].need, Failed)})
            && t in end.pc && end.pc[t] == Idle
  {
    var s1 := Step(s, LoadFails(t));
    StepExclusive(s, LoadFails(t));
    StepExclusive(s1, Read(t));
    assert [LoadFails(t), Read(t)][1..] == [Read(t)] && [Read(t)][1..] == [];
    assert Run(s1, [Read(t)]) == Step(s1, Read(t));
  }

  /** A step changes nothing exactly when its thread has no call, or waits: to read while there is a
      writer, to write while there is any holder of the lock. */
  lemma WaitsExactly(g: Shared, t: Thread, pc: PC, fails: bool)
    requires g.rw.Exclusive()
    ensures Act(g, t, pc, fails) == (g, pc) <==>
            || pc.Idle?
            || (pc.Called? && g.rw.writer.Some?)
            || ((pc.Missed? || pc.Invalidating?) && (g.rw.writer.Some? || g.rw.readers != {}))
  {
  }

  /** A read that finds the lock free and no young pair loads one and stores it with the time. */
  lemma UninterruptedReload(s: State, t: Thread)
    requires s.shared.rw == UNLOCKED && t in s.pc && s.pc[t] == Idle && !Usable(s.shared)
    ensures var end := Run(s, Turns(Read(t), if s.shared.cachedCert.Some? then 12 else 10));
            end.shared == Reloaded(s.shared, s.shared.settled) && t in end.pc && end.pc[t] == Idle
  {
    hide Run, Turns, Act;
    var s1 := FirstCheckFails(s, t, if s.shared.cachedCert.Some? then 7 else 6);
    var s2 := CheckAgain(s1, t, 4);
    var s3 := LoadPair(s2, t, 2);
    var s4 := StampPair(s3, t);
  }

  lemma ClearCache(s: State, t: Thread, k: nat) returns (next: State)
    requires s.shared.rw == UNLOCKED && t in s.pc && s.pc[t] == Idle
    ensures var g := s.shared;
            && next.shared == g.(rw := UNLOCKED.Lock(t), cachedCert := None,
                                 cleared := Merge(g.cleared, g.cleared.epoch + 1, g.files))
            && t in next.pc && next.pc[t] == ClearTime(g.files, g.cleared.epoch + 1)
    ensures Run(s, Turns(Invalidate(t), k + 3)) == Run(next, Turns(Invalidate(t), k))
  {
    hide Run, Turns, Merge;
    next := Alone(s, Invalidate(t), k + 2);
    next := Alone(next, Invalidate(t), k + 1);
    next := Alone(next, Invalidate(t), k);
  }

  lemma FinishClearing(s: State, t: Thread) returns (next: State)
    requires s.shared.rw == UNLOCKED.Lock(t) && t in s.pc && s.pc[t].ClearTime?
    ensures next.shared == s.shared.(rw := UNLOCKED, cachedCertAt := 0,
                                     settled := Merge(s.shared.settled, s.pc[t].number, s.pc[t].version))
    ensures t in next.pc && next.pc[t] == Idle
    ensures Run(s, Turns(Invalidate(t), 2)) == next
  {
    hide Run, Turns, Merge;
    next := Alone(s, Invalidate(t), 1);
    next := Alone(next, Invalidate(t), 0);
  }

  /** An invalidation that finds the lock free leaves no pair behind, and has returned. */
  lemma UninterruptedInvalidation(s: State, t: Thread)
    requires s.shared.rw == UNLOCKED && t in s.pc && s.pc[t] == Idle
    ensures var end, g := Run(s, Turns(Invalidate(t), 5)), s.shared;
            && end.shared.rw == UNLOCKED && end.shared.cachedCert == None && end.shared.results == g.results
            && end.shared.cleared == Merge(g.cleared, g.cleared.epoch + 1, g.files)
            && end.shared.settled == Merge(g.settled, g.cleared.epoch + 1, g.files)
            && t in end.pc && end.pc[t] == Idle
  {
    hide Run, Turns, Act, Merge;
    var cleared := ClearCache(s, t, 2);
    var end := FinishClearing(cleared, t);
  }
}
