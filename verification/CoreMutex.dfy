/** One mutex per proxy core, made on first use behind double-checked locking, and the reload
    section it guards (backend/internal/cores/manager.go). */
module CoreMutex {
  import opened Options
  import opened Locks

  // ---- The method ----

  class Mutex {
    constructor () {}
  }

  class CoreManager {
    var configMu: map<string, Mutex>

    /** Different names have different mutexes. */
    ghost predicate Valid()
      reads this
    {
      forall m, n :: m in configMu && n in configMu && configMu[m] == configMu[n] ==> m == n
    }

    constructor ()
      ensures Valid() && configMu == map[]
    {
      configMu := map[];
    }

    /** What other threads may do while this one holds no lock: add entries. */
    method OtherThreads()
      requires Valid()
      modifies this
      ensures Valid()
      ensures forall n :: n in old(configMu) ==> n in configMu && configMu[n] == old(configMu)[n]
    {
    }

    /** `seen` is the map as the last look-up finds it, after which no other thread writes it. */
    method GetCoreMutex(name: string) returns (mu: Mutex, ghost seen: map<string, Mutex>)
      requires Valid()
      modifies this
      ensures Valid()
      ensures name in configMu && configMu[name] == mu
      ensures forall n :: n in old(configMu) ==> n in seen && seen[n] == old(configMu)[n]
      ensures name in old(configMu) ==> seen == old(configMu)
      ensures configMu == if name in seen then seen else seen[name := mu]
      ensures name !in seen ==> fresh(mu)
    {
      seen := configMu;
      if name in configMu {
        return configMu[name], seen;
      }
      OtherThreads();
      seen := configMu;
      // Double-check after acquiring the write lock.
      if name in configMu {
        return configMu[name], seen;
      }
      mu := new Mutex();
      assert forall n :: n in configMu ==> configMu[n] != mu;
      configMu := configMu[name := mu];
    }
  }

  // ---- Any number of threads ----

  type Name = string

  /** A mutex is known by the order in which it was made. */
  type MutexID = nat

  datatype PC =
    | Idle
    | Called(name: Name)                              // before RLock
    | Reading(name: Name)                             // read lock held, map not read yet
    | Looked(name: Name, found: Option<MutexID>)      // read lock held, map read
    | Missed(name: Name)                              // no lock held, before Lock
    | Rechecking(name: Name)                          // write lock held, map not read again yet
    | Creating(name: Name)                            // write lock held, about to write the map
    | Leaving(name: Name, mu: MutexID)                // write lock held, deferred Unlock to come
    | Holding(name: Name, mu: MutexID)                // getCoreMutex has returned mu
    | Inside(name: Name, mu: MutexID)                 // in the write-and-reload section

  /** What the threads share: the lock, the map, the names mutexes were made for, in order, who owns
      which mutex, and every answer getCoreMutex has given. */
  datatype Shared = Shared(
    rw: RWLock,
    configMu: map<Name, MutexID>,
    made: seq<Name>,
    owner: map<MutexID, Thread>,
    returned: set<(Name, MutexID)>
  )

  datatype State = State(shared: Shared, pc: map<Thread, PC>)

  /** One step of thread t, up to the next lock, unlock, read or write; a thread whose lock is not
      to be had stays where it is. `name` is the core asked for when t starts a call. */
  function Act(g: Shared, t: Thread, pc: PC, name: Name): (Shared, PC)
    requires g.rw.Exclusive()
  {
    match pc
    case Idle => (g, Called(name))
    case Called(n) => if g.rw.CanRead() then (g.(rw := g.rw.RLock(t)), Reading(n)) else (g, pc)
    case Reading(n) => (g, Looked(n, if n in g.configMu then Some(g.configMu[n]) else None))
    case Looked(n, found) =>
      if found.Some?
      then (g.(rw := g.rw.RUnlock(t), returned := g.returned + {(n, found.value)}), Holding(n, found.value))
      else (g.(rw := g.rw.RUnlock(t)), Missed(n))
    case Missed(n) => if g.rw.CanWrite() then (g.(rw := g.rw.Lock(t)), Rechecking(n)) else (g, pc)
    case Rechecking(n) => (g, if n in g.configMu then Leaving(n, g.configMu[n]) else Creating(n))
    case Creating(n) => (g.(configMu := g.configMu[n := |g.made|], made := g.made + [n]), Leaving(n, |g.made|))
    case Leaving(n, mu) => (g.(rw := g.rw.Unlock(), returned := g.returned + {(n, mu)}), Holding(n, mu))
    case Holding(n, mu) => if mu in g.owner then (g, pc) else (g.(owner := g.owner[mu := t]), Inside(n, mu))
    case Inside(n, mu) => (g.(owner := g.owner - {mu}), Idle)
  }

  function Step(s: State, t: Thread, name: Name): State
    requires s.shared.rw.Exclusive()
  {
    if t !in s.pc then s
    else
      var (g, pc) := Act(s.shared, t, s.pc[t], name);
      State(g, s.pc[t := pc])
  }

  /** Which thread moves, and what a starting call asks for. */
  datatype Turn = Turn(thread: Thread, name: Name)

  function Run(s: State, schedule: seq<Turn>): (s': State)
    requires s.shared.rw.Exclusive()
    ensures s'.shared.rw.Exclusive()
    decreases schedule
  {
    if schedule == [] then s
    else
      ActExclusive(s, schedule[0]);
      Run(Step(s, schedule[0].thread, schedule[0].name), schedule[1..])
  }

  lemma ActExclusive(s: State, turn: Turn)
    requires s.shared.rw.Exclusive()
    ensures Step(s, turn.thread, turn.name).shared.rw.Exclusive()
  {
  }

  predicate Start(s: State) {
    s.shared == Shared(UNLOCKED, map[], [], map[], {}) && forall t :: t in s.pc ==> s.pc[t] == Idle
  }

  predicate ReadLocked(pc: PC) { pc.Reading? || pc.Looked? }

  predicate WriteLocked(pc: PC) { pc.Rechecking? || pc.Creating? || pc.Leaving? }

  predicate Known(m: map<Name, MutexID>, n: Name, mu: MutexID) { n in m && m[n] == mu }

  /** What a thread's program counter says about the shared state. */
  predicate ThreadOK(g: Shared, t: Thread, pc: PC) {
    && (ReadLocked(pc) ==> t in g.rw.readers)
    && (WriteLocked(pc) <==> g.rw.writer == Some(t))
    && (pc.Looked? && pc.found.Some? ==> Known(g.configMu, pc.name, pc.found.value))
    && (pc.Creating? ==> pc.name !in g.configMu)
    && (pc.Leaving? || pc.Holding? || pc.Inside? ==> Known(g.configMu, pc.name, pc.mu))
    && (pc.Inside? ==> pc.mu in g.owner && g.owner[pc.mu] == t)
  }

  ghost predicate MapOK(g: Shared) {
    && (forall n :: n in g.configMu ==> g.configMu[n] < |g.made| && g.made[g.configMu[n]] == n)
    && (forall r :: r in g.returned ==> Known(g.configMu, r.0, r.1))
  }

  ghost predicate Inv(s: State) {
    s.shared.rw.Exclusive() && MapOK(s.shared) && forall t :: t in s.pc ==> ThreadOK(s.shared, t, s.pc[t])
  }

  lemma ActKeepsMap(g: Shared, t: Thread, pc: PC, name: Name)
    requires g.rw.Exclusive() && MapOK(g) && ThreadOK(g, t, pc)
    ensures MapOK(Act(g, t, pc, name).0)
    ensures forall n :: n in g.configMu ==> Known(Act(g, t, pc, name).0.configMu, n, g.configMu[n])
  {
  }

  lemma ActKeepsSelf(g: Shared, t: Thread, pc: PC, name: Name)
    requires g.rw.Exclusive() && ThreadOK(g, t, pc)
    ensures ThreadOK(Act(g, t, pc, name).0, t, Act(g, t, pc, name).1)
  {
  }

  lemma ActKeepsOther(g: Shared, t: Thread, pc: PC, name: Name, u: Thread, other: PC)
    requires g.rw.Exclusive() && t != u && ThreadOK(g, t, pc) && ThreadOK(g, u, other)
    ensures ThreadOK(Act(g, t, pc, name).0, u, other)
  {
  }

  /** One step keeps the invariant, and the map only ever gains entries. */
  lemma StepKeepsInv(s: State, t: Thread, name: Name)
    requires Inv(s)
    ensures Inv(Step(s, t, name))
    ensures forall n :: n in s.shared.configMu ==> Known(Step(s, t, name).shared.configMu, n, s.shared.configMu[n])
  {
    if t in s.pc {
      ActExclusive(s, Turn(t, name));
      ActKeepsMap(s.shared, t, s.pc[t], name);
      ActKeepsSelf(s.shared, t, s.pc[t], name);
      forall u | u in s.pc && u != t ensures ThreadOK(Step(s, t, name).shared, u, s.pc[u]) {
        ActKeepsOther(s.shared, t, s.pc[t], name, u, s.pc[u]);
      }
    }
  }

  lemma {:induction false} RunKeepsInv(s: State, schedule: seq<Turn>)
    requires Inv(s)
    ensures Inv(Run(s, schedule))
    ensures forall n :: n in s.shared.configMu ==> Known(Run(s, schedule).shared.configMu, n, s.shared.configMu[n])
    decreases schedule
  {
    if schedule != [] {
      StepKeepsInv(s, schedule[0].thread, schedule[0].name);
      RunKeepsInv(Step(s, schedule[0].thread, schedule[0].name), schedule[1..]);
    }
  }

  /** Over every interleaving of any number of threads: calls for one name return one mutex, calls
      for different names return different ones, and an entry of the map is never overwritten. */
  lemma OneMutexPerName(s: State, before: seq<Turn>, after: seq<Turn>)
    requires Start(s)
    ensures var mid := Run(s, before);
            var end := Run(mid, after).shared;
            && (forall r1, r2 :: r1 in end.returned && r2 in end.returned ==> (r1.0 == r2.0 <==> r1.1 == r2.1))
            && (forall n :: n in mid.shared.configMu ==> Known(end.configMu, n, mid.shared.configMu[n]))
  {
    RunKeepsInv(s, before);
    RunKeepsInv(Run(s, before), after);
    var end := Run(Run(s, before), after).shared;
    forall r1, r2 | r1 in end.returned && r2 in end.returned ensures r1.0 == r2.0 <==> r1.1 == r2.1 {
      assert Known(end.configMu, r1.0, r1.1) && Known(end.configMu, r2.0, r2.1);
    }
  }

  /** At most one thread per core is inside the write-and-reload section. */
  lemma OneReloadPerCore(s: State, schedule: seq<Turn>, t: Thread, u: Thread)
    requires Start(s)
    ensures var pc := Run(s, schedule).pc;
            t in pc && u in pc && pc[t].Inside? && pc[u].Inside? && pc[t].name == pc[u].name ==> t == u
  {
    RunKeepsInv(s, schedule);
    var end := Run(s, schedule);
    if t in end.pc && u in end.pc {
      assert ThreadOK(end.shared, t, end.pc[t]) && ThreadOK(end.shared, u, end.pc[u]);
    }
  }

  /** While one thread is about to write the map, no other is about to read or write it. */
  lemma MapIsNeverRaced(s: State, schedule: seq<Turn>, t: Thread, u: Thread)
    requires Start(s)
    ensures var pc := Run(s, schedule).pc;
            t in pc && u in pc && pc[t].Creating? && t != u ==>
              !(pc[u].Reading? || pc[u].Rechecking? || pc[u].Creating?)
  {
    RunKeepsInv(s, schedule);
    var end := Run(s, schedule);
    if t in end.pc && u in end.pc {
      assert ThreadOK(end.shared, t, end.pc[t]) && ThreadOK(end.shared, u, end.pc[u]);
    }
  }

  // ---- The mutexes are given back ----

  /** The owner of a mutex is in the section the mutex guards. */
  ghost predicate OwnersInside(s: State) {
    forall mu :: mu in s.shared.owner ==>
      var t := s.shared.owner[mu]; t in s.pc && s.pc[t].Inside? && s.pc[t].mu == mu
  }

  lemma StepKeepsOwners(s: State, t: Thread, name: Name)
    requires s.shared.rw.Exclusive() && OwnersInside(s)
    ensures OwnersInside(Step(s, t, name))
  {
    var s' := Step(s, t, name);
    forall mu | mu in s'.shared.owner
      ensures var u := s'.shared.owner[mu]; u in s'.pc && s'.pc[u].Inside? && s'.pc[u].mu == mu
    {
      if mu in s.shared.owner {
        assert s.shared.owner[mu] in s.pc && s.pc[s.shared.owner[mu]].mu == mu;
      }
    }
  }

  lemma {:induction false} RunKeepsOwners(s: State, schedule: seq<Turn>)
    requires s.shared.rw.Exclusive() && OwnersInside(s)
    ensures OwnersInside(Run(s, schedule))
    decreases schedule
  {
    hide OwnersInside, Step;
    if schedule != [] {
      ActExclusive(s, schedule[0]);
      StepKeepsOwners(s, schedule[0].thread, schedule[0].name);
      RunKeepsOwners(Step(s, schedule[0].thread, schedule[0].name), schedule[1..]);
    }
  }

  predicate IsInside(s: State, t: Thread, mu: MutexID) { t in s.pc && s.pc[t].Inside? && s.pc[t].mu == mu }

  /** Over every interleaving a mutex is owned exactly while some thread is inside the section, and by
      that thread: whoever leaves has given it back. */
  lemma OwnedExactly(s: State, schedule: seq<Turn>, mu: MutexID)
    requires Start(s)
    ensures var end := Run(s, schedule);
            && (mu in end.shared.owner <==> exists t :: IsInside(end, t, mu))
            && (forall t :: IsInside(end, t, mu) ==> mu in end.shared.owner && end.shared.owner[mu] == t)
  {
    RunKeepsInv(s, schedule);
    RunKeepsOwners(s, schedule);
    var end := Run(s, schedule);
    if mu in end.shared.owner {
      assert IsInside(end, end.shared.owner[mu], mu);
    }
    forall t | IsInside(end, t, mu) ensures mu in end.shared.owner && end.shared.owner[mu] == t {
      assert ThreadOK(end.shared, t, end.pc[t]);
    }
  }

  /** A step changes nothing exactly when its thread waits: to read while there is a writer, to write
      while there is any holder of the lock, or for a mutex that is owned. */
  lemma WaitsExactly(g: Shared, t: Thread, pc: PC, name: Name)
    requires g.rw.Exclusive()
    ensures Act(g, t, pc, name) == (g, pc) <==>
            || (pc.Called? && g.rw.writer.Some?)
            || (pc.Missed? && (g.rw.writer.Some? || g.rw.readers != {}))
            || (pc.Holding? && pc.mu in g.owner)
  {
  }

  // ---- The simple form it refines ----

  /** Look up or create, in one go. */
  function GetOrCreate(m: map<Name, MutexID>, made: seq<Name>, n: Name): (map<Name, MutexID>, seq<Name>, MutexID) {
    if n in m then (m, made, m[n]) else (m[n := |made|], made + [n], |made|)
  }

  /** Every step of an interleaving either leaves the map alone or is one atomic look-up-or-create,
      and a call returns what the atomic form would return at that moment. */
  lemma StepRefinesAtomic(g: Shared, t: Thread, pc: PC, name: Name)
    requires g.rw.Exclusive() && MapOK(g) && ThreadOK(g, t, pc)
    ensures var (g', pc') := Act(g, t, pc, name);
            && ((g'.configMu, g'.made) == (g.configMu, g.made)
                || (pc.Creating? && pc'.Leaving?
                    && (g'.configMu, g'.made, pc'.mu) == GetOrCreate(g.configMu, g.made, pc.name)))
            && (forall r :: r in g'.returned - g.returned ==>
                  (g'.configMu, g'.made, r.1) == GetOrCreate(g'.configMu, g'.made, r.0))
  {
    ActKeepsMap(g, t, pc, name);
  }

  // ---- A call that nothing interrupts ----

  function Turns(t: Thread, name: Name, k: nat): seq<Turn> {
    if k == 0 then [] else [Turn(t, name)] + Turns(t, name, k - 1)
  }

  lemma OneMoreTurn(s: State, t: Thread, name: Name, k: nat)
    requires s.shared.rw.Exclusive()
    ensures Step(s, t, name).shared.rw.Exclusive()
    ensures Run(s, Turns(t, name, k + 1)) == Run(Step(s, t, name), Turns(t, name, k))
  {
    ActExclusive(s, Turn(t, name));
    assert Turns(t, name, k + 1)[1..] == Turns(t, name, k);
  }

  /** The thread runs on by itself: its local state and the shared one go step by step. */
  lemma Alone(s: State, t: Thread, name: Name, k: nat) returns (next: State)
    requires s.shared.rw.Exclusive() && t in s.pc
    ensures next.shared.rw.Exclusive() && Run(s, Turns(t, name, k + 1)) == Run(next, Turns(t, name, k))
    ensures k == 0 ==> Run(next, Turns(t, name, k)) == next
    ensures t in next.pc && (next.shared, next.pc[t]) == Act(s.shared, t, s.pc[t], name)
  {
    OneMoreTurn(s, t, name, k);
    next := Step(s, t, name);
  }

  /** The four steps under the read lock, other readers or not. */
  lemma LookUp(s: State, t: Thread, name: Name, k: nat) returns (next: State)
    requires s.shared.rw.writer.None? && t !in s.shared.rw.readers && t in s.pc && s.pc[t] == Idle
    ensures next.shared.rw == s.shared.rw && Run(s, Turns(t, name, k + 4)) == Run(next, Turns(t, name, k))
    ensures k == 0 ==> Run(next, Turns(t, name, k)) == next
    ensures t in next.pc
    ensures if name in s.shared.configMu
            then next.shared == s.shared.(returned := s.shared.returned + {(name, s.shared.configMu[name])})
                 && next.pc[t] == Holding(name, s.shared.configMu[name])
            else next.shared == s.shared && next.pc[t] == Missed(name)
  {
    hide Run, Turns;
    var s1 := Alone(s, t, name, k + 3);
    var s2 := Alone(s1, t, name, k + 2);
    var s3 := Alone(s2, t, name, k + 1);
    next := Alone(s3, t, name, k);
    assert s.shared.rw.readers + {t} - {t} == s.shared.rw.readers;
  }

  /** The four steps under the write lock. */
  lemma Make(s: State, t: Thread, name: Name) returns (next: State)
    requires s.shared.rw == UNLOCKED && t in s.pc && s.pc[t] == Missed(name) && name !in s.shared.configMu
    ensures Run(s, Turns(t, name, 4)) == next
    ensures var (m, made, mu) := GetOrCreate(s.shared.configMu, s.shared.made, name);
            && next.shared == s.shared.(configMu := m, made := made, returned := s.shared.returned + {(name, mu)})
            && t in next.pc && next.pc[t] == Holding(name, mu)
  {
    hide Run, Turns;
    var s1 := Alone(s, t, name, 3);
    var s2 := Alone(s1, t, name, 2);
    var s3 := Alone(s2, t, name, 1);
    next := Alone(s3, t, name, 0);
  }

  /** A call that is not interrupted is one look-up-or-create: four steps beside any readers when the
      mutex exists, eight with the lock free when it has to be made; the lock is afterwards as before. */
  lemma UninterruptedCall(s: State, t: Thread, name: Name)
    requires s.shared.rw.writer.None? && t !in s.shared.rw.readers && t in s.pc && s.pc[t] == Idle
    requires name !in s.shared.configMu ==> s.shared.rw.readers == {}
    ensures var (m, made, mu) := GetOrCreate(s.shared.configMu, s.shared.made, name);
            var end := Run(s, Turns(t, name, if name in s.shared.configMu then 4 else 8));
            && end.shared == s.shared.(configMu := m, made := made, returned := s.shared.returned + {(name, mu)})
            && t in end.pc && end.pc[t] == Holding(name, mu)
  {
    hide Run, Turns;
    if name in s.shared.configMu {
      var end := LookUp(s, t, name, 0);
    } else {
      var missed := LookUp(s, t, name, 4);
      var end := Make(missed, t, name);
    }
  }

  /** A thread that holds its mutex's reference and finds the mutex free is inside after one turn and has
      given it back after the next. */
  lemma UninterruptedSection(s: State, t: Thread, name: Name)
    requires s.shared.rw.Exclusive() && t in s.pc && s.pc[t].Holding? && s.pc[t].mu !in s.shared.owner
    ensures var mid := Run(s, Turns(t, name, 1));
            && mid.shared == s.shared.(owner := s.shared.owner[s.pc[t].mu := t])
            && t in mid.pc && mid.pc[t] == Inside(s.pc[t].name, s.pc[t].mu)
    ensures var end := Run(s, Turns(t, name, 2));
            end.shared == s.shared && t in end.pc && end.pc[t] == Idle
  {
    hide Run, Turns;
    var s1 := Alone(s, t, name, 0);
    var again := Alone(s, t, name, 1);
    var s2 := Alone(again, t, name, 0);
    assert s.shared.owner[s.pc[t].mu := t] - {s.pc[t].mu} == s.shared.owner;
  }
}
