/** The pool of HAProxy backend ports (backend/internal/haproxy/port_pool.go). */
module PortPool {
  import opened Options

  /** The first port from p on that is not used. */
  function LeastFree(p: int, end: int, used: set<int>): Option<int>
    decreases end - p
  {
    if p > end then None else if p !in used then Some(p) else LeastFree(p + 1, end, used)
  }

  /** It is the least free port of the range, and there is none exactly when every port is used. */
  lemma {:induction false} LeastFreeExactly(p: int, end: int, used: set<int>)
    ensures LeastFree(p, end, used).None? <==> forall q :: p <= q <= end ==> q in used
    ensures LeastFree(p, end, used).Some? ==>
              var r := LeastFree(p, end, used).value;
              p <= r <= end && r !in used && forall q :: p <= q < r ==> q in used
    decreases end - p
  {
    if p <= end && p in used {
      LeastFreeExactly(p + 1, end, used);
    }
  }

  /** The ports of a list that lie in the range. */
  function InRange(start: int, end: int, ports: seq<int>): set<int> {
    set p | p in ports && start <= p <= end
  }

  class PortPool {
    const Start: int
    const End: int
    var Used: map<int, bool>

    ghost predicate Valid()
      reads this
    {
      forall p :: p in Used ==> Used[p] && Start <= p <= End
    }

    constructor (start: int, end: int)
      ensures Valid() && Start == start && End == end && Used == map[]
    {
      Start, End, Used := start, end, map[];
    }

    predicate IsUsed(port: int)
      reads this
    {
      port in Used && Used[port]
    }

    method AllocatePort() returns (port: Option<int>)
      requires Valid()
      modifies this
      ensures Valid()
      ensures port == LeastFree(Start, End, old(Used.Keys))
      ensures Used.Keys == old(Used.Keys) + if port.Some? then {port.value} else {}
    {
      var p := Start;
      while p <= End
        invariant Used == old(Used) && Start <= p
        invariant LeastFree(Start, End, Used.Keys) == LeastFree(p, End, Used.Keys)
        decreases End - p
      {
        if !IsUsed(p) {
          Used := Used[p := true];
          return Some(p);
        }
        p := p + 1;
      }
      return None;
    }

    method ReleasePort(port: int)
      requires Valid()
      modifies this
      ensures Valid() && Used.Keys == old(Used.Keys) - {port}
    {
      Used := Used - {port};
    }

    method MarkAll(ports: seq<int>)
      requires Valid()
      modifies this
      ensures Valid() && Used.Keys == old(Used.Keys) + InRange(Start, End, ports)
      ensures forall p :: p in Used <==> p in old(Used) || (p in ports && Start <= p <= End)
    {
      for i := 0 to |ports|
        invariant Valid()
        invariant Used.Keys == old(Used.Keys) + InRange(Start, End, ports[..i])
      {
        var port := ports[i];
        if port >= Start && port <= End {
          Used := Used[port := true];
        }
      }
      assert ports[..|ports|] == ports;
    }

    /** The two queries may fail; what the first one marked stays. */
    method SyncWithDB(backendPorts: Option<seq<int>>, directPorts: Option<seq<int>>) returns (ok: bool)
      requires Valid()
      modifies this
      ensures Valid() && ok == (backendPorts.Some? && directPorts.Some?)
      ensures Used.Keys == old(Used.Keys) + Synced(Start, End, backendPorts, directPorts)
      ensures forall p :: p in Used <==>
                || p in old(Used)
                || (Start <= p <= End && backendPorts.Some?
                    && (p in backendPorts.value || (directPorts.Some? && p in directPorts.value)))
    {
      if backendPorts.None? {
        return false;
      }
      MarkAll(backendPorts.value);
      if directPorts.None? {
        return false;
      }
      MarkAll(directPorts.value);
      return true;
    }

    /** Every used port counts, and all of them lie in the range. */
    method GetUsedCount() returns (n: nat)
      requires Valid()
      ensures n == |set p | Start <= p <= End && IsUsed(p)|
    {
      n := |Used|;
      assert (set p | Start <= p <= End && IsUsed(p)) == Used.Keys;
    }

    /** Used and available add up to the size of the range, and unless the range is inverted what is
        reported as available is the number of its ports that are not used. */
    method GetAvailableCount() returns (n: int)
      requires Valid()
      ensures n + |Used| == End - Start + 1
      ensures Start <= End + 1 ==> n == |set p | Start <= p <= End && p !in Used|
    {
      var total := End - Start + 1;
      n := total - |Used|;
      if Start <= End + 1 {
        FreeCount(Start, End, Used.Keys);
        assert (set p | Start <= p <= End && p !in Used) == (set p | Start <= p <= End && p !in Used.Keys);
      }
    }
  }

  lemma FreeCount(start: int, end: int, used: set<int>)
    requires start <= end + 1 && forall p :: p in used ==> start <= p <= end
    ensures |used| + |set p | start <= p <= end && p !in used| == end - start + 1
  {
    var free := set p | start <= p <= end && p !in used;
    assert used + free == Range(start, end + 1) && used !! free;
  }

  ghost function Range(lo: int, hi: int): (ports: set<int>)
    requires lo <= hi
    ensures forall p :: p in ports <==> lo <= p < hi
    ensures |ports| == hi - lo
    decreases hi - lo
  {
    if lo == hi then {} else Range(lo, hi - 1) + {hi - 1}
  }

  /** What a synchronisation marks, counting the half that was done before a failure. */
  function Synced(start: int, end: int, backendPorts: Option<seq<int>>, directPorts: Option<seq<int>>): set<int> {
    if backendPorts.None? then {}
    else
      InRange(start, end, backendPorts.value)
      + if directPorts.Some? then InRange(start, end, directPorts.value) else {}
  }

  // ---- Runs ----

  datatype Event =
    | Allocate
    | Release(port: int)
    | Sync(backendPorts: Option<seq<int>>, directPorts: Option<seq<int>>)

  /** The used ports; those handed out and not released since, in order; those found active by a
      synchronisation and not released since; and of these the ones the pool did not know as used until
      then, as after a restart. */
  datatype State = State(start: int, end: int, used: set<int>, live: seq<int>, active: set<int>, restored: set<int>)

  function Without(ports: seq<int>, port: int): seq<int> {
    if ports == [] then []
    else Without(ports[..|ports| - 1], port) + if ports[|ports| - 1] == port then [] else [ports[|ports| - 1]]
  }

  function Step(s: State, e: Event): State {
    match e
    case Allocate =>
      var port := LeastFree(s.start, s.end, s.used);
      if port.None? then s else s.(used := s.used + {port.value}, live := s.live + [port.value])
    case Release(port) =>
      s.(used := s.used - {port}, live := Without(s.live, port), active := s.active - {port},
         restored := s.restored - {port})
    case Sync(backendPorts, directPorts) =>
      var found := Synced(s.start, s.end, backendPorts, directPorts);
      s.(used := s.used + found, active := s.active + found, restored := s.restored + (found - s.used))
  }

  function Run(s: State, es: seq<Event>): State
    decreases es
  {
    if es == [] then s else Run(Step(s, es[0]), es[1..])
  }

  function New(start: int, end: int): State { State(start, end, {}, [], {}, {}) }

  ghost predicate Distinct(ports: seq<int>) { forall i, j :: 0 <= i < j < |ports| ==> ports[i] != ports[j] }

  ghost predicate Inv(s: State) {
    && (forall p :: p in s.used ==> s.start <= p <= s.end)
    && Distinct(s.live)
    && (forall p :: p in s.live ==> p in s.used)
    && s.active <= s.used && s.restored <= s.active
    && (forall p :: p in s.live ==> p !in s.restored)
  }

  lemma {:induction false} WithoutKeeps(ports: seq<int>, port: int)
    ensures forall p :: p in Without(ports, port) <==> p in ports && p != port
    ensures Distinct(ports) ==> Distinct(Without(ports, port))
  {
    if ports != [] {
      var n := |ports| - 1;
      WithoutKeeps(ports[..n], port);
      assert Distinct(ports) ==> Distinct(ports[..n]) && ports[n] !in ports[..n];
    }
  }

  lemma StepKeepsInv(s: State, e: Event)
    requires Inv(s)
    ensures Inv(Step(s, e))
  {
    match e
    case Allocate => LeastFreeExactly(s.start, s.end, s.used);
    case Release(port) => WithoutKeeps(s.live, port);
    case Sync(_, _) =>
  }

  lemma {:induction false} RunKeepsInv(s: State, es: seq<Event>)
    requires Inv(s)
    ensures Inv(Run(s, es)) && Run(s, es).start == s.start && Run(s, es).end == s.end
    decreases es
  {
    if es != [] {
      StepKeepsInv(s, es[0]);
      RunKeepsInv(Step(s, es[0]), es[1..]);
    }
  }

  lemma {:induction false} RunKeepsUsed(s: State, es: seq<Event>, p: int)
    requires p in s.used && forall k :: 0 <= k < |es| ==> es[k] != Release(p)
    ensures p in Run(s, es).used
    decreases es
  {
    if es != [] {
      assert es[0] != Release(p);
      RunKeepsUsed(Step(s, es[0]), es[1..], p);
    }
  }

  /** A port of the range that a synchronisation found active is not handed out by any later run before
      it is released, whatever became of the second query. */
  lemma SyncedPortsAreKept(s: State, ports: seq<int>, direct: Option<seq<int>>, es: seq<Event>, p: int)
    requires s.start <= p <= s.end && (p in ports || (direct.Some? && p in direct.value))
    requires forall k :: 0 <= k < |es| ==> es[k] != Release(p)
    ensures var after := Run(Step(s, Sync(Some(ports), direct)), es);
            p in after.used && LeastFree(s.start, s.end, after.used) != Some(p)
  {
    var synced := Step(s, Sync(Some(ports), direct));
    assert p in synced.used;
    RunKeepsUsed(synced, es, p);
    LeastFreeExactly(s.start, s.end, Run(synced, es).used);
  }

  /** Over any run, the used ports stay in the range, and the next allocation gives the least unused
      port, one that nobody holds and no synchronisation found active; it fails exactly when the
      whole range is used. */
  lemma AllocationIsSafe(start: int, end: int, es: seq<Event>)
    ensures var s := Run(New(start, end), es);
            var port := LeastFree(start, end, s.used);
            && (forall p :: p in s.used ==> start <= p <= end)
            && Distinct(s.live) && (forall p :: p in s.live ==> p in s.used && p !in s.restored)
            && s.restored <= s.active <= s.used
            && (port.None? <==> forall q :: start <= q <= end ==> q in s.used)
            && (port.Some? ==>
                  && start <= port.value <= end
                  && port.value !in s.live && port.value !in s.active
                  && forall q :: start <= q < port.value ==> q in s.used)
  {
    RunKeepsInv(New(start, end), es);
    LeastFreeExactly(start, end, Run(New(start, end), es).used);
  }
}
