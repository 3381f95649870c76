/** The data behind the HAProxy configuration (backend/internal/haproxy/generator.go): assignments
    grouped by listen port, and one backend for each. */

/** Numbers in decimal, and names built from them. */
module Names {
  import opened Options

  function Digit(d: nat): char
    requires d < 10
  {
    "0123456789"[d]
  }

  function Natural(n: nat): (s: string)
    ensures |s| > 0
  {
    if n < 10 then [Digit(n)] else Natural(n / 10) + [Digit(n % 10)]
  }

  function Decimal(n: int): string { if n < 0 then "-" + Natural(-n) else Natural(n) }

  predicate Bare(s: string) { forall k :: 0 <= k < |s| ==> s[k] != '_' }

  lemma {:induction false} NaturalIsBare(n: nat)
    ensures Bare(Natural(n)) && Natural(n)[0] != '-'
  {
    DigitIsDigit(n % 10);
    if n >= 10 {
      NaturalIsBare(n / 10);
    }
  }

  /** Reading a number, digit by digit from the left. */
  function ReadNatural(s: string): Option<int> {
    if s == [] then None
    else
      var last := s[|s| - 1];
      if !('0' <= last <= '9') then None
      else if |s| == 1 then Some(last as int - '0' as int)
      else
        match ReadNatural(s[..|s| - 1])
        case None => None
        case Some(n) => Some(10 * n + (last as int - '0' as int))
  }

  function ReadDecimal(s: string): Option<int> {
    var negative := s != [] && s[0] == '-';
    match ReadNatural(if negative then s[1..] else s)
    case None => None
    case Some(n) => Some(if negative then -n else n)
  }

  lemma DigitIsDigit(d: nat)
    requires d < 10
    ensures '0' <= Digit(d) <= '9' && Digit(d) as int == '0' as int + d
  {
    var digits := "0123456789";
    assert digits[0] == '0' && digits[1] == '1' && digits[2] == '2' && digits[3] == '3' && digits[4] == '4';
    assert digits[5] == '5' && digits[6] == '6' && digits[7] == '7' && digits[8] == '8' && digits[9] == '9';
  }

  lemma {:induction false} ReadInvertsNatural(n: nat)
    ensures ReadNatural(Natural(n)) == Some(n)
  {
    var s := Natural(n);
    DigitIsDigit(n % 10);
    if n >= 10 {
      ReadInvertsNatural(n / 10);
      assert s[..|s| - 1] == Natural(n / 10) && s[|s| - 1] == Digit(n % 10);
    }
  }

  /** What is printed reads back as the number. */
  lemma ReadInvertsDecimal(n: int)
    ensures ReadDecimal(Decimal(n)) == Some(n) && |Decimal(n)| > 0
    ensures n >= 0 ==> ReadNatural(Decimal(n)) == Some(n)
  {
    var m: nat := if n < 0 then -n else n;
    NaturalIsBare(m);
    ReadInvertsNatural(m);
    if n < 0 {
      assert Decimal(n)[0] == '-' && Decimal(n)[1..] == Natural(m);
    }
  }

  lemma DecimalsDiffer(m: int, n: int)
    ensures Decimal(m) == Decimal(n) <==> m == n
    ensures Bare(Decimal(m))
  {
    NaturalIsBare(if m < 0 then -m else m);
    ReadInvertsDecimal(m);
    ReadInvertsDecimal(n);
  }

  /** The part after the last underscore is no longer than any other part after an underscore. */
  lemma ShortestEnd(x: string, a: string, y: string, b: string)
    requires Bare(b) && x + "_" + a == y + "_" + b
    ensures |a| >= |b|
  {
    assert (x + "_" + a)[|x|] == '_';
    assert forall k :: 0 <= k < |b| ==> (y + "_" + b)[|y| + 1 + k] == b[k];
  }

  /** A name can be cut at its last underscore. */
  lemma LastUnderscore(x: string, a: string, y: string, b: string)
    requires Bare(a) && Bare(b) && x + "_" + a == y + "_" + b
    ensures x == y && a == b
  {
    ShortestEnd(x, a, y, b);
    ShortestEnd(y, b, x, a);
    var s := x + "_" + a;
    assert s[..|x|] == x && s[..|y|] == y;
    assert s[|x| + 1..] == a && s[|y| + 1..] == b;
  }
}

module HaproxyGenerator {
  import opened Options
  import opened Selection
  import opened Names

  datatype PortAssignment = PortAssignment(
    inboundID: nat,
    userListenPort: int,
    backendPort: int,
    coreType: string,
    useHAProxy: bool,
    sniMatch: string,
    pathMatch: string,
    sendProxyProtocol: bool
  )

  datatype BackendData = BackendData(
    name: string,
    backendName: string,
    backendPort: int,
    coreType: string,
    mode: string,
    sniMatch: string,
    pathMatch: string,
    serverName: string,
    sendProxyProtocol: bool,
    useXForwardedFor: bool
  )

  datatype PortGroupData = PortGroupData(
    port: int, mode: string, hasTLS: bool, hasSNI: bool, hasPath: bool, backends: seq<BackendData>)

  datatype TemplateData = TemplateData(portGroups: map<int, PortGroupData>, backends: seq<BackendData>)

  function BackendName(coreType: string, port: int): string { "bk_" + coreType + "_" + Decimal(port) }

  function ServerName(coreType: string, port: int): string { coreType + "_" + Decimal(port) }

  /** How an assignment appears in its port group. */
  function InGroup(a: PortAssignment): BackendData {
    BackendData("inbound_" + Decimal(a.inboundID), BackendName(a.coreType, a.backendPort), a.backendPort, a.coreType,
                "", a.sniMatch, a.pathMatch, ServerName(a.coreType, a.backendPort), false, false)
  }

  /** How it appears in the list of backends. */
  function AsBackend(a: PortAssignment): BackendData {
    BackendData("inbound_" + Decimal(a.inboundID), BackendName(a.coreType, a.backendPort), a.backendPort, a.coreType,
                if a.pathMatch != "" then "http" else "tcp", "", "", ServerName(a.coreType, a.backendPort),
                a.sendProxyProtocol && a.coreType == "xray", a.coreType == "singbox" || a.coreType == "mihomo")
  }

  function Proxied(): PortAssignment -> bool { (a: PortAssignment) => a.useHAProxy }

  function ListensOn(port: int): PortAssignment -> bool {
    (a: PortAssignment) => a.useHAProxy && a.userListenPort == port
  }

  /** What a group says about its members: the flags are the disjunctions over them. */
  ghost predicate Describes(g: PortGroupData, port: int, members: seq<PortAssignment>) {
    && g.port == port
    && g.backends == Map(members, InGroup)
    && (g.hasSNI <==> exists a :: a in members && a.sniMatch != "")
    && (g.hasPath <==> exists a :: a in members && a.pathMatch != "")
    && (g.hasTLS <==> g.hasSNI || g.hasPath)
    && g.mode == (if g.hasPath then "http" else "tcp")
  }

  /** The template data made of a list of assignments. */
  ghost predicate Generated(data: TemplateData, assignments: seq<PortAssignment>) {
    && (forall port :: port in data.portGroups <==> exists a :: a in assignments && ListensOn(port)(a))
    && (forall port :: port in data.portGroups ==>
          Describes(data.portGroups[port], port, Select(assignments, ListensOn(port))))
    && data.backends == Map(Select(assignments, Proxied()), AsBackend)
  }

  method GroupByPort(assignments: seq<PortAssignment>) returns (portGroups: map<int, seq<PortAssignment>>)
    ensures forall port :: port in portGroups <==> exists a :: a in assignments && ListensOn(port)(a)
    ensures forall port :: port in portGroups ==> portGroups[port] == Select(assignments, ListensOn(port))
  {
    portGroups := map[];
    for i := 0 to |assignments|
      invariant forall port :: port in portGroups <==> Select(assignments[..i], ListensOn(port)) != []
      invariant forall port :: port in portGroups ==> portGroups[port] == Select(assignments[..i], ListensOn(port))
    {
      var a := assignments[i];
      forall port
        ensures Select(assignments[..i + 1], ListensOn(port)) ==
                Select(assignments[..i], ListensOn(port)) + if ListensOn(port)(a) then [a] else []
      {
        SelectNext(assignments, ListensOn(port), i);
      }
      if !a.useHAProxy {
        continue;
      }
      var group := if a.userListenPort in portGroups then portGroups[a.userListenPort] else [];
      portGroups := portGroups[a.userListenPort := group + [a]];
    }
    assert assignments[..|assignments|] == assignments;
    forall port ensures port in portGroups <==> exists a :: a in assignments && ListensOn(port)(a) {
      SelectSome(assignments, port);
    }
  }

  lemma SelectSome(assignments: seq<PortAssignment>, port: int)
    ensures Select(assignments, ListensOn(port)) != [] <==> exists a :: a in assignments && ListensOn(port)(a)
  {
    var p := ListensOn(port);
    var ns := Places(assignments, p);
    SelectExactly(assignments, p);
    if Select(assignments, p) != [] {
      assert ns[0] in ns;
      assert p(assignments[ns[0]]);
    }
    if a :| a in assignments && p(a) {
      var i: nat :| i < |assignments| && assignments[i] == a;
      assert i in ns;
    }
  }

  /** One group: the flags start false and are raised by the members. */
  method BuildGroup(port: int, group: seq<PortAssignment>) returns (groupData: PortGroupData)
    ensures Describes(groupData, port, group)
  {
    hide Natural, Decimal;
    var hasTLS := false;
    var hasSNI := false;
    var hasPath := false;
    var backends := [];
    for i := 0 to |group|
      invariant backends == Map(group[..i], InGroup)
      invariant hasSNI <==> exists k :: 0 <= k < i && group[k].sniMatch != ""
      invariant hasPath <==> exists k :: 0 <= k < i && group[k].pathMatch != ""
      invariant hasTLS <==> hasSNI || hasPath
    {
      var a := group[i];
      var backendData := BackendData("inbound_" + Decimal(a.inboundID), BackendName(a.coreType, a.backendPort),
                                     a.backendPort, a.coreType, "", a.sniMatch, a.pathMatch,
                                     ServerName(a.coreType, a.backendPort), false, false);
      if a.sniMatch != "" {
        hasSNI := true;
        hasTLS := true;
      }
      if a.pathMatch != "" {
        hasPath := true;
        hasTLS := true;
      }
      backends := backends + [backendData];
    }
    assert group[..|group|] == group;
    groupData := PortGroupData(port, if hasPath then "http" else "tcp", hasTLS, hasSNI, hasPath, backends);
  }

  method BuildBackends(assignments: seq<PortAssignment>) returns (backends: seq<BackendData>)
    ensures backends == Map(Select(assignments, Proxied()), AsBackend)
  {
    hide Natural, Decimal;
    backends := [];
    for i := 0 to |assignments|
      invariant backends == Map(Select(assignments[..i], Proxied()), AsBackend)
    {
      var a := assignments[i];
      PickNext(assignments, Proxied(), AsBackend, i);
      if !a.useHAProxy {
        continue;
      }
      var useProxyV2 := a.sendProxyProtocol && a.coreType == "xray";
      var useXFF := a.coreType == "singbox" || a.coreType == "mihomo";
      var mode := "tcp";
      if a.pathMatch != "" {
        mode := "http";
      }
      backends := backends +
        [BackendData("inbound_" + Decimal(a.inboundID), BackendName(a.coreType, a.backendPort), a.backendPort,
                     a.coreType, mode, "", "", ServerName(a.coreType, a.backendPort), useProxyV2, useXFF)];
    }
    assert assignments[..|assignments|] == assignments;
  }

  lemma HasMember(ports: set<int>)
    ensures ports != {} ==> exists port :: port in ports
  {
    if forall port :: port !in ports {
      assert ports == {};
    }
  }

  ghost predicate AllDescribed(built: map<int, PortGroupData>, groups: map<int, seq<PortAssignment>>) {
    forall port :: port in built ==> port in groups && Describes(built[port], port, groups[port])
  }

  lemma OneMoreDescribed(built: map<int, PortGroupData>, groups: map<int, seq<PortAssignment>>, port: int,
                         g: PortGroupData)
    requires AllDescribed(built, groups) && port in groups && Describes(g, port, groups[port])
    ensures AllDescribed(built[port := g], groups)
  {
    hide Describes;
  }

  /** Generate up to the template data; the groups are visited in any order. */
  method Generate(assignments: seq<PortAssignment>) returns (data: TemplateData)
    ensures Generated(data, assignments)
  {
    hide Describes, Select, Map, AsBackend;
    var portGroups := GroupByPort(assignments);
    var templatePortGroups := BuildGroups(portGroups);
    var templateBackends := BuildBackends(assignments);
    data := TemplateData(templatePortGroups, templateBackends);
  }

  method BuildGroups(portGroups: map<int, seq<PortAssignment>>) returns (templatePortGroups: map<int, PortGroupData>)
    ensures templatePortGroups.Keys == portGroups.Keys && AllDescribed(templatePortGroups, portGroups)
  {
    templatePortGroups := map[];
    assert AllDescribed(templatePortGroups, portGroups);
    hide Describes, AllDescribed;
    var left := portGroups.Keys;
    while left != {}
      invariant left <= portGroups.Keys
      invariant templatePortGroups.Keys == portGroups.Keys - left
      invariant AllDescribed(templatePortGroups, portGroups)
    {
      HasMember(left);
      var port :| port in left;
      var groupData := BuildGroup(port, portGroups[port]);
      OneMoreDescribed(templatePortGroups, portGroups, port, groupData);
      templatePortGroups := templatePortGroups[port := groupData];
      left := left - {port};
    }
  }

  // ---- Conservation ----

  /** `places` lists, in input order, where the assignments behind the entries stand. */
  ghost predicate Lists(entries: seq<BackendData>, f: PortAssignment -> BackendData,
                        assignments: seq<PortAssignment>, places: seq<nat>)
  {
    && |entries| == |places| && Increasing(places)
    && forall k :: 0 <= k < |places| ==> places[k] < |assignments| && entries[k] == f(assignments[places[k]])
  }

  lemma SelectedAreListed(assignments: seq<PortAssignment>, p: PortAssignment -> bool, f: PortAssignment -> BackendData)
    ensures Lists(Map(Select(assignments, p), f), f, assignments, Places(assignments, p))
    ensures forall i: nat :: i in Places(assignments, p) <==> i < |assignments| && p(assignments[i])
  {
    hide Select, Places, Increasing;
    SelectExactly(assignments, p);
    var places, entries := Places(assignments, p), Map(Select(assignments, p), f);
    forall k | 0 <= k < |places| ensures places[k] < |assignments| && entries[k] == f(assignments[places[k]]) {
      assert entries[k] == f(Select(assignments, p)[k]);
    }
  }

  lemma BackendsAreConserved(data: TemplateData, assignments: seq<PortAssignment>)
    requires Generated(data, assignments)
    ensures Lists(data.backends, AsBackend, assignments, Places(assignments, Proxied()))
    ensures forall i: nat :: i in Places(assignments, Proxied()) <==> i < |assignments| && assignments[i].useHAProxy
  {
    hide AsBackend, Describes, Lists, Places, Map, Select;
    SelectedAreListed(assignments, Proxied(), AsBackend);
  }

  lemma GroupIsConserved(data: TemplateData, assignments: seq<PortAssignment>, port: int)
    requires Generated(data, assignments)
    ensures port in data.portGroups ==>
              Lists(data.portGroups[port].backends, InGroup, assignments, Places(assignments, ListensOn(port)))
    ensures forall i: nat :: i in Places(assignments, ListensOn(port)) <==>
              i < |assignments| && assignments[i].useHAProxy && assignments[i].userListenPort == port
  {
    hide InGroup, Lists, Places, Map, Select;
    SelectedAreListed(assignments, ListensOn(port), InGroup);
  }

  lemma PortHasGroup(data: TemplateData, assignments: seq<PortAssignment>, i: nat)
    requires Generated(data, assignments) && i < |assignments| && assignments[i].useHAProxy
    ensures assignments[i].userListenPort in data.portGroups
  {
    hide Describes;
    assert assignments[i] in assignments && ListensOn(assignments[i].userListenPort)(assignments[i]);
  }

  /** Whatever the order in which groups were visited: every proxied assignment stands exactly once,
      in input order, in the group of its listen port and once in the backends, and no other
      assignment stands anywhere. */
  lemma AssignmentsAreConserved(data: TemplateData, assignments: seq<PortAssignment>)
    requires Generated(data, assignments)
    ensures Lists(data.backends, AsBackend, assignments, Places(assignments, Proxied()))
    ensures forall i: nat :: i in Places(assignments, Proxied()) <==> i < |assignments| && assignments[i].useHAProxy
    ensures forall port :: port in data.portGroups ==>
              Lists(data.portGroups[port].backends, InGroup, assignments, Places(assignments, ListensOn(port)))
    ensures forall port: int, i: nat :: i in Places(assignments, ListensOn(port)) <==>
              i < |assignments| && assignments[i].useHAProxy && assignments[i].userListenPort == port
    ensures forall i: nat :: i < |assignments| && assignments[i].useHAProxy ==>
              assignments[i].userListenPort in data.portGroups
  {
    hide *;
    BackendsAreConserved(data, assignments);
    forall port: int
      ensures port in data.portGroups ==>
                Lists(data.portGroups[port].backends, InGroup, assignments, Places(assignments, ListensOn(port)))
      ensures forall i: nat :: i in Places(assignments, ListensOn(port)) <==>
                i < |assignments| && assignments[i].useHAProxy && assignments[i].userListenPort == port
    {
      GroupIsConserved(data, assignments, port);
    }
    forall i: nat | i < |assignments| && assignments[i].useHAProxy
      ensures assignments[i].userListenPort in data.portGroups
    {
      PortHasGroup(data, assignments, i);
    }
  }

  // ---- What a group says ----

  predicate Proxies(a: PortAssignment, port: int) { a.useHAProxy && a.userListenPort == port }

  /** There is a group for a port exactly when some proxied assignment listens on it; the group has SNI,
      or paths, exactly when one of those does, TLS when either, and speaks HTTP exactly when one of them
      has a path. */
  lemma GroupsSay(data: TemplateData, assignments: seq<PortAssignment>, port: int)
    requires Generated(data, assignments)
    ensures port in data.portGroups <==> exists a :: a in assignments && Proxies(a, port)
    ensures port in data.portGroups ==>
              var g := data.portGroups[port];
              && g.port == port
              && (g.hasSNI <==> exists a :: a in assignments && Proxies(a, port) && a.sniMatch != "")
              && (g.hasPath <==> exists a :: a in assignments && Proxies(a, port) && a.pathMatch != "")
              && (g.hasTLS <==>
                  exists a :: a in assignments && Proxies(a, port) && (a.sniMatch != "" || a.pathMatch != ""))
              && (g.mode == "http" <==> exists a :: a in assignments && Proxies(a, port) && a.pathMatch != "")
              && (g.mode == "tcp" <==> forall a :: a in assignments && Proxies(a, port) ==> a.pathMatch == "")
  {
    hide InGroup, AsBackend, Select, Map;
    assert "http"[0] != "tcp"[0];
    forall a ensures a in Select(assignments, ListensOn(port)) <==> a in assignments && Proxies(a, port) {
      SelectedMember(assignments, ListensOn(port), a);
    }
    assert forall a :: ListensOn(port)(a) <==> Proxies(a, port);
  }

  lemma SelectedMember(assignments: seq<PortAssignment>, p: PortAssignment -> bool, a: PortAssignment)
    ensures a in Select(assignments, p) <==> a in assignments && p(a)
  {
    hide Select, Places, Increasing;
    SelectExactly(assignments, p);
    var ns := Places(assignments, p);
    if a in assignments && p(a) {
      var i: nat :| i < |assignments| && assignments[i] == a;
      assert i in ns;
      var k :| 0 <= k < |ns| && ns[k] == i;
      assert Select(assignments, p)[k] == a;
    }
    if k :| 0 <= k < |Select(assignments, p)| && Select(assignments, p)[k] == a {
      assert ns[k] in ns;
    }
  }

  // ---- What an entry says ----

  /** The entry a group has for an assignment carries its matchers, and the one among the backends how
      HAProxy is to speak to its core: over HTTP when it has a path, with the PROXY protocol only to an
      Xray that asks for it, and with a forwarding header to the two cores that read it. No backend gets
      both. The two entries name one backend, port, core and server. */
  lemma EntriesSay(a: PortAssignment)
    ensures var g, b := InGroup(a), AsBackend(a);
            && (g.sniMatch, g.pathMatch, g.mode, g.sendProxyProtocol, g.useXForwardedFor)
               == (a.sniMatch, a.pathMatch, "", false, false)
            && (b.sniMatch, b.pathMatch) == ("", "")
            && (b.mode == "http" <==> a.pathMatch != "") && (b.mode == "tcp" <==> a.pathMatch == "")
            && (b.sendProxyProtocol <==> a.sendProxyProtocol && a.coreType == "xray")
            && (b.useXForwardedFor <==> a.coreType == "singbox" || a.coreType == "mihomo")
            && !(b.sendProxyProtocol && b.useXForwardedFor)
            && (g.backendPort, g.coreType) == (a.backendPort, a.coreType)
            && (g.name, g.backendName, g.backendPort, g.coreType, g.serverName)
               == (b.name, b.backendName, b.backendPort, b.coreType, b.serverName)
            && "bk_" + g.serverName == g.backendName
            && |g.name| > 8 && g.name[..8] == "inbound_" && ReadNatural(g.name[8..]) == Some(a.inboundID)
            && |g.serverName| > |a.coreType| && g.serverName[..|a.coreType| + 1] == a.coreType + "_"
            && ReadDecimal(g.serverName[|a.coreType| + 1..]) == Some(a.backendPort)
  {
    hide Natural, ReadNatural, ReadDecimal, Decimal;
    var name, server := "inbound_" + Decimal(a.inboundID), ServerName(a.coreType, a.backendPort);
    ReadInvertsDecimal(a.inboundID);
    ReadInvertsDecimal(a.backendPort);
    assert name[..8] == "inbound_" && name[8..] == Decimal(a.inboundID);
    assert server[..|a.coreType| + 1] == a.coreType + "_";
    assert server[|a.coreType| + 1..] == Decimal(a.backendPort);
    assert "bk_" + server == BackendName(a.coreType, a.backendPort);
    assert "http" != "tcp" && "xray" != "singbox" && "xray" != "mihomo" by {
      assert "http"[0] != "tcp"[0] && |"xray"| == 4 && |"singbox"| == 7 && |"mihomo"| == 6;
    }
  }

  // ---- Names and references ----

  /** A backend's name determines its core and its port. */
  lemma NamesDetermine(c1: string, p1: int, c2: string, p2: int)
    ensures BackendName(c1, p1) == BackendName(c2, p2) <==> c1 == c2 && p1 == p2
  {
    DecimalsDiffer(p1, p2);
    DecimalsDiffer(p2, p1);
    if BackendName(c1, p1) == BackendName(c2, p2) {
      LastUnderscore("bk_" + c1, Decimal(p1), "bk_" + c2, Decimal(p2));
      assert ("bk_" + c1)[3..] == c1 && ("bk_" + c2)[3..] == c2;
    }
  }

  predicate SameBackend(a: PortAssignment, b: PortAssignment) {
    a.coreType == b.coreType && a.backendPort == b.backendPort
  }

  /** No two proxied assignments share both core and backend port. */
  ghost predicate NoClash(assignments: seq<PortAssignment>) {
    forall i, j :: 0 <= i < j < |assignments| && assignments[i].useHAProxy && assignments[j].useHAProxy ==>
                     !SameBackend(assignments[i], assignments[j])
  }

  /** The name stands exactly once among the backends. */
  ghost predicate ResolvesOnce(name: string, backends: seq<BackendData>) {
    exists k :: 0 <= k < |backends| && backends[k].backendName == name
                && forall j :: 0 <= j < |backends| && backends[j].backendName == name ==> j == k
  }

  lemma BackendOf(data: TemplateData, assignments: seq<PortAssignment>, i: nat) returns (k: nat)
    requires Generated(data, assignments) && i < |assignments| && assignments[i].useHAProxy
    ensures k < |data.backends| && k < |Places(assignments, Proxied())| && Places(assignments, Proxied())[k] == i
    ensures data.backends[k].backendName == BackendName(assignments[i].coreType, assignments[i].backendPort)
  {
    AssignmentsAreConserved(data, assignments);
    var places := Places(assignments, Proxied());
    assert i in places;
    k :| 0 <= k < |places| && places[k] == i;
  }

  /** Every backend reference of every group leads to exactly one backend. */
  ghost predicate AllResolve(data: TemplateData) {
    forall port, m :: port in data.portGroups && 0 <= m < |data.portGroups[port].backends| ==>
                        ResolvesOnce(data.portGroups[port].backends[m].backendName, data.backends)
  }

  lemma EntryName(data: TemplateData, assignments: seq<PortAssignment>, j: nat) returns (i: nat)
    requires Generated(data, assignments) && j < |data.backends|
    ensures j < |Places(assignments, Proxied())| && Places(assignments, Proxied())[j] == i
    ensures i < |assignments| && assignments[i].useHAProxy
    ensures data.backends[j].backendName == BackendName(assignments[i].coreType, assignments[i].backendPort)
  {
    hide Generated, Places, BackendName;
    BackendsAreConserved(data, assignments);
    i := Places(assignments, Proxied())[j];
    assert i in Places(assignments, Proxied());
  }

  lemma OneBackend(data: TemplateData, assignments: seq<PortAssignment>, i: nat)
    requires Generated(data, assignments) && i < |assignments| && assignments[i].useHAProxy && NoClash(assignments)
    ensures ResolvesOnce(BackendName(assignments[i].coreType, assignments[i].backendPort), data.backends)
  {
    hide Generated, Places, BackendName, NoClash;
    var places := Places(assignments, Proxied());
    var k := BackendOf(data, assignments, i);
    forall j | 0 <= j < |data.backends| && data.backends[j].backendName == data.backends[k].backendName
      ensures j == k
    {
      var i' := EntryName(data, assignments, j);
      SameNameSamePlace(assignments, i, i');
      SelectExactly(assignments, Proxied());
    }
  }

  lemma SameNameSamePlace(assignments: seq<PortAssignment>, i: nat, j: nat)
    requires NoClash(assignments) && i < |assignments| && j < |assignments|
    requires assignments[i].useHAProxy && assignments[j].useHAProxy
    requires BackendName(assignments[i].coreType, assignments[i].backendPort)
             == BackendName(assignments[j].coreType, assignments[j].backendPort)
    ensures i == j
  {
    hide BackendName;
    var a, b := assignments[i], assignments[j];
    NamesDetermine(a.coreType, a.backendPort, b.coreType, b.backendPort);
  }

  lemma TwoBackends(data: TemplateData, assignments: seq<PortAssignment>, i: nat, j: nat)
    requires Generated(data, assignments) && i < j < |assignments|
    requires assignments[i].useHAProxy && assignments[j].useHAProxy && SameBackend(assignments[i], assignments[j])
    ensures !ResolvesOnce(BackendName(assignments[i].coreType, assignments[i].backendPort), data.backends)
  {
    var k := BackendOf(data, assignments, i);
    var l := BackendOf(data, assignments, j);
  }

  lemma ReferenceOf(data: TemplateData, assignments: seq<PortAssignment>, port: int, m: nat) returns (i: nat)
    requires Generated(data, assignments) && port in data.portGroups && m < |data.portGroups[port].backends|
    ensures i < |assignments| && assignments[i].useHAProxy
    ensures data.portGroups[port].backends[m].backendName
            == BackendName(assignments[i].coreType, assignments[i].backendPort)
  {
    AssignmentsAreConserved(data, assignments);
    i := Places(assignments, ListensOn(port))[m];
    assert i in Places(assignments, ListensOn(port));
  }

  lemma ReferenceTo(data: TemplateData, assignments: seq<PortAssignment>, i: nat) returns (port: int, m: nat)
    requires Generated(data, assignments) && i < |assignments| && assignments[i].useHAProxy
    ensures port in data.portGroups && m < |data.portGroups[port].backends|
    ensures data.portGroups[port].backends[m].backendName
            == BackendName(assignments[i].coreType, assignments[i].backendPort)
  {
    AssignmentsAreConserved(data, assignments);
    port := assignments[i].userListenPort;
    var places := Places(assignments, ListensOn(port));
    assert i in places;
    m :| 0 <= m < |places| && places[m] == i;
  }

  /** Every reference of a group to a backend can be followed to exactly one backend, for all groups,
      exactly when no two proxied assignments share core and backend port. */
  lemma ReferencesResolveExactly(data: TemplateData, assignments: seq<PortAssignment>)
    requires Generated(data, assignments)
    ensures AllResolve(data) <==> NoClash(assignments)
  {
    if NoClash(assignments) {
      forall port, m | port in data.portGroups && 0 <= m < |data.portGroups[port].backends|
        ensures ResolvesOnce(data.portGroups[port].backends[m].backendName, data.backends)
      {
        var i := ReferenceOf(data, assignments, port, m);
        OneBackend(data, assignments, i);
      }
    } else {
      var i, j :| 0 <= i < j < |assignments| && assignments[i].useHAProxy && assignments[j].useHAProxy
                  && SameBackend(assignments[i], assignments[j]);
      TwoBackends(data, assignments, i, j);
      var port, m := ReferenceTo(data, assignments, i);
    }
  }
}

/** Assignments whose backend ports come from the pool. */
module PooledGenerator {
  import PortPool
  import opened HaproxyGenerator

  /** How an assignment holds its backend port: by an allocation of the running pool, or since before
      the pool was started, when a synchronisation has found it. */
  datatype Hold = Allocated(index: nat) | Restored

  predicate HoldsPort(s: PortPool.State, a: PortAssignment, h: Hold) {
    match h
    case Allocated(k) => k < |s.live| && s.live[k] == a.backendPort
    case Restored => a.backendPort in s.restored
  }

  /** Every proxied assignment holds its port; no two hold one allocation, and no two restored ones were
      stored with one port. */
  ghost predicate Holds(assignments: seq<PortAssignment>, s: PortPool.State, held: seq<Hold>) {
    && |held| == |assignments|
    && (forall i :: 0 <= i < |assignments| && assignments[i].useHAProxy ==> HoldsPort(s, assignments[i], held[i]))
    && (forall i, j :: 0 <= i < j < |assignments| && assignments[i].useHAProxy && assignments[j].useHAProxy
                       && held[i] == held[j] ==>
                         held[i].Restored? && assignments[i].backendPort != assignments[j].backendPort)
  }

  /** After any run of the pool, restarts behind it included, every group reference of the generated
      data leads to exactly one backend. */
  lemma PooledReferencesResolve(start: int, end: int, es: seq<PortPool.Event>, assignments: seq<PortAssignment>,
                                held: seq<Hold>, data: TemplateData)
    requires Holds(assignments, PortPool.Run(PortPool.New(start, end), es), held)
    requires Generated(data, assignments)
    ensures AllResolve(data)
  {
    var s := PortPool.Run(PortPool.New(start, end), es);
    PortPool.AllocationIsSafe(start, end, es);
    forall i, j | 0 <= i < j < |assignments| && assignments[i].useHAProxy && assignments[j].useHAProxy
      ensures !SameBackend(assignments[i], assignments[j])
    {
      assert HoldsPort(s, assignments[i], held[i]) && HoldsPort(s, assignments[j], held[j]);
      DifferentPorts(s, assignments[i], held[i], assignments[j], held[j]);
    }
    ReferencesResolveExactly(data, assignments);
  }

  /** Allocated ports differ from one another and from every restored port. */
  lemma DifferentPorts(s: PortPool.State, a: PortAssignment, g: Hold, b: PortAssignment, h: Hold)
    requires PortPool.Distinct(s.live) && forall p :: p in s.live ==> p !in s.restored
    requires HoldsPort(s, a, g) && HoldsPort(s, b, h)
    ensures g != h ==> a.backendPort != b.backendPort
  {
    if g.Allocated? && h.Allocated? {
      assert g.index < h.index ==> s.live[g.index] != s.live[h.index];
      assert h.index < g.index ==> s.live[h.index] != s.live[g.index];
    }
  }
}
