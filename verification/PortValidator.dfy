/** May a new inbound share its port with those that exist? (backend/internal/haproxy/validator.go,
    backend/internal/haproxy/protocol_compat.go) */

/** Which protocols and transports HAProxy can tell apart on one port. */
module ProtocolCompat {

  /** Lower case as far as the tables below can see: the ASCII letters, and the only two other
      characters whose lower case is an ASCII letter, U+0130 and U+212A. */
  function Lower(c: char): char {
    if 'A' <= c <= 'Z' then (c as int + 32) as char
    else if c == '\U{0130}' then 'i'
    else if c == '\U{212A}' then 'k'
    else c
  }

  function ToLower(s: string): string { seq(|s|, k requires 0 <= k < |s| => Lower(s[k])) }

  const UDP_TRANSPORTS := {"quic", "kcp", "hysteria", "hysteria2", "tuic"}
  const SNI_PROTOCOLS := {"vless", "vmess", "trojan", "shadowtls", "anytls", "naive"}
  const PATH_TRANSPORTS := {"websocket", "ws", "httpupgrade", "xhttp", "grpc"}

  predicate IsUDPTransport(transport: string) { transport != "" && ToLower(transport) in UDP_TRANSPORTS }

  predicate SupportsSNI(protocol: string) { protocol != "" && ToLower(protocol) in SNI_PROTOCOLS }

  predicate SupportsPath(transport: string) { transport != "" && ToLower(transport) in PATH_TRANSPORTS }

  function GetSharingMechanism(protocol1: string, transport1: string, protocol2: string, transport2: string): string {
    if SupportsSNI(protocol1) && SupportsSNI(protocol2) then "sni"
    else if SupportsPath(transport1) && SupportsPath(transport2) then "path"
    else ""
  }

  // ---- The tables, by the characters of a name ----

  /** One character is read as another: itself, its upper case, or one of the two special cases. */
  predicate ReadAs(c: char, d: char) {
    || c == d
    || ('a' <= d <= 'z' && c as int == d as int - 32)
    || (d == 'i' && c as int == 0x130)
    || (d == 'k' && c as int == 0x212A)
  }

  predicate Spells(s: string, word: string) { |s| == |word| && forall k :: 0 <= k < |s| ==> ReadAs(s[k], word[k]) }

  /** A word in small letters and digits. */
  predicate Plain(word: string) { forall k :: 0 <= k < |word| ==> 'a' <= word[k] <= 'z' || '0' <= word[k] <= '9' }

  lemma LowerSpells(s: string, word: string)
    requires Plain(word)
    ensures ToLower(s) == word <==> Spells(s, word)
  {
    if Spells(s, word) {
      assert forall k :: 0 <= k < |s| ==> ToLower(s)[k] == Lower(s[k]) == word[k];
    }
    if ToLower(s) == word {
      forall k | 0 <= k < |s| ensures ReadAs(s[k], word[k]) {
        assert ToLower(s)[k] == Lower(s[k]) == word[k];
      }
    }
  }

  predicate SpellsOne(s: string, words: seq<string>) { exists k :: 0 <= k < |words| && Spells(s, words[k]) }

  lemma LowerIsOne(s: string, words: seq<string>)
    requires forall k :: 0 <= k < |words| ==> Plain(words[k])
    ensures ToLower(s) in words <==> SpellsOne(s, words)
  {
    forall k | 0 <= k < |words| ensures ToLower(s) == words[k] <==> Spells(s, words[k]) {
      LowerSpells(s, words[k]);
    }
  }

  /** What is in the three tables, whatever case a name is written in. */
  lemma TablesExactly(name: string)
    ensures IsUDPTransport(name) <==> SpellsOne(name, ["quic", "kcp", "hysteria", "hysteria2", "tuic"])
    ensures SupportsSNI(name) <==> SpellsOne(name, ["vless", "vmess", "trojan", "shadowtls", "anytls", "naive"])
    ensures SupportsPath(name) <==> SpellsOne(name, ["websocket", "ws", "httpupgrade", "xhttp", "grpc"])
  {
    hide ToLower, SpellsOne;
    LowerIsOne(name, ["quic", "kcp", "hysteria", "hysteria2", "tuic"]);
    LowerIsOne(name, ["vless", "vmess", "trojan", "shadowtls", "anytls", "naive"]);
    LowerIsOne(name, ["websocket", "ws", "httpupgrade", "xhttp", "grpc"]);
    LowerKeepsLength(name);
  }

  lemma LowerKeepsLength(s: string)
    ensures |ToLower(s)| == |s|
  {
  }

  lemma SharingIsSymmetric(p1: string, t1: string, p2: string, t2: string)
    ensures GetSharingMechanism(p1, t1, p2, t2) == GetSharingMechanism(p2, t2, p1, t1)
  {
    hide SupportsSNI, SupportsPath;
  }

  /** No transport is in both tables, so a pair that shares by path always gets through HAProxy. */
  lemma PathTransportsAreTCP(transport: string)
    ensures SupportsPath(transport) ==> !IsUDPTransport(transport)
  {
    var t := ToLower(transport);
    if t in PATH_TRANSPORTS {
      assert |t| == 2 || t[0] in {'w', 'h', 'x', 'g'};
      assert t in {"httpupgrade"} || t[0] != 'h';
    }
  }

  /** SNI is asked first: the answer is "path" exactly when both transports support it and not both
      protocols support SNI. The comment over the source's function gives "path" for two websocket
      inbounds of vless and vmess, but both protocols support SNI, and the code answers "sni". */
  lemma SNIComesFirst(p1: string, t1: string, p2: string, t2: string)
    ensures GetSharingMechanism(p1, t1, p2, t2) == "path" <==>
            SupportsPath(t1) && SupportsPath(t2) && !(SupportsSNI(p1) && SupportsSNI(p2))
    ensures GetSharingMechanism(p1, t1, p2, t2) == "sni" <==> SupportsSNI(p1) && SupportsSNI(p2)
    ensures GetSharingMechanism(p1, t1, p2, t2) in {"sni", "path", ""}
    ensures GetSharingMechanism("vless", "ws", "vmess", "ws") == "sni" && SupportsPath("ws")
  {
    assert ToLower("vless") == "vless" && ToLower("vmess") == "vmess" && ToLower("ws") == "ws";
  }
}

module PortValidator {
  import opened ProtocolCompat
  import opened Selection

  datatype Severity = Info | Warning | Error

  datatype Action = Allow | Confirm | Block

  /** What the validator reads of an existing inbound; transport and core type are already extracted
      from its configuration. */
  datatype Inbound = Inbound(id: nat, name: string, protocol: string, port: int, listenAddress: string,
                             transport: string, coreType: string)

  /** What is asked for. */
  datatype Request = Request(port: int, listenAddress: string, protocol: string, transport: string, coreType: string)

  datatype PortConflict = PortConflict(
    inbound: Inbound,
    haproxyCompatible: bool,
    canShare: bool,
    sharingMechanism: string,
    requiresConfirm: bool
  )

  datatype PortConflictCheck = PortConflictCheck(
    request: Request,
    isAvailable: bool,
    haproxyCompatible: bool,
    canSharePort: bool,
    sharingMechanism: string,
    severity: Severity,
    action: Action,
    conflicts: seq<PortConflict>
  )

  predicate InRange(port: int) { 1 <= port <= 65535 }

  predicate IsPortOverlap(port1: int, addr1: string, port2: int, addr2: string) {
    if port1 != port2 then false
    else if addr1 == "0.0.0.0" || addr2 == "0.0.0.0" then true
    else addr1 == addr2
  }

  function Overlapping(r: Request): Inbound -> bool {
    (e: Inbound) => IsPortOverlap(r.port, r.listenAddress, e.port, e.listenAddress)
  }

  /** Two inbounds can stand behind one HAProxy port when neither runs over UDP. */
  predicate Shareable(r: Request, e: Inbound) { !IsUDPTransport(r.transport) && !IsUDPTransport(e.transport) }

  function Mechanism(r: Request, e: Inbound): string {
    GetSharingMechanism(r.protocol, r.transport, e.protocol, e.transport)
  }

  /** The entry an overlapping inbound gets. */
  function Conflict(r: Request): Inbound -> PortConflict {
    (e: Inbound) =>
      PortConflict(e, !IsUDPTransport(e.transport), Shareable(r, e), if Shareable(r, e) then Mechanism(r, e) else "",
                   Shareable(r, e) && r.protocol != e.protocol)
  }

  /** `m` is the mechanism of the last conflict that has one. */
  ghost predicate LastMechanism(m: string, conflicts: seq<PortConflict>) {
    if m == "" then forall c :: c in conflicts ==> c.sharingMechanism == ""
    else exists k :: 0 <= k < |conflicts| && conflicts[k].sharingMechanism == m
                     && forall c :: c in conflicts[k + 1..] ==> c.sharingMechanism == ""
  }

  ghost predicate Summary(canShare: bool, mechanism: string, conflicts: seq<PortConflict>) {
    (canShare <==> exists c :: c in conflicts && c.canShare) && LastMechanism(mechanism, conflicts)
  }

  ghost predicate Verdict(check: PortConflictCheck) {
    var none := check.conflicts == [];
    && check.isAvailable == (none || check.canSharePort)
    && (none ==> check.severity == Info && check.action == Allow)
    && (!none && check.canSharePort && check.sharingMechanism in {"sni", "path"} ==>
          check.severity == Info && check.action == Allow)
    && (!none && check.canSharePort && check.sharingMechanism == "" ==>
          check.severity == Warning && check.action == Confirm)
    && (!none && !check.canSharePort ==> check.severity == Error && check.action == Block)
  }

  /** What the answer says about a request and the existing inbounds. */
  ghost predicate Answers(check: PortConflictCheck, r: Request, existing: seq<Inbound>) {
    && check.request == r
    && if !InRange(r.port) then
         && check.conflicts == [] && !check.isAvailable && !check.haproxyCompatible && !check.canSharePort
         && check.sharingMechanism == "" && check.severity == Error && check.action == Block
       else
         && check.haproxyCompatible == !IsUDPTransport(r.transport)
         && check.conflicts == Map(Select(existing, Overlapping(r)), Conflict(r))
         && Summary(check.canSharePort, check.sharingMechanism, check.conflicts)
         && Verdict(check)
  }

  lemma SummaryNext(canShare: bool, m: string, conflicts: seq<PortConflict>, c: PortConflict)
    requires Summary(canShare, m, conflicts)
    ensures Summary(canShare || c.canShare, if c.sharingMechanism != "" then c.sharingMechanism else m, conflicts + [c])
  {
    var next := conflicts + [c];
    assert forall d :: d in next <==> d in conflicts || d == c;
    if c.sharingMechanism != "" {
      assert next[|conflicts|] == c && next[|conflicts| + 1..] == [];
    } else if m != "" {
      var k :| 0 <= k < |conflicts| && conflicts[k].sharingMechanism == m
               && forall d :: d in conflicts[k + 1..] ==> d.sharingMechanism == "";
      assert next[k] == conflicts[k] && next[k + 1..] == conflicts[k + 1..] + [c];
    }
  }

  method ValidatePortConflict(r: Request, existingInbounds: seq<Inbound>) returns (check: PortConflictCheck)
    ensures Answers(check, r, existingInbounds)
  {
    assert Summary(false, "", []);
    hide IsUDPTransport, SupportsSNI, SupportsPath, IsPortOverlap, Summary, Select, Map;
    var conflicts: seq<PortConflict> := [];
    var canSharePort := false;
    var sharingMechanism := "";

    if r.port < 1 || r.port > 65535 {
      check := PortConflictCheck(r, false, false, canSharePort, sharingMechanism, Error, Block, conflicts);
      return;
    }

    var haproxyCompatible := !IsUDPTransport(r.transport);

    for i := 0 to |existingInbounds|
      invariant conflicts == Map(Select(existingInbounds[..i], Overlapping(r)), Conflict(r))
      invariant Summary(canSharePort, sharingMechanism, conflicts)
      invariant sharingMechanism in {"", "sni", "path"}
    {
      var existing := existingInbounds[i];
      PickNext(existingInbounds, Overlapping(r), Conflict(r), i);
      if !IsPortOverlap(r.port, r.listenAddress, existing.port, existing.listenAddress) {
        continue;
      }
      var existingCompatible := !IsUDPTransport(existing.transport);
      var conflict := PortConflict(existing, existingCompatible, false, "", false);

      ghost var shared, mechanism := canSharePort, sharingMechanism;
      if haproxyCompatible && existingCompatible {
        conflict := conflict.(canShare := true);
        canSharePort := true;
        if SupportsSNI(r.protocol) && SupportsSNI(existing.protocol) {
          conflict := conflict.(sharingMechanism := "sni");
          sharingMechanism := "sni";
        } else if SupportsPath(r.transport) && SupportsPath(existing.transport) {
          conflict := conflict.(sharingMechanism := "path");
          sharingMechanism := "path";
        }
      }

      if conflict.canShare && r.protocol != existing.protocol {
        conflict := conflict.(requiresConfirm := true);
      }

      assert conflict == Conflict(r)(existing);
      SummaryNext(shared, mechanism, conflicts, conflict);
      conflicts := conflicts + [conflict];
    }
    assert existingInbounds[..|existingInbounds|] == existingInbounds;

    var severity, action := Error, Block;
    if |conflicts| == 0 {
      severity, action := Info, Allow;
    } else if canSharePort {
      if sharingMechanism == "sni" || sharingMechanism == "path" {
        severity, action := Info, Allow;
      } else {
        severity, action := Warning, Confirm;
      }
    }
    check := PortConflictCheck(r, |conflicts| == 0 || canSharePort, haproxyCompatible, canSharePort, sharingMechanism,
                               severity, action, conflicts);
  }

  // ---- The answer in terms of the inbounds ----

  ghost predicate Overlaps(r: Request, existing: seq<Inbound>, e: Inbound) { e in existing && Overlapping(r)(e) }

  /** The conflicts are exactly the overlapping inbounds. */
  lemma ConflictsExactly(check: PortConflictCheck, r: Request, existing: seq<Inbound>)
    requires Answers(check, r, existing) && InRange(r.port)
    ensures forall c :: c in check.conflicts ==> Overlaps(r, existing, c.inbound) && c == Conflict(r)(c.inbound)
    ensures forall e :: Overlaps(r, existing, e) ==> Conflict(r)(e) in check.conflicts
  {
    hide IsUDPTransport, SupportsSNI, SupportsPath, IsPortOverlap, LastMechanism, Verdict;
    var picked := Select(existing, Overlapping(r));
    SelectExactly(existing, Overlapping(r));
    forall c | c in check.conflicts ensures Overlaps(r, existing, c.inbound) && c == Conflict(r)(c.inbound) {
      var k :| 0 <= k < |check.conflicts| && check.conflicts[k] == c;
      assert Places(existing, Overlapping(r))[k] in Places(existing, Overlapping(r));
      assert c == Conflict(r)(picked[k]);
    }
    forall e | Overlaps(r, existing, e) ensures Conflict(r)(e) in check.conflicts {
      var i: nat :| i < |existing| && existing[i] == e;
      assert i in Places(existing, Overlapping(r));
      var k :| 0 <= k < |picked| && Places(existing, Overlapping(r))[k] == i;
      assert check.conflicts[k] == Conflict(r)(picked[k]);
    }
  }

  /** An inbound listens at a host and a port. */
  predicate ListensAt(address: string, own: int, host: string, port: int) {
    own == port && (address == "0.0.0.0" || address == host)
  }

  ghost predicate ShareSocket(r: Request, e: Inbound) {
    exists host, port ::
      ListensAt(r.listenAddress, r.port, host, port) && ListensAt(e.listenAddress, e.port, host, port)
  }

  /** Overlapping means that some host and port is listened at by both. */
  lemma OverlapExactly(r: Request, e: Inbound)
    ensures Overlapping(r)(e) <==> ShareSocket(r, e)
  {
    var host := if r.listenAddress == "0.0.0.0" then e.listenAddress else r.listenAddress;
    if Overlapping(r)(e) {
      assert ListensAt(r.listenAddress, r.port, host, r.port) && ListensAt(e.listenAddress, e.port, host, r.port);
    }
  }

  /** An existing inbound is among the conflicts exactly when some host and port is listened at by it and
      by the new one; and what its entry says of sharing. */
  lemma ConflictsShareSockets(check: PortConflictCheck, r: Request, existing: seq<Inbound>)
    requires Answers(check, r, existing) && 1 <= r.port <= 65535
    ensures forall e :: (exists c :: c in check.conflicts && c.inbound == e) <==> e in existing && ShareSocket(r, e)
    ensures forall c :: c in check.conflicts ==>
              var e := c.inbound;
              && (c.haproxyCompatible <==> !IsUDPTransport(e.transport))
              && (c.canShare <==> !IsUDPTransport(r.transport) && !IsUDPTransport(e.transport))
              && (c.requiresConfirm <==> c.canShare && r.protocol != e.protocol)
              && (c.sharingMechanism == "sni" <==> c.canShare && SupportsSNI(r.protocol) && SupportsSNI(e.protocol))
              && (c.sharingMechanism == "path" <==>
                  c.canShare && !(SupportsSNI(r.protocol) && SupportsSNI(e.protocol))
                  && SupportsPath(r.transport) && SupportsPath(e.transport))
              && c.sharingMechanism in {"", "sni", "path"}
  {
    hide IsUDPTransport, SupportsSNI, SupportsPath, IsPortOverlap, ShareSocket, Map, Select, LastMechanism, Verdict;
    ConflictsExactly(check, r, existing);
    forall e ensures (exists c :: c in check.conflicts && c.inbound == e) <==> e in existing && ShareSocket(r, e) {
      OverlapExactly(r, e);
      assert Overlaps(r, existing, e) ==> Conflict(r)(e) in check.conflicts && Conflict(r)(e).inbound == e;
    }
  }

  /** Ports outside 1 to 65535 are refused whatever exists, and nothing more is said of them. */
  lemma OutOfRangeBlocks(check: PortConflictCheck, r: Request, existing: seq<Inbound>)
    requires Answers(check, r, existing)
    ensures check.request == r
    ensures check.haproxyCompatible <==> 1 <= r.port <= 65535 && !IsUDPTransport(r.transport)
    ensures !(1 <= r.port <= 65535) ==>
              && check.action == Block && check.severity == Error && !check.isAvailable && !check.canSharePort
              && check.sharingMechanism == "" && check.conflicts == []
    ensures 1 <= r.port <= 65535 ==> (check.isAvailable <==> check.conflicts == [] || check.canSharePort)
    ensures 1 <= r.port <= 65535 ==> (check.canSharePort <==> exists c :: c in check.conflicts && c.canShare)
  {
  }

  ghost predicate Blocked(r: Request, existing: seq<Inbound>) {
    || !InRange(r.port)
    || ((exists e :: Overlaps(r, existing, e)) && forall e :: Overlaps(r, existing, e) ==> !Shareable(r, e))
  }

  ghost predicate Told(r: Request, existing: seq<Inbound>) {
    exists e :: Overlaps(r, existing, e) && Shareable(r, e) && Mechanism(r, e) != ""
  }

  lemma MechanismReported(check: PortConflictCheck, r: Request, existing: seq<Inbound>)
    requires Answers(check, r, existing) && InRange(r.port)
    ensures check.sharingMechanism != "" <==> Told(r, existing)
    ensures check.sharingMechanism in {"", "sni", "path"}
  {
    hide IsUDPTransport, SupportsSNI, SupportsPath, Overlaps, Map, Select;
    ConflictsExactly(check, r, existing);
    if check.sharingMechanism != "" {
      var k :| 0 <= k < |check.conflicts| && check.conflicts[k].sharingMechanism == check.sharingMechanism;
      var c := check.conflicts[k];
      assert c in check.conflicts && c == Conflict(r)(c.inbound);
    }
    if e :| Overlaps(r, existing, e) && Shareable(r, e) && Mechanism(r, e) != "" {
      assert Conflict(r)(e).sharingMechanism != "";
    }
  }

  /** The action in terms of the inbounds alone. One shareable overlap is enough not to block, whatever
      the other overlaps are; one with a mechanism is enough to allow. */
  lemma ActionExactly(check: PortConflictCheck, r: Request, existing: seq<Inbound>)
    requires Answers(check, r, existing)
    ensures check.action == Block <==> Blocked(r, existing)
    ensures check.action == Allow <==> InRange(r.port) && ((forall e :: !Overlaps(r, existing, e)) || Told(r, existing))
    ensures check.isAvailable <==> check.action != Block
    ensures check.severity == match check.action case Allow => Info case Confirm => Warning case Block => Error
  {
    hide IsUDPTransport, SupportsSNI, SupportsPath, Overlaps, Map, Select, Mechanism, LastMechanism;
    if InRange(r.port) {
      ConflictsExactly(check, r, existing);
      MechanismReported(check, r, existing);
      if check.conflicts != [] {
        assert check.conflicts[0] in check.conflicts;
        assert Overlaps(r, existing, check.conflicts[0].inbound);
      }
      if c :| c in check.conflicts && c.canShare {
        assert Overlaps(r, existing, c.inbound) && Shareable(r, c.inbound);
      }
      forall e | Overlaps(r, existing, e) && Shareable(r, e) ensures check.canSharePort {
        assert Conflict(r)(e) in check.conflicts && Conflict(r)(e).canShare;
      }
    }
  }

  /** The order and the repetition of the existing inbounds have no say in the action. */
  lemma OrderDoesNotMatter(a: PortConflictCheck, xs: seq<Inbound>, b: PortConflictCheck, ys: seq<Inbound>, r: Request)
    requires Answers(a, r, xs) && Answers(b, r, ys) && forall e :: e in xs <==> e in ys
    ensures a.action == b.action && a.severity == b.severity && a.isAvailable == b.isAvailable
  {
    hide IsUDPTransport, Answers, Mechanism;
    ActionExactly(a, r, xs);
    ActionExactly(b, r, ys);
    assert forall e :: Overlaps(r, xs, e) <==> Overlaps(r, ys, e);
  }

  /** An existing inbound, asked for again. */
  function AsRequest(e: Inbound): Request { Request(e.port, e.listenAddress, e.protocol, e.transport, e.coreType) }

  /** Two inbounds judge each other alike, whichever came first. */
  lemma VerdictIsMutual(x: Inbound, y: Inbound, a: PortConflictCheck, b: PortConflictCheck)
    requires InRange(x.port) && InRange(y.port)
    requires Answers(a, AsRequest(x), [y]) && Answers(b, AsRequest(y), [x])
    ensures a.action == b.action && a.sharingMechanism == b.sharingMechanism
  {
    hide IsUDPTransport, SupportsSNI, SupportsPath, Map, Select, Verdict;
    var r, s := AsRequest(x), AsRequest(y);
    SharingIsSymmetric(x.protocol, x.transport, y.protocol, y.transport);
    assert Overlapping(r)(y) <==> Overlapping(s)(x);
    assert Shareable(r, y) <==> Shareable(s, x);
    assert Mechanism(r, y) == Mechanism(s, x);
    OnlyOne(a, r, y);
    OnlyOne(b, s, x);
  }

  lemma OnlyOne(check: PortConflictCheck, r: Request, e: Inbound)
    requires Answers(check, r, [e]) && InRange(r.port)
    ensures check.sharingMechanism == if Overlapping(r)(e) && Shareable(r, e) then Mechanism(r, e) else ""
    ensures check.action == if !Overlapping(r)(e) then Allow
                            else if !Shareable(r, e) then Block
                            else if Mechanism(r, e) == "" then Confirm else Allow
  {
    hide IsUDPTransport, SupportsSNI, SupportsPath;
    SelectNext([e], Overlapping(r), 0);
    assert [e][..1] == [e];
    assert check.conflicts == if Overlapping(r)(e) then [Conflict(r)(e)] else [];
    if Overlapping(r)(e) {
      assert check.conflicts[0] in check.conflicts;
    }
  }
}
