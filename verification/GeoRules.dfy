/** Geo routing rules compiled for three proxy cores (backend/internal/cores/geo_integration.go),
    and a reader for each target so that the three can be compared with the source. */

/** String pieces shared by the readers. */
module Strings {
  import opened Options

  /** The rest of s after `prefix`, if s starts with it. */
  function Strip(prefix: string, s: string): (r: Option<string>)
    ensures r.Some? <==> prefix <= s
    ensures r.Some? ==> s == prefix + r.value
  {
    if |prefix| <= |s| && s[..|prefix|] == prefix then Some(s[|prefix|..]) else None
  }

  /** The part of s before `suffix`, if s ends with it. */
  function StripEnd(s: string, suffix: string): (r: Option<string>)
    ensures r.Some? ==> s == r.value + suffix
    ensures forall x: string :: s == x + suffix ==> r == Some(x)
  {
    if |suffix| <= |s| && s[|s| - |suffix|..] == suffix then Some(s[..|s| - |suffix|]) else None
  }

  lemma StripPrefixed(prefix: string, x: string)
    ensures Strip(prefix, prefix + x) == Some(x)
  {
    assert (prefix + x)[..|prefix|] == prefix;
  }

  predicate CommaFree(s: string) { forall k :: 0 <= k < |s| ==> s[k] != ',' }

  /** s cut at every comma. */
  function Split(s: string): (parts: seq<string>)
    ensures |parts| > 0
  {
    if s == [] then [[]] else Prepend(s[0], Split(s[1..]))
  }

  function Prepend(c: char, parts: seq<string>): (r: seq<string>)
    requires |parts| > 0
    ensures |r| > 0
  {
    if c == ',' then [[]] + parts else [[c] + parts[0]] + parts[1..]
  }

  lemma {:induction false} SplitWord(a: string)
    ensures CommaFree(a) ==> Split(a) == [a]
    ensures !CommaFree(a) ==> |Split(a)| > 1
  {
    if a != [] {
      SplitWord(a[1..]);
      assert a == [a[0]] + a[1..];
      if a[0] != ',' && CommaFree(a[1..]) {
        assert forall k :: 0 < k < |a| ==> a[k] == a[1..][k - 1];
      }
    }
  }

  /** Cutting a text joined by a comma cuts its two sides. */
  lemma {:induction false} SplitBoth(a: string, b: string)
    ensures Split(a + "," + b) == Split(a) + Split(b)
  {
    if a == [] {
      SplitComma(b);
    } else {
      SplitBoth(a[1..], b);
      assert a + "," + b == [a[0]] + (a[1..] + "," + b);
      SplitCons(a[0], a[1..] + "," + b);
      PrependJoined(a[0], Split(a[1..]), Split(b));
    }
  }

  lemma SplitCons(c: char, s: string)
    ensures Split([c] + s) == Prepend(c, Split(s))
  {
    assert ([c] + s)[1..] == s;
  }

  lemma SplitComma(b: string)
    ensures Split([] + "," + b) == [[]] + Split(b)
  {
    assert [] + "," + b == [','] + b;
    SplitCons(',', b);
  }

  lemma PrependJoined(c: char, x: seq<string>, y: seq<string>)
    requires |x| > 0
    ensures Prepend(c, x + y) == Prepend(c, x) + y
  {
    assert (x + y)[1..] == x[1..] + y;
  }
}

/** The rules themselves, what they mean, and the three compilers. */
module GeoRules {
  import opened Options
  import opened Strings

  datatype GeoRule = GeoRule(coreID: nat, kind: string, code: string, action: string, priority: int, enabled: bool)

  // ---- Meaning of a rule list ----

  datatype Category = GeoIP(code: string) | GeoSite(code: string)

  datatype Outbound = Direct | Block | Warp | Proxy

  /** A destination is known by the categories it falls in. */
  type Destination = Category -> bool

  datatype Decision = NoRule | Route(outbound: Option<Outbound>)

  predicate ValidKind(r: GeoRule) { r.kind == "geoip" || r.kind == "geosite" }

  function CategoryOf(r: GeoRule): Category
    requires ValidKind(r)
  {
    if r.kind == "geoip" then GeoIP(r.code) else GeoSite(r.code)
  }

  /** Unknown actions mean direct. */
  function Meaning(r: GeoRule): Outbound {
    if r.action == "block" then Block
    else if r.action == "warp" then Warp
    else if r.action == "proxy" then Proxy
    else Direct
  }

  predicate AllValid(rules: seq<GeoRule>) { forall i :: 0 <= i < |rules| ==> ValidKind(rules[i]) }

  /** The first true position, or the length if there is none. */
  function First(hits: seq<bool>): (i: nat)
    ensures i <= |hits|
    ensures i < |hits| ==> hits[i]
    ensures forall k :: 0 <= k < i ==> !hits[k]
  {
    if hits == [] then 0 else if hits[0] then 0 else 1 + First(hits[1..])
  }

  predicate Matches(r: GeoRule, destination: Destination) { ValidKind(r) && destination(CategoryOf(r)) }

  function Hits(rules: seq<GeoRule>, destination: Destination): seq<bool> {
    seq(|rules|, i requires 0 <= i < |rules| => Matches(rules[i], destination))
  }

  /** The source's own first-match meaning. */
  function Decide(rules: seq<GeoRule>, destination: Destination): Decision {
    var i := First(Hits(rules, destination));
    if i == |rules| then NoRule else Route(Some(Meaning(rules[i])))
  }

  // ---- LoadGeoRules: the enabled rules of one core, highest priority first ----

  function Enabled(table: seq<GeoRule>, coreID: nat): seq<GeoRule> {
    if table == [] then []
    else
      Enabled(table[..|table| - 1], coreID) +
      (var r := table[|table| - 1]; if r.coreID == coreID && r.enabled then [r] else [])
  }

  /** Any answer the query may give: ties in priority come in any order. */
  ghost predicate Loaded(table: seq<GeoRule>, coreID: nat, rules: seq<GeoRule>) {
    && multiset(rules) == multiset(Enabled(table, coreID))
    && forall i, j :: 0 <= i < j < |rules| ==> rules[i].priority >= rules[j].priority
  }

  lemma {:induction false} EnabledMembers(table: seq<GeoRule>, coreID: nat, r: GeoRule)
    ensures r in Enabled(table, coreID) <==> r in table && r.coreID == coreID && r.enabled
  {
    if table != [] {
      EnabledMembers(table[..|table| - 1], coreID, r);
    }
  }

  /** The decision is that of a highest-priority matching rule of the table, and there is no decision
      exactly when no enabled rule of the core matches. */
  lemma DecisionIsHighestPriority(table: seq<GeoRule>, coreID: nat, rules: seq<GeoRule>, destination: Destination)
    requires Loaded(table, coreID, rules)
    ensures Decide(rules, destination).NoRule? <==>
            !exists r :: r in table && r.coreID == coreID && r.enabled && Matches(r, destination)
    ensures Decide(rules, destination).Route? ==>
              exists w :: && w in table && w.coreID == coreID && w.enabled && Matches(w, destination)
                          && Decide(rules, destination) == Route(Some(Meaning(w)))
                          && forall r :: r in table && r.coreID == coreID && r.enabled && Matches(r, destination) ==>
                                           r.priority <= w.priority
  {
    var enabled := Enabled(table, coreID);
    forall r ensures r in rules <==> r in table && r.coreID == coreID && r.enabled {
      EnabledMembers(table, coreID, r);
      assert r in rules <==> r in multiset(rules);
      assert r in enabled <==> r in multiset(enabled);
    }
    var hits := Hits(rules, destination);
    var i := First(hits);
    forall r | r in rules && Matches(r, destination)
      ensures i < |rules| && r.priority <= rules[i].priority
    {
      var k :| 0 <= k < |rules| && rules[k] == r;
      assert hits[k];
    }
    if i < |rules| {
      assert hits[i];
      assert rules[i] in rules;
    }
  }

  // ---- mapGeoAction ----

  const WARP_TAG := "warp-out"

  function MapGeoAction(action: string): string {
    match action
    case "direct" => "direct"
    case "block" => "block"
    case "warp" => WARP_TAG
    case "proxy" => "proxy"
    case _ => "direct"
  }

  /** The outbound a tag names in the configurations of sing-box and Xray. */
  function ReadTag(tag: string): Option<Outbound> {
    if tag == "direct" then Some(Direct)
    else if tag == "block" then Some(Block)
    else if tag == "warp-out" then Some(Warp)
    else if tag == "proxy" then Some(Proxy)
    else None
  }

  /** Mihomo has built-in outbounds of its own for the first two. */
  function ReadMihomoTag(tag: string): Option<Outbound> {
    if tag == "DIRECT" then Some(Direct)
    else if tag == "REJECT" then Some(Block)
    else if tag == "warp-out" then Some(Warp)
    else if tag == "proxy" then Some(Proxy)
    else None
  }

  // ---- sing-box ----

  datatype SingboxRule = SingboxRule(action: string, outbound: string, ruleSet: Option<seq<string>>)

  datatype RuleSet = RuleSet(tag: string, kind: string, url: string, downloadDetour: string, updateInterval: string)

  const IP_BASE := "https://raw.githubusercontent.com/SagerNet/sing-geoip/rule-set/"
  const SITE_BASE := "https://raw.githubusercontent.com/SagerNet/sing-geosite/rule-set/"

  function SingboxRoute(r: GeoRule): SingboxRule {
    SingboxRule("route", MapGeoAction(r.action),
                if r.kind == "geoip" then Some(["geoip-" + r.code])
                else if r.kind == "geosite" then Some(["geosite-" + r.code])
                else None)
  }

  method SingboxGeoRouteRules(rules: seq<GeoRule>) returns (routeRules: seq<SingboxRule>)
    ensures |routeRules| == |rules|
    ensures forall i :: 0 <= i < |rules| ==> routeRules[i] == SingboxRoute(rules[i])
  {
    routeRules := [];
    for i := 0 to |rules|
      invariant |routeRules| == i
      invariant forall k :: 0 <= k < i ==> routeRules[k] == SingboxRoute(rules[k])
    {
      var rule := rules[i];
      var rr := SingboxRule("route", MapGeoAction(rule.action), None);
      if rule.kind == "geoip" {
        rr := rr.(ruleSet := Some(["geoip-" + rule.code]));
      } else if rule.kind == "geosite" {
        rr := rr.(ruleSet := Some(["geosite-" + rule.code]));
      }
      routeRules := routeRules + [rr];
    }
  }

  function TagOf(c: Category): string {
    match c
    case GeoIP(code) => "geoip-" + code
    case GeoSite(code) => "geosite-" + code
  }

  function Definition(c: Category): RuleSet {
    var base := if c.GeoIP? then IP_BASE else SITE_BASE;
    RuleSet(TagOf(c), "remote", base + TagOf(c) + ".json", "direct", "7d")
  }

  /** The list defines, once each, exactly the categories of the rules. */
  ghost predicate DefinesExactly(sets: seq<RuleSet>, rules: seq<GeoRule>) {
    && (forall i, j :: 0 <= i < j < |sets| ==> sets[i].tag != sets[j].tag)
    && (forall i :: 0 <= i < |rules| && ValidKind(rules[i]) ==> Definition(CategoryOf(rules[i])) in sets)
    && (forall d :: d in sets ==>
          exists i :: 0 <= i < |rules| && ValidKind(rules[i]) && d == Definition(CategoryOf(rules[i])))
  }

  /** The tags seen are those of the list. */
  ghost predicate TagsSeen(seen: set<string>, sets: seq<RuleSet>) {
    && (forall d :: d in sets ==> d.tag in seen)
    && (forall tag :: tag in seen ==> exists d :: d in sets && d.tag == tag)
  }

  lemma SeeTag(seen: set<string>, sets: seq<RuleSet>, tag: string, url: string)
    requires TagsSeen(seen, sets)
    ensures tag in seen <==> exists d :: d in sets && d.tag == tag
    ensures TagsSeen(seen + {tag}, sets + [RuleSet(tag, "remote", url, "direct", "7d")])
  {
    var d := RuleSet(tag, "remote", url, "direct", "7d");
    var more := sets + [d];
    assert more[|sets|] == d;
    forall t | t in seen + {tag} ensures exists e :: e in more && e.tag == t {
      if t in seen {
        var e :| e in sets && e.tag == t;
        assert e in more;
      }
    }
  }

  method SingboxGeoRuleSets(rules: seq<GeoRule>) returns (ruleSets: seq<RuleSet>)
    ensures DefinesExactly(ruleSets, rules)
    ensures forall d :: d in ruleSets ==> d.kind == "remote" && d.downloadDetour == "direct" && d.updateInterval == "7d"
  {
    assert DefinesExactly([], []) && TagsSeen({}, []);
    hide DefinesExactly, TagsSeen;
    var seen: set<string> := {};
    ruleSets := [];
    for i := 0 to |rules|
      invariant TagsSeen(seen, ruleSets)
      invariant forall d :: d in ruleSets ==>
                  d.kind == "remote" && d.downloadDetour == "direct" && d.updateInterval == "7d"
      invariant DefinesExactly(ruleSets, rules[..i])
    {
      var rule := rules[i];
      assert rules[..i + 1] == rules[..i] + [rule];
      var tag: string;
      var url: string;
      if rule.kind == "geoip" {
        tag := "geoip-" + rule.code;
        url := IP_BASE + tag + ".json";
      } else if rule.kind == "geosite" {
        tag := "geosite-" + rule.code;
        url := SITE_BASE + tag + ".json";
      } else {
        DefinesMore(ruleSets, rules[..i], rule);
        continue;
      }
      assert RuleSet(tag, "remote", url, "direct", "7d") == Definition(CategoryOf(rule));
      assert tag == TagOf(CategoryOf(rule));
      hide TagOf, Definition;
      DefinesMore(ruleSets, rules[..i], rule);
      SeeTag(seen, ruleSets, tag, url);
      if tag !in seen {
        seen := seen + {tag};
        ruleSets := ruleSets + [RuleSet(tag, "remote", url, "direct", "7d")];
      } else {
        TagDefined(ruleSets, rules[..i], CategoryOf(rule));
      }
    }
    assert rules[..|rules|] == rules;
  }

  /** One more rule: its definition is added when its tag is new. */
  lemma DefinesMore(sets: seq<RuleSet>, rules: seq<GeoRule>, rule: GeoRule)
    requires DefinesExactly(sets, rules)
    ensures !ValidKind(rule) ==> DefinesExactly(sets, rules + [rule])
    ensures ValidKind(rule) && Definition(CategoryOf(rule)) in sets ==> DefinesExactly(sets, rules + [rule])
    ensures ValidKind(rule) && (forall d :: d in sets ==> d.tag != TagOf(CategoryOf(rule))) ==>
              DefinesExactly(sets + [Definition(CategoryOf(rule))], rules + [rule])
  {
    var more := rules + [rule];
    forall d | d in sets
      ensures exists i :: 0 <= i < |more| && ValidKind(more[i]) && d == Definition(CategoryOf(more[i]))
    {
      var i :| 0 <= i < |rules| && ValidKind(rules[i]) && d == Definition(CategoryOf(rules[i]));
      assert more[i] == rules[i];
    }
    assert more[|rules|] == rule;
  }

  /** Different categories never share a rule-set tag. */
  lemma TagsDiffer(c: Category, d: Category)
    ensures TagOf(c) == TagOf(d) <==> c == d
  {
    if c.GeoIP? != d.GeoIP? {
      assert "geoip-"[3] == 'i' && "geosite-"[3] == 's';
      assert TagOf(c)[3] != TagOf(d)[3];
    } else if TagOf(c) == TagOf(d) {
      var n := if c.GeoIP? then |"geoip-"| else |"geosite-"|;
      assert TagOf(c)[n..] == c.code && TagOf(d)[n..] == d.code;
    }
  }

  /** A tag already in the list is there for its own category. */
  lemma TagDefined(sets: seq<RuleSet>, rules: seq<GeoRule>, c: Category)
    requires DefinesExactly(sets, rules)
    requires exists d :: d in sets && d.tag == TagOf(c)
    ensures Definition(c) in sets
  {
    var d :| d in sets && d.tag == TagOf(c);
    var i :| 0 <= i < |rules| && ValidKind(rules[i]) && d == Definition(CategoryOf(rules[i]));
    TagsDiffer(c, CategoryOf(rules[i]));
  }

  /** Reading a rule-set address: which database it names, and for which code. */
  function ReadURL(url: string): Option<Category> {
    match StripEnd(url, ".json")
    case None => None
    case Some(address) =>
      match Strip("https://raw.githubusercontent.com/SagerNet/sing-geoip/rule-set/" + "geoip-", address)
      case Some(code) => Some(GeoIP(code))
      case None =>
        match Strip("https://raw.githubusercontent.com/SagerNet/sing-geosite/rule-set/" + "geosite-", address)
        case Some(code) => Some(GeoSite(code))
        case None => None
  }

  lemma ReadURLInverts(c: Category)
    ensures ReadURL(Definition(c).url) == Some(c)
  {
    var address := (if c.GeoIP? then IP_BASE else SITE_BASE) + TagOf(c);
    assert StripEnd(address + ".json", ".json") == Some(address);
    if c.GeoIP? {
      assert address == (IP_BASE + "geoip-") + c.code;
      StripPrefixed(IP_BASE + "geoip-", c.code);
    } else {
      assert address == (SITE_BASE + "geosite-") + c.code;
      StripPrefixed(SITE_BASE + "geosite-", c.code);
      var k := |"https://raw.githubusercontent.com/SagerNet/sing-geo"|;
      assert (IP_BASE + "geoip-")[k] == 'i' && address[k] == 's';
      assert !(IP_BASE + "geoip-" <= address);
    }
  }

  /** sing-box resolves a tag through its rule-set list; an address is read of remote sets only. */
  function Resolve(sets: seq<RuleSet>, tag: string): Option<Category> {
    if sets == [] then None
    else if sets[0].tag == tag then if sets[0].kind == "remote" then ReadURL(sets[0].url) else None
    else Resolve(sets[1..], tag)
  }

  predicate TagMatches(sets: seq<RuleSet>, tag: string, destination: Destination) {
    match Resolve(sets, tag)
    case Some(c) => destination(c)
    case None => false
  }

  predicate SingboxMatches(rr: SingboxRule, sets: seq<RuleSet>, destination: Destination) {
    && rr.action == "route" && rr.ruleSet.Some?
    && exists k :: 0 <= k < |rr.ruleSet.value| && TagMatches(sets, rr.ruleSet.value[k], destination)
  }

  function SingboxHits(rules: seq<SingboxRule>, sets: seq<RuleSet>, destination: Destination): seq<bool> {
    seq(|rules|, i requires 0 <= i < |rules| => SingboxMatches(rules[i], sets, destination))
  }

  function SingboxDecide(rules: seq<SingboxRule>, sets: seq<RuleSet>, destination: Destination): Decision {
    var i := First(SingboxHits(rules, sets, destination));
    if i == |rules| then NoRule else Route(ReadTag(rules[i].outbound))
  }

  lemma {:induction false} ResolveDefined(sets: seq<RuleSet>, c: Category)
    requires forall i, j :: 0 <= i < j < |sets| ==> sets[i].tag != sets[j].tag
    requires Definition(c) in sets
    ensures Resolve(sets, TagOf(c)) == Some(c)
  {
    ReadURLInverts(c);
    var k :| 0 <= k < |sets| && sets[k] == Definition(c);
    if k > 0 {
      assert sets[1..][k - 1] == Definition(c);
      ResolveDefined(sets[1..], c);
    }
  }

  /** Every tag a route uses is defined exactly once, whatever the list. */
  lemma TagsDefinedOnce(sets: seq<RuleSet>, rules: seq<GeoRule>, i: nat)
    requires DefinesExactly(sets, rules) && i < |rules| && SingboxRoute(rules[i]).ruleSet.Some?
    ensures exists k ::
              && 0 <= k < |sets|
              && SingboxRoute(rules[i]).ruleSet == Some([sets[k].tag])
              && forall j :: 0 <= j < |sets| && sets[j].tag == sets[k].tag ==> j == k
  {
    var d := Definition(CategoryOf(rules[i]));
    var k :| 0 <= k < |sets| && sets[k] == d;
  }

  // ---- Xray ----

  datatype XrayRule = XrayRule(kind: string, outboundTag: string, ip: Option<seq<string>>, domain: Option<seq<string>>)

  function XrayRoute(r: GeoRule): XrayRule {
    XrayRule("field", MapGeoAction(r.action),
             if r.kind == "geoip" then Some(["geoip:" + r.code]) else None,
             if r.kind == "geosite" then Some(["geosite:" + r.code]) else None)
  }

  method XrayGeoRoutingRules(rules: seq<GeoRule>) returns (routingRules: seq<XrayRule>)
    ensures |routingRules| == |rules|
    ensures forall i :: 0 <= i < |rules| ==> routingRules[i] == XrayRoute(rules[i])
  {
    routingRules := [];
    for i := 0 to |rules|
      invariant |routingRules| == i
      invariant forall k :: 0 <= k < i ==> routingRules[k] == XrayRoute(rules[k])
    {
      var rule := rules[i];
      var rr := XrayRule("field", MapGeoAction(rule.action), None, None);
      if rule.kind == "geoip" {
        rr := rr.(ip := Some(["geoip:" + rule.code]));
      } else if rule.kind == "geosite" {
        rr := rr.(domain := Some(["geosite:" + rule.code]));
      }
      routingRules := routingRules + [rr];
    }
  }

  predicate IPMatches(entry: string, destination: Destination) {
    match Strip("geoip:", entry)
    case Some(code) => destination(GeoIP(code))
    case None => false
  }

  predicate DomainMatches(entry: string, destination: Destination) {
    match Strip("geosite:", entry)
    case Some(code) => destination(GeoSite(code))
    case None => false
  }

  /** All the fields that are present must match, and at least one must be. */
  predicate XrayMatches(rr: XrayRule, destination: Destination) {
    && rr.kind == "field" && (rr.ip.Some? || rr.domain.Some?)
    && (rr.ip.Some? ==> exists k :: 0 <= k < |rr.ip.value| && IPMatches(rr.ip.value[k], destination))
    && (rr.domain.Some? ==> exists k :: 0 <= k < |rr.domain.value| && DomainMatches(rr.domain.value[k], destination))
  }

  function XrayHits(rules: seq<XrayRule>, destination: Destination): seq<bool> {
    seq(|rules|, i requires 0 <= i < |rules| => XrayMatches(rules[i], destination))
  }

  function XrayDecide(rules: seq<XrayRule>, destination: Destination): Decision {
    var i := First(XrayHits(rules, destination));
    if i == |rules| then NoRule else Route(ReadTag(rules[i].outboundTag))
  }

  // ---- Mihomo ----

  function MihomoTag(action: string): string {
    var outbound := MapGeoAction(action);
    if outbound == "direct" then "DIRECT" else if outbound == "block" then "REJECT" else outbound
  }

  function LineWord(r: GeoRule): string
    requires ValidKind(r)
  {
    if r.kind == "geoip" then "GEOIP" else "GEOSITE"
  }

  function MihomoLine(r: GeoRule): string
    requires ValidKind(r)
  {
    LineWord(r) + "," + r.code + "," + MihomoTag(r.action)
  }

  /** Rules of an unknown kind leave no line. */
  function MihomoLines(rules: seq<GeoRule>): seq<string> {
    if rules == [] then []
    else
      var last := rules[|rules| - 1];
      MihomoLines(rules[..|rules| - 1]) + if ValidKind(last) then [MihomoLine(last)] else []
  }

  method MihomoGeoRules(rules: seq<GeoRule>) returns (mihomoRules: seq<string>)
    ensures mihomoRules == MihomoLines(rules)
  {
    mihomoRules := [];
    for i := 0 to |rules|
      invariant mihomoRules == MihomoLines(rules[..i])
    {
      var rule := rules[i];
      assert rules[..i + 1][..i] == rules[..i];
      var outbound := MapGeoAction(rule.action);
      var outboundTag := outbound;
      if outbound == "direct" {
        outboundTag := "DIRECT";
      } else if outbound == "block" {
        outboundTag := "REJECT";
      }
      if rule.kind == "geoip" {
        mihomoRules := mihomoRules + ["GEOIP" + "," + rule.code + "," + outboundTag];
      } else if rule.kind == "geosite" {
        mihomoRules := mihomoRules + ["GEOSITE" + "," + rule.code + "," + outboundTag];
      }
    }
    assert rules[..|rules|] == rules;
  }

  /** The lines stay in step with the rules exactly when every kind is known. */
  lemma {:induction false} MihomoAligned(rules: seq<GeoRule>)
    ensures |MihomoLines(rules)| <= |rules|
    ensures |MihomoLines(rules)| == |rules| <==> AllValid(rules)
    ensures AllValid(rules) ==> forall i :: 0 <= i < |rules| ==> MihomoLines(rules)[i] == MihomoLine(rules[i])
  {
    if rules != [] {
      var n := |rules| - 1;
      MihomoAligned(rules[..n]);
      assert rules == rules[..n] + [rules[n]];
    }
  }

  datatype MihomoRule = MihomoRule(category: Category, tag: string)

  function ReadLine(line: string): Option<MihomoRule> {
    var parts := Split(line);
    if |parts| != 3 then None
    else if parts[0] == "GEOIP" then Some(MihomoRule(GeoIP(parts[1]), parts[2]))
    else if parts[0] == "GEOSITE" then Some(MihomoRule(GeoSite(parts[1]), parts[2]))
    else None
  }

  /** A line reads back as its rule exactly when the code has no comma. */
  lemma ReadLineInverts(r: GeoRule)
    requires ValidKind(r)
    ensures ReadLine(MihomoLine(r)) == Some(MihomoRule(CategoryOf(r), MihomoTag(r.action))) <==> CommaFree(r.code)
    ensures !CommaFree(r.code) ==> ReadLine(MihomoLine(r)) == None
  {
    LineParts(r);
    SplitWord(r.code);
    if CommaFree(r.code) {
      assert Split(MihomoLine(r)) == [LineWord(r), r.code, MihomoTag(r.action)];
    }
  }

  lemma LineParts(r: GeoRule)
    requires ValidKind(r)
    ensures Split(MihomoLine(r)) == [LineWord(r)] + Split(r.code) + [MihomoTag(r.action)]
  {
    var tag := MihomoTag(r.action);
    assert CommaFree(tag) && CommaFree(LineWord(r));
    SplitBoth(LineWord(r) + "," + r.code, tag);
    SplitBoth(LineWord(r), r.code);
    SplitWord(LineWord(r));
    SplitWord(tag);
  }

  predicate MihomoMatches(line: string, destination: Destination) {
    match ReadLine(line)
    case Some(r) => destination(r.category)
    case None => false
  }

  function MihomoHits(lines: seq<string>, destination: Destination): seq<bool> {
    seq(|lines|, i requires 0 <= i < |lines| => MihomoMatches(lines[i], destination))
  }

  function MihomoDecide(lines: seq<string>, destination: Destination): Decision {
    var i := First(MihomoHits(lines, destination));
    if i == |lines| then NoRule
    else match ReadLine(lines[i]) { case Some(r) => Route(ReadMihomoTag(r.tag)) case None => Route(None) }
  }

  // ---- Agreement ----

  ghost predicate CodesCommaFree(rules: seq<GeoRule>) {
    forall i :: 0 <= i < |rules| ==> CommaFree(rules[i].code)
  }

  /** The three tag vocabularies say what the action means. */
  lemma TagsMeanActions(r: GeoRule)
    ensures ReadTag(MapGeoAction(r.action)) == Some(Meaning(r))
    ensures ReadMihomoTag(MihomoTag(r.action)) == Some(Meaning(r))
  {
    match r.action
    case "direct" =>
    case "block" =>
    case "warp" =>
    case "proxy" =>
    case _ =>
  }

  lemma SingboxMatchAgrees(r: GeoRule, sets: seq<RuleSet>, destination: Destination)
    requires ValidKind(r) && Resolve(sets, TagOf(CategoryOf(r))) == Some(CategoryOf(r))
    ensures SingboxMatches(SingboxRoute(r), sets, destination) == Matches(r, destination)
  {
    var tags := SingboxRoute(r).ruleSet.value;
    assert tags == [TagOf(CategoryOf(r))];
    assert TagMatches(sets, tags[0], destination) == Matches(r, destination);
  }

  lemma SingboxAgrees(rules: seq<GeoRule>, routes: seq<SingboxRule>, sets: seq<RuleSet>, destination: Destination)
    requires AllValid(rules) && |routes| == |rules|
    requires forall i :: 0 <= i < |rules| ==> routes[i] == SingboxRoute(rules[i])
    requires DefinesExactly(sets, rules)
    ensures SingboxDecide(routes, sets, destination) == Decide(rules, destination)
  {
    forall i | 0 <= i < |rules|
      ensures SingboxMatches(routes[i], sets, destination) == Matches(rules[i], destination)
    {
      ResolveDefined(sets, CategoryOf(rules[i]));
      SingboxMatchAgrees(rules[i], sets, destination);
    }
    assert SingboxHits(routes, sets, destination) == Hits(rules, destination);
    var i := First(Hits(rules, destination));
    if i < |rules| {
      TagsMeanActions(rules[i]);
    }
  }

  lemma XrayMatchAgrees(r: GeoRule, destination: Destination)
    requires ValidKind(r)
    ensures XrayMatches(XrayRoute(r), destination) == Matches(r, destination)
  {
    var rr := XrayRoute(r);
    StripPrefixed("geoip:", r.code);
    StripPrefixed("geosite:", r.code);
    if r.kind == "geoip" {
      assert IPMatches(rr.ip.value[0], destination) == Matches(r, destination);
    } else {
      assert DomainMatches(rr.domain.value[0], destination) == Matches(r, destination);
    }
  }

  lemma XrayAgrees(rules: seq<GeoRule>, routes: seq<XrayRule>, destination: Destination)
    requires AllValid(rules) && |routes| == |rules|
    requires forall i :: 0 <= i < |rules| ==> routes[i] == XrayRoute(rules[i])
    ensures XrayDecide(routes, destination) == Decide(rules, destination)
  {
    forall i | 0 <= i < |rules| ensures XrayMatches(routes[i], destination) == Matches(rules[i], destination) {
      XrayMatchAgrees(rules[i], destination);
    }
    assert XrayHits(routes, destination) == Hits(rules, destination);
    var i := First(Hits(rules, destination));
    if i < |rules| {
      TagsMeanActions(rules[i]);
    }
  }

  lemma MihomoAgrees(rules: seq<GeoRule>, destination: Destination)
    requires AllValid(rules) && CodesCommaFree(rules)
    ensures MihomoDecide(MihomoLines(rules), destination) == Decide(rules, destination)
  {
    var lines := MihomoLines(rules);
    MihomoAligned(rules);
    forall i | 0 <= i < |rules|
      ensures ReadLine(lines[i]) == Some(MihomoRule(CategoryOf(rules[i]), MihomoTag(rules[i].action)))
    {
      ReadLineInverts(rules[i]);
    }
    assert MihomoHits(lines, destination) == Hits(rules, destination);
    var i := First(Hits(rules, destination));
    if i < |rules| {
      TagsMeanActions(rules[i]);
    }
  }

  /** What the three compilers emit for one rule list. */
  datatype Compiled = Compiled(singbox: seq<SingboxRule>, sets: seq<RuleSet>, xray: seq<XrayRule>, mihomo: seq<string>)

  /** One rule list compiled for all three cores: each target sends every destination where the
      source does. */
  method CompileForAllCores(rules: seq<GeoRule>) returns (out: Compiled)
    ensures |out.singbox| == |out.xray| == |rules|
    ensures AllValid(rules) ==>
              forall destination: Destination ::
                && SingboxDecide(out.singbox, out.sets, destination) == Decide(rules, destination)
                && XrayDecide(out.xray, destination) == Decide(rules, destination)
    ensures AllValid(rules) && CodesCommaFree(rules) ==>
              forall destination: Destination :: MihomoDecide(out.mihomo, destination) == Decide(rules, destination)
  {
    var routes := SingboxGeoRouteRules(rules);
    var sets := SingboxGeoRuleSets(rules);
    var fields := XrayGeoRoutingRules(rules);
    var lines := MihomoGeoRules(rules);
    out := Compiled(routes, sets, fields, lines);
    if AllValid(rules) {
      forall destination: Destination
        ensures SingboxDecide(routes, sets, destination) == Decide(rules, destination)
        ensures XrayDecide(fields, destination) == Decide(rules, destination)
        ensures CodesCommaFree(rules) ==> MihomoDecide(lines, destination) == Decide(rules, destination)
      {
        SingboxAgrees(rules, routes, sets, destination);
        XrayAgrees(rules, fields, destination);
        if CodesCommaFree(rules) {
          MihomoAgrees(rules, destination);
        }
      }
    }
  }
}
