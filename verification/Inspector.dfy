/** Host extraction and the combined verdict of internal/proxy/inspector.go, and the decision
    and log label of internal/proxy/handler.go for one request on its own. */
module Inspector {
  import opened Prelude
  import opened Engine
  import opened Modes
  import Fleet

  /** The parts of an HTTP request that take part in the decision. */
  datatype Request = Request(host: string, urlHost: string, token: string, remoteIP: string)

  // ---------- Host extraction ----------

  /** Where a trailing port begins, if the text is read as having one: at the last colon,
      unless a closing bracket comes after it. */
  function WithoutPort(host: string): string {
    var idx := LastIndex(host, ':');
    if idx != -1 && LastIndex(host, ']') < idx then host[..idx] else host
  }

  function HostOf(host: string, urlHost: string): string {
    ToLower(WithoutPort(if host == "" then urlHost else host))
  }

  method ExtractHost(r: Request) returns (host: string)
    ensures host == HostOf(r.host, r.urlHost)
  {
    host := r.host;
    if host == "" {
      host := r.urlHost;
    }
    var idx := LastIndex(host, ':');
    if idx != -1 {
      if ']' !in host || LastIndex(host, ']') < idx {
        host := host[..idx];
      }
    }
    host := ToLower(host);
  }

  /** A host of section 3.2.2 of RFC 3986: a bracketed literal, or a nonempty name without
      colons and brackets. */
  predicate IsHost(h: string) {
    || (h != "" && ':' !in h && '[' !in h && ']' !in h)
    || (|h| >= 2 && h[0] == '[' && h[|h| - 1] == ']' && ']' !in h[1..|h| - 1])
  }

  lemma BareHost(h: string)
    requires IsHost(h)
    ensures WithoutPort(h) == h
  {
    if h[0] == '[' {
      assert LastIndex(h, ']') == |h| - 1;
    }
  }

  /** A colon and a colon-free port are stripped from any host exactly when the port holds
      no closing bracket; digits of section 3.2.3 of RFC 3986 never do. */
  lemma PortStripped(h: string, port: string)
    requires IsHost(h) && ':' !in port
    ensures WithoutPort(h + ":" + port) == h <==> ']' !in port
  {
    var s := h + ":" + port;
    assert s[..|h|] == h && s[|h|] == ':';
    forall i | |h| < i < |s|
      ensures s[i] == port[i - |h| - 1]
    {
    }
    var idx, bracket := LastIndex(s, ':'), LastIndex(s, ']');
    assert idx == |h|;
    if ']' in port {
      var i :| 0 <= i < |port| && port[i] == ']';
      assert s[|h| + 1 + i] == ']';
      assert WithoutPort(s) == s;
    } else {
      assert bracket != |h|;
      assert forall i :: |h| < i < |s| ==> s[i] != ']';
    }
  }

  lemma LastIndexFold(a: string, b: string, c: char)
    requires ToLower(a) == ToLower(b) && !('A' <= c <= 'Z') && !('a' <= c <= 'z')
    ensures LastIndex(a, c) == LastIndex(b, c)
  {
    assert |a| == |ToLower(a)| == |ToLower(b)| == |b|;
    forall i | 0 <= i < |a|
      ensures a[i] == c <==> b[i] == c
    {
      assert ToLower(a)[i] == Lower(a[i]) && ToLower(b)[i] == Lower(b[i]);
    }
  }

  lemma HostFold(a: string, b: string, urlHost: string)
    requires ToLower(a) == ToLower(b)
    ensures HostOf(a, urlHost) == HostOf(b, urlHost)
  {
    assert |a| == |ToLower(a)| == |ToLower(b)| == |b|;
    if a != "" {
      LastIndexFold(a, b, ':');
      LastIndexFold(a, b, ']');
      var n := |WithoutPort(a)|;
      assert WithoutPort(a) == a[..n] && WithoutPort(b) == b[..n];
      assert ToLower(a[..n]) == ToLower(a)[..n] == ToLower(b)[..n] == ToLower(b[..n]);
    }
  }

  /** Host normalisation: a host gives the same value, its lower case, with and without a
      port and in any case. */
  lemma HostNormalised(h: string, h': string, port: string, urlHost: string)
    requires IsHost(h) && ToLower(h) == ToLower(h') && ':' !in port && ']' !in port
    ensures HostOf(h, urlHost) == ToLower(h)
    ensures HostOf(h', urlHost) == ToLower(h)
    ensures HostOf(h' + ":" + port, urlHost) == ToLower(h)
  {
    BareHost(h);
    HostFold(h, h', urlHost);
    HostPortFold(h, h', port);
    HostFold(h + ":" + port, h' + ":" + port, urlHost);
    PortStripped(h, port);
  }

  /** The one host without colon and brackets left out above is the empty one, where the URL's
      host stands in: it gives the same with and without a port exactly when that is empty. */
  lemma EmptyHostExactly(port: string, urlHost: string)
    requires ':' !in port && ']' !in port
    ensures HostOf(":" + port, urlHost) == ""
    ensures HostOf("", urlHost) == HostOf(":" + port, urlHost) <==> HostOf("", urlHost) == ""
  {
    var s := ":" + port;
    assert s[0] == ':' && s[..0] == "";
    assert forall i :: 0 < i < |s| ==> s[i] == port[i - 1];
    assert LastIndex(s, ':') == 0 && LastIndex(s, ']') == -1;
  }

  /** Without a host of its own a request has the host of its URL, read the same way. */
  lemma UrlHostStandsIn(urlHost: string, other: string)
    requires urlHost != ""
    ensures HostOf("", urlHost) == HostOf(urlHost, other)
  {
  }

  lemma HostPortFold(h: string, h': string, port: string)
    requires ToLower(h) == ToLower(h')
    ensures ToLower(h + ":" + port) == ToLower(h' + ":" + port)
  {
    ToLowerConcat(h, ":" + port);
    ToLowerConcat(h', ":" + port);
    assert h + ":" + port == h + (":" + port) && h' + ":" + port == h' + (":" + port);
  }

  /** So the rule verdict on a request depends on neither port nor case. */
  lemma VerdictIgnoresPortAndCase(
    compiled: seq<CompiledRule>, defaultAction: string, tier: string,
    h: string, h': string, port: string, urlHost: string)
    requires IsHost(h) && ToLower(h) == ToLower(h') && ':' !in port && ']' !in port
    ensures Evaluate(OfDomain, compiled, defaultAction, tier, HostOf(h, urlHost))
         == Evaluate(OfDomain, compiled, defaultAction, tier, HostOf(h' + ":" + port, urlHost))
  {
    HostNormalised(h, h', port, urlHost);
  }

  /** Which hosts come through without a port unharmed: exactly those without a colon, or
      with a closing bracket after the last one. Any other loses what follows that colon. */
  lemma PortlessHostKept(h: string, urlHost: string)
    requires h != ""
    ensures HostOf(h, urlHost) == ToLower(h) <==> ':' !in h || LastIndex(h, ']') > LastIndex(h, ':')
    ensures HostOf(h, urlHost) != ToLower(h) ==> HostOf(h, urlHost) == ToLower(h[..LastIndex(h, ':')])
  {
    var idx := LastIndex(h, ':');
    if WithoutPort(h) != h {
      assert |ToLower(h[..idx])| == idx < |h| == |ToLower(h)|;
    }
    if ':' !in h {
      assert idx == -1;
    }
  }

  /** So an IPv6 address without brackets loses its last group. */
  lemma BareIPv6LosesGroup(groups: string, last: string, urlHost: string)
    requires ':' !in last && ']' !in groups && ']' !in last
    ensures HostOf(groups + ":" + last, urlHost) == ToLower(groups)
  {
    var s := groups + ":" + last;
    assert s[|groups|] == ':' && s[..|groups|] == groups;
    assert forall i :: |groups| < i < |s| ==> s[i] == last[i - |groups| - 1];
    assert forall i :: 0 <= i < |groups| ==> s[i] == groups[i];
    assert LastIndex(s, ':') == |groups| && LastIndex(s, ']') == -1;
  }

  // ---------- One request ----------

  datatype Decision = Decision(shouldBlock: bool, ruleMatched: bool, reason: string)

  function RuleIdOf(v: Verdict): string {
    if v.matched.Some? then v.matched.value.id else ""
  }

  function ReasonFor(v: Verdict): string {
    if v.allowed then "" else if RuleIdOf(v) != "" then RuleIdOf(v) + ": " + v.reason else v.reason
  }

  function DecisionOf(v: Verdict, mode: string): Decision {
    Decision(Decide(mode, !v.allowed), !v.allowed, ReasonFor(v))
  }

  method CheckRequest(engine: RuleEngine, modes: ModeManager, r: Request, tier: string) returns (d: Decision)
    ensures d == DecisionOf(
              Evaluate(OfDomain, engine.compiled, engine.defaultAction, tier, HostOf(r.host, r.urlHost)),
              Effective(modes.Current(), r.token))
  {
    var host := ExtractHost(r);
    var v := engine.CheckDomainWithTier(host, tier);
    var ruleMatched := !v.allowed;
    var shouldBlock := modes.ShouldBlock(r.token, ruleMatched);
    var ruleId := "";
    if v.matched.Some? {
      ruleId := v.matched.value.id;
    }
    var reason := "";
    if ruleMatched {
      reason := v.reason;
      if ruleId != "" {
        reason := ruleId + ": " + reason;
      }
    }
    d := Decision(shouldBlock, ruleMatched, reason);
  }

  /** The label that the handler logs. */
  function ActionOf(shouldBlock: bool, ruleMatched: bool): string {
    if shouldBlock then "block" else if ruleMatched then "audit" else "allow"
  }

  /** `Rejected` is the 403 for an unregistered source, `Blocked` the 403 of a verdict. The
      agent, the action and the reason are those of the log entry. */
  datatype Response =
    | Rejected
    | Blocked(agent: string, action: string, reason: string)
    | Forwarded(agent: string, action: string, reason: string)

  method ValidateSource(registry: Fleet.Manager?, ip: string) returns (agent: string, tier: string, valid: bool)
    ensures registry == null ==> agent == "unknown" && tier == "unknown" && valid
    ensures registry != null ==>
              && (valid <==> ip in registry.ipToAgent)
              && (valid ==> agent == registry.ipToAgent[ip].id && tier == Fleet.TierOf(registry.ipToAgent[ip]))
  {
    if registry == null {
      return "unknown", "unknown", true;
    }
    agent, tier, valid := registry.ValidateAgentIP(ip);
  }

  /** The handler's decision: a registered source is blocked exactly when the mode of its
      token, applied to the rule verdict for its host and tier, says so. */
  method ServeHTTP(registry: Fleet.Manager?, engine: RuleEngine, modes: ModeManager, r: Request) returns (resp: Response)
    ensures resp.Rejected? <==> registry != null && r.remoteIP !in registry.ipToAgent
    ensures !resp.Rejected? ==>
              var tier := if registry == null then "unknown" else Fleet.TierOf(registry.ipToAgent[r.remoteIP]);
              var v := Evaluate(OfDomain, engine.compiled, engine.defaultAction, tier, HostOf(r.host, r.urlHost));
              var mode := Effective(modes.Current(), r.token);
              && (resp.Blocked? <==> mode == LOCKDOWN || (mode != AUDIT && !v.allowed))
              && resp.action == (if resp.Blocked? then "block" else if v.allowed then "allow" else "audit")
              && resp.reason == ReasonFor(v)
              && resp.agent == (if registry == null then "unknown" else registry.ipToAgent[r.remoteIP].id)
  {
    var agent, tier, valid := ValidateSource(registry, r.remoteIP);
    if !valid {
      return Rejected;
    }
    var d := CheckRequest(engine, modes, r, tier);
    var action := "allow";
    if d.shouldBlock {
      action := "block";
    } else if d.ruleMatched {
      action := "audit";
    }
    if d.shouldBlock {
      return Blocked(agent, action, d.reason);
    }
    resp := Forwarded(agent, action, d.reason);
  }

  // ---------- From raw rules to the decision ----------

  /** The reason logged when rule `i`, or the default action, blocks. */
  function BlockReason(rules: seq<Rule>, i: nat): string
    requires i <= |rules|
  {
    if i == |rules| then "blocked by default policy"
    else (if rules[i].id == "" then "" else rules[i].id + ": ")
         + ("blocked by rule " + rules[i].id + ": " + rules[i].description)
  }

  /** What a request meets, read off the raw rules: with rule `i` the first to speak to its
      host and tier, or none of them, it is blocked exactly in lockdown, or outside audit if
      that rule blocks, or if none speaks and the default is to block. The reason names the
      rule that blocks, also for an audited request. */
  lemma DecisionFromRules(
    rules: seq<Rule>, compiled: seq<CompiledRule>, defaultAction: string, tier: string, r: Request, mode: string, i: nat)
    requires CompiledFrom(compiled, rules) && ReadablyPlain(OfDomain, rules, tier)
    requires FirstToSpeak(OfDomain, rules, tier, HostOf(r.host, r.urlHost), i)
    ensures var d := DecisionOf(Evaluate(OfDomain, compiled, defaultAction, tier, HostOf(r.host, r.urlHost)), mode);
            var blocks := (if i < |rules| then rules[i].action else defaultAction) == "block";
            && (d.ruleMatched <==> blocks)
            && (d.shouldBlock <==> mode == "lockdown" || (mode != "audit" && blocks))
            && d.reason == (if blocks then BlockReason(rules, i) else "")
  {
    var host := HostOf(r.host, r.urlHost);
    EngineDecidedBy(OfDomain, rules, compiled, defaultAction, tier, host, i);
    ReasonFromRules(Evaluate(OfDomain, compiled, defaultAction, tier, host), rules, i, defaultAction);
  }

  lemma ReasonFromRules(v: Verdict, rules: seq<Rule>, i: nat, defaultAction: string)
    requires i <= |rules| && DecidedBy(v, rules, i, defaultAction)
    ensures ReasonFor(v) == if v.allowed then "" else BlockReason(rules, i)
  {
    assert "blocked" + " by default policy" == "blocked by default policy";
    if i < |rules| && !v.allowed {
      var said := "blocked by rule " + rules[i].id + ": " + rules[i].description;
      assert "blocked" + " by rule " == "blocked by rule ";
      assert v.reason == said;
      assert "" + said == said && rules[i].id + ": " + said == (rules[i].id + ": ") + said;
    }
  }
}
