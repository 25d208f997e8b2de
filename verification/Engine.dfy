/** The rule engine of internal/rules/engine.go: compiling a rule list, installing it, and
    first-match evaluation with tier filtering; and the reading of the raw list that the
    compiled engine is proved to implement. */
module Engine {
  import opened Prelude
  import opened Regex
  import opened Patterns
  import opened Matcher
  import opened DomainPatterns

  datatype Rule = Rule(
    id: string,
    pattern: string,
    domain: string,
    action: string,
    description: string,
    tiers: seq<string>,
    enabled: bool)

  datatype CompiledRule = CompiledRule(
    rule: Rule,
    commandMatcher: Option<Regexp>,
    domainMatcher: Option<Regexp>)
  {
    predicate MatchCommand(cmd: string) {
      commandMatcher.Some? && MatchString(commandMatcher.value, cmd)
    }

    /** The domain is lowered before matching. */
    predicate MatchDomain(domain: string) {
      domainMatcher.Some? && MatchString(domainMatcher.value, ToLower(domain))
    }
  }

  datatype Verdict = Verdict(allowed: bool, matched: Option<Rule>, reason: string)

  /** A command check looks at rule patterns, a domain check at rule domains. */
  datatype Kind = OfCommand | OfDomain

  const COMMODORE := "commodore"

  /** A rule applies to the tiers it lists, or to all when it lists none; a blocking rule
      applies to the commodore only when it names that tier. */
  predicate AppliesToTier(r: Rule, tier: string)
  {
    if tier == COMMODORE && r.action == "block" then COMMODORE in r.tiers
    else r.tiers == [] || tier in r.tiers
  }

  /** The scan over the tier list. */
  method AppliesTo(r: Rule, tier: string) returns (applies: bool)
    ensures applies == AppliesToTier(r, tier)
  {
    if tier == COMMODORE && r.action == "block" {
      for i := 0 to |r.tiers|
        invariant COMMODORE !in r.tiers[..i]
      {
        if r.tiers[i] == COMMODORE {
          return true;
        }
      }
      assert r.tiers[..|r.tiers|] == r.tiers;
      return false;
    }
    if |r.tiers| == 0 {
      return true;
    }
    for i := 0 to |r.tiers|
      invariant tier !in r.tiers[..i]
    {
      if r.tiers[i] == tier {
        return true;
      }
    }
    assert r.tiers[..|r.tiers|] == r.tiers;
    applies := false;
  }

  // ---------- Compilation ----------

  /** The two matchers of a rule; `Failure` carries the first compile error. */
  function Compiled(r: Rule): Result<CompiledRule, CompileError> {
    var command := if r.pattern == "" then Success(None) else Wrapped(Compile(CommandText(r.pattern)));
    match command
    case Failure(e) => Failure(e)
    case Success(c) =>
      var domain := if r.domain == "" then Success(None) else Wrapped(CompileDomain(r.domain));
      match domain
      case Failure(e) => Failure(e)
      case Success(d) => Success(CompiledRule(r, c, d))
  }

  function Wrapped(re: Result<Regexp, CompileError>): Result<Option<Regexp>, CompileError> {
    match re
    case Success(v) => Success(Some(v))
    case Failure(e) => Failure(e)
  }

  method CompileRule(r: Rule) returns (cr: Result<CompiledRule, CompileError>)
    ensures cr == Compiled(r)
  {
    var commandMatcher: Option<Regexp>, domainMatcher: Option<Regexp> := None, None;
    if r.pattern != "" {
      var regex := GlobToRegex(r.pattern);
      if regex.Failure? {
        return Failure(regex.error);
      }
      commandMatcher := Some(regex.value);
    }
    if r.domain != "" {
      var regex := DomainToRegex(r.domain);
      if regex.Failure? {
        return Failure(regex.error);
      }
      domainMatcher := Some(regex.value);
    }
    cr := Success(CompiledRule(r, commandMatcher, domainMatcher));
  }

  /** Rule `i` compiles to `compiled[i]`, for every rule of the list. */
  predicate CompiledFrom(compiled: seq<CompiledRule>, rules: seq<Rule>) {
    |compiled| == |rules| && forall i :: 0 <= i < |rules| ==> Compiled(rules[i]) == Success(compiled[i])
  }

  /** Rule `i` is the first that does not compile. */
  predicate FirstFailure(rules: seq<Rule>, i: nat, e: CompileError)
    requires i < |rules|
  {
    Compiled(rules[i]) == Failure(e) && forall j :: 0 <= j < i ==> Compiled(rules[j]).Success?
  }

  method CompileRuleSet(rules: seq<Rule>) returns (r: Result<seq<CompiledRule>, CompileError>)
    ensures r.Success? ==> CompiledFrom(r.value, rules)
    ensures r.Failure? ==> exists i :: 0 <= i < |rules| && FirstFailure(rules, i, r.error)
  {
    var compiled := [];
    for i := 0 to |rules|
      invariant CompiledFrom(compiled, rules[..i])
    {
      var cr := CompileRule(rules[i]);
      if cr.Failure? {
        FirstFailureAt(compiled, rules, i, cr.error);
        return Failure(cr.error);
      }
      CompiledFromAppend(compiled, rules, i, cr.value);
      compiled := compiled + [cr.value];
    }
    assert rules[..|rules|] == rules;
    r := Success(compiled);
  }

  lemma CompiledFromAppend(compiled: seq<CompiledRule>, rules: seq<Rule>, i: nat, cr: CompiledRule)
    requires i < |rules| && CompiledFrom(compiled, rules[..i]) && Compiled(rules[i]) == Success(cr)
    ensures CompiledFrom(compiled + [cr], rules[..i + 1])
  {
    var longer := compiled + [cr];
    forall j | 0 <= j < i + 1
      ensures Compiled(rules[..i + 1][j]) == Success(longer[j])
    {
      if j < i {
        assert rules[..i][j] == rules[j] && longer[j] == compiled[j];
      }
    }
  }

  lemma FirstFailureAt(compiled: seq<CompiledRule>, rules: seq<Rule>, i: nat, e: CompileError)
    requires i < |rules| && CompiledFrom(compiled, rules[..i]) && Compiled(rules[i]) == Failure(e)
    ensures FirstFailure(rules, i, e)
  {
    forall j | 0 <= j < i
      ensures Compiled(rules[j]).Success?
    {
      assert rules[..i][j] == rules[j];
    }
  }

  // ---------- Direct reading of the raw list ----------

  /** What a rule says about an input, read from its pattern without any compilation. */
  ghost predicate Hits(kind: Kind, r: Rule, x: string) {
    match kind
    case OfCommand => r.pattern != "" && CommandDenotes(r.pattern, x)
    case OfDomain => r.domain != "" && DomainDenotes(r.domain, x)
  }

  /** The rule takes part in checks of this kind for this tier; no tier means no filter. */
  predicate Relevant(kind: Kind, r: Rule, tier: string) {
    && r.enabled
    && (if kind == OfCommand then r.pattern != "" else r.domain != "")
    && (tier == "" || AppliesToTier(r, tier))
  }

  function RuleVerdict(r: Rule): Verdict {
    if r.action == "block" then Verdict(false, Some(r), "blocked by rule " + r.id + ": " + r.description)
    else Verdict(true, Some(r), "allowed by rule " + r.id + ": " + r.description)
  }

  function DefaultVerdict(defaultAction: string): Verdict {
    if defaultAction == "block" then Verdict(false, None, "blocked by default policy")
    else Verdict(true, None, "allowed by default policy")
  }

  /** First match over the raw rules. */
  ghost function Direct(kind: Kind, rules: seq<Rule>, defaultAction: string, tier: string, x: string): Verdict {
    if rules == [] then DefaultVerdict(defaultAction)
    else if Relevant(kind, rules[0], tier) && Hits(kind, rules[0], x) then RuleVerdict(rules[0])
    else Direct(kind, rules[1..], defaultAction, tier, x)
  }

  // ---------- Compiled evaluation ----------

  predicate Matched(kind: Kind, cr: CompiledRule, x: string) {
    if kind == OfCommand then cr.MatchCommand(x) else cr.MatchDomain(x)
  }

  /** First match over compiled rules, as the check loops compute it. */
  function Evaluate(kind: Kind, compiled: seq<CompiledRule>, defaultAction: string, tier: string, x: string): Verdict {
    if compiled == [] then DefaultVerdict(defaultAction)
    else if Relevant(kind, compiled[0].rule, tier) && Matched(kind, compiled[0], x) then RuleVerdict(compiled[0].rule)
    else Evaluate(kind, compiled[1..], defaultAction, tier, x)
  }

  /** The engine: `LoadRules` and `LoadRulesFromBytes` replace the installed list as a
      whole; the checks only read. A file or byte string is given by what it decodes to. */
  class RuleEngine {
    var rules: seq<Rule>
    var compiled: seq<CompiledRule>
    var rulesPath: string
    var defaultAction: string

    ghost predicate Valid()
      reads this
    {
      CompiledFrom(compiled, rules)
    }

    constructor (action: string)
      ensures Valid() && rules == [] && rulesPath == "" && defaultAction == action
    {
      rules, compiled, rulesPath, defaultAction := [], [], "", action;
    }

    /** Install is all or nothing: on any error the engine is unchanged. */
    method LoadRules(path: string, decoded: Option<seq<Rule>>) returns (ok: bool)
      requires Valid()
      modifies this
      ensures Valid() && defaultAction == old(defaultAction)
      ensures ok <==> decoded.Some? && forall i :: 0 <= i < |decoded.value| ==> Compiled(decoded.value[i]).Success?
      ensures ok ==> rules == decoded.value && rulesPath == path
      ensures !ok ==> unchanged(this)
    {
      if decoded.None? {
        return false;
      }
      var result := CompileRuleSet(decoded.value);
      if result.Failure? {
        return false;
      }
      rules, compiled, rulesPath := decoded.value, result.value, path;
      ok := true;
    }

    method LoadRulesFromBytes(decoded: Option<seq<Rule>>) returns (ok: bool)
      requires Valid()
      modifies this
      ensures Valid() && defaultAction == old(defaultAction) && rulesPath == old(rulesPath)
      ensures ok <==> decoded.Some? && forall i :: 0 <= i < |decoded.value| ==> Compiled(decoded.value[i]).Success?
      ensures ok ==> rules == decoded.value
      ensures !ok ==> unchanged(this)
    {
      if decoded.None? {
        return false;
      }
      var result := CompileRuleSet(decoded.value);
      if result.Failure? {
        return false;
      }
      rules, compiled := decoded.value, result.value;
      ok := true;
    }

    method CheckCommandWithTier(command: string, tier: string) returns (v: Verdict)
      ensures v == Evaluate(OfCommand, compiled, defaultAction, tier, command)
    {
      for i := 0 to |compiled|
        invariant Evaluate(OfCommand, compiled, defaultAction, tier, command)
               == Evaluate(OfCommand, compiled[i..], defaultAction, tier, command)
      {
        var cr := compiled[i];
        assert compiled[i..][0] == cr && compiled[i..][1..] == compiled[i + 1..];
        if !cr.rule.enabled {
          continue;
        }
        if cr.rule.pattern == "" {
          continue;
        }
        if tier != "" {
          var applies := AppliesTo(cr.rule, tier);
          if !applies {
            continue;
          }
        }
        if cr.MatchCommand(command) {
          return RuleVerdict(cr.rule);
        }
      }
      v := DefaultVerdict(defaultAction);
    }

    method CheckDomainWithTier(domain: string, tier: string) returns (v: Verdict)
      ensures v == Evaluate(OfDomain, compiled, defaultAction, tier, domain)
    {
      for i := 0 to |compiled|
        invariant Evaluate(OfDomain, compiled, defaultAction, tier, domain)
               == Evaluate(OfDomain, compiled[i..], defaultAction, tier, domain)
      {
        var cr := compiled[i];
        assert compiled[i..][0] == cr && compiled[i..][1..] == compiled[i + 1..];
        if !cr.rule.enabled {
          continue;
        }
        if cr.rule.domain == "" {
          continue;
        }
        if tier != "" {
          var applies := AppliesTo(cr.rule, tier);
          if !applies {
            continue;
          }
        }
        if cr.MatchDomain(domain) {
          return RuleVerdict(cr.rule);
        }
      }
      v := DefaultVerdict(defaultAction);
    }
  }

  // ---------- Compilation preserves the meaning of a rule list ----------

  /** A domain check needs every rule that takes part in it to have a completely escaped
      domain pattern; a command check needs nothing. */
  predicate ReadablyPlain(kind: Kind, rules: seq<Rule>, tier: string) {
    kind == OfDomain ==>
      forall i :: 0 <= i < |rules| && Relevant(kind, rules[i], tier) ==> DomainPlain(rules[i].domain)
  }

  /** A rule fails to compile only for an unescaped domain pattern. */
  lemma RuleCompiles(r: Rule)
    requires DomainPlain(r.domain)
    ensures Compiled(r).Success?
  {
    CommandCompiles(r.pattern);
    DomainCorrect(r.domain, "");
  }

  /** A compiled rule matches an input of either kind exactly when the raw rule hits it. */
  lemma MatchedIsHit(kind: Kind, r: Rule, cr: CompiledRule, x: string)
    requires Compiled(r) == Success(cr) && (kind == OfDomain ==> DomainPlain(r.domain))
    ensures cr.rule == r && (Matched(kind, cr, x) <==> Hits(kind, r, x))
  {
    match kind
    case OfCommand => CommandCorrect(r.pattern, x);
    case OfDomain => DomainCorrect(r.domain, x);
  }

  /** When a rule speaks to an input: it is enabled, its pattern of the right kind denotes the
      input, and its tiers admit the one asking. A rule without tiers admits every tier, save
      that a blocking one does not admit the commodore. */
  ghost predicate Speaks(kind: Kind, r: Rule, tier: string, x: string) {
    && r.enabled
    && (kind == OfCommand ==> r.pattern != "" && CommandDenotes(r.pattern, x))
    && (kind == OfDomain ==> r.domain != "" && DomainDenotes(r.domain, x))
    && (|| tier == ""
        || tier in r.tiers
        || (r.tiers == [] && !(tier == "commodore" && r.action == "block")))
  }

  lemma SpeaksExactly(kind: Kind, r: Rule, tier: string, x: string)
    ensures Relevant(kind, r, tier) && Hits(kind, r, x) <==> Speaks(kind, r, tier, x)
  {
  }

  /** Rule `i` is the first to speak, or none does and `i` is the number of rules. */
  ghost predicate FirstToSpeak(kind: Kind, rules: seq<Rule>, tier: string, x: string, i: nat) {
    && i <= |rules|
    && (forall j :: 0 <= j < i ==> !Speaks(kind, rules[j], tier, x))
    && (i < |rules| ==> Speaks(kind, rules[i], tier, x))
  }

  /** The first rule to speak is the one matched, and blocks exactly if its action is
      `block`; if none speaks, the default action decides the same way. */
  predicate DecidedBy(v: Verdict, rules: seq<Rule>, i: nat, defaultAction: string)
    requires i <= |rules|
  {
    if i < |rules| then
      && v.matched == Some(rules[i])
      && (!v.allowed <==> rules[i].action == "block")
      && v.reason == (if rules[i].action == "block" then "blocked" else "allowed")
                     + " by rule " + rules[i].id + ": " + rules[i].description
    else
      && v.matched == None
      && (!v.allowed <==> defaultAction == "block")
      && v.reason == (if defaultAction == "block" then "blocked" else "allowed") + " by default policy"
  }

  lemma {:induction false} DirectDecidedBy(
    kind: Kind, rules: seq<Rule>, defaultAction: string, tier: string, x: string, i: nat)
    requires FirstToSpeak(kind, rules, tier, x, i)
    ensures DecidedBy(Direct(kind, rules, defaultAction, tier, x), rules, i, defaultAction)
    decreases |rules|
  {
    if rules == [] {
      assert "blocked by default policy" == "blocked" + " by default policy";
      assert "allowed by default policy" == "allowed" + " by default policy";
    } else {
      SpeaksExactly(kind, rules[0], tier, x);
      if i == 0 {
        VerdictOfRule(rules[0]);
      } else {
        assert forall j :: 0 <= j < |rules[1..]| ==> rules[1..][j] == rules[j + 1];
        DirectDecidedBy(kind, rules[1..], defaultAction, tier, x, i - 1);
      }
    }
  }

  lemma VerdictOfRule(r: Rule)
    ensures DecidedBy(RuleVerdict(r), [r], 0, "")
  {
    assert "blocked by rule " == "blocked" + " by rule " && "allowed by rule " == "allowed" + " by rule ";
  }

  /** The same for what the engine answers from its compiled rules. */
  lemma EngineDecidedBy(
    kind: Kind, rules: seq<Rule>, compiled: seq<CompiledRule>, defaultAction: string, tier: string, x: string, i: nat)
    requires CompiledFrom(compiled, rules) && ReadablyPlain(kind, rules, tier)
    requires FirstToSpeak(kind, rules, tier, x, i)
    ensures DecidedBy(Evaluate(kind, compiled, defaultAction, tier, x), rules, i, defaultAction)
  {
    CompilationPreservesVerdicts(kind, rules, compiled, defaultAction, tier, x);
    DirectDecidedBy(kind, rules, defaultAction, tier, x, i);
  }

  lemma CompiledTail(compiled: seq<CompiledRule>, rules: seq<Rule>)
    requires CompiledFrom(compiled, rules) && rules != []
    ensures Compiled(rules[0]) == Success(compiled[0]) && compiled[0].rule == rules[0]
    ensures CompiledFrom(compiled[1..], rules[1..])
  {
    assert forall i :: 0 <= i < |rules[1..]| ==> rules[1..][i] == rules[i + 1] && compiled[1..][i] == compiled[i + 1];
  }

  /** Compiling a rule list preserves its meaning: same verdict, same matched rule, same
      reason as first match over the raw rules. Command checks need no assumption on the
      patterns; domain checks need completely escaped domain patterns in the rules that
      take part. */
  lemma {:induction false} CompilationPreservesVerdicts(
    kind: Kind, rules: seq<Rule>, compiled: seq<CompiledRule>, defaultAction: string, tier: string, x: string)
    requires CompiledFrom(compiled, rules) && ReadablyPlain(kind, rules, tier)
    ensures Evaluate(kind, compiled, defaultAction, tier, x) == Direct(kind, rules, defaultAction, tier, x)
    decreases |rules|
  {
    if rules != [] {
      CompiledTail(compiled, rules);
      if Relevant(kind, rules[0], tier) {
        MatchedIsHit(kind, rules[0], compiled[0], x);
      }
      CompilationPreservesVerdicts(kind, rules[1..], compiled[1..], defaultAction, tier, x);
    }
  }

  /** The rules that take part in a check. */
  function OnlyRelevant(kind: Kind, rules: seq<Rule>, tier: string): seq<Rule> {
    if rules == [] then []
    else (if Relevant(kind, rules[0], tier) then [rules[0]] else []) + OnlyRelevant(kind, rules[1..], tier)
  }

  /** Deleting every disabled, wrong-kind or tier-inapplicable rule changes no verdict. */
  lemma {:induction false} IrrelevantRulesDoNothing(
    kind: Kind, rules: seq<Rule>, defaultAction: string, tier: string, x: string)
    ensures Direct(kind, OnlyRelevant(kind, rules, tier), defaultAction, tier, x)
         == Direct(kind, rules, defaultAction, tier, x)
  {
    if rules != [] {
      IrrelevantRulesDoNothing(kind, rules[1..], defaultAction, tier, x);
      var rest := OnlyRelevant(kind, rules[1..], tier);
      if Relevant(kind, rules[0], tier) {
        assert ([rules[0]] + rest)[1..] == rest;
      } else {
        assert [] + rest == rest;
      }
    }
  }

  /** The same for the compiled engine, whatever the patterns: loading the pruned list gives
      the same verdicts. */
  lemma {:induction false} PrunedEngineAgrees(
    kind: Kind, rules: seq<Rule>, compiled: seq<CompiledRule>, pruned: seq<CompiledRule>,
    defaultAction: string, tier: string, x: string)
    requires CompiledFrom(compiled, rules) && CompiledFrom(pruned, OnlyRelevant(kind, rules, tier))
    ensures Evaluate(kind, compiled, defaultAction, tier, x) == Evaluate(kind, pruned, defaultAction, tier, x)
    decreases |rules|
  {
    if rules != [] {
      var rest := OnlyRelevant(kind, rules[1..], tier);
      CompiledTail(compiled, rules);
      if Relevant(kind, rules[0], tier) {
        CompiledTail(pruned, [rules[0]] + rest);
        assert ([rules[0]] + rest)[1..] == rest;
        PrunedEngineAgrees(kind, rules[1..], compiled[1..], pruned[1..], defaultAction, tier, x);
      } else {
        assert [] + rest == rest;
        PrunedEngineAgrees(kind, rules[1..], compiled[1..], pruned, defaultAction, tier, x);
      }
    }
  }

  // ---------- Dead rules ----------

  /** `early` decides first whatever `late` could decide. */
  ghost predicate Shadows(kind: Kind, early: Rule, late: Rule) {
    && (forall tier: string :: Relevant(kind, late, tier) ==> Relevant(kind, early, tier))
    && (forall x: string :: Hits(kind, late, x) ==> Hits(kind, early, x))
  }

  /** A rule behind one that shadows it can be deleted from any list without changing any
      verdict, for any tier and any input. */
  lemma {:induction false} ShadowedRuleIsDead(
    kind: Kind, before: seq<Rule>, early: Rule, between: seq<Rule>, late: Rule, after: seq<Rule>,
    defaultAction: string, tier: string, x: string)
    requires Shadows(kind, early, late)
    ensures Direct(kind, before + [early] + between + [late] + after, defaultAction, tier, x)
         == Direct(kind, before + [early] + between + after, defaultAction, tier, x)
    decreases |before| + |between|
  {
    var full, cut := before + [early] + between + [late] + after, before + [early] + between + after;
    if before != [] {
      assert full[1..] == before[1..] + [early] + between + [late] + after;
      assert cut[1..] == before[1..] + [early] + between + after;
      ShadowedRuleIsDead(kind, before[1..], early, between, late, after, defaultAction, tier, x);
    } else if !(Relevant(kind, early, tier) && Hits(kind, early, x)) {
      assert full[0] == early && full[1..] == between + [late] + after;
      assert cut[0] == early && cut[1..] == between + after;
      DeadTail(kind, between, late, after, defaultAction, tier, x);
    } else {
      assert full[0] == early && cut[0] == early;
    }
  }

  lemma {:induction false} DeadTail(
    kind: Kind, between: seq<Rule>, late: Rule, after: seq<Rule>, defaultAction: string, tier: string, x: string)
    requires !(Relevant(kind, late, tier) && Hits(kind, late, x))
    ensures Direct(kind, between + [late] + after, defaultAction, tier, x)
         == Direct(kind, between + after, defaultAction, tier, x)
  {
    var full, cut := between + [late] + after, between + after;
    if between == [] {
      assert full[1..] == after && cut == after;
    } else {
      assert full[1..] == between[1..] + [late] + after && cut[1..] == between[1..] + after;
      DeadTail(kind, between[1..], late, after, defaultAction, tier, x);
    }
  }

  /** The same for what the engine computes from the two compiled lists. Nothing is asked of
      any other rule; for domain checks the two rules themselves must be completely escaped. */
  lemma ShadowedRuleIsDeadCompiled(
    kind: Kind, before: seq<Rule>, early: Rule, between: seq<Rule>, late: Rule, after: seq<Rule>,
    full: seq<CompiledRule>, cut: seq<CompiledRule>, defaultAction: string, tier: string, x: string)
    requires Shadows(kind, early, late)
    requires kind == OfDomain ==> DomainPlain(early.domain) && DomainPlain(late.domain)
    requires CompiledFrom(full, before + [early] + between + [late] + after)
    requires CompiledFrom(cut, before + [early] + between + after)
    ensures Evaluate(kind, full, defaultAction, tier, x) == Evaluate(kind, cut, defaultAction, tier, x)
  {
    var n, m := |before|, |before| + 1 + |between|;
    var rules := before + [early] + between + [late] + after;
    LatePlaces(before, early, between, late, after);
    assert Compiled(rules[n]) == Success(full[n]) && Compiled(rules[m]) == Success(full[m]);
    MatchedIsHit(kind, early, full[n], x);
    MatchedIsHit(kind, late, full[m], x);
    CompiledWithout(full, rules, m);
    SameCompilation(cut, full[..m] + full[m + 1..], rules[..m] + rules[m + 1..]);
    DeadCompiled(kind, full, n, m, defaultAction, tier, x);
  }

  lemma LatePlaces(before: seq<Rule>, early: Rule, between: seq<Rule>, late: Rule, after: seq<Rule>)
    ensures var rules, m := before + [early] + between + [late] + after, |before| + 1 + |between|;
            && rules[|before|] == early && rules[m] == late
            && rules[..m] + rules[m + 1..] == before + [early] + between + after
  {
    var front := before + [early] + between;
    var rules := front + [late] + after;
    assert rules[..|front|] == front && rules[|front| + 1..] == after;
  }

  lemma WithoutAt<T>(xs: seq<T>, m: nat, i: nat)
    requires m < |xs| && i < |xs| - 1
    ensures (xs[..m] + xs[m + 1..])[i] == if i < m then xs[i] else xs[i + 1]
  {
  }

  lemma CompiledWithout(compiled: seq<CompiledRule>, rules: seq<Rule>, m: nat)
    requires CompiledFrom(compiled, rules) && m < |rules|
    ensures CompiledFrom(compiled[..m] + compiled[m + 1..], rules[..m] + rules[m + 1..])
  {
    var r, c := rules[..m] + rules[m + 1..], compiled[..m] + compiled[m + 1..];
    forall i | 0 <= i < |r|
      ensures Compiled(r[i]) == Success(c[i])
    {
      WithoutAt(rules, m, i);
      WithoutAt(compiled, m, i);
    }
  }

  predicate Fires(kind: Kind, cr: CompiledRule, tier: string, x: string) {
    Relevant(kind, cr.rule, tier) && Matched(kind, cr, x)
  }

  /** A compiled rule that fires only when an earlier one does can be dropped. */
  lemma {:induction false} DeadCompiled(
    kind: Kind, full: seq<CompiledRule>, n: nat, m: nat, defaultAction: string, tier: string, x: string)
    requires n < m < |full| && (Fires(kind, full[m], tier, x) ==> Fires(kind, full[n], tier, x))
    ensures Evaluate(kind, full, defaultAction, tier, x)
         == Evaluate(kind, full[..m] + full[m + 1..], defaultAction, tier, x)
  {
    var cut := full[..m] + full[m + 1..];
    assert cut[0] == full[0] && cut[1..] == full[1..][..m - 1] + full[1..][m..];
    if n > 0 {
      DeadCompiled(kind, full[1..], n - 1, m - 1, defaultAction, tier, x);
    } else if !Fires(kind, full[0], tier, x) {
      IdleCompiled(kind, full[1..], m - 1, defaultAction, tier, x);
    }
  }

  /** So can one that does not fire at all. */
  lemma {:induction false} IdleCompiled(
    kind: Kind, full: seq<CompiledRule>, m: nat, defaultAction: string, tier: string, x: string)
    requires m < |full| && !Fires(kind, full[m], tier, x)
    ensures Evaluate(kind, full, defaultAction, tier, x)
         == Evaluate(kind, full[..m] + full[m + 1..], defaultAction, tier, x)
  {
    var cut := full[..m] + full[m + 1..];
    if m == 0 {
      assert cut == full[1..];
    } else {
      assert cut[0] == full[0] && cut[1..] == full[1..][..m - 1] + full[1..][m..];
      IdleCompiled(kind, full[1..], m - 1, defaultAction, tier, x);
    }
  }

  lemma SameCompilation(a: seq<CompiledRule>, b: seq<CompiledRule>, rules: seq<Rule>)
    requires CompiledFrom(a, rules) && CompiledFrom(b, rules)
    ensures a == b
  {
    forall i | 0 <= i < |rules|
      ensures a[i] == b[i]
    {
      assert Compiled(rules[i]) == Success(a[i]);
    }
  }

  /** Tier coverage read off two rules: `early` applies wherever `late` does. */
  predicate CoversTiers(early: Rule, late: Rule) {
    && (early.tiers == [] || (late.tiers != [] && forall t :: t in late.tiers ==> t in early.tiers || t == COMMODORE))
    && (AppliesToTier(late, COMMODORE) ==> AppliesToTier(early, COMMODORE))
  }

  lemma CoversTiersIsCoverage(early: Rule, late: Rule)
    ensures CoversTiers(early, late)
       <==> forall tier: string :: AppliesToTier(late, tier) ==> AppliesToTier(early, tier)
  {
    var other := FreshTier(early.tiers + [COMMODORE]);
    assert late.tiers == [] ==> AppliesToTier(late, other);
    assert early.tiers != [] ==> !AppliesToTier(early, other);
    if forall tier: string :: AppliesToTier(late, tier) ==> AppliesToTier(early, tier) {
      forall t | t in late.tiers && t != COMMODORE && early.tiers != []
        ensures t in early.tiers
      {
        assert AppliesToTier(late, t);
      }
    }
  }

  /** A name longer than every listed one. */
  function FreshTier(tiers: seq<string>): (t: string)
    ensures t !in tiers
    ensures forall u :: u in tiers ==> |u| < |t|
  {
    if tiers == [] then ""
    else
      var t := FreshTier(tiers[1..]);
      var longer := if |tiers[0]| < |t| then t else seq(|tiers[0]| + 1, _ => 'x');
      assert forall u :: u in tiers ==> u == tiers[0] || u in tiers[1..];
      longer
  }

  /** The domains matched by `s`, `*.s` and `*s` form an increasing chain. */
  lemma DomainChain(s: string, d: string)
    requires s != "" && s[0] != '.' && '*' !in s && AllPlain(DomainGlob, s)
    ensures DomainPlain(s) && DomainPlain("*." + s) && DomainPlain("*" + s)
    ensures DomainDenotes(s, d) ==> DomainDenotes("*." + s, d)
    ensures DomainDenotes("*." + s, d) ==> DomainDenotes("*" + s, d)
  {
    assert ("*." + s)[2..] == s;
    assert !HasPrefix(s, "*.") by { assert s[0] != '*'; }
    assert !HasPrefix("*" + s, "*.") by { assert ("*" + s)[1] == s[0]; }
    assert AllPlain(DomainGlob, "*" + s);
    if DomainDenotes(s, d) {
      assert IsLabelling([], ToLower(d)[..0]);
      assert d[0..] == d;
      assert SubdomainAt(s, d, 0);
    }
    if DomainDenotes("*." + s, d) {
      var k :| 0 <= k <= |d| && SubdomainAt(s, d, k);
      LabelsAreARun(s, d, k);
    }
  }

  /** What `*.s` matches, `*s` denotes: the labels are a newline-free run. */
  lemma LabelsAreARun(s: string, d: string, k: nat)
    requires k <= |d| && SubdomainAt(s, d, k)
    ensures GlobDenotes("*" + s, d)
  {
    RunOfLabels(d, k);
    var runs :| IsFilling(s, runs, d[k..]);
    assert ("*" + s)[1..] == s;
    FillingStar("*" + s, d[..k], runs, d[k..]);
    assert d == d[..k] + d[k..];
    assert IsFilling("*" + s, [d[..k]] + runs, d);
  }

  lemma RunOfLabels(d: string, k: nat)
    requires k <= |d| && LabelRun(ToLower(d)[..k])
    ensures NoNewline(d[..k])
  {
    var labels :| IsLabelling(labels, ToLower(d)[..k]);
    DottedNoNewline(labels);
    assert ToLower(d[..k]) == ToLower(d)[..k];
    ToLowerIdempotent(d[..k]);
    NewlineFold(ToLower(d)[..k], d[..k]);
  }

  lemma {:induction false} DottedNoNewline(labels: seq<string>)
    requires forall l :: l in labels ==> IsLabel(l)
    ensures NoNewline(Dotted(labels))
  {
    if labels != [] {
      assert labels[0] in labels;
      DottedNoNewline(labels[1..]);
    }
  }

  /** So an enabled rule for `*.s` or `*s` that covers the tiers of a later one for the same
      `s` higher in the chain shadows it. */
  lemma ChainShadows(s: string, early: Rule, late: Rule)
    requires s != "" && s[0] != '.' && '*' !in s && AllPlain(DomainGlob, s)
    requires early.enabled && CoversTiers(early, late)
    requires || (late.domain == s && early.domain in {s, "*." + s, "*" + s})
             || (late.domain == "*." + s && early.domain in {"*." + s, "*" + s})
             || (late.domain == "*" + s && early.domain == "*" + s)
    ensures Shadows(OfDomain, early, late)
  {
    CoversTiersIsCoverage(early, late);
    forall x: string | Hits(OfDomain, late, x)
      ensures Hits(OfDomain, early, x)
    {
      DomainChain(s, x);
    }
  }
}
