/** Requests interleaved with reconfiguration: each request reads the rules under one lock
    and the mode under another, so rule loads and mode changes can come between. */
module Verdicts {
  import opened Prelude
  import opened Engine
  import opened Modes
  import opened Inspector

  datatype Phase =
    | Begun
    | RulesRead(v: Verdict)
    | ModeRead(v: Verdict, block: bool)
    | Logged(v: Verdict, block: bool, action: string)
    | Responded(v: Verdict, block: bool, action: string, forbidden: bool)

  datatype Active = Active(request: Request, tier: string, phase: Phase)

  datatype State = State(
    rules: seq<Rule>,
    compiled: seq<CompiledRule>,
    defaultAction: string,
    modes: Settings,
    active: map<int, Active>)

  datatype Label =
    | Load(rules: seq<Rule>, compiled: seq<CompiledRule>)
    | SetGlobal(mode: string)
    | SetAgent(agent: string, mode: string)
    | ClearAgent(agent: string)
    | Begin(id: int, request: Request, tier: string)
    | ReadRules(id: int)
    | ReadMode(id: int)
    | Log(id: int)
    | Respond(id: int)

  ghost predicate Enabled(st: State, l: Label) {
    match l
    case Load(rules, compiled) => CompiledFrom(compiled, rules)
    case SetGlobal(_) => true
    case SetAgent(_, _) => true
    case ClearAgent(_) => true
    case Begin(id, _, _) => id !in st.active
    case ReadRules(id) => id in st.active && st.active[id].phase.Begun?
    case ReadMode(id) => id in st.active && st.active[id].phase.RulesRead?
    case Log(id) => id in st.active && st.active[id].phase.ModeRead?
    case Respond(id) => id in st.active && st.active[id].phase.Logged?
  }

  function Moved(st: State, id: int, phase: Phase): State
    requires id in st.active
  {
    st.(active := st.active[id := st.active[id].(phase := phase)])
  }

  /** The verdict of the rule set installed in this state. */
  function VerdictIn(st: State, r: Request, tier: string): Verdict {
    Evaluate(OfDomain, st.compiled, st.defaultAction, tier, HostOf(r.host, r.urlHost))
  }

  ghost function Next(st: State, l: Label): State
    requires Enabled(st, l)
  {
    match l
    case Load(rules, compiled) => st.(rules := rules, compiled := compiled)
    case SetGlobal(mode) => st.(modes := st.modes.(globalMode := mode))
    case SetAgent(agent, mode) => st.(modes := st.modes.(agentModes := st.modes.agentModes[agent := mode]))
    case ClearAgent(agent) => st.(modes := st.modes.(agentModes := st.modes.agentModes - {agent}))
    case Begin(id, request, tier) => st.(active := st.active[id := Active(request, tier, Begun)])
    case ReadRules(id) => Moved(st, id, RulesRead(VerdictIn(st, st.active[id].request, st.active[id].tier)))
    case ReadMode(id) =>
      var a := st.active[id];
      Moved(st, id, ModeRead(a.phase.v, Decide(Effective(st.modes, a.request.token), !a.phase.v.allowed)))
    case Log(id) =>
      var p := st.active[id].phase;
      Moved(st, id, Logged(p.v, p.block, ActionOf(p.block, !p.v.allowed)))
    case Respond(id) =>
      var p := st.active[id].phase;
      Moved(st, id, Responded(p.v, p.block, p.action, p.block))
  }

  function Initial(defaultAction: string): State {
    State([], [], defaultAction, Settings(ENFORCE, map[]), map[])
  }

  ghost predicate IsRun(d: string, ls: seq<Label>)
    decreases |ls|, 0
  {
    ls == [] || (IsRun(d, ls[..|ls| - 1]) && Enabled(After(d, ls[..|ls| - 1]), ls[|ls| - 1]))
  }

  ghost function After(d: string, ls: seq<Label>): State
    requires IsRun(d, ls)
    decreases |ls|, 1
  {
    if ls == [] then Initial(d) else Next(After(d, ls[..|ls| - 1]), ls[|ls| - 1])
  }

  // ---------- What a request has seen ----------

  /** Step `i`, after the request began at step `b`, read its verdict from the whole rule
      set then installed. */
  ghost predicate SawRules(d: string, ls: seq<Label>, b: nat, i: nat, id: int, a: Active, v: Verdict) {
    && b < i < |ls| && ls[b] == Begin(id, a.request, a.tier) && ls[i] == ReadRules(id)
    && IsRun(d, ls[..i]) && v == VerdictIn(After(d, ls[..i]), a.request, a.tier)
  }

  /** Step `j` decided by the mode then in force for the request's token. */
  ghost predicate SawMode(d: string, ls: seq<Label>, i: nat, j: nat, id: int, a: Active, v: Verdict, block: bool) {
    && i < j < |ls| && ls[j] == ReadMode(id)
    && IsRun(d, ls[..j]) && block == Decide(Effective(After(d, ls[..j]).modes, a.request.token), !v.allowed)
  }

  ghost predicate Saw(d: string, ls: seq<Label>, b: nat, i: nat, j: nat, id: int, a: Active, v: Verdict, block: bool) {
    SawRules(d, ls, b, i, id, a, v) && SawMode(d, ls, i, j, id, a, v, block)
  }

  ghost predicate Explained(d: string, ls: seq<Label>, id: int, a: Active) {
    match a.phase
    case Begun => exists b: nat :: b < |ls| && ls[b] == Begin(id, a.request, a.tier)
    case RulesRead(v) => exists b: nat, i: nat :: SawRules(d, ls, b, i, id, a, v)
    case ModeRead(v, block) => exists b: nat, i: nat, j: nat :: Saw(d, ls, b, i, j, id, a, v, block)
    case Logged(v, block, action) =>
      action == ActionOf(block, !v.allowed) && exists b: nat, i: nat, j: nat :: Saw(d, ls, b, i, j, id, a, v, block)
    case Responded(v, block, action, forbidden) =>
      && action == ActionOf(block, !v.allowed) && forbidden == block
      && exists b: nat, i: nat, j: nat :: Saw(d, ls, b, i, j, id, a, v, block)
  }

  lemma SawRulesStays(d: string, ls: seq<Label>, b: nat, i: nat, id: int, a: Active, a': Active, v: Verdict)
    requires ls != [] && SawRules(d, ls[..|ls| - 1], b, i, id, a, v)
    requires a.request == a'.request && a.tier == a'.tier
    ensures SawRules(d, ls, b, i, id, a', v)
  {
    assert ls[..|ls| - 1][..i] == ls[..i];
  }

  lemma SawStays(d: string, ls: seq<Label>, b: nat, i: nat, j: nat, id: int, a: Active, a': Active, v: Verdict, block: bool)
    requires ls != [] && Saw(d, ls[..|ls| - 1], b, i, j, id, a, v, block)
    requires a.request == a'.request && a.tier == a'.tier
    ensures Saw(d, ls, b, i, j, id, a', v, block)
  {
    SawRulesStays(d, ls, b, i, id, a, a', v);
    assert ls[..|ls| - 1][..j] == ls[..j];
  }

  /** A request that the last step did not touch stays explained; so does one whose last
      step kept what it saw. */
  lemma ExplainedStays(d: string, ls: seq<Label>, id: int, a: Active)
    requires ls != [] && Explained(d, ls[..|ls| - 1], id, a)
    ensures Explained(d, ls, id, a)
  {
    var before := ls[..|ls| - 1];
    if a.phase.Begun? {
      var b: nat :| b < |before| && before[b] == Begin(id, a.request, a.tier);
      assert ls[b] == before[b];
    } else if a.phase.RulesRead? {
      var b: nat, i: nat :| SawRules(d, before, b, i, id, a, a.phase.v);
      SawRulesStays(d, ls, b, i, id, a, a, a.phase.v);
    } else {
      var b: nat, i: nat, j: nat :| Saw(d, before, b, i, j, id, a, a.phase.v, a.phase.block);
      SawStays(d, ls, b, i, j, id, a, a, a.phase.v, a.phase.block);
    }
  }

  predicate Advances(l: Label, id: int) {
    l == ReadRules(id) || l == ReadMode(id) || l == Log(id) || l == Respond(id)
  }

  lemma ExplainedStep(d: string, ls: seq<Label>, id: int)
    requires ls != [] && IsRun(d, ls)
    requires Advances(ls[|ls| - 1], id)
    requires Explained(d, ls[..|ls| - 1], id, After(d, ls[..|ls| - 1]).active[id])
    ensures Explained(d, ls, id, After(d, ls).active[id])
  {
    var n := |ls| - 1;
    var before, l := ls[..n], ls[n];
    var a, a' := After(d, before).active[id], After(d, ls).active[id];
    if l.ReadRules? {
      var b: nat :| b < |before| && before[b] == Begin(id, a.request, a.tier);
      assert ls[b] == before[b];
      assert SawRules(d, ls, b, n, id, a', a'.phase.v);
    } else if l.ReadMode? {
      var b: nat, i: nat :| SawRules(d, before, b, i, id, a, a.phase.v);
      SawRulesStays(d, ls, b, i, id, a, a', a.phase.v);
      assert SawMode(d, ls, i, n, id, a', a'.phase.v, a'.phase.block);
      assert Saw(d, ls, b, i, n, id, a', a'.phase.v, a'.phase.block);
    } else {
      var b: nat, i: nat, j: nat :| Saw(d, before, b, i, j, id, a, a.phase.v, a.phase.block);
      SawStays(d, ls, b, i, j, id, a, a', a.phase.v, a.phase.block);
    }
  }

  /** Any other step leaves the request as it is. */
  lemma OthersStay(st: State, l: Label, id: int)
    requires Enabled(st, l) && id in Next(st, l).active
    requires !(l.Begin? && l.id == id) && !Advances(l, id)
    ensures id in st.active && Next(st, l).active[id] == st.active[id]
  {
  }

  lemma {:induction false} ExplainedRun(d: string, ls: seq<Label>, id: int)
    requires IsRun(d, ls) && id in After(d, ls).active
    ensures Explained(d, ls, id, After(d, ls).active[id])
    decreases |ls|
  {
    var n := |ls| - 1;
    var before, l := ls[..n], ls[n];
    if l.Begin? && l.id == id {
      assert ls[n] == Begin(id, l.request, l.tier);
    } else if Advances(l, id) {
      ExplainedRun(d, before, id);
      ExplainedStep(d, ls, id);
    } else {
      OthersStay(After(d, before), l, id);
      ExplainedRun(d, before, id);
      ExplainedStays(d, ls, id, After(d, ls).active[id]);
    }
  }

  /** The step that answered a finished request. Before it the request had what it has now,
      read and logged. */
  lemma {:induction false} AnsweredAt(d: string, ls: seq<Label>, id: int) returns (r: nat)
    requires IsRun(d, ls) && id in After(d, ls).active && After(d, ls).active[id].phase.Responded?
    ensures r < |ls| && ls[r] == Respond(id) && IsRun(d, ls[..r]) && id in After(d, ls[..r]).active
    ensures var a := After(d, ls).active[id];
            After(d, ls[..r]).active[id] == a.(phase := Logged(a.phase.v, a.phase.block, a.phase.action))
            && a.phase.forbidden == a.phase.block
    decreases |ls|
  {
    r := |ls| - 1;
    var before := ls[..r];
    if ls[r] != Respond(id) {
      OthersStay(After(d, before), ls[r], id);
      r := AnsweredAt(d, before, id);
      assert before[..r] == ls[..r];
    }
  }

  /** Verdicts under reconfiguration: in every interleaving a finished request began at step
      `b`, read the rules at `i`, the mode at `j` and was answered at `r`. It combines the
      verdict of the whole rule set current at `i` with the mode current at `j`; it is
      forbidden exactly when the log says `block`; and `audit` is logged exactly when the
      mode read was audit while that rule set blocked. */
  lemma VerdictCombinesOneRuleSetAndOneMode(d: string, ls: seq<Label>, id: int) returns (b: nat, i: nat, j: nat, r: nat)
    requires IsRun(d, ls) && id in After(d, ls).active && After(d, ls).active[id].phase.Responded?
    ensures b < i < j < r < |ls| && IsRun(d, ls[..i]) && IsRun(d, ls[..j])
    ensures ls[i] == ReadRules(id) && ls[j] == ReadMode(id) && ls[r] == Respond(id)
    ensures var a := After(d, ls).active[id];
            var v := VerdictIn(After(d, ls[..i]), a.request, a.tier);
            var mode := Effective(After(d, ls[..j]).modes, a.request.token);
            && ls[b] == Begin(id, a.request, a.tier)
            && (a.phase.forbidden <==> mode == LOCKDOWN || (mode != AUDIT && !v.allowed))
            && (a.phase.action == "block" <==> a.phase.forbidden)
            && (a.phase.action == "audit" <==> mode == AUDIT && !v.allowed)
            && (a.phase.action == "allow" <==> mode != LOCKDOWN && v.allowed)
  {
    r := AnsweredAt(d, ls, id);
    b, i, j := ReadsOfLogged(d, ls[..r], id);
    assert ls[..r][..i] == ls[..i] && ls[..r][..j] == ls[..j];
  }

  lemma ReadsOfLogged(d: string, ls: seq<Label>, id: int) returns (b: nat, i: nat, j: nat)
    requires IsRun(d, ls) && id in After(d, ls).active && After(d, ls).active[id].phase.Logged?
    ensures var a := After(d, ls).active[id];
            Saw(d, ls, b, i, j, id, a, a.phase.v, a.phase.block) && a.phase.action == ActionOf(a.phase.block, !a.phase.v.allowed)
  {
    ExplainedRun(d, ls, id);
    var a := After(d, ls).active[id];
    b, i, j :| Saw(d, ls, b, i, j, id, a, a.phase.v, a.phase.block);
  }

  /** A request whose token is in lockdown from its beginning to its answer is blocked. */
  lemma LockdownAlwaysBlocks(d: string, ls: seq<Label>, id: int) returns (b: nat, r: nat)
    requires IsRun(d, ls) && id in After(d, ls).active && After(d, ls).active[id].phase.Responded?
    ensures b < r < |ls| && ls[b].Begin? && ls[b].id == id && ls[r] == Respond(id)
    ensures (forall j: nat :: b < j <= r && IsRun(d, ls[..j]) ==>
               Effective(After(d, ls[..j]).modes, ls[b].request.token) == LOCKDOWN) ==>
              After(d, ls).active[id].phase.forbidden
  {
    var i, j;
    b, i, j, r := VerdictCombinesOneRuleSetAndOneMode(d, ls, id);
  }

  lemma {:induction false} InstalledIsCompiled(d: string, ls: seq<Label>)
    requires IsRun(d, ls)
    ensures CompiledFrom(After(d, ls).compiled, After(d, ls).rules) && After(d, ls).defaultAction == d
    decreases |ls|
  {
    if ls != [] {
      InstalledIsCompiled(d, ls[..|ls| - 1]);
    }
  }

  /** The rule set read is also what its raw rules say, read directly. */
  lemma VerdictIsDirectReading(d: string, ls: seq<Label>, r: Request, tier: string)
    requires IsRun(d, ls) && ReadablyPlain(OfDomain, After(d, ls).rules, tier)
    ensures VerdictIn(After(d, ls), r, tier)
         == Direct(OfDomain, After(d, ls).rules, d, tier, HostOf(r.host, r.urlHost))
  {
    InstalledIsCompiled(d, ls);
    var st := After(d, ls);
    CompilationPreservesVerdicts(OfDomain, st.rules, st.compiled, d, tier, HostOf(r.host, r.urlHost));
  }

  // ---------- What was current, read off the history ----------

  /** The rules of the last load. */
  function LastLoaded(ls: seq<Label>): seq<Rule> {
    if ls == [] then []
    else if ls[|ls| - 1].Load? then ls[|ls| - 1].rules
    else LastLoaded(ls[..|ls| - 1])
  }

  function LastGlobal(ls: seq<Label>): string {
    if ls == [] then "enforce"
    else if ls[|ls| - 1].SetGlobal? then ls[|ls| - 1].mode
    else LastGlobal(ls[..|ls| - 1])
  }

  /** The agent's own mode, unless it was cleared since. */
  function LastOverride(ls: seq<Label>, agent: string): Option<string> {
    if ls == [] then None
    else
      var l := ls[|ls| - 1];
      if l.SetAgent? && l.agent == agent then Some(l.mode)
      else if l == ClearAgent(agent) then None
      else LastOverride(ls[..|ls| - 1], agent)
  }

  function LastMode(ls: seq<Label>, agent: string): string {
    var own := LastOverride(ls, agent);
    if own.Some? then own.value else LastGlobal(ls)
  }

  lemma {:induction false} GlobalIsLast(d: string, ls: seq<Label>)
    requires IsRun(d, ls)
    ensures After(d, ls).rules == LastLoaded(ls) && After(d, ls).modes.globalMode == LastGlobal(ls)
    decreases |ls|
  {
    if ls != [] {
      var before := ls[..|ls| - 1];
      GlobalIsLast(d, before);
      GlobalStep(After(d, before), ls[|ls| - 1]);
    }
  }

  lemma GlobalStep(st: State, l: Label)
    requires Enabled(st, l)
    ensures Next(st, l).rules == if l.Load? then l.rules else st.rules
    ensures Next(st, l).modes.globalMode == if l.SetGlobal? then l.mode else st.modes.globalMode
  {
  }

  function OverrideIn(st: State, agent: string): Option<string> {
    if agent in st.modes.agentModes then Some(st.modes.agentModes[agent]) else None
  }

  lemma OverrideStep(st: State, l: Label, agent: string)
    requires Enabled(st, l)
    ensures OverrideIn(Next(st, l), agent)
         == (if l.SetAgent? && l.agent == agent then Some(l.mode)
             else if l == ClearAgent(agent) then None
             else OverrideIn(st, agent))
  {
  }

  lemma {:induction false} OverrideIsLast(d: string, ls: seq<Label>, agent: string)
    requires IsRun(d, ls)
    ensures OverrideIn(After(d, ls), agent) == LastOverride(ls, agent)
    decreases |ls|
  {
    if ls != [] {
      var before := ls[..|ls| - 1];
      OverrideIsLast(d, before, agent);
      OverrideStep(After(d, before), ls[|ls| - 1], agent);
    }
  }

  /** In every run the installed rules are those of the last load, and an agent's mode is its
      last override, or the last global mode if it has none. */
  lemma CurrentIsLast(d: string, ls: seq<Label>, agent: string)
    requires IsRun(d, ls)
    ensures After(d, ls).rules == LastLoaded(ls)
    ensures Effective(After(d, ls).modes, agent) == LastMode(ls, agent)
  {
    GlobalIsLast(d, ls);
    OverrideIsLast(d, ls, agent);
  }

  /** From the history to the answer: a finished request was forbidden exactly in lockdown, or
      outside audit if the first rule to speak blocks, or the default does where none speaks;
      the rules being those last loaded before its rule read at `i`, the mode the one last
      set before its mode read at `j`. */
  lemma AnswerFromHistory(d: string, ls: seq<Label>, id: int) returns (b: nat, i: nat, j: nat, r: nat)
    requires IsRun(d, ls) && id in After(d, ls).active && After(d, ls).active[id].phase.Responded?
    ensures b < i < j < r < |ls| && ls[b].Begin? && ls[b].id == id
    ensures ls[i] == ReadRules(id) && ls[j] == ReadMode(id) && ls[r] == Respond(id)
    ensures forall n: nat ::
              (var request, rules := ls[b].request, LastLoaded(ls[..i]);
               var host, mode := HostOf(request.host, request.urlHost), LastMode(ls[..j], request.token);
               ReadablyPlain(OfDomain, rules, ls[b].tier) && FirstToSpeak(OfDomain, rules, ls[b].tier, host, n) ==>
                 (After(d, ls).active[id].phase.forbidden
                  <==> mode == "lockdown"
                       || (mode != "audit" && (if n < |rules| then rules[n].action else d) == "block")))
  {
    b, i, j, r := VerdictCombinesOneRuleSetAndOneMode(d, ls, id);
    var request := ls[b].request;
    CurrentIsLast(d, ls[..i], request.token);
    CurrentIsLast(d, ls[..j], request.token);
    InstalledIsCompiled(d, ls[..i]);
    var st, host := After(d, ls[..i]), HostOf(request.host, request.urlHost);
    forall n: nat | ReadablyPlain(OfDomain, st.rules, ls[b].tier) && FirstToSpeak(OfDomain, st.rules, ls[b].tier, host, n)
      ensures DecidedBy(VerdictIn(st, request, ls[b].tier), st.rules, n, d)
    {
      EngineDecidedBy(OfDomain, st.rules, st.compiled, d, ls[b].tier, host, n);
    }
  }
}
