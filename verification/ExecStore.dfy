/** The management store of internal/api/handlers.go: agent status, the exec check over an
    unordered rule map, its counters, and its bounded log. */
module ExecStore {
  import opened Prelude
  import opened BoundedLog

  const ACTIVE := "active"
  const PAUSED := "paused"
  const KILLED := "killed"

  const LOG_LIMIT: nat := 10000

  datatype Agent = Agent(id: string, name: string, ip: string, status: string, lastSeen: int, createdAt: int)

  datatype Rule = Rule(
    id: string, pattern: string, domain: string, action: string, description: string, enabled: bool, createdAt: int)

  datatype LogEntry = LogEntry(
    id: string, timestamp: int, agentId: string, kind: string, request: string, action: string, ruleId: string)

  /** The replies that matter here. */
  datatype Reply =
    | BadRequest
    | NotFound
    | Conflict
    | StatusSet(status: string)
    | Allowed
    | AgentBarred(reason: string)
    | RuleBlocked(reason: string, ruleId: string)
    | Stored

  datatype State = State(
    agents: map<string, Agent>,
    rules: map<string, Rule>,
    logs: seq<LogEntry>,
    requestsTotal: int,
    blockedTotal: int)

  /** The two ways to answer `allowed: false`. */
  predicate IsBlocked(r: Reply) {
    r.AgentBarred? || r.RuleBlocked?
  }

  const INITIAL := State(map[], map[], [], 0, 0)

  /** An identifier is the clock reading alone. */
  function GenerateID(now: int): string {
    FormatInt(now, 36)
  }

  // ---------- Decisions ----------

  predicate Barred(s: State, agentId: string) {
    agentId in s.agents && (s.agents[agentId].status == PAUSED || s.agents[agentId].status == KILLED)
  }

  predicate Blocks(r: Rule, command: string) {
    r.enabled && r.pattern != "" && Contains(command, r.pattern) && r.action == "block"
  }

  /** The rules that may be the one a check stops at: the map has no order. */
  function BlockingRules(s: State, command: string): set<string> {
    set k | k in s.rules && Blocks(s.rules[k], command)
  }

  /** A command is refused exactly when its agent is barred or some rule blocks it. */
  predicate Refused(s: State, agentId: string, command: string) {
    Barred(s, agentId) || BlockingRules(s, command) != {}
  }

  // ---------- Requests ----------

  datatype Request =
    | Register(id: string, name: string, ip: string)
    | Pause(id: string)
    | Kill(id: string)
    | Resume(id: string)
    | CreateRule(rule: Rule)
    | DeleteRule(ruleId: string)
    | ExecCheck(agentId: string, command: string)

  function WithStatus(s: State, id: string, status: string): State
    requires id in s.agents
  {
    s.(agents := s.agents[id := s.agents[id].(status := status)])
  }

  function Counted(s: State, blocked: bool, entry: LogEntry): State {
    s.(requestsTotal := s.requestsTotal + 1,
       blockedTotal := s.blockedTotal + if blocked then 1 else 0,
       logs := Appended(s.logs, entry, LOG_LIMIT))
  }

  function Seen(s: State, agentId: string, now: int): State {
    if agentId in s.agents then s.(agents := s.agents[agentId := s.agents[agentId].(lastSeen := now)]) else s
  }

  function Entry(entryId: string, now: int, agentId: string, command: string, action: string, ruleId: string): LogEntry {
    LogEntry(entryId, now, agentId, "command", command, action, ruleId)
  }

  /** Every outcome that the handlers allow; only the blocking rule of a check is a choice. */
  predicate Handles(s: State, r: Request, now: int, entryId: string, reply: Reply, s': State) {
    match r
    case Register(id, name, ip) =>
      reply == Stored && s' == s.(agents := s.agents[id := Agent(id, name, ip, ACTIVE, now, now)])
    case Pause(id) => StatusChange(s, id, PAUSED, reply, s')
    case Kill(id) => StatusChange(s, id, KILLED, reply, s')
    case Resume(id) =>
      if id != "" && id in s.agents && s.agents[id].status == KILLED then reply == Conflict && s' == s
      else StatusChange(s, id, ACTIVE, reply, s')
    case CreateRule(rule) =>
      if (rule.action != "block" && rule.action != "allow") || (rule.pattern == "" && rule.domain == "")
      then reply == BadRequest && s' == s
      else reply == Stored && s' == s.(rules := s.rules[entryId := rule.(id := entryId, createdAt := now)])
    case DeleteRule(id) =>
      if id == "" then reply == BadRequest && s' == s
      else if id !in s.rules then reply == NotFound && s' == s
      else reply == Stored && s' == s.(rules := s.rules - {id})
    case ExecCheck(agentId, command) =>
      if command == "" then reply == BadRequest && s' == s
      else if Barred(s, agentId) then
        && reply == AgentBarred("agent is " + s.agents[agentId].status)
        && s' == Counted(s, true, Entry(entryId, now, agentId, command, "blocked", "agent-status"))
      else if BlockingRules(s, command) == {} then
        && reply == Allowed
        && s' == Counted(Seen(s, agentId, now), false, Entry(entryId, now, agentId, command, "allowed", ""))
      else
        exists k | k in BlockingRules(s, command) ::
          && reply == RuleBlocked(s.rules[k].description, s.rules[k].id)
          && s' == Counted(Seen(s, agentId, now), true, Entry(entryId, now, agentId, command, "blocked", s.rules[k].id))
  }

  predicate StatusChange(s: State, id: string, status: string, reply: Reply, s': State) {
    if id == "" then reply == BadRequest && s' == s
    else if id !in s.agents then reply == NotFound && s' == s
    else reply == StatusSet(status) && s' == WithStatus(s, id, status)
  }

  class Store {
    var agents: map<string, Agent>
    var rules: map<string, Rule>
    var logs: seq<LogEntry>
    var requestsTotal: int
    var blockedTotal: int

    function Now(): State
      reads this
    {
      State(agents, rules, logs, requestsTotal, blockedTotal)
    }

    constructor ()
      ensures Now() == INITIAL
    {
      agents, rules, logs, requestsTotal, blockedTotal := map[], map[], [], 0, 0;
    }

    method RegisterAgent(id: string, name: string, ip: string, now: int) returns (reply: Reply)
      modifies this
      ensures Handles(old(Now()), Register(id, name, ip), now, "", reply, Now())
    {
      agents := agents[id := Agent(id, name, ip, ACTIVE, now, now)];
      reply := Stored;
    }

    method PauseAgent(id: string, now: int) returns (reply: Reply)
      modifies this
      ensures Handles(old(Now()), Pause(id), now, "", reply, Now())
    {
      if id == "" {
        return BadRequest;
      }
      if id !in agents {
        return NotFound;
      }
      agents := agents[id := agents[id].(status := PAUSED)];
      reply := StatusSet(PAUSED);
    }

    method KillAgent(id: string, now: int) returns (reply: Reply)
      modifies this
      ensures Handles(old(Now()), Kill(id), now, "", reply, Now())
    {
      if id == "" {
        return BadRequest;
      }
      if id !in agents {
        return NotFound;
      }
      agents := agents[id := agents[id].(status := KILLED)];
      reply := StatusSet(KILLED);
    }

    method ResumeAgent(id: string, now: int) returns (reply: Reply)
      modifies this
      ensures Handles(old(Now()), Resume(id), now, "", reply, Now())
    {
      if id == "" {
        return BadRequest;
      }
      if id !in agents {
        return NotFound;
      }
      if agents[id].status == KILLED {
        return Conflict;
      }
      agents := agents[id := agents[id].(status := ACTIVE)];
      reply := StatusSet(ACTIVE);
    }

    /** A body is given by what it decodes to. */
    method CreateRuleHandler(body: Option<Rule>, idAt: int, now: int) returns (reply: Reply)
      modifies this
      ensures body.Some? ==> Handles(old(Now()), CreateRule(body.value), now, GenerateID(idAt), reply, Now())
      ensures body.None? ==> reply == BadRequest && Now() == old(Now())
    {
      if body.None? {
        return BadRequest;
      }
      var rule := body.value;
      if rule.action != "block" && rule.action != "allow" {
        return BadRequest;
      }
      if rule.pattern == "" && rule.domain == "" {
        return BadRequest;
      }
      var ruleId := GenerateID(idAt);
      rules := rules[ruleId := rule.(id := ruleId, createdAt := now)];
      reply := Stored;
    }

    method DeleteRuleHandler(ruleId: string, now: int) returns (reply: Reply)
      modifies this
      ensures Handles(old(Now()), DeleteRule(ruleId), now, "", reply, Now())
    {
      if ruleId == "" {
        return BadRequest;
      }
      if ruleId !in rules {
        return NotFound;
      }
      rules := rules - {ruleId};
      reply := Stored;
    }

    method AddLog(entry: LogEntry)
      modifies this`logs
      ensures logs == Appended(old(logs), entry, LOG_LIMIT)
    {
      logs := logs + [entry];
      if |logs| > 10000 {
        logs := logs[|logs| - 10000..];
      }
    }

    /** The rule map is visited in no particular order. */
    method FindBlockingRule(command: string) returns (found: Option<string>)
      ensures found.Some? ==> found.value in BlockingRules(Now(), command)
      ensures found.None? ==> BlockingRules(Now(), command) == {}
    {
      var rest := rules.Keys;
      while rest != {}
        invariant rest <= rules.Keys
        invariant forall k :: k in rules && k !in rest ==> !Blocks(rules[k], command)
      {
        var k :| k in rest;
        rest := rest - {k};
        if !rules[k].enabled {
          continue;
        }
        if rules[k].pattern != "" && Contains(command, rules[k].pattern) {
          if rules[k].action == "block" {
            return Some(k);
          }
        }
      }
      found := None;
    }

    method ExecCheckHandler(agentId: string, command: string, now: int, entryId: string) returns (reply: Reply)
      modifies this
      ensures Handles(old(Now()), ExecCheck(agentId, command), now, entryId, reply, Now())
    {
      if command == "" {
        return BadRequest;
      }
      requestsTotal := requestsTotal + 1;
      if agentId in agents {
        if agents[agentId].status == PAUSED || agents[agentId].status == KILLED {
          blockedTotal := blockedTotal + 1;
          AddLog(Entry(entryId, now, agentId, command, "blocked", "agent-status"));
          return AgentBarred("agent is " + agents[agentId].status);
        }
        agents := agents[agentId := agents[agentId].(lastSeen := now)];
      }
      var found := FindBlockingRule(command);
      assert BlockingRules(Now(), command) == BlockingRules(old(Now()), command);
      if found.Some? {
        var rule := rules[found.value];
        blockedTotal := blockedTotal + 1;
        AddLog(Entry(entryId, now, agentId, command, "blocked", rule.id));
        return RuleBlocked(rule.description, rule.id);
      }
      AddLog(Entry(entryId, now, agentId, command, "allowed", ""));
      reply := Allowed;
    }

    method FilterLogs(agentId: string, action: string, kind: string) returns (filtered: seq<LogEntry>)
      ensures filtered == Filtered(logs, agentId, action, kind)
    {
      filtered := [];
      for i := 0 to |logs|
        invariant filtered == Filtered(logs[..i], agentId, action, kind)
      {
        assert logs[..i + 1][..|logs[..i + 1]| - 1] == logs[..i];
        if agentId != "" && logs[i].agentId != agentId {
          continue;
        }
        if action != "" && logs[i].action != action {
          continue;
        }
        if kind != "" && logs[i].kind != kind {
          continue;
        }
        filtered := filtered + [logs[i]];
      }
      assert logs[..|logs|] == logs;
    }

    /** The query parameters are given by what they parse to, if anything. */
    method ListLogs(agentId: string, action: string, kind: string, offsetParam: Option<int>, limitParam: Option<int>)
      returns (page: seq<LogEntry>, total: nat)
      ensures total == |Filtered(logs, agentId, action, kind)|
      ensures var offset := if offsetParam.Some? && offsetParam.value >= 0 then offsetParam.value else 0;
              var limit := if limitParam.Some? && 0 < limitParam.value <= 1000 then limitParam.value else 100;
              && |page| == (if offset >= total then 0 else if offset + limit > total then total - offset else limit)
              && forall i :: 0 <= i < |page| ==> page[i] == Filtered(logs, agentId, action, kind)[offset + i]
    {
      var limit, offset := 100, 0;
      if limitParam.Some? && limitParam.value > 0 && limitParam.value <= 1000 {
        limit := limitParam.value;
      }
      if offsetParam.Some? && offsetParam.value >= 0 {
        offset := offsetParam.value;
      }
      var filtered := FilterLogs(agentId, action, kind);
      total := |filtered|;
      page := Paginate(filtered, offset, limit);
    }
  }

  method Paginate(filtered: seq<LogEntry>, offset: nat, limit: nat) returns (page: seq<LogEntry>)
    requires limit > 0
    ensures |page| == (if offset >= |filtered| then 0 else if offset + limit > |filtered| then |filtered| - offset else limit)
    ensures forall i :: 0 <= i < |page| ==> page[i] == filtered[offset + i]
    ensures page == Page(filtered, offset, limit)
  {
    var total := |filtered|;
    var start := offset;
    if start > total {
      start := total;
    }
    var end := start + limit;
    if end > total {
      end := total;
    }
    page := filtered[start..end];
  }

  predicate Selected(e: LogEntry, agentId: string, action: string, kind: string) {
    && (agentId == "" || e.agentId == agentId)
    && (action == "" || e.action == action)
    && (kind == "" || e.kind == kind)
  }

  /** The selected entries, in order. */
  function Filtered(logs: seq<LogEntry>, agentId: string, action: string, kind: string): seq<LogEntry> {
    if logs == [] then []
    else
      Filtered(logs[..|logs| - 1], agentId, action, kind)
      + if Selected(logs[|logs| - 1], agentId, action, kind) then [logs[|logs| - 1]] else []
  }

  // ---------- Runs ----------

  /** One handled request with its outcome. */
  datatype Step = Step(request: Request, now: int, entryId: string, reply: Reply, after: State)

  ghost predicate IsRun(s: State, steps: seq<Step>)
    decreases |steps|
  {
    steps == [] ||
    (Handles(s, steps[0].request, steps[0].now, steps[0].entryId, steps[0].reply, steps[0].after)
     && IsRun(steps[0].after, steps[1..]))
  }

  function Final(s: State, steps: seq<Step>): State {
    if steps == [] then s else steps[|steps| - 1].after
  }

  /** The verdict of a check is determined by the state alone: whatever order the rule map
      is visited in, the answer is `Allowed` exactly when the command is not refused. */
  lemma CheckIndependentOfOrder(s: State, agentId: string, command: string, now: int, entryId: string,
                                reply: Reply, s': State)
    requires command != "" && Handles(s, ExecCheck(agentId, command), now, entryId, reply, s')
    ensures reply.Allowed? <==> !Refused(s, agentId, command)
    ensures IsBlocked(reply) <==> Refused(s, agentId, command)
    ensures forall reply2, s2 :: Handles(s, ExecCheck(agentId, command), now, entryId, reply2, s2) ==>
              && reply2.Allowed? == reply.Allowed?
              && s2.requestsTotal == s'.requestsTotal && s2.blockedTotal == s'.blockedTotal
              && s2.agents == s'.agents && |s2.logs| == |s'.logs|
  {
  }

  predicate IsCheck(r: Request) {
    r.ExecCheck? && r.command != ""
  }

  /** Checks answered so far with the given kind of answer. */
  function Answers(steps: seq<Step>, blocked: bool): nat {
    if steps == [] then 0
    else
      (if IsCheck(steps[0].request) && IsBlocked(steps[0].reply) == blocked then 1 else 0) + Answers(steps[1..], blocked)
  }

  /** The log entries that a run writes, one for each check. */
  function Written(steps: seq<Step>): seq<LogEntry> {
    if steps == [] then []
    else (if IsCheck(steps[0].request) then [EntryOf(steps[0])] else []) + Written(steps[1..])
  }

  function EntryOf(st: Step): LogEntry
    requires IsCheck(st.request)
  {
    Entry(st.entryId, st.now, st.request.agentId, st.request.command,
          if IsBlocked(st.reply) then "blocked" else "allowed",
          if st.reply.AgentBarred? then "agent-status" else if st.reply.RuleBlocked? then st.reply.ruleId else "")
  }

  lemma AccountingStep(s: State, st: Step)
    requires Handles(s, st.request, st.now, st.entryId, st.reply, st.after)
    ensures !IsCheck(st.request) ==>
              st.after.requestsTotal == s.requestsTotal && st.after.blockedTotal == s.blockedTotal && st.after.logs == s.logs
    ensures IsCheck(st.request) ==>
              && st.after.requestsTotal == s.requestsTotal + 1
              && st.after.blockedTotal == s.blockedTotal + (if IsBlocked(st.reply) then 1 else 0)
              && st.after.logs == Appended(s.logs, EntryOf(st), LOG_LIMIT)
  {
  }

  /** Accounting: over every run, requests counted are the blocked and the allowed answers
      together and the log entries ever written, and blocked ones are the blocked answers. */
  lemma {:induction false} Accounting(s: State, steps: seq<Step>)
    requires IsRun(s, steps)
    ensures Final(s, steps).requestsTotal == s.requestsTotal + Answers(steps, true) + Answers(steps, false)
    ensures |Written(steps)| == Answers(steps, true) + Answers(steps, false)
    ensures Final(s, steps).blockedTotal == s.blockedTotal + Answers(steps, true)
    decreases |steps|
  {
    if steps != [] {
      AccountingStep(s, steps[0]);
      FinalTail(s, steps);
      Accounting(steps[0].after, steps[1..]);
    }
  }

  /** Over every run the log is what adding the written entries one by one leaves. */
  lemma {:induction false} LogFollowsWritten(s: State, steps: seq<Step>)
    requires IsRun(s, steps)
    ensures Final(s, steps).logs == AppendedAll(s.logs, Written(steps), LOG_LIMIT)
    decreases |steps|
  {
    if steps != [] {
      var st, rest := steps[0], Written(steps[1..]);
      AccountingStep(s, st);
      FinalTail(s, steps);
      LogFollowsWritten(st.after, steps[1..]);
      if IsCheck(st.request) {
        assert ([EntryOf(st)] + rest)[1..] == rest;
      } else {
        assert [] + rest == rest;
      }
    }
  }

  /** From an empty store the counters are those totals, and the log is the last 10000
      entries ever written, in order. */
  lemma AccountingFromStart(steps: seq<Step>)
    requires IsRun(INITIAL, steps)
    ensures Final(INITIAL, steps).requestsTotal == |Written(steps)| == Answers(steps, true) + Answers(steps, false)
    ensures Final(INITIAL, steps).blockedTotal == Answers(steps, true)
    ensures Final(INITIAL, steps).logs == LastOf(Written(steps), LOG_LIMIT)
  {
    Accounting(INITIAL, steps);
    LogFollowsWritten(INITIAL, steps);
    WindowIsLast(Written(steps), LOG_LIMIT);
  }

  lemma FinalTail(s: State, steps: seq<Step>)
    requires steps != []
    ensures Final(s, steps) == Final(steps[0].after, steps[1..])
  {
  }

  /** What a log entry of a check says. */
  lemma EntryOfExactly(st: Step)
    requires IsCheck(st.request)
    ensures var e := EntryOf(st);
            && e.id == st.entryId && e.timestamp == st.now && e.kind == "command"
            && e.agentId == st.request.agentId && e.request == st.request.command
            && e.action in {"blocked", "allowed"} && (e.action == "blocked" <==> IsBlocked(st.reply))
  {
  }

  // ---------- Status over runs ----------

  function StatusIn(s: State, id: string): Option<string> {
    if id in s.agents then Some(s.agents[id].status) else None
  }

  /** The status that a sequence of requests leaves an agent in: registered as active; paused
      and killed by request, if known; resumed unless killed. Nothing else touches it. */
  function Standing(was: Option<string>, rs: seq<Request>, id: string): Option<string>
    decreases |rs|
  {
    if rs == [] then was
    else
      var r := rs[0];
      var next :=
        if r.Register? && r.id == id then Some("active")
        else if was.None? then None
        else if r == Pause(id) then Some("paused")
        else if r == Kill(id) then Some("killed")
        else if r == Resume(id) && was != Some("killed") then Some("active")
        else was;
      Standing(next, rs[1..], id)
  }

  function Requests(steps: seq<Step>): seq<Request> {
    seq(|steps|, i requires 0 <= i < |steps| => steps[i].request)
  }

  lemma StandingStep(s: State, id: string, st: Step)
    requires id != "" && Handles(s, st.request, st.now, st.entryId, st.reply, st.after)
    ensures StatusIn(st.after, id) == Standing(StatusIn(s, id), [st.request], id)
  {
    assert [st.request][1..] == [];
  }

  lemma StandingTail(was: Option<string>, rs: seq<Request>, id: string)
    requires rs != []
    ensures Standing(was, rs, id) == Standing(Standing(was, [rs[0]], id), rs[1..], id)
  {
    assert [rs[0]][1..] == [];
  }

  /** Over every run an agent's status is what its requests make of it, however requests on
      other agents, rules and checks interleave. */
  lemma {:induction false} StatusFollowsRequests(s: State, id: string, steps: seq<Step>)
    requires id != "" && IsRun(s, steps)
    ensures StatusIn(Final(s, steps), id) == Standing(StatusIn(s, id), Requests(steps), id)
    decreases |steps|
  {
    if steps != [] {
      StandingStep(s, id, steps[0]);
      FinalTail(s, steps);
      StatusFollowsRequests(steps[0].after, id, steps[1..]);
      assert Requests(steps)[1..] == Requests(steps[1..]);
      StandingTail(StatusIn(s, id), Requests(steps), id);
    }
  }

  lemma {:induction false} RunSplit(s: State, steps: seq<Step>, i: nat)
    requires IsRun(s, steps) && i < |steps|
    ensures IsRun(s, steps[..i])
    ensures var st := steps[i]; Handles(Final(s, steps[..i]), st.request, st.now, st.entryId, st.reply, st.after)
    decreases |steps|
  {
    if i > 0 {
      RunSplit(steps[0].after, steps[1..], i - 1);
      assert steps[..i][1..] == steps[1..][..i - 1] && steps[..i][0] == steps[0];
      FinalTail(s, steps[..i]);
    }
  }

  /** From an empty store, a check is answered from the agent's status exactly when the
      requests before it left the agent paused or killed; and the answer says which. */
  lemma CheckFollowsStanding(steps: seq<Step>, i: nat)
    requires IsRun(INITIAL, steps) && i < |steps| && IsCheck(steps[i].request) && steps[i].request.agentId != ""
    ensures var standing := Standing(None, Requests(steps[..i]), steps[i].request.agentId);
            && (steps[i].reply.AgentBarred? <==> standing in {Some("paused"), Some("killed")})
            && (steps[i].reply.AgentBarred? ==> steps[i].reply.reason == "agent is " + standing.value)
  {
    RunSplit(INITIAL, steps, i);
    StatusFollowsRequests(INITIAL, steps[i].request.agentId, steps[..i]);
  }

  predicate StandsAt(command: string, pattern: string, i: nat) {
    i + |pattern| <= |command| && command[i..i + |pattern|] == pattern
  }

  /** A rule that refuses a command, in its own fields: enabled, blocking, with a nonempty
      pattern that stands in the command somewhere. */
  predicate RefusesText(r: Rule, command: string) {
    && r.enabled && r.action == "block" && r.pattern != ""
    && exists i | 0 <= i <= |command| :: StandsAt(command, r.pattern, i)
  }

  lemma BlocksExactly(r: Rule, command: string)
    ensures Blocks(r, command) <==> RefusesText(r, command)
  {
    forall i: nat | i <= |command|
      ensures r.pattern <= command[i..] <==> StandsAt(command, r.pattern, i)
    {
      if i + |r.pattern| <= |command| {
        assert command[i..][..|r.pattern|] == command[i..i + |r.pattern|];
      }
    }
  }

  /** What decides a check: the agent's status first, then some rule that refuses the text. */
  lemma CheckDecidedExactly(s: State, agentId: string, command: string, now: int, entryId: string, reply: Reply, s': State)
    requires command != "" && Handles(s, ExecCheck(agentId, command), now, entryId, reply, s')
    ensures reply.AgentBarred? <==> agentId in s.agents && s.agents[agentId].status in {"paused", "killed"}
    ensures reply.RuleBlocked? <==> !reply.AgentBarred? && exists k :: k in s.rules && RefusesText(s.rules[k], command)
    ensures reply.RuleBlocked? ==>
              exists k :: k in s.rules && RefusesText(s.rules[k], command)
                && reply.reason == s.rules[k].description && reply.ruleId == s.rules[k].id
    ensures reply.Allowed? <==> !reply.AgentBarred? && !reply.RuleBlocked?
    ensures s'.rules == s.rules && s'.agents.Keys == s.agents.Keys
    ensures forall a :: a in s.agents ==>
              s'.agents[a] == if a == agentId && !reply.AgentBarred? then s.agents[a].(lastSeen := now) else s.agents[a]
  {
    forall k | k in s.rules
      ensures k in BlockingRules(s, command) <==> RefusesText(s.rules[k], command)
    {
      BlocksExactly(s.rules[k], command);
    }
    if BlockingRules(s, command) != {} {
      var k :| k in BlockingRules(s, command);
      assert RefusesText(s.rules[k], command);
    }
  }

  /** Leaves the rule under this identifier alone. */
  predicate LeavesRule(st: Step, ruleId: string) {
    st.request != DeleteRule(ruleId) && !(st.request.CreateRule? && st.entryId == ruleId)
  }

  lemma RuleStep(s: State, ruleId: string, st: Step)
    requires Handles(s, st.request, st.now, st.entryId, st.reply, st.after) && ruleId != ""
    ensures LeavesRule(st, ruleId) ==>
              && (ruleId in st.after.rules <==> ruleId in s.rules)
              && (ruleId in s.rules ==> st.after.rules[ruleId] == s.rules[ruleId])
    ensures st.request == DeleteRule(ruleId) ==>
              ruleId !in st.after.rules && (st.reply == Stored <==> ruleId in s.rules)
    ensures st.request.CreateRule? ==>
              var r := st.request.rule;
              && (st.reply == Stored <==> r.action in {"block", "allow"} && (r.pattern != "" || r.domain != ""))
              && (st.reply == Stored && st.entryId == ruleId ==>
                    && ruleId in st.after.rules
                    && st.after.rules[ruleId] == r.(id := ruleId, createdAt := st.now))
  {
  }

  lemma {:induction false} RuleKept(s: State, ruleId: string, steps: seq<Step>)
    requires IsRun(s, steps) && ruleId != "" && forall j :: 0 <= j < |steps| ==> LeavesRule(steps[j], ruleId)
    ensures ruleId in Final(s, steps).rules <==> ruleId in s.rules
    ensures ruleId in s.rules ==> Final(s, steps).rules[ruleId] == s.rules[ruleId]
    decreases |steps|
  {
    if steps != [] {
      RuleStep(s, ruleId, steps[0]);
      FinalTail(s, steps);
      assert forall j :: 0 <= j < |steps[1..]| ==> steps[1..][j] == steps[j + 1];
      RuleKept(steps[0].after, ruleId, steps[1..]);
    }
  }

  /** From the creation of an enabled blocking rule until the deletion of that rule, or the
      creation of another under the same identifier, every check of a command that holds its
      pattern is blocked, for any agent. */
  lemma CreatedRuleBlocks(s: State, steps: seq<Step>, i: nat)
    requires IsRun(s, steps) && 0 < i < |steps| && IsCheck(steps[i].request)
    requires steps[0].request.CreateRule? && steps[0].reply == Stored && steps[0].entryId != ""
    requires forall j :: 0 < j < i ==> LeavesRule(steps[j], steps[0].entryId)
    requires RefusesText(steps[0].request.rule, steps[i].request.command)
    ensures IsBlocked(steps[i].reply)
  {
    var ruleId, rest := steps[0].entryId, steps[1..];
    RuleStep(s, ruleId, steps[0]);
    assert forall j :: 0 <= j < |rest| ==> rest[j] == steps[j + 1];
    RunSplit(steps[0].after, rest, i - 1);
    RuleKept(steps[0].after, ruleId, rest[..i - 1]);
    var before, st := Final(steps[0].after, rest[..i - 1]), steps[i];
    assert ruleId in before.rules && RefusesText(before.rules[ruleId], st.request.command);
    CheckDecidedExactly(before, st.request.agentId, st.request.command, st.now, st.entryId, st.reply, st.after);
  }

  /** From the deletion of a rule until something is created under its identifier, no answer
      comes from it: the rule is not in the store at any check. */
  lemma DeletedRuleIsGone(s: State, steps: seq<Step>, i: nat)
    requires IsRun(s, steps) && 0 < i < |steps| && steps[0].request.DeleteRule? && steps[0].request.ruleId != ""
    requires forall j :: 0 < j < i ==> LeavesRule(steps[j], steps[0].request.ruleId)
    ensures steps[0].request.ruleId !in Final(steps[0].after, steps[1..i]).rules
  {
    var ruleId, rest := steps[0].request.ruleId, steps[1..];
    RuleStep(s, ruleId, steps[0]);
    RunSplit(steps[0].after, rest, i - 1);
    assert rest[..i - 1] == steps[1..i];
    RuleKept(steps[0].after, ruleId, steps[1..i]);
  }

  /** From a handled pause until the next resume or re-registration of that agent, every
      check on it is blocked, however other requests interleave. */
  lemma PauseSticks(s: State, id: string, steps: seq<Step>, i: nat)
    requires IsRun(s, steps) && 0 < i < |steps|
    requires steps[0].request == Pause(id) && steps[0].reply == StatusSet("paused")
    requires forall j :: 0 < j < i ==> steps[j].request != Resume(id) && !(steps[j].request.Register? && steps[j].request.id == id)
    ensures steps[i].request.ExecCheck? && steps[i].request.agentId == id && steps[i].request.command != "" ==>
              IsBlocked(steps[i].reply)
  {
    assert id != "" && StatusIn(steps[0].after, id) == Some("paused");
    var rest := steps[1..];
    assert forall j :: 0 <= j < |rest| ==> rest[j] == steps[j + 1];
    HeldBack(steps[0].after, id, rest, i - 1);
  }

  lemma {:induction false} HeldBack(s: State, id: string, steps: seq<Step>, i: nat)
    requires id != "" && IsRun(s, steps) && i < |steps| && StatusIn(s, id) in {Some("paused"), Some("killed")}
    requires forall j :: 0 <= j < i ==> steps[j].request != Resume(id) && !(steps[j].request.Register? && steps[j].request.id == id)
    ensures steps[i].request.ExecCheck? && steps[i].request.agentId == id && steps[i].request.command != "" ==>
              IsBlocked(steps[i].reply)
    decreases |steps|
  {
    if i > 0 {
      StandingStep(s, id, steps[0]);
      assert [steps[0].request][1..] == [];
      assert forall j :: 0 <= j < i - 1 ==> steps[1..][j] == steps[j + 1];
      HeldBack(steps[0].after, id, steps[1..], i - 1);
    } else if IsCheck(steps[0].request) && steps[0].request.agentId == id {
      var st := steps[0];
      CheckDecidedExactly(s, id, st.request.command, st.now, st.entryId, st.reply, st.after);
    }
  }

  /** Neither pauses the agent nor registers it anew. */
  predicate LeavesKilled(r: Request, id: string) {
    r != Pause(id) && !(r.Register? && r.id == id)
  }

  predicate IsKilled(s: State, id: string) {
    id in s.agents && s.agents[id].status == KILLED
  }

  /** A handled request ends a kill exactly when it pauses the agent or registers it anew. */
  lemma KilledStep(s: State, id: string, st: Step)
    requires id != "" && IsKilled(s, id)
    requires Handles(s, st.request, st.now, st.entryId, st.reply, st.after)
    ensures IsKilled(st.after, id) <==> LeavesKilled(st.request, id)
  {
  }

  /** So an agent is killed throughout a run exactly when no request of the run does. */
  lemma {:induction false} KilledThroughoutExactly(s: State, id: string, steps: seq<Step>)
    requires id != "" && IsKilled(s, id) && IsRun(s, steps)
    ensures (forall i :: 0 <= i < |steps| ==> IsKilled(steps[i].after, id))
       <==> (forall i :: 0 <= i < |steps| ==> LeavesKilled(steps[i].request, id))
    decreases |steps|
  {
    if steps != [] {
      KilledStep(s, id, steps[0]);
      assert forall i :: 0 < i < |steps| ==> steps[i] == steps[1..][i - 1];
      if LeavesKilled(steps[0].request, id) {
        KilledThroughoutExactly(steps[0].after, id, steps[1..]);
        assert forall i :: 0 <= i < |steps[1..]| ==> steps[1..][i] == steps[i + 1];
      }
    }
  }

  /** From a kill until the next pause or re-registration of that agent, every check on it
      is blocked and every resume refused, however requests on other agents interleave. */
  lemma {:induction false} KillSticks(s: State, id: string, steps: seq<Step>, i: nat)
    requires id != "" && IsKilled(s, id) && IsRun(s, steps) && i < |steps|
    requires forall j :: 0 <= j < i ==> LeavesKilled(steps[j].request, id)
    ensures steps[i].request.ExecCheck? && steps[i].request.agentId == id && steps[i].request.command != "" ==>
              IsBlocked(steps[i].reply)
    ensures steps[i].request == Resume(id) ==> steps[i].reply == Conflict
    decreases |steps|
  {
    if i > 0 {
      KilledStep(s, id, steps[0]);
      assert forall j :: 0 <= j < i - 1 ==> steps[1..][j] == steps[j + 1];
      KillSticks(steps[0].after, id, steps[1..], i - 1);
    }
  }

  /** A pause undoes a kill: after it the agent can be resumed and its checks pass. */
  lemma PauseUndoesKill(s: State, id: string, paused: State, resumed: State, reply: Reply)
    requires id != "" && IsKilled(s, id)
    requires Handles(s, Pause(id), 0, "", StatusSet(PAUSED), paused)
    requires Handles(paused, Resume(id), 0, "", reply, resumed)
    ensures reply == StatusSet(ACTIVE) && !Barred(resumed, id)
  {
  }

  /** A rule is gone once another is created, exactly when both identifiers were taken in the
      same nanosecond; the new one then stands in its place. */
  lemma SameInstantReplacesRule(s: State, t: int, t': int, first: Rule, second: Rule, now: int, now': int,
                                s1: State, s2: State)
    requires Handles(s, CreateRule(first), now, GenerateID(t), Stored, s1)
    requires Handles(s1, CreateRule(second), now', GenerateID(t'), Stored, s2)
    ensures GenerateID(t) in s2.rules
    ensures s2.rules[GenerateID(t)] == (if t == t' then second.(id := GenerateID(t), createdAt := now')
                                        else s1.rules[GenerateID(t)])
  {
    if GenerateID(t) == GenerateID(t') {
      FormatIntInjective(t, t');
    }
  }

  /** Pages of any positive size concatenate to exactly the selected part of the log. */
  lemma PagesCoverSelection(logs: seq<LogEntry>, agentId: string, action: string, kind: string, size: nat)
    requires size > 0
    ensures PagesFrom(Filtered(logs, agentId, action, kind), 0, size) == Filtered(logs, agentId, action, kind)
  {
    PagesCoverLog(Filtered(logs, agentId, action, kind), size);
  }

  /** What the filter keeps: the entries that agree with every parameter that is given, with
      their multiplicity, and no others. */
  lemma {:induction false} FilterKeepsSelected(logs: seq<LogEntry>, agentId: string, action: string, kind: string, e: LogEntry)
    ensures multiset(Filtered(logs, agentId, action, kind))[e]
         == if agentId in {"", e.agentId} && action in {"", e.action} && kind in {"", e.kind} then multiset(logs)[e] else 0
  {
    if logs != [] {
      var before, last := logs[..|logs| - 1], logs[|logs| - 1];
      FilterKeepsSelected(before, agentId, action, kind, e);
      assert logs == before + [last];
    }
  }
}
