/** The fleet manager of internal/fleet/fleet.go: tenants, and two indexes over their agents
    that are maintained by hand. */
module Fleet {
  import opened Prelude

  /** A mode is a string; only these two are meaningful. */
  const ISOLATED := "isolated"
  const FLEET := "fleet"

  datatype Agent = Agent(id: string, name: string, ip: string, webhookURL: string, tier: string, description: string)

  datatype Tenant = Tenant(id: string, captainName: string, mode: string, agents: map<string, Agent>)

  datatype State = State(
    tenants: map<string, Tenant>,
    agentToTenant: map<string, string>,
    ipToAgent: map<string, Agent>)

  const NEW := State(map[], map[], map[])

  // ---------- Mutations ----------

  function NewTenant(id: string): Tenant {
    Tenant(id, "", ISOLATED, map[])
  }

  /** The tenant, or the one that a mutation creates in its place. */
  function TenantOr(s: State, id: string): Tenant {
    if id in s.tenants then s.tenants[id] else NewTenant(id)
  }

  function Created(s: State, id: string): State {
    s.(tenants := s.tenants[id := NewTenant(id)])
  }

  function CaptainSet(s: State, id: string, name: string): State {
    s.(tenants := s.tenants[id := TenantOr(s, id).(captainName := name)])
  }

  function ModeSet(s: State, id: string, mode: string): State {
    s.(tenants := s.tenants[id := TenantOr(s, id).(mode := mode)])
  }

  function AgentAdded(s: State, id: string, a: Agent): State {
    var t := TenantOr(s, id);
    State(
      s.tenants[id := t.(agents := t.agents[a.id := a])],
      s.agentToTenant[a.id := id],
      if a.ip != "" then s.ipToAgent[a.ip := a] else s.ipToAgent)
  }

  function AgentRemoved(s: State, id: string, agentId: string): State {
    if id !in s.tenants then s
    else
      var t := s.tenants[id];
      State(
        s.tenants[id := t.(agents := t.agents - {agentId})],
        s.agentToTenant - {agentId},
        if agentId in t.agents && t.agents[agentId].ip != "" then s.ipToAgent - {t.agents[agentId].ip}
        else s.ipToAgent)
  }

  datatype Op =
    | CreateTenant(tenant: string)
    | SetCaptainName(tenant: string, name: string)
    | SetMode(tenant: string, mode: string)
    | AddAgent(tenant: string, agent: Agent)
    | RemoveAgent(tenant: string, agentId: string)

  function Apply(s: State, op: Op): State {
    match op
    case CreateTenant(t) => Created(s, t)
    case SetCaptainName(t, n) => CaptainSet(s, t, n)
    case SetMode(t, m) => ModeSet(s, t, m)
    case AddAgent(t, a) => AgentAdded(s, t, a)
    case RemoveAgent(t, a) => AgentRemoved(s, t, a)
  }

  // ---------- Queries ----------

  /** The zero value that a Go map returns for a missing key. */
  function OwnerOf(s: State, agentId: string): string {
    if agentId in s.agentToTenant then s.agentToTenant[agentId] else ""
  }

  predicate CanTalk(s: State, a: string, b: string) {
    && OwnerOf(s, a) != "" && OwnerOf(s, a) == OwnerOf(s, b)
    && OwnerOf(s, a) in s.tenants && s.tenants[OwnerOf(s, a)].mode == FLEET
  }

  /** The answer of `GetAgentsForAgent`. Allocating room for one agent less than the tenant
      holds panics when the tenant holds none. */
  datatype Visible = Agents(agents: map<string, Agent>) | Panics

  function VisibleTo(s: State, agentId: string): Visible {
    if agentId !in s.agentToTenant then Agents(map[])
    else
      var t := s.agentToTenant[agentId];
      if t !in s.tenants || s.tenants[t].mode == ISOLATED then Agents(map[])
      else if s.tenants[t].agents == map[] then Panics
      else Agents(map k | k in s.tenants[t].agents && s.tenants[t].agents[k].id != agentId :: s.tenants[t].agents[k])
  }

  /** `gs` lists the map's values, one per key, in some order. */
  ghost predicate Lists(gs: seq<Agent>, m: map<string, Agent>) {
    exists keys: seq<string> ::
      && |keys| == |gs| && (forall k :: k in keys <==> k in m)
      && (forall i, j :: 0 <= i < j < |keys| ==> keys[i] != keys[j])
      && (forall i :: 0 <= i < |keys| ==> gs[i] == m[keys[i]])
  }

  class Manager {
    var tenants: map<string, Tenant>
    var agentToTenant: map<string, string>
    var ipToAgent: map<string, Agent>

    function Now(): State
      reads this
    {
      State(tenants, agentToTenant, ipToAgent)
    }

    constructor ()
      ensures Now() == NEW
    {
      tenants, agentToTenant, ipToAgent := map[], map[], map[];
    }

    method ValidateAgentIP(ip: string) returns (agentId: string, tier: string, valid: bool)
      ensures valid <==> ip in ipToAgent
      ensures valid ==> agentId == ipToAgent[ip].id
      ensures valid ==> tier == if ipToAgent[ip].tier != "" then ipToAgent[ip].tier else "crew"
      ensures !valid ==> agentId == "" && tier == ""
    {
      if ip !in ipToAgent {
        return "", "", false;
      }
      tier := ipToAgent[ip].tier;
      if tier == "" {
        tier := "crew";
      }
      agentId, valid := ipToAgent[ip].id, true;
    }

    method CreateTenant(tenantId: string)
      modifies this
      ensures Now() == Apply(old(Now()), Op.CreateTenant(tenantId))
    {
      tenants := tenants[tenantId := Tenant(tenantId, "", ISOLATED, map[])];
    }

    method SetCaptainName(tenantId: string, name: string)
      modifies this
      ensures Now() == Apply(old(Now()), Op.SetCaptainName(tenantId, name))
    {
      if tenantId !in tenants {
        tenants := tenants[tenantId := Tenant(tenantId, name, ISOLATED, map[])];
      } else {
        tenants := tenants[tenantId := tenants[tenantId].(captainName := name)];
      }
    }

    method SetMode(tenantId: string, mode: string)
      modifies this
      ensures Now() == Apply(old(Now()), Op.SetMode(tenantId, mode))
    {
      if tenantId !in tenants {
        tenants := tenants[tenantId := Tenant(tenantId, "", mode, map[])];
      } else {
        tenants := tenants[tenantId := tenants[tenantId].(mode := mode)];
      }
    }

    method AddAgent(tenantId: string, agent: Agent)
      modifies this
      ensures Now() == Apply(old(Now()), Op.AddAgent(tenantId, agent))
    {
      if tenantId !in tenants {
        tenants := tenants[tenantId := Tenant(tenantId, "", ISOLATED, map[])];
      }
      var t := tenants[tenantId];
      tenants := tenants[tenantId := t.(agents := t.agents[agent.id := agent])];
      agentToTenant := agentToTenant[agent.id := tenantId];
      if agent.ip != "" {
        ipToAgent := ipToAgent[agent.ip := agent];
      }
    }

    method RemoveAgent(tenantId: string, agentId: string)
      modifies this
      ensures Now() == Apply(old(Now()), Op.RemoveAgent(tenantId, agentId))
    {
      if tenantId !in tenants {
        return;
      }
      var t := tenants[tenantId];
      if agentId in t.agents && t.agents[agentId].ip != "" {
        ipToAgent := ipToAgent - {t.agents[agentId].ip};
      }
      tenants := tenants[tenantId := t.(agents := t.agents - {agentId})];
      agentToTenant := agentToTenant - {agentId};
    }

    /** `None` is the panic. */
    method GetAgentsForAgent(agentId: string) returns (result: Option<seq<Agent>>)
      ensures result.None? <==> VisibleTo(Now(), agentId).Panics?
      ensures result.Some? ==> Lists(result.value, VisibleTo(Now(), agentId).agents)
    {
      if agentId !in agentToTenant {
        ghost var keys: seq<string> := [];
        assert Lists([], map[]) by { assert |keys| == 0; }
        return Some([]);
      }
      var tenantId := agentToTenant[agentId];
      if tenantId !in tenants || tenants[tenantId].mode == ISOLATED {
        ghost var keys: seq<string> := [];
        assert Lists([], map[]) by { assert |keys| == 0; }
        return Some([]);
      }
      var all := tenants[tenantId].agents;
      if |all| - 1 < 0 {
        return None;
      }
      var agents := [];
      ghost var keys: seq<string> := [];
      var rest := all.Keys;
      while rest != {}
        invariant rest <= all.Keys
        invariant forall k :: k in keys <==> k in all && k !in rest && all[k].id != agentId
        invariant forall i, j :: 0 <= i < j < |keys| ==> keys[i] != keys[j]
        invariant |agents| == |keys| && forall i :: 0 <= i < |keys| ==> keys[i] in all && agents[i] == all[keys[i]]
      {
        var k :| k in rest;
        rest := rest - {k};
        if all[k].id != agentId {
          agents := agents + [all[k]];
          keys := keys + [k];
        }
      }
      assert Lists(agents, VisibleTo(Now(), agentId).agents);
      result := Some(agents);
    }

    method CanCommunicate(fromAgent: string, toAgent: string) returns (ok: bool)
      ensures ok <==> CanTalk(Now(), fromAgent, toAgent)
    {
      var fromTenant := OwnerOf(Now(), fromAgent);
      var toTenant := OwnerOf(Now(), toAgent);
      if fromTenant == "" || fromTenant != toTenant {
        return false;
      }
      if fromTenant !in tenants {
        return false;
      }
      ok := tenants[fromTenant].mode == FLEET;
    }
  }

  /** The tier reported for an agent: crew unless it names one. */
  function TierOf(a: Agent): (tier: string)
    ensures tier != "" && (a.tier != "" ==> tier == a.tier) && (a.tier == "" ==> tier == "crew")
  {
    if a.tier == "" then "crew" else a.tier
  }

  // ---------- Runs ----------

  function Run(s: State, ops: seq<Op>): State
    decreases |ops|
  {
    if ops == [] then s else Run(Apply(s, ops[0]), ops[1..])
  }

  /** A tenant comes to fleet mode only by being set to it: whatever else a run does, and
      whatever tenants it creates on the way. */
  lemma {:induction false} FleetModeWasSet(s: State, ops: seq<Op>, t: string)
    requires t in Run(s, ops).tenants && Run(s, ops).tenants[t].mode == "fleet"
    ensures SetMode(t, "fleet") in ops || (t in s.tenants && s.tenants[t].mode == "fleet")
    decreases |ops|
  {
    if ops != [] {
      assert ops[0] in ops && forall op :: op in ops[1..] ==> op in ops;
      FleetModeWasSet(Apply(s, ops[0]), ops[1..], t);
    }
  }

  /** So from a new manager two agents may communicate only if one tenant, with a name, is
      indexed for both and was set to fleet mode in the run. */
  lemma TalkNeedsFleetMode(ops: seq<Op>, a: string, b: string)
    requires CanTalk(Run(NEW, ops), a, b)
    ensures var s := Run(NEW, ops);
            && a in s.agentToTenant && b in s.agentToTenant
            && s.agentToTenant[a] == s.agentToTenant[b] != ""
            && SetMode(s.agentToTenant[a], "fleet") in ops
  {
    FleetModeWasSet(NEW, ops, OwnerOf(Run(NEW, ops), a));
  }

  /** Keys agree with the records they lead to. */
  predicate Keyed(s: State) {
    && (forall t :: t in s.tenants ==> s.tenants[t].id == t)
    && (forall t, a :: t in s.tenants && a in s.tenants[t].agents ==> s.tenants[t].agents[a].id == a)
    && (forall ip :: ip in s.ipToAgent ==> ip != "" && s.ipToAgent[ip].ip == ip)
  }

  lemma KeyedStep(s: State, op: Op)
    requires Keyed(s)
    ensures Keyed(Apply(s, op))
  {
    var s' := Apply(s, op);
    forall t, a | t in s'.tenants && a in s'.tenants[t].agents
      ensures s'.tenants[t].agents[a].id == a
    {
      if t in s.tenants && a in s.tenants[t].agents {
        assert s.tenants[t].agents[a].id == a;
      }
    }
  }

  lemma {:induction false} KeyedRun(s: State, ops: seq<Op>)
    requires Keyed(s)
    ensures Keyed(Run(s, ops))
    decreases |ops|
  {
    if ops != [] {
      KeyedStep(s, ops[0]);
      KeyedRun(Apply(s, ops[0]), ops[1..]);
    }
  }

  predicate Holds(s: State, t: string, a: string) {
    t in s.tenants && a in s.tenants[t].agents
  }

  /** What the agent index claims is so. */
  predicate IndexSound(s: State) {
    forall a :: a in s.agentToTenant ==> Holds(s, s.agentToTenant[a], a)
  }

  predicate NoneIndexedUnder(s: State, t: string) {
    forall a :: a in s.agentToTenant ==> s.agentToTenant[a] != t
  }

  /** Creates no tenant that agents are indexed under. */
  predicate OrphansNone(s: State, op: Op) {
    op.CreateTenant? ==> NoneIndexedUnder(s, op.tenant)
  }

  predicate OrphanFree(s: State, ops: seq<Op>)
    decreases |ops|
  {
    ops == [] || (OrphansNone(s, ops[0]) && OrphanFree(Apply(s, ops[0]), ops[1..]))
  }

  /** An operation keeps the agent index sound exactly when it creates no tenant that agents
      are indexed under; adding and removing agents keeps it, however they are used. */
  lemma IndexSoundStep(s: State, op: Op)
    requires IndexSound(s)
    ensures IndexSound(Apply(s, op)) <==> OrphansNone(s, op)
  {
    var s' := Apply(s, op);
    if OrphansNone(s, op) {
      forall a | a in s'.agentToTenant
        ensures Holds(s', s'.agentToTenant[a], a)
      {
        if a in s.agentToTenant {
          assert Holds(s, s.agentToTenant[a], a);
        }
      }
    } else {
      var a :| a in s.agentToTenant && s.agentToTenant[a] == op.tenant;
      assert a in s'.agentToTenant && !Holds(s', op.tenant, a);
    }
  }

  lemma {:induction false} IndexSoundRun(s: State, ops: seq<Op>)
    requires IndexSound(s) && OrphanFree(s, ops)
    ensures IndexSound(Run(s, ops))
    decreases |ops|
  {
    if ops != [] {
      IndexSoundStep(s, ops[0]);
      IndexSoundRun(Apply(s, ops[0]), ops[1..]);
    }
  }

  /** In every run from a new manager that creates no tenant over indexed agents, so in every
      run that creates no tenant twice, the agent index only names tenants that hold the
      agent, and looking up an agent's peers never panics. */
  lemma IndexSoundAlways(ops: seq<Op>, a: string)
    requires OrphanFree(NEW, ops)
    ensures a in Run(NEW, ops).agentToTenant ==> Holds(Run(NEW, ops), Run(NEW, ops).agentToTenant[a], a)
    ensures !VisibleTo(Run(NEW, ops), a).Panics?
  {
    IndexSoundRun(NEW, ops);
    var s := Run(NEW, ops);
    if a in s.agentToTenant {
      assert Holds(s, s.agentToTenant[a], a);
    }
  }

  /** A tenant that does not exist has no agent indexed under it while the index is sound. */
  lemma FreshOrphansNone(s: State, t: string)
    requires IndexSound(s) && t !in s.tenants
    ensures OrphansNone(s, CreateTenant(t))
  {
    forall a | a in s.agentToTenant
      ensures s.agentToTenant[a] != t
    {
      assert Holds(s, s.agentToTenant[a], a);
    }
  }

  /** Re-creating a tenant leaves its agents in the index. Put into fleet mode, the new tenant
      makes the lookup of an agent's peers panic exactly for the agents indexed under it. */
  lemma RecreatedTenantPanics(s: State, t: string, a: string)
    requires IndexSound(s)
    ensures VisibleTo(Apply(Apply(s, CreateTenant(t)), SetMode(t, FLEET)), a).Panics?
       <==> a in s.agentToTenant && s.agentToTenant[a] == t
  {
    if a in s.agentToTenant {
      assert Holds(s, s.agentToTenant[a], a);
    }
  }

  const BOB := Agent("bob", "Bob", "", "", "", "")

  /** Such a run exists. */
  lemma RecreatedTenantRun()
    ensures var s := Run(NEW, [AddAgent("t", BOB), CreateTenant("t"), SetMode("t", FLEET)]);
            !IndexSound(s) && VisibleTo(s, "bob").Panics?
  {
    var s1 := Apply(NEW, AddAgent("t", BOB));
    var s2 := Apply(s1, CreateTenant("t"));
    var s3 := Apply(s2, SetMode("t", FLEET));
    var ops := [AddAgent("t", BOB), CreateTenant("t"), SetMode("t", FLEET)];
    assert ops[1..] == [CreateTenant("t"), SetMode("t", FLEET)];
    assert ops[1..][1..] == [SetMode("t", FLEET)];
    assert Run(NEW, ops) == Run(s1, ops[1..]) == Run(s2, ops[1..][1..]) == Run(s3, []);
    assert "bob" in s3.agentToTenant && s3.agentToTenant["bob"] == "t";
    assert s3.tenants["t"].agents == map[];
    assert !Holds(s3, "t", "bob");
  }

  // ---------- Disciplined runs ----------

  /** A registered agent is added again only to its own tenant and under its old address, if
      it had one; and a registered address only for the agent that has it. */
  predicate AddKeeps(s: State, t: string, a: Agent) {
    && (a.id in s.agentToTenant ==>
          && s.agentToTenant[a.id] == t
          && (Holds(s, t, a.id) ==> s.tenants[t].agents[a.id].ip in {"", a.ip}))
    && (a.ip in s.ipToAgent ==> s.ipToAgent[a.ip].id == a.id)
  }

  /** The guard of each operation: tenants have names, none is created over indexed agents,
      and an agent is removed through the tenant that owns it. */
  predicate Keeps(s: State, op: Op) {
    match op
    case CreateTenant(t) => t != "" && NoneIndexedUnder(s, t)
    case SetCaptainName(t, _) => t != ""
    case SetMode(t, _) => t != ""
    case AddAgent(t, a) => t != "" && AddKeeps(s, t, a)
    case RemoveAgent(t, a) => t in s.tenants && a in s.agentToTenant ==> s.agentToTenant[a] == t
  }

  /** And only the two modes are used. */
  predicate Disciplined(s: State, op: Op) {
    Keeps(s, op) && (op.SetMode? ==> op.mode in {ISOLATED, FLEET})
  }

  predicate DisciplinedRun(s: State, ops: seq<Op>)
    decreases |ops|
  {
    ops == [] || (Disciplined(s, ops[0]) && DisciplinedRun(Apply(s, ops[0]), ops[1..]))
  }

  /** `a` is held by `t` with address `ip`. */
  predicate HoldsAt(s: State, t: string, a: string, ip: string) {
    Holds(s, t, a) && s.tenants[t].agents[a].ip == ip
  }

  /** Both indexes are exact inverses of the tenant maps. */
  ghost predicate Coherent(s: State) {
    && Keyed(s)
    && "" !in s.tenants
    && (forall a, t :: Holds(s, t, a) <==> a in s.agentToTenant && s.agentToTenant[a] == t)
    && (forall ip :: ip in s.ipToAgent ==> exists t, a :: HoldsAt(s, t, a, ip) && s.ipToAgent[ip] == s.tenants[t].agents[a])
    && (forall t, a, ip :: HoldsAt(s, t, a, ip) && ip != "" ==>
          ip in s.ipToAgent && s.ipToAgent[ip] == s.tenants[t].agents[a])
  }

  predicate TwoModes(s: State) {
    forall t :: t in s.tenants ==> s.tenants[t].mode in {ISOLATED, FLEET}
  }

  lemma OwnerStep(s: State, op: Op, t: string, a: string)
    requires Coherent(s) && Keeps(s, op)
    ensures var s' := Apply(s, op); Holds(s', t, a) <==> a in s'.agentToTenant && s'.agentToTenant[a] == t
  {
    assert Holds(s, t, a) <==> a in s.agentToTenant && s.agentToTenant[a] == t;
  }

  /** An address whose holder is not the agent removed stays registered. */
  lemma AddressHeld(s: State, op: Op, t: string, a: string, ip: string)
    requires Keyed(s) && Keeps(s, op) && ip != "" && HoldsAt(s, t, a, ip) && HoldsAt(Apply(s, op), t, a, ip)
    requires ip in s.ipToAgent && s.ipToAgent[ip] == s.tenants[t].agents[a]
    requires a in s.agentToTenant && s.agentToTenant[a] == t
    requires op.RemoveAgent? && HoldsAt(s, op.tenant, op.agentId, ip) ==> op.agentId == a
    ensures ip in Apply(s, op).ipToAgent && Apply(s, op).ipToAgent[ip] == Apply(s, op).tenants[t].agents[a]
  {
  }

  /** A held address stays registered to its holder. */
  lemma AddressStep(s: State, op: Op, t: string, a: string, ip: string)
    requires Coherent(s) && Keeps(s, op) && ip != "" && HoldsAt(Apply(s, op), t, a, ip)
    ensures ip in Apply(s, op).ipToAgent && Apply(s, op).ipToAgent[ip] == Apply(s, op).tenants[t].agents[a]
  {
    if !(op.AddAgent? && op.tenant == t && op.agent.id == a) {
      assert HoldsAt(s, t, a, ip);
      assert Holds(s, t, a);
      if op.RemoveAgent? && HoldsAt(s, op.tenant, op.agentId, ip) {
        assert s.ipToAgent[ip].id == op.agentId;
      }
      AddressHeld(s, op, t, a, ip);
    }
  }

  /** An address that stays registered stays with its holder. */
  lemma AddressKept(s: State, op: Op, t: string, a: string, ip: string)
    requires Keyed(s) && Keeps(s, op) && HoldsAt(s, t, a, ip) && a in s.agentToTenant && s.agentToTenant[a] == t
    requires ip != "" && ip in s.ipToAgent && s.ipToAgent[ip] == s.tenants[t].agents[a] && ip in Apply(s, op).ipToAgent
    ensures HoldsAt(Apply(s, op), t, a, ip) && Apply(s, op).ipToAgent[ip] == Apply(s, op).tenants[t].agents[a]
  {
  }

  /** A registered address belongs to a held agent. */
  lemma AddressOwnerStep(s: State, op: Op, ip: string)
    requires Coherent(s) && Keeps(s, op) && ip in Apply(s, op).ipToAgent
    ensures var s' := Apply(s, op); exists t, a :: HoldsAt(s', t, a, ip) && s'.ipToAgent[ip] == s'.tenants[t].agents[a]
  {
    if op.AddAgent? && op.agent.ip == ip {
      assert HoldsAt(Apply(s, op), op.tenant, op.agent.id, ip);
    } else {
      assert ip in s.ipToAgent;
      var t, a :| HoldsAt(s, t, a, ip) && s.ipToAgent[ip] == s.tenants[t].agents[a];
      assert Holds(s, t, a);
      AddressKept(s, op, t, a, ip);
    }
  }

  lemma CoherentKept(s: State, op: Op)
    requires Coherent(s) && Keeps(s, op)
    ensures Coherent(Apply(s, op))
  {
    var s' := Apply(s, op);
    KeyedStep(s, op);
    assert "" !in s'.tenants;
    forall a, t
      ensures Holds(s', t, a) <==> a in s'.agentToTenant && s'.agentToTenant[a] == t
    {
      OwnerStep(s, op, t, a);
    }
    forall t, a, ip | HoldsAt(s', t, a, ip) && ip != ""
      ensures ip in s'.ipToAgent && s'.ipToAgent[ip] == s'.tenants[t].agents[a]
    {
      AddressStep(s, op, t, a, ip);
    }
    forall ip | ip in s'.ipToAgent
      ensures exists t, a :: HoldsAt(s', t, a, ip) && s'.ipToAgent[ip] == s'.tenants[t].agents[a]
    {
      AddressOwnerStep(s, op, ip);
    }
  }

  lemma AddBreaks(s: State, t: string, a: Agent)
    requires Coherent(s) && t != "" && !AddKeeps(s, t, a)
    ensures !Coherent(Apply(s, AddAgent(t, a)))
  {
    var s' := Apply(s, AddAgent(t, a));
    if a.id in s.agentToTenant && s.agentToTenant[a.id] != t {
      assert Holds(s, s.agentToTenant[a.id], a.id);
      assert Holds(s', s.agentToTenant[a.id], a.id);
    } else if a.ip in s.ipToAgent && s.ipToAgent[a.ip].id != a.id {
      var t', b :| HoldsAt(s, t', b, a.ip) && s.ipToAgent[a.ip] == s.tenants[t'].agents[b];
      assert Holds(s, t', b);
      assert HoldsAt(s', t', b, a.ip) && s'.ipToAgent[a.ip] != s'.tenants[t'].agents[b];
    } else {
      OldAddressLeft(s, t, a);
    }
  }

  /** The old address of an agent added under another one stays with the old record. */
  lemma OldAddressLeft(s: State, t: string, a: Agent)
    requires Coherent(s) && Holds(s, t, a.id) && s.tenants[t].agents[a.id].ip !in {"", a.ip}
    ensures !Coherent(Apply(s, AddAgent(t, a)))
  {
    var s', was := Apply(s, AddAgent(t, a)), s.tenants[t].agents[a.id];
    assert HoldsAt(s, t, a.id, was.ip);
    assert was.ip in s'.ipToAgent && s'.ipToAgent[was.ip] == was;
    forall t', b | HoldsAt(s', t', b, was.ip)
      ensures s'.tenants[t'].agents[b] != was
    {
      assert b == a.id ==> t' == t || Holds(s, t', b);
    }
  }

  /** Each operation keeps both indexes exact inverses of the tenant maps if and only if its
      guard holds. */
  lemma CoherentStepExactly(s: State, op: Op)
    requires Coherent(s)
    ensures Coherent(Apply(s, op)) <==> Keeps(s, op)
  {
    var s' := Apply(s, op);
    if Keeps(s, op) {
      CoherentKept(s, op);
    } else {
      match op
      case CreateTenant(t) =>
        if t != "" {
          var a :| a in s.agentToTenant && s.agentToTenant[a] == t;
          assert a in s'.agentToTenant && s'.agentToTenant[a] == t && !Holds(s', t, a);
        }
      case AddAgent(t, a) =>
        if t != "" {
          AddBreaks(s, t, a);
        }
      case RemoveAgent(t, a) =>
        var owner := s.agentToTenant[a];
        assert Holds(s, owner, a);
        assert Holds(s', owner, a) && a !in s'.agentToTenant;
      case _ => assert "" in s'.tenants;
    }
  }

  lemma {:induction false} CoherentRun(s: State, ops: seq<Op>)
    requires Coherent(s) && TwoModes(s) && DisciplinedRun(s, ops)
    ensures Coherent(Run(s, ops)) && TwoModes(Run(s, ops))
    decreases |ops|
  {
    if ops != [] {
      CoherentKept(s, ops[0]);
      assert TwoModes(Apply(s, ops[0]));
      CoherentRun(Apply(s, ops[0]), ops[1..]);
    }
  }

  ghost predicate CoherentThroughout(s: State, ops: seq<Op>)
    decreases |ops|
  {
    Coherent(s) && (ops == [] || CoherentThroughout(Apply(s, ops[0]), ops[1..]))
  }

  predicate GuardedRun(s: State, ops: seq<Op>)
    decreases |ops|
  {
    ops == [] || (Keeps(s, ops[0]) && GuardedRun(Apply(s, ops[0]), ops[1..]))
  }

  /** A run from a coherent manager is coherent throughout if and only if every operation
      meets its guard. */
  lemma {:induction false} CoherentRunsExactly(s: State, ops: seq<Op>)
    requires Coherent(s)
    ensures CoherentThroughout(s, ops) <==> GuardedRun(s, ops)
    decreases |ops|
  {
    if ops != [] {
      CoherentStepExactly(s, ops[0]);
      if Keeps(s, ops[0]) {
        CoherentRunsExactly(Apply(s, ops[0]), ops[1..]);
      }
    }
  }

  /** After every disciplined run both indexes are exact inverses of the tenant maps. */
  lemma DisciplinedRunsCoherent(ops: seq<Op>)
    requires DisciplinedRun(NEW, ops)
    ensures Coherent(Run(NEW, ops)) && TwoModes(Run(NEW, ops))
  {
    CoherentRun(NEW, ops);
  }

  /** The registered agents other than `a` that may talk with it. */
  ghost predicate VisibleIsReachable(s: State, a: string) {
    && VisibleTo(s, a).Agents?
    && forall b :: b in VisibleTo(s, a).agents <==> b != a && CanTalk(s, a, b)
  }

  /** In a coherent manager an agent sees exactly the other agents it can communicate with,
      if and only if its tenant's mode is one of the two modes or it is alone there. */
  lemma VisibilityExact(s: State, a: string)
    requires Coherent(s)
    ensures VisibleIsReachable(s, a)
       <==> (a in s.agentToTenant ==>
               var t := TenantOr(s, s.agentToTenant[a]); t.mode in {ISOLATED, FLEET} || t.agents.Keys == {a})
  {
    assert forall b :: b in s.agentToTenant ==> Holds(s, s.agentToTenant[b], b);
    if a in s.agentToTenant {
      var t := s.agentToTenant[a];
      assert forall b :: Holds(s, t, b) <==> b in s.agentToTenant && s.agentToTenant[b] == t;
      assert forall b :: b != a && OwnerOf(s, b) == t <==> b != a && b in s.tenants[t].agents;
      assert a in s.tenants[t].agents;
      var visible := VisibleTo(s, a);
      assert visible.Agents?;
      if s.tenants[t].mode !in {ISOLATED, FLEET} && s.tenants[t].agents.Keys != {a} {
        var b :| b in s.tenants[t].agents && b != a;
        assert b in visible.agents && !CanTalk(s, a, b);
      }
    }
  }

  /** So after a disciplined run visibility and communication agree for every agent. */
  lemma DisciplinedVisibility(ops: seq<Op>, a: string)
    requires DisciplinedRun(NEW, ops)
    ensures VisibleIsReachable(Run(NEW, ops), a)
  {
    CoherentRun(NEW, ops);
    var s := Run(NEW, ops);
    VisibilityExact(s, a);
    if a in s.agentToTenant {
      assert Holds(s, s.agentToTenant[a], a);
    }
  }

  /** Re-adding an agent leaves its old address registered, exactly when it had one and the
      new one differs. */
  lemma ReaddedAgentKeepsOldAddress(s: State, t: string, a: Agent, was: Agent)
    requires Coherent(s) && Holds(s, t, a.id) && s.tenants[t].agents[a.id] == was
    ensures var s' := Apply(s, AddAgent(t, a));
            (was.ip in s'.ipToAgent && s'.ipToAgent[was.ip] == was && was != a) <==> was.ip !in {"", a.ip}
  {
    assert HoldsAt(s, t, a.id, was.ip);
  }
}
