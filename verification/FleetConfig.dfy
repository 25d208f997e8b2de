/** Applying a configuration file to the fleet manager: internal/fleet/loader.go. */
module FleetConfig {
  import opened Prelude
  import opened Fleet

  datatype AgentConfig = AgentConfig(
    id: string, name: string, ip: string, webhookURL: string, tier: string, description: string)

  datatype TenantConfig = TenantConfig(id: string, captainName: string, mode: string, agents: seq<AgentConfig>)

  function AgentOf(ac: AgentConfig): Agent {
    Agent(ac.id, ac.name, ac.ip, ac.webhookURL, if ac.tier == "" then "crew" else ac.tier, ac.description)
  }

  function ModeOf(tc: TenantConfig): string {
    if tc.mode == "fleet" then FLEET else ISOLATED
  }

  // ---------- The operations that a configuration stands for ----------

  function AgentOps(tenant: string, agents: seq<AgentConfig>): seq<Op> {
    if agents == [] then [] else AgentOps(tenant, agents[..|agents| - 1]) + [AddAgent(tenant, AgentOf(agents[|agents| - 1]))]
  }

  function HeaderOps(tc: TenantConfig): seq<Op> {
    [CreateTenant(tc.id)]
    + (if tc.captainName != "" then [SetCaptainName(tc.id, tc.captainName)] else [])
    + [SetMode(tc.id, ModeOf(tc))]
  }

  function TenantOps(tc: TenantConfig): seq<Op> {
    HeaderOps(tc) + AgentOps(tc.id, tc.agents)
  }

  function ConfigOps(config: seq<TenantConfig>): seq<Op> {
    if config == [] then [] else ConfigOps(config[..|config| - 1]) + TenantOps(config[|config| - 1])
  }

  lemma {:induction false} RunAppend(s: State, ops: seq<Op>, more: seq<Op>)
    ensures Run(s, ops + more) == Run(Run(s, ops), more)
    decreases |ops|
  {
    if ops == [] {
      assert ops + more == more;
    } else {
      RunAppend(Apply(s, ops[0]), ops[1..], more);
      assert (ops + more)[1..] == ops[1..] + more;
    }
  }

  lemma RunLast(s: State, ops: seq<Op>, op: Op)
    ensures Run(s, ops + [op]) == Apply(Run(s, ops), op)
  {
    RunAppend(s, ops, [op]);
    assert Run(Run(s, ops), [op]) == Run(Apply(Run(s, ops), op), [op][1..]);
  }

  method ApplyConfig(mgr: Manager, config: seq<TenantConfig>)
    modifies mgr
    ensures mgr.Now() == Run(old(mgr.Now()), ConfigOps(config))
  {
    for i := 0 to |config|
      invariant mgr.Now() == Run(old(mgr.Now()), ConfigOps(config[..i]))
    {
      var tc := config[i];
      ghost var before := mgr.Now();
      ApplyHeader(mgr, tc);
      AddAgents(mgr, tc);
      RunAppend(before, HeaderOps(tc), AgentOps(tc.id, tc.agents));
      RunAppend(old(mgr.Now()), ConfigOps(config[..i]), TenantOps(tc));
      assert config[..i + 1][..|config[..i + 1]| - 1] == config[..i];
    }
    assert config[..|config|] == config;
  }

  /** Create the tenant, name its captain, set its mode. */
  method ApplyHeader(mgr: Manager, tc: TenantConfig)
    modifies mgr
    ensures mgr.Now() == Run(old(mgr.Now()), HeaderOps(tc))
  {
    mgr.CreateTenant(tc.id);
    if tc.captainName != "" {
      mgr.SetCaptainName(tc.id, tc.captainName);
    }
    if tc.mode == "fleet" {
      mgr.SetMode(tc.id, FLEET);
    } else {
      mgr.SetMode(tc.id, ISOLATED);
    }
    HeaderSteps(old(mgr.Now()), tc);
  }

  lemma HeaderSteps(s: State, tc: TenantConfig)
    ensures var created := Apply(s, CreateTenant(tc.id));
            var named := if tc.captainName != "" then Apply(created, SetCaptainName(tc.id, tc.captainName)) else created;
            Run(s, HeaderOps(tc)) == Apply(named, SetMode(tc.id, ModeOf(tc)))
  {
    var first := [CreateTenant(tc.id)];
    var named := first + if tc.captainName != "" then [SetCaptainName(tc.id, tc.captainName)] else [];
    RunLast(s, [], CreateTenant(tc.id));
    assert [] + first == first;
    if tc.captainName != "" {
      RunLast(s, first, SetCaptainName(tc.id, tc.captainName));
    } else {
      assert named == first;
    }
    RunLast(s, named, SetMode(tc.id, ModeOf(tc)));
  }

  /** The inner loop. */
  method AddAgents(mgr: Manager, tc: TenantConfig)
    modifies mgr
    ensures mgr.Now() == Run(old(mgr.Now()), AgentOps(tc.id, tc.agents))
  {
    for j := 0 to |tc.agents|
      invariant mgr.Now() == Run(old(mgr.Now()), AgentOps(tc.id, tc.agents[..j]))
    {
      var ac := tc.agents[j];
      var tier := ac.tier;
      if tier == "" {
        tier := "crew";
      }
      var agent := Agent(ac.id, ac.name, ac.ip, ac.webhookURL, tier, ac.description);
      mgr.AddAgent(tc.id, agent);
      RunLast(old(mgr.Now()), AgentOps(tc.id, tc.agents[..j]), AddAgent(tc.id, agent));
      assert tc.agents[..j + 1][..|tc.agents[..j + 1]| - 1] == tc.agents[..j];
    }
    assert tc.agents[..|tc.agents|] == tc.agents;
  }

  // ---------- Reading the document ----------

  /** Every agent entry with the tenant it is listed under, in document order. */
  datatype Entry = Entry(tenant: string, agent: AgentConfig)

  function TenantEntries(tenant: string, agents: seq<AgentConfig>): seq<Entry> {
    if agents == [] then [] else TenantEntries(tenant, agents[..|agents| - 1]) + [Entry(tenant, agents[|agents| - 1])]
  }

  function Entries(config: seq<TenantConfig>): seq<Entry> {
    if config == [] then []
    else
      var last := config[|config| - 1];
      Entries(config[..|config| - 1]) + TenantEntries(last.id, last.agents)
  }

  /** The last entry with this address. */
  function LastWithIP(entries: seq<Entry>, ip: string): Option<Entry> {
    if entries == [] then None
    else if entries[|entries| - 1].agent.ip == ip then Some(entries[|entries| - 1])
    else LastWithIP(entries[..|entries| - 1], ip)
  }

  /** The last entry with this agent identifier. */
  function LastWithId(entries: seq<Entry>, id: string): Option<Entry> {
    if entries == [] then None
    else if entries[|entries| - 1].agent.id == id then Some(entries[|entries| - 1])
    else LastWithId(entries[..|entries| - 1], id)
  }

  function LastTenant(config: seq<TenantConfig>, id: string): Option<TenantConfig> {
    if config == [] then None
    else if config[|config| - 1].id == id then Some(config[|config| - 1])
    else LastTenant(config[..|config| - 1], id)
  }

  /** Agents of one tenant entry by identifier, the last of each. */
  function AgentMap(agents: seq<AgentConfig>): map<string, Agent> {
    if agents == [] then map[]
    else
      var last := agents[|agents| - 1];
      AgentMap(agents[..|agents| - 1])[last.id := AgentOf(last)]
  }

  function TenantFrom(tc: TenantConfig): Tenant {
    Tenant(tc.id, tc.captainName, ModeOf(tc), AgentMap(tc.agents))
  }

  /** The indexes are what the entries read so far say. */
  ghost predicate IndexesFollow(s: State, entries: seq<Entry>) {
    && (forall ip :: ip in s.ipToAgent <==> ip != "" && LastWithIP(entries, ip).Some?)
    && (forall ip :: ip in s.ipToAgent ==> s.ipToAgent[ip] == AgentOf(LastWithIP(entries, ip).value.agent))
    && (forall a :: a in s.agentToTenant <==> LastWithId(entries, a).Some?)
    && (forall a :: a in s.agentToTenant ==> s.agentToTenant[a] == LastWithId(entries, a).value.tenant)
  }

  lemma IndexesStep(s: State, entries: seq<Entry>, e: Entry)
    requires IndexesFollow(s, entries)
    ensures IndexesFollow(Apply(s, AddAgent(e.tenant, AgentOf(e.agent))), entries + [e])
  {
    var longer := entries + [e];
    assert longer[|longer| - 1] == e && longer[..|longer| - 1] == entries;
  }

  lemma {:induction false} AgentsApplied(s: State, t: Tenant, agents: seq<AgentConfig>, entries: seq<Entry>)
    requires t.agents == map[] && t.id in s.tenants && s.tenants[t.id] == t && IndexesFollow(s, entries)
    ensures var s' := Run(s, AgentOps(t.id, agents));
            && s'.tenants == s.tenants[t.id := t.(agents := AgentMap(agents))]
            && IndexesFollow(s', entries + TenantEntries(t.id, agents))
    decreases |agents|
  {
    if agents == [] {
      assert s.tenants[t.id := t.(agents := map[])] == s.tenants;
      assert entries + TenantEntries(t.id, agents) == entries;
    } else {
      var before, last := agents[..|agents| - 1], agents[|agents| - 1];
      AgentsApplied(s, t, before, entries);
      RunLast(s, AgentOps(t.id, before), AddAgent(t.id, AgentOf(last)));
      AgentStep(s, Run(s, AgentOps(t.id, before)), t, agents, entries);
    }
  }

  lemma AgentStep(s: State, s1: State, t: Tenant, agents: seq<AgentConfig>, entries: seq<Entry>)
    requires t.id in s.tenants && agents != []
    requires var before := agents[..|agents| - 1];
             s1.tenants == s.tenants[t.id := t.(agents := AgentMap(before))]
             && IndexesFollow(s1, entries + TenantEntries(t.id, before))
    ensures var s2 := Apply(s1, AddAgent(t.id, AgentOf(agents[|agents| - 1])));
            s2.tenants == s.tenants[t.id := t.(agents := AgentMap(agents))]
            && IndexesFollow(s2, entries + TenantEntries(t.id, agents))
  {
    var before, last := agents[..|agents| - 1], agents[|agents| - 1];
    IndexesStep(s1, entries + TenantEntries(t.id, before), Entry(t.id, last));
    assert entries + TenantEntries(t.id, agents) == entries + TenantEntries(t.id, before) + [Entry(t.id, last)];
  }

  lemma CaptainNamed(s: State, tc: TenantConfig)
    ensures var created := Apply(s, CreateTenant(tc.id));
            (if tc.captainName != "" then Apply(created, SetCaptainName(tc.id, tc.captainName)) else created)
            == s.(tenants := s.tenants[tc.id := NewTenant(tc.id).(captainName := tc.captainName)])
  {
  }

  lemma HeaderApplied(s: State, tc: TenantConfig)
    ensures Run(s, HeaderOps(tc)) == s.(tenants := s.tenants[tc.id := TenantFrom(tc).(agents := map[])])
  {
    HeaderSteps(s, tc);
    CaptainNamed(s, tc);
    var named := s.(tenants := s.tenants[tc.id := NewTenant(tc.id).(captainName := tc.captainName)]);
    assert Apply(named, SetMode(tc.id, ModeOf(tc))) == ModeSet(named, tc.id, ModeOf(tc));
    assert named.tenants[tc.id].(mode := ModeOf(tc)) == TenantFrom(tc).(agents := map[]);
  }

  /** The tenants are what their last entries say. */
  ghost predicate TenantsFollow(s: State, config: seq<TenantConfig>) {
    && (forall t :: t in s.tenants <==> LastTenant(config, t).Some?)
    && (forall t :: t in s.tenants ==> s.tenants[t] == TenantFrom(LastTenant(config, t).value))
  }

  lemma {:induction false} ConfigApplied(config: seq<TenantConfig>)
    ensures IndexesFollow(Run(NEW, ConfigOps(config)), Entries(config))
    ensures TenantsFollow(Run(NEW, ConfigOps(config)), config)
    decreases |config|
  {
    if config != [] {
      var before, tc := config[..|config| - 1], config[|config| - 1];
      ConfigApplied(before);
      var s := Run(NEW, ConfigOps(before));
      var t := TenantFrom(tc).(agents := map[]);
      HeaderApplied(s, tc);
      var s1 := Run(s, HeaderOps(tc));
      AgentsApplied(s1, t, tc.agents, Entries(before));
      RunAppend(s, HeaderOps(tc), AgentOps(tc.id, tc.agents));
      RunAppend(NEW, ConfigOps(before), TenantOps(tc));
    }
  }

  /** The agent as its entry spells it, crew by default. */
  predicate IsAgentOf(a: Agent, ac: AgentConfig) {
    && a.id == ac.id && a.name == ac.name && a.ip == ac.ip
    && a.webhookURL == ac.webhookURL && a.description == ac.description
    && a.tier == (if ac.tier == "" then "crew" else ac.tier)
  }

  /** Config application: on a fresh manager, for any document, an address answers with the
      last agent entry that has it, an agent with the last tenant that lists it, and each
      tenant's captain and mode are those of the last entry with its identifier: fleet mode
      if that says `fleet`, isolated if it says anything else. */
  lemma ConfigMeansLastEntry(config: seq<TenantConfig>, ip: string, agentId: string, tenant: string)
    ensures var s := Run(NEW, ConfigOps(config));
            && (ip in s.ipToAgent <==> ip != "" && LastWithIP(Entries(config), ip).Some?)
            && (ip in s.ipToAgent ==> IsAgentOf(s.ipToAgent[ip], LastWithIP(Entries(config), ip).value.agent))
            && OwnerOf(s, agentId) ==
                 (var e := LastWithId(Entries(config), agentId); if e.Some? then e.value.tenant else "")
            && (tenant in s.tenants <==> LastTenant(config, tenant).Some?)
            && (tenant in s.tenants ==>
                  var t, tc := s.tenants[tenant], LastTenant(config, tenant).value;
                  && t.id == tc.id && t.captainName == tc.captainName
                  && t.mode == (if tc.mode == "fleet" then "fleet" else "isolated"))
  {
    ConfigApplied(config);
  }

  /** Its agents are those of that last entry, each as it is listed last there. */
  lemma ConfigAgents(config: seq<TenantConfig>, tenant: string, id: string)
    requires LastTenant(config, tenant).Some?
    ensures var s, agents := Run(NEW, ConfigOps(config)), LastTenant(config, tenant).value.agents;
            && tenant in s.tenants
            && (Holds(s, tenant, id) <==> ListsAgent(agents, id))
            && (Holds(s, tenant, id) ==>
                  exists i :: 0 <= i < |agents| && agents[i].id == id && IsAgentOf(s.tenants[tenant].agents[id], agents[i])
                    && forall j :: i < j < |agents| ==> agents[j].id != id)
  {
    ConfigApplied(config);
    var agents := LastTenant(config, tenant).value.agents;
    AgentMapKeys(agents, id);
    if ListsAgent(agents, id) {
      var i := LastListed(agents, id);
    }
  }

  lemma {:induction false} LastListed(agents: seq<AgentConfig>, id: string) returns (i: nat)
    requires ListsAgent(agents, id)
    ensures i < |agents| && agents[i].id == id && forall j :: i < j < |agents| ==> agents[j].id != id
    ensures id in AgentMap(agents) && IsAgentOf(AgentMap(agents)[id], agents[i])
    decreases |agents|
  {
    var n := |agents| - 1;
    AgentMapKeys(agents, id);
    if agents[n].id == id {
      i := n;
    } else {
      var k :| 0 <= k < |agents| && agents[k].id == id;
      assert agents[..n][k].id == id;
      i := LastListed(agents[..n], id);
    }
  }

  /** After applying a document two agents may communicate exactly when the last entries that
      list them are of one tenant, with a name, whose last entry says `fleet`. */
  lemma TalkAfterConfig(config: seq<TenantConfig>, a: string, b: string)
    ensures CanTalk(Run(NEW, ConfigOps(config)), a, b)
       <==> (var x, y := LastWithId(Entries(config), a), LastWithId(Entries(config), b);
             && x.Some? && y.Some? && x.value.tenant == y.value.tenant != ""
             && LastTenant(config, x.value.tenant).Some?
             && LastTenant(config, x.value.tenant).value.mode == "fleet")
  {
    ConfigApplied(config);
  }

  predicate ListsAgent(agents: seq<AgentConfig>, id: string) {
    exists i :: 0 <= i < |agents| && agents[i].id == id
  }

  lemma {:induction false} AgentMapKeys(agents: seq<AgentConfig>, id: string)
    ensures id in AgentMap(agents) <==> ListsAgent(agents, id)
    decreases |agents|
  {
    if agents != [] {
      var before, last := agents[..|agents| - 1], agents[|agents| - 1];
      AgentMapKeys(before, id);
      assert agents == before + [last];
      if ListsAgent(before, id) {
        var i :| 0 <= i < |before| && before[i].id == id;
        assert agents[i].id == id;
      }
      if ListsAgent(agents, id) && last.id != id {
        var i :| 0 <= i < |agents| && agents[i].id == id;
        assert before[i].id == id;
      }
    }
  }

  /** Every entry's tenant has a last entry of its own. */
  lemma {:induction false} EntryHasTenant(config: seq<TenantConfig>, i: nat)
    requires i < |Entries(config)|
    ensures LastTenant(config, Entries(config)[i].tenant).Some?
    decreases |config|
  {
    var before, tc := config[..|config| - 1], config[|config| - 1];
    if i < |Entries(before)| {
      EntryHasTenant(before, i);
    } else {
      EntryTenant(tc.id, tc.agents, i - |Entries(before)|);
    }
  }

  lemma {:induction false} EntryTenant(t: string, agents: seq<AgentConfig>, i: nat)
    requires i < |TenantEntries(t, agents)|
    ensures TenantEntries(t, agents)[i].tenant == t
    decreases |agents|
  {
    if i < |TenantEntries(t, agents[..|agents| - 1])| {
      EntryTenant(t, agents[..|agents| - 1], i);
    }
  }

  lemma {:induction false} LastWithIdIsEntry(entries: seq<Entry>, id: string) returns (i: nat)
    requires LastWithId(entries, id).Some?
    ensures i < |entries| && entries[i] == LastWithId(entries, id).value
    decreases |entries|
  {
    var n := |entries| - 1;
    if entries[n].agent.id == id {
      i := n;
    } else {
      i := LastWithIdIsEntry(entries[..n], id);
    }
  }

  /** What the agent index says of an agent after applying a document is so exactly when the
      last entry of the last tenant that lists the agent still lists it. */
  lemma IndexedAgentHeldExactly(config: seq<TenantConfig>, id: string)
    requires LastWithId(Entries(config), id).Some?
    ensures var s, t := Run(NEW, ConfigOps(config)), LastWithId(Entries(config), id).value.tenant;
            && LastTenant(config, t).Some?
            && id in s.agentToTenant
            && (Holds(s, s.agentToTenant[id], id) <==> ListsAgent(LastTenant(config, t).value.agents, id))
  {
    ConfigApplied(config);
    var i := LastWithIdIsEntry(Entries(config), id);
    EntryHasTenant(config, i);
    AgentMapKeys(LastTenant(config, Entries(config)[i].tenant).value.agents, id);
  }

  /** Such a document exists: a later entry of the tenant drops the agent. */
  lemma DroppedAgentStaysIndexed()
    ensures var bob := AgentConfig("bob", "", "10.0.0.1", "", "", "");
            var s := Run(NEW, ConfigOps([TenantConfig("t", "", "", [bob]), TenantConfig("t", "", "", [])]));
            OwnerOf(s, "bob") == "t" && "10.0.0.1" in s.ipToAgent && !Holds(s, "t", "bob")
  {
    var bob := AgentConfig("bob", "", "10.0.0.1", "", "", "");
    var first, second := TenantConfig("t", "", "", [bob]), TenantConfig("t", "", "", []);
    var config := [first, second];
    ConfigApplied(config);
    assert config[..1] == [first] && [first][..0] == [] && [bob][..0] == [];
    assert TenantEntries("t", [bob]) == [Entry("t", bob)];
    assert Entries([first]) == [Entry("t", bob)];
    assert Entries(config) == [Entry("t", bob)];
  }
}
