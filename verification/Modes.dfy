/** Operating modes: internal/mode/mode.go. */
module Modes {

  const ENFORCE := "enforce"
  const AUDIT := "audit"
  const LOCKDOWN := "lockdown"

  datatype Settings = Settings(globalMode: string, agentModes: map<string, string>)

  /** An agent's override if it has one, the global mode otherwise. */
  function Effective(s: Settings, agent: string): string {
    if agent in s.agentModes then s.agentModes[agent] else s.globalMode
  }

  /** Audit never blocks, lockdown always does, any other mode follows the rules. */
  function Decide(mode: string, ruleMatched: bool): bool {
    mode != AUDIT && (mode == LOCKDOWN || ruleMatched)
  }

  class ModeManager {
    var globalMode: string
    var agentModes: map<string, string>

    function Current(): Settings
      reads this
    {
      Settings(globalMode, agentModes)
    }

    constructor ()
      ensures Current() == Settings(ENFORCE, map[])
    {
      globalMode, agentModes := ENFORCE, map[];
    }

    method SetGlobalMode(mode: string)
      modifies this
      ensures Current() == old(Current()).(globalMode := mode)
    {
      globalMode := mode;
    }

    method SetAgentMode(agent: string, mode: string)
      modifies this
      ensures globalMode == old(globalMode) && Effective(Current(), agent) == mode
      ensures forall a :: a != agent ==> Effective(Current(), a) == Effective(old(Current()), a)
      ensures agentModes == old(agentModes)[agent := mode]
    {
      agentModes := agentModes[agent := mode];
    }

    method ClearAgentMode(agent: string)
      modifies this
      ensures globalMode == old(globalMode) && Effective(Current(), agent) == globalMode
      ensures forall a :: a != agent ==> Effective(Current(), a) == Effective(old(Current()), a)
      ensures agentModes == old(agentModes) - {agent}
    {
      agentModes := agentModes - {agent};
    }

    method AllAgentModes() returns (result: map<string, string>)
      ensures result == agentModes
    {
      result := map[];
      var rest := agentModes.Keys;
      while rest != {}
        invariant rest <= agentModes.Keys
        invariant result == agentModes - rest
      {
        var k :| k in rest;
        result := result[k := agentModes[k]];
        rest := rest - {k};
      }
    }

    method ShouldBlock(agent: string, ruleMatched: bool) returns (block: bool)
      ensures block == Decide(Effective(Current(), agent), ruleMatched)
    {
      var mode := if agent in agentModes then agentModes[agent] else globalMode;
      if mode == AUDIT {
        return false;
      }
      if mode == LOCKDOWN {
        return true;
      }
      block := ruleMatched;
    }
  }
}
