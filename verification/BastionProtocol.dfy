/** The channel protocol of internal/bastion/proxy.go: validate, accept and dial, log the
    connect, proxy, log the disconnect; as one sequential method, and as a state machine in
    which any number of channels interleave with grant changes, cleanups and the clock. */
module BastionProtocol {
  import opened Prelude
  import Grants
  import GrantRuns
  import opened SessionLog
  import BoundedLog

  type Grant = Grants.Grant

  /** `net.JoinHostPort` on a decimal port. */
  function Address(host: string, port: nat): string {
    if ':' in host then "[" + host + "]:" + FormatInt(port, 10) else host + ":" + FormatInt(port, 10)
  }

  /** A dial address can be taken apart at its last colon: the port's decimal numeral behind
      it, and before it the host, in brackets exactly when it has colons of its own. */
  lemma AddressParts(host: string, port: nat)
    ensures var a := Address(host, port);
            var k := LastIndex(a, ':');
            && k >= 0
            && a[..k] == (if ':' in host then "[" + host + "]" else host)
            && IsNumeral(a[k + 1..], 10) && ValueOf(a[k + 1..], 10) == port
  {
    FormatNatValue(port, 10);
    DecimalHasNoColon(port);
    AddressForm(host, port);
    LastColon(if ':' in host then "[" + host + "]" else host, FormatNat(port, 10));
  }

  lemma DecimalHasNoColon(port: nat)
    ensures ':' !in FormatNat(port, 10)
  {
    FormatNatValue(port, 10);
    var digits := FormatNat(port, 10);
    forall i | 0 <= i < |digits|
      ensures digits[i] != ':'
    {
      assert DigitValue(digits[i]) >= 0;
    }
  }

  lemma AddressForm(host: string, port: nat)
    ensures Address(host, port) == (if ':' in host then "[" + host + "]" else host) + ":" + FormatNat(port, 10)
  {
    assert "]:" == "]" + ":";
  }

  lemma LastColon(front: string, digits: string)
    requires ':' !in digits
    ensures var a := front + ":" + digits;
            LastIndex(a, ':') == |front| && a[..|front|] == front && a[|front| + 1..] == digits
  {
    var a := front + ":" + digits;
    assert a[|front|] == ':';
    forall i | |front| < i < |a|
      ensures a[i] != ':'
    {
      assert a[i] == digits[i - |front| - 1];
    }
  }

  // ---------- One channel on its own ----------

  datatype Outcome = BadPayload | NoGrant | AcceptFailed(grant: Grant) | DialFailed(grant: Grant) | Proxied(grant: Grant)

  /** Clock readings and network outcomes met by one channel. */
  datatype Network = Network(validatedAt: int, acceptOk: bool, dialOk: bool, connectedAt: int, closedAt: int)

  /** The destination of a channel. A request is given by what its payload decodes to. */
  datatype Target = Target(host: string, port: nat)

  method HandleDirectTCPIP(
      grants: Grants.GrantStore, logger: Logger, user: string, payload: Option<Target>, sid: string, net: Network)
    returns (outcome: Outcome)
    modifies logger, logger.store
    ensures outcome.BadPayload? <==> payload.None?
    ensures payload.Some? ==>
              var allowed := Grants.AccessGrants(old(grants.State()), user, payload.value.host, net.validatedAt);
              if outcome.NoGrant? then allowed == {} else outcome.grant in allowed
    ensures outcome.Proxied? <==> !outcome.BadPayload? && !outcome.NoGrant? && net.acceptOk && net.dialOk
    ensures !outcome.Proxied? ==>
              logger.sessionStarts == old(logger.sessionStarts) && logger.store.events == old(logger.store.events)
    ensures outcome.Proxied? ==>
              var address := Address(payload.value.host, payload.value.port);
              && logger.sessionStarts == old(logger.sessionStarts) - {sid}
              && logger.store.events == BoundedLog.Appended(BoundedLog.Appended(old(logger.store.events),
                   ConnectEvent(sid, outcome.grant.id, user, address, net.connectedAt), logger.store.limit),
                   DisconnectEvent(sid, outcome.grant.id, user, address, net.closedAt,
                     net.closedAt - net.connectedAt), logger.store.limit)
  {
    if payload.None? {
      return BadPayload;
    }
    var host, port := payload.value.host, payload.value.port;
    var grant := grants.ValidateAccess(user, host, net.validatedAt);
    if grant.None? {
      return NoGrant;
    }
    if !net.acceptOk {
      return AcceptFailed(grant.value);
    }
    if !net.dialOk {
      return DialFailed(grant.value);
    }
    var address := Address(host, port);
    logger.LogConnect(sid, grant.value.id, user, address, net.connectedAt);
    logger.LogDisconnect(sid, grant.value.id, user, address, net.closedAt);
    assert old(logger.sessionStarts)[sid := net.connectedAt] - {sid} == old(logger.sessionStarts) - {sid};
    outcome := Proxied(grant.value);
  }

  // ---------- All channels together ----------

  /** `Connecting` has recorded its start but not yet logged; `Ending` has dropped its start
      but not yet logged. */
  datatype Phase =
    | Arrived
    | Refused
    | Granted(grant: Grant)
    | Failed
    | Connecting(grant: Grant, sid: string, start: int)
    | Open(grant: Grant, sid: string, start: int)
    | Ending(grant: Grant, sid: string, start: int, end: int, duration: int)
    | Closed(grant: Grant, sid: string)

  datatype Channel = Channel(user: string, host: string, port: nat, phase: Phase)

  datatype State = State(
    store: Grants.Store,
    clock: int,
    channels: map<int, Channel>,
    starts: map<string, int>,
    log: seq<SessionEvent>)

  datatype Label =
    | Tick(dt: nat)
    | ChangeGrants(op: GrantRuns.Op)
    | Arrive(ch: int, user: string, host: string, port: nat)
    | Validate(ch: int, answer: Option<Grant>)
    | NetworkFails(ch: int)
    | Start(ch: int, sid: string)
    | LogConnect(ch: int)
    | Finish(ch: int)
    | LogDisconnect(ch: int)

  ghost predicate Enabled(st: State, l: Label) {
    match l
    case Tick(_) => true
    case ChangeGrants(_) => true
    case Arrive(ch, _, _, _) => ch !in st.channels
    case Validate(ch, answer) =>
      && ch in st.channels && st.channels[ch].phase.Arrived?
      && var candidates := Grants.AccessGrants(st.store, st.channels[ch].user, st.channels[ch].host, st.clock);
         if answer.Some? then answer.value in candidates else candidates == {}
    case NetworkFails(ch) => ch in st.channels && st.channels[ch].phase.Granted?
    case Start(ch, _) => ch in st.channels && st.channels[ch].phase.Granted?
    case LogConnect(ch) => ch in st.channels && st.channels[ch].phase.Connecting?
    case Finish(ch) => ch in st.channels && st.channels[ch].phase.Open?
    case LogDisconnect(ch) => ch in st.channels && st.channels[ch].phase.Ending?
  }

  function Moved(st: State, ch: int, phase: Phase): map<int, Channel>
    requires ch in st.channels
  {
    st.channels[ch := st.channels[ch].(phase := phase)]
  }

  ghost function Next(st: State, l: Label): State
    requires Enabled(st, l)
  {
    match l
    case Tick(dt) => st.(clock := st.clock + dt)
    case ChangeGrants(op) => st.(store := GrantRuns.Step(st.store, GrantRuns.Event(st.clock, op)))
    case Arrive(ch, user, host, port) => st.(channels := st.channels[ch := Channel(user, host, port, Arrived)])
    case Validate(ch, answer) =>
      st.(channels := Moved(st, ch, if answer.Some? then Granted(answer.value) else Refused))
    case NetworkFails(ch) => st.(channels := Moved(st, ch, Failed))
    case Start(ch, sid) =>
      st.(channels := Moved(st, ch, Connecting(st.channels[ch].phase.grant, sid, st.clock)),
          starts := st.starts[sid := st.clock])
    case LogConnect(ch) =>
      var c := st.channels[ch];
      var p := c.phase;
      st.(channels := Moved(st, ch, Open(p.grant, p.sid, p.start)),
          log := st.log + [ConnectEvent(p.sid, p.grant.id, c.user, Address(c.host, c.port), p.start)])
    case Finish(ch) =>
      var p := st.channels[ch].phase;
      st.(channels := Moved(st, ch, Ending(p.grant, p.sid, p.start, st.clock, Elapsed(st.starts, p.sid, st.clock))),
          starts := st.starts - {p.sid})
    case LogDisconnect(ch) =>
      var c := st.channels[ch];
      var p := c.phase;
      st.(channels := Moved(st, ch, Closed(p.grant, p.sid)),
          log := st.log + [DisconnectEvent(p.sid, p.grant.id, c.user, Address(c.host, c.port), p.end, p.duration)])
  }

  /** Where a run begins: no channel yet, over a grant store that is empty or was loaded from
      its file. */
  ghost predicate Fresh(s0: State) {
    && Grants.KeyedById(s0.store.grants) && s0.store.counter >= 0
    && s0.channels == map[] && s0.starts == map[] && s0.log == []
  }

  ghost predicate IsRun(s0: State, ls: seq<Label>)
    decreases |ls|, 0
  {
    if ls == [] then Fresh(s0) else (IsRun(s0, ls[..|ls| - 1]) && Enabled(After(s0, ls[..|ls| - 1]), ls[|ls| - 1]))
  }

  /** The state that a run ends in. */
  ghost function After(s0: State, ls: seq<Label>): State
    requires IsRun(s0, ls)
    decreases |ls|, 1
  {
    if ls == [] then s0 else Next(After(s0, ls[..|ls| - 1]), ls[|ls| - 1])
  }

  lemma {:induction false} PrefixIsRun(s0: State, ls: seq<Label>, k: nat)
    requires IsRun(s0, ls) && k <= |ls|
    ensures IsRun(s0, ls[..k])
  {
    if k < |ls| {
      PrefixIsRun(s0, ls[..|ls| - 1], k);
      assert ls[..|ls| - 1][..k] == ls[..k];
    } else {
      assert ls[..k] == ls;
    }
  }

  // ---------- What a state is, read off the history ----------

  /** The clock is where the run began, plus every tick since. */
  function ClockAfter(from: int, ls: seq<Label>): int {
    if ls == [] then from
    else ClockAfter(from, ls[..|ls| - 1]) + if ls[|ls| - 1].Tick? then ls[|ls| - 1].dt else 0
  }

  /** Every change of the grants, at the clock it was made. */
  function GrantEvents(from: int, ls: seq<Label>): seq<GrantRuns.Event> {
    if ls == [] then []
    else
      var l, before := ls[|ls| - 1], ls[..|ls| - 1];
      GrantEvents(from, before) + if l.ChangeGrants? then [GrantRuns.Event(ClockAfter(from, before), l.op)] else []
  }

  /** In every interleaving the clock is the sum of the ticks, and the grants are those that
      the changes alone, in their order and at their clocks, make. */
  lemma {:induction false} StoreFollowsChanges(s0: State, ls: seq<Label>)
    requires IsRun(s0, ls)
    ensures After(s0, ls).clock == ClockAfter(s0.clock, ls)
    ensures After(s0, ls).store == GrantRuns.Exec(s0.store, GrantEvents(s0.clock, ls))
    decreases |ls|
  {
    if ls != [] {
      var l, before := ls[|ls| - 1], ls[..|ls| - 1];
      StoreFollowsChanges(s0, before);
      if l.ChangeGrants? {
        var e := GrantRuns.Event(ClockAfter(s0.clock, before), l.op);
        GrantRuns.ExecAppend(s0.store, GrantEvents(s0.clock, before), [e]);
        var s := After(s0, before).store;
        assert [e][1..] == [] && GrantRuns.Exec(s, [e]) == GrantRuns.Exec(GrantRuns.Step(s, e), []);
      } else {
        assert GrantEvents(s0.clock, ls) == GrantEvents(s0.clock, before);
      }
    }
  }

  /** A channel's user, host and port are those it arrived with. */
  lemma {:induction false} ChannelArrived(s0: State, ls: seq<Label>, ch: int) returns (a: nat)
    requires IsRun(s0, ls) && ch in After(s0, ls).channels
    ensures a < |ls|
    ensures var c := After(s0, ls).channels[ch]; ls[a] == Arrive(ch, c.user, c.host, c.port)
    decreases |ls|
  {
    var before, l := ls[..|ls| - 1], ls[|ls| - 1];
    if ch in After(s0, before).channels {
      a := ChannelArrived(s0, before, ch);
      assert before[a] == ls[a];
    } else {
      a := |ls| - 1;
    }
  }

  /** A session about to be logged, or under way, has the identifier it was started with, and
      its start time is the clock of that step. */
  lemma {:induction false} SessionStartedAt(s0: State, ls: seq<Label>, ch: int) returns (j: nat)
    requires IsRun(s0, ls) && ch in After(s0, ls).channels
    requires var p := After(s0, ls).channels[ch].phase; p.Connecting? || p.Open? || p.Ending?
    ensures j < |ls|
    ensures var p := After(s0, ls).channels[ch].phase;
            ls[j] == Start(ch, p.sid) && p.start == ClockAfter(s0.clock, ls[..j])
    decreases |ls|
  {
    var n := |ls| - 1;
    var before, l := ls[..n], ls[n];
    if l.Start? && l.ch == ch {
      j := n;
      StoreFollowsChanges(s0, before);
    } else {
      j := SessionStartedAt(s0, before, ch);
      assert before[..j] == ls[..j] && before[j] == ls[j];
    }
  }

  /** A session that has ended was finished at the time it is logged for. */
  lemma {:induction false} SessionFinishedAt(s0: State, ls: seq<Label>, ch: int) returns (j: nat)
    requires IsRun(s0, ls) && ch in After(s0, ls).channels && After(s0, ls).channels[ch].phase.Ending?
    ensures j < |ls| && ls[j] == Finish(ch)
    ensures After(s0, ls).channels[ch].phase.end == ClockAfter(s0.clock, ls[..j])
    decreases |ls|
  {
    var n := |ls| - 1;
    var before, l := ls[..n], ls[n];
    if l == Finish(ch) {
      j := n;
      StoreFollowsChanges(s0, before);
    } else {
      j := SessionFinishedAt(s0, before, ch);
      assert before[..j] == ls[..j] && before[j] == ls[j];
    }
  }

  /** What is logged of a session carries the identifier that it was started with, and the
      clock of its start, at step `j`, or of its end, at step `f`. */
  lemma ConnectTime(s0: State, ls: seq<Label>, m: nat) returns (j: nat)
    requires IsRun(s0, ls) && m < |ls| && ls[m].LogConnect?
    ensures IsRun(s0, ls[..m]) && IsRun(s0, ls[..m + 1])
    ensures |After(s0, ls[..m + 1]).log| == |After(s0, ls[..m]).log| + 1
    ensures var e := After(s0, ls[..m + 1]).log[|After(s0, ls[..m]).log|];
            j < m && ls[j] == Start(ls[m].ch, e.sessionId) && e.timestamp == ClockAfter(s0.clock, ls[..j])
  {
    LoggingStep(s0, ls, m);
    j := SessionStartedAt(s0, ls[..m], ls[m].ch);
    assert ls[..m][..j] == ls[..j] && ls[..m][j] == ls[j];
  }

  lemma DisconnectTime(s0: State, ls: seq<Label>, m: nat) returns (j: nat, f: nat)
    requires IsRun(s0, ls) && m < |ls| && ls[m].LogDisconnect?
    ensures IsRun(s0, ls[..m]) && IsRun(s0, ls[..m + 1])
    ensures |After(s0, ls[..m + 1]).log| == |After(s0, ls[..m]).log| + 1
    ensures var e := After(s0, ls[..m + 1]).log[|After(s0, ls[..m]).log|];
            && j < m && ls[j] == Start(ls[m].ch, e.sessionId)
            && f < m && ls[f] == Finish(ls[m].ch) && e.timestamp == ClockAfter(s0.clock, ls[..f])
  {
    LoggingStep(s0, ls, m);
    j := SessionStartedAt(s0, ls[..m], ls[m].ch);
    f := SessionFinishedAt(s0, ls[..m], ls[m].ch);
    assert ls[..m][j] == ls[j] && ls[..m][..f] == ls[..f] && ls[..m][f] == ls[f];
  }

  lemma LoggingStep(s0: State, ls: seq<Label>, m: nat)
    requires IsRun(s0, ls) && m < |ls|
    ensures IsRun(s0, ls[..m]) && IsRun(s0, ls[..m + 1])
    ensures Enabled(After(s0, ls[..m]), ls[m]) && After(s0, ls[..m + 1]) == Next(After(s0, ls[..m]), ls[m])
  {
    PrefixIsRun(s0, ls, m);
    PrefixIsRun(s0, ls, m + 1);
    assert ls[..m + 1][..m] == ls[..m];
  }

  // ---------- Every connect was validated ----------

  /** Step `k` of the run validated this channel with this grant: in the state it was taken
      in the grant was stored under its identifier, unexpired, held by the channel's user,
      and its target matched the channel's host. */
  ghost predicate ValidatedAt(s0: State, ls: seq<Label>, k: nat, ch: int, g: Grant) {
    && k < |ls| && ls[k] == Validate(ch, Some(g)) && IsRun(s0, ls[..k])
    && var st := After(s0, ls[..k]);
       && ch in st.channels
       && g.id in st.store.grants && st.store.grants[g.id] == g
       && st.clock <= g.expiresAt
       && g.principal == st.channels[ch].user && (g.target == "*" || g.target == st.channels[ch].host)
  }

  /** And the channel still has the user, host and port it had then. */
  ghost predicate ValidatedAs(s0: State, ls: seq<Label>, k: nat, ch: int, c: Channel, g: Grant) {
    && ValidatedAt(s0, ls, k, ch, g)
    && After(s0, ls[..k]).channels[ch].(phase := c.phase) == c
  }

  predicate HasGrant(p: Phase) {
    p.Granted? || p.Connecting? || p.Open? || p.Ending? || p.Closed?
  }

  ghost predicate GrantInv(s0: State, ls: seq<Label>)
    requires IsRun(s0, ls)
  {
    var st := After(s0, ls);
    && Grants.KeyedById(st.store.grants)
    && forall ch :: ch in st.channels && HasGrant(st.channels[ch].phase) ==>
         exists k: nat :: ValidatedAs(s0, ls, k, ch, st.channels[ch], st.channels[ch].phase.grant)
  }

  lemma ValidatedStays(s0: State, ls: seq<Label>, k: nat, ch: int, c: Channel, c': Channel, g: Grant)
    requires ls != [] && ValidatedAs(s0, ls[..|ls| - 1], k, ch, c, g) && c.(phase := c'.phase) == c'
    ensures ValidatedAs(s0, ls, k, ch, c', g)
  {
    assert ls[..|ls| - 1][..k] == ls[..k];
  }

  lemma ValidationStep(s0: State, ls: seq<Label>)
    requires ls != [] && IsRun(s0, ls) && GrantInv(s0, ls[..|ls| - 1])
    requires ls[|ls| - 1].Validate? && ls[|ls| - 1].answer.Some?
    ensures var l := ls[|ls| - 1]; ValidatedAs(s0, ls, |ls| - 1, l.ch, After(s0, ls).channels[l.ch], l.answer.value)
  {
    var k := |ls| - 1;
    var l, st := ls[k], After(s0, ls[..k]);
    var id :| id in st.store.grants && st.store.grants[id] == l.answer.value;
  }

  /** Only a validation gives a channel its grant. */
  lemma GrantFromBefore(st: State, l: Label, ch: int)
    requires Enabled(st, l) && ch in Next(st, l).channels && HasGrant(Next(st, l).channels[ch].phase)
    requires !(l.Validate? && l.ch == ch)
    ensures ch in st.channels && HasGrant(st.channels[ch].phase)
    ensures var c, c' := st.channels[ch], Next(st, l).channels[ch];
            c.phase.grant == c'.phase.grant && c.(phase := c'.phase) == c'
  {
  }

  lemma GrantInvStep(s0: State, ls: seq<Label>, ch: int)
    requires ls != [] && IsRun(s0, ls) && GrantInv(s0, ls[..|ls| - 1])
    requires ch in After(s0, ls).channels && HasGrant(After(s0, ls).channels[ch].phase)
    ensures exists k: nat ::
              ValidatedAs(s0, ls, k, ch, After(s0, ls).channels[ch], After(s0, ls).channels[ch].phase.grant)
  {
    var before, l := ls[..|ls| - 1], ls[|ls| - 1];
    var c' := After(s0, ls).channels[ch];
    if l.Validate? && l.ch == ch {
      ValidationStep(s0, ls);
    } else {
      GrantFromBefore(After(s0, before), l, ch);
      var c := After(s0, before).channels[ch];
      var k: nat :| ValidatedAs(s0, before, k, ch, c, c.phase.grant);
      ValidatedStays(s0, ls, k, ch, c, c', c.phase.grant);
    }
  }

  lemma {:induction false} GrantInvRun(s0: State, ls: seq<Label>)
    requires IsRun(s0, ls)
    ensures GrantInv(s0, ls)
    decreases |ls|
  {
    if ls != [] {
      GrantInvRun(s0, ls[..|ls| - 1]);
      var st' := After(s0, ls);
      forall ch | ch in st'.channels && HasGrant(st'.channels[ch].phase)
        ensures exists k: nat :: ValidatedAs(s0, ls, k, ch, st'.channels[ch], st'.channels[ch].phase.grant)
      {
        GrantInvStep(s0, ls, ch);
      }
    }
  }

  /** Step `m` logged the event that is entry `i` of the log, for the channel validated at
      step `k`. */
  ghost predicate LoggedBy(s0: State, ls: seq<Label>, m: nat, k: nat, i: nat, e: SessionEvent) {
    && k < m < |ls| && ls[k].Validate? && ls[k].answer.Some? && ls[m] == LogConnect(ls[k].ch)
    && ValidatedAt(s0, ls, k, ls[k].ch, ls[k].answer.value)
    && IsRun(s0, ls[..m]) && |After(s0, ls[..m]).log| == i
    && var g, c := ls[k].answer.value, After(s0, ls[..k]).channels[ls[k].ch];
       e.kind == Connect && e.grantId == g.id && e.principal == c.user && e.target == Address(c.host, c.port)
  }

  /** Every step that logs a connect comes after the validation of its own channel, and logs
      the grant that this validation answered. */
  lemma LogConnectJustified(s0: State, ls: seq<Label>, m: nat) returns (k: nat)
    requires IsRun(s0, ls) && m < |ls| && ls[m].LogConnect?
    ensures IsRun(s0, ls[..m]) && IsRun(s0, ls[..m + 1])
    ensures var before, after := After(s0, ls[..m]).log, After(s0, ls[..m + 1]).log;
            && |after| == |before| + 1 && after[..|before|] == before
            && LoggedBy(s0, ls, m, k, |before|, after[|before|])
  {
    PrefixIsRun(s0, ls, m);
    PrefixIsRun(s0, ls, m + 1);
    var before, ch := ls[..m], ls[m].ch;
    assert ls[..m + 1][..m] == before;
    GrantInvRun(s0, before);
    var c := After(s0, before).channels[ch];
    k :| ValidatedAs(s0, before, k, ch, c, c.phase.grant);
    assert before[..k] == ls[..k];
    assert ValidatedAs(s0, ls, k, ch, c, c.phase.grant);
  }

  /** In every interleaving, each connect event was logged by a step that came after the
      validation of the same channel, and names the grant that this validation found stored,
      unexpired, held by that user, and matching the target. */
  lemma {:induction false} ConnectsAreValidated(s0: State, ls: seq<Label>, i: nat) returns (m: nat, k: nat)
    requires IsRun(s0, ls) && i < |After(s0, ls).log| && After(s0, ls).log[i].kind == Connect
    ensures LoggedBy(s0, ls, m, k, i, After(s0, ls).log[i])
    decreases |ls|
  {
    var n := |ls| - 1;
    var before := ls[..n];
    LogStep(After(s0, before), ls[n]);
    if i < |After(s0, before).log| {
      m, k := ConnectsAreValidated(s0, before, i);
      LoggedByStays(s0, ls, m, k, i, After(s0, ls).log[i]);
    } else {
      m := n;
      k := LogConnectJustified(s0, ls, n);
      assert ls[..n + 1] == ls;
    }
  }

  /** A step keeps every log entry, and adds a connect entry only if it logs one. */
  lemma LogStep(st: State, l: Label)
    requires Enabled(st, l)
    ensures var log' := Next(st, l).log;
            && |st.log| <= |log'| <= |st.log| + 1 && log'[..|st.log|] == st.log
            && (|log'| > |st.log| && log'[|st.log|].kind == Connect ==> l.LogConnect?)
  {
  }

  lemma LoggedByStays(s0: State, ls: seq<Label>, m: nat, k: nat, i: nat, e: SessionEvent)
    requires ls != [] && LoggedBy(s0, ls[..|ls| - 1], m, k, i, e)
    ensures LoggedBy(s0, ls, m, k, i, e)
  {
    var before := ls[..|ls| - 1];
    assert before[..m] == ls[..m] && before[..k] == ls[..k];
  }

  // ---------- Validation is not repeated ----------

  /** Step `i` deletes this grant's identifier, or cleans up after the grant's expiry. */
  ghost predicate EndsAt(s0: State, ls: seq<Label>, i: nat, g: Grant) {
    && i < |ls| && ls[i].ChangeGrants? && IsRun(s0, ls[..i])
    && GrantRuns.Ends(GrantRuns.Event(After(s0, ls[..i]).clock, ls[i].op), g, g.id)
  }

  /** The identifier was issued by this run's counter, or is none that the store generates
      once the run has begun: one of an earlier process, or one written by hand. */
  ghost predicate Accounted(s0: State, st: State, id: string) {
    GrantRuns.Issued(id, st.store.counter) || NeverGenerated(id, s0.clock)
  }

  ghost predicate NeverGenerated(id: string, from: int) {
    forall t, c :: t >= from && c >= 1 ==> id != Grants.GenerateGrantID(t, c)
  }

  lemma EarlierNeverGenerated(t: int, c: int, from: int)
    requires t < from && c >= 1
    ensures NeverGenerated(Grants.GenerateGrantID(t, c), from)
  {
    forall t', c' | t' >= from && c' >= 1
      ensures Grants.GenerateGrantID(t, c) != Grants.GenerateGrantID(t', c')
    {
      if Grants.GenerateGrantID(t, c) == Grants.GenerateGrantID(t', c') {
        Grants.GrantIDInjective(t, c, t', c');
      }
    }
  }

  /** Every stored identifier is accounted for: trivially so for an empty store. */
  ghost predicate AllAccounted(s0: State, st: State) {
    && s0.clock <= st.clock && st.store.counter >= 0
    && forall id :: id in st.store.grants ==> Accounted(s0, st, id)
  }

  lemma NotIssuedAgain(s0: State, st: State, id: string)
    requires AllAccounted(s0, st) && Accounted(s0, st, id)
    ensures id != Grants.GenerateGrantID(st.clock, st.store.counter + 1)
  {
    if GrantRuns.Issued(id, st.store.counter) {
      GrantRuns.FreshIdentifier(st.store, id, st.clock);
    }
  }

  lemma AccountedStays(s0: State, st: State, l: Label, id: string)
    requires Enabled(st, l) && st.store.counter >= 0 && Accounted(s0, st, id)
    ensures Accounted(s0, Next(st, l), id)
  {
    if GrantRuns.Issued(id, st.store.counter) {
      GrantRuns.IssuedStays(id, st.store.counter, Next(st, l).store.counter);
    }
  }

  lemma AccountedStep(s0: State, st: State, l: Label)
    requires Enabled(st, l) && AllAccounted(s0, st)
    ensures AllAccounted(s0, Next(st, l))
  {
    var st' := Next(st, l);
    forall id | id in st'.store.grants
      ensures Accounted(s0, st', id)
    {
      if id in st.store.grants {
        AccountedStays(s0, st, l, id);
      } else {
        assert id == Grants.GenerateGrantID(st.clock, st'.store.counter);
      }
    }
  }

  /** What one step does to a stored grant, or to one that is gone for good. */
  lemma StoredStep(s0: State, st: State, l: Label, g: Grant)
    requires Enabled(st, l) && AllAccounted(s0, st) && Accounted(s0, st, g.id)
    requires g.id in st.store.grants ==> st.store.grants[g.id] == g
    ensures var grants := Next(st, l).store.grants;
            var ends := l.ChangeGrants? && GrantRuns.Ends(GrantRuns.Event(st.clock, l.op), g, g.id);
            && (g.id in grants <==> g.id in st.store.grants && !ends)
            && (g.id in grants ==> grants[g.id] == g)
  {
    NotIssuedAgain(s0, st, g.id);
  }

  lemma {:induction false} AccountedRun(s0: State, ls: seq<Label>)
    requires IsRun(s0, ls) && AllAccounted(s0, s0)
    ensures AllAccounted(s0, After(s0, ls))
    decreases |ls|
  {
    if ls != [] {
      AccountedRun(s0, ls[..|ls| - 1]);
      AccountedStep(s0, After(s0, ls[..|ls| - 1]), ls[|ls| - 1]);
    }
  }

  /** No step from `k` on ends the grant. */
  ghost predicate Unended(s0: State, ls: seq<Label>, k: nat, g: Grant) {
    forall i :: k <= i < |ls| ==> !EndsAt(s0, ls, i, g)
  }

  lemma UnendedPrefix(s0: State, ls: seq<Label>, k: nat, m: nat, g: Grant)
    requires k <= m <= |ls|
    ensures Unended(s0, ls[..m], k, g) <==> forall i :: k <= i < m ==> !EndsAt(s0, ls, i, g)
  {
    forall i | k <= i < m
      ensures EndsAt(s0, ls, i, g) <==> EndsAt(s0, ls[..m], i, g)
    {
      assert ls[..m][..i] == ls[..i];
    }
  }

  predicate StoredIff(st: State, g: Grant, cond: bool) {
    && (g.id in st.store.grants <==> cond)
    && (g.id in st.store.grants ==> st.store.grants[g.id] == g)
  }

  /** The last step, on its own. */
  lemma StoredAtLast(s0: State, ls: seq<Label>, k: nat, g: Grant)
    requires ls != [] && IsRun(s0, ls) && k < |ls|
    requires var before := ls[..|ls| - 1];
             && AllAccounted(s0, After(s0, before)) && Accounted(s0, After(s0, before), g.id)
             && StoredIff(After(s0, before), g, Unended(s0, before, k, g))
    ensures Accounted(s0, After(s0, ls), g.id)
    ensures StoredIff(After(s0, ls), g, Unended(s0, ls, k, g))
  {
    var n := |ls| - 1;
    var st, l := After(s0, ls[..n]), ls[n];
    AccountedStays(s0, st, l, g.id);
    StoredStep(s0, st, l, g);
    UnendedLast(s0, ls, k, g);
  }

  lemma UnendedLast(s0: State, ls: seq<Label>, k: nat, g: Grant)
    requires k < |ls|
    ensures Unended(s0, ls, k, g) <==> Unended(s0, ls[..|ls| - 1], k, g) && !EndsAt(s0, ls, |ls| - 1, g)
  {
    UnendedPrefix(s0, ls, k, |ls| - 1, g);
  }

  /** A grant stored after step `k` is still stored at the end exactly when no step from `k`
      on deletes it or cleans up after its expiry. */
  lemma {:induction false} StillStoredExactly(s0: State, ls: seq<Label>, k: nat, g: Grant)
    requires IsRun(s0, ls) && AllAccounted(s0, s0) && k <= |ls| && IsRun(s0, ls[..k])
    requires StoredIff(After(s0, ls[..k]), g, true)
    ensures Accounted(s0, After(s0, ls), g.id)
    ensures StoredIff(After(s0, ls), g, Unended(s0, ls, k, g))
    decreases |ls|
  {
    if k == |ls| {
      assert ls[..k] == ls;
      AccountedRun(s0, ls);
    } else {
      var before := ls[..|ls| - 1];
      assert before[..k] == ls[..k];
      StillStoredExactly(s0, before, k, g);
      AccountedRun(s0, before);
      StoredAtLast(s0, ls, k, g);
    }
  }

  /** Access is not checked again after validation. The grant that a connect logs is still
      stored when it is logged exactly if no step between the two deletes it or cleans up
      after its expiry; the connect is logged either way. */
  lemma ConnectAfterRevocation(s0: State, ls: seq<Label>, m: nat) returns (k: nat)
    requires IsRun(s0, ls) && AllAccounted(s0, s0) && m < |ls| && ls[m].LogConnect?
    ensures IsRun(s0, ls[..m]) && IsRun(s0, ls[..m + 1])
    ensures var before, after := After(s0, ls[..m]).log, After(s0, ls[..m + 1]).log;
            |after| == |before| + 1 && LoggedBy(s0, ls, m, k, |before|, after[|before|])
    ensures ls[k].answer.value.id in After(s0, ls[..m]).store.grants
       <==> forall i :: k <= i < m ==> !EndsAt(s0, ls, i, ls[k].answer.value)
  {
    k := LogConnectJustified(s0, ls, m);
    var before, g := ls[..m], ls[k].answer.value;
    assert before[..k] == ls[..k];
    StillStoredExactly(s0, before, k, g);
    UnendedPrefix(s0, ls, k, m, g);
  }

  const INITIAL := State(Grants.EMPTY, 0, map[], map[], [])

  const ALICE_GRANT: Grant := Grants.NewGrant(Grants.EMPTY, "alice", "*", "api", 10, 0)

  lemma ValidatedRun() returns (ls: seq<Label>)
    ensures var g := ALICE_GRANT;
            && IsRun(INITIAL, ls)
            && After(INITIAL, ls) == State(Grants.Store(map[g.id := g], 1), 0,
                 map[1 := Channel("alice", "web", 22, Granted(g))], map[], [])
  {
    var s0, g := INITIAL, ALICE_GRANT;
    var r1, s1 := Extend(s0, [], ChangeGrants(GrantRuns.Add("alice", "*", "api", 10)));
    assert s1.store.grants == map[g.id := g];
    var r2, s2 := Extend(s0, r1, Arrive(1, "alice", "web", 22));
    assert g in Grants.AccessGrants(s2.store, "alice", "web", 0) by {
      assert g.id in s2.store.grants && Grants.Allows(s2.store.grants[g.id], "alice", "web", 0);
    }
    var r3, s3 := Extend(s0, r2, Validate(1, Some(g)));
    ls := r3;
  }

  /** Such a run exists: the grant is deleted between the two, and the connect logged. */
  lemma RevokedBeforeConnect()
    ensures exists ls :: IsRun(INITIAL, ls) && After(INITIAL, ls).store.grants == map[] && |After(INITIAL, ls).log| == 1
              && After(INITIAL, ls).log[0].kind == Connect && After(INITIAL, ls).log[0].grantId == ALICE_GRANT.id
  {
    var s0, g := INITIAL, ALICE_GRANT;
    var r3 := ValidatedRun();
    var r4, s4 := Extend(s0, r3, ChangeGrants(GrantRuns.Delete(g.id)));
    assert s4.store.grants == map[];
    var r5, s5 := Extend(s0, r4, Start(1, "s"));
    var r6, s6 := Extend(s0, r5, LogConnect(1));
  }

  lemma Extend(s0: State, ls: seq<Label>, l: Label) returns (longer: seq<Label>, st: State)
    requires IsRun(s0, ls) && Enabled(After(s0, ls), l)
    ensures IsRun(s0, longer) && After(s0, longer) == st == Next(After(s0, ls), l)
  {
    longer := ls + [l];
    assert longer[..|longer| - 1] == ls;
    st := Next(After(s0, ls), l);
  }

  // ---------- Sessions ----------

  /** Session identifiers are not reused. */
  ghost predicate DistinctSessions(ls: seq<Label>) {
    forall i, j :: 0 <= i < |ls| && 0 <= j < |ls| && ls[i].Start? && ls[j].Start? && ls[i].sid == ls[j].sid ==> i == j
  }

  predicate HasSession(p: Phase) {
    p.Connecting? || p.Open? || p.Ending? || p.Closed?
  }

  predicate InSession(c: Channel, sid: string) {
    (c.phase.Connecting? || c.phase.Open?) && c.phase.sid == sid
  }

  ghost predicate StartedBy(ls: seq<Label>, ch: int, sid: string) {
    exists i :: 0 <= i < |ls| && ls[i] == Start(ch, sid)
  }

  predicate StartRecorded(starts: map<string, int>, p: Phase) {
    p.Connecting? || p.Open? ==> p.sid in starts && starts[p.sid] == p.start
  }

  /** `sessionStarts` holds exactly the sessions between their start and their end. */
  ghost predicate StartsExact(st: State) {
    && (forall sid :: sid in st.starts <==> exists ch :: ch in st.channels && InSession(st.channels[ch], sid))
    && (forall ch :: ch in st.channels ==> StartRecorded(st.starts, st.channels[ch].phase))
  }

  ghost predicate SessionsOwned(s0: State, ls: seq<Label>)
    requires IsRun(s0, ls)
  {
    forall ch :: ch in After(s0, ls).channels && HasSession(After(s0, ls).channels[ch].phase) ==>
      StartedBy(ls, ch, After(s0, ls).channels[ch].phase.sid)
  }

  lemma {:induction false} SessionsOwnedRun(s0: State, ls: seq<Label>)
    requires IsRun(s0, ls)
    ensures SessionsOwned(s0, ls)
    decreases |ls|
  {
    if ls != [] {
      var n := |ls| - 1;
      var before, l := ls[..n], ls[n];
      SessionsOwnedRun(s0, before);
      var st, st' := After(s0, before), After(s0, ls);
      forall ch | ch in st'.channels && HasSession(st'.channels[ch].phase)
        ensures StartedBy(ls, ch, st'.channels[ch].phase.sid)
      {
        if l.Start? && l.ch == ch {
          assert ls[n] == Start(ch, l.sid);
        } else {
          assert StartedBy(before, ch, st.channels[ch].phase.sid);
          var i :| 0 <= i < |before| && before[i] == Start(ch, st.channels[ch].phase.sid);
          assert ls[i] == before[i];
        }
      }
    }
  }

  /** Two channels never share a session identifier. */
  lemma SessionsDistinct(s0: State, ls: seq<Label>, a: int, b: int)
    requires IsRun(s0, ls) && DistinctSessions(ls)
    requires a in After(s0, ls).channels && HasSession(After(s0, ls).channels[a].phase)
    requires b in After(s0, ls).channels && HasSession(After(s0, ls).channels[b].phase)
    requires After(s0, ls).channels[a].phase.sid == After(s0, ls).channels[b].phase.sid
    ensures a == b
  {
    SessionsOwnedRun(s0, ls);
    var sid := After(s0, ls).channels[a].phase.sid;
    var i :| 0 <= i < |ls| && ls[i] == Start(a, sid);
    var j :| 0 <= j < |ls| && ls[j] == Start(b, sid);
  }

  lemma DistinctPrefix(ls: seq<Label>)
    requires ls != [] && DistinctSessions(ls)
    ensures DistinctSessions(ls[..|ls| - 1])
  {
    var before := ls[..|ls| - 1];
    assert forall i :: 0 <= i < |before| ==> before[i] == ls[i];
  }

  /** With distinct session identifiers, `sessionStarts` is exactly the open sessions with
      their start times, after every step of every run. */
  lemma {:induction false} SessionStartsExact(s0: State, ls: seq<Label>)
    requires IsRun(s0, ls) && DistinctSessions(ls)
    ensures StartsExact(After(s0, ls))
    decreases |ls|
  {
    if ls != [] {
      var before, l := ls[..|ls| - 1], ls[|ls| - 1];
      DistinctPrefix(ls);
      SessionStartsExact(s0, before);
      var st, st' := After(s0, before), After(s0, ls);
      if l.Start? || l.Finish? {
        var sid := st'.channels[l.ch].phase.sid;
        forall ch | ch in st'.channels && HasSession(st'.channels[ch].phase) && st'.channels[ch].phase.sid == sid
          ensures ch == l.ch
        {
          SessionsDistinct(s0, ls, ch, l.ch);
        }
      }
      forall s
        ensures s in st'.starts <==> exists ch :: ch in st'.channels && InSession(st'.channels[ch], s)
      {
        StartsStep(st, l, s);
      }
      forall ch | ch in st'.channels
        ensures StartRecorded(st'.starts, st'.channels[ch].phase)
      {
        RecordedStep(st, l, ch);
      }
    }
  }

  lemma RecordedStep(st: State, l: Label, ch: int)
    requires Enabled(st, l) && ch in Next(st, l).channels
    requires ch in st.channels ==> StartRecorded(st.starts, st.channels[ch].phase)
    requires ((l.Start? || l.Finish?) && HasSession(Next(st, l).channels[ch].phase)
              && Next(st, l).channels[ch].phase.sid == Next(st, l).channels[l.ch].phase.sid) ==> ch == l.ch
    ensures StartRecorded(Next(st, l).starts, Next(st, l).channels[ch].phase)
  {
  }

  lemma StartsStep(st: State, l: Label, s: string)
    requires Enabled(st, l) && StartsExact(st)
    requires l.Start? || l.Finish? ==>
               var st' := Next(st, l);
               forall ch ::
                 (ch in st'.channels && HasSession(st'.channels[ch].phase)
                  && st'.channels[ch].phase.sid == st'.channels[l.ch].phase.sid) ==> ch == l.ch
    ensures var st' := Next(st, l);
            s in st'.starts <==> exists ch :: ch in st'.channels && InSession(st'.channels[ch], s)
  {
    var st' := Next(st, l);
    if ch :| ch in st.channels && InSession(st.channels[ch], s) {
      if !(l.Finish? && s == st.channels[l.ch].phase.sid) {
        assert ch in st'.channels && InSession(st'.channels[ch], s);
      }
    }
    if ch :| ch in st'.channels && InSession(st'.channels[ch], s) {
      if !(l.Start? && ch == l.ch) {
        assert ch in st.channels && InSession(st.channels[ch], s);
      }
    }
    if l.Start? && s == l.sid {
      assert InSession(st'.channels[l.ch], s);
    }
  }

  // ---------- Each disconnect follows its connect ----------

  /** Entry `i` of the log is this session's connect, stamped with its start. */
  predicate ConnectedAt(log: seq<SessionEvent>, i: nat, c: Channel, start: int)
    requires HasGrant(c.phase) && HasSession(c.phase)
  {
    i < |log| && log[i] == ConnectEvent(c.phase.sid, c.phase.grant.id, c.user, Address(c.host, c.port), start)
  }

  /** Entry `j` is preceded by the connect of the same session, and carries the clock
      difference between the two as its duration. */
  ghost predicate FollowsConnect(log: seq<SessionEvent>, j: nat)
    requires j < |log|
  {
    exists i: nat :: i < j && IsConnectOf(log[i], log[j])
  }

  predicate IsConnectOf(c: SessionEvent, d: SessionEvent) {
    && c.kind == Connect && d.kind == Disconnect
    && c.sessionId == d.sessionId && c.grantId == d.grantId && c.principal == d.principal && c.target == d.target
    && d.data == Duration(d.timestamp - c.timestamp) && c.timestamp <= d.timestamp
  }

  /** A session's start is not in the future, and an ended one has its exact length. */
  predicate Timed(p: Phase, clock: int) {
    && (p.Connecting? || p.Open? ==> p.start <= clock)
    && (p.Ending? ==> p.duration == p.end - p.start && p.start <= p.end)
  }

  ghost predicate LogInv(st: State) {
    && (forall ch :: ch in st.channels ==> Timed(st.channels[ch].phase, st.clock))
    && (forall ch :: ch in st.channels && LoggedOpen(st.channels[ch].phase) ==>
          exists i: nat :: ConnectedAt(st.log, i, st.channels[ch], st.channels[ch].phase.start))
    && (forall j: nat :: j < |st.log| && st.log[j].kind == Disconnect ==> FollowsConnect(st.log, j))
  }

  lemma FollowsStays(log: seq<SessionEvent>, e: SessionEvent, j: nat)
    requires j < |log| && FollowsConnect(log, j)
    ensures FollowsConnect(log + [e], j)
  {
    var i: nat :| i < j && IsConnectOf(log[i], log[j]);
    assert (log + [e])[i] == log[i] && (log + [e])[j] == log[j];
  }

  predicate LoggedOpen(p: Phase) {
    p.Open? || p.Ending?
  }

  lemma TimedStep(st: State, l: Label, ch: int)
    requires Enabled(st, l) && ch in Next(st, l).channels
    requires ch in st.channels ==> Timed(st.channels[ch].phase, st.clock)
    requires l == Finish(ch) ==> var p := st.channels[ch].phase; p.sid in st.starts && st.starts[p.sid] == p.start
    ensures Timed(Next(st, l).channels[ch].phase, Next(st, l).clock)
  {
  }

  lemma ConnectedStep(st: State, l: Label, ch: int)
    requires Enabled(st, l) && LogInv(st)
    requires ch in Next(st, l).channels && LoggedOpen(Next(st, l).channels[ch].phase)
    ensures var st' := Next(st, l);
            exists i: nat :: ConnectedAt(st'.log, i, st'.channels[ch], st'.channels[ch].phase.start)
  {
    var st' := Next(st, l);
    if l.LogConnect? && l.ch == ch {
      assert ConnectedAt(st'.log, |st.log|, st'.channels[ch], st'.channels[ch].phase.start);
    } else {
      var i: nat :| ConnectedAt(st.log, i, st.channels[ch], st.channels[ch].phase.start);
      assert ConnectedAt(st'.log, i, st'.channels[ch], st'.channels[ch].phase.start);
    }
  }

  lemma FollowsStep(st: State, l: Label, j: nat)
    requires Enabled(st, l) && LogInv(st)
    requires j < |Next(st, l).log| && Next(st, l).log[j].kind == Disconnect
    ensures FollowsConnect(Next(st, l).log, j)
  {
    var st' := Next(st, l);
    if j < |st.log| {
      if |st'.log| > |st.log| {
        FollowsStays(st.log, st'.log[|st.log|], j);
        assert st'.log == st.log + [st'.log[|st.log|]];
      }
    } else {
      var c := st.channels[l.ch];
      var i: nat :| ConnectedAt(st.log, i, c, c.phase.start);
      assert IsConnectOf(st'.log[i], st'.log[j]);
    }
  }

  lemma LogInvStep(st: State, l: Label)
    requires Enabled(st, l) && StartsExact(st) && LogInv(st)
    ensures LogInv(Next(st, l))
  {
    var st' := Next(st, l);
    forall ch | ch in st'.channels
      ensures Timed(st'.channels[ch].phase, st'.clock)
    {
      TimedStep(st, l, ch);
    }
    forall ch | ch in st'.channels && LoggedOpen(st'.channels[ch].phase)
      ensures exists i: nat :: ConnectedAt(st'.log, i, st'.channels[ch], st'.channels[ch].phase.start)
    {
      ConnectedStep(st, l, ch);
    }
    forall j: nat | j < |st'.log| && st'.log[j].kind == Disconnect
      ensures FollowsConnect(st'.log, j)
    {
      FollowsStep(st, l, j);
    }
  }

  lemma {:induction false} LogInvRun(s0: State, ls: seq<Label>)
    requires IsRun(s0, ls) && DistinctSessions(ls)
    ensures LogInv(After(s0, ls))
    decreases |ls|
  {
    if ls != [] {
      var before := ls[..|ls| - 1];
      DistinctPrefix(ls);
      LogInvRun(s0, before);
      SessionStartsExact(s0, before);
      LogInvStep(After(s0, before), ls[|ls| - 1]);
    }
  }

  /** In every interleaving with distinct session identifiers, each disconnect follows the
      connect of the same session, grant, user and target, and its logged duration is the
      difference of the two clock readings. */
  lemma DisconnectsFollowConnects(s0: State, ls: seq<Label>, j: nat)
    requires IsRun(s0, ls) && DistinctSessions(ls)
    requires j < |After(s0, ls).log| && After(s0, ls).log[j].kind == Disconnect
    ensures FollowsConnect(After(s0, ls).log, j)
  {
    LogInvRun(s0, ls);
  }
}
