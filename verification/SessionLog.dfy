/** The bastion's session log: internal/bastion/logger.go. */
module SessionLog {
  import opened BoundedLog

  datatype EventKind = Connect | Disconnect | Command

  /** What an event carries beside its names; a duration is kept as nanoseconds. */
  datatype Data = NoData | Duration(nanos: int) | Text(command: string)

  datatype SessionEvent = SessionEvent(
    sessionId: string,
    grantId: string,
    principal: string,
    target: string,
    kind: EventKind,
    timestamp: int,
    data: Data)

  const DEFAULT_LOG_LIMIT: nat := 10000

  class LogStore {
    var events: seq<SessionEvent>
    const limit: nat

    constructor (requested: int)
      ensures events == [] && limit == if requested <= 0 then DEFAULT_LOG_LIMIT else requested
    {
      events := [];
      limit := if requested <= 0 then DEFAULT_LOG_LIMIT else requested;
    }

    method Add(event: SessionEvent)
      modifies this
      ensures events == Appended(old(events), event, limit)
    {
      events := events + [event];
      if |events| > limit {
        events := events[|events| - limit..];
      }
    }

    method List(requestedOffset: int, requestedLimit: int) returns (result: seq<SessionEvent>, total: nat)
      ensures result == Page(events, requestedOffset, requestedLimit) && total == |events|
    {
      total := |events|;
      var offset, limit := requestedOffset, requestedLimit;
      if offset < 0 {
        offset := 0;
      }
      if limit <= 0 {
        limit := total;
      }
      var start := offset;
      if start > total {
        start := total;
      }
      var end := start + limit;
      if end > total {
        end := total;
      }
      result := events[start..end];
    }
  }

  function ConnectEvent(sid: string, grantId: string, principal: string, target: string, now: int): SessionEvent {
    SessionEvent(sid, grantId, principal, target, Connect, now, NoData)
  }

  function DisconnectEvent(
    sid: string, grantId: string, principal: string, target: string, now: int, duration: int): SessionEvent
  {
    SessionEvent(sid, grantId, principal, target, Disconnect, now, Duration(duration))
  }

  /** Time since the recorded start, or 0 when none is recorded. */
  function Elapsed(starts: map<string, int>, sid: string, now: int): int {
    if sid in starts then now - starts[sid] else 0
  }

  class Logger {
    const store: LogStore
    var sessionStarts: map<string, int>

    constructor (logStore: LogStore)
      ensures store == logStore && sessionStarts == map[]
    {
      store, sessionStarts := logStore, map[];
    }

    method LogConnect(sid: string, grantId: string, principal: string, target: string, now: int)
      modifies this, store
      ensures sessionStarts == old(sessionStarts)[sid := now]
      ensures store.events == Appended(old(store.events), ConnectEvent(sid, grantId, principal, target, now), store.limit)
    {
      sessionStarts := sessionStarts[sid := now];
      store.Add(SessionEvent(sid, grantId, principal, target, Connect, now, NoData));
    }

    method LogDisconnect(sid: string, grantId: string, principal: string, target: string, now: int)
      modifies this, store
      ensures sessionStarts == old(sessionStarts) - {sid}
      ensures store.events == Appended(old(store.events),
                DisconnectEvent(sid, grantId, principal, target, now,
                  if sid in old(sessionStarts) then now - old(sessionStarts)[sid] else 0), store.limit)
    {
      var duration := 0;
      if sid in sessionStarts {
        duration := now - sessionStarts[sid];
        sessionStarts := sessionStarts - {sid};
      }
      assert sessionStarts == old(sessionStarts) - {sid};
      store.Add(SessionEvent(sid, grantId, principal, target, Disconnect, now, Duration(duration)));
    }

    method LogCommand(sid: string, grantId: string, principal: string, target: string, command: string, now: int)
      modifies store
      ensures store.events == Appended(old(store.events),
                SessionEvent(sid, grantId, principal, target, Command, now, Text(command)), store.limit)
    {
      store.Add(SessionEvent(sid, grantId, principal, target, Command, now, Text(command)));
    }
  }
}
