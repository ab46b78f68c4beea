/** The handlers and callbacks of the MCP endpoints as they run: each method is the code between
    two awaits, or one callback, and changes the limiter and the session flags in place. */
module McpServer {
  import opened McpSessions
  import L = McpRateLimit

  class Server {
    const limiter: L.McpRateLimiter
    var requests: map<nat, Request>
    /** History: the admitted opens and the latest time, as in the machine. */
    ghost var log: map<string, seq<int>>
    ghost var clock: int

    ghost function View(): State
      reads this, limiter, limiter.Records()
    {
      State(L.Run(limiter.View(), log, clock), requests)
    }

    /** Slots are conserved: this holds between any two segments. */
    ghost predicate Valid()
      reads this, limiter, limiter.Records()
    {
      limiter.Valid() && Invariant(limiter.config, View())
    }

    constructor (limiter: L.McpRateLimiter, clock: int)
      requires limiter.Valid() && limiter.View() == L.EMPTY
      ensures Valid() && this.limiter == limiter && View() == Start(clock)
    {
      this.limiter, requests, log, this.clock := limiter, map[], map[], clock;
      new;
      assert View() == Start(clock);
      StartInvariant(limiter.config, clock);
    }

    /** The count that the health endpoint shows: after any segments it is the number of slots
        whose closure is still to be called, and within the cap. */
    method TotalActive() returns (n: int)
      requires Valid()
      ensures n == |Unfired(View())| <= limiter.config.maxTotalSessions
    {
      n := limiter.totalActive;
    }

    /** The closure `releaseSlot` of a request. */
    method ReleaseSlot(id: nat)
      requires limiter.Valid() && id in requests
      modifies this`requests, limiter, limiter.Records()
      ensures limiter.Valid() && limiter.Records() <= old(limiter.Records())
      ensures View() == Fire(limiter.config, old(View()), id)
    {
      hide Invariant, L.Released;
      if requests[id].released {
        return;
      }
      requests := requests[id := requests[id].(released := true)];
      limiter.Release(requests[id].ip);
    }

    /** The first lines of `handleSse`, or those of `handleStreamableHttp` once it knows that it
        opens a session, up to the next await. */
    method Open(id: nat, kind: Kind, ip: string, now: int) returns (result: L.AcquireResult)
      requires Valid() && Enabled(View(), Arrive(id, kind, ip, now))
      modifies this, limiter, limiter.Records()
      ensures Valid() && fresh(limiter.Records() - old(limiter.Records()))
      ensures View() == Step(limiter.config, old(View()), Arrive(id, kind, ip, now))
      ensures result == L.Acquired(limiter.config, old(limiter.View()), ip, now).1
    {
      hide Invariant, L.Acquired;
      StepKeepsInvariant(limiter.config, View(), Arrive(id, kind, ip, now));
      result := limiter.Acquire(ip, now);
      clock := now;
      if result.Admitted? {
        log := log[ip := L.LogOf(old(View()).run, ip) + [now]];
        requests := requests[id := Admitted(kind, ip)];
      }
    }

    /** SSE only: authentication settles. On success the session is registered and both close
        callbacks are set to `cleanup`. */
    method Authenticated(id: nat, ok: bool)
      requires Valid() && Enabled(View(), if ok then AuthOk(id) else AuthFail(id))
      modifies this`requests, limiter, limiter.Records()
      ensures Valid() && limiter.Records() <= old(limiter.Records())
      ensures View() == Step(limiter.config, old(View()), if ok then AuthOk(id) else AuthFail(id))
    {
      hide Invariant, Fire;
      StepKeepsInvariant(limiter.config, View(), if ok then AuthOk(id) else AuthFail(id));
      if ok {
        requests := requests[id := requests[id].(phase := Connecting, onClose := Cleanup, registered := true)];
      } else {
        requests := requests[id := requests[id].(phase := Ended)];
        ReleaseSlot(id);
      }
    }

    /** `server.connect` settles; over SSE a throw is left to the route, which releases nothing. */
    method Connected(id: nat, ok: bool)
      requires Valid() && Enabled(View(), if ok then ConnectOk(id) else ConnectThrow(id))
      modifies this`requests, limiter, limiter.Records()
      ensures Valid() && limiter.Records() <= old(limiter.Records())
      ensures View() == Step(limiter.config, old(View()), if ok then ConnectOk(id) else ConnectThrow(id))
    {
      hide Invariant, Fire;
      StepKeepsInvariant(limiter.config, View(), if ok then ConnectOk(id) else ConnectThrow(id));
      var sse := requests[id].kind.Sse?;
      requests := requests[id := requests[id].(phase := if ok && !sse then Handling else Ended)];
      if !ok && !sse {
        ReleaseSlot(id);
      }
    }

    /** `onsessioninitialized`: a new `cleanup` replaces the transport's close callback. */
    method SessionInitialized(id: nat)
      requires Valid() && Enabled(View(), Initialize(id))
      modifies this`requests
      ensures Valid() && View() == Step(limiter.config, old(View()), Initialize(id))
    {
      hide Invariant, Fire;
      StepKeepsInvariant(limiter.config, View(), Initialize(id));
      requests := requests[id := requests[id].(onClose := Cleanup, cleanedUp := false, registered := true)];
      assert limiter.View() == old(limiter.View());
      assert View() == Step(limiter.config, old(View()), Initialize(id));
    }

    /** `transport.handleRequest` settles. */
    method Handled(id: nat, ok: bool)
      requires Valid() && Enabled(View(), if ok then HandleOk(id) else HandleThrow(id))
      modifies this`requests, limiter, limiter.Records()
      ensures Valid() && limiter.Records() <= old(limiter.Records())
      ensures View() == Step(limiter.config, old(View()), if ok then HandleOk(id) else HandleThrow(id))
    {
      hide Invariant, Fire;
      StepKeepsInvariant(limiter.config, View(), if ok then HandleOk(id) else HandleThrow(id));
      var initialized := requests[id].registered;
      requests := requests[id := requests[id].(phase := Ended, threw := requests[id].threw || !ok)];
      if !ok || !initialized {
        ReleaseSlot(id);
      }
    }

    /** A close of the transport, or of the response over SSE. */
    method Closed(id: nat)
      requires Valid() && Enabled(View(), Close(id))
      modifies this`requests, limiter, limiter.Records()
      ensures Valid() && limiter.Records() <= old(limiter.Records())
      ensures View() == Step(limiter.config, old(View()), Close(id))
    {
      hide Invariant, Fire;
      StepKeepsInvariant(limiter.config, View(), Close(id));
      match requests[id].onClose
      case Unset =>
      case ReleaseSlot =>
        requests := requests[id := requests[id].(closeSeen := true)];
        this.ReleaseSlot(id);
      case Cleanup =>
        var cleanedUp := requests[id].cleanedUp;
        requests := requests[id := requests[id].(closeSeen := true, cleanedUp := true)];
        if cleanedUp {
          return;
        }
        this.ReleaseSlot(id);
    }
  }
}
