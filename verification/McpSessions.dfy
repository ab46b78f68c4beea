/** The life of an MCP session, from the limiter's `acquire` to the last callback. Handlers
    are suspended at every await, so the model is a step machine: each event is the code
    one handler or callback runs between two awaits, and a run is any interleaving. */
module McpSessions {
  import opened Common
  import L = McpRateLimit

  datatype Kind = Sse | Streamable

  /** Where the handler that holds the slot is waiting. */
  datatype Phase = Authenticating | Connecting | Handling | Ended

  /** The callback that a close of the transport (or, for SSE, of the response) runs. */
  datatype OnClose = Unset | ReleaseSlot | Cleanup

  /** `released` and `cleanedUp` are the flags inside the two closures; `registered` says
      that the session was entered into its session map. `closeSeen` and `threw` record
      what has happened: a close that ran a callback, a throw out of `handleRequest`. */
  datatype Request = Request(
    kind: Kind, ip: string, phase: Phase, onClose: OnClose,
    released: bool, cleanedUp: bool, registered: bool, closeSeen: bool, threw: bool)

  datatype State = State(run: L.Run, requests: map<nat, Request>)

  datatype Event =
    | Arrive(id: nat, kind: Kind, ip: string, now: int)
    | AuthOk(id: nat)
    | AuthFail(id: nat)
    | ConnectOk(id: nat)
    | ConnectThrow(id: nat)
    | Initialize(id: nat)
    | HandleOk(id: nat)
    | HandleThrow(id: nat)
    | Close(id: nat)

  function Start(clock: int): State {
    State(L.Run(L.EMPTY, map[], clock), map[])
  }

  // ---------- the steps ----------

  function Put(s: State, id: nat, r: Request): State {
    s.(requests := s.requests[id := r])
  }

  /** Calls the one-shot closure `releaseSlot` of request `id`. */
  function Fire(c: L.Config, s: State, id: nat): State
    requires id in s.requests
  {
    var r := s.requests[id];
    if r.released then s
    else State(L.Step(c, s.run, L.Close(r.ip)), s.requests[id := r.(released := true)])
  }

  /** A slot has been taken for the request: over SSE before authentication, over
      streamable HTTP after it, when the transport gets its first close callback. */
  function Admitted(kind: Kind, ip: string): Request {
    if kind.Sse? then Request(kind, ip, Authenticating, Unset, false, false, false, false, false)
    else Request(kind, ip, Connecting, ReleaseSlot, false, false, false, false, false)
  }

  predicate Enabled(s: State, e: Event)
  {
    match e
    case Arrive(id, _, ip, now) => id !in s.requests && L.Legal(s.run, L.Open(ip, now))
    case AuthOk(id) => id in s.requests && s.requests[id].phase.Authenticating?
    case AuthFail(id) => id in s.requests && s.requests[id].phase.Authenticating?
    case ConnectOk(id) => id in s.requests && s.requests[id].phase.Connecting?
    case ConnectThrow(id) => id in s.requests && s.requests[id].phase.Connecting?
    case Initialize(id) => id in s.requests && s.requests[id].phase.Handling? && !s.requests[id].registered
    case HandleOk(id) => id in s.requests && s.requests[id].phase.Handling?
    case HandleThrow(id) => id in s.requests && s.requests[id].phase.Handling?
    case Close(id) => id in s.requests
  }

  function Step(c: L.Config, s: State, e: Event): State
    requires Enabled(s, e)
  {
    match e
    case Arrive(id, kind, ip, now) =>
      var s' := s.(run := L.Step(c, s.run, L.Open(ip, now)));
      if L.Acquired(c, s.run.s, ip, now).1.Admitted? then Put(s', id, Admitted(kind, ip)) else s'
    case AuthOk(id) =>
      Put(s, id, s.requests[id].(phase := Connecting, onClose := Cleanup, registered := true))
    case AuthFail(id) =>
      Fire(c, Put(s, id, s.requests[id].(phase := Ended)), id)
    case ConnectOk(id) =>
      Put(s, id, s.requests[id].(phase := if s.requests[id].kind.Sse? then Ended else Handling))
    case ConnectThrow(id) =>
      var s' := Put(s, id, s.requests[id].(phase := Ended));
      if s.requests[id].kind.Sse? then s' else Fire(c, s', id)
    case Initialize(id) =>
      Put(s, id, s.requests[id].(onClose := Cleanup, cleanedUp := false, registered := true))
    case HandleOk(id) =>
      var s' := Put(s, id, s.requests[id].(phase := Ended));
      if s.requests[id].registered then s' else Fire(c, s', id)
    case HandleThrow(id) =>
      Fire(c, Put(s, id, s.requests[id].(phase := Ended, threw := true)), id)
    case Close(id) =>
      match s.requests[id].onClose
      case Unset => s
      case ReleaseSlot => Fire(c, Put(s, id, s.requests[id].(closeSeen := true)), id)
      case Cleanup =>
        var s' := Put(s, id, s.requests[id].(closeSeen := true, cleanedUp := true));
        if s.requests[id].cleanedUp then s' else Fire(c, s', id)
  }

  function Execute(c: L.Config, s: State, events: seq<Event>): Option<State>
    decreases |events|
  {
    if events == [] then Some(s)
    else if Enabled(s, events[0]) then Execute(c, Step(c, s, events[0]), events[1..])
    else None
  }

  // ---------- slots and closures ----------

  ghost function Unfired(s: State): set<nat> {
    set id | id in s.requests && !s.requests[id].released
  }

  ghost function UnfiredAt(s: State, ip: string): set<nat> {
    set id | id in s.requests && !s.requests[id].released && s.requests[id].ip == ip
  }

  ghost function ActiveByIp(s: L.State): map<string, int> {
    map ip | ip in s.perIp :: s.perIp[ip].active
  }

  /** Slots in use are counted three ways, and the counts agree. */
  ghost predicate Conserved(s: State) {
    && s.run.s.totalActive == |Unfired(s)|
    && s.run.s.totalActive == Sum(ActiveByIp(s.run.s))
    && forall ip :: L.SlotsOf(s.run.s, ip).active == |UnfiredAt(s, ip)|
  }

  /** What the flags of one request say about each other. */
  predicate Coherent(r: Request) {
    && (r.phase.Authenticating? ==> r.onClose.Unset? && !r.closeSeen)
    && (r.phase.Connecting? ==> r.registered == r.kind.Sse? && !r.threw)
    && (r.phase.Handling? ==> r.kind.Streamable? && !r.threw)
    && (r.registered <==> r.onClose.Cleanup?)
    && (!r.phase.Authenticating? && !r.registered && r.kind.Streamable? ==> r.onClose.ReleaseSlot?)
    && (r.phase.Authenticating? ==> r.kind.Sse? && !r.released && !r.threw)
    && (r.cleanedUp ==> r.closeSeen)
    && (r.released <==> r.closeSeen || r.threw || (r.phase.Ended? && !r.registered))
  }

  ghost predicate Invariant(c: L.Config, s: State) {
    && L.Invariant(c, s.run)
    && Conserved(s)
    && forall id :: id in s.requests ==> Coherent(s.requests[id])
  }

  lemma UnfiredSplit(s: State, ip: string)
    ensures UnfiredAt(s, ip) <= Unfired(s)
    ensures |UnfiredAt(s, ip)| <= |Unfired(s)|
  {
    SubsetSize(UnfiredAt(s, ip), Unfired(s));
  }

  /** Changing flags other than `released` moves no slot. */
  lemma PutConserves(s: State, id: nat, r: Request)
    requires Conserved(s) && id in s.requests
    requires r.ip == s.requests[id].ip && r.released == s.requests[id].released
    ensures Conserved(Put(s, id, r))
  {
    var s' := Put(s, id, r);
    assert Unfired(s') == Unfired(s);
    forall ip
      ensures UnfiredAt(s', ip) == UnfiredAt(s, ip)
    {
    }
  }

  /** An unfired closure finds its slot: the record of the address exists, and neither
      count is at zero, so the guards in `release` never take effect. */
  lemma UnfiredHasSlot(s: State, id: nat)
    requires Conserved(s) && id in Unfired(s)
    ensures var ip := s.requests[id].ip;
            && ip in s.run.s.perIp && s.run.s.perIp[ip].active >= 1 && s.run.s.totalActive >= 1
  {
    var ip := s.requests[id].ip;
    assert id in UnfiredAt(s, ip);
    UnfiredSplit(s, ip);
  }

  /** Changing one address's record changes the sum by the change of its count. */
  lemma SumAfter(s: L.State, s': L.State, ip: string)
    requires forall other :: other != ip ==> (other in s.perIp <==> other in s'.perIp)
    requires forall other :: other != ip ==> L.SlotsOf(s, other).active == L.SlotsOf(s', other).active
    ensures Sum(ActiveByIp(s')) == Sum(ActiveByIp(s)) + L.SlotsOf(s', ip).active - L.SlotsOf(s, ip).active
  {
    var before, after := ActiveByIp(s), ActiveByIp(s');
    forall other | other in before && other != ip
      ensures before[other] == after[other]
    {
      assert L.SlotsOf(s, other).active == L.SlotsOf(s', other).active;
    }
    assert before - {ip} == after - {ip};
    SumRemove(before, ip);
    SumRemove(after, ip);
  }

  lemma FireConserves(c: L.Config, s: State, id: nat)
    requires Conserved(s) && id in s.requests
    ensures Conserved(Fire(c, s, id))
  {
    if !s.requests[id].released {
      var s' := Fire(c, s, id);
      var mine := s.requests[id].ip;
      UnfiredHasSlot(s, id);
      assert Unfired(s') == Unfired(s) - {id};
      forall ip
        ensures L.SlotsOf(s'.run.s, ip).active == |UnfiredAt(s', ip)|
      {
        assert UnfiredAt(s', ip) == UnfiredAt(s, ip) - {id};
        if ip == mine {
          assert id in UnfiredAt(s, ip);
        }
      }
      SumAfter(s.run.s, s'.run.s, mine);
    }
  }

  lemma CountsAfterAdd(s: State, s': State, id: nat, ip: string)
    requires id !in s.requests && id in s'.requests
    requires s'.requests == s.requests[id := s'.requests[id]]
    requires s'.requests[id].ip == ip && !s'.requests[id].released
    ensures |Unfired(s')| == |Unfired(s)| + 1
    ensures |UnfiredAt(s', ip)| == |UnfiredAt(s, ip)| + 1
    ensures forall other :: other != ip ==> UnfiredAt(s', other) == UnfiredAt(s, other)
  {
    assert Unfired(s') == Unfired(s) + {id};
    assert UnfiredAt(s', ip) == UnfiredAt(s, ip) + {id};
    forall other | other != ip
      ensures UnfiredAt(s', other) == UnfiredAt(s, other)
    {
      SameElsewhere(s, s', id, ip, other);
    }
  }

  lemma SameElsewhere(s: State, s': State, id: nat, ip: string, other: string)
    requires id !in s.requests && id in s'.requests && s'.requests == s.requests[id := s'.requests[id]]
    requires s'.requests[id].ip == ip && other != ip
    ensures UnfiredAt(s', other) == UnfiredAt(s, other)
  {
  }

  lemma CountsUnchanged(s: State, s': State)
    requires s'.requests == s.requests
    ensures Unfired(s') == Unfired(s)
    ensures forall other :: UnfiredAt(s', other) == UnfiredAt(s, other)
  {
  }

  lemma ArriveConserves(c: L.Config, s: State, id: nat, kind: Kind, ip: string, now: int)
    requires Conserved(s) && Enabled(s, Arrive(id, kind, ip, now))
    ensures Conserved(Step(c, s, Arrive(id, kind, ip, now)))
  {
    hide L.Acquired, L.PrunedSlots, Unfired, UnfiredAt, ActiveByIp;
    var s' := Step(c, s, Arrive(id, kind, ip, now));
    L.AcquiredSlots(c, s.run.s, ip, now);
    SumAfter(s.run.s, s'.run.s, ip);
    if L.Acquired(c, s.run.s, ip, now).1.Admitted? {
      CountsAfterAdd(s, s', id, ip);
    } else {
      CountsUnchanged(s, s');
    }
  }

  lemma StepConserves(c: L.Config, s: State, e: Event)
    requires Conserved(s) && Enabled(s, e)
    ensures Conserved(Step(c, s, e))
  {
    hide Conserved;
    match e {
      case Arrive(id, kind, ip, now) => ArriveConserves(c, s, id, kind, ip, now);
      case AuthOk(id) =>
        PutConserves(s, id, s.requests[id].(phase := Connecting, onClose := Cleanup, registered := true));
      case AuthFail(id) =>
        var s' := Put(s, id, s.requests[id].(phase := Ended));
        PutConserves(s, id, s'.requests[id]);
        FireConserves(c, s', id);
      case ConnectOk(id) =>
        PutConserves(s, id, Step(c, s, e).requests[id]);
      case ConnectThrow(id) =>
        var s' := Put(s, id, s.requests[id].(phase := Ended));
        PutConserves(s, id, s'.requests[id]);
        FireConserves(c, s', id);
      case Initialize(id) =>
        PutConserves(s, id, Step(c, s, e).requests[id]);
      case HandleOk(id) =>
        var s' := Put(s, id, s.requests[id].(phase := Ended));
        PutConserves(s, id, s'.requests[id]);
        FireConserves(c, s', id);
      case HandleThrow(id) =>
        var s' := Put(s, id, s.requests[id].(phase := Ended, threw := true));
        PutConserves(s, id, s'.requests[id]);
        FireConserves(c, s', id);
      case Close(id) =>
        var r := s.requests[id].(closeSeen := true);
        var s' := Put(s, id, if r.onClose.Cleanup? then r.(cleanedUp := true) else r);
        PutConserves(s, id, s'.requests[id]);
        FireConserves(c, s', id);
    }
  }

  lemma StepKeepsRun(c: L.Config, s: State, e: Event)
    requires L.Invariant(c, s.run) && Enabled(s, e)
    ensures L.Invariant(c, Step(c, s, e).run)
  {
    hide L.Invariant, L.Step;
    if e.Arrive? {
      L.StepKeepsInvariant(c, s.run, L.Open(e.ip, e.now));
    } else {
      L.StepKeepsInvariant(c, s.run, L.Close(s.requests[e.id].ip));
    }
  }

  /** A step touches the record of one request. */
  lemma OthersUntouched(c: L.Config, s: State, e: Event, id: nat)
    requires Enabled(s, e) && id != e.id
    ensures var t := Step(c, s, e);
            (id in t.requests <==> id in s.requests) && (id in s.requests ==> t.requests[id] == s.requests[id])
  {
    hide L.Step, L.Acquired, L.Legal;
  }

  lemma OwnCoherent(c: L.Config, s: State, e: Event)
    requires Enabled(s, e) && (e.id in s.requests ==> Coherent(s.requests[e.id]))
    ensures e.id in Step(c, s, e).requests ==> Coherent(Step(c, s, e).requests[e.id])
  {
    hide L.Step, L.Acquired, L.Legal;
  }

  lemma StepCoherent(c: L.Config, s: State, e: Event)
    requires Enabled(s, e) && forall id :: id in s.requests ==> Coherent(s.requests[id])
    ensures forall id :: id in Step(c, s, e).requests ==> Coherent(Step(c, s, e).requests[id])
  {
    hide Coherent, Step, Enabled;
    OwnCoherent(c, s, e);
    forall id | id in Step(c, s, e).requests
      ensures Coherent(Step(c, s, e).requests[id])
    {
      if id != e.id {
        OthersUntouched(c, s, e, id);
      }
    }
  }

  lemma StepKeepsInvariant(c: L.Config, s: State, e: Event)
    requires Invariant(c, s) && Enabled(s, e)
    ensures Invariant(c, Step(c, s, e))
  {
    hide Conserved, L.Invariant, Step, Coherent;
    StepConserves(c, s, e);
    StepKeepsRun(c, s, e);
    StepCoherent(c, s, e);
  }

  lemma {:induction false} ExecuteKeepsInvariant(c: L.Config, s: State, events: seq<Event>)
    requires Invariant(c, s) && Execute(c, s, events).Some?
    ensures Invariant(c, Execute(c, s, events).value)
    decreases |events|
  {
    if events == [] {
    } else {
      StepKeepsInvariant(c, s, events[0]);
      ExecuteKeepsInvariant(c, Step(c, s, events[0]), events[1..]);
    }
  }

  // ---------- what holds over every run ----------

  /** The outcome of a run from an empty server. */
  ghost predicate Reaches(c: L.Config, clock: int, events: seq<Event>, s: State) {
    Execute(c, Start(clock), events) == Some(s)
  }

  lemma StartInvariant(c: L.Config, clock: int)
    ensures Invariant(c, Start(clock))
  {
    var s := Start(clock);
    assert Unfired(s) == {} && forall ip :: UnfiredAt(s, ip) == {};
    assert ActiveByIp(s.run.s) == map[];
  }

  lemma ReachableInvariant(c: L.Config, clock: int, events: seq<Event>, s: State)
    requires Reaches(c, clock, events, s)
    ensures Invariant(c, s)
  {
    StartInvariant(c, clock);
    hide Invariant, Execute;
    ExecuteKeepsInvariant(c, Start(clock), events);
  }

  /** Slots are conserved over every interleaving: the total, the sum of the per-address
      counts and the number of closures not yet called are the same number, within the
      cap; and a closure that is called always finds its slot. */
  lemma SlotsConserved(c: L.Config, clock: int, events: seq<Event>, s: State)
    requires Reaches(c, clock, events, s)
    ensures s.run.s.totalActive == |Unfired(s)| == Sum(ActiveByIp(s.run.s)) <= c.maxTotalSessions
    ensures forall ip :: L.SlotsOf(s.run.s, ip).active == |UnfiredAt(s, ip)| <= c.maxSessionsPerIp
    ensures forall id :: id in Unfired(s) ==>
              && s.requests[id].ip in s.run.s.perIp
              && s.run.s.perIp[s.requests[id].ip].active >= 1
              && s.run.s.totalActive >= 1
  {
    ReachableInvariant(c, clock, events, s);
    forall ip
      ensures L.SlotsOf(s.run.s, ip).active <= c.maxSessionsPerIp
    {
      assert L.RecordAgrees(c, L.SlotsOf(s.run.s, ip), L.LogOf(s.run, ip), s.run.clock);
    }
    forall id | id in Unfired(s)
      ensures s.requests[id].ip in s.run.s.perIp
      ensures s.run.s.perIp[s.requests[id].ip].active >= 1 && s.run.s.totalActive >= 1
    {
      UnfiredHasSlot(s, id);
    }
  }

  /** The burst limit holds for sessions too, as every open comes from some handler. */
  lemma SessionsBurstBound(c: L.Config, clock: int, events: seq<Event>, s: State, ip: string, t: int)
    requires Reaches(c, clock, events, s)
    ensures |L.InMinute(L.LogOf(s.run, ip), t)| <= c.maxNewSessionsPerIpPerMin
  {
    ReachableInvariant(c, clock, events, s);
    assert L.RecordAgrees(c, L.SlotsOf(s.run.s, ip), L.LogOf(s.run, ip), s.run.clock);
    L.SpacedBoundsMinute(L.LogOf(s.run, ip), c.maxNewSessionsPerIpPerMin, t);
  }

  /** A handler that has ended still holds its slot exactly when it had registered a
      session, did not throw out of `handleRequest`, and no close has run its callback. */
  predicate HoldsSlotAfterEnd(r: Request) {
    r.registered && !r.threw && !r.closeSeen
  }

  /** Once all handlers have ended, the count is zero exactly when no request is left that
      registered a session and saw no close. In particular it is zero once every
      registered transport has closed. */
  lemma DrainedExactlyWhenClosed(c: L.Config, clock: int, events: seq<Event>, s: State)
    requires Reaches(c, clock, events, s)
    requires forall id :: id in s.requests ==> s.requests[id].phase.Ended?
    ensures s.run.s.totalActive == 0 <==> forall id :: id in s.requests ==> !HoldsSlotAfterEnd(s.requests[id])
  {
    ReachableInvariant(c, clock, events, s);
    assert forall id :: id in s.requests ==> (id in Unfired(s) <==> HoldsSlotAfterEnd(s.requests[id]));
  }

  /** A response that closes while authentication is pending runs no callback, because
      none is installed yet: the handler then registers a session and ends, and one slot
      stays taken until some later close of the transport. */
  lemma CloseDuringAuthentication(c: L.Config, clock: int)
    requires c.maxTotalSessions > 0 && c.maxSessionsPerIp > 0 && c.maxNewSessionsPerIpPerMin > 0
    ensures var events := [Arrive(0, Sse, "ip", clock), Close(0), AuthOk(0), ConnectOk(0)];
            && Execute(c, Start(clock), events).Some?
            && var s := Execute(c, Start(clock), events).value;
               0 in s.requests && s.requests[0].phase.Ended? && s.run.s.totalActive == 1
  {
    var s0 := Start(clock);
    var s1 := Step(c, s0, Arrive(0, Sse, "ip", clock));
    var s2 := Step(c, s1, Close(0));
    var s3 := Step(c, s2, AuthOk(0));
    var s4 := Step(c, s3, ConnectOk(0));
    assert Execute(c, s4, []) == Some(s4);
    assert Execute(c, s3, [ConnectOk(0)]) == Some(s4);
    assert Execute(c, s2, [AuthOk(0), ConnectOk(0)]) == Some(s4) by {
      assert [AuthOk(0), ConnectOk(0)][1..] == [ConnectOk(0)];
    }
    assert Execute(c, s1, [Close(0), AuthOk(0), ConnectOk(0)]) == Some(s4) by {
      assert [Close(0), AuthOk(0), ConnectOk(0)][1..] == [AuthOk(0), ConnectOk(0)];
    }
    var events := [Arrive(0, Sse, "ip", clock), Close(0), AuthOk(0), ConnectOk(0)];
    assert events[1..] == [Close(0), AuthOk(0), ConnectOk(0)];
  }

  /** The sessions in the two session maps. */
  ghost function Live(s: State): set<nat> {
    set id | id in s.requests && s.requests[id].registered && !s.requests[id].cleanedUp
  }

  /** Live sessions without a slot: their opening request threw after the session was
      registered, or their transport had closed before that. */
  ghost function LiveWithoutSlot(s: State): set<nat> {
    set id | id in Live(s) && (s.requests[id].threw || s.requests[id].closeSeen)
  }

  /** The cap on live sessions holds except for those two cases, counted exactly. */
  lemma LiveSessionsBounded(c: L.Config, clock: int, events: seq<Event>, s: State)
    requires Reaches(c, clock, events, s)
    ensures |Live(s)| <= c.maxTotalSessions + |LiveWithoutSlot(s)|
    ensures forall id :: id in Live(s) ==> (id in Unfired(s) <==> id !in LiveWithoutSlot(s))
  {
    ReachableInvariant(c, clock, events, s);
    SlotsConserved(c, clock, events, s);
    assert Live(s) - LiveWithoutSlot(s) <= Unfired(s);
    SubsetSize(Live(s) - LiveWithoutSlot(s), Unfired(s));
    assert LiveWithoutSlot(s) <= Live(s);
  }
}
