/** When the slots of ended sessions come back, told by the events of the run: which callbacks ran,
    and at what place the closes came. */
module McpDraining {
  import opened Common
  import opened McpSessions
  import L = McpRateLimit

  /** The response or transport closed after authentication had set the callbacks. */
  ghost predicate ClosedAfterAuth(events: seq<Event>, id: nat) {
    exists i, j :: 0 <= i < j < |events| && events[i] == AuthOk(id) && events[j] == Close(id)
  }

  /** A request's flags tell what has happened to it. Over streamable HTTP a close callback is set
      from the moment that the slot is taken, so every close counts. */
  ghost predicate Remembers(events: seq<Event>, id: nat, r: Request) {
    && (r.kind.Sse? ==> Initialize(id) !in events && HandleThrow(id) !in events && !r.onClose.ReleaseSlot?)
    && (r.kind.Streamable? ==> AuthOk(id) !in events)
    && (r.registered <==> AuthOk(id) in events || Initialize(id) in events)
    && (r.threw <==> HandleThrow(id) in events)
    && (r.closeSeen <==> if r.kind.Sse? then ClosedAfterAuth(events, id) else Close(id) in events)
  }

  /** Nothing has happened to a request that holds no slot. */
  ghost predicate Unheard(events: seq<Event>, id: nat) {
    AuthOk(id) !in events && Initialize(id) !in events && HandleThrow(id) !in events && Close(id) !in events
  }

  ghost predicate Told(events: seq<Event>, s: State) {
    forall id :: if id in s.requests then Remembers(events, id, s.requests[id]) else Unheard(events, id)
  }

  lemma ClosedAfterAuthAppend(events: seq<Event>, e: Event, id: nat)
    ensures ClosedAfterAuth(events + [e], id)
       <==> ClosedAfterAuth(events, id) || (e == Close(id) && AuthOk(id) in events)
  {
    var longer := events + [e];
    if ClosedAfterAuth(longer, id) {
      var i, j :| 0 <= i < j < |longer| && longer[i] == AuthOk(id) && longer[j] == Close(id);
      assert events[i] == AuthOk(id);
      if j < |events| {
        assert events[j] == Close(id);
      }
    }
    if ClosedAfterAuth(events, id) {
      var i, j :| 0 <= i < j < |events| && events[i] == AuthOk(id) && events[j] == Close(id);
      assert longer[i] == AuthOk(id) && longer[j] == Close(id);
    }
    if e == Close(id) && AuthOk(id) in events {
      var i :| 0 <= i < |events| && events[i] == AuthOk(id);
      assert longer[i] == AuthOk(id) && longer[|events|] == Close(id);
    }
  }

  /** A step concerns one request. */
  lemma OthersUntold(events: seq<Event>, e: Event, id: nat, r: Request)
    requires e.id != id
    ensures Remembers(events + [e], id, r) <==> Remembers(events, id, r)
    ensures Unheard(events + [e], id) <==> Unheard(events, id)
  {
    hide ClosedAfterAuth;
    ClosedAfterAuthAppend(events, e, id);
  }

  lemma OwnTold(c: L.Config, events: seq<Event>, s: State, e: Event)
    requires Enabled(s, e) && Told(events, s)
    requires e.id in s.requests ==> Coherent(s.requests[e.id])
    ensures var t := Step(c, s, e);
            if e.id in t.requests then Remembers(events + [e], e.id, t.requests[e.id]) else Unheard(events + [e], e.id)
  {
    hide ClosedAfterAuth, L.Step, L.Acquired, L.Legal;
    ClosedAfterAuthAppend(events, e, e.id);
    NotClosed(events, e.id);
    if e.id in s.requests {
      assert Remembers(events, e.id, s.requests[e.id]);
    } else {
      assert Unheard(events, e.id);
    }
  }

  lemma NotClosed(events: seq<Event>, id: nat)
    ensures ClosedAfterAuth(events, id) ==> AuthOk(id) in events && Close(id) in events
  {
  }

  lemma StepTold(c: L.Config, events: seq<Event>, s: State, e: Event)
    requires Enabled(s, e) && Told(events, s) && Invariant(c, s)
    ensures Told(events + [e], Step(c, s, e))
  {
    hide Step, Enabled, Remembers, Unheard, Conserved, L.Invariant, Coherent;
    OwnTold(c, events, s, e);
    var t := Step(c, s, e);
    forall id
      ensures if id in t.requests then Remembers(events + [e], id, t.requests[id]) else Unheard(events + [e], id)
    {
      if id != e.id {
        OthersUntouched(c, s, e, id);
        if id in s.requests {
          OthersUntold(events, e, id, s.requests[id]);
        } else {
          OthersUntold(events, e, id, Admitted(Sse, ""));
        }
      }
    }
  }

  lemma {:induction false} ExecuteTold(c: L.Config, before: seq<Event>, s: State, events: seq<Event>)
    requires Invariant(c, s) && Told(before, s) && Execute(c, s, events).Some?
    ensures Told(before + events, Execute(c, s, events).value)
    decreases |events|
  {
    hide Step, Enabled, Invariant, Told;
    if events == [] {
      assert before + events == before;
    } else {
      StepTold(c, before, s, events[0]);
      StepKeepsInvariant(c, s, events[0]);
      ExecuteTold(c, before + [events[0]], Step(c, s, events[0]), events[1..]);
      assert before + [events[0]] + events[1..] == before + events;
    }
  }

  /** Once all handlers have ended, every slot is back exactly if each SSE session has closed after
      its authentication, and each streamable one that was initialized has closed at any time, or
      its request threw. */
  lemma AllSlotsBackExactlyWhen(c: L.Config, clock: int, events: seq<Event>, s: State)
    requires Reaches(c, clock, events, s)
    requires forall id :: id in s.requests ==> s.requests[id].phase.Ended?
    ensures s.run.s.totalActive == 0 <==>
              && (forall id :: AuthOk(id) in events ==> ClosedAfterAuth(events, id))
              && (forall id :: Initialize(id) in events ==> Close(id) in events || HandleThrow(id) in events)
  {
    hide Execute, Invariant, ClosedAfterAuth;
    StartInvariant(c, clock);
    assert Told([], Start(clock)) by {
      assert forall id :: Unheard([], id);
    }
    ExecuteTold(c, [], Start(clock), events);
    assert [] + events == events;
    DrainedExactlyWhenClosed(c, clock, events, s);
    forall id
      ensures (id in s.requests && HoldsSlotAfterEnd(s.requests[id])) <==>
                || (AuthOk(id) in events && !ClosedAfterAuth(events, id))
                || (Initialize(id) in events && !(Close(id) in events || HandleThrow(id) in events))
    {
      NotClosed(events, id);
      if id in s.requests {
        assert Remembers(events, id, s.requests[id]);
      } else {
        assert Unheard(events, id);
      }
    }
  }
}
