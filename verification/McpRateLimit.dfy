/** The per-address limiter in front of the MCP endpoints: what one call does, and what
    holds over every run of calls. Times are milliseconds. */
module McpRateLimit {
  import opened Common

  const WINDOW_MS: int := 60_000

  datatype Config = Config(maxTotalSessions: nat, maxSessionsPerIp: nat, maxNewSessionsPerIpPerMin: nat)

  datatype Reason = GlobalCap | IpActiveCap | IpBurstCap

  datatype AcquireResult = Admitted | Denied(reason: Reason, retryAfterSeconds: int)

  /** The record kept for one address, and the limiter's whole state, as values. */
  datatype Slots = Slots(active: int, opens: seq<int>)
  datatype State = State(perIp: map<string, Slots>, totalActive: int)

  const EMPTY: State := State(map[], 0)

  // ---------- what the calls compute ----------

  function SlotsOf(s: State, ip: string): Slots {
    if ip in s.perIp then s.perIp[ip] else Slots(0, [])
  }

  /** The opens later than `cutoff`, in order. */
  function Prune(opens: seq<int>, cutoff: int): (kept: seq<int>)
    ensures |kept| <= |opens|
  {
    if opens == [] then []
    else if opens[0] > cutoff then [opens[0]] + Prune(opens[1..], cutoff)
    else Prune(opens[1..], cutoff)
  }

  function WithSlots(s: State, ip: string, slots: Slots): State {
    s.(perIp := s.perIp[ip := slots])
  }

  function Max(a: int, b: int): int {
    if a >= b then a else b
  }

  /** Seconds until `oldest` leaves the window, rounded up, at least one. */
  function RetryAfter(oldest: int, now: int): int {
    Max(1, (oldest + WINDOW_MS - now + 999) / 1000)
  }

  /** The record of `ip` as an `Acquired` call at time `now` sees it. */
  function PrunedSlots(s: State, ip: string, now: int): Slots {
    var slots := SlotsOf(s, ip);
    slots.(opens := Prune(slots.opens, now - WINDOW_MS))
  }

  function Acquired(c: Config, s: State, ip: string, now: int): (State, AcquireResult)
  {
    if s.totalActive >= c.maxTotalSessions then (s, Denied(GlobalCap, 30))
    else
      var pruned := PrunedSlots(s, ip, now);
      // the stored record is pruned in place, also when the call is then denied
      var kept := if ip in s.perIp then WithSlots(s, ip, pruned) else s;
      if pruned.active >= c.maxSessionsPerIp then (kept, Denied(IpActiveCap, 30))
      else if |pruned.opens| >= c.maxNewSessionsPerIpPerMin then
        var oldest := if pruned.opens == [] then now else pruned.opens[0];
        (kept, Denied(IpBurstCap, RetryAfter(oldest, now)))
      else
        var admitted := Slots(pruned.active + 1, pruned.opens + [now]);
        (WithSlots(s, ip, admitted).(totalActive := s.totalActive + 1), Admitted)
  }

  function Released(s: State, ip: string): State
  {
    if ip !in s.perIp then s
    else
      var slots := s.perIp[ip].(active := Max(0, s.perIp[ip].active - 1));
      var perIp := if slots.active == 0 && slots.opens == [] then s.perIp - {ip} else s.perIp[ip := slots];
      State(perIp, Max(0, s.totalActive - 1))
  }

  // ---------- the limiter object ----------

  class IpState {
    var active: int
    var opens: seq<int>

    constructor ()
      ensures Record() == Slots(0, [])
    {
      active, opens := 0, [];
    }

    ghost function Record(): Slots
      reads this
    {
      Slots(active, opens)
    }

    /** Drops the opens that `cutoff` has passed, walking over them in order. */
    method DropOld(cutoff: int)
      modifies this`opens
      ensures opens == Prune(old(opens), cutoff)
    {
      var kept: seq<int> := [];
      var i := 0;
      while i < |opens|
        invariant 0 <= i <= |opens|
        invariant opens == old(opens)
        invariant kept + Prune(opens[i..], cutoff) == Prune(opens, cutoff)
      {
        assert opens[i..][1..] == opens[i + 1..];
        if opens[i] > cutoff {
          kept := kept + [opens[i]];
        }
        i := i + 1;
      }
      opens := kept;
    }
  }

  class McpRateLimiter {
    const config: Config
    var perIp: map<string, IpState>
    var totalActive: int

    ghost function Records(): set<object>
      reads this
    {
      set ip | ip in perIp :: perIp[ip]
    }

    /** No two addresses share a record. */
    ghost predicate Valid()
      reads this
    {
      forall a, b :: a in perIp && b in perIp && perIp[a] == perIp[b] ==> a == b
    }

    ghost function View(): State
      reads this, Records()
    {
      State(map ip | ip in perIp :: perIp[ip].Record(), totalActive)
    }

    constructor (config: Config)
      ensures Valid() && this.config == config && View() == EMPTY && Records() == {}
    {
      this.config := config;
      perIp, totalActive := map[], 0;
    }

    method Acquire(ip: string, now: int) returns (result: AcquireResult)
      requires Valid()
      modifies this, Records()
      ensures Valid() && fresh(Records() - old(Records()))
      ensures (View(), result) == Acquired(config, old(View()), ip, now)
    {
      if totalActive >= config.maxTotalSessions {
        return Denied(GlobalCap, 30);
      }
      var state: IpState;
      if ip in perIp {
        state := perIp[ip];
      } else {
        state := new IpState();
      }
      if |state.opens| > 0 {
        state.DropOld(now - WINDOW_MS);
      }
      ghost var before := old(View());
      ghost var pruned := PrunedSlots(before, ip, now);
      assert state.Record() == pruned;
      assert View() == if ip in before.perIp then WithSlots(before, ip, pruned) else before;
      if state.active >= config.maxSessionsPerIp {
        return Denied(IpActiveCap, 30);
      }
      if |state.opens| >= config.maxNewSessionsPerIpPerMin {
        var oldest := if state.opens == [] then now else state.opens[0];
        return Denied(IpBurstCap, RetryAfter(oldest, now));
      }
      Admit(ip, state, now);
      assert View().perIp == before.perIp[ip := Slots(pruned.active + 1, pruned.opens + [now])];
      return Admitted;
    }

    /** The end of `Acquire`: counts the open in `state` and stores it under `ip`. */
    method Admit(ip: string, state: IpState, now: int)
      requires Valid()
      requires if ip in perIp then perIp[ip] == state else state !in Records()
      modifies this`perIp, this`totalActive, state
      ensures Valid() && Records() <= old(Records()) + {state}
      ensures View().perIp == old(View()).perIp[ip := Slots(old(state.active) + 1, old(state.opens) + [now])]
      ensures View().totalActive == old(View()).totalActive + 1
    {
      state.opens := state.opens + [now];
      state.active := state.active + 1;
      perIp := perIp[ip := state];
      totalActive := totalActive + 1;
    }

    method Release(ip: string)
      requires Valid()
      modifies this, Records()
      ensures Valid() && Records() <= old(Records())
      ensures View() == Released(old(View()), ip)
    {
      if ip !in perIp {
        return;
      }
      var state := perIp[ip];
      state.active := Max(0, state.active - 1);
      totalActive := Max(0, totalActive - 1);
      if state.active == 0 && state.opens == [] {
        perIp := perIp - {ip};
      }
    }
  }

  /** The closure `releaseFn` hands out: it releases at most once. */
  class ReleaseFn {
    const limiter: McpRateLimiter
    const ip: string
    var released: bool

    constructor (limiter: McpRateLimiter, ip: string)
      ensures this.limiter == limiter && this.ip == ip && !released
    {
      this.limiter, this.ip, released := limiter, ip, false;
    }

    method Call()
      requires limiter.Valid()
      modifies this, limiter, limiter.Records()
      ensures released && limiter.Valid() && limiter.Records() <= old(limiter.Records())
      ensures limiter.View() == if old(released) then old(limiter.View()) else Released(old(limiter.View()), ip)
    {
      if released {
        return;
      }
      released := true;
      limiter.Release(ip);
    }
  }

  // ---------- runs ----------

  datatype Event = Open(ip: string, now: int) | Close(ip: string)

  /** The limiter, the times of all admitted opens of each address, and the clock. */
  datatype Run = Run(s: State, log: map<string, seq<int>>, clock: int)

  function LogOf(r: Run, ip: string): seq<int> {
    if ip in r.log then r.log[ip] else []
  }

  predicate Legal(r: Run, e: Event) {
    e.Open? ==> e.now >= r.clock
  }

  function Step(c: Config, r: Run, e: Event): Run
  {
    match e
    case Close(ip) => r.(s := Released(r.s, ip))
    case Open(ip, now) =>
      var (s, result) := Acquired(c, r.s, ip, now);
      Run(s, if result.Admitted? then r.log[ip := LogOf(r, ip) + [now]] else r.log, now)
  }

  /** Runs the events in order; a run in which the clock goes back has no outcome. */
  function Execute(c: Config, r: Run, events: seq<Event>): Option<Run>
    decreases |events|
  {
    if events == [] then Some(r)
    else if Legal(r, events[0]) then Execute(c, Step(c, r, events[0]), events[1..])
    else None
  }

  ghost predicate Sorted(a: seq<int>) {
    forall i, j :: 0 <= i <= j < |a| ==> a[i] <= a[j]
  }

  /** `a[i + n]` comes at least a minute after `a[i]`. */
  ghost predicate Spaced(a: seq<int>, n: nat) {
    forall i, j :: 0 <= i && j == i + n && j < |a| ==> a[j] >= a[i] + WINDOW_MS
  }

  /** The admitted opens of one address, oldest first. */
  ghost predicate LogAgrees(c: Config, log: seq<int>, clock: int) {
    && Sorted(log) && Spaced(log, c.maxNewSessionsPerIpPerMin)
    && forall i :: 0 <= i < |log| ==> log[i] <= clock
  }

  /** `opens` is the end of `log`, and the rest of `log` is not later than `cutoff`. */
  ghost predicate EndOf(opens: seq<int>, log: seq<int>, cutoff: int) {
    && |opens| <= |log|
    && (forall i :: 0 <= i < |opens| ==> opens[i] == log[|log| - |opens| + i])
    && (forall i :: 0 <= i < |log| - |opens| ==> log[i] <= cutoff)
  }

  /** What one address's record says about its log: the record holds the end of the log,
      and what it no longer holds is at least a minute old. */
  ghost predicate RecordAgrees(c: Config, slots: Slots, log: seq<int>, clock: int) {
    && 0 <= slots.active <= c.maxSessionsPerIp
    && |slots.opens| <= c.maxNewSessionsPerIpPerMin
    && LogAgrees(c, log, clock)
    && EndOf(slots.opens, log, clock - WINDOW_MS)
  }

  ghost predicate Invariant(c: Config, r: Run) {
    && 0 <= r.s.totalActive <= c.maxTotalSessions
    && forall ip :: RecordAgrees(c, SlotsOf(r.s, ip), LogOf(r, ip), r.clock)
  }

  lemma {:induction false} PruneSorted(opens: seq<int>, cutoff: int)
    requires Sorted(opens)
    ensures var kept := Prune(opens, cutoff);
            var k := |opens| - |kept|;
            && kept == opens[k..]
            && (forall i :: 0 <= i < k ==> opens[i] <= cutoff)
            && (forall i :: k <= i < |opens| ==> opens[i] > cutoff)
  {
    if opens == [] {
    } else {
      PruneSorted(opens[1..], cutoff);
      if opens[0] > cutoff {
        assert forall i :: 0 <= i < |opens| ==> opens[i] > cutoff;
        PruneNothing(opens, cutoff);
      } else {
        var k := |opens[1..]| - |Prune(opens[1..], cutoff)|;
        assert opens[1..][k..] == opens[k + 1..];
        assert forall i :: 1 <= i < |opens| ==> opens[i] == opens[1..][i - 1];
      }
    }
  }

  lemma {:induction false} PruneNothing(opens: seq<int>, cutoff: int)
    requires forall i :: 0 <= i < |opens| ==> opens[i] > cutoff
    ensures Prune(opens, cutoff) == opens
  {
    if opens == [] {
    } else {
      PruneNothing(opens[1..], cutoff);
    }
  }

  lemma PrunedEnd(opens: seq<int>, log: seq<int>, clock: int, now: int)
    requires Sorted(log) && EndOf(opens, log, clock - WINDOW_MS) && clock <= now
    ensures EndOf(Prune(opens, now - WINDOW_MS), log, now - WINDOW_MS)
  {
    PruneSorted(opens, now - WINDOW_MS);
    var kept := Prune(opens, now - WINDOW_MS);
    var d, k := |log| - |opens|, |opens| - |kept|;
    forall i | 0 <= i < d + k
      ensures log[i] <= now - WINDOW_MS
    {
      if i >= d {
        assert log[i] == opens[i - d];
      }
    }
  }

  /** Pruning at a later time keeps a record in agreement with its log. */
  lemma PrunedRecordAgrees(c: Config, slots: Slots, log: seq<int>, clock: int, now: int)
    requires RecordAgrees(c, slots, log, clock) && clock <= now
    ensures RecordAgrees(c, slots.(opens := Prune(slots.opens, now - WINDOW_MS)), log, now)
  {
    PrunedEnd(slots.opens, log, clock, now);
  }

  /** An admitted open is a minute or more after the one N places before it. */
  lemma OpenedRecordAgrees(c: Config, pruned: Slots, log: seq<int>, now: int)
    requires RecordAgrees(c, pruned, log, now)
    requires pruned.active < c.maxSessionsPerIp && |pruned.opens| < c.maxNewSessionsPerIpPerMin
    ensures RecordAgrees(c, Slots(pruned.active + 1, pruned.opens + [now]), log + [now], now)
  {
    var n := c.maxNewSessionsPerIpPerMin;
    assert |log| >= n ==> log[|log| - n] <= now - WINDOW_MS;
    assert EndOf(pruned.opens + [now], log + [now], now - WINDOW_MS);
    assert LogAgrees(c, log + [now], now);
  }

  /** What `Acquired` leaves behind, address by address. */
  lemma AcquiredSlots(c: Config, s: State, ip: string, now: int)
    ensures var (s', result) := Acquired(c, s, ip, now);
            && (forall other :: other != ip ==> SlotsOf(s', other) == SlotsOf(s, other))
            && SlotsOf(s', ip).active == SlotsOf(s, ip).active + (if result.Admitted? then 1 else 0)
            && var pruned := PrunedSlots(s, ip, now);
            && (result.Admitted? ==> && s.totalActive < c.maxTotalSessions
                                     && pruned.active < c.maxSessionsPerIp
                                     && |pruned.opens| < c.maxNewSessionsPerIpPerMin
                                     && s'.totalActive == s.totalActive + 1
                                     && s'.perIp.Keys == s.perIp.Keys + {ip}
                                     && SlotsOf(s', ip) == Slots(pruned.active + 1, pruned.opens + [now]))
            && (result.Denied? ==> && s'.totalActive == s.totalActive
                                   && s'.perIp.Keys == s.perIp.Keys
                                   && (SlotsOf(s', ip) == SlotsOf(s, ip) || SlotsOf(s', ip) == pruned))
  {
  }

  /** An old record agrees with its log also when the clock has moved on. */
  lemma LaterRecordAgrees(c: Config, slots: Slots, log: seq<int>, clock: int, now: int)
    requires RecordAgrees(c, slots, log, clock) && clock <= now
    ensures RecordAgrees(c, slots, log, now)
  {
  }

  lemma ReleasedRecordAgrees(c: Config, s: State, log: seq<int>, clock: int, released: string, ip: string)
    requires RecordAgrees(c, SlotsOf(s, ip), log, clock)
    ensures RecordAgrees(c, SlotsOf(Released(s, released), ip), log, clock)
  {
  }

  lemma OpenKeepsRecord(c: Config, r: Run, opening: string, now: int, ip: string)
    requires RecordAgrees(c, SlotsOf(r.s, ip), LogOf(r, ip), r.clock) && r.clock <= now
    ensures var r' := Step(c, r, Open(opening, now));
            RecordAgrees(c, SlotsOf(r'.s, ip), LogOf(r', ip), now)
  {
    hide EndOf, LogAgrees;
    var slots, log := SlotsOf(r.s, ip), LogOf(r, ip);
    AcquiredSlots(c, r.s, opening, now);
    LaterRecordAgrees(c, slots, log, r.clock, now);
    if ip == opening {
      PrunedRecordAgrees(c, slots, log, r.clock, now);
      if Acquired(c, r.s, ip, now).1.Admitted? {
        OpenedRecordAgrees(c, PrunedSlots(r.s, ip, now), log, now);
      }
    }
  }

  lemma StepKeepsInvariant(c: Config, r: Run, e: Event)
    requires Invariant(c, r) && Legal(r, e)
    ensures Invariant(c, Step(c, r, e))
  {
    hide RecordAgrees;
    var r' := Step(c, r, e);
    forall ip
      ensures RecordAgrees(c, SlotsOf(r'.s, ip), LogOf(r', ip), r'.clock)
    {
      assert RecordAgrees(c, SlotsOf(r.s, ip), LogOf(r, ip), r.clock);
      match e {
        case Close(closing) => ReleasedRecordAgrees(c, r.s, LogOf(r, ip), r.clock, closing, ip);
        case Open(opening, now) => OpenKeepsRecord(c, r, opening, now, ip);
      }
    }
    if e.Open? {
      AcquiredSlots(c, r.s, e.ip, e.now);
    }
  }

  lemma {:induction false} ExecuteKeepsInvariant(c: Config, r: Run, events: seq<Event>)
    requires Invariant(c, r) && Execute(c, r, events).Some?
    ensures Invariant(c, Execute(c, r, events).value)
    decreases |events|
  {
    if events == [] {
    } else {
      StepKeepsInvariant(c, r, events[0]);
      ExecuteKeepsInvariant(c, Step(c, r, events[0]), events[1..]);
    }
  }

  /** The positions in `a` of the times in the minute that ends at `t`. */
  ghost function InMinute(a: seq<int>, t: int): set<int> {
    set i | 0 <= i < |a| && t - WINDOW_MS < a[i] <= t
  }

  lemma SpacedBoundsMinute(a: seq<int>, n: nat, t: int)
    requires Sorted(a) && Spaced(a, n)
    ensures |InMinute(a, t)| <= n
  {
    var s := InMinute(a, t);
    if s != {} {
      var first := FirstInMinute(a, t, 0);
      assert first + n < |a| ==> a[first + n] >= a[first] + WINDOW_MS;
      FitsRange(s, first, n);
    }
  }

  ghost function FirstInMinute(a: seq<int>, t: int, from: nat): (i: nat)
    requires from <= |a| && exists j :: from <= j < |a| && t - WINDOW_MS < a[j] <= t
    ensures from <= i < |a| && t - WINDOW_MS < a[i] <= t
    ensures forall j :: from <= j < i ==> !(t - WINDOW_MS < a[j] <= t)
    decreases |a| - from
  {
    if t - WINDOW_MS < a[from] <= t then from else FirstInMinute(a, t, from + 1)
  }

  /** Whatever opens, denials, releases and removals of records a run holds: every address
      has at most N admitted opens in any minute, the (n+N)-th at least a minute after the
      n-th, and the counts of live sessions stay within their caps. */
  lemma BurstBound(c: Config, start: int, events: seq<Event>, ip: string, t: int)
    requires Execute(c, Run(EMPTY, map[], start), events).Some?
    ensures var r := Execute(c, Run(EMPTY, map[], start), events).value;
            && Spaced(LogOf(r, ip), c.maxNewSessionsPerIpPerMin)
            && |InMinute(LogOf(r, ip), t)| <= c.maxNewSessionsPerIpPerMin
            && 0 <= SlotsOf(r.s, ip).active <= c.maxSessionsPerIp
            && 0 <= r.s.totalActive <= c.maxTotalSessions
  {
    var r0 := Run(EMPTY, map[], start);
    assert Invariant(c, r0);
    ExecuteKeepsInvariant(c, r0, events);
    var r := Execute(c, r0, events).value;
    assert RecordAgrees(c, SlotsOf(r.s, ip), LogOf(r, ip), r.clock);
    SpacedBoundsMinute(LogOf(r, ip), c.maxNewSessionsPerIpPerMin, t);
  }

  /** The pruned record of an address holds exactly the opens of its last minute. */
  lemma PrunedIsMinute(c: Config, slots: Slots, log: seq<int>, clock: int, now: int)
    requires RecordAgrees(c, slots, log, clock) && clock <= now
    ensures |Prune(slots.opens, now - WINDOW_MS)| == |InMinute(log, now)|
  {
    RecordFacts(c, slots, log, clock);
    PrunedEnd(slots.opens, log, clock, now);
    PruneSorted(slots.opens, now - WINDOW_MS);
    var kept := Prune(slots.opens, now - WINDOW_MS);
    assert InMinute(log, now) == Range(|log| - |kept|, |kept|) by {
      forall i | |log| - |kept| <= i < |log|
        ensures now - WINDOW_MS < log[i] <= now
      {
        assert log[i] == kept[i - (|log| - |kept|)];
      }
    }
  }

  /** In every reachable state the limiter decides as if it counted the whole history: an open is
      admitted exactly if no cap is reached and the last minute holds fewer than N admitted opens,
      and the first cap that is reached is the reason of a denial. */
  lemma AdmitsExactlyWhen(c: Config, r: Run, ip: string, now: int)
    requires Invariant(c, r) && r.clock <= now
    ensures var result := Acquired(c, r.s, ip, now).1;
            var full := r.s.totalActive == c.maxTotalSessions;
            var crowded := SlotsOf(r.s, ip).active == c.maxSessionsPerIp;
            var busy := |InMinute(LogOf(r, ip), now)| >= c.maxNewSessionsPerIpPerMin;
            && (result.Admitted? <==> !full && !crowded && !busy)
            && (result.Denied? && result.reason == GlobalCap <==> full)
            && (result.Denied? && result.reason == IpActiveCap <==> !full && crowded)
            && (result.Denied? && result.reason == IpBurstCap <==> !full && !crowded && busy)
            && (result.Denied? && result.reason != IpBurstCap ==> result.retryAfterSeconds == 30)
  {
    hide Prune, InMinute;
    assert RecordAgrees(c, SlotsOf(r.s, ip), LogOf(r, ip), r.clock);
    PrunedIsMinute(c, SlotsOf(r.s, ip), LogOf(r, ip), r.clock, now);
  }

  /** A release takes one session off the address and off the total, leaves every other address
      alone, and forgets the address exactly when nothing of it is active or remembered. */
  lemma ReleaseTakesOne(c: Config, r: Run, ip: string, other: string)
    requires Invariant(c, r) && SlotsOf(r.s, ip).active >= 1 && other != ip
    ensures var was, after := SlotsOf(r.s, ip), Released(r.s, ip);
            && SlotsOf(after, ip).active == was.active - 1
            && (ip in after.perIp <==> was.active > 1 || was.opens != [])
            && (ip in after.perIp ==> after.perIp[ip].opens == was.opens)
            && (other in after.perIp <==> other in r.s.perIp) && SlotsOf(after, other) == SlotsOf(r.s, other)
            && after.totalActive == if r.s.totalActive >= 1 then r.s.totalActive - 1 else 0
  {
  }

  // ---------- the advice given with a burst denial ----------

  /** The burst test that `Acquire` makes at time `now`. */
  predicate BurstTestPasses(c: Config, s: State, ip: string, now: int) {
    |Prune(SlotsOf(s, ip).opens, now - WINDOW_MS)| < c.maxNewSessionsPerIpPerMin
  }

  /** In every reachable state, a burst denial advises the exact number of seconds: it is
      between 1 and 60, the test passes after waiting that long, and it still fails one
      second earlier. */
  lemma RetryAfterIsExact(c: Config, r: Run, ip: string, now: int)
    requires Invariant(c, r) && r.clock <= now && c.maxNewSessionsPerIpPerMin > 0
    requires Acquired(c, r.s, ip, now).1.Denied? && Acquired(c, r.s, ip, now).1.reason == IpBurstCap
    ensures var wait := Acquired(c, r.s, ip, now).1.retryAfterSeconds;
            var s' := Acquired(c, r.s, ip, now).0;
            && 1 <= wait <= 60
            && BurstTestPasses(c, s', ip, now + 1000 * wait)
            && !BurstTestPasses(c, s', ip, now + 1000 * (wait - 1))
  {
    var slots := SlotsOf(r.s, ip);
    RecordFacts(c, slots, LogOf(r, ip), r.clock);
    BurstDenied(c, r.s, ip, now);
    PrunedWindow(slots.opens, now);
    WaitIsExact(PrunedSlots(r.s, ip, now).opens, now);
  }

  lemma RecordFacts(c: Config, slots: Slots, log: seq<int>, clock: int)
    requires RecordAgrees(c, slots, log, clock)
    ensures Sorted(slots.opens) && |slots.opens| <= c.maxNewSessionsPerIpPerMin
    ensures forall i :: 0 <= i < |slots.opens| ==> slots.opens[i] <= clock
  {
    var d := |log| - |slots.opens|;
    assert forall i :: 0 <= i < |slots.opens| ==> slots.opens[i] == log[d + i];
  }

  lemma PrunedWindow(opens: seq<int>, now: int)
    requires Sorted(opens) && forall i :: 0 <= i < |opens| ==> opens[i] <= now
    ensures var kept := Prune(opens, now - WINDOW_MS);
            Sorted(kept) && forall i :: 0 <= i < |kept| ==> now - WINDOW_MS < kept[i] <= now
  {
    PruneSorted(opens, now - WINDOW_MS);
  }

  lemma BurstDenied(c: Config, s: State, ip: string, now: int)
    requires Acquired(c, s, ip, now).1.Denied? && Acquired(c, s, ip, now).1.reason == IpBurstCap
    requires c.maxNewSessionsPerIpPerMin > 0
    ensures var pruned := PrunedSlots(s, ip, now);
            && SlotsOf(Acquired(c, s, ip, now).0, ip) == pruned
            && |pruned.opens| >= c.maxNewSessionsPerIpPerMin
            && Acquired(c, s, ip, now).1.retryAfterSeconds == RetryAfter(pruned.opens[0], now)
  {
  }

  lemma RoundedUp(oldest: int, now: int)
    requires now - WINDOW_MS < oldest <= now
    ensures var wait := RetryAfter(oldest, now);
            && 1 <= wait <= 60
            && now + 1000 * (wait - 1) < oldest + WINDOW_MS <= now + 1000 * wait
  {
  }

  /** The oldest of a window's opens leaves it after the advised time and no earlier. */
  lemma WaitIsExact(opens: seq<int>, now: int)
    requires Sorted(opens) && opens != []
    requires forall i :: 0 <= i < |opens| ==> now - WINDOW_MS < opens[i] <= now
    ensures var wait := RetryAfter(opens[0], now);
            && 1 <= wait <= 60
            && |Prune(opens, now + 1000 * wait - WINDOW_MS)| < |opens|
            && Prune(opens, now + 1000 * (wait - 1) - WINDOW_MS) == opens
  {
    hide RetryAfter;
    var wait := RetryAfter(opens[0], now);
    RoundedUp(opens[0], now);
    PruneSorted(opens, now + 1000 * wait - WINDOW_MS);
    PruneNothing(opens, now + 1000 * (wait - 1) - WINDOW_MS);
  }
}
