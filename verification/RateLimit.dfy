/** The relayer's three-layer rate limiter over Redis sorted sets. Request times and server
    times are milliseconds, member scores microseconds, so that the fractional offsets of
    the source are integers. A sorted set whose members are their own scores is a set. */
module RateLimit {
  import opened Common

  // ---------- one sorted set ----------

  /** A key's sorted set and the server time at which its TTL runs out. */
  datatype Window = Window(members: set<int>, expiresAt: Option<int>)

  const NO_WINDOW: Window := Window({}, None)

  /** A layer's window length, TTL and score offset. */
  datatype Layer = Layer(windowMs: int, ttlMs: int, offsetUs: int)

  const DELEGATE_KEY: Layer := Layer(60_000, 120_000, 0)
  const ACCOUNT_BURST: Layer := Layer(60_000, 120_000, 100)
  const ACCOUNT_SUSTAINED: Layer := Layer(3_600_000, 3_700_000, 200)
  const MAX_WEIGHT: nat := 10

  function EndpointWeight(path: string): (w: nat)
    ensures 1 <= w <= MAX_WEIGHT
  {
    if path == "/api/analyze" then 10
    else if path == "/api/remember" then 5
    else if path == "/api/remember/manual" then 3
    else if path == "/api/restore" then 3
    else if path == "/api/ask" then 2
    else 1
  }

  const WEIGHED: seq<string> := ["/api/analyze", "/api/remember", "/api/remember/manual", "/api/restore", "/api/ask"]

  /** The costlier an endpoint, the more it weighs; what is not listed weighs least. */
  lemma CostlierWeighsMore(other: string)
    requires other !in WEIGHED
    ensures EndpointWeight(WEIGHED[0]) == MAX_WEIGHT > EndpointWeight(WEIGHED[1]) > EndpointWeight(WEIGHED[2])
            == EndpointWeight(WEIGHED[3]) > EndpointWeight(WEIGHED[4]) > EndpointWeight(other)
    ensures seq(5, i requires 0 <= i < 5 => EndpointWeight(WEIGHED[i])) == [10, 5, 3, 3, 2] && EndpointWeight(other) == 1
  {
    assert |WEIGHED[0]| == 12 && |WEIGHED[1]| == 13 && |WEIGHED[2]| == 20 && |WEIGHED[4]| == 8;
    assert |WEIGHED[3]| == 12 && WEIGHED[3][5] == 'r' && WEIGHED[0][5] == 'a';
    assert forall i :: 0 <= i < 5 ==> WEIGHED[i] in WEIGHED;
  }

  /** What the server still holds at time `at`. */
  function Alive(w: Window, at: int): Window {
    if w.expiresAt.Some? && at >= w.expiresAt.value then NO_WINDOW else w
  }

  /** ZREMRANGEBYSCORE from 0 to the start of the window; an emptied key is deleted. */
  function Checked(w: Window, now: int, layer: Layer, at: int): Window {
    var alive := Alive(w, at);
    var kept := set m | m in alive.members && !(0 <= m <= (now - layer.windowMs) * 1000);
    if kept == {} then NO_WINDOW else Window(kept, alive.expiresAt)
  }

  /** The layer admits a request: after pruning, fewer members than the limit are left. */
  predicate Room(w: Window, layer: Layer, limit: int, now: int, at: int) {
    |Checked(w, now, layer, at).members| < limit
  }

  /** The scores that a request of weight `weight` at `now` adds. */
  function Scores(now: int, weight: nat, layer: Layer): (s: set<int>)
    ensures |s| == weight
    ensures forall m :: m in s <==> now * 1000 + layer.offsetUs <= m < now * 1000 + layer.offsetUs + weight
  {
    Range(now * 1000 + layer.offsetUs, weight)
  }

  /** ZADD of every score, then EXPIRE. */
  function Recorded(w: Window, now: int, weight: nat, layer: Layer, at: int): Window {
    Window(Alive(w, at).members + Scores(now, weight, layer), Some(at + layer.ttlMs))
  }

  lemma NoScores(now: int, layer: Layer)
    ensures Scores(now, 0, layer) == {}
  {
  }

  lemma OneMoreScore(now: int, weight: nat, layer: Layer)
    ensures Scores(now, weight + 1, layer) == Scores(now, weight, layer) + {now * 1000 + layer.offsetUs + weight}
  {
  }

  // ---------- the middleware over the shared store ----------

  /** A Redis command is carried out and answered, carried out without an answer, or lost. */
  datatype Reply = Answered | Unanswered | Unserved

  function AfterCheck(w: Window, now: int, layer: Layer, at: int, reply: Reply): Window {
    if reply.Unserved? then w else Checked(w, now, layer, at)
  }

  function AfterRecord(w: Window, now: int, weight: nat, layer: Layer, at: int, reply: Reply): Window {
    if reply.Unserved? then w else Recorded(w, now, weight, layer, at)
  }

  datatype Limits = Limits(perDelegateKey: int, perMinute: int, perHour: int)

  datatype Verdict = Pass | Reject(layer: Layer, retryAfter: nat)

  function DelegateKeyName(publicKey: string): string { "rate:dk:" + publicKey }
  function BurstName(owner: string): string { "rate:" + owner }
  function HourlyName(owner: string): string { "rate:hr:" + owner }

  /** Owners are Sui addresses, so the three names of one request are three keys, and no
      name of one layer is a name of another. */
  lemma NamesDistinct(publicKey: string, owner: string, other: string)
    requires |owner| >= 2 && owner[..2] == "0x"
    ensures DelegateKeyName(publicKey) != BurstName(owner)
    ensures HourlyName(other) != BurstName(owner)
    ensures DelegateKeyName(publicKey) != HourlyName(other)
  {
    assert BurstName(owner)[5] == owner[0] == owner[..2][0] == '0';
    assert DelegateKeyName(publicKey)[5] == 'd' && HourlyName(other)[5] == 'h';
  }

  /** The first layer whose check was answered and found the limit reached. */
  function Judged(dk: Window, burst: Window, hourly: Window, limits: Limits, reply: seq<Reply>): Verdict
    requires |reply| == 6
  {
    if reply[0].Answered? && |dk.members| >= limits.perDelegateKey then Reject(DELEGATE_KEY, 60)
    else if reply[1].Answered? && |burst.members| >= limits.perMinute then Reject(ACCOUNT_BURST, 60)
    else if reply[2].Answered? && |hourly.members| >= limits.perHour then Reject(ACCOUNT_SUSTAINED, 300)
    else Pass
  }

  class Redis {
    var windows: map<string, Window>

    function At(key: string): Window
      reads this
    {
      if key in windows then windows[key] else NO_WINDOW
    }

    constructor ()
      ensures windows == map[]
    {
      windows := map[];
    }

    /** A command that is not answered leaves the caller without a count. */
    method CheckWindow(key: string, now: int, layer: Layer, at: int, reply: Reply) returns (count: Option<int>)
      modifies this
      ensures windows == if reply.Unserved? then old(windows) else old(windows)[key := Checked(old(At(key)), now, layer, at)]
      ensures count == if reply.Answered? then Some(|windows[key].members|) else None
    {
      if reply.Unserved? {
        return None;
      }
      var w := Checked(At(key), now, layer, at);
      windows := windows[key := w];
      count := if reply.Answered? then Some(|w.members|) else None;
    }

    method RecordInWindow(key: string, now: int, weight: nat, layer: Layer, at: int, reply: Reply)
      modifies this
      ensures windows == if reply.Unserved? then old(windows)
                         else old(windows)[key := Recorded(old(At(key)), now, weight, layer, at)]
    {
      hide Scores;
      var added: set<int> := {};
      NoScores(now, layer);
      for i := 0 to weight
        invariant added == Scores(now, i, layer)
        invariant windows == old(windows)
      {
        OneMoreScore(now, i, layer);
        added := added + {now * 1000 + layer.offsetUs + i};
      }
      if !reply.Unserved? {
        windows := windows[key := Window(Alive(At(key), at).members + added, Some(at + layer.ttlMs))];
      }
    }

    /** The three checks; the first layer that is full rejects. A check without an answer lets
        the request go on. */
    method CheckLayers(dk: string, burst: string, hourly: string, limits: Limits, now: int, at: seq<int>, reply: seq<Reply>)
      returns (verdict: Verdict)
      requires dk != burst && hourly != burst && dk != hourly && |at| == |reply| == 6
      modifies this
      ensures var dkRoom := reply[0].Answered? ==> Room(old(At(dk)), DELEGATE_KEY, limits.perDelegateKey, now, at[0]);
              var burstRoom := reply[1].Answered? ==> Room(old(At(burst)), ACCOUNT_BURST, limits.perMinute, now, at[1]);
              var hourlyRoom := reply[2].Answered? ==> Room(old(At(hourly)), ACCOUNT_SUSTAINED, limits.perHour, now, at[2]);
              && (verdict == Pass <==> dkRoom && burstRoom && hourlyRoom)
              && (verdict == Reject(DELEGATE_KEY, 60) <==> !dkRoom)
              && (verdict == Reject(ACCOUNT_BURST, 60) <==> dkRoom && !burstRoom)
              && (verdict == Reject(ACCOUNT_SUSTAINED, 300) <==> dkRoom && burstRoom && !hourlyRoom)
      ensures
        var dk1 := AfterCheck(old(At(dk)), now, DELEGATE_KEY, at[0], reply[0]);
        var burst1 := AfterCheck(old(At(burst)), now, ACCOUNT_BURST, at[1], reply[1]);
        var hourly1 := AfterCheck(old(At(hourly)), now, ACCOUNT_SUSTAINED, at[2], reply[2]);
        && verdict == Judged(dk1, burst1, hourly1, limits, reply)
        && At(dk) == dk1
        && At(burst) == (if verdict == Reject(DELEGATE_KEY, 60) then old(At(burst)) else burst1)
        && At(hourly) == (if verdict.Reject? && verdict.layer != ACCOUNT_SUSTAINED then old(At(hourly)) else hourly1)
      ensures forall k :: k != dk && k != burst && k != hourly ==> At(k) == old(At(k))
    {
      hide Checked;
      var count := CheckWindow(dk, now, DELEGATE_KEY, at[0], reply[0]);
      if count.Some? && count.value >= limits.perDelegateKey {
        return Reject(DELEGATE_KEY, 60);
      }
      count := CheckWindow(burst, now, ACCOUNT_BURST, at[1], reply[1]);
      if count.Some? && count.value >= limits.perMinute {
        return Reject(ACCOUNT_BURST, 60);
      }
      count := CheckWindow(hourly, now, ACCOUNT_SUSTAINED, at[2], reply[2]);
      if count.Some? && count.value >= limits.perHour {
        return Reject(ACCOUNT_SUSTAINED, 300);
      }
      return Pass;
    }

    method RecordLayers(dk: string, burst: string, hourly: string, now: int, weight: nat, at: seq<int>, reply: seq<Reply>)
      requires dk != burst && hourly != burst && dk != hourly && |at| == |reply| == 6
      modifies this
      ensures At(dk) == AfterRecord(old(At(dk)), now, weight, DELEGATE_KEY, at[3], reply[3])
      ensures At(burst) == AfterRecord(old(At(burst)), now, weight, ACCOUNT_BURST, at[4], reply[4])
      ensures At(hourly) == AfterRecord(old(At(hourly)), now, weight, ACCOUNT_SUSTAINED, at[5], reply[5])
      ensures forall k :: k != dk && k != burst && k != hourly ==> At(k) == old(At(k))
    {
      hide Recorded;
      RecordInWindow(dk, now, weight, DELEGATE_KEY, at[3], reply[3]);
      RecordInWindow(burst, now, weight, ACCOUNT_BURST, at[4], reply[4]);
      RecordInWindow(hourly, now, weight, ACCOUNT_SUSTAINED, at[5], reply[5]);
    }

    /** One request, run without interruption. The server times and replies are those of its
        three checks and its three records. */
    method Middleware(publicKey: string, owner: string, path: string, limits: Limits, now: int, at: seq<int>,
                      reply: seq<Reply>)
      returns (verdict: Verdict)
      requires |owner| >= 2 && owner[..2] == "0x" && |at| == |reply| == 6
      modifies this
      ensures var (dk, burst, hourly) := (DelegateKeyName(publicKey), BurstName(owner), HourlyName(owner));
              var dkRoom := reply[0].Answered? ==> Room(old(At(dk)), DELEGATE_KEY, limits.perDelegateKey, now, at[0]);
              var burstRoom := reply[1].Answered? ==> Room(old(At(burst)), ACCOUNT_BURST, limits.perMinute, now, at[1]);
              var hourlyRoom := reply[2].Answered? ==> Room(old(At(hourly)), ACCOUNT_SUSTAINED, limits.perHour, now, at[2]);
              && (verdict == Pass <==> dkRoom && burstRoom && hourlyRoom)
              && (verdict == Reject(DELEGATE_KEY, 60) <==> !dkRoom)
              && (verdict == Reject(ACCOUNT_BURST, 60) <==> dkRoom && !burstRoom)
              && (verdict == Reject(ACCOUNT_SUSTAINED, 300) <==> dkRoom && burstRoom && !hourlyRoom)
      ensures
        var (dk, burst, hourly) := (DelegateKeyName(publicKey), BurstName(owner), HourlyName(owner));
        var w := EndpointWeight(path);
        var dk1 := AfterCheck(old(At(dk)), now, DELEGATE_KEY, at[0], reply[0]);
        var burst1 := AfterCheck(old(At(burst)), now, ACCOUNT_BURST, at[1], reply[1]);
        var hourly1 := AfterCheck(old(At(hourly)), now, ACCOUNT_SUSTAINED, at[2], reply[2]);
        && verdict == Judged(dk1, burst1, hourly1, limits, reply)
        && (verdict.Pass? ==> && At(dk) == AfterRecord(dk1, now, w, DELEGATE_KEY, at[3], reply[3])
                              && At(burst) == AfterRecord(burst1, now, w, ACCOUNT_BURST, at[4], reply[4])
                              && At(hourly) == AfterRecord(hourly1, now, w, ACCOUNT_SUSTAINED, at[5], reply[5]))
        && (verdict.Reject? ==>
              && At(dk) == dk1
              && At(burst) == (if verdict.layer == DELEGATE_KEY then old(At(burst)) else burst1)
              && At(hourly) == (if verdict.layer == ACCOUNT_SUSTAINED then hourly1 else old(At(hourly))))
        && (forall k :: k != dk && k != burst && k != hourly ==> At(k) == old(At(k)))
    {
      hide AfterCheck, AfterRecord, EndpointWeight, DelegateKeyName, BurstName, HourlyName;
      var dk, burst, hourly := DelegateKeyName(publicKey), BurstName(owner), HourlyName(owner);
      NamesDistinct(publicKey, owner, owner);
      verdict := CheckLayers(dk, burst, hourly, limits, now, at, reply);
      if verdict.Pass? {
        RecordLayers(dk, burst, hourly, now, EndpointWeight(path), at, reply);
      }
    }
  }

  // ---------- one key under any interleaving of requests ----------

  /** A request that has passed the check of a key. */
  datatype Admission = Admission(now: int, weight: nat)

  /** A key: its sorted set, every member ever added, the latest time a check was made
      for, the requests between check and record, those recorded, and the server clock. */
  datatype Key = Key(
    window: Window, ever: set<int>, latest: int, pending: map<nat, Admission>, log: seq<Admission>, clock: int)

  const FRESH: Key := Key(NO_WINDOW, {}, 0, map[], [], 0)

  datatype Event =
    | Check(id: nat, now: int, weight: nat, at: int)
    | Record(id: nat, at: int)
    | Drop(id: nat)

  /** A layer together with its limit and the greatest number of requests that are ever
      between check and record for the key. */
  datatype Setting = Setting(layer: Layer, limit: int, overlap: nat)

  predicate Proper(g: Setting) {
    && 0 < g.layer.windowMs < g.layer.ttlMs
    && 0 <= g.layer.offsetUs <= 200
  }

  /** `now` was sampled before the server acted, less than TTL - window earlier. */
  predicate Prompt(g: Setting, now: int, at: int) {
    now <= at < now + (g.layer.ttlMs - g.layer.windowMs)
  }

  predicate Admits(g: Setting, k: Key, now: int, at: int) {
    Room(k.window, g.layer, g.limit, now, at)
  }

  predicate Enabled(g: Setting, k: Key, e: Event) {
    match e
    case Check(id, now, weight, at) =>
      && id !in k.pending && now >= 0 && 1 <= weight <= MAX_WEIGHT
      && k.clock <= at && Prompt(g, now, at)
      && (Admits(g, k, now, at) ==> |k.pending| < g.overlap)
    case Record(id, at) => id in k.pending && k.clock <= at && Prompt(g, k.pending[id].now, at)
    case Drop(id) => id in k.pending
  }

  function Max(a: int, b: int): int {
    if a >= b then a else b
  }

  function Step(g: Setting, k: Key, e: Event): Key
    requires Enabled(g, k, e)
  {
    match e
    case Check(id, now, weight, at) =>
      k.(window := Checked(k.window, now, g.layer, at), latest := Max(k.latest, now), clock := at,
         pending := if Admits(g, k, now, at) then k.pending[id := Admission(now, weight)] else k.pending)
    case Record(id, at) =>
      var a := k.pending[id];
      k.(window := Recorded(k.window, a.now, a.weight, g.layer, at), ever := k.ever + Scores(a.now, a.weight, g.layer),
         pending := k.pending - {id}, log := k.log + [a], clock := at)
    case Drop(id) => k.(pending := k.pending - {id})
  }

  function Execute(g: Setting, k: Key, events: seq<Event>): Option<Key>
    decreases |events|
  {
    if events == [] then Some(k)
    else if Enabled(g, k, events[0]) then Execute(g, Step(g, k, events[0]), events[1..])
    else None
  }

  /** What the middleware does to a key is one check, and one record if every layer admits. */
  lemma PassedRequestSteps(g: Setting, k: Key, id: nat, now: int, weight: nat, checkedAt: int, recordedAt: int)
    requires Enabled(g, k, Check(id, now, weight, checkedAt)) && Admits(g, k, now, checkedAt)
    requires checkedAt <= recordedAt && Prompt(g, now, recordedAt)
    ensures var after := Execute(g, k, [Check(id, now, weight, checkedAt), Record(id, recordedAt)]);
            && after.Some? && after.value.pending == k.pending && after.value.log == k.log + [Admission(now, weight)]
            && after.value.window
               == Recorded(Checked(k.window, now, g.layer, checkedAt), now, weight, g.layer, recordedAt)
  {
    hide Checked, Recorded, Scores;
    ExecutePair(g, k, Check(id, now, weight, checkedAt), Record(id, recordedAt));
    assert k.pending[id := Admission(now, weight)] - {id} == k.pending;
  }

  /** The machine of a key can take a request's check and its record at these server times. */
  ghost predicate Ready(g: Setting, k: Key, id: nat, now: int, weight: nat, checkedAt: int, recordedAt: int) {
    Enabled(g, k, Check(id, now, weight, checkedAt)) && checkedAt <= recordedAt && Prompt(g, now, recordedAt)
  }

  /** A check and a record take the machine to the window `after`, with one more request in its log. */
  ghost predicate ChecksAndRecords(g: Setting, k: Key, id: nat, now: int, weight: nat, checkedAt: int, recordedAt: int,
                                   after: Window)
  {
    var k' := Execute(g, k, [Check(id, now, weight, checkedAt), Record(id, recordedAt)]);
    k'.Some? && k'.value.window == after && k'.value.pending == k.pending && k'.value.log == k.log + [Admission(now, weight)]
  }

  /** A check that is not followed by a record takes the machine to the window `after`. */
  ghost predicate ChecksOnly(g: Setting, k: Key, id: nat, now: int, weight: nat, checkedAt: int, after: Window) {
    var k' := Execute(g, k, [Check(id, now, weight, checkedAt)] + if Admits(g, k, now, checkedAt) then [Drop(id)] else []);
    k'.Some? && k'.value.window == after && k'.value.pending == k.pending && k'.value.log == k.log
  }

  lemma CheckAlone(g: Setting, k: Key, id: nat, now: int, weight: nat, at: int)
    requires Enabled(g, k, Check(id, now, weight, at))
    ensures ChecksOnly(g, k, id, now, weight, at, Checked(k.window, now, g.layer, at))
  {
    hide Checked, Room;
    var check := Check(id, now, weight, at);
    if Admits(g, k, now, at) {
      ExecutePair(g, k, check, Drop(id));
      assert [check] + [Drop(id)] == [check, Drop(id)];
      assert k.pending[id := Admission(now, weight)] - {id} == k.pending;
    } else {
      assert [check] + [] == [check];
      assert Execute(g, Step(g, k, check), []) == Some(Step(g, k, check));
    }
  }

  /** A request on the machines of its three keys, with every command answered: it passes exactly
      if each machine admits it under its own limit, and is then one check and one record of each;
      otherwise it is a check of each layer up to the first that does not admit it. */
  lemma RequestStepsMachines(limits: Limits, overlap: nat, dk: Key, burst: Key, hourly: Key, id: nat, now: int,
                             weight: nat, at: seq<int>)
    requires |at| == 6
    requires Ready(Setting(DELEGATE_KEY, limits.perDelegateKey, overlap), dk, id, now, weight, at[0], at[3])
    requires Ready(Setting(ACCOUNT_BURST, limits.perMinute, overlap), burst, id, now, weight, at[1], at[4])
    requires Ready(Setting(ACCOUNT_SUSTAINED, limits.perHour, overlap), hourly, id, now, weight, at[2], at[5])
    ensures
      var g1 := Setting(DELEGATE_KEY, limits.perDelegateKey, overlap);
      var g2 := Setting(ACCOUNT_BURST, limits.perMinute, overlap);
      var g3 := Setting(ACCOUNT_SUSTAINED, limits.perHour, overlap);
      var dk1 := AfterCheck(dk.window, now, DELEGATE_KEY, at[0], Answered);
      var burst1 := AfterCheck(burst.window, now, ACCOUNT_BURST, at[1], Answered);
      var hourly1 := AfterCheck(hourly.window, now, ACCOUNT_SUSTAINED, at[2], Answered);
      match Judged(dk1, burst1, hourly1, limits, seq(6, _ => Answered))
      case Pass =>
        && Admits(g1, dk, now, at[0]) && Admits(g2, burst, now, at[1]) && Admits(g3, hourly, now, at[2])
        && ChecksAndRecords(g1, dk, id, now, weight, at[0], at[3],
                            AfterRecord(dk1, now, weight, DELEGATE_KEY, at[3], Answered))
        && ChecksAndRecords(g2, burst, id, now, weight, at[1], at[4],
                            AfterRecord(burst1, now, weight, ACCOUNT_BURST, at[4], Answered))
        && ChecksAndRecords(g3, hourly, id, now, weight, at[2], at[5],
                            AfterRecord(hourly1, now, weight, ACCOUNT_SUSTAINED, at[5], Answered))
      case Reject(layer, _) =>
        && ChecksOnly(g1, dk, id, now, weight, at[0], dk1)
        && (layer == DELEGATE_KEY <==> !Admits(g1, dk, now, at[0]))
        && (layer != DELEGATE_KEY ==>
              && ChecksOnly(g2, burst, id, now, weight, at[1], burst1)
              && (layer == ACCOUNT_BURST <==> !Admits(g2, burst, now, at[1])))
        && (layer == ACCOUNT_SUSTAINED ==>
              && ChecksOnly(g3, hourly, id, now, weight, at[2], hourly1)
              && !Admits(g3, hourly, now, at[2]))
  {
    hide Checked, Recorded, Execute, Enabled, Prompt, ChecksAndRecords, ChecksOnly;
    var g1 := Setting(DELEGATE_KEY, limits.perDelegateKey, overlap);
    var g2 := Setting(ACCOUNT_BURST, limits.perMinute, overlap);
    var g3 := Setting(ACCOUNT_SUSTAINED, limits.perHour, overlap);
    CheckAlone(g1, dk, id, now, weight, at[0]);
    CheckAlone(g2, burst, id, now, weight, at[1]);
    CheckAlone(g3, hourly, id, now, weight, at[2]);
    if Admits(g1, dk, now, at[0]) && Admits(g2, burst, now, at[1]) && Admits(g3, hourly, now, at[2]) {
      CheckThenRecord(g1, dk, id, now, weight, at[0], at[3]);
      CheckThenRecord(g2, burst, id, now, weight, at[1], at[4]);
      CheckThenRecord(g3, hourly, id, now, weight, at[2], at[5]);
    }
  }

  lemma CheckThenRecord(g: Setting, k: Key, id: nat, now: int, weight: nat, checkedAt: int, recordedAt: int)
    requires Ready(g, k, id, now, weight, checkedAt, recordedAt) && Admits(g, k, now, checkedAt)
    ensures ChecksAndRecords(g, k, id, now, weight, checkedAt, recordedAt,
                             Recorded(Checked(k.window, now, g.layer, checkedAt), now, weight, g.layer, recordedAt))
  {
    hide Checked, Recorded, Execute, Enabled, Prompt, Room;
    PassedRequestSteps(g, k, id, now, weight, checkedAt, recordedAt);
  }

  // ---------- the pruned, expiring set is the sliding window ----------

  /** The members of `s` with a score after the millisecond `t`. */
  ghost function Since(s: set<int>, t: int): set<int> {
    set m | m in s && m > t * 1000
  }

  ghost predicate PendingProper(k: Key) {
    forall id :: id in k.pending ==> 0 <= k.pending[id].now <= k.latest && 1 <= k.pending[id].weight <= MAX_WEIGHT
  }

  /** Nothing that a check could still count has been lost to pruning, and nothing will be
      lost to expiry: when the TTL runs out, every member is out of every window. */
  ghost predicate Faithful(g: Setting, k: Key) {
    && k.window.members <= k.ever
    && (forall m :: m in k.ever ==> m >= 0)
    && Since(k.ever, k.latest - g.layer.windowMs) <= k.window.members
    && (k.window.expiresAt.None? ==> k.window.members == {})
    && (k.window.expiresAt.Some? ==>
          forall m :: m in k.ever ==> m < (k.window.expiresAt.value - g.layer.ttlMs + 1) * 1000)
    && PendingProper(k)
  }

  /** If the TTL has run out when a prompt request acts, its window has nothing in it. */
  lemma ExpiredIsOutside(g: Setting, k: Key, now: int, at: int)
    requires Proper(g) && Faithful(g, k) && Prompt(g, now, at)
    requires k.window.expiresAt.Some? && at >= k.window.expiresAt.value
    ensures Since(k.ever, now - g.layer.windowMs) == {}
  {
  }

  lemma CheckedFaithful(g: Setting, k: Key, now: int, at: int)
    requires Proper(g) && Faithful(g, k) && Prompt(g, now, at)
    ensures var w := Checked(k.window, now, g.layer, at);
            && w.members <= Since(k.ever, now - g.layer.windowMs)
            && Since(k.ever, Max(k.latest, now) - g.layer.windowMs) <= w.members
            && (w.expiresAt.None? ==> w.members == {})
            && (w.expiresAt.Some? ==> w.expiresAt == k.window.expiresAt)
  {
    if k.window.expiresAt.Some? && at >= k.window.expiresAt.value {
      ExpiredIsOutside(g, k, now, at);
    }
    forall m | m in Since(k.ever, Max(k.latest, now) - g.layer.windowMs)
      ensures m in Checked(k.window, now, g.layer, at).members
    {
      assert m in Since(k.ever, k.latest - g.layer.windowMs);
      assert m in Since(k.ever, now - g.layer.windowMs);
    }
  }

  lemma RecordKeepsMembers(g: Setting, k: Key, a: Admission, at: int)
    requires Proper(g) && Faithful(g, k) && a.now <= k.latest && Prompt(g, a.now, at)
    ensures var added := Scores(a.now, a.weight, g.layer);
            Since(k.ever + added, k.latest - g.layer.windowMs) <= Alive(k.window, at).members + added
    ensures Alive(k.window, at).members <= k.ever
  {
    hide Scores;
    if k.window.expiresAt.Some? && at >= k.window.expiresAt.value {
      ExpiredIsOutside(g, k, a.now, at);
    }
    forall m | m in Since(k.ever, k.latest - g.layer.windowMs)
      ensures m in Alive(k.window, at).members
    {
      assert m in Since(k.ever, a.now - g.layer.windowMs);
    }
  }

  /** When the record resets the TTL, no member is later than the moment it acts. */
  lemma RecordBeforeExpiry(g: Setting, k: Key, a: Admission, at: int)
    requires Proper(g) && Faithful(g, k) && Clocked(g, k)
    requires 0 <= a.now && a.weight <= MAX_WEIGHT && k.clock <= at && Prompt(g, a.now, at)
    ensures forall m :: m in k.ever + Scores(a.now, a.weight, g.layer) ==> 0 <= m < (at + 1) * 1000
  {
    forall m | m in k.ever + Scores(a.now, a.weight, g.layer)
      ensures 0 <= m < (at + 1) * 1000
    {
      if m in k.ever && k.window.expiresAt.None? {
        assert m !in Since(k.ever, k.latest - g.layer.windowMs);
      }
    }
  }

  lemma RecordFaithful(g: Setting, k: Key, id: nat, at: int)
    requires Proper(g) && Faithful(g, k) && Clocked(g, k) && Enabled(g, k, Record(id, at))
    ensures Faithful(g, Step(g, k, Record(id, at)))
  {
    hide Since, Scores, Alive, Range;
    var a := k.pending[id];
    RecordKeepsMembers(g, k, a, at);
    RecordBeforeExpiry(g, k, a, at);
  }

  ghost predicate Clocked(g: Setting, k: Key) {
    && k.latest <= k.clock
    && (k.window.expiresAt.Some? ==> k.window.expiresAt.value <= k.clock + g.layer.ttlMs)
  }

  lemma StepFaithful(g: Setting, k: Key, e: Event)
    requires Proper(g) && Faithful(g, k) && Clocked(g, k) && Enabled(g, k, e)
    ensures Faithful(g, Step(g, k, e)) && Clocked(g, Step(g, k, e))
  {
    match e {
      case Check(id, now, weight, at) => CheckedFaithful(g, k, now, at);
      case Record(id, at) => RecordFaithful(g, k, id, at);
      case Drop(id) =>
    }
  }

  // ---------- how far overlapping requests can exceed the limit ----------

  function Cap(g: Setting): int {
    g.limit - 1 + MAX_WEIGHT * g.overlap
  }

  /** Members present plus members still to come. A non-positive limit admits nothing. */
  ghost predicate WithinCap(g: Setting, k: Key) {
    && |k.pending| <= g.overlap
    && (g.limit > 0 ==> |k.window.members| + MAX_WEIGHT * |k.pending| <= Cap(g))
    && (g.limit <= 0 ==> k.window.members == {} && k.pending == map[])
  }

  lemma StepWithinCap(g: Setting, k: Key, e: Event)
    requires WithinCap(g, k) && PendingProper(k) && Enabled(g, k, e)
    ensures WithinCap(g, Step(g, k, e))
  {
    var k' := Step(g, k, e);
    match e {
      case Check(id, now, weight, at) =>
        SubsetSize(k'.window.members, k.window.members);
      case Record(id, at) =>
        var a := k.pending[id];
        SubsetSize(Alive(k.window, at).members, k.window.members);
        assert |k'.window.members| <= |k.window.members| + MAX_WEIGHT;
        assert |k.pending - {id}| == |k.pending| - 1 by {
          assert (k.pending - {id}).Keys == k.pending.Keys - {id};
        }
      case Drop(id) =>
        assert |k.pending - {id}| == |k.pending| - 1 by {
          assert (k.pending - {id}).Keys == k.pending.Keys - {id};
        }
    }
  }

  ghost predicate Invariant(g: Setting, k: Key) {
    Faithful(g, k) && Clocked(g, k) && WithinCap(g, k)
  }

  lemma StepKeepsInvariant(g: Setting, k: Key, e: Event)
    requires Proper(g) && Invariant(g, k) && Enabled(g, k, e)
    ensures Invariant(g, Step(g, k, e))
  {
    StepFaithful(g, k, e);
    StepWithinCap(g, k, e);
  }

  lemma FreshInvariant(g: Setting)
    ensures Invariant(g, FRESH)
  {
  }

  /** Some of what the invariant says about the requests between check and record. */
  lemma InvariantFacts(g: Setting, k: Key)
    requires Invariant(g, k)
    ensures |k.pending| <= g.overlap && PendingProper(k) && Faithful(g, k)
  {
  }

  lemma {:induction false} ExecuteKeepsInvariant(g: Setting, k: Key, events: seq<Event>)
    requires Proper(g) && Invariant(g, k) && Execute(g, k, events).Some?
    ensures Invariant(g, Execute(g, k, events).value)
    decreases |events|
  {
    hide Step, Enabled, Invariant;
    if events == [] {
    } else {
      StepKeepsInvariant(g, k, events[0]);
      ExecuteKeepsInvariant(g, Step(g, k, events[0]), events[1..]);
    }
  }

  ghost predicate Reaches(g: Setting, events: seq<Event>, k: Key) {
    Proper(g) && Execute(g, FRESH, events) == Some(k)
  }

  lemma ReachableInvariant(g: Setting, events: seq<Event>, k: Key)
    requires Reaches(g, events, k)
    ensures Invariant(g, k)
  {
    FreshInvariant(g);
    hide Invariant, Execute;
    ExecuteKeepsInvariant(g, FRESH, events);
  }

  /** Refinement: over every run, what a check counts lies between the members ever added
      since the start of the latest window checked and those since the start of its own.
      A check that is not overtaken by one for a later time counts its window exactly. */
  lemma CountIsWindow(g: Setting, events: seq<Event>, k: Key, now: int, at: int)
    requires Reaches(g, events, k) && Prompt(g, now, at)
    ensures var counted := Checked(k.window, now, g.layer, at).members;
            && Since(k.ever, Max(k.latest, now) - g.layer.windowMs) <= counted <= Since(k.ever, now - g.layer.windowMs)
            && (now >= k.latest ==> |counted| == |Since(k.ever, now - g.layer.windowMs)|)
  {
    ReachableInvariant(g, events, k);
    CheckedFaithful(g, k, now, at);
    assert now >= k.latest ==> Checked(k.window, now, g.layer, at).members == Since(k.ever, now - g.layer.windowMs);
  }

  /** Over every interleaving in which at most j requests are between check and record, the
      set never holds more than limit - 1 + 10 j members. */
  lemma SetBounded(g: Setting, events: seq<Event>, k: Key)
    requires Reaches(g, events, k)
    ensures g.limit > 0 ==> |k.window.members| <= g.limit - 1 + MAX_WEIGHT * g.overlap
    ensures g.limit <= 0 ==> k.window.members == {}
  {
    ReachableInvariant(g, events, k);
  }

  /** The layers as configured are proper. */
  lemma LayersProper(limit: int, overlap: nat)
    ensures Proper(Setting(DELEGATE_KEY, limit, overlap))
    ensures Proper(Setting(ACCOUNT_BURST, limit, overlap))
    ensures Proper(Setting(ACCOUNT_SUSTAINED, limit, overlap))
  {
  }

  // ---------- putting runs together ----------

  lemma {:induction false} ExecuteAppend(g: Setting, k: Key, a: seq<Event>, b: seq<Event>)
    requires Execute(g, k, a).Some?
    ensures Execute(g, k, a + b) == Execute(g, Execute(g, k, a).value, b)
    decreases |a|
  {
    hide Step, Enabled;
    if a == [] {
      assert a + b == b;
    } else {
      assert (a + b)[1..] == a[1..] + b;
      ExecuteAppend(g, Step(g, k, a[0]), a[1..], b);
    }
  }

  lemma ExecutePair(g: Setting, k: Key, a: Event, b: Event)
    requires Enabled(g, k, a) && Enabled(g, Step(g, k, a), b)
    ensures Execute(g, k, [a, b]) == Some(Step(g, Step(g, k, a), b))
  {
    hide Enabled, Step;
    assert [a, b][1..] == [b];
    assert Execute(g, Step(g, k, a), [b]) == Execute(g, Step(g, Step(g, k, a), b), []);
  }
}
