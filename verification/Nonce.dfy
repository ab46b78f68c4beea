/** The timestamp window and the nonce of `verify_signature`: how often one signed request can
    get past both, over a whole run. */
module Nonce {
  import opened Common

  const I64_MIN: int := -0x8000_0000_0000_0000
  const I64_MAX: int := 0x7fff_ffff_ffff_ffff

  predicate I64(x: int) {
    I64_MIN <= x <= I64_MAX
  }

  /** `window` and `ttl` are in seconds. The clocks tick `resolution` times a second and are read
      in whole seconds; up to `lag` ticks pass between the window test and the Redis command. */
  datatype Timing = Timing(window: nat, ttl: nat, resolution: nat, lag: nat)

  /** The two signed fields that the tests look at. */
  datatype Request = Request(nonce: string, timestamp: int)

  /** A command that fails may have been carried out. */
  datatype Reply = Answered | LostBefore | LostAfter

  datatype Attempt = Attempt(request: Request, checkedAt: int, setAt: int, reply: Reply)

  // ---------- the window ----------

  /** i64::checked_sub. */
  function CheckedSub(a: int, b: int): Option<int> {
    if I64(a - b) then Some(a - b) else None
  }

  function UnwrapOr(o: Option<int>, default: int): int {
    match o
    case Some(x) => x
    case None => default
  }

  predicate InWindow(window: nat, now: int, timestamp: int) {
    -(window as int) <= UnwrapOr(CheckedSub(now, timestamp), I64_MAX) <= window
  }

  /** No timestamp gets through by overflow: for every pair of 64-bit values the test is exactly
      the distance on the integers. */
  lemma WindowIsDistance(window: nat, now: int, timestamp: int)
    requires I64(now) && I64(timestamp) && window < I64_MAX
    ensures InWindow(window, now, timestamp) <==> (if now >= timestamp then now - timestamp else timestamp - now) <= window
  {
  }

  function Seconds(tick: int, resolution: nat): int
    requires resolution >= 1
  {
    tick / resolution
  }

  // ---------- the nonce store ----------

  /** SET key NX EX ttl: `expires` holds the last tick at which each key lives. */
  predicate Absent(expires: map<string, int>, nonce: string, at: int) {
    nonce !in expires || at > expires[nonce]
  }

  class Redis {
    var expires: map<string, int>

    constructor ()
      ensures expires == map[]
    {
      expires := map[];
    }

    method SetNxEx(nonce: string, at: int, ttlTicks: nat) returns (stored: bool)
      modifies this
      ensures stored == Absent(old(expires), nonce, at)
      ensures expires == if stored then old(expires)[nonce := at + ttlTicks] else old(expires)
    {
      stored := nonce !in expires || at > expires[nonce];
      if stored {
        expires := expires[nonce := at + ttlTicks];
      }
    }
  }

  /** An attempt as a function: the nonces afterwards, and whether it got through. */
  function Step(c: Timing, expires: map<string, int>, a: Attempt): (map<string, int>, bool)
    requires c.resolution >= 1
  {
    if !InWindow(c.window, Seconds(a.checkedAt, c.resolution), a.request.timestamp) then (expires, false)
    else if a.reply.LostBefore? || !Absent(expires, a.request.nonce, a.setAt) then (expires, false)
    else (expires[a.request.nonce := a.setAt + c.ttl * c.resolution], a.reply.Answered?)
  }

  /** A failing or negative answer rejects the request. */
  method Admit(redis: Redis, c: Timing, a: Attempt) returns (passed: bool)
    requires c.resolution >= 1
    modifies redis
    ensures (redis.expires, passed) == Step(c, old(redis.expires), a)
    ensures passed ==> a.reply.Answered?
  {
    var now := Seconds(a.checkedAt, c.resolution);
    var age := UnwrapOr(CheckedSub(now, a.request.timestamp), I64_MAX);
    if !(-(c.window as int) <= age <= c.window) {
      return false;
    }
    var answer: Option<bool> := None;
    if !a.reply.LostBefore? {
      var stored := redis.SetNxEx(a.request.nonce, a.setAt, c.ttl * c.resolution);
      if a.reply.Answered? {
        answer := Some(stored);
      }
    }
    passed := answer == Some(true);
  }

  /** For every pair of 64-bit times: an attempt gets through exactly if its time is within the window
      on either side, no living nonce stands in the way and Redis answers. A command that is carried
      out without an answer uses the nonce up and rejects the request. */
  lemma PassesExactlyWhen(c: Timing, expires: map<string, int>, a: Attempt)
    requires c.resolution >= 1 && c.window < I64_MAX
    requires I64(Seconds(a.checkedAt, c.resolution)) && I64(a.request.timestamp)
    ensures
      var now, nonce := Seconds(a.checkedAt, c.resolution), a.request.nonce;
      var near := (if now >= a.request.timestamp then now - a.request.timestamp else a.request.timestamp - now) <= c.window;
      var free := nonce !in expires || a.setAt > expires[nonce];
      var (after, passed) := Step(c, expires, a);
      && (passed <==> near && free && a.reply.Answered?)
      && (after != expires ==> near && free && !a.reply.LostBefore?)
      && (near && free && !a.reply.LostBefore? ==> after == expires[nonce := a.setAt + c.ttl * c.resolution])
  {
    WindowIsDistance(c.window, Seconds(a.checkedAt, c.resolution), a.request.timestamp);
  }

  // ---------- runs ----------

  /** The nonces after a run, in the order in which Redis serves the commands. */
  function Execute(c: Timing, attempts: seq<Attempt>): map<string, int>
    requires c.resolution >= 1
  {
    if attempts == [] then map[]
    else
      var n := |attempts| - 1;
      Step(c, Execute(c, attempts[..n]), attempts[n]).0
  }

  function Passed(c: Timing, attempts: seq<Attempt>, i: nat): bool
    requires c.resolution >= 1 && i < |attempts|
  {
    Step(c, Execute(c, attempts[..i]), attempts[i]).1
  }

  ghost predicate ValidRun(c: Timing, attempts: seq<Attempt>)
    requires c.resolution >= 1
  {
    && (forall i :: 0 <= i < |attempts| ==>
          && attempts[i].checkedAt <= attempts[i].setAt <= attempts[i].checkedAt + c.lag
          && I64(Seconds(attempts[i].checkedAt, c.resolution)) && I64(attempts[i].request.timestamp))
    && (forall i, j :: 0 <= i < j < |attempts| ==> attempts[i].setAt <= attempts[j].setAt)
  }

  /** No signed request gets through twice. */
  ghost predicate NoReplay(c: Timing, attempts: seq<Attempt>)
    requires c.resolution >= 1
  {
    forall i, j :: 0 <= i < j < |attempts| && Passed(c, attempts, i) && Passed(c, attempts, j)
      ==> attempts[i].request != attempts[j].request
  }

  /** The ticks for which one request can be inside the window, and the lag. */
  function Span(c: Timing): int {
    2 * c.window * c.resolution + c.resolution - 1 + c.lag
  }

  predicate LongEnough(c: Timing) {
    c.ttl * c.resolution >= Span(c)
  }

  /** The attempt's command was carried out and stored its nonce, whether or not it was answered. */
  ghost predicate Stored(c: Timing, attempts: seq<Attempt>, i: nat)
    requires c.resolution >= 1 && i < |attempts|
  {
    var expires := Execute(c, attempts[..i]);
    Step(c, expires, attempts[i]).0 == expires[attempts[i].request.nonce := attempts[i].setAt + c.ttl * c.resolution]
  }

  /** Once a nonce is stored it stays stored, at least to the expiry it was given. */
  lemma {:induction false} StaysStored(c: Timing, attempts: seq<Attempt>, i: nat, upTo: nat)
    requires c.resolution >= 1 && ValidRun(c, attempts)
    requires i < upTo <= |attempts| && Stored(c, attempts, i)
    ensures var expires := Execute(c, attempts[..upTo]);
            var nonce := attempts[i].request.nonce;
            nonce in expires && expires[nonce] >= attempts[i].setAt + c.ttl * c.resolution
    decreases upTo
  {
    var last := upTo - 1;
    ExecuteStep(c, attempts, last);
    if i < last {
      StaysStored(c, attempts, i, last);
    }
  }

  lemma ExecuteStep(c: Timing, attempts: seq<Attempt>, i: nat)
    requires c.resolution >= 1 && i < |attempts|
    ensures Execute(c, attempts[..i + 1]) == Step(c, Execute(c, attempts[..i]), attempts[i]).0
  {
    assert attempts[..i + 1][..i] == attempts[..i];
  }

  /** A nonce that was stored, also by a request that was rejected for want of an answer, rejects
      every later attempt with it until it expires. */
  lemma StoredNonceRejects(c: Timing, attempts: seq<Attempt>, i: nat, j: nat)
    requires c.resolution >= 1 && ValidRun(c, attempts)
    requires i < j < |attempts| && Stored(c, attempts, i)
    requires attempts[j].request.nonce == attempts[i].request.nonce
    requires attempts[j].setAt <= attempts[i].setAt + c.ttl * c.resolution
    ensures !Passed(c, attempts, j)
  {
    StaysStored(c, attempts, i, j);
  }

  /** While one request stays inside the window no more than `Span` ticks pass. */
  lemma WithinSpan(c: Timing, a: Attempt, b: Attempt)
    requires c.resolution >= 1 && a.request == b.request
    requires a.checkedAt <= a.setAt && b.setAt <= b.checkedAt + c.lag
    requires I64(Seconds(a.checkedAt, c.resolution)) && I64(Seconds(b.checkedAt, c.resolution)) && I64(a.request.timestamp)
    requires c.window < I64_MAX
    requires InWindow(c.window, Seconds(a.checkedAt, c.resolution), a.request.timestamp)
    requires InWindow(c.window, Seconds(b.checkedAt, c.resolution), b.request.timestamp)
    ensures b.setAt - a.setAt <= Span(c)
  {
    var from, to := Seconds(a.checkedAt, c.resolution), Seconds(b.checkedAt, c.resolution);
    WindowIsDistance(c.window, from, a.request.timestamp);
    WindowIsDistance(c.window, to, b.request.timestamp);
    TickBounds(a.checkedAt, c.resolution);
    TickBounds(b.checkedAt, c.resolution);
    MulMonotone(to - from, 2 * c.window, c.resolution);
    assert to * c.resolution - from * c.resolution == (to - from) * c.resolution;
  }

  lemma TickBounds(tick: int, resolution: nat)
    requires resolution >= 1
    ensures Seconds(tick, resolution) * resolution <= tick <= Seconds(tick, resolution) * resolution + resolution - 1
  {
    var r := tick % resolution;
    assert tick == resolution * Seconds(tick, resolution) + r;
  }

  lemma EnoughIsSafe(c: Timing, attempts: seq<Attempt>)
    requires c.resolution >= 1 && c.window < I64_MAX && LongEnough(c) && ValidRun(c, attempts)
    ensures NoReplay(c, attempts)
  {
    forall i, j | 0 <= i < j < |attempts| && Passed(c, attempts, i) && Passed(c, attempts, j)
      ensures attempts[i].request != attempts[j].request
    {
      if attempts[i].request == attempts[j].request {
        StaysStored(c, attempts, i, j);
        WithinSpan(c, attempts[i], attempts[j]);
      }
    }
  }

  /** The earliest and the latest moment at which a request stamped `window` passes the test. */
  function Extremes(c: Timing, nonce: string): seq<Attempt> {
    var request := Request(nonce, c.window);
    var late := 2 * c.window * c.resolution + c.resolution - 1;
    [Attempt(request, 0, 0, Answered), Attempt(request, late, late + c.lag, Answered)]
  }

  lemma LateSecond(window: nat, resolution: nat)
    requires resolution >= 1
    ensures Seconds(2 * window * resolution + resolution - 1, resolution) == 2 * window
  {
    var tick := 2 * window * resolution + resolution - 1;
    TickBounds(tick, resolution);
    var q := Seconds(tick, resolution);
    if q > 2 * window {
      MulMonotone(2 * window + 1, q, resolution);
    } else if q < 2 * window {
      MulMonotone(q + 1, 2 * window, resolution);
    }
  }

  /** With a shorter time to live those two attempts both pass. */
  lemma TooShortReplays(c: Timing, nonce: string)
    requires c.resolution >= 1 && 2 * c.window < I64_MAX && !LongEnough(c)
    ensures ValidRun(c, Extremes(c, nonce)) && !NoReplay(c, Extremes(c, nonce))
  {
    var run := Extremes(c, nonce);
    LateSecond(c.window, c.resolution);
    assert run[..0] == [] && run[..1] == [run[0]] && run[..1][..0] == [];
    assert Seconds(0, c.resolution) == 0;
    assert Passed(c, run, 0);
    assert Execute(c, run[..1]) == map[nonce := c.ttl * c.resolution];
    assert Passed(c, run, 1);
    assert run[0].request == run[1].request;
  }

  ghost predicate Safe(c: Timing)
    requires c.resolution >= 1
  {
    forall attempts :: ValidRun(c, attempts) ==> NoReplay(c, attempts)
  }

  /** Over every run, every signed request passes at most once exactly if the time to live covers
      the span. */
  lemma SafeExactlyWhen(c: Timing)
    requires c.resolution >= 1 && 2 * c.window < I64_MAX
    ensures Safe(c) <==> LongEnough(c)
  {
    if LongEnough(c) {
      forall attempts | ValidRun(c, attempts)
        ensures NoReplay(c, attempts)
      {
        EnoughIsSafe(c, attempts);
      }
    } else {
      TooShortReplays(c, "");
    }
  }

  /** In whole seconds and without lag, twice the window is sufficient and necessary. */
  lemma WholeSeconds(window: nat, ttl: nat)
    requires 2 * window < I64_MAX
    ensures Safe(Timing(window, ttl, 1, 0)) <==> ttl >= 2 * window
  {
    SafeExactlyWhen(Timing(window, ttl, 1, 0));
  }

  /** The configured 300 and 600 seconds have nothing to spare: they are enough exactly when the
      clocks tick in whole seconds and no time passes before the command. One second more is
      enough as long as the lag is at most one tick. */
  lemma ConfiguredTimes(resolution: nat, lag: nat)
    requires resolution >= 1
    ensures Safe(Timing(300, 600, resolution, lag)) <==> resolution == 1 && lag == 0
    ensures Safe(Timing(300, 601, resolution, lag)) <==> lag <= 1
  {
    SafeExactlyWhen(Timing(300, 600, resolution, lag));
    SafeExactlyWhen(Timing(300, 601, resolution, lag));
  }
}
