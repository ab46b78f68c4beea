/** How much weight the limiter admits for one key in a sliding window. */
module RateWindows {
  import opened Common
  import opened RateLimit

  /** The total weight of the admissions in the half-open interval (from, to]. */
  ghost function WeightIn(log: seq<Admission>, from: int, to: int): nat {
    if log == [] then 0
    else
      var last := log[|log| - 1];
      WeightIn(log[..|log| - 1], from, to) + (if from < last.now <= to then last.weight else 0)
  }

  /** The weight in the window that ends at `t`. */
  ghost function InWindow(g: Setting, log: seq<Admission>, t: int): nat {
    WeightIn(log, t - g.layer.windowMs, t)
  }

  /** The members that the admissions of a log have added. */
  ghost function MembersOf(log: seq<Admission>, layer: Layer): set<int> {
    if log == [] then {}
    else MembersOf(log[..|log| - 1], layer) + Scores(log[|log| - 1].now, log[|log| - 1].weight, layer)
  }

  lemma Unfold(log: seq<Admission>, a: Admission, layer: Layer, from: int, to: int)
    ensures MembersOf(log + [a], layer) == MembersOf(log, layer) + Scores(a.now, a.weight, layer)
    ensures WeightIn(log + [a], from, to) == WeightIn(log, from, to) + (if from < a.now <= to then a.weight else 0)
  {
    assert (log + [a])[..|log|] == log;
  }

  // ---------- members and weight ----------

  ghost predicate Distinct(log: seq<Admission>) {
    forall i, j :: 0 <= i < j < |log| ==> log[i].now != log[j].now
  }

  ghost predicate Light(log: seq<Admission>) {
    forall i :: 0 <= i < |log| ==> 1 <= log[i].weight <= MAX_WEIGHT
  }

  ghost predicate NotAt(log: seq<Admission>, now: int) {
    forall i :: 0 <= i < |log| ==> log[i].now != now
  }

  /** Requests of different milliseconds never share a member. */
  lemma {:induction false} MembersApart(log: seq<Admission>, g: Setting, now: int, weight: nat)
    requires Proper(g) && Light(log) && weight <= MAX_WEIGHT && NotAt(log, now)
    ensures MembersOf(log, g.layer) !! Scores(now, weight, g.layer)
  {
    if log == [] {
    } else {
      MembersApart(log[..|log| - 1], g, now, weight);
    }
  }

  lemma SinceGrows(earlier: set<int>, added: set<int>, t: int)
    requires earlier !! added && forall m :: m in added ==> m > t * 1000
    ensures |Since(earlier + added, t)| == |Since(earlier, t)| + |added|
  {
    assert Since(earlier + added, t) == Since(earlier, t) + added;
    assert Since(earlier, t) !! added;
  }

  lemma SinceMonotone(small: set<int>, big: set<int>, t: int)
    requires small <= big
    ensures |Since(small, t)| <= |Since(big, t)|
  {
    SubsetSize(Since(small, t), Since(big, t));
  }

  /** With distinct milliseconds the members after `t` are at least as many as the weight
      admitted after `t`. */
  lemma {:induction false} WeightIsCounted(log: seq<Admission>, g: Setting, t: int, to: int)
    requires Proper(g) && Distinct(log) && Light(log)
    ensures WeightIn(log, t, to) <= |Since(MembersOf(log, g.layer), t)|
  {
    hide Since, Scores, Proper;
    if log == [] {
    } else {
      var last, before := log[|log| - 1], log[..|log| - 1];
      var earlier, added := MembersOf(before, g.layer), Scores(last.now, last.weight, g.layer);
      WeightIsCounted(before, g, t, to);
      MembersApart(before, g, last.now, last.weight);
      if t < last.now <= to {
        LaterScores(g, last, t);
        SinceGrows(earlier, added, t);
      } else {
        SinceMonotone(earlier, earlier + added, t);
      }
    }
  }

  lemma LaterScores(g: Setting, a: Admission, t: int)
    requires Proper(g) && t < a.now
    ensures forall m :: m in Scores(a.now, a.weight, g.layer) ==> m > t * 1000
    ensures |Scores(a.now, a.weight, g.layer)| == a.weight
  {
  }

  lemma {:induction false} WeightMonotone(log: seq<Admission>, from: int, to: int, wider: int, later: int)
    requires wider <= from && (forall i :: 0 <= i < |log| ==> log[i].now <= later)
    ensures WeightIn(log, from, to) <= WeightIn(log, wider, later)
  {
    if log == [] {
    } else {
      WeightMonotone(log[..|log| - 1], from, to, wider, later);
    }
  }

  // ---------- runs ----------

  /** Checks come in the order of their times. */
  ghost predicate InOrder(g: Setting, k: Key, events: seq<Event>)
    requires Execute(g, k, events).Some?
    decreases |events|
  {
    events == [] ||
    ((events[0].Check? ==> events[0].now >= k.latest) && InOrder(g, Step(g, k, events[0]), events[1..]))
  }

  ghost predicate Taken(k: Key, now: int) {
    (exists i :: 0 <= i < |k.log| && k.log[i].now == now) || (exists id :: id in k.pending && k.pending[id].now == now)
  }

  /** No two requests that the key admits share a millisecond; denied ones may. */
  ghost predicate OneAMillisecond(g: Setting, k: Key, events: seq<Event>)
    requires Execute(g, k, events).Some?
    decreases |events|
  {
    events == [] ||
    var e := events[0];
    && (e.Check? && Admits(g, k, e.now, e.at) ==> !Taken(k, e.now))
    && OneAMillisecond(g, Step(g, k, e), events[1..])
  }

  ghost predicate DistinctTimes(k: Key) {
    && Distinct(k.log)
    && (forall id :: id in k.pending ==> NotAt(k.log, k.pending[id].now))
    && (forall a, b :: a in k.pending && b in k.pending && k.pending[a].now == k.pending[b].now ==> a == b)
  }

  /** The weights of the requests between check and record. */
  ghost function Waiting(pending: map<nat, Admission>, from: int, to: int): map<nat, int> {
    map id | id in pending :: if from < pending[id].now <= to then pending[id].weight else 0
  }

  /** What is recorded or still to be recorded in the window that ends at `t`. */
  ghost function Total(g: Setting, k: Key, t: int): int {
    InWindow(g, k.log, t) + Sum(Waiting(k.pending, t - g.layer.windowMs, t))
  }

  ghost predicate Loaded(g: Setting, k: Key) {
    && k.ever == MembersOf(k.log, g.layer) && Light(k.log)
    && DistinctTimes(k)
    && forall t :: Total(g, k, t) <= Cap(g)
  }

  lemma NothingLoaded(g: Setting)
    requires g.limit > 0
    ensures Loaded(g, FRESH)
  {
    forall t
      ensures Total(g, FRESH, t) <= Cap(g)
    {
      assert Waiting(FRESH.pending, t - g.layer.windowMs, t) == map[];
    }
  }

  lemma WaitingBounded(pending: map<nat, Admission>, from: int, to: int)
    requires forall id :: id in pending ==> pending[id].weight <= MAX_WEIGHT
    ensures Sum(Waiting(pending, from, to)) <= MAX_WEIGHT * |pending|
  {
    hide Sum;
    SumBounded(Waiting(pending, from, to), MAX_WEIGHT);
    assert Waiting(pending, from, to).Keys == pending.Keys;
    assert |Waiting(pending, from, to)| == |Waiting(pending, from, to).Keys|;
  }

  lemma WaitingWith(pending: map<nat, Admission>, id: nat, a: Admission, from: int, to: int)
    requires id !in pending
    ensures Sum(Waiting(pending[id := a], from, to)) == Sum(Waiting(pending, from, to)) + (if from < a.now <= to then a.weight else 0)
  {
    var w := if from < a.now <= to then a.weight else 0;
    assert Waiting(pending[id := a], from, to) == Waiting(pending, from, to)[id := w];
    SumUpdate(Waiting(pending, from, to), id, w);
  }

  lemma WaitingWithout(pending: map<nat, Admission>, id: nat, from: int, to: int)
    requires id in pending
    ensures Sum(Waiting(pending - {id}, from, to))
         == Sum(Waiting(pending, from, to)) - (if from < pending[id].now <= to then pending[id].weight else 0)
  {
    assert Waiting(pending - {id}, from, to) == Waiting(pending, from, to) - {id};
    SumRemove(Waiting(pending, from, to), id);
  }

  /** At an admitted check the recorded weight of every window that the request falls into is
      below the limit, whatever else is waiting. */
  lemma RecordedBelowLimit(g: Setting, k: Key, now: int, at: int, t: int)
    requires Proper(g) && Faithful(g, k) && Prompt(g, now, at) && Admits(g, k, now, at) && now >= k.latest
    requires k.ever == MembersOf(k.log, g.layer) && Light(k.log) && Distinct(k.log)
    requires t >= now
    ensures InWindow(g, k.log, t) < g.limit
  {
    hide Since, Checked, MembersOf, WeightIn, Faithful, Light, Distinct, Prompt, Proper;
    CheckedFaithful(g, k, now, at);
    WeightIsCounted(k.log, g, t - g.layer.windowMs, t);
    LaterSince(k.ever, now - g.layer.windowMs, t - g.layer.windowMs);
    SubsetSize(Since(k.ever, t - g.layer.windowMs), Checked(k.window, now, g.layer, at).members);
  }

  lemma LaterSince(s: set<int>, t: int, later: int)
    requires t <= later
    ensures Since(s, later) <= Since(s, t)
  {
  }

  lemma CheckedTotal(g: Setting, k: Key, id: nat, now: int, weight: nat, at: int, t: int)
    requires Proper(g) && Invariant(g, k) && Loaded(g, k) && g.limit > 0
    requires Enabled(g, k, Check(id, now, weight, at)) && now >= k.latest && Admits(g, k, now, at)
    ensures Total(g, Step(g, k, Check(id, now, weight, at)), t) <= Cap(g)
  {
    hide MembersOf, Waiting, WeightIn, Sum, Faithful, Invariant, Checked, Admits;
    var e := Check(id, now, weight, at);
    var k' := Step(g, k, e);
    WaitingWith(k.pending, id, Admission(now, weight), t - g.layer.windowMs, t);
    assert Total(g, k, t) <= Cap(g);
    if t - g.layer.windowMs < now <= t {
      InvariantFacts(g, k);
      RecordedBelowLimit(g, k, now, at, t);
      StepKeepsInvariant(g, k, e);
      InvariantFacts(g, k');
      WaitingBounded(k'.pending, t - g.layer.windowMs, t);
      MulMonotone(|k'.pending|, g.overlap, MAX_WEIGHT);
    }
  }

  lemma CheckLoaded(g: Setting, k: Key, id: nat, now: int, weight: nat, at: int)
    requires Proper(g) && Invariant(g, k) && Loaded(g, k) && g.limit > 0
    requires Enabled(g, k, Check(id, now, weight, at)) && now >= k.latest
    requires Admits(g, k, now, at) ==> !Taken(k, now)
    ensures Loaded(g, Step(g, k, Check(id, now, weight, at)))
  {
    hide MembersOf, Invariant, Checked, Admits, Total, Cap;
    var k' := Step(g, k, Check(id, now, weight, at));
    forall t
      ensures Total(g, k', t) <= Cap(g)
    {
      assert Total(g, k, t) <= Cap(g);
      if Admits(g, k, now, at) {
        CheckedTotal(g, k, id, now, weight, at, t);
      } else {
        SameTotal(g, k, k', t);
      }
    }
  }

  lemma SameTotal(g: Setting, k: Key, k': Key, t: int)
    requires k'.log == k.log && k'.pending == k.pending
    ensures Total(g, k', t) == Total(g, k, t)
  {
  }

  /** A record moves the request from the waiting ones into the log. */
  lemma RecordLoaded(g: Setting, k: Key, id: nat, at: int)
    requires Loaded(g, k) && PendingProper(k) && Enabled(g, k, Record(id, at))
    ensures Loaded(g, Step(g, k, Record(id, at)))
  {
    hide MembersOf, Waiting, WeightIn, Sum, Recorded, Scores, Cap;
    var k' := Step(g, k, Record(id, at));
    var a := k.pending[id];
    forall t
      ensures Total(g, k', t) <= Cap(g)
    {
      assert Total(g, k, t) <= Cap(g);
      Unfold(k.log, a, g.layer, t - g.layer.windowMs, t);
      WaitingWithout(k.pending, id, t - g.layer.windowMs, t);
    }
    Unfold(k.log, a, g.layer, 0, 0);
  }

  lemma DropLoaded(g: Setting, k: Key, id: nat)
    requires Loaded(g, k) && PendingProper(k) && Enabled(g, k, Drop(id))
    ensures Loaded(g, Step(g, k, Drop(id)))
  {
    hide MembersOf, Waiting, WeightIn, Sum, Cap;
    var k' := Step(g, k, Drop(id));
    forall t
      ensures Total(g, k', t) <= Cap(g)
    {
      assert Total(g, k, t) <= Cap(g);
      WaitingWithout(k.pending, id, t - g.layer.windowMs, t);
    }
  }

  lemma {:induction false} ExecuteLoaded(g: Setting, k: Key, events: seq<Event>)
    requires Proper(g) && Invariant(g, k) && Loaded(g, k) && g.limit > 0
    requires Execute(g, k, events).Some? && InOrder(g, k, events) && OneAMillisecond(g, k, events)
    ensures Loaded(g, Execute(g, k, events).value)
    decreases |events|
  {
    hide Invariant, Loaded, Step, Enabled, Taken, Admits;
    if events == [] {
    } else {
      var e := events[0];
      StepKeepsInvariant(g, k, e);
      InvariantFacts(g, k);
      match e {
        case Check(id, now, weight, at) => CheckLoaded(g, k, id, now, weight, at);
        case Record(id, at) => RecordLoaded(g, k, id, at);
        case Drop(id) => DropLoaded(g, k, id);
      }
      ExecuteLoaded(g, Step(g, k, e), events[1..]);
    }
  }

  /** With checks in the order of their times, no two admissions in one millisecond and at most j
      requests between check and record, the weight admitted in any window is at most
      limit - 1 + 10 j. */
  lemma OverlapWeightBound(g: Setting, events: seq<Event>, k: Key, t: int)
    requires Reaches(g, events, k) && g.limit > 0
    requires InOrder(g, FRESH, events) && OneAMillisecond(g, FRESH, events)
    ensures InWindow(g, k.log, t) <= g.limit - 1 + MAX_WEIGHT * g.overlap
    ensures Distinct(k.log)
  {
    hide Invariant, Loaded, InOrder, OneAMillisecond, Execute, InWindow;
    FreshInvariant(g);
    NothingLoaded(g);
    ExecuteLoaded(g, FRESH, events);
    LoadedBound(g, k, t);
  }

  lemma LoadedBound(g: Setting, k: Key, t: int)
    requires Loaded(g, k)
    ensures InWindow(g, k.log, t) <= Cap(g) && Distinct(k.log)
  {
    assert Total(g, k, t) <= Cap(g);
    SumNonNegative(Waiting(k.pending, t - g.layer.windowMs, t));
  }

  /** One request at a time: at most limit + 9 in any window, for each of the three layers. */
  lemma WindowWeightBound(g: Setting, events: seq<Event>, k: Key, t: int)
    requires Reaches(g, events, k) && g.limit > 0 && g.overlap == 1
    requires InOrder(g, FRESH, events) && OneAMillisecond(g, FRESH, events)
    ensures InWindow(g, k.log, t) <= g.limit + 9
  {
    hide InWindow, InOrder, OneAMillisecond, Execute;
    OverlapWeightBound(g, events, k, t);
  }
}
