/** One request at a time: which logs of admissions come about, when they stay within the limit,
    and how far they go over it. */
module RateTightness {
  import opened Common
  import opened RateLimit
  import opened RateWindows

  /** A request after those of `log`: it does not go back in time and finds fewer members than
      the limit in its window. */
  ghost predicate Next(log: seq<Admission>, a: Admission, g: Setting) {
    && a.now >= 0 && 1 <= a.weight <= MAX_WEIGHT
    && (forall i :: 0 <= i < |log| ==> log[i].now <= a.now)
    && |Since(MembersOf(log, g.layer), a.now - g.layer.windowMs)| < g.limit
  }

  ghost predicate Counted(log: seq<Admission>, g: Setting) {
    log == [] || (Counted(log[..|log| - 1], g) && Next(log[..|log| - 1], log[|log| - 1], g))
  }

  lemma CountedAppend(log: seq<Admission>, a: Admission, g: Setting)
    ensures Counted(log + [a], g) <==> Counted(log, g) && Next(log, a, g)
  {
    hide Next;
    assert (log + [a])[..|log|] == log;
  }

  lemma {:induction false} CountedLight(log: seq<Admission>, g: Setting)
    requires Counted(log, g)
    ensures Light(log)
    ensures forall i, j :: 0 <= i <= j < |log| ==> log[i].now <= log[j].now
    ensures forall i :: 0 <= i < |log| ==> log[i].now >= 0
  {
    hide Since, MembersOf;
    if log == [] {
    } else {
      var before := log[..|log| - 1];
      CountedLight(before, g);
      assert forall i :: 0 <= i < |before| ==> log[i] == before[i];
    }
  }

  // ---------- every run in order leaves such a log ----------

  ghost predicate Tracks(g: Setting, k: Key) {
    && k.ever == MembersOf(k.log, g.layer) && Counted(k.log, g)
    && (forall i :: 0 <= i < |k.log| ==> k.log[i].now <= k.latest)
    && (forall id :: id in k.pending ==> Counted(k.log + [k.pending[id]], g) && k.pending[id].now <= k.latest)
  }

  lemma CheckTracks(g: Setting, k: Key, id: nat, now: int, weight: nat, at: int)
    requires Proper(g) && Faithful(g, k) && Tracks(g, k)
    requires Enabled(g, k, Check(id, now, weight, at)) && now >= k.latest
    ensures Tracks(g, Step(g, k, Check(id, now, weight, at)))
  {
    hide Since, MembersOf, Counted, Checked, Faithful;
    if Admits(g, k, now, at) {
      CheckedFaithful(g, k, now, at);
      assert Checked(k.window, now, g.layer, at).members == Since(k.ever, now - g.layer.windowMs);
      CountedAppend(k.log, Admission(now, weight), g);
    }
  }

  lemma OnlyPending(pending: map<nat, Admission>, id: nat)
    requires id in pending && |pending| <= 1
    ensures pending - {id} == map[]
  {
    assert pending.Keys - {id} == {} by {
      if other :| other in pending.Keys - {id} {
        SubsetSize({id, other}, pending.Keys);
      }
    }
  }

  lemma RecordTracks(g: Setting, k: Key, id: nat, at: int)
    requires Tracks(g, k) && |k.pending| <= 1 && Enabled(g, k, Record(id, at))
    ensures Tracks(g, Step(g, k, Record(id, at)))
  {
    hide Since, MembersOf, Counted, Recorded, Scores;
    OnlyPending(k.pending, id);
    Unfold(k.log, k.pending[id], g.layer, 0, 0);
  }

  lemma {:induction false} ExecuteTracks(g: Setting, k: Key, events: seq<Event>)
    requires Proper(g) && Invariant(g, k) && Tracks(g, k) && g.overlap == 1
    requires Execute(g, k, events).Some? && InOrder(g, k, events)
    ensures Tracks(g, Execute(g, k, events).value)
    decreases |events|
  {
    hide Invariant, Tracks, Step, Enabled;
    if events == [] {
    } else {
      var e := events[0];
      StepKeepsInvariant(g, k, e);
      InvariantFacts(g, k);
      match e {
        case Check(id, now, weight, at) => CheckTracks(g, k, id, now, weight, at);
        case Record(id, at) => RecordTracks(g, k, id, at);
        case Drop(id) => DropTracks(g, k, id);
      }
      ExecuteTracks(g, Step(g, k, e), events[1..]);
    }
  }

  lemma DropTracks(g: Setting, k: Key, id: nat)
    requires Tracks(g, k) && Enabled(g, k, Drop(id))
    ensures Tracks(g, Step(g, k, Drop(id)))
  {
    hide Counted, MembersOf;
  }

  // ---------- and every such log comes about ----------

  /** Each request is checked and recorded before the next arrives. */
  function RunOf(log: seq<Admission>): seq<Event> {
    if log == [] then []
    else
      var last := log[|log| - 1];
      RunOf(log[..|log| - 1]) + [Check(0, last.now, last.weight, last.now), Record(0, last.now)]
  }

  ghost predicate Idle(g: Setting, k: Key, log: seq<Admission>) {
    && k.log == log && k.pending == map[] && k.ever == MembersOf(log, g.layer)
    && k.latest == k.clock == if log == [] then 0 else log[|log| - 1].now
  }

  lemma NextIsAdmitted(g: Setting, k: Key, log: seq<Admission>, a: Admission)
    requires Proper(g) && Invariant(g, k) && Idle(g, k, log) && Next(log, a, g)
    ensures Admits(g, k, a.now, a.now)
  {
    hide MembersOf, Checked, Faithful, Invariant;
    InvariantFacts(g, k);
    CheckedFaithful(g, k, a.now, a.now);
    assert Max(k.latest, a.now) == a.now;
    assert Checked(k.window, a.now, g.layer, a.now).members == Since(k.ever, a.now - g.layer.windowMs);
  }

  lemma OneMore(g: Setting, k: Key, log: seq<Admission>, a: Admission)
    requires Proper(g) && g.overlap == 1 && Idle(g, k, log) && Next(log, a, g) && Admits(g, k, a.now, a.now)
    ensures var check, record := Check(0, a.now, a.weight, a.now), Record(0, a.now);
            && Enabled(g, k, check) && Enabled(g, Step(g, k, check), record)
            && Idle(g, Step(g, Step(g, k, check), record), log + [a])
  {
    hide Since, MembersOf, Checked, Recorded, Scores, Admits;
    Unfold(log, a, g.layer, 0, 0);
    assert map[0 := a] - {0} == map[];
  }

  lemma InOrderAppend(g: Setting, k: Key, a: seq<Event>, b: seq<Event>)
    requires Execute(g, k, a).Some? && Execute(g, k, a + b).Some?
    requires Execute(g, Execute(g, k, a).value, b).Some?
    requires InOrder(g, k, a) && InOrder(g, Execute(g, k, a).value, b)
    ensures InOrder(g, k, a + b)
    decreases |a|
  {
    hide Step, Enabled;
    if a == [] {
      assert a + b == b;
    } else {
      assert (a + b)[1..] == a[1..] + b;
      InOrderAppend(g, Step(g, k, a[0]), a[1..], b);
    }
  }

  lemma InOrderPair(g: Setting, k: Key, a: Event, b: Event)
    requires Enabled(g, k, a) && Enabled(g, Step(g, k, a), b) && b.Record?
    requires a.Check? && a.now >= k.latest
    ensures Execute(g, k, [a, b]).Some? && InOrder(g, k, [a, b])
  {
    hide Enabled, Step;
    ExecutePair(g, k, a, b);
    var s1 := Step(g, k, a);
    assert [a, b][1..] == [b] && [b][1..] == [];
    assert Execute(g, s1, [b]) == Execute(g, Step(g, s1, b), []);
    assert InOrder(g, Step(g, s1, b), []);
    assert InOrder(g, s1, [b]);
  }

  lemma {:induction false} CountedComesAbout(log: seq<Admission>, g: Setting)
    requires Proper(g) && g.overlap == 1 && Counted(log, g)
    ensures Execute(g, FRESH, RunOf(log)).Some? && InOrder(g, FRESH, RunOf(log))
    ensures Idle(g, Execute(g, FRESH, RunOf(log)).value, log)
  {
    hide Step, Enabled, InOrder, Idle, Counted, Invariant, Execute, RunOf;
    if log == [] {
      EmptyRun(g, log);
    } else {
      var before, last := log[..|log| - 1], log[|log| - 1];
      assert log == before + [last];
      CountedAppend(before, last, g);
      CountedComesAbout(before, g);
      var k := Execute(g, FRESH, RunOf(before)).value;
      ReachableInvariant(g, RunOf(before), k);
      NextIsAdmitted(g, k, before, last);
      OneMore(g, k, before, last);
      var check, record := Check(0, last.now, last.weight, last.now), Record(0, last.now);
      RunOfLast(log);
      ExecuteAppend(g, FRESH, RunOf(before), [check, record]);
      ExecutePair(g, k, check, record);
      IdleLatest(g, k, before, last);
      InOrderPair(g, k, check, record);
      InOrderAppend(g, FRESH, RunOf(before), [check, record]);
    }
  }

  lemma EmptyRun(g: Setting, log: seq<Admission>)
    requires log == []
    ensures Execute(g, FRESH, RunOf(log)) == Some(FRESH) && InOrder(g, FRESH, RunOf(log)) && Idle(g, FRESH, log)
  {
  }

  lemma RunOfLast(log: seq<Admission>)
    requires log != []
    ensures var last := log[|log| - 1];
            RunOf(log) == RunOf(log[..|log| - 1]) + [Check(0, last.now, last.weight, last.now), Record(0, last.now)]
  {
  }

  lemma IdleLatest(g: Setting, k: Key, log: seq<Admission>, a: Admission)
    requires Idle(g, k, log) && Next(log, a, g)
    ensures a.now >= k.latest
  {
  }

  /** The log of some run in order, one request at a time. */
  ghost predicate ComesAbout(log: seq<Admission>, g: Setting) {
    exists events, k :: Reaches(g, events, k) && InOrder(g, FRESH, events) && k.log == log
  }

  /** The counts alone decide which logs come about. */
  lemma ComesAboutExactlyWhen(log: seq<Admission>, g: Setting)
    requires Proper(g) && g.overlap == 1
    ensures ComesAbout(log, g) <==> Counted(log, g)
  {
    hide InOrder, Execute, Invariant, Counted;
    if ComesAbout(log, g) {
      var events, k :| Reaches(g, events, k) && InOrder(g, FRESH, events) && k.log == log;
      FreshInvariant(g);
      FreshTracks(g);
      ExecuteTracks(g, FRESH, events);
    }
    if Counted(log, g) {
      CountedComesAbout(log, g);
      assert Reaches(g, RunOf(log), Execute(g, FRESH, RunOf(log)).value);
    }
  }

  lemma FreshTracks(g: Setting)
    ensures Tracks(g, FRESH)
  {
  }

  // ---------- when a window stays within the limit ----------

  /** Each request found room for its own weight in its window. */
  ghost predicate FitsAll(g: Setting, log: seq<Admission>) {
    log == [] ||
    var last, before := log[|log| - 1], log[..|log| - 1];
    FitsAll(g, before) && InWindow(g, before, last.now) + last.weight <= g.limit
  }

  ghost predicate AllBefore(log: seq<Admission>, now: int) {
    forall i :: 0 <= i < |log| ==> log[i].now < now
  }

  lemma DistinctIncreases(log: seq<Admission>, g: Setting)
    requires Counted(log, g) && Distinct(log) && log != []
    ensures var last, before := log[|log| - 1], log[..|log| - 1];
            Counted(before, g) && Distinct(before) && Next(before, last, g) && AllBefore(before, last.now)
  {
    hide Since, MembersOf;
    var last, before := log[|log| - 1], log[..|log| - 1];
    assert forall i :: 0 <= i < |before| ==> before[i] == log[i];
  }

  lemma WindowOf(g: Setting, log: seq<Admission>, t: int)
    requires log != [] && AllBefore(log[..|log| - 1], log[|log| - 1].now)
    ensures var last, before := log[|log| - 1], log[..|log| - 1];
            && InWindow(g, log, t) == InWindow(g, before, t) + (if t - g.layer.windowMs < last.now <= t then last.weight else 0)
            && (last.now <= t ==> InWindow(g, before, t) <= InWindow(g, before, last.now))
  {
    var last, before := log[|log| - 1], log[..|log| - 1];
    if last.now <= t {
      WeightMonotone(before, t - g.layer.windowMs, t, last.now - g.layer.windowMs, last.now);
    }
  }

  /** No window holds more than the limit exactly if every request, when it was admitted, found
      room for its own weight. */
  lemma {:induction false} FitsExactlyWhen(g: Setting, log: seq<Admission>)
    requires Proper(g) && Counted(log, g) && Distinct(log) && g.limit >= 0
    ensures FitsAll(g, log) <==> forall t :: InWindow(g, log, t) <= g.limit
  {
    hide InWindow, Counted, Distinct, Next;
    if log == [] {
      EmptyWindow(g, log);
    } else {
      var last, before := log[|log| - 1], log[..|log| - 1];
      DistinctIncreases(log, g);
      FitsExactlyWhen(g, before);
      WindowOf(g, log, last.now);
      if FitsAll(g, log) {
        forall t
          ensures InWindow(g, log, t) <= g.limit
        {
          WindowOf(g, log, t);
          assert InWindow(g, before, t) <= g.limit;
        }
      }
      if forall t :: InWindow(g, log, t) <= g.limit {
        forall t
          ensures InWindow(g, before, t) <= g.limit
        {
          WindowOf(g, log, t);
          assert InWindow(g, log, t) <= g.limit;
        }
        assert InWindow(g, log, last.now) <= g.limit;
      }
    }
  }

  lemma EmptyWindow(g: Setting, log: seq<Admission>)
    requires log == []
    ensures forall t :: InWindow(g, log, t) == 0
  {
  }

  /** The same for whole runs: one request at a time, in order, one admission a millisecond. */
  lemma RunFitsExactlyWhen(g: Setting, events: seq<Event>, k: Key)
    requires Reaches(g, events, k) && g.limit > 0 && g.overlap == 1
    requires InOrder(g, FRESH, events) && OneAMillisecond(g, FRESH, events)
    ensures FitsAll(g, k.log) <==> forall t :: InWindow(g, k.log, t) <= g.limit
  {
    hide InWindow, InOrder, OneAMillisecond, Execute, Counted, FitsAll;
    OverlapWeightBound(g, events, k, 0);
    assert ComesAbout(k.log, g);
    ComesAboutExactlyWhen(k.log, g);
    FitsExactlyWhen(g, k.log);
  }

  // ---------- the bound of limit + 9 is reached ----------

  /** Requests in consecutive milliseconds with `total` weight in all; all but the first have
      the greatest weight. */
  function Filled(total: nat): (log: seq<Admission>)
    ensures forall i :: 0 <= i < |log| ==> log[i].now == i
  {
    if total == 0 then []
    else if total <= MAX_WEIGHT then [Admission(0, total)]
    else
      var before := Filled(total - MAX_WEIGHT);
      before + [Admission(|before|, MAX_WEIGHT)]
  }

  lemma {:induction false} FewMembers(log: seq<Admission>, layer: Layer, bound: nat)
    requires WeightIn(log, -1, |log|) <= bound && forall i :: 0 <= i < |log| ==> log[i].now == i
    ensures |MembersOf(log, layer)| <= bound
  {
    if log == [] {
    } else {
      var last, before := log[|log| - 1], log[..|log| - 1];
      WeightMonotone(before, -1, |before|, -1, |log|);
      FewMembers(before, layer, WeightIn(before, -1, |before|));
    }
  }

  lemma {:induction false} FilledLength(total: nat)
    ensures MAX_WEIGHT * (|Filled(total)| - 1) < total || total == 0
  {
    if total <= MAX_WEIGHT {
    } else {
      FilledLength(total - MAX_WEIGHT);
    }
  }

  lemma NoWeight(from: int, to: int)
    ensures WeightIn([], from, to) == 0
  {
  }

  lemma FilledStep(total: nat)
    ensures total == 0 ==> Filled(total) == []
    ensures 0 < total <= MAX_WEIGHT ==> Filled(total) == [Admission(0, total)]
    ensures total > MAX_WEIGHT ==>
              Filled(total) == Filled(total - MAX_WEIGHT) + [Admission(|Filled(total - MAX_WEIGHT)|, MAX_WEIGHT)]
  {
  }

  lemma {:induction false} FilledWeight(total: nat, to: int)
    requires to >= |Filled(total)| - 1
    ensures WeightIn(Filled(total), -1, to) == total
  {
    hide Filled, WeightIn;
    FilledStep(total);
    NoWeight(-1, to);
    if total == 0 {
    } else if total <= MAX_WEIGHT {
      assert Filled(total) == [] + [Admission(0, total)];
      Unfold([], Admission(0, total), DELEGATE_KEY, -1, to);
    } else {
      var before := Filled(total - MAX_WEIGHT);
      FilledWeight(total - MAX_WEIGHT, to);
      Unfold(before, Admission(|before|, MAX_WEIGHT), DELEGATE_KEY, -1, to);
    }
  }

  lemma {:induction false} FilledCounted(total: nat, g: Setting)
    requires Proper(g) && total < g.limit + MAX_WEIGHT && g.limit > 0
    requires total > MAX_WEIGHT ==> total - MAX_WEIGHT < g.limit
    ensures Counted(Filled(total), g)
  {
    hide Since, MembersOf, Next, Filled;
    FilledStep(total);
    if total == 0 {
    } else if total <= MAX_WEIGHT {
      FirstIsNext(g, total);
      assert Filled(total)[..0] == [];
    } else {
      var before := Filled(total - MAX_WEIGHT);
      FilledCounted(total - MAX_WEIGHT, g);
      NextFilled(g, total - MAX_WEIGHT);
      CountedAppend(before, Admission(|before|, MAX_WEIGHT), g);
    }
  }

  lemma FirstIsNext(g: Setting, weight: nat)
    requires g.limit > 0 && 1 <= weight <= MAX_WEIGHT
    ensures Next([], Admission(0, weight), g)
  {
    assert Since(MembersOf([], g.layer), 0 - g.layer.windowMs) == {};
  }

  lemma NextFilled(g: Setting, total: nat)
    requires total < g.limit
    ensures Next(Filled(total), Admission(|Filled(total)|, MAX_WEIGHT), g)
  {
    hide MembersOf, Filled;
    var log := Filled(total);
    FilledWeight(total, |log|);
    FewMembers(log, g.layer, total);
    SubsetSize(Since(MembersOf(log, g.layer), |log| - g.layer.windowMs), MembersOf(log, g.layer));
  }

  /** Requests of different milliseconds weigh at most ten for each millisecond of a window. */
  lemma {:induction false} TenAMillisecond(log: seq<Admission>, g: Setting, from: int, to: int)
    requires Counted(log, g) && Distinct(log) && from <= to
    ensures WeightIn(log, from, to) <= MAX_WEIGHT * (to - from)
  {
    hide Next, Counted, Distinct;
    if log == [] {
    } else {
      var last, before := log[|log| - 1], log[..|log| - 1];
      DistinctIncreases(log, g);
      if from < last.now <= to {
        LastWeight(before, last, g);
        TenAMillisecond(before, g, from, last.now - 1);
        WeightMonotone(before, from, to, from, last.now - 1);
      } else {
        TenAMillisecond(before, g, from, to);
      }
    }
  }

  lemma LastWeight(log: seq<Admission>, a: Admission, g: Setting)
    requires Next(log, a, g)
    ensures a.weight <= MAX_WEIGHT
  {
  }

  ghost predicate Attains(g: Setting, log: seq<Admission>, t: int) {
    ComesAbout(log, g) && Distinct(log) && InWindow(g, log, t) == g.limit + 9
  }

  /** One request at a time and one a millisecond, some run admits limit + 9 in one window, the
      greatest weight that `WindowWeightBound` leaves, exactly if a window of that many
      milliseconds has room for it at ten a millisecond. */
  lemma BoundAttainedExactlyWhen(g: Setting)
    requires Proper(g) && g.overlap == 1 && g.limit > 0
    ensures (exists log, t :: Attains(g, log, t)) <==> g.limit + 9 <= MAX_WEIGHT * g.layer.windowMs
  {
    hide Counted, WeightIn, Filled, Distinct;
    if exists log, t :: Attains(g, log, t) {
      var log, t :| Attains(g, log, t);
      ComesAboutExactlyWhen(log, g);
      TenAMillisecond(log, g, t - g.layer.windowMs, t);
    }
    if g.limit + 9 <= MAX_WEIGHT * g.layer.windowMs {
      FillingAttains(g);
    }
  }

  lemma FillingAttains(g: Setting)
    requires Proper(g) && g.overlap == 1 && g.limit > 0 && g.limit + 9 <= MAX_WEIGHT * g.layer.windowMs
    ensures Attains(g, Filled(g.limit + 9), |Filled(g.limit + 9)| - 1)
  {
    hide Counted, Filled;
    var log := Filled(g.limit + 9);
    var t := |log| - 1;
    FilledLength(g.limit + 9);
    FilledCounted(g.limit + 9, g);
    ComesAboutExactlyWhen(log, g);
    FilledWeight(g.limit + 9, t);
    assert t - g.layer.windowMs <= -1;
    WeightMonotone(log, -1, t, t - g.layer.windowMs, t);
    WeightNoMore(log, t - g.layer.windowMs, t);
  }

  lemma {:induction false} WeightNoMore(log: seq<Admission>, from: int, to: int)
    requires from <= -1 && forall i :: 0 <= i < |log| ==> log[i].now >= 0
    ensures WeightIn(log, from, to) == WeightIn(log, -1, to)
  {
    if log == [] {
    } else {
      WeightNoMore(log[..|log| - 1], from, to);
    }
  }

  // ---------- requests that share a millisecond ----------

  function Repeated(n: nat, now: nat, weight: nat): seq<Admission> {
    seq(n, _ => Admission(now, weight))
  }

  lemma RepeatedLast(n: nat, now: nat, weight: nat)
    requires n >= 1
    ensures Repeated(n, now, weight) == Repeated(n - 1, now, weight) + [Admission(now, weight)]
  {
  }

  lemma NoneRepeated(now: nat, weight: nat, layer: Layer)
    ensures Repeated(0, now, weight) == [] && MembersOf(Repeated(0, now, weight), layer) == {}
  {
  }

  /** Requests of one millisecond write the same members. */
  lemma {:induction false} RepeatedMembers(n: nat, now: nat, weight: nat, layer: Layer)
    requires n >= 1
    ensures MembersOf(Repeated(n, now, weight), layer) == Scores(now, weight, layer)
    decreases n
  {
    hide Scores, Repeated, MembersOf;
    RepeatedLast(n, now, weight);
    Unfold(Repeated(n - 1, now, weight), Admission(now, weight), layer, 0, 0);
    if n == 1 {
      NoneRepeated(now, weight, layer);
    } else {
      RepeatedMembers(n - 1, now, weight, layer);
    }
  }

  lemma {:induction false} RepeatedCounted(n: nat, now: nat, weight: nat, g: Setting)
    requires Proper(g) && 1 <= weight <= MAX_WEIGHT && g.limit > 0
    ensures Counted(Repeated(n, now, weight), g) <==> n <= 1 || weight < g.limit
    decreases n
  {
    hide Next, Repeated, MembersOf;
    if n == 0 {
      NoneRepeated(now, weight, g.layer);
    } else {
      RepeatedLast(n, now, weight);
      RepeatedCounted(n - 1, now, weight, g);
      CountedAppend(Repeated(n - 1, now, weight), Admission(now, weight), g);
      RepeatedNext(n, now, weight, g);
    }
  }

  lemma SinceAll(s: set<int>, t: int)
    requires forall m :: m in s ==> m > t * 1000
    ensures Since(s, t) == s
  {
  }

  lemma RepeatedNext(n: nat, now: nat, weight: nat, g: Setting)
    requires Proper(g) && 1 <= weight <= MAX_WEIGHT && g.limit > 0 && n >= 1
    ensures Next(Repeated(n - 1, now, weight), Admission(now, weight), g) <==> n == 1 || weight < g.limit
  {
    hide MembersOf, Scores, Since;
    var t := now - g.layer.windowMs;
    if n == 1 {
      NoneRepeated(now, weight, g.layer);
      SinceAll({}, t);
    } else {
      RepeatedMembers(n - 1, now, weight, g.layer);
      LaterScores(g, Admission(now, weight), t);
      SinceAll(Scores(now, weight, g.layer), t);
    }
  }

  lemma {:induction false} RepeatedWeight(n: nat, now: nat, weight: nat, from: int)
    requires from < now
    ensures WeightIn(Repeated(n, now, weight), from, now) == n * weight
  {
    if n == 0 {
    } else {
      RepeatedLast(n, now, weight);
      RepeatedWeight(n - 1, now, weight, from);
      Unfold(Repeated(n - 1, now, weight), Admission(now, weight), DELEGATE_KEY, from, now);
      MulStep(n, weight);
    }
  }

  /** Members are timestamps, so requests for one key in one millisecond overwrite each other's.
      Two or more of them, of one weight, are admitted one after the other exactly if the weight
      is below the limit; then any number of them is, with any weight in all. */
  lemma SameMillisecondIsUnbounded(g: Setting, n: nat, now: nat, weight: nat)
    requires Proper(g) && g.overlap == 1 && g.limit > 0 && 1 <= weight <= MAX_WEIGHT && n >= 2
    ensures ComesAbout(Repeated(n, now, weight), g) <==> weight < g.limit
    ensures InWindow(g, Repeated(n, now, weight), now) == n * weight
  {
    hide Counted, WeightIn, Repeated;
    RepeatedCounted(n, now, weight, g);
    ComesAboutExactlyWhen(Repeated(n, now, weight), g);
    RepeatedWeight(n, now, weight, now - g.layer.windowMs);
  }

  /** With a limit of one, a second request in the window finds a member and is denied. */
  lemma LaterThanWindow(log: seq<Admission>, a: Admission, g: Setting, i: nat)
    requires Proper(g) && g.limit == 1 && Light(log) && Next(log, a, g) && i < |log|
    ensures log[i].now < a.now
  {
    hide MembersOf, Light;
    FirstMember(log, g, i);
    var m := log[i].now * 1000 + g.layer.offsetUs;
    assert Since(MembersOf(log, g.layer), a.now - g.layer.windowMs) == {};
    assert m !in Since(MembersOf(log, g.layer), a.now - g.layer.windowMs);
  }

  lemma {:induction false} OneIsDistinct(log: seq<Admission>, g: Setting)
    requires Proper(g) && g.limit == 1 && Counted(log, g)
    ensures Distinct(log)
  {
    hide Next, Light;
    if log == [] {
    } else {
      var last, before := log[|log| - 1], log[..|log| - 1];
      OneIsDistinct(before, g);
      CountedLight(before, g);
      forall i | 0 <= i < |before|
        ensures log[i].now < last.now
      {
        LaterThanWindow(before, last, g, i);
      }
      assert forall i :: 0 <= i < |before| ==> before[i] == log[i];
    }
  }

  lemma {:induction false} FirstMember(log: seq<Admission>, g: Setting, i: nat)
    requires i < |log| && Light(log)
    ensures log[i].now * 1000 + g.layer.offsetUs in MembersOf(log, g.layer)
  {
    if i == |log| - 1 {
    } else {
      FirstMember(log[..|log| - 1], g, i);
    }
  }

  lemma {:induction false} DistinctBound(log: seq<Admission>, g: Setting, t: int)
    requires Proper(g) && Counted(log, g) && Distinct(log) && g.limit > 0
    ensures InWindow(g, log, t) <= g.limit + 9
  {
    hide InWindow, Counted, Distinct, Next;
    if log == [] {
      EmptyWindow(g, log);
    } else {
      var last, before := log[|log| - 1], log[..|log| - 1];
      DistinctIncreases(log, g);
      WindowOf(g, log, t);
      if last.now <= t {
        FoundRoom(before, last, g);
      } else {
        DistinctBound(before, g, t);
      }
    }
  }

  lemma FoundRoom(log: seq<Admission>, a: Admission, g: Setting)
    requires Proper(g) && Counted(log, g) && Distinct(log) && Next(log, a, g)
    ensures InWindow(g, log, a.now) < g.limit && a.weight <= MAX_WEIGHT
  {
    hide Since, MembersOf, WeightIn, Counted, Distinct, Light;
    CountedLight(log, g);
    WeightIsCounted(log, g, a.now - g.layer.windowMs, a.now);
  }

  lemma NothingAdmitted(log: seq<Admission>, g: Setting, t: int)
    requires g.limit <= 0 && Counted(log, g)
    ensures log == [] && InWindow(g, log, t) == 0
  {
  }

  /** Without distinct milliseconds the bound of limit + 9 holds in every run in order exactly if
      the limit is at most one. */
  lemma BoundWithoutDistinctExactlyWhen(g: Setting)
    requires Proper(g) && g.overlap == 1 && g.limit >= 0
    ensures (forall log, t :: ComesAbout(log, g) ==> InWindow(g, log, t) <= g.limit + 9) <==> g.limit <= 1
  {
    hide InWindow, Counted, Distinct, ComesAbout;
    if g.limit <= 1 {
      forall log, t | ComesAbout(log, g)
        ensures InWindow(g, log, t) <= g.limit + 9
      {
        ComesAboutExactlyWhen(log, g);
        if g.limit == 0 {
          NothingAdmitted(log, g, t);
        } else {
          OneIsDistinct(log, g);
          DistinctBound(log, g, t);
        }
      }
    } else {
      var n := g.limit + 10;
      SameMillisecondIsUnbounded(g, n, 0, 1);
      assert InWindow(g, Repeated(n, 0, 1), 0) == n;
    }
  }
}
