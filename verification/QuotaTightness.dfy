/** The bound on overshooting the storage quota is reached: for every number of jobs in flight
    there is a run that fills the owner's storage to the brim and then lets all of them in. */
module QuotaTightness {
  import opened Common
  import opened ByteOrder
  import opened RememberDb
  import opened RememberJobs
  import opened RememberHandlers
  import opened RememberQuota
  import Base64

  const NO_FAILURE: Fortune := Fortune(true, true, true, true, true, true, true)

  function Name(i: nat): string {
    seq(i, _ => 'j')
  }

  ghost function NamesFrom(n: nat, k: nat): set<string> {
    if k == 0 then {} else NamesFrom(n, k - 1) + {Name(n + k - 1)}
  }

  lemma {:induction false} NamesMember(n: nat, k: nat, name: string)
    ensures name in NamesFrom(n, k) <==> n <= |name| < n + k && name == Name(|name|)
  {
    if k == 0 {
    } else {
      NamesMember(n, k - 1, name);
    }
  }

  lemma {:induction false} NamesSize(n: nat, k: nat)
    ensures |NamesFrom(n, k)| == k
  {
    if k == 0 {
    } else {
      NamesSize(n, k - 1);
      NamesMember(n, k - 1, Name(n + k - 1));
    }
  }

  lemma NamesExtend(n: nat, k: nat)
    ensures NamesFrom(n, k + 1) == NamesFrom(n, k) + {Name(n + k)} && Name(n + k) !in NamesFrom(n, k)
    ensures |Name(n + k)| == n + k
  {
    NamesMember(n, k, Name(n + k));
  }

  function Bytes(size: nat): seq<Byte> {
    seq(size, _ => 0)
  }

  function SubmitOne(i: nat, size: nat): Event {
    Submit(Name(i), "owner", "default", Bytes(size), [], true)
  }

  function AttemptOne(i: nat): seq<Event> {
    AttemptEvents(0, Name(i), Wallet, NO_FAILURE)
  }

  // ---------- the states on the way ----------

  ghost predicate Sized(s: State, n: nat, size: nat) {
    forall job :: job in s.submissions ==>
      s.submissions[job].payload.owner == "owner" && |s.submissions[job].cipher| == if |job| < n then 1 else size
  }

  /** `n` bytes are stored, one a job, all acknowledged; `k` jobs of `size` bytes have been
      submitted after them and `done` of those are stored. */
  ghost predicate Stage(c: Config, s: State, n: nat, k: nat, size: nat, done: nat) {
    && Invariant(c, s) && s.attempts == map[] && s.db.jobs == map[] && done <= k
    && s.checked == s.submissions.Keys == NamesFrom(0, n + k) && s.live == NamesFrom(n, k)
    && s.db.vectors.Keys == NamesFrom(0, n + done)
    && Sized(s, n, size)
    && StorageUsed(s.db, "owner") == n + done * size
  }

  lemma StartStage(c: Config, size: nat)
    ensures Stage(c, EMPTY, 0, 0, size, 0)
  {
    assert Sizes(EMPTY.db.vectors, "owner") == map[];
  }

  lemma SubmitAllowed(c: Config, s: State, n: nat, k: nat, size: nat)
    requires Stage(c, s, n, k, size, 0) && n + size <= c.maxBytes
    ensures Enabled(c, s, SubmitOne(n + k, size))
  {
    hide Invariant, StorageUsed, NamesFrom;
    NamesExtend(0, n + k);
  }

  lemma SizedSubmit(s: State, s': State, n: nat, size: nat, job: string)
    requires Sized(s, n, size) && |job| >= n && s'.submissions.Keys == s.submissions.Keys + {job}
    requires forall other :: other in s.submissions ==> s'.submissions[other] == s.submissions[other]
    requires |s'.submissions[job].cipher| == size && s'.submissions[job].payload.owner == "owner"
    ensures Sized(s', n, size)
  {
  }

  lemma SubmitStage(c: Config, s: State, n: nat, k: nat, size: nat)
    requires Stage(c, s, n, k, size, 0) && n + size <= c.maxBytes
    ensures Enabled(c, s, SubmitOne(n + k, size))
    ensures Stage(c, Step(c, s, SubmitOne(n + k, size)), n, k + 1, size, 0)
  {
    hide Invariant, StorageUsed, NamesFrom, Sized, Step, Enabled, Active, QuotaAllows, Name;
    SubmitAllowed(c, s, n, k, size);
    NamesExtend(n, k);
    NamesExtend(0, n + k);
    var e := SubmitOne(n + k, size);
    SubmitEffect(c, s, e);
    SizedSubmit(s, Step(c, s, e), n, size, e.job);
    StepKeepsInvariant(c, s, e);
  }

  lemma OneMoreRow(before: Tables, after: Tables, job: string, row: VectorRow, used: nat)
    requires job !in before.vectors && after.vectors == before.vectors[job := row] && row.owner == "owner"
    requires StorageUsed(before, "owner") == used
    ensures StorageUsed(after, "owner") == used + row.size
  {
    UpsertStorage(before, job, row, "owner");
    assert StorageUsed(after, "owner") == StorageUsed(Upsert(before, job, row), "owner");
  }

  lemma AttemptEffect(c: Config, s: State, job: string)
    requires Invariant(c, s) && job in s.live && s.attempts == map[] && s.db.jobs == map[]
    ensures var events := AttemptEvents(0, job, Wallet, NO_FAILURE);
            && Execute(c, s, events).Some?
            && var s' := Execute(c, s, events).value;
               && Invariant(c, s') && s'.attempts == map[] && s'.db.jobs == map[]
               && s'.db.vectors == s.db.vectors[job := RowFor(c.walrus, s.submissions[job])]
               && s'.submissions == s.submissions && s'.live == s.live && s'.checked == s.checked
  {
    hide Execute, AttemptEvents, Invariant, Base64.Encode, Base64.Decode;
    var events := AttemptEvents(0, job, Wallet, NO_FAILURE);
    Facts(c, s, job);
    Base64.DecodeEncode(s.submissions[job].cipher);
    MachineRunsHandler(c, s, 0, job, Wallet, NO_FAILURE);
    ExecuteKeepsInvariant(c, s, events);
    NoSubmits(0, job);
    CheckedStays(c, s, events);
  }

  lemma NoSubmits(id: nat, job: string)
    ensures forall i :: 0 <= i < |AttemptEvents(id, job, Wallet, NO_FAILURE)| ==>
              !AttemptEvents(id, job, Wallet, NO_FAILURE)[i].Submit?
  {
  }

  lemma {:induction false} CheckedStays(c: Config, s: State, events: seq<Event>)
    requires Execute(c, s, events).Some? && forall i :: 0 <= i < |events| ==> !events[i].Submit?
    ensures Execute(c, s, events).value.checked == s.checked
    decreases |events|
  {
    hide Step, Enabled, Active;
    if events == [] {
    } else {
      OtherEffect(c, s, events[0]);
      CheckedStays(c, Step(c, s, events[0]), events[1..]);
    }
  }

  lemma AttemptStage(c: Config, s: State, n: nat, k: nat, size: nat, done: nat)
    requires Stage(c, s, n, k, size, done) && done < k
    ensures Execute(c, s, AttemptOne(n + done)).Some?
    ensures Stage(c, Execute(c, s, AttemptOne(n + done)).value, n, k, size, done + 1)
  {
    hide Invariant, StorageUsed, NamesFrom, Execute, AttemptEvents, Name;
    var job := Name(n + done);
    LiveName(n, k, done);
    NamesExtend(0, n + done);
    AttemptEffect(c, s, job);
    LiveSubmitted(c, s, job);
    var s' := Execute(c, s, AttemptOne(n + done)).value;
    OneMoreRow(s.db, s'.db, job, RowFor(c.walrus, s.submissions[job]), n + done * size);
    MulStep(done + 1, size);
  }

  lemma LiveName(n: nat, k: nat, done: nat)
    requires done < k
    ensures Name(n + done) in NamesFrom(n, k) && |Name(n + done)| == n + done
  {
    NamesMember(n, k, Name(n + done));
  }

  lemma LiveSubmitted(c: Config, s: State, job: string)
    requires Invariant(c, s) && job in s.live
    ensures job in s.submissions
  {
  }

  lemma SizedRetire(s: State, n: nat, size: nat)
    requires Sized(s, n, 1) && s.submissions.Keys == NamesFrom(0, n + 1)
    ensures Sized(s, n + 1, size)
  {
    hide NamesFrom;
    forall job | job in s.submissions
      ensures |job| <= n
    {
      NamesMember(0, n + 1, job);
    }
  }

  lemma NamesNone(n: nat)
    ensures NamesFrom(n, 0) == {}
  {
  }

  /** A single byte is stored and acknowledged. */
  lemma RetireStage(c: Config, s: State, n: nat, size: nat)
    requires Stage(c, s, n, 1, 1, 1)
    ensures Enabled(c, s, Retire(Name(n)))
    ensures Stage(c, Step(c, s, Retire(Name(n))), n + 1, 0, size, 0)
  {
    hide StorageUsed, Invariant, NamesFrom, Sized, Name;
    NamesExtend(n, 0);
    NamesNone(n);
    NamesNone(n + 1);
    RetireKeeps(c, s, Name(n));
    SizedRetire(s, n, size);
    var s' := Step(c, s, Retire(Name(n)));
    assert s'.submissions == s.submissions && s'.db == s.db;
    SizedSame(s, s', n + 1, size);
    assert s'.live == {};
    assert n + 1 + 0 * size == n + 1 * 1;
  }

  lemma SizedSame(s: State, s': State, n: nat, size: nat)
    requires Sized(s, n, size) && s'.submissions == s.submissions
    ensures Sized(s', n, size)
  {
  }

  lemma RetireKeeps(c: Config, s: State, job: string)
    requires Invariant(c, s) && job in s.live
    ensures Enabled(c, s, Retire(job)) && Invariant(c, Step(c, s, Retire(job)))
  {
    hide Invariant;
    StepKeepsInvariant(c, s, Retire(job));
  }

  // ---------- the run, and the jobs in flight along it ----------

  function FillOne(i: nat): seq<Event> {
    [SubmitOne(i, 1)] + AttemptOne(i) + [Retire(Name(i))]
  }

  /** `n` jobs of one byte, each acknowledged before the next. */
  function Fill(n: nat): seq<Event> {
    if n == 0 then [] else Fill(n - 1) + FillOne(n - 1)
  }

  function SubmitAll(n: nat, k: nat, size: nat): seq<Event> {
    if k == 0 then [] else SubmitAll(n, k - 1, size) + [SubmitOne(n + k - 1, size)]
  }

  function AttemptAll(n: nat, k: nat): seq<Event> {
    if k == 0 then [] else AttemptAll(n, k - 1) + AttemptOne(n + k - 1)
  }

  /** All submissions are of the given jobs and small enough. */
  ghost predicate Only(events: seq<Event>, jobs: set<string>, size: nat) {
    forall i :: 0 <= i < |events| && events[i].Submit? ==> events[i].job in jobs && |events[i].cipher| <= size
  }

  lemma OnlyAppend(a: seq<Event>, b: seq<Event>, jobs: set<string>, size: nat)
    requires Only(a, jobs, size) && Only(b, jobs, size)
    ensures Only(a + b, jobs, size)
  {
  }

  /** While only the given jobs are submitted, no others are in flight. */
  lemma {:induction false} OverlapOnly(c: Config, s: State, events: seq<Event>, jobs: set<string>, k: nat, size: nat)
    requires Execute(c, s, events).Some? && Only(events, jobs, size)
    requires Active(s) <= jobs && |jobs| <= k
    ensures Overlap(c, s, events, "owner", k, size)
    decreases |events|
  {
    hide Step, Enabled, Active;
    InFlightActive(s);
    SubsetSize(InFlight(s, "owner"), jobs);
    if events == [] {
    } else {
      if events[0].Submit? {
        SubmitEffect(c, s, events[0]);
      } else {
        OtherEffect(c, s, events[0]);
      }
      assert forall i :: 0 <= i < |events[1..]| ==> events[1..][i] == events[i + 1];
      OverlapOnly(c, Step(c, s, events[0]), events[1..], jobs, k, size);
    }
  }

  lemma InFlightActive(s: State)
    ensures InFlight(s, "owner") <= Active(s)
  {
  }

  lemma {:induction false} OverlapAppend(c: Config, s: State, a: seq<Event>, b: seq<Event>, k: nat, size: nat)
    requires Execute(c, s, a).Some? && Execute(c, Execute(c, s, a).value, b).Some?
    requires Overlap(c, s, a, "owner", k, size) && Overlap(c, Execute(c, s, a).value, b, "owner", k, size)
    ensures Execute(c, s, a + b).Some? && Overlap(c, s, a + b, "owner", k, size)
    decreases |a|
  {
    hide Step, Enabled, InFlight;
    ExecuteAppend(c, s, a, b);
    if a == [] {
      assert a + b == b;
    } else {
      assert (a + b)[1..] == a[1..] + b && (a + b)[0] == a[0];
      OverlapAppend(c, Step(c, s, a[0]), a[1..], b, k, size);
    }
  }

  lemma StageActive(c: Config, s: State, n: nat, k: nat, size: nat, done: nat)
    requires Stage(c, s, n, k, size, done)
    ensures Active(s) == NamesFrom(n, k) && |NamesFrom(n, k)| == k
  {
    hide Invariant, Sized, StorageUsed;
    NamesSize(n, k);
  }

  lemma FillOneRuns(c: Config, s: State, n: nat, size: nat)
    requires Stage(c, s, n, 0, 1, 0) && n + 1 <= c.maxBytes && size >= 1
    ensures Execute(c, s, FillOne(n)).Some?
    ensures Stage(c, Execute(c, s, FillOne(n)).value, n + 1, 0, 1, 0)
    ensures Overlap(c, s, FillOne(n), "owner", 1, size)
  {
    hide Stage, Execute, Step, Enabled, Overlap, AttemptEvents, NamesFrom, Only;
    var submit, attempt, retire := SubmitOne(n, 1), AttemptOne(n), Retire(Name(n));
    SubmitStage(c, s, n, 0, 1);
    var s1 := Step(c, s, submit);
    AttemptStage(c, s1, n, 1, 1, 0);
    var s2 := Execute(c, s1, attempt).value;
    RetireStage(c, s2, n, 1);
    ExecuteOne(c, s, submit, attempt + [retire]);
    ExecuteAppend(c, s1, attempt, [retire]);
    ExecuteOne(c, s2, retire, []);
    assert [retire] + [] == [retire];
    ExecuteNone(c, Step(c, s2, retire));
    assert FillOne(n) == [submit] + (attempt + [retire]);
    StageActive(c, s, n, 0, 1, 0);
    NamesExtend(n, 0);
    NamesNone(n);
    NamesSize(n, 1);
    OnlyFill(n, size);
    OverlapOnly(c, s, FillOne(n), NamesFrom(n, 1), 1, size);
  }

  lemma OnlyFill(n: nat, size: nat)
    requires size >= 1
    ensures Only(FillOne(n), NamesFrom(n, 1), size)
  {
    NamesExtend(n, 0);
  }

  /** More may be in flight. */
  lemma {:induction false} OverlapWider(c: Config, s: State, events: seq<Event>, owner: string, k: nat, wider: nat, size: nat)
    requires Execute(c, s, events).Some? && Overlap(c, s, events, owner, k, size) && k <= wider
    ensures Overlap(c, s, events, owner, wider, size)
    decreases |events|
  {
    hide Step, Enabled, InFlight;
    if events == [] {
    } else {
      OverlapWider(c, Step(c, s, events[0]), events[1..], owner, k, wider, size);
    }
  }

  lemma {:induction false} FillRuns(c: Config, n: nat, size: nat)
    requires n <= c.maxBytes && size >= 1
    ensures Execute(c, EMPTY, Fill(n)).Some?
    ensures Stage(c, Execute(c, EMPTY, Fill(n)).value, n, 0, 1, 0)
    ensures Overlap(c, EMPTY, Fill(n), "owner", 1, size)
  {
    hide Stage, Execute, Step, Enabled, Overlap, FillOne;
    if n == 0 {
      StartStage(c, 1);
      ExecuteNone(c, EMPTY);
      StageActive(c, EMPTY, 0, 0, 1, 0);
      OverlapOnly(c, EMPTY, [], NamesFrom(0, 0), 1, size);
    } else {
      FillRuns(c, n - 1, size);
      var s := Execute(c, EMPTY, Fill(n - 1)).value;
      FillOneRuns(c, s, n - 1, size);
      ExecuteAppend(c, EMPTY, Fill(n - 1), FillOne(n - 1));
      OverlapAppend(c, EMPTY, Fill(n - 1), FillOne(n - 1), 1, size);
    }
  }

  lemma {:induction false} SubmitsRun(c: Config, s: State, n: nat, k: nat, size: nat)
    requires Stage(c, s, n, 0, size, 0) && n + size <= c.maxBytes
    ensures Execute(c, s, SubmitAll(n, k, size)).Some?
    ensures Stage(c, Execute(c, s, SubmitAll(n, k, size)).value, n, k, size, 0)
    ensures Only(SubmitAll(n, k, size), NamesFrom(n, k), size)
  {
    hide Stage, Execute, Step, Enabled, Name;
    if k == 0 {
      ExecuteNone(c, s);
    } else {
      SubmitsRun(c, s, n, k - 1, size);
      var s1 := Execute(c, s, SubmitAll(n, k - 1, size)).value;
      var e := SubmitOne(n + k - 1, size);
      SubmitStage(c, s1, n, k - 1, size);
      ExecuteAppend(c, s, SubmitAll(n, k - 1, size), [e]);
      assert [e] + [] == [e];
      ExecuteOne(c, s1, e, []);
      ExecuteNone(c, Step(c, s1, e));
      NamesExtend(n, k - 1);
    }
  }

  lemma {:induction false} AttemptsRun(c: Config, s: State, n: nat, k: nat, size: nat, done: nat)
    requires Stage(c, s, n, k, size, 0) && done <= k
    ensures Execute(c, s, AttemptAll(n, done)).Some?
    ensures Stage(c, Execute(c, s, AttemptAll(n, done)).value, n, k, size, done)
    ensures forall i :: 0 <= i < |AttemptAll(n, done)| ==> !AttemptAll(n, done)[i].Submit?
  {
    hide Stage, Execute, AttemptEvents, Name;
    if done == 0 {
      ExecuteNone(c, s);
    } else {
      AttemptsRun(c, s, n, k, size, done - 1);
      var s1 := Execute(c, s, AttemptAll(n, done - 1)).value;
      AttemptStage(c, s1, n, k, size, done - 1);
      ExecuteAppend(c, s, AttemptAll(n, done - 1), AttemptOne(n + done - 1));
      NoSubmits(0, Name(n + done - 1));
    }
  }

  // ---------- the bound is reached ----------

  function Overshooting(max: nat, k: nat, size: nat): seq<Event>
    requires size <= max
  {
    Fill(max - size) + (SubmitAll(max - size, k, size) + AttemptAll(max - size, k))
  }

  lemma StageOtherSize(c: Config, s: State, n: nat, size: nat)
    requires Stage(c, s, n, 0, 1, 0)
    ensures Stage(c, s, n, 0, size, 0)
  {
    hide Invariant, StorageUsed, NamesFrom;
    forall job | job in s.submissions
      ensures |job| < n
    {
      NamesMember(0, n, job);
    }
  }

  /** All that is stored came through the check. */
  lemma AllChecked(c: Config, s: State, n: nat, k: nat, size: nat)
    requires Stage(c, s, n, k, size, k)
    ensures Sum(CheckedSizes(s, "owner")) == n + k * size
  {
    hide Invariant, NamesFrom, Sum;
    assert CheckedSizes(s, "owner") == Sizes(s.db.vectors, "owner");
  }

  /** For every k and every S up to the quota there is a run that has at most k jobs in flight, of
      at most S bytes each, and ends with quota + (k - 1) S bytes stored through checked paths:
      `QuotaOvershoot` cannot be improved. */
  lemma OvershootIsReached(c: Config, k: nat, size: nat)
    requires k >= 1 && 1 <= size <= c.maxBytes
    ensures var events := Overshooting(c.maxBytes, k, size);
            && Execute(c, EMPTY, events).Some? && Overlap(c, EMPTY, events, "owner", k, size)
            && Sum(CheckedSizes(Execute(c, EMPTY, events).value, "owner")) == c.maxBytes + (k - 1) * size
  {
    hide Stage, Execute, Overlap, Fill, SubmitAll, AttemptAll, Only, Sum, CheckedSizes, Active, NamesFrom;
    var n := c.maxBytes - size;
    FillRuns(c, n, size);
    var s := Execute(c, EMPTY, Fill(n)).value;
    StageActive(c, s, n, 0, 1, 0);
    StageOtherSize(c, s, n, size);
    SubmitsRun(c, s, n, k, size);
    var s1 := Execute(c, s, SubmitAll(n, k, size)).value;
    AttemptsRun(c, s1, n, k, size, k);
    var late := SubmitAll(n, k, size) + AttemptAll(n, k);
    ExecuteAppend(c, s, SubmitAll(n, k, size), AttemptAll(n, k));
    NothingSubmitted(AttemptAll(n, k), NamesFrom(n, k), size);
    OnlyAppend(SubmitAll(n, k, size), AttemptAll(n, k), NamesFrom(n, k), size);
    NamesNone(n);
    NamesSize(n, k);
    OverlapOnly(c, s, late, NamesFrom(n, k), k, size);
    OverlapWider(c, EMPTY, Fill(n), "owner", 1, k, size);
    OverlapAppend(c, EMPTY, Fill(n), late, k, size);
    ExecuteAppend(c, EMPTY, Fill(n), late);
    AllChecked(c, Execute(c, s1, AttemptAll(n, k)).value, n, k, size);
    MulStep(k, size);
  }

  lemma NothingSubmitted(events: seq<Event>, jobs: set<string>, size: nat)
    requires forall i :: 0 <= i < |events| ==> !events[i].Submit?
    ensures Only(events, jobs, size)
  {
  }

  /** With at most k jobs in flight, of at most S bytes each, no run goes over the quota. */
  ghost predicate QuotaHolds(c: Config, k: nat, size: nat) {
    forall events, s, owner ::
      Reaches(c, events, s) && Overlap(c, EMPTY, events, owner, k, size) ==> Sum(CheckedSizes(s, owner)) <= c.maxBytes
  }

  /** Checking before inserting keeps the quota exactly if at most one job is in flight. */
  lemma QuotaHoldsExactlyWhen(c: Config, k: nat, size: nat)
    requires 1 <= size <= c.maxBytes
    ensures QuotaHolds(c, k, size) <==> k <= 1
  {
    hide Execute, Overlap, Sum, CheckedSizes, Overshooting;
    if k <= 1 {
      forall events, s, owner | Reaches(c, events, s) && Overlap(c, EMPTY, events, owner, k, size)
        ensures Sum(CheckedSizes(s, owner)) <= c.maxBytes
      {
        OverlapWider(c, EMPTY, events, owner, k, 1, size);
        QuotaOvershoot(c, events, s, owner, 1, size);
      }
    } else {
      OvershootIsReached(c, k, size);
      var events := Overshooting(c.maxBytes, k, size);
      var s := Execute(c, EMPTY, events).value;
      MulMonotone(1, k - 1, size);
      assert Reaches(c, events, s) && Overlap(c, EMPTY, events, "owner", k, size);
    }
  }
}
