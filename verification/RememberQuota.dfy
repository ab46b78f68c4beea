/** The storage quota over the runs of the remember pipeline: the check and the insert it is
    meant to bound are separate steps, with a queue between them. */
module RememberQuota {
  import opened Common
  import opened ByteOrder
  import opened RememberDb
  import opened RememberJobs
  import opened RememberHandlers
  import Base64

  /** Jobs that may still be delivered, or of which some attempt is still running. */
  ghost function Active(s: State): set<string> {
    s.live + set id | id in s.attempts :: s.attempts[id].job
  }

  /** Active jobs of `owner` that called the quota check. */
  ghost function InFlight(s: State, owner: string): set<string> {
    set job | job in Active(s) && job in s.checked && job in s.submissions && s.submissions[job].payload.owner == owner
  }

  /** The sizes of the rows of `owner` whose path called the quota check. */
  ghost function CheckedSizes(s: State, owner: string): map<string, int> {
    map job | job in s.db.vectors && job in s.checked && s.db.vectors[job].owner == owner :: s.db.vectors[job].size
  }

  /** The sizes of the rows of `owner` that are stored or may still be stored. */
  ghost function Load(s: State, owner: string): map<string, int> {
    map job | && job in s.submissions && job in s.checked && s.submissions[job].payload.owner == owner
              && (job in s.db.vectors || job in Active(s))
            :: |s.submissions[job].cipher|
  }

  /** Along the run, at most `k` jobs of `owner` are in flight after any step, and none that
      is checked has more than `size` bytes. */
  ghost predicate Overlap(c: Config, s: State, events: seq<Event>, owner: string, k: nat, size: nat)
    requires Execute(c, s, events).Some?
    decreases |events|
  {
    && |InFlight(s, owner)| <= k
    && (events != [] ==>
          && (events[0].Submit? && events[0].checkedPath && events[0].owner == owner ==> |events[0].cipher| <= size)
          && Overlap(c, Step(c, s, events[0]), events[1..], owner, k, size))
  }

  ghost predicate SizesBounded(s: State, owner: string, size: nat) {
    forall job :: job in InFlight(s, owner) ==> |s.submissions[job].cipher| <= size
  }

  // ---------- load and storage ----------

  /** Rows have the owner and the length of what was submitted. */
  ghost predicate RowsMatch(s: State) {
    forall job :: job in s.db.vectors ==>
      && job in s.submissions && s.db.vectors[job].owner == s.submissions[job].payload.owner
      && s.db.vectors[job].size == |s.submissions[job].cipher|
  }

  lemma FromInvariant(c: Config, s: State)
    requires Invariant(c, s)
    ensures RowsMatch(s) && s.checked <= s.submissions.Keys
  {
  }

  lemma LoadParts(s: State, owner: string, size: nat, here: map<string, int>, coming: map<string, int>)
    requires RowsMatch(s) && SizesBounded(s, owner, size)
    requires here == map job | job in Load(s, owner) && job in s.db.vectors :: Load(s, owner)[job]
    requires coming == map job | job in Load(s, owner) && job !in s.db.vectors :: Load(s, owner)[job]
    ensures Load(s, owner) == here + coming && here.Keys !! coming.Keys
    ensures forall job :: job in here ==> job in Sizes(s.db.vectors, owner) && here[job] == Sizes(s.db.vectors, owner)[job]
    ensures forall job :: job in Sizes(s.db.vectors, owner) ==> Sizes(s.db.vectors, owner)[job] >= 0
    ensures coming.Keys <= InFlight(s, owner)
    ensures forall job :: job in coming ==> coming[job] <= size
  {
  }

  /** What is stored or may be stored exceeds what is stored by the jobs in flight. */
  lemma LoadBounded(s: State, owner: string, size: nat)
    requires RowsMatch(s) && SizesBounded(s, owner, size)
    ensures Sum(Load(s, owner)) <= StorageUsed(s.db, owner) + |InFlight(s, owner)| * size
  {
    var load := Load(s, owner);
    var here := map job | job in load && job in s.db.vectors :: load[job];
    var coming := map job | job in load && job !in s.db.vectors :: load[job];
    LoadParts(s, owner, size, here, coming);
    hide Load, InFlight, Sum, RowsMatch, SizesBounded;
    SumDisjoint(load, here, coming);
    SumMonotone(here, Sizes(s.db.vectors, owner));
    SumBounded(coming, size);
    SubsetSize(coming.Keys, InFlight(s, owner));
    MulMonotone(|coming|, |InFlight(s, owner)|, size);
  }

  lemma CheckedWithinLoad(s: State, owner: string)
    requires RowsMatch(s)
    ensures Sum(CheckedSizes(s, owner)) <= Sum(Load(s, owner))
  {
    hide Sum;
    SumMonotone(CheckedSizes(s, owner), Load(s, owner));
  }

  // ---------- steps ----------

  lemma SubmitEffect(c: Config, s: State, e: Event)
    requires Enabled(c, s, e) && e.Submit?
    ensures e.job !in s.submissions && (e.checkedPath ==> QuotaAllows(c, s.db, e.owner, |e.cipher|))
    ensures var s' := Step(c, s, e);
            && s'.submissions.Keys == s.submissions.Keys + {e.job}
            && (forall job :: job in s.submissions ==> s'.submissions[job] == s.submissions[job])
            && s'.submissions[e.job].cipher == e.cipher && s'.submissions[e.job].payload.owner == e.owner
            && s'.db == s.db && s'.attempts == s.attempts && s'.live == s.live + {e.job} && Active(s') == Active(s) + {e.job}
            && s'.checked == if e.checkedPath then s.checked + {e.job} else s.checked
  {
  }

  /** The other steps: submissions stay as they are, no job becomes active, and only rows of
      active jobs appear. */
  lemma OtherEffect(c: Config, s: State, e: Event)
    requires Enabled(c, s, e) && !e.Submit?
    ensures var s' := Step(c, s, e);
            && s'.submissions == s.submissions && s'.checked == s.checked && Active(s') <= Active(s)
            && s'.db.vectors.Keys <= s.db.vectors.Keys + Active(s)
  {
  }

  /** The new job adds its size to the load of its owner. */
  lemma LoadAfterSubmit(s: State, s': State, job: string, owner: string)
    requires job !in s.submissions && s'.submissions.Keys == s.submissions.Keys + {job}
    requires forall other :: other in s.submissions ==> s'.submissions[other] == s.submissions[other]
    requires s'.db == s.db && Active(s') == Active(s) + {job} && s'.checked == s.checked + {job}
    requires s'.submissions[job].payload.owner == owner
    ensures job !in Load(s, owner) && Load(s', owner) == Load(s, owner)[job := |s'.submissions[job].cipher|]
    ensures job !in InFlight(s, owner) && InFlight(s', owner) == InFlight(s, owner) + {job}
    ensures forall size: nat :: SizesBounded(s, owner, size) && |s'.submissions[job].cipher| <= size ==> SizesBounded(s', owner, size)
  {
  }

  /** Everything but a checked submission of the owner leaves less or the same load. */
  lemma LoadShrinks(c: Config, s: State, e: Event, owner: string)
    requires Enabled(c, s, e) && !(e.Submit? && e.checkedPath && e.owner == owner)
    requires s.checked <= s.submissions.Keys
    ensures var s' := Step(c, s, e);
            && (forall job :: job in Load(s', owner) ==> job in Load(s, owner) && Load(s', owner)[job] == Load(s, owner)[job])
            && (forall job :: job in InFlight(s', owner) ==> job in InFlight(s, owner) && s'.submissions[job] == s.submissions[job])
    ensures forall job :: job in Load(s, owner) ==> Load(s, owner)[job] >= 0
  {
    hide Step, Enabled, QuotaAllows;
    if e.Submit? {
      SubmitEffect(c, s, e);
    } else {
      OtherEffect(c, s, e);
    }
  }

  lemma SubmitLoad(c: Config, s: State, e: Event, k: nat, size: nat)
    requires RowsMatch(s) && Enabled(c, s, e) && e.Submit? && e.checkedPath && c.maxBytes > 0
    requires SizesBounded(s, e.owner, size) && |e.cipher| <= size
    requires |InFlight(Step(c, s, e), e.owner)| <= k
    ensures Sum(Load(Step(c, s, e), e.owner)) <= c.maxBytes + (k - 1) * size
    ensures SizesBounded(Step(c, s, e), e.owner, size)
  {
    hide Step, Enabled, StorageUsed, Sum, RowsMatch, Load, InFlight, SizesBounded;
    var s' := Step(c, s, e);
    SubmitEffect(c, s, e);
    LoadAfterSubmit(s, s', e.job, e.owner);
    LoadBounded(s, e.owner, size);
    SumUpdate(Load(s, e.owner), e.job, |e.cipher|);
    var n := |InFlight(s, e.owner)|;
    assert n + 1 == |InFlight(s', e.owner)|;
    PassedCheck(Sum(Load(s, e.owner)), StorageUsed(s.db, e.owner), |e.cipher|, c.maxBytes, n, k, size);
  }

  /** A load that exceeds what is stored by n jobs leaves room for one that passes. */
  lemma PassedCheck(load: int, used: int, bytes: nat, max: int, n: nat, k: nat, size: nat)
    requires load <= used + n * size && used + bytes <= max && n + 1 <= k
    ensures load + bytes <= max + (k - 1) * size
  {
    MulMonotone(n, k - 1, size);
  }

  /** A step adds to the load only by submitting a job that has just passed the check. */
  lemma StepLoad(c: Config, s: State, e: Event, owner: string, k: nat, size: nat)
    requires Invariant(c, s) && Enabled(c, s, e) && SizesBounded(s, owner, size) && c.maxBytes > 0
    requires Sum(Load(s, owner)) <= c.maxBytes + (k - 1) * size
    requires |InFlight(Step(c, s, e), owner)| <= k
    requires e.Submit? && e.checkedPath && e.owner == owner ==> |e.cipher| <= size
    ensures Sum(Load(Step(c, s, e), owner)) <= c.maxBytes + (k - 1) * size
    ensures SizesBounded(Step(c, s, e), owner, size)
  {
    hide Invariant, Step, Enabled, Sum, RowsMatch, Load, InFlight;
    FromInvariant(c, s);
    if e.Submit? && e.checkedPath && e.owner == owner {
      SubmitLoad(c, s, e, k, size);
    } else {
      LoadShrinks(c, s, e, owner);
      SumMonotone(Load(Step(c, s, e), owner), Load(s, owner));
    }
  }

  lemma {:induction false} ExecuteLoad(c: Config, s: State, events: seq<Event>, owner: string, k: nat, size: nat)
    requires Invariant(c, s) && Execute(c, s, events).Some? && c.maxBytes > 0
    requires Overlap(c, s, events, owner, k, size) && SizesBounded(s, owner, size)
    requires Sum(Load(s, owner)) <= c.maxBytes + (k - 1) * size
    ensures Sum(Load(Execute(c, s, events).value, owner)) <= c.maxBytes + (k - 1) * size
    decreases |events|
  {
    hide Enabled, Step, Invariant, Load, InFlight, SizesBounded;
    if events == [] {
    } else {
      StepKeepsInvariant(c, s, events[0]);
      StepLoad(c, s, events[0], owner, k, size);
      ExecuteLoad(c, Step(c, s, events[0]), events[1..], owner, k, size);
    }
  }

  // ---------- how far the quota can be overshot ----------

  /** Although check and insert are separate steps, inserts are replayed, and rows deleted
      and inserted again: with at most k jobs in flight, of at most S bytes each, the bytes
      stored through paths that call the check never exceed the quota by more than
      (k - 1) S, and never exceed it at all when k is 1. Other paths may add what they like. */
  lemma QuotaOvershoot(c: Config, events: seq<Event>, s: State, owner: string, k: nat, size: nat)
    requires Reaches(c, events, s) && c.maxBytes > 0 && k >= 1
    requires Overlap(c, EMPTY, events, owner, k, size)
    ensures Sum(CheckedSizes(s, owner)) <= c.maxBytes + (k - 1) * size
    ensures k == 1 ==> Sum(CheckedSizes(s, owner)) <= c.maxBytes
  {
    hide Sum, Invariant, Load, InFlight, CheckedSizes, Overlap, Execute;
    NothingLoaded(c, owner);
    MulMonotone(0, k - 1, size);
    ExecuteLoad(c, EMPTY, events, owner, k, size);
    ReachableInvariant(c, events, s);
    FromInvariant(c, s);
    CheckedWithinLoad(s, owner);
  }

  lemma NothingLoaded(c: Config, owner: string)
    ensures Invariant(c, EMPTY) && Sum(Load(EMPTY, owner)) == 0 && InFlight(EMPTY, owner) == {}
  {
    assert Load(EMPTY, owner) == map[];
  }
}
