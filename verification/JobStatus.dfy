/** What a client that polls a job's status is told, over every run of the pipeline. */
module JobStatus {
  import opened Common
  import opened ByteOrder
  import opened RememberDb
  import opened RememberJobs
  import opened RememberHandlers
  import Base64

  /** The status that a step writes to a job's row, if its write is made and arrives. */
  ghost function Written(s: State, e: Event, job: string): Option<Status> {
    match e
    case Accept(j, _, _) => if j == job then Some(Pending) else None
    case MarkFailed(j) => if j == job then Some(Failed) else None
    case Begin(id, j, kind, written) => if j == job && written && kind != Inline then Some(Running) else None
    case Decode(id) =>
      if Of(s, id, job) && s.attempts[id].kind != Inline && job in s.submissions
         && Base64.Decode(s.submissions[job].payload.text).None?
      then Some(Failed) else None
    case Upload(id, ok, written) =>
      if !Of(s, id, job) || !written then None
      else if ok then (if s.attempts[id].kind.Wallet? then Some(Uploaded) else None)
      else (if s.attempts[id].kind != Inline then Some(Failed) else None)
    case Insert(id, ok, written) =>
      if Of(s, id, job) && written && !ok && s.attempts[id].kind != Inline then Some(Failed) else None
    case Finish(id, written) => if Of(s, id, job) && written then Some(Done) else None
    case _ => None
  }

  /** The attempt is one of the job. */
  ghost predicate Of(s: State, id: nat, job: string) {
    id in s.attempts && s.attempts[id].job == job
  }

  lemma StepStatus(c: Config, s: State, e: Event, job: string)
    requires Enabled(c, s, e) && job in Step(c, s, e).db.jobs
    ensures match Written(s, e, job)
            case Some(status) => Step(c, s, e).db.jobs[job].status == status
            case None => job in s.db.jobs && Step(c, s, e).db.jobs[job].status == s.db.jobs[job].status
  {
    hide StorageUsed, Base64.Encode, Base64.Decode;
  }

  // ---------- places in a run ----------

  /** What the step at place `i` writes. */
  ghost function WrittenAt(c: Config, events: seq<Event>, i: nat, job: string): Option<Status>
    requires i < |events|
  {
    match Execute(c, EMPTY, events[..i])
    case None => None
    case Some(s) => Written(s, events[i], job)
  }

  /** The last write to the job's row is at place `i`. */
  ghost predicate LastWrite(c: Config, events: seq<Event>, i: nat, job: string, status: Status) {
    && i < |events| && WrittenAt(c, events, i, job) == Some(status)
    && forall j :: i < j < |events| ==> WrittenAt(c, events, j, job) == None
  }

  lemma {:induction false} PrefixRuns(c: Config, s: State, a: seq<Event>, b: seq<Event>)
    requires Execute(c, s, a + b).Some?
    ensures Execute(c, s, a).Some?
    decreases |a|
  {
    hide Step, Enabled;
    if a == [] {
    } else {
      assert (a + b)[1..] == a[1..] + b && (a + b)[0] == a[0];
      PrefixRuns(c, Step(c, s, a[0]), a[1..], b);
    }
  }

  lemma LastStep(c: Config, events: seq<Event>)
    requires events != [] && Execute(c, EMPTY, events).Some?
    ensures var n := |events| - 1;
            && Execute(c, EMPTY, events[..n]).Some?
            && var s := Execute(c, EMPTY, events[..n]).value;
               Enabled(c, s, events[n]) && Execute(c, EMPTY, events) == Some(Step(c, s, events[n]))
  {
    hide Step, Enabled;
    var n := |events| - 1;
    var before, last := events[..n], events[n];
    assert events == before + [last];
    PrefixRuns(c, EMPTY, before, [last]);
    ExecuteAppend(c, EMPTY, before, [last]);
    var s := Execute(c, EMPTY, before).value;
    assert [last][1..] == [];
    assert Enabled(c, s, last);
    ExecuteNone(c, Step(c, s, last));
  }

  /** A place before the last is the same place in the run without the last step. */
  lemma SamePlace(c: Config, events: seq<Event>, i: nat, job: string)
    requires events != [] && i < |events| - 1
    ensures WrittenAt(c, events, i, job) == WrittenAt(c, events[..|events| - 1], i, job)
  {
    assert events[..|events| - 1][..i] == events[..i];
  }

  /** In every run, whatever is lost, crashes, overlaps or is delivered again, a job's status is
      that of the last status write that arrived. */
  lemma {:induction false} StatusIsLastWrite(c: Config, events: seq<Event>, s: State, job: string)
    requires Reaches(c, events, s) && job in s.db.jobs
    ensures exists i :: LastWrite(c, events, i, job, s.db.jobs[job].status)
    decreases |events|
  {
    hide Step, Enabled, Execute, Written;
    if events == [] {
      ExecuteNone(c, EMPTY);
      assert false;
    } else {
      var n := |events| - 1;
      LastStep(c, events);
      var before := Execute(c, EMPTY, events[..n]).value;
      StepStatus(c, before, events[n], job);
      if Written(before, events[n], job).Some? {
        assert LastWrite(c, events, n, job, s.db.jobs[job].status);
      } else {
        StatusIsLastWrite(c, events[..n], before, job);
        var i :| LastWrite(c, events[..n], i, job, s.db.jobs[job].status);
        forall j | 0 <= j < n
          ensures WrittenAt(c, events, j, job) == WrittenAt(c, events[..n], j, job)
        {
          SamePlace(c, events, j, job);
        }
        assert LastWrite(c, events, i, job, s.db.jobs[job].status);
      }
    }
  }

  lemma LastWriteIsOne(c: Config, events: seq<Event>, i: nat, j: nat, job: string, a: Status, b: Status)
    requires LastWrite(c, events, i, job, a) && LastWrite(c, events, j, job, b)
    ensures i == j && a == b
  {
  }

  /** The step at place `i` is the end of an attempt of the job whose write arrives. */
  ghost predicate FinishedAt(c: Config, events: seq<Event>, i: nat, job: string) {
    && i < |events| && events[i].Finish? && events[i].written
    && Execute(c, EMPTY, events[..i]).Some? && Of(Execute(c, EMPTY, events[..i]).value, events[i].id, job)
  }

  lemma OnlyFinishWritesDone(c: Config, events: seq<Event>, i: nat, job: string)
    requires i < |events|
    ensures WrittenAt(c, events, i, job) == Some(Done) <==> FinishedAt(c, events, i, job)
  {
    hide Execute;
  }

  /** A job is done exactly if its last status write to arrive is the one that ends an attempt. */
  lemma DoneExactlyWhen(c: Config, events: seq<Event>, s: State, job: string)
    requires Reaches(c, events, s) && job in s.db.jobs
    ensures s.db.jobs[job].status == Done <==>
              exists i :: 0 <= i < |events| && FinishedAt(c, events, i, job)
                          && forall j :: i < j < |events| ==> WrittenAt(c, events, j, job) == None
  {
    hide FinishedAt, WrittenAt;
    var status := s.db.jobs[job].status;
    StatusIsLastWrite(c, events, s, job);
    var last :| LastWrite(c, events, last, job, status);
    forall i | 0 <= i < |events|
      ensures WrittenAt(c, events, i, job) == Some(Done) <==> FinishedAt(c, events, i, job)
    {
      OnlyFinishWritesDone(c, events, i, job);
    }
    if exists i :: 0 <= i < |events| && FinishedAt(c, events, i, job)
                   && forall j :: i < j < |events| ==> WrittenAt(c, events, j, job) == None {
      var i :| 0 <= i < |events| && FinishedAt(c, events, i, job)
               && forall j :: i < j < |events| ==> WrittenAt(c, events, j, job) == None;
      assert LastWrite(c, events, i, job, Done);
      LastWriteIsOne(c, events, i, last, job, Done, status);
    }
  }

  // ---------- a run in which a done job is done no more ----------

  const LUCKY: Fortune := Fortune(true, true, true, true, true, true, true)

  function UntilDone(job: string, cipher: seq<Byte>): seq<Event> {
    [Accept(job, "owner", "default"), Submit(job, "owner", "default", cipher, [], false)]
    + AttemptEvents(0, job, Wallet, LUCKY)
  }

  lemma DoneAndLive(c: Config, job: string, cipher: seq<Byte>)
    ensures Execute(c, EMPTY, UntilDone(job, cipher)).Some?
    ensures var s := Execute(c, EMPTY, UntilDone(job, cipher)).value;
            && job in s.db.jobs && s.db.jobs[job].status == Done && job in s.live
            && s.attempts == map[] && s.db.vectors.Keys == {job}
  {
    hide Execute, Invariant, AttemptEvents, StorageUsed, Base64.Encode, Base64.Decode;
    var accept, submit := Accept(job, "owner", "default"), Submit(job, "owner", "default", cipher, [], false);
    var attempt := AttemptEvents(0, job, Wallet, LUCKY);
    var s1 := Step(c, EMPTY, accept);
    var s2 := Step(c, s1, submit);
    EmptyInvariant(c);
    StepKeepsInvariant(c, EMPTY, accept);
    StepKeepsInvariant(c, s1, submit);
    assert UntilDone(job, cipher) == [accept] + ([submit] + attempt);
    ExecuteOne(c, EMPTY, accept, [submit] + attempt);
    ExecuteOne(c, s1, submit, attempt);
    Base64.DecodeEncode(cipher);
    MachineRunsHandler(c, s2, 0, job, Wallet, LUCKY);
  }

  lemma EmptyInvariant(c: Config)
    ensures Invariant(c, EMPTY)
  {
  }

  /** There is a run that reaches such a state, and another delivery that stops right after its
      first write makes the job running again, though its row is there. */
  lemma DoneIsUndone(c: Config, job: string, cipher: seq<Byte>)
    ensures var events := UntilDone(job, cipher) + [Begin(1, job, Wallet, true), Crash(1)];
            && Execute(c, EMPTY, events).Some? && Execute(c, EMPTY, UntilDone(job, cipher)).Some?
            && var s := Execute(c, EMPTY, events).value;
               && job in s.db.jobs && s.db.jobs[job].status == Running
               && s.db.vectors == Execute(c, EMPTY, UntilDone(job, cipher)).value.db.vectors
               && s.db.vectors.Keys == {job}
  {
    hide Execute, UntilDone;
    DoneAndLive(c, job, cipher);
    var s := Execute(c, EMPTY, UntilDone(job, cipher)).value;
    var begin, crash := Begin(1, job, Wallet, true), Crash(1);
    ExecuteAppend(c, EMPTY, UntilDone(job, cipher), [begin, crash]);
    assert [begin, crash] == [begin] + [crash] && [crash] == [crash] + [];
    ExecuteOne(c, s, begin, [crash]);
    ExecuteOne(c, Step(c, s, begin), crash, []);
    ExecuteNone(c, Step(c, Step(c, s, begin), crash));
  }
}
