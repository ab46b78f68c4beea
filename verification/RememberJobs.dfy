/** The asynchronous remember pipeline: from an accepted request, through the quota check
    and the queue, to a row in the vector table. Jobs are delivered at least once, attempts
    of the same job may overlap, an attempt may stop at any line, status writes may be lost
    and recall may delete rows at any moment. */
module RememberJobs {
  import opened Common
  import opened ByteOrder
  import opened RememberDb
  import Base64

  /** Walrus names a blob by its content. */
  type Walrus = seq<Byte> -> string

  /** What a queued job carries; the ciphertext is base64 text. */
  datatype Payload = Payload(owner: string, namespace: string, text: string, embedding: seq<real>)

  /** A payload with the ciphertext that was encoded and whose length was checked. */
  datatype Submission = Submission(payload: Payload, cipher: seq<Byte>)

  function RowFor(walrus: Walrus, s: Submission): VectorRow {
    VectorRow(s.payload.owner, s.payload.namespace, walrus(s.cipher), s.payload.embedding, |s.cipher|)
  }

  // ---------- the machine ----------

  /** The queued wallet job, the older remember job, and the inline code of the bulk and
      manual routes, which writes no intermediate status. */
  datatype Kind = Wallet | Legacy | Inline

  /** How far an attempt has come. */
  datatype Point = Begun | Decoded(bytes: seq<Byte>) | Stored(bytes: seq<Byte>, blobId: string) | Indexed(blobId: string)

  datatype Attempt = Attempt(job: string, kind: Kind, at: Point)

  /** `checked` are the jobs whose path called the quota check, `live` those between that
      point and their acknowledgement: the queue may still deliver them. Attempts that overlap
      with the acknowledged one run on. `indexed` and `cleaned` are history: the jobs
      that have ever been inserted, the owner and blob of every cleanup. */
  datatype State = State(
    db: Tables, submissions: map<string, Submission>, checked: set<string>, live: set<string>,
    attempts: map<nat, Attempt>, indexed: set<string>, cleaned: set<(string, string)>)

  const EMPTY: State := State(Tables(map[], map[]), map[], {}, {}, map[], {}, {})

  datatype Event =
    | Accept(job: string, owner: string, namespace: string)
    | MarkFailed(job: string)
    | Submit(job: string, owner: string, namespace: string, cipher: seq<Byte>, embedding: seq<real>, checkedPath: bool)
    | Begin(id: nat, job: string, kind: Kind, written: bool)
    | Decode(id: nat)
    | Upload(id: nat, ok: bool, written: bool)
    | Insert(id: nat, ok: bool, written: bool)
    | Finish(id: nat, written: bool)
    | Crash(id: nat)
    | Retire(job: string)
    | Cleanup(owner: string, blobId: string)

  datatype Config = Config(walrus: Walrus, maxBytes: int)

  /** `check_storage_quota`; zero or less means unlimited. */
  ghost predicate QuotaAllows(c: Config, db: Tables, owner: string, bytes: nat) {
    c.maxBytes <= 0 || StorageUsed(db, owner) + bytes <= c.maxBytes
  }

  /** Ids of new jobs are fresh UUIDs. That the job of an attempt has been submitted is
      always so (`AttemptOk`) and is asked for only where it is used. */
  ghost predicate Enabled(c: Config, s: State, e: Event) {
    match e
    case Accept(job, _, _) => job !in s.db.jobs && job !in s.submissions
    case MarkFailed(job) => true
    case Submit(job, owner, namespace, cipher, embedding, checkedPath) =>
      && job !in s.submissions
      && (job in s.db.jobs ==> s.db.jobs[job].owner == owner && s.db.jobs[job].namespace == namespace)
      && (checkedPath ==> QuotaAllows(c, s.db, owner, |cipher|))
    case Begin(id, job, kind, written) => id !in s.attempts && job in s.live
    case Decode(id) => id in s.attempts && s.attempts[id].at.Begun? && s.attempts[id].job in s.submissions
    case Upload(id, ok, written) => id in s.attempts && s.attempts[id].at.Decoded?
    case Insert(id, ok, written) => id in s.attempts && s.attempts[id].at.Stored? && s.attempts[id].job in s.submissions
    case Finish(id, written) => id in s.attempts && s.attempts[id].at.Indexed?
    case Crash(id) => id in s.attempts
    case Retire(job) => job in s.live
    case Cleanup(owner, blobId) => true
  }

  function Move(s: State, id: nat, at: Point): State
    requires id in s.attempts
  {
    s.(attempts := s.attempts[id := s.attempts[id].(at := at)])
  }

  function Stop(s: State, id: nat): State {
    s.(attempts := s.attempts - {id})
  }

  /** An attempt that fails: the inline routes write no failure status. */
  function Abandon(s: State, id: nat, written: bool): State
    requires id in s.attempts
  {
    var a := s.attempts[id];
    Stop(if written && a.kind != Inline then s.(db := SetStatus(s.db, a.job, Failed)) else s, id)
  }

  ghost function Step(c: Config, s: State, e: Event): State
    requires Enabled(c, s, e)
  {
    match e
    case Accept(job, owner, namespace) =>
      s.(db := s.db.(jobs := s.db.jobs[job := JobRow(owner, namespace, Pending, None)]))
    case MarkFailed(job) => s.(db := SetStatus(s.db, job, Failed))
    case Submit(job, owner, namespace, cipher, embedding, checkedPath) =>
      s.(submissions := s.submissions[job := Submission(Payload(owner, namespace, Base64.Encode(cipher), embedding), cipher)],
         checked := if checkedPath then s.checked + {job} else s.checked,
         live := s.live + {job})
    case Begin(id, job, kind, written) =>
      s.(attempts := s.attempts[id := Attempt(job, kind, Begun)],
         db := if written && kind != Inline then SetStatus(s.db, job, Running) else s.db)
    case Decode(id) =>
      (match Base64.Decode(s.submissions[s.attempts[id].job].payload.text)
       case Some(bytes) => Move(s, id, Decoded(bytes))
       case None => Abandon(s, id, true))
    case Upload(id, ok, written) =>
      var a := s.attempts[id];
      var blobId := c.walrus(a.at.bytes);
      if !ok then Abandon(s, id, written)
      else
        var db := if written && a.kind == Wallet then SetStatusAndBlob(s.db, a.job, Uploaded, blobId) else s.db;
        Move(s.(db := db), id, Stored(a.at.bytes, blobId))
    case Insert(id, ok, written) =>
      var a := s.attempts[id];
      var p := s.submissions[a.job].payload;
      var row := VectorRow(p.owner, p.namespace, a.at.blobId, p.embedding, |a.at.bytes|);
      if !ok then Abandon(s, id, written)
      else Move(s.(db := Upsert(s.db, a.job, row), indexed := s.indexed + {a.job}), id, Indexed(a.at.blobId))
    case Finish(id, written) =>
      var a := s.attempts[id];
      Stop(if written then s.(db := SetStatusAndBlob(s.db, a.job, Done, a.at.blobId)) else s, id)
    case Crash(id) => Stop(s, id)
    case Retire(job) => s.(live := s.live - {job})
    case Cleanup(owner, blobId) =>
      s.(db := DeleteBlob(s.db, blobId, owner), cleaned := s.cleaned + {(owner, blobId)})
  }

  // ---------- what every step keeps ----------

  /** The job has been inserted, and its row is there unless a cleanup removed its blob. */
  ghost predicate Kept(c: Config, s: State, job: string) {
    && job in s.submissions && job in s.indexed
    && (job in s.db.vectors || (s.submissions[job].payload.owner, c.walrus(s.submissions[job].cipher)) in s.cleaned)
  }

  ghost predicate AttemptOk(c: Config, s: State, a: Attempt) {
    && a.job in s.submissions
    && var sub := s.submissions[a.job];
       match a.at
       case Begun => true
       case Decoded(bytes) => bytes == sub.cipher
       case Stored(bytes, blobId) => bytes == sub.cipher && blobId == c.walrus(sub.cipher)
       case Indexed(blobId) => blobId == c.walrus(sub.cipher) && a.job in s.indexed
  }

  ghost predicate JobRowOk(c: Config, s: State, job: string)
    requires job in s.db.jobs
  {
    var row := s.db.jobs[job];
    && (job in s.submissions ==> row.owner == s.submissions[job].payload.owner
                                 && row.namespace == s.submissions[job].payload.namespace)
    && (row.status == Done ==> job in s.indexed && job in s.submissions
                               && row.blobId == Some(c.walrus(s.submissions[job].cipher)))
  }

  ghost predicate Invariant(c: Config, s: State) {
    && s.live <= s.submissions.Keys && s.checked <= s.submissions.Keys
    && (forall job :: job in s.submissions ==> s.submissions[job].payload.text == Base64.Encode(s.submissions[job].cipher))
    && (forall job :: job in s.indexed ==> Kept(c, s, job))
    && (forall job :: job in s.db.vectors ==>
          job in s.indexed && job in s.submissions && s.db.vectors[job] == RowFor(c.walrus, s.submissions[job]))
    && (forall id :: id in s.attempts ==> AttemptOk(c, s, s.attempts[id]))
    && (forall job :: job in s.db.jobs ==> JobRowOk(c, s, job))
  }

  /** `s'` has lost nothing of `s` but rows whose blob was cleaned, and has changed neither
      submissions nor rows. */
  ghost predicate Extends(c: Config, s: State, s': State) {
    && (forall job :: job in s.submissions ==> job in s'.submissions && s'.submissions[job] == s.submissions[job])
    && s'.indexed == s.indexed && s.cleaned <= s'.cleaned
    && (forall job :: job in s'.db.vectors ==> job in s.db.vectors && s'.db.vectors[job] == s.db.vectors[job])
    && (forall job :: job in s.db.vectors ==>
          job in s'.db.vectors || (s.db.vectors[job].owner, s.db.vectors[job].blobId) in s'.cleaned)
  }

  /** Every step but an insert only has to look at what it changes. */
  lemma ExtendsKeeps(c: Config, s: State, s': State)
    requires Invariant(c, s) && Extends(c, s, s')
    requires s'.live <= s'.submissions.Keys && s'.checked <= s'.submissions.Keys
    requires forall job :: job in s'.submissions ==> job in s.submissions || s'.submissions[job].payload.text == Base64.Encode(s'.submissions[job].cipher)
    requires forall id :: id in s'.attempts ==> AttemptOk(c, s', s'.attempts[id])
    requires forall job :: job in s'.db.jobs ==>
               JobRowOk(c, s', job)
               || (job in s.db.jobs && s'.db.jobs[job] == s.db.jobs[job] && (job in s'.submissions ==> job in s.submissions))
    ensures Invariant(c, s')
  {
    forall job | job in s.indexed
      ensures Kept(c, s', job)
    {
      assert Kept(c, s, job);
    }
    forall job | job in s'.db.jobs
      ensures JobRowOk(c, s', job)
    {
      assert job in s.db.jobs ==> JobRowOk(c, s, job);
    }
  }

  /** Attempts stay in agreement with submissions that are kept. */
  lemma AttemptsCarry(c: Config, s: State, s': State)
    requires Invariant(c, s) && Extends(c, s, s')
    ensures forall id :: id in s.attempts ==> AttemptOk(c, s', s.attempts[id])
  {
    forall id | id in s.attempts
      ensures AttemptOk(c, s', s.attempts[id])
    {
      assert AttemptOk(c, s, s.attempts[id]);
    }
  }

  /** Writes to the job table keep the invariant if they keep owners and namespaces and
      mark done only what is indexed under the blob they name. */
  lemma JobsKeep(c: Config, s: State, db: Tables)
    requires Invariant(c, s) && db.vectors == s.db.vectors
    requires forall job :: job in db.jobs ==>
               && job in s.db.jobs
               && db.jobs[job].owner == s.db.jobs[job].owner && db.jobs[job].namespace == s.db.jobs[job].namespace
               && (db.jobs[job].status == Done ==>
                     db.jobs[job] == s.db.jobs[job] ||
                     (job in s.indexed && job in s.submissions
                      && db.jobs[job].blobId == Some(c.walrus(s.submissions[job].cipher))))
    ensures Invariant(c, s.(db := db))
  {
    var s' := s.(db := db);
    AttemptsCarry(c, s, s');
    forall job | job in db.jobs
      ensures JobRowOk(c, s', job)
    {
      assert JobRowOk(c, s, job);
    }
    ExtendsKeeps(c, s, s');
  }

  lemma StatusKeeps(c: Config, s: State, job: string, status: Status)
    requires Invariant(c, s) && status != Done
    ensures Invariant(c, s.(db := SetStatus(s.db, job, status)))
  {
    hide Invariant;
    JobsKeep(c, s, SetStatus(s.db, job, status));
  }

  /** Attempts may come and go as long as each agrees with the submission of its job. */
  lemma AttemptsKeep(c: Config, s: State, attempts: map<nat, Attempt>)
    requires Invariant(c, s)
    requires forall id :: id in attempts ==> AttemptOk(c, s, attempts[id])
    ensures Invariant(c, s.(attempts := attempts))
  {
    var s' := s.(attempts := attempts);
    assert forall id :: id in attempts && AttemptOk(c, s, attempts[id]) ==> AttemptOk(c, s', attempts[id]);
    ExtendsKeeps(c, s, s');
  }

  lemma MoveKeeps(c: Config, s: State, id: nat, at: Point)
    requires Invariant(c, s) && id in s.attempts && AttemptOk(c, s, s.attempts[id].(at := at))
    ensures Invariant(c, Move(s, id, at))
  {
    hide AttemptOk;
    AttemptsKeep(c, s, s.attempts[id := s.attempts[id].(at := at)]);
  }

  lemma StopKeeps(c: Config, s: State, id: nat)
    requires Invariant(c, s)
    ensures Invariant(c, Stop(s, id))
  {
    hide AttemptOk;
    AttemptsKeep(c, s, s.attempts - {id});
  }

  lemma AbandonKeeps(c: Config, s: State, id: nat, written: bool)
    requires Invariant(c, s) && id in s.attempts
    ensures Invariant(c, Abandon(s, id, written))
  {
    hide Invariant;
    var job := s.attempts[id].job;
    StatusKeeps(c, s, job, Failed);
    StopKeeps(c, s, id);
    StopKeeps(c, s.(db := SetStatus(s.db, job, Failed)), id);
  }

  /** Accepting, submitting, retiring and cleaning up move no attempt. */
  lemma BookkeepingKeeps(c: Config, s: State, e: Event)
    requires Invariant(c, s) && Enabled(c, s, e)
    requires e.Accept? || e.Submit? || e.Retire? || e.Cleanup?
    ensures Invariant(c, Step(c, s, e))
  {
    var s' := Step(c, s, e);
    AttemptsCarry(c, s, s');
    forall job | job in s'.db.jobs
      ensures JobRowOk(c, s', job)
    {
      assert job in s.db.jobs ==> JobRowOk(c, s, job);
    }
    ExtendsKeeps(c, s, s');
  }

  lemma BeginKeeps(c: Config, s: State, id: nat, job: string, kind: Kind, written: bool)
    requires Invariant(c, s) && Enabled(c, s, Begin(id, job, kind, written))
    ensures Invariant(c, Step(c, s, Begin(id, job, kind, written)))
  {
    var s1 := s.(db := if written && kind != Inline then SetStatus(s.db, job, Running) else s.db);
    StatusKeeps(c, s, job, Running);
    assert s1.submissions == s.submissions && s1.live == s.live;
    assert AttemptOk(c, s1, Attempt(job, kind, Begun));
    hide AttemptOk;
    AttemptsKeep(c, s1, s1.attempts[id := Attempt(job, kind, Begun)]);
  }

  lemma UploadKeeps(c: Config, s: State, id: nat, written: bool)
    requires Invariant(c, s) && Enabled(c, s, Upload(id, true, written))
    ensures Invariant(c, Step(c, s, Upload(id, true, written)))
  {
    var a := s.attempts[id];
    assert AttemptOk(c, s, a);
    var blobId := c.walrus(a.at.bytes);
    var db := if written && a.kind == Wallet then SetStatusAndBlob(s.db, a.job, Uploaded, blobId) else s.db;
    var s1 := s.(db := db);
    JobsKeep(c, s, db);
    assert AttemptOk(c, s1, a.(at := Stored(a.at.bytes, blobId)));
    MoveKeeps(c, s1, id, Stored(a.at.bytes, blobId));
  }

  /** An insert writes the row of its job, whether it is the first one, a replay, or comes
      after the row was cleaned away. */
  lemma InsertKeeps(c: Config, s: State, id: nat, written: bool)
    requires Invariant(c, s) && Enabled(c, s, Insert(id, true, written))
    ensures Invariant(c, Step(c, s, Insert(id, true, written)))
  {
    var a := s.attempts[id];
    assert AttemptOk(c, s, a);
    var row := RowFor(c.walrus, s.submissions[a.job]);
    var s1 := s.(db := Upsert(s.db, a.job, row), indexed := s.indexed + {a.job});
    forall job | job in s1.indexed
      ensures Kept(c, s1, job)
    {
      assert job in s.indexed ==> Kept(c, s, job);
    }
    forall job | job in s1.db.jobs
      ensures JobRowOk(c, s1, job)
    {
      assert JobRowOk(c, s, job);
    }
    forall other | other in s.attempts
      ensures AttemptOk(c, s1, s.attempts[other])
    {
      assert AttemptOk(c, s, s.attempts[other]);
    }
    assert Invariant(c, s1);
    assert AttemptOk(c, s1, a.(at := Indexed(a.at.blobId)));
    MoveKeeps(c, s1, id, Indexed(a.at.blobId));
  }

  lemma IndexedFacts(c: Config, s: State, id: nat)
    requires Invariant(c, s) && id in s.attempts && s.attempts[id].at.Indexed?
    ensures var a := s.attempts[id];
            a.job in s.indexed && a.job in s.submissions && a.at.blobId == c.walrus(s.submissions[a.job].cipher)
  {
    assert AttemptOk(c, s, s.attempts[id]);
  }

  lemma FinishKeeps(c: Config, s: State, id: nat, written: bool)
    requires Invariant(c, s) && Enabled(c, s, Finish(id, written))
    ensures Invariant(c, Step(c, s, Finish(id, written)))
  {
    hide Invariant, StorageUsed, Base64.Encode;
    var a := s.attempts[id];
    IndexedFacts(c, s, id);
    JobsKeep(c, s, SetStatusAndBlob(s.db, a.job, Done, a.at.blobId));
    StopKeeps(c, s, id);
    StopKeeps(c, s.(db := SetStatusAndBlob(s.db, a.job, Done, a.at.blobId)), id);
  }

  lemma StepKeepsInvariant(c: Config, s: State, e: Event)
    requires Invariant(c, s) && Enabled(c, s, e)
    ensures Invariant(c, Step(c, s, e))
  {
    match e {
      case Accept(_, _, _) => BookkeepingKeeps(c, s, e);
      case MarkFailed(job) => StatusKeeps(c, s, job, Failed);
      case Submit(_, _, _, _, _, _) => BookkeepingKeeps(c, s, e);
      case Begin(id, job, kind, written) => BeginKeeps(c, s, id, job, kind, written);
      case Decode(id) =>
        assert AttemptOk(c, s, s.attempts[id]);
        Base64.DecodeEncode(s.submissions[s.attempts[id].job].cipher);
        MoveKeeps(c, s, id, Decoded(s.submissions[s.attempts[id].job].cipher));
      case Upload(id, ok, written) =>
        if ok { UploadKeeps(c, s, id, written); } else { AbandonKeeps(c, s, id, written); }
      case Insert(id, ok, written) =>
        if ok { InsertKeeps(c, s, id, written); } else { AbandonKeeps(c, s, id, written); }
      case Finish(id, written) => FinishKeeps(c, s, id, written);
      case Crash(id) => StopKeeps(c, s, id);
      case Retire(_) => BookkeepingKeeps(c, s, e);
      case Cleanup(_, _) => BookkeepingKeeps(c, s, e);
    }
  }

  // ---------- over every run ----------

  ghost function Execute(c: Config, s: State, events: seq<Event>): Option<State>
    decreases |events|
  {
    if events == [] then Some(s)
    else if Enabled(c, s, events[0]) then Execute(c, Step(c, s, events[0]), events[1..])
    else None
  }

  ghost predicate Reaches(c: Config, events: seq<Event>, s: State) {
    Execute(c, EMPTY, events) == Some(s)
  }

  lemma {:induction false} ExecuteKeepsInvariant(c: Config, s: State, events: seq<Event>)
    requires Invariant(c, s) && Execute(c, s, events).Some?
    ensures Invariant(c, Execute(c, s, events).value)
    decreases |events|
  {
    hide Enabled, Step, Invariant;
    if events == [] {
    } else {
      StepKeepsInvariant(c, s, events[0]);
      ExecuteKeepsInvariant(c, Step(c, s, events[0]), events[1..]);
    }
  }

  lemma ReachableInvariant(c: Config, events: seq<Event>, s: State)
    requires Reaches(c, events, s)
    ensures Invariant(c, s)
  {
    ExecuteKeepsInvariant(c, EMPTY, events);
  }

  /** Whatever is redelivered, crashes, overlaps or is lost: a job reported done has been
      indexed under its own id, with its own owner, namespace, ciphertext length and the
      blob its status names; only a cleanup of that blob can have taken the row away. */
  lemma DoneMeansIndexed(c: Config, events: seq<Event>, s: State, job: string)
    requires Reaches(c, events, s) && job in s.db.jobs && s.db.jobs[job].status == Done
    ensures job in s.submissions && job in s.indexed
    ensures var row, sub := s.db.jobs[job], s.submissions[job];
            && row.owner == sub.payload.owner && row.namespace == sub.payload.namespace
            && row.blobId == Some(c.walrus(sub.cipher))
            && (if job in s.db.vectors then s.db.vectors[job] == RowFor(c.walrus, sub)
                else (row.owner, row.blobId.value) in s.cleaned)
  {
    ReachableInvariant(c, events, s);
    assert JobRowOk(c, s, job);
    assert Kept(c, s, job);
  }

  // ---------- at least once is exactly once ----------

  /** The vector table after the given jobs have run one after the other, once each. */
  ghost function RunOnce(walrus: Walrus, submissions: map<string, Submission>, order: seq<string>): Tables
    requires forall job :: job in order ==> job in submissions
  {
    if order == [] then EMPTY.db
    else
      var job := order[|order| - 1];
      Upsert(RunOnce(walrus, submissions, order[..|order| - 1]), job, RowFor(walrus, submissions[job]))
  }

  /** The bytes one owner submitted in the given jobs. */
  ghost function SubmittedBytes(submissions: map<string, Submission>, order: seq<string>, owner: string): nat
    requires forall job :: job in order ==> job in submissions
  {
    if order == [] then 0
    else
      var sub := submissions[order[|order| - 1]];
      SubmittedBytes(submissions, order[..|order| - 1], owner) + (if sub.payload.owner == owner then |sub.cipher| else 0)
  }

  ghost predicate Distinct(order: seq<string>) {
    forall i, j :: 0 <= i < j < |order| ==> order[i] != order[j]
  }

  lemma {:induction false} RunOnceRows(walrus: Walrus, submissions: map<string, Submission>, order: seq<string>, owner: string)
    requires forall job :: job in order ==> job in submissions
    ensures var t := RunOnce(walrus, submissions, order);
            && (forall job :: job in t.vectors <==> job in order)
            && (forall job :: job in order ==> t.vectors[job] == RowFor(walrus, submissions[job]))
            && (Distinct(order) ==> StorageUsed(t, owner) == SubmittedBytes(submissions, order, owner))
  {
    hide StorageUsed;
    if order == [] {
      NothingStored(owner);
    } else {
      var init, last := order[..|order| - 1], order[|order| - 1];
      RunOnceRows(walrus, submissions, init, owner);
      UpsertStorage(RunOnce(walrus, submissions, init), last, RowFor(walrus, submissions[last]), owner);
      assert order == init + [last];
      DistinctInit(order);
    }
  }

  lemma NothingStored(owner: string)
    ensures StorageUsed(EMPTY.db, owner) == 0
  {
    assert Sizes(map[], owner) == map[];
  }

  lemma DistinctInit(order: seq<string>)
    requires order != []
    ensures Distinct(order) ==> Distinct(order[..|order| - 1]) && order[|order| - 1] !in order[..|order| - 1]
  {
  }

  /** Without cleanups, the vector table and every owner's storage are those of running each
      indexed job exactly once, in any order, however often and however far the jobs were
      really attempted. */
  lemma AtLeastOnceIsExactlyOnce(c: Config, events: seq<Event>, s: State, order: seq<string>, owner: string)
    requires Reaches(c, events, s) && s.cleaned == {}
    requires Distinct(order) && forall job :: job in order <==> job in s.indexed
    ensures forall job :: job in order ==> job in s.submissions
    ensures s.db.vectors == RunOnce(c.walrus, s.submissions, order).vectors
    ensures StorageUsed(s.db, owner) == SubmittedBytes(s.submissions, order, owner)
  {
    hide Invariant, Sizes, Sum, Execute;
    ReachableInvariant(c, events, s);
    RowsWithoutCleanup(c, s);
    RunOnceRows(c.walrus, s.submissions, order, owner);
    assert s.db.vectors.Keys == RunOnce(c.walrus, s.submissions, order).vectors.Keys;
  }

  lemma RowsWithoutCleanup(c: Config, s: State)
    requires Invariant(c, s) && s.cleaned == {}
    ensures forall job :: job in s.db.vectors <==> job in s.indexed
    ensures forall job :: job in s.indexed ==> job in s.submissions && s.db.vectors[job] == RowFor(c.walrus, s.submissions[job])
  {
    assert forall job :: job in s.indexed ==> Kept(c, s, job);
  }

  // ---------- putting runs together ----------

  lemma {:induction false} ExecuteAppend(c: Config, s: State, a: seq<Event>, b: seq<Event>)
    requires Execute(c, s, a).Some?
    ensures Execute(c, s, a + b) == Execute(c, Execute(c, s, a).value, b)
    decreases |a|
  {
    hide Step, Enabled;
    if a == [] {
      assert a + b == b;
    } else {
      assert (a + b)[1..] == a[1..] + b;
      ExecuteAppend(c, Step(c, s, a[0]), a[1..], b);
    }
  }

  lemma ExecuteNone(c: Config, s: State)
    ensures Execute(c, s, []) == Some(s)
  {
  }

  lemma ExecuteOne(c: Config, s: State, e: Event, rest: seq<Event>)
    requires Enabled(c, s, e)
    ensures Execute(c, s, [e] + rest) == Execute(c, Step(c, s, e), rest)
  {
    assert ([e] + rest)[1..] == rest;
  }
}
