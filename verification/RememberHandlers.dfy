/** The handlers of the remember pipeline as they run, each on its own, and the steps of the
    machine in `RememberJobs` that each of them takes. */
module RememberHandlers {
  import opened Common
  import opened ByteOrder
  import opened RememberDb
  import opened RememberJobs
  import Base64

  // ---------- an attempt ----------

  /** What happens to one attempt: which status writes arrive, whether the calls succeed. */
  datatype Fortune = Fortune(
    running: bool, key: bool, upload: bool, uploaded: bool, insert: bool, done: bool, failed: bool)

  datatype Failure = DecodeFailed | NoKey | UploadFailed | InsertFailed

  /** The first thing that goes wrong. Only the older handler asks the pool for a key. */
  function ResultOf(kind: Kind, bytes: Option<seq<Byte>>, luck: Fortune): Result<(), Failure> {
    if bytes.None? then Err(DecodeFailed)
    else if kind.Legacy? && !luck.key then Err(NoKey)
    else if !luck.upload then Err(UploadFailed)
    else if !luck.insert then Err(InsertFailed)
    else Ok(())
  }

  /** The job's row afterwards: the last status write that arrived counts. The older handler
      makes no write between running and done. */
  function RowAfter(kind: Kind, row: JobRow, result: Result<(), Failure>, blobId: string, luck: Fortune): JobRow {
    var reached := result.Ok? || result.error.InsertFailed?;
    var named := reached && kind.Wallet? && luck.uploaded;
    match result
    case Ok(_) =>
      if luck.done then row.(status := Done, blobId := Some(blobId))
      else if named then row.(status := Uploaded, blobId := Some(blobId))
      else if luck.running then row.(status := Running)
      else row
    case Err(_) =>
      row.(status := if luck.failed then Failed else if named then Uploaded
                     else if luck.running then Running else row.status,
           blobId := if named then Some(blobId) else row.blobId)
  }

  /** The tables and the result of an attempt that is run without interruption. */
  function Handled(t: Tables, walrus: Walrus, kind: Kind, p: Payload, jobId: Option<string>, freshId: string,
                   luck: Fortune): (Tables, Result<(), Failure>)
  {
    var bytes := Base64.Decode(p.text);
    var result := ResultOf(kind, bytes, luck);
    var blobId := if bytes.Some? then walrus(bytes.value) else "";
    var vectorId := if jobId.Some? then jobId.value else freshId;
    (Tables(
       if jobId.Some? && jobId.value in t.jobs then
         t.jobs[jobId.value := RowAfter(kind, t.jobs[jobId.value], result, blobId, luck)]
       else t.jobs,
       if result.Ok? then
         t.vectors[vectorId := VectorRow(p.owner, p.namespace, blobId, p.embedding, |bytes.value|)]
       else t.vectors),
     result)
  }

  /** The result names the first call that fails, and only an attempt without one leaves a row:
      that of its payload with the bytes of its text, under the job's id or a fresh one. The last
      status write, if it arrives, says which of the two it was, in the row of this job alone. */
  lemma FirstFailureDecides(t: Tables, walrus: Walrus, kind: Kind, p: Payload, jobId: Option<string>, freshId: string,
                            luck: Fortune)
    ensures var (after, result) := Handled(t, walrus, kind, p, jobId, freshId, luck);
            var bytes, hasKey := Base64.Decode(p.text), kind.Legacy? ==> luck.key;
            && (result.Ok? <==> bytes.Some? && hasKey && luck.upload && luck.insert)
            && (result == Err(DecodeFailed) <==> bytes.None?)
            && (result == Err(NoKey) <==> bytes.Some? && !hasKey)
            && (result == Err(UploadFailed) <==> bytes.Some? && hasKey && !luck.upload)
            && (result == Err(InsertFailed) <==> bytes.Some? && hasKey && luck.upload && !luck.insert)
            && (jobId.None? ==> after.jobs == t.jobs)
            && after.vectors ==
                 if result.Err? then t.vectors
                 else t.vectors[(if jobId.Some? then jobId.value else freshId) :=
                        VectorRow(p.owner, p.namespace, walrus(bytes.value), p.embedding, |bytes.value|)]
    ensures var (after, result) := Handled(t, walrus, kind, p, jobId, freshId, luck);
            && after.jobs.Keys == t.jobs.Keys
            && (forall j :: j in t.jobs && jobId != Some(j) ==> after.jobs[j] == t.jobs[j])
            && (jobId.Some? && jobId.value in t.jobs ==>
                  var row, was := after.jobs[jobId.value], t.jobs[jobId.value];
                  && row.owner == was.owner && row.namespace == was.namespace
                  && (result.Ok? && luck.done ==>
                        row.status == Done && row.blobId == Some(walrus(Base64.Decode(p.text).value)))
                  && (result.Err? && luck.failed ==> row.status == Status.Failed))
  {
    hide Base64.Decode;
  }

  /** A status write, if the job has a row that it could go to. */
  function Noting(t: Tables, jobId: Option<string>, status: Status, written: bool): Tables {
    if jobId.Some? && written then SetStatus(t, jobId.value, status) else t
  }

  function NotingBlob(t: Tables, jobId: Option<string>, status: Status, blobId: string, written: bool): Tables {
    if jobId.Some? && written then SetStatusAndBlob(t, jobId.value, status, blobId) else t
  }

  method NoteStatus(db: VectorDb, jobId: Option<string>, status: Status, written: bool)
    modifies db`jobs
    ensures db.View() == Noting(old(db.View()), jobId, status, written)
  {
    if jobId.Some? {
      db.TryStatus(jobId.value, status, written);
    }
  }

  method NoteStatusAndBlob(db: VectorDb, jobId: Option<string>, status: Status, blobId: string, written: bool)
    modifies db`jobs
    ensures db.View() == NotingBlob(old(db.View()), jobId, status, blobId, written)
  {
    if jobId.Some? {
      db.TryStatusAndBlob(jobId.value, status, blobId, written);
    }
  }

  /** The statements of an attempt, one after the other, add up to `Handled`. */
  lemma StatementsAddUp(t: Tables, walrus: Walrus, kind: Kind, p: Payload, jobId: Option<string>, freshId: string,
                        luck: Fortune)
    requires kind != Inline
    ensures
      var started := Noting(t, jobId, Running, luck.running);
      Handled(t, walrus, kind, p, jobId, freshId, luck)
      == match Base64.Decode(p.text)
         case None => (Noting(started, jobId, Status.Failed, luck.failed), Err(DecodeFailed))
         case Some(bytes) =>
           var blobId := walrus(bytes);
           var noted := NotingBlob(started, jobId, Uploaded, blobId, luck.uploaded && kind.Wallet?);
           var row := VectorRow(p.owner, p.namespace, blobId, p.embedding, |bytes|);
           var stored := Upsert(noted, if jobId.Some? then jobId.value else freshId, row);
           if kind.Legacy? && !luck.key then (Noting(started, jobId, Status.Failed, luck.failed), Err(NoKey))
           else if !luck.upload then (Noting(started, jobId, Status.Failed, luck.failed), Err(UploadFailed))
           else if !luck.insert then (Noting(noted, jobId, Status.Failed, luck.failed), Err(InsertFailed))
           else (NotingBlob(stored, jobId, Done, blobId, luck.done), Ok(()))
  {
    hide Base64.Decode;
    var started, goal := Noting(t, jobId, Running, luck.running), Handled(t, walrus, kind, p, jobId, freshId, luck).0;
    match Base64.Decode(p.text)
    case None =>
      assert goal.jobs == Noting(started, jobId, Status.Failed, luck.failed).jobs;
    case Some(bytes) =>
      var noted := NotingBlob(started, jobId, Uploaded, walrus(bytes), luck.uploaded && kind.Wallet?);
      if (kind.Legacy? && !luck.key) || !luck.upload {
        assert goal.jobs == Noting(started, jobId, Status.Failed, luck.failed).jobs;
      } else if !luck.insert {
        assert goal.jobs == Noting(noted, jobId, Status.Failed, luck.failed).jobs;
      } else {
        assert goal.jobs == NotingBlob(noted, jobId, Done, walrus(bytes), luck.done).jobs;
      }
  }

  /** `execute_upload_and_transfer`. */
  method ExecuteUploadAndTransfer(
    db: VectorDb, walrus: Walrus, payload: Payload, jobId: Option<string>, freshId: string, luck: Fortune)
    returns (result: Result<(), Failure>)
    modifies db
    ensures (db.View(), result) == Handled(old(db.View()), walrus, Wallet, payload, jobId, freshId, luck)
    ensures var bytes := Base64.Decode(payload.text);
            && (result == Err(DecodeFailed) <==> bytes.None?)
            && (result == Err(UploadFailed) <==> bytes.Some? && !luck.upload)
            && (result == Err(InsertFailed) <==> bytes.Some? && luck.upload && !luck.insert)
            && (result.Ok? <==> bytes.Some? && luck.upload && luck.insert)
            && db.vectors ==
                 if result.Err? then old(db.vectors)
                 else old(db.vectors)[(if jobId.Some? then jobId.value else freshId) :=
                        VectorRow(payload.owner, payload.namespace, walrus(bytes.value), payload.embedding, |bytes.value|)]
    ensures jobId.None? ==> db.jobs == old(db.jobs)
  {
    hide Base64.Decode, Handled, Noting, NotingBlob, SetStatus, SetStatusAndBlob;
    StatementsAddUp(db.View(), walrus, Wallet, payload, jobId, freshId, luck);
    FirstFailureDecides(db.View(), walrus, Wallet, payload, jobId, freshId, luck);
    NoteStatus(db, jobId, Running, luck.running);
    var decoded := Base64.Decode(payload.text);
    if decoded.None? {
      NoteStatus(db, jobId, Status.Failed, luck.failed);
      return Err(DecodeFailed);
    }
    var encrypted := decoded.value;
    if !luck.upload {
      NoteStatus(db, jobId, Status.Failed, luck.failed);
      return Err(UploadFailed);
    }
    var blobId := walrus(encrypted);
    NoteStatusAndBlob(db, jobId, Uploaded, blobId, luck.uploaded);
    var vectorId := if jobId.Some? then jobId.value else freshId;
    if !luck.insert {
      NoteStatus(db, jobId, Status.Failed, luck.failed);
      return Err(InsertFailed);
    }
    db.InsertVector(vectorId, VectorRow(payload.owner, payload.namespace, blobId, payload.embedding, |encrypted|));
    NoteStatusAndBlob(db, jobId, Done, blobId, luck.done);
    return Ok(());
  }

  /** `execute_remember`, for jobs queued by earlier versions. */
  method ExecuteRemember(db: VectorDb, walrus: Walrus, payload: Payload, jobId: string, luck: Fortune)
    returns (result: Result<(), Failure>)
    modifies db
    ensures (db.View(), result) == Handled(old(db.View()), walrus, Legacy, payload, Some(jobId), jobId, luck)
    ensures var bytes := Base64.Decode(payload.text);
            && (result == Err(DecodeFailed) <==> bytes.None?)
            && (result == Err(NoKey) <==> bytes.Some? && !luck.key)
            && (result == Err(UploadFailed) <==> bytes.Some? && luck.key && !luck.upload)
            && (result == Err(InsertFailed) <==> bytes.Some? && luck.key && luck.upload && !luck.insert)
            && (result.Ok? <==> bytes.Some? && luck.key && luck.upload && luck.insert)
            && db.vectors ==
                 if result.Err? then old(db.vectors)
                 else old(db.vectors)[jobId :=
                        VectorRow(payload.owner, payload.namespace, walrus(bytes.value), payload.embedding, |bytes.value|)]
  {
    hide Base64.Decode, Handled, SetStatus, SetStatusAndBlob;
    StatementsAddUp(db.View(), walrus, Legacy, payload, Some(jobId), jobId, luck);
    FirstFailureDecides(db.View(), walrus, Legacy, payload, Some(jobId), jobId, luck);
    db.TryStatus(jobId, Running, luck.running);
    var decoded := Base64.Decode(payload.text);
    if decoded.None? {
      db.TryStatus(jobId, Status.Failed, luck.failed);
      return Err(DecodeFailed);
    }
    if !luck.key {
      db.TryStatus(jobId, Status.Failed, luck.failed);
      return Err(NoKey);
    }
    if !luck.upload {
      db.TryStatus(jobId, Status.Failed, luck.failed);
      return Err(UploadFailed);
    }
    var blobId := walrus(decoded.value);
    if !luck.insert {
      db.TryStatus(jobId, Status.Failed, luck.failed);
      return Err(InsertFailed);
    }
    db.InsertVector(jobId, VectorRow(payload.owner, payload.namespace, blobId, payload.embedding, |decoded.value|));
    db.TryStatusAndBlob(jobId, Done, blobId, luck.done);
    return Ok(());
  }

  /** The events of the machine that such an attempt consists of. */
  function AttemptEvents(id: nat, job: string, kind: Kind, luck: Fortune): seq<Event> {
    [Begin(id, job, kind, luck.running), Decode(id)] +
    if (kind.Legacy? && !luck.key) || !luck.upload then [Upload(id, false, luck.failed)]
    else if !luck.insert then [Upload(id, true, luck.uploaded), Insert(id, false, luck.failed)]
    else [Upload(id, true, luck.uploaded), Insert(id, true, true), Finish(id, luck.done)]
  }

  function Started(t: Tables, job: string, luck: Fortune): Tables {
    if luck.running then SetStatus(t, job, Running) else t
  }

  /** The state once the attempt has decoded its ciphertext. */
  ghost function AfterDecode(s: State, id: nat, job: string, kind: Kind, luck: Fortune): State
    requires job in s.submissions
  {
    s.(attempts := s.attempts[id := Attempt(job, kind, Decoded(s.submissions[job].cipher))], db := Started(s.db, job, luck))
  }

  lemma ToDecoded(c: Config, s: State, id: nat, job: string, kind: Kind, luck: Fortune, rest: seq<Event>)
    requires Invariant(c, s) && job in s.live && id !in s.attempts && (kind == Inline ==> !luck.running)
    ensures Execute(c, s, [Begin(id, job, kind, luck.running), Decode(id)] + rest)
         == Execute(c, AfterDecode(s, id, job, kind, luck), rest)
  {
    hide Execute, SetStatus, Invariant, Base64.Encode, Base64.Decode;
    Facts(c, s, job);
    Base64.DecodeEncode(s.submissions[job].cipher);
    var begin, decode := Begin(id, job, kind, luck.running), Decode(id);
    var s1 := Step(c, s, begin);
    assert Step(c, s1, decode) == AfterDecode(s, id, job, kind, luck);
    assert [begin, decode] + rest == [begin] + ([decode] + rest);
    ExecuteOne(c, s, begin, [decode] + rest);
    ExecuteOne(c, s1, decode, rest);
  }

  lemma UploadFails(c: Config, s: State, id: nat, job: string, kind: Kind, luck: Fortune)
    requires job in s.submissions && id !in s.attempts && kind != Inline
    ensures var t := Started(s.db, job, luck);
            Execute(c, AfterDecode(s, id, job, kind, luck), [Upload(id, false, luck.failed)])
            == Some(s.(db := if luck.failed then SetStatus(t, job, Status.Failed) else t))
  {
    hide Execute, SetStatus, Started;
    var start, e := AfterDecode(s, id, job, kind, luck), Upload(id, false, luck.failed);
    assert start.attempts - {id} == s.attempts;
    ExecuteOne(c, start, e, []);
    assert [e] + [] == [e];
    ExecuteNone(c, Step(c, start, e));
  }

  /** The tables once the upload has been noted; only the newer handler notes it. */
  function Noted(t: Tables, job: string, kind: Kind, blobId: string, luck: Fortune): Tables {
    var started := Started(t, job, luck);
    if luck.uploaded && kind.Wallet? then SetStatusAndBlob(started, job, Uploaded, blobId) else started
  }

  lemma InsertFails(c: Config, s: State, id: nat, job: string, kind: Kind, luck: Fortune)
    requires job in s.submissions && id !in s.attempts && kind != Inline
    ensures var t := Noted(s.db, job, kind, c.walrus(s.submissions[job].cipher), luck);
            Execute(c, AfterDecode(s, id, job, kind, luck), [Upload(id, true, luck.uploaded), Insert(id, false, luck.failed)])
            == Some(s.(db := if luck.failed then SetStatus(t, job, Status.Failed) else t))
  {
    hide Execute, SetStatus, SetStatusAndBlob, Started;
    var start := AfterDecode(s, id, job, kind, luck);
    var upload, insert := Upload(id, true, luck.uploaded), Insert(id, false, luck.failed);
    var s1 := Step(c, start, upload);
    assert s1.attempts - {id} == s.attempts;
    ExecuteOne(c, start, upload, [insert]);
    assert [upload] + [insert] == [upload, insert] && [insert] + [] == [insert];
    ExecuteOne(c, s1, insert, []);
    ExecuteNone(c, Step(c, s1, insert));
  }

  lemma AllSucceeds(c: Config, s: State, id: nat, job: string, kind: Kind, luck: Fortune)
    requires job in s.submissions && id !in s.attempts && (kind == Inline ==> !luck.running)
    ensures var blobId := c.walrus(s.submissions[job].cipher);
            var t := Upsert(Noted(s.db, job, kind, blobId, luck), job, RowFor(c.walrus, s.submissions[job]));
            Execute(c, AfterDecode(s, id, job, kind, luck),
                    [Upload(id, true, luck.uploaded), Insert(id, true, true), Finish(id, luck.done)])
            == Some(s.(db := if luck.done then SetStatusAndBlob(t, job, Done, blobId) else t, indexed := s.indexed + {job}))
  {
    hide Execute, SetStatus, SetStatusAndBlob, Started, Upsert;
    var start := AfterDecode(s, id, job, kind, luck);
    var upload, insert, finish := Upload(id, true, luck.uploaded), Insert(id, true, true), Finish(id, luck.done);
    var s1 := Step(c, start, upload);
    var s2 := Step(c, s1, insert);
    assert s2.attempts - {id} == s.attempts;
    assert [upload] + [insert, finish] == [upload, insert, finish];
    assert [insert] + [finish] == [insert, finish] && [finish] + [] == [finish];
    ExecuteOne(c, start, upload, [insert, finish]);
    ExecuteOne(c, s1, insert, [finish]);
    ExecuteOne(c, s2, finish, []);
    ExecuteNone(c, Step(c, s2, finish));
  }

  lemma HandledTables(t: Tables, walrus: Walrus, kind: Kind, p: Payload, job: string, luck: Fortune)
    requires Base64.Decode(p.text).Some? && kind != Inline
    ensures
      var bytes := Base64.Decode(p.text).value;
      var blobId, started := walrus(bytes), Started(t, job, luck);
      var noted := Noted(t, job, kind, blobId, luck);
      var row := VectorRow(p.owner, p.namespace, blobId, p.embedding, |bytes|);
      Handled(t, walrus, kind, p, Some(job), job, luck).0
      == if (kind.Legacy? && !luck.key) || !luck.upload then
           (if luck.failed then SetStatus(started, job, Status.Failed) else started)
         else if !luck.insert then (if luck.failed then SetStatus(noted, job, Status.Failed) else noted)
         else
           var stored := Upsert(noted, job, row);
           (if luck.done then SetStatusAndBlob(stored, job, Done, blobId) else stored)
  {
    hide Base64.Decode, Handled, SetStatus, SetStatusAndBlob;
    StatementsAddUp(t, walrus, kind, p, Some(job), job, luck);
  }

  /** The machine does what the handlers do: an attempt that nothing interrupts takes it from
      any reachable state to the tables that the handler leaves, with the other attempts where
      they were. The handler reports success exactly if the machine indexes the job. */
  lemma MachineRunsHandler(c: Config, s: State, id: nat, job: string, kind: Kind, luck: Fortune)
    requires Invariant(c, s) && job in s.live && id !in s.attempts && kind != Inline
    ensures Execute(c, s, AttemptEvents(id, job, kind, luck)).Some?
    ensures var s' := Execute(c, s, AttemptEvents(id, job, kind, luck)).value;
            && s'.db == Handled(s.db, c.walrus, kind, s.submissions[job].payload, Some(job), job, luck).0
            && s'.attempts == s.attempts && s'.submissions == s.submissions && s'.live == s.live
    ensures var s' := Execute(c, s, AttemptEvents(id, job, kind, luck)).value;
            var result := Handled(s.db, c.walrus, kind, s.submissions[job].payload, Some(job), job, luck).1;
            s'.indexed == if result.Ok? then s.indexed + {job} else s.indexed
  {
    Base64.DecodeEncode(s.submissions[job].cipher);
    Facts(c, s, job);
    hide Invariant, Execute, Handled, AfterDecode, Noted, Started, SetStatus, SetStatusAndBlob, Upsert, Base64.Encode, Base64.Decode;
    HandledTables(s.db, c.walrus, kind, s.submissions[job].payload, job, luck);
    FirstFailureDecides(s.db, c.walrus, kind, s.submissions[job].payload, Some(job), job, luck);
    ToDecoded(c, s, id, job, kind, luck, AttemptEvents(id, job, kind, luck)[2..]);
    if (kind.Legacy? && !luck.key) || !luck.upload {
      UploadFails(c, s, id, job, kind, luck);
    } else if !luck.insert {
      InsertFails(c, s, id, job, kind, luck);
    } else {
      AllSucceeds(c, s, id, job, kind, luck);
    }
  }

  /** The handler reports what the machine did: success exactly if the attempt inserted a row, and
      that row is then the one of its submission; otherwise the failure is that of the call in
      which the attempt ended, and no row changes. */
  lemma ResultTellsWhatHappened(c: Config, s: State, id: nat, job: string, kind: Kind, luck: Fortune)
    requires Invariant(c, s) && job in s.live && id !in s.attempts && kind != Inline
    ensures var events := AttemptEvents(id, job, kind, luck);
            var last := events[|events| - 1];
            && Execute(c, s, events).Some?
            && var s' := Execute(c, s, events).value;
               match Handled(s.db, c.walrus, kind, s.submissions[job].payload, Some(job), job, luck).1
               case Ok(_) =>
                 && (exists written :: Insert(id, true, written) in events)
                 && last == Finish(id, luck.done) && s'.indexed == s.indexed + {job}
                 && s'.db.vectors == s.db.vectors[job := RowFor(c.walrus, s.submissions[job])]
               case Err(e) =>
                 && (forall written :: Insert(id, true, written) !in events)
                 && s'.indexed == s.indexed && s'.db.vectors == s.db.vectors
                 && (e.InsertFailed? <==> last == Insert(id, false, luck.failed))
                 && (e.NoKey? || e.UploadFailed? <==> last == Upload(id, false, luck.failed))
                 && (e.NoKey? <==> kind.Legacy? && !luck.key)
  {
    hide Invariant, Execute, Handled, AttemptEvents, Base64.Encode, Base64.Decode, Step, Enabled;
    Facts(c, s, job);
    Base64.DecodeEncode(s.submissions[job].cipher);
    FirstFailureDecides(s.db, c.walrus, kind, s.submissions[job].payload, Some(job), job, luck);
    MachineRunsHandler(c, s, id, job, kind, luck);
    EventsOf(id, job, kind, luck);
  }

  lemma EventsOf(id: nat, job: string, kind: Kind, luck: Fortune)
    ensures var events := AttemptEvents(id, job, kind, luck);
            var hasKey := kind.Legacy? ==> luck.key;
            && |events| >= 3
            && (hasKey && luck.upload && luck.insert ==> Insert(id, true, true) in events)
            && (!(hasKey && luck.upload && luck.insert) ==> forall written :: Insert(id, true, written) !in events)
            && events[|events| - 1] == if !hasKey || !luck.upload then Upload(id, false, luck.failed)
                                       else if !luck.insert then Insert(id, false, luck.failed)
                                       else Finish(id, luck.done)
  {
    if (kind.Legacy? ==> luck.key) && luck.upload && luck.insert {
      assert AttemptEvents(id, job, kind, luck)[3] == Insert(id, true, true);
    }
  }

  /** A status can go back. A job that is done and is delivered once more is done afterwards
      exactly if the last status write of the new attempt that arrives says so, or none arrives;
      its row in the vector table stays as it is in any case. */
  lemma RedeliveryUndoesDone(c: Config, s: State, id: nat, job: string, kind: Kind, luck: Fortune)
    requires Invariant(c, s) && job in s.live && id !in s.attempts && kind != Inline
    requires job in s.db.jobs && s.db.jobs[job].status == Done
    ensures Execute(c, s, AttemptEvents(id, job, kind, luck)).Some?
    ensures var t := Execute(c, s, AttemptEvents(id, job, kind, luck)).value.db;
            var ok := luck.upload && luck.insert && (kind.Legacy? ==> luck.key);
            var noted := kind.Wallet? && luck.upload && luck.uploaded;
            && job in t.jobs
            && (job in s.db.vectors ==> job in t.vectors && t.vectors[job] == s.db.vectors[job])
            && (t.jobs[job].status == Done <==> (ok && luck.done)
                                                || (!luck.running && !noted && (ok || !luck.failed)))
  {
    hide Invariant, Execute, AttemptEvents, Base64.Encode, Base64.Decode, Step, Enabled, Handled, RowFor;
    Facts(c, s, job);
    if job in s.db.vectors {
      RowFacts(c, s, job);
    }
    MachineRunsHandler(c, s, id, job, kind, luck);
    HandledRow(s.db, c.walrus, kind, s.submissions[job], job, luck);
  }

  lemma HandledRow(t: Tables, walrus: Walrus, kind: Kind, sub: Submission, job: string, luck: Fortune)
    requires sub.payload.text == Base64.Encode(sub.cipher) && job in t.jobs && t.jobs[job].status == Done
    requires job in t.vectors ==> t.vectors[job] == RowFor(walrus, sub)
    ensures var after := Handled(t, walrus, kind, sub.payload, Some(job), job, luck).0;
            var ok := luck.upload && luck.insert && (kind.Legacy? ==> luck.key);
            var noted := kind.Wallet? && luck.upload && luck.uploaded;
            && job in after.jobs
            && (job in t.vectors ==> job in after.vectors && after.vectors[job] == t.vectors[job])
            && (after.jobs[job].status == Done <==> (ok && luck.done)
                                                    || (!luck.running && !noted && (ok || !luck.failed)))
  {
    hide Base64.Encode, Base64.Decode;
    Base64.DecodeEncode(sub.cipher);
  }

  lemma RowFacts(c: Config, s: State, job: string)
    requires Invariant(c, s) && job in s.db.vectors
    ensures job in s.submissions && s.db.vectors[job] == RowFor(c.walrus, s.submissions[job])
  {
  }

  lemma Facts(c: Config, s: State, job: string)
    requires Invariant(c, s) && job in s.live
    ensures job in s.submissions && s.submissions[job].payload.text == Base64.Encode(s.submissions[job].cipher)
  {
  }

  // ---------- the quota and the routes that check it ----------

  datatype QuotaError = Unreadable | Exceeded

  /** `check_storage_quota`; with zero or less for the quota the table is not even read. */
  method CheckStorageQuota(db: VectorDb, owner: string, additional: nat, maxBytes: int, readable: bool)
    returns (r: Result<(), QuotaError>)
    ensures r == Quota(db.View(), owner, additional, maxBytes, readable)
    ensures r.Ok? <==> maxBytes <= 0 || (readable && StorageUsed(db.View(), owner) + additional <= maxBytes)
    ensures r == Err(Unreadable) <==> maxBytes > 0 && !readable
  {
    if maxBytes <= 0 {
      return Ok(());
    }
    if !readable {
      return Err(Unreadable);
    }
    var used := db.GetStorageUsed(owner);
    if used + additional > maxBytes {
      return Err(Exceeded);
    }
    return Ok(());
  }

  ghost function Quota(t: Tables, owner: string, additional: nat, maxBytes: int, readable: bool): Result<(), QuotaError> {
    if maxBytes <= 0 then Ok(())
    else if !readable then Err(Unreadable)
    else if StorageUsed(t, owner) + additional <= maxBytes then Ok(())
    else Err(Exceeded)
  }

  datatype QueuedJob = QueuedJob(jobId: string, payload: Payload)

  /** A push may be refused, or carried out although its answer is lost. */
  datatype Push = Accepted | Refused | Unanswered

  class WalletQueue {
    var jobs: seq<QueuedJob>

    constructor ()
      ensures jobs == []
    {
      jobs := [];
    }

    method Enqueue(job: QueuedJob, push: Push) returns (ok: bool)
      modifies this
      ensures ok == push.Accepted?
      ensures jobs == if push.Refused? then old(jobs) else old(jobs) + [job]
    {
      if !push.Refused? {
        jobs := jobs + [job];
      }
      return push.Accepted?;
    }
  }

  datatype PrepareError = EmbedFailed | EncryptFailed | QuotaFailed(e: QuotaError) | NoKeys | EnqueueFailed

  /** What keeps a prepared job from being pushed. */
  ghost function Obstacle(t: Tables, owner: string, embedding: Option<seq<real>>, cipher: Option<seq<Byte>>,
                          maxBytes: int, readable: bool, hasKey: bool): Option<PrepareError>
  {
    if embedding.None? then Some(EmbedFailed)
    else if cipher.None? then Some(EncryptFailed)
    else if Quota(t, owner, |cipher.value|, maxBytes, readable).Err? then
      Some(QuotaFailed(Quota(t, owner, |cipher.value|, maxBytes, readable).error))
    else if !hasKey then Some(NoKeys)
    else None
  }

  /** The task of `spawn_prepare_remember_job`: any failure is noted in the job's row, if that
      write arrives. */
  method PrepareRememberJob(
    db: VectorDb, queue: WalletQueue, jobId: string, owner: string, namespace: string,
    embedding: Option<seq<real>>, cipher: Option<seq<Byte>>, maxBytes: int, readable: bool, hasKey: bool,
    push: Push, marked: bool)
    returns (r: Result<(), PrepareError>)
    modifies db`jobs, queue
    ensures
      match Obstacle(old(db.View()), owner, embedding, cipher, maxBytes, readable, hasKey)
      case Some(e) =>
        r == Err(e) && queue.jobs == old(queue.jobs)
      case None =>
        && r == (if push.Accepted? then Ok(()) else Err(EnqueueFailed))
        && queue.jobs == old(queue.jobs) +
             (if push.Refused? then []
              else [QueuedJob(jobId, Payload(owner, namespace, Base64.Encode(cipher.value), embedding.value))])
    ensures db.View() == if r.Err? && marked then SetStatus(old(db.View()), jobId, Status.Failed) else old(db.View())
    ensures r == Err(EmbedFailed) <==> embedding.None?
    ensures r == Err(EncryptFailed) <==> embedding.Some? && cipher.None?
    ensures r.Err? && r.error.QuotaFailed? <==>
              && embedding.Some? && cipher.Some? && maxBytes > 0
              && (!readable || StorageUsed(old(db.View()), owner) + |cipher.value| > maxBytes)
    ensures r == Err(NoKeys) ==> !hasKey
    ensures r == Err(EnqueueFailed) ==> hasKey && !push.Accepted?
    ensures r.Ok? ==> hasKey && push.Accepted?
    ensures queue.jobs == old(queue.jobs) +
              (if r.Ok? || (r.error.EnqueueFailed? && push.Unanswered?) then
                 [QueuedJob(jobId, Payload(owner, namespace, Base64.Encode(cipher.value), embedding.value))]
               else [])
  {
    r := Prepare(db, queue, jobId, owner, namespace, embedding, cipher, maxBytes, readable, hasKey, push);
    if r.Err? {
      db.TryStatus(jobId, Status.Failed, marked);
    }
  }

  method Prepare(
    db: VectorDb, queue: WalletQueue, jobId: string, owner: string, namespace: string,
    embedding: Option<seq<real>>, cipher: Option<seq<Byte>>, maxBytes: int, readable: bool, hasKey: bool, push: Push)
    returns (r: Result<(), PrepareError>)
    modifies queue
    ensures
      match Obstacle(db.View(), owner, embedding, cipher, maxBytes, readable, hasKey)
      case Some(e) =>
        r == Err(e) && queue.jobs == old(queue.jobs)
      case None =>
        && r == (if push.Accepted? then Ok(()) else Err(EnqueueFailed))
        && queue.jobs == old(queue.jobs) +
             (if push.Refused? then []
              else [QueuedJob(jobId, Payload(owner, namespace, Base64.Encode(cipher.value), embedding.value))])
    ensures r == Err(EmbedFailed) <==> embedding.None?
    ensures r == Err(EncryptFailed) <==> embedding.Some? && cipher.None?
    ensures r.Err? && r.error.QuotaFailed? <==>
              && embedding.Some? && cipher.Some? && maxBytes > 0
              && (!readable || StorageUsed(db.View(), owner) + |cipher.value| > maxBytes)
    ensures r == Err(NoKeys) ==> !hasKey
    ensures r == Err(EnqueueFailed) ==> hasKey && !push.Accepted?
    ensures r.Ok? ==> hasKey && push.Accepted?
    ensures queue.jobs == old(queue.jobs) +
              (if r.Ok? || (r.error.EnqueueFailed? && push.Unanswered?) then
                 [QueuedJob(jobId, Payload(owner, namespace, Base64.Encode(cipher.value), embedding.value))]
               else [])
  {
    if embedding.None? {
      return Err(EmbedFailed);
    }
    if cipher.None? {
      return Err(EncryptFailed);
    }
    var quota := CheckStorageQuota(db, owner, |cipher.value|, maxBytes, readable);
    if quota.Err? {
      return Err(QuotaFailed(quota.error));
    }
    if !hasKey {
      return Err(NoKeys);
    }
    var text := Base64.Encode(cipher.value);
    var ok := queue.Enqueue(QueuedJob(jobId, Payload(owner, namespace, text, embedding.value)), push);
    return if ok then Ok(()) else Err(EnqueueFailed);
  }

  /** A job that reaches the queue is a submission of the machine that has passed the quota
      check; the worker decodes the very ciphertext whose length was checked. */
  lemma PreparedIsSubmitted(c: Config, s: State, job: string, owner: string, namespace: string, cipher: seq<Byte>,
                            embedding: seq<real>, readable: bool, hasKey: bool)
    requires job !in s.submissions
    requires job in s.db.jobs && s.db.jobs[job].owner == owner && s.db.jobs[job].namespace == namespace
    requires Obstacle(s.db, owner, Some(embedding), Some(cipher), c.maxBytes, readable, hasKey).None?
    ensures var e := Submit(job, owner, namespace, cipher, embedding, true);
            && Enabled(c, s, e)
            && Step(c, s, e).submissions[job].payload == Payload(owner, namespace, Base64.Encode(cipher), embedding)
    ensures Base64.Decode(Base64.Encode(cipher)) == Some(cipher)
  {
    hide StorageUsed;
    Base64.DecodeEncode(cipher);
  }

  /** `execute_bulk_remember` stops at the first push that is not accepted and leaves what it
      has pushed. */
  method ExecuteBulkRemember(queue: WalletQueue, items: seq<QueuedJob>, push: seq<Push>)
    returns (result: Result<nat, string>)
    requires |push| == |items|
    modifies queue
    ensures result.Ok? <==> forall i :: 0 <= i < |items| ==> push[i].Accepted?
    ensures result.Ok? ==> result.value == |items| && queue.jobs == old(queue.jobs) + items
    ensures result.Err? ==>
              exists n :: && 0 <= n < |items| && !push[n].Accepted? && (forall i :: 0 <= i < n ==> push[i].Accepted?)
                          && result.error == items[n].jobId
                          && queue.jobs == old(queue.jobs) + items[..if push[n].Refused? then n else n + 1]
  {
    if items == [] {
      return Ok(0);
    }
    var enqueued := 0;
    while enqueued < |items|
      invariant 0 <= enqueued <= |items|
      invariant forall i :: 0 <= i < enqueued ==> push[i].Accepted?
      invariant queue.jobs == old(queue.jobs) + items[..enqueued]
    {
      var ok := queue.Enqueue(items[enqueued], push[enqueued]);
      if !ok {
        assert items[..enqueued + 1] == items[..enqueued] + [items[enqueued]];
        return Err(items[enqueued].jobId);
      }
      enqueued := enqueued + 1;
    }
    assert items[..|items|] == items;
    return Ok(enqueued);
  }

  // ---------- the manual route ----------

  datatype ManualError = EmptyData | EmptyVector | NotBase64 | OverQuota(e: QuotaError) | NoManualKey
                       | ManualUploadFailed | ManualInsertFailed

  ghost function ManualResult(t: Tables, walrus: Walrus, owner: string, text: string, embedding: seq<real>, maxBytes: int,
                              readable: bool, luck: Fortune): Result<string, ManualError>
  {
    if text == "" then Err(EmptyData)
    else if embedding == [] then Err(EmptyVector)
    else
      match Base64.Decode(text)
      case None => Err(NotBase64)
      case Some(bytes) =>
        match Quota(t, owner, |bytes|, maxBytes, readable)
        case Err(e) => Err(OverQuota(e))
        case Ok(_) =>
          if !luck.key then Err(NoManualKey)
          else if !luck.upload then Err(ManualUploadFailed)
          else if !luck.insert then Err(ManualInsertFailed)
          else Ok(walrus(bytes))
  }

  /** `remember_manual` answers with the blob id; its row has a fresh id and no job row. */
  method RememberManual(
    db: VectorDb, walrus: Walrus, owner: string, namespace: string, text: string, embedding: seq<real>,
    maxBytes: int, readable: bool, freshId: string, luck: Fortune)
    returns (r: Result<string, ManualError>)
    modifies db`vectors
    ensures r == ManualResult(old(db.View()), walrus, owner, text, embedding, maxBytes, readable, luck)
    ensures r == Err(EmptyData) <==> text == ""
    ensures r == Err(EmptyVector) <==> text != "" && embedding == []
    ensures r == Err(NotBase64) <==> text != "" && embedding != [] && Base64.Decode(text).None?
    ensures r.Err? && r.error.OverQuota? <==>
              && text != "" && embedding != [] && Base64.Decode(text).Some? && maxBytes > 0
              && (!readable || StorageUsed(old(db.View()), owner) + |Base64.Decode(text).value| > maxBytes)
    ensures r == Err(NoManualKey) ==> !luck.key
    ensures r == Err(ManualUploadFailed) ==> luck.key && !luck.upload
    ensures r == Err(ManualInsertFailed) ==> luck.key && luck.upload && !luck.insert
    ensures r.Ok? ==> luck.key && luck.upload && luck.insert && r.value == walrus(Base64.Decode(text).value)
    ensures db.View() ==
              if r.Ok? then
                Upsert(old(db.View()), freshId, VectorRow(owner, namespace, r.value, embedding, |Base64.Decode(text).value|))
              else old(db.View())
  {
    if text == "" {
      return Err(EmptyData);
    }
    if embedding == [] {
      return Err(EmptyVector);
    }
    var decoded := Base64.Decode(text);
    if decoded.None? {
      return Err(NotBase64);
    }
    var bytes := decoded.value;
    var quota := CheckStorageQuota(db, owner, |bytes|, maxBytes, readable);
    if quota.Err? {
      return Err(OverQuota(quota.error));
    }
    if !luck.key {
      return Err(NoManualKey);
    }
    if !luck.upload {
      return Err(ManualUploadFailed);
    }
    var blobId := walrus(bytes);
    if !luck.insert {
      return Err(ManualInsertFailed);
    }
    db.InsertVector(freshId, VectorRow(owner, namespace, blobId, embedding, |bytes|));
    return Ok(blobId);
  }

  /** In the machine a manual request is a checked submission and one attempt without status
      writes: from any reachable state it leads to the tables that the route leaves. */
  lemma MachineRunsManual(c: Config, s: State, id: nat, job: string, owner: string, namespace: string, text: string,
                          embedding: seq<real>, readable: bool, luck: Fortune)
    requires Invariant(c, s) && job !in s.submissions && job !in s.db.jobs && id !in s.attempts
    requires !luck.running && !luck.uploaded && !luck.done
    requires ManualResult(s.db, c.walrus, owner, text, embedding, c.maxBytes, readable, luck).Ok?
    ensures var bytes := Base64.Decode(text).value;
            var events := [Submit(job, owner, namespace, bytes, embedding, true)] + AttemptEvents(id, job, Inline, luck);
            && Execute(c, s, events).Some?
            && Execute(c, s, events).value.db
               == Upsert(s.db, job, VectorRow(owner, namespace, c.walrus(bytes), embedding, |bytes|))
            && job in Execute(c, s, events).value.submissions
            && Execute(c, s, events).value.submissions[job].payload.text == text
  {
    hide Execute, Invariant, Quota, StorageUsed, Base64.Encode, Base64.Decode, AfterDecode, Upsert, SetStatus, SetStatusAndBlob;
    var bytes := Base64.Decode(text).value;
    Base64.EncodeDecode(text);
    var submit := Submit(job, owner, namespace, bytes, embedding, true);
    QuotaExactlyWhen(c, s.db, owner, |bytes|, readable);
    var s1 := Step(c, s, submit);
    StepKeepsInvariant(c, s, submit);
    ExecuteOne(c, s, submit, AttemptEvents(id, job, Inline, luck));
    ToDecoded(c, s1, id, job, Inline, luck, AttemptEvents(id, job, Inline, luck)[2..]);
    AllSucceeds(c, s1, id, job, Inline, luck);
  }

  /** The routes' check and the machine's guard are one condition; an unreadable table fails the
      check of a positive quota. */
  lemma QuotaExactlyWhen(c: Config, t: Tables, owner: string, bytes: nat, readable: bool)
    ensures Quota(t, owner, bytes, c.maxBytes, readable).Ok?
       <==> QuotaAllows(c, t, owner, bytes) && (readable || c.maxBytes <= 0)
    ensures Quota(t, owner, bytes, c.maxBytes, readable) == Err(Exceeded)
       <==> !QuotaAllows(c, t, owner, bytes) && readable
  {
  }
}
