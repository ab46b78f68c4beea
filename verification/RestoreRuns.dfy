/** What a run of `restore` does to the table, and what several runs achieve. */
module RestoreRuns {
  import opened Common
  import opened RememberDb
  import opened ByteOrder
  import opened Restore

  /** Row ids come from version 4 UUIDs: the first n are new and differ. */
  ghost predicate Fresh(t: Tables, rowIds: nat -> string, n: nat) {
    && (forall k :: 0 <= k < n ==> rowIds(k) !in t.vectors)
    && (forall j, k :: 0 <= j < k < n ==> rowIds(j) != rowIds(k))
  }

  ghost predicate InNamespace(row: VectorRow, owner: string, namespace: string) {
    row.owner == owner && row.namespace == namespace
  }

  /** What a run met: `results` came through every stage, the first `inserted` were indexed. */
  datatype Run = Run(
    w: World, cleanupOk: string -> bool, results: seq<(string, seq<real>)>, inserted: nat, rowIds: nat -> string)

  function Stored(run: Run): seq<(string, seq<real>)> {
    if run.inserted <= |run.results| then run.results[..run.inserted] else run.results
  }

  ghost predicate ValidRun(t: Tables, owner: string, namespace: string, chain: seq<string>, limit: nat, run: Run) {
    && Stage(Selected(t, owner, namespace, chain, limit), run.w.Vector, run.results)
    && run.inserted <= |run.results|
    && Fresh(t, run.rowIds, run.inserted)
  }

  /** The table that `Restore` leaves. */
  ghost function AfterRun(t: Tables, owner: string, namespace: string, chain: seq<string>, limit: nat, run: Run): Tables {
    Indexed(Cleaned(t, Selected(t, owner, namespace, chain, limit), run.w, run.cleanupOk, owner),
            run.w, owner, namespace, Stored(run), run.rowIds)
  }

  // ---------- one run ----------

  lemma SelectedIsNew(t: Tables, owner: string, namespace: string, chain: seq<string>, limit: nat)
    ensures forall id :: id in Selected(t, owner, namespace, chain, limit) ==> id in chain && id !in Existing(t, owner, namespace)
  {
  }

  /** Cleaning up blobs that are not indexed in the namespace leaves its rows alone. */
  lemma {:induction false} CleanupSparesNamespace(t: Tables, selected: seq<string>, w: World, cleanupOk: string -> bool,
                                                  owner: string, namespace: string)
    requires forall id :: id in selected ==> id !in Existing(t, owner, namespace)
    ensures var after := Cleaned(t, selected, w, cleanupOk, owner);
            && (forall id :: id in after.vectors ==> id in t.vectors && after.vectors[id] == t.vectors[id])
            && (forall id :: id in t.vectors && InNamespace(t.vectors[id], owner, namespace) ==> id in after.vectors)
  {
    if selected == [] {
    } else {
      var n := |selected| - 1;
      CleanupSparesNamespace(t, selected[..n], w, cleanupOk, owner, namespace);
      assert selected[n] in selected;
      forall id | id in t.vectors && InNamespace(t.vectors[id], owner, namespace)
        ensures t.vectors[id].blobId != selected[n]
      {
        assert t.vectors[id].blobId in Existing(t, owner, namespace);
      }
    }
  }

  /** A row goes away in the cleanup exactly if it is the owner's, its blob was selected, Walrus no
      longer has the blob, and the deletion succeeded. */
  lemma {:induction false} CleansExpiredOnly(t: Tables, selected: seq<string>, w: World, cleanupOk: string -> bool,
                                             owner: string, id: string)
    requires id in t.vectors
    ensures var after, row := Cleaned(t, selected, w, cleanupOk, owner), t.vectors[id];
            && after.jobs == t.jobs
            && (id in after.vectors ==> after.vectors[id] == row)
            && (id !in after.vectors <==>
                  row.owner == owner && row.blobId in selected && w.download(row.blobId) == BlobNotFound && cleanupOk(row.blobId))
  {
    if selected == [] {
    } else {
      var n := |selected| - 1;
      CleansExpiredOnly(t, selected[..n], w, cleanupOk, owner, id);
      assert selected == selected[..n] + [selected[n]];
    }
  }

  lemma {:induction false} IndexedRows(t: Tables, w: World, owner: string, namespace: string,
                                       results: seq<(string, seq<real>)>, rowIds: nat -> string)
    requires Fresh(t, rowIds, |results|)
    ensures var after := Indexed(t, w, owner, namespace, results, rowIds).vectors;
            && (forall id :: id in t.vectors ==> id in after && after[id] == t.vectors[id])
            && (forall k :: 0 <= k < |results| ==>
                  rowIds(k) in after && after[rowIds(k)] == RowOf(w, owner, namespace, results[k]))
            && (forall id :: id in after && id !in t.vectors ==> exists k :: 0 <= k < |results| && rowIds(k) == id)
  {
    hide RowOf, Indexed;
    if results == [] {
      NothingIndexed(t, w, owner, namespace, rowIds);
    } else {
      var n := |results| - 1;
      IndexedRows(t, w, owner, namespace, results[..n], rowIds);
      IndexedStep(t, w, owner, namespace, results, rowIds);
      var before, after := Indexed(t, w, owner, namespace, results[..n], rowIds).vectors,
                           Indexed(t, w, owner, namespace, results, rowIds).vectors;
      forall id | id in after && id !in t.vectors
        ensures exists k :: 0 <= k < |results| && rowIds(k) == id
      {
        if id in before {
          var k :| 0 <= k < n && rowIds(k) == id;
          assert 0 <= k < |results| && rowIds(k) == id;
        } else {
          assert 0 <= n < |results| && rowIds(n) == id;
        }
      }
    }
  }

  lemma IndexedStep(t: Tables, w: World, owner: string, namespace: string, results: seq<(string, seq<real>)>,
                    rowIds: nat -> string)
    requires results != []
    ensures var n := |results| - 1;
            Indexed(t, w, owner, namespace, results, rowIds).vectors
            == Indexed(t, w, owner, namespace, results[..n], rowIds).vectors[
                 rowIds(n) := RowOf(w, owner, namespace, results[n])]
  {
    hide RowOf;
  }

  /** A run, also one that an insert cuts short, adds one row for each blob it stores and keeps
      every row of the namespace. Such a blob was listed and not indexed; the size of its row is the
      length of the ciphertext that was downloaded, and its embedding is that of the text which the
      ciphertext decrypts to. */
  lemma RunEffect(t: Tables, owner: string, namespace: string, chain: seq<string>, limit: nat, run: Run)
    requires ValidRun(t, owner, namespace, chain, limit, run)
    ensures var after := AfterRun(t, owner, namespace, chain, limit, run).vectors;
            && (forall id :: id in t.vectors && InNamespace(t.vectors[id], owner, namespace)
                  ==> id in after && after[id] == t.vectors[id])
            && (forall id :: id in after && id !in t.vectors
                  ==> exists k :: 0 <= k < |Stored(run)| && run.rowIds(k) == id)
            && (forall id :: id in after && id in t.vectors ==> after[id] == t.vectors[id])
            && (forall k :: 0 <= k < |Stored(run)| ==>
                  && run.rowIds(k) in after
                  && after[run.rowIds(k)].blobId == Stored(run)[k].0
                  && InNamespace(after[run.rowIds(k)], owner, namespace))
    ensures var after := AfterRun(t, owner, namespace, chain, limit, run).vectors;
            forall k :: 0 <= k < |Stored(run)| ==>
              var blobId := Stored(run)[k].0;
              && blobId in chain && blobId !in Existing(t, owner, namespace)
              && run.w.download(blobId).Fetched?
              && var data := run.w.download(blobId).data;
                 && after[run.rowIds(k)].size == |data|
                 && run.w.decrypt(blobId, data).Some?
                 && run.w.embed(blobId, run.w.decrypt(blobId, data).value) == Some(after[run.rowIds(k)].embedding)
  {
    hide NoDuplicates, Cleaned, Indexed, Missing, Latest;
    var selected := Selected(t, owner, namespace, chain, limit);
    SelectedIsNew(t, owner, namespace, chain, limit);
    CleanupSparesNamespace(t, selected, run.w, run.cleanupOk, owner, namespace);
    IndexedRows(Cleaned(t, selected, run.w, run.cleanupOk, owner), run.w, owner, namespace, Stored(run), run.rowIds);
    StageFacts(selected, run.w.Vector, run.results);
  }

  lemma ExistingAfterRun(t: Tables, owner: string, namespace: string, chain: seq<string>, limit: nat, run: Run)
    requires ValidRun(t, owner, namespace, chain, limit, run)
    ensures Existing(AfterRun(t, owner, namespace, chain, limit, run), owner, namespace)
         == Existing(t, owner, namespace) + Elements(Ids(Stored(run)))
  {
    hide ValidRun, AfterRun;
    RunEffect(t, owner, namespace, chain, limit, run);
    var after := AfterRun(t, owner, namespace, chain, limit, run);
    var was, now := Existing(t, owner, namespace), Existing(after, owner, namespace);
    forall blobId | blobId in now
      ensures blobId in was + Elements(Ids(Stored(run)))
    {
      var id :| id in after.vectors && InNamespace(after.vectors[id], owner, namespace) && after.vectors[id].blobId == blobId;
      if id !in t.vectors {
        var k :| 0 <= k < |Stored(run)| && run.rowIds(k) == id;
        assert Ids(Stored(run))[k] == blobId;
      }
    }
    forall blobId | blobId in was
      ensures blobId in now
    {
      var id :| id in t.vectors && InNamespace(t.vectors[id], owner, namespace) && t.vectors[id].blobId == blobId;
      assert id in after.vectors;
    }
    forall blobId | blobId in Ids(Stored(run))
      ensures blobId in now
    {
      var k := IdsAt(Stored(run), blobId);
      assert run.rowIds(k) in after.vectors;
    }
  }

  /** No blob of the namespace is indexed twice. */
  ghost predicate OneRowPerBlob(t: Tables, owner: string, namespace: string) {
    forall a, b ::
      && a in t.vectors && b in t.vectors
      && InNamespace(t.vectors[a], owner, namespace) && InNamespace(t.vectors[b], owner, namespace)
      && t.vectors[a].blobId == t.vectors[b].blobId
      ==> a == b
  }

  lemma RunKeepsOneRowPerBlob(t: Tables, owner: string, namespace: string, chain: seq<string>, limit: nat, run: Run)
    requires ValidRun(t, owner, namespace, chain, limit, run)
    requires NoDuplicates(chain) && OneRowPerBlob(t, owner, namespace)
    ensures OneRowPerBlob(AfterRun(t, owner, namespace, chain, limit, run), owner, namespace)
  {
    ResultsDistinct(t, owner, namespace, chain, limit, run);
    hide ValidRun, AfterRun, NoDuplicates;
    RunEffect(t, owner, namespace, chain, limit, run);
    var after := AfterRun(t, owner, namespace, chain, limit, run).vectors;
    ResultsNew(t, owner, namespace, chain, limit, run);
    forall a, b | a in after && b in after && InNamespace(after[a], owner, namespace)
                  && InNamespace(after[b], owner, namespace) && after[a].blobId == after[b].blobId
      ensures a == b
    {
      if a !in t.vectors && b !in t.vectors {
        var j :| 0 <= j < |Stored(run)| && run.rowIds(j) == a;
        var k :| 0 <= k < |Stored(run)| && run.rowIds(k) == b;
        assert Stored(run)[j].0 == Stored(run)[k].0;
      }
    }
  }

  lemma ResultsNew(t: Tables, owner: string, namespace: string, chain: seq<string>, limit: nat, run: Run)
    requires ValidRun(t, owner, namespace, chain, limit, run)
    ensures forall id, k :: id in t.vectors && InNamespace(t.vectors[id], owner, namespace) && 0 <= k < |Stored(run)|
              ==> t.vectors[id].blobId != Stored(run)[k].0
  {
    hide Missing, Latest, NoDuplicates;
    SelectedIsNew(t, owner, namespace, chain, limit);
    StageFacts(Selected(t, owner, namespace, chain, limit), run.w.Vector, run.results);
    forall id, k | id in t.vectors && InNamespace(t.vectors[id], owner, namespace) && 0 <= k < |Stored(run)|
      ensures t.vectors[id].blobId != Stored(run)[k].0
    {
      assert t.vectors[id].blobId in Existing(t, owner, namespace);
    }
  }

  lemma ResultsDistinct(t: Tables, owner: string, namespace: string, chain: seq<string>, limit: nat, run: Run)
    requires ValidRun(t, owner, namespace, chain, limit, run) && NoDuplicates(chain)
    ensures forall j, k :: 0 <= j < k < |Stored(run)| ==> Stored(run)[j].0 != Stored(run)[k].0
  {
    var missing := Missing(chain, Existing(t, owner, namespace));
    MissingDistinct(chain, Existing(t, owner, namespace));
    assert NoDuplicates(Latest(missing, limit));
    forall j, k | 0 <= j < k < |Stored(run)|
      ensures Stored(run)[j].0 != Stored(run)[k].0
    {
      assert Ids(run.results)[j] != Ids(run.results)[k];
    }
  }

  // ---------- storage ----------

  ghost function CipherBytes(w: World, results: seq<(string, seq<real>)>): nat {
    if results == [] then 0
    else
      var n := |results| - 1;
      CipherBytes(w, results[..n]) + (match w.Data(results[n].0) case Some(data) => |data| case None => 0)
  }

  /** Restored rows count against the owner's storage with their ciphertext sizes. */
  lemma {:induction false} IndexedStorage(t: Tables, w: World, owner: string, namespace: string,
                                          results: seq<(string, seq<real>)>, rowIds: nat -> string)
    requires Fresh(t, rowIds, |results|)
    ensures StorageUsed(Indexed(t, w, owner, namespace, results, rowIds), owner)
         == StorageUsed(t, owner) + CipherBytes(w, results)
  {
    hide StorageUsed;
    if results == [] {
    } else {
      var n := |results| - 1;
      var before := Indexed(t, w, owner, namespace, results[..n], rowIds);
      IndexedStorage(t, w, owner, namespace, results[..n], rowIds);
      IndexedRows(t, w, owner, namespace, results[..n], rowIds);
      UpsertStorage(before, rowIds(n), RowOf(w, owner, namespace, results[n]), owner);
    }
  }

  // ---------- several runs ----------

  lemma {:induction false} MissingDistinct(chain: seq<string>, existing: set<string>)
    requires NoDuplicates(chain)
    ensures NoDuplicates(Missing(chain, existing))
  {
    if chain == [] {
    } else {
      var n := |chain| - 1;
      var shorter := chain[..n];
      assert forall i :: 0 <= i < n ==> shorter[i] == chain[i];
      assert chain[n] !in shorter;
      MissingDistinct(shorter, existing);
    }
  }

  lemma MissingAppend(s: seq<string>, x: string, existing: set<string>)
    ensures Missing(s + [x], existing) == if x in existing then Missing(s, existing) else Missing(s, existing) + [x]
  {
    assert (s + [x])[..|s|] == s;
  }

  lemma NothingMissing(s: seq<string>, existing: set<string>)
    requires s == []
    ensures Missing(s, existing) == []
  {
  }

  /** What is missing from a larger index is what it adds, taken out of what was missing. */
  lemma {:induction false} MissingTwice(chain: seq<string>, existing: set<string>, added: set<string>)
    ensures Missing(chain, existing + added) == Missing(Missing(chain, existing), added)
  {
    hide Missing;
    if chain == [] {
      NothingMissing(chain, existing);
      NothingMissing(chain, existing + added);
      NothingMissing(Missing(chain, existing), added);
    } else {
      var n := |chain| - 1;
      var before, last := chain[..n], chain[n];
      assert chain == before + [last];
      MissingTwice(before, existing, added);
      MissingAppend(before, last, existing + added);
      MissingAppend(before, last, existing);
      MissingAppend(Missing(before, existing), last, added);
    }
  }

  /** Taking the last elements out of a list without duplicates leaves the others. */
  lemma MissingTail(s: seq<string>, k: nat)
    requires NoDuplicates(s) && k <= |s|
    ensures Missing(s, Elements(s[k..])) == s[..k]
  {
    hide Missing, NoDuplicates;
    MissingPrefix(s, k, |s|);
    assert s[..|s|] == s;
  }

  lemma {:induction false} MissingPrefix(s: seq<string>, k: nat, upTo: nat)
    requires NoDuplicates(s) && k <= |s| && upTo <= |s|
    ensures Missing(s[..upTo], Elements(s[k..])) == s[..if upTo <= k then upTo else k]
    decreases upTo
  {
    hide Missing, NoDuplicates, Elements;
    if upTo == 0 {
      NothingMissing(s[..0], Elements(s[k..]));
    } else {
      var last := upTo - 1;
      MissingPrefix(s, k, last);
      MissingAppend(s[..last], s[last], Elements(s[k..]));
      InTail(s, k, last);
      TakeOneMore(s, last);
    }
  }

  lemma TakeOneMore<T>(s: seq<T>, i: nat)
    requires i < |s|
    ensures s[..i + 1] == s[..i] + [s[i]]
  {
  }

  lemma InTail(s: seq<string>, k: nat, i: nat)
    requires NoDuplicates(s) && k <= |s| && i < |s|
    ensures s[i] in Elements(s[k..]) <==> i >= k
  {
    if i >= k {
      assert s[k..][i - k] == s[i];
    }
  }

  ghost predicate Complete(t: Tables, owner: string, namespace: string, chain: seq<string>, limit: nat, run: Run) {
    && ValidRun(t, owner, namespace, chain, limit, run)
    && run.inserted == |run.results|
    && forall id :: id in Selected(t, owner, namespace, chain, limit) ==> run.w.Vector(id).Some?
  }

  /** How many of `n` are left when up to `taken` are taken away. */
  function Left(n: nat, taken: nat): (left: nat)
    ensures left <= n
  {
    if n > taken then n - taken else 0
  }

  /** How many blobs `k` runs can take. */
  function Capacity(k: nat, limit: nat): nat {
    k * limit
  }

  lemma CapacityStep(k: nat, limit: nat)
    requires k >= 1
    ensures Capacity(k, limit) == limit + Capacity(k - 1, limit)
  {
    MulStep(k, limit);
  }

  /** When everything can be fetched, decrypted and embedded, a run indexes exactly the last
      `limit` missing blobs, in whatever order its stages finish. */
  lemma CompleteRunIndexesLatest(t: Tables, owner: string, namespace: string, chain: seq<string>, limit: nat, run: Run)
    requires Complete(t, owner, namespace, chain, limit, run) && NoDuplicates(chain)
    ensures var missing := Missing(chain, Existing(t, owner, namespace));
            var left := Left(|missing|, limit);
            && Missing(chain, Existing(AfterRun(t, owner, namespace, chain, limit, run), owner, namespace)) == missing[..left]
            && |run.results| == |missing| - left
  {
    hide NoDuplicates, Missing, AfterRun, Existing;
    var existing := Existing(t, owner, namespace);
    var missing := Missing(chain, existing);
    var left := Left(|missing|, limit);
    var selected := Selected(t, owner, namespace, chain, limit);
    assert selected == missing[left..];
    assert Stored(run) == run.results;
    ExistingAfterRun(t, owner, namespace, chain, limit, run);
    EverythingThrough(selected, run);
    MissingDistinct(chain, existing);
    MissingTwice(chain, existing, Elements(Ids(run.results)));
    MissingTail(missing, left);
    TailDistinct(missing, left);
    SameLength(selected, Ids(run.results));
  }

  lemma TailDistinct<T>(s: seq<T>, k: nat)
    requires NoDuplicates(s) && k <= |s|
    ensures NoDuplicates(s[k..])
  {
  }

  lemma EverythingThrough(selected: seq<string>, run: Run)
    requires Stage(selected, run.w.Vector, run.results)
    requires forall id :: id in selected ==> run.w.Vector(id).Some?
    ensures Elements(Ids(run.results)) == Elements(selected)
    ensures |run.results| <= |selected|
  {
    forall id | id in Ids(run.results)
      ensures id in selected
    {
      var k := IdsAt(run.results, id);
    }
  }

  lemma {:induction false} ElementCount<T>(s: seq<T>)
    ensures |Elements(s)| <= |s|
    ensures NoDuplicates(s) ==> |Elements(s)| == |s|
  {
    if s == [] {
    } else {
      var n := |s| - 1;
      ElementCount(s[..n]);
      assert Elements(s) == Elements(s[..n]) + {s[n]};
      if NoDuplicates(s) {
        assert forall i :: 0 <= i < n ==> s[..n][i] == s[i];
        assert s[n] !in s[..n];
      }
    }
  }

  lemma SameLength(a: seq<string>, b: seq<string>)
    requires NoDuplicates(a) && Elements(a) == Elements(b) && |b| <= |a|
    ensures |a| == |b|
  {
    ElementCount(a);
    ElementCount(b);
  }

  ghost predicate CompleteRuns(t: Tables, owner: string, namespace: string, chain: seq<string>, limit: nat, runs: seq<Run>)
    decreases |runs|
  {
    runs == [] ||
    (Complete(t, owner, namespace, chain, limit, runs[0])
     && CompleteRuns(AfterRun(t, owner, namespace, chain, limit, runs[0]), owner, namespace, chain, limit, runs[1..]))
  }

  ghost function AfterRuns(t: Tables, owner: string, namespace: string, chain: seq<string>, limit: nat, runs: seq<Run>): Tables
    decreases |runs|
  {
    if runs == [] then t
    else AfterRuns(AfterRun(t, owner, namespace, chain, limit, runs[0]), owner, namespace, chain, limit, runs[1..])
  }

  lemma NoRuns(t: Tables, owner: string, namespace: string, chain: seq<string>, limit: nat)
    ensures AfterRuns(t, owner, namespace, chain, limit, []) == t
  {
  }

  lemma RunsStep(t: Tables, owner: string, namespace: string, chain: seq<string>, limit: nat, runs: seq<Run>)
    requires CompleteRuns(t, owner, namespace, chain, limit, runs) && runs != []
    ensures Complete(t, owner, namespace, chain, limit, runs[0])
    ensures var next := AfterRun(t, owner, namespace, chain, limit, runs[0]);
            && CompleteRuns(next, owner, namespace, chain, limit, runs[1..])
            && AfterRuns(t, owner, namespace, chain, limit, runs)
            == AfterRuns(next, owner, namespace, chain, limit, runs[1..])
  {
    hide Complete, AfterRun;
  }

  /** Every run takes up to `limit` blobs off the end of what was missing at the start. */
  lemma {:induction false} RunsIndexTail(t: Tables, owner: string, namespace: string, chain: seq<string>, limit: nat,
                                         runs: seq<Run>)
    requires CompleteRuns(t, owner, namespace, chain, limit, runs) && NoDuplicates(chain)
    ensures var missing := Missing(chain, Existing(t, owner, namespace));
            var done := Capacity(|runs|, limit);
            Missing(chain, Existing(AfterRuns(t, owner, namespace, chain, limit, runs), owner, namespace))
            == missing[..Left(|missing|, done)]
    decreases |runs|
  {
    hide Missing, Existing, NoDuplicates, Complete, AfterRun, AfterRuns, CompleteRuns, Left, Capacity;
    var missing := Missing(chain, Existing(t, owner, namespace));
    if runs == [] {
      NoRuns(t, owner, namespace, chain, limit);
      LeftAll(missing, limit);
    } else {
      RunsStep(t, owner, namespace, chain, limit, runs);
      var next, rest := AfterRun(t, owner, namespace, chain, limit, runs[0]), runs[1..];
      CompleteRunIndexesLatest(t, owner, namespace, chain, limit, runs[0]);
      RunsIndexTail(next, owner, namespace, chain, limit, rest);
      CapacityStep(|runs|, limit);
      SliceTwice(missing, limit, Capacity(|rest|, limit));
    }
  }

  lemma LeftAll<T>(s: seq<T>, limit: nat)
    ensures s[..Left(|s|, Capacity(0, limit))] == s
  {
  }

  lemma SliceTwice<T>(s: seq<T>, a: nat, b: nat)
    ensures var once := s[..Left(|s|, a)];
            once[..Left(|once|, b)] == s[..Left(|s|, a + b)]
  {
  }

  /** How many runs of `limit` blobs cover `n` blobs. */
  function RunsNeeded(n: nat, limit: nat): nat
    requires limit >= 1
  {
    (n + limit - 1) / limit
  }

  lemma RunsNeededExact(n: nat, limit: nat, k: nat)
    requires limit >= 1
    ensures k * limit >= n <==> k >= RunsNeeded(n, limit)
  {
    var q := RunsNeeded(n, limit);
    assert q * limit >= n && (q - 1) * limit < n by {
      var r := (n + limit - 1) % limit;
      assert n + limit - 1 == limit * q + r;
      assert (q - 1) * limit == q * limit - limit;
    }
    if k >= q {
      MulMonotone(q, k, limit);
    } else {
      MulMonotone(k, q - 1, limit);
    }
  }

  /** Everything listed is indexed exactly from the ceil(missing / limit)-th complete run on. */
  lemma ExactlyCeilRuns(t: Tables, owner: string, namespace: string, chain: seq<string>, limit: nat, runs: seq<Run>)
    requires limit >= 1 && NoDuplicates(chain)
    requires CompleteRuns(t, owner, namespace, chain, limit, runs)
    ensures Elements(chain) <= Existing(AfterRuns(t, owner, namespace, chain, limit, runs), owner, namespace)
            <==> |runs| >= RunsNeeded(|Missing(chain, Existing(t, owner, namespace))|, limit)
  {
    hide CompleteRuns, NoDuplicates, AfterRuns, Fresh;
    var missing := Missing(chain, Existing(t, owner, namespace));
    RunsIndexTail(t, owner, namespace, chain, limit, runs);
    RunsNeededExact(|missing|, limit, |runs|);
    NoneMissing(chain, Existing(AfterRuns(t, owner, namespace, chain, limit, runs), owner, namespace));
  }

  /** Once everything listed is indexed, a run selects nothing, restores nothing and changes
      nothing, whatever it meets. */
  lemma NothingToRestore(t: Tables, owner: string, namespace: string, chain: seq<string>, limit: nat, run: Run)
    requires ValidRun(t, owner, namespace, chain, limit, run)
    requires Elements(chain) <= Existing(t, owner, namespace)
    ensures Selected(t, owner, namespace, chain, limit) == [] && run.results == []
    ensures AfterRun(t, owner, namespace, chain, limit, run) == t
  {
    hide NoDuplicates, Fresh, Existing;
    NoneMissing(chain, Existing(t, owner, namespace));
  }

  lemma NoneMissing(chain: seq<string>, existing: set<string>)
    ensures Missing(chain, existing) == [] <==> Elements(chain) <= existing
  {
    var missing := Missing(chain, existing);
    if missing != [] {
      assert missing[0] in missing;
    }
  }

  // ---------- runs that overlap with other writers ----------

  /** The table when a run inserts after others have changed it: the blobs were chosen while it was
      `t`, the rows are written when it is `u`. */
  ghost function AfterLateRun(t: Tables, u: Tables, owner: string, namespace: string, chain: seq<string>, limit: nat,
                              run: Run): Tables
  {
    Indexed(Cleaned(u, Selected(t, owner, namespace, chain, limit), run.w, run.cleanupOk, owner),
            run.w, owner, namespace, Stored(run), run.rowIds)
  }

  ghost predicate ValidLateRun(t: Tables, u: Tables, owner: string, namespace: string, chain: seq<string>, limit: nat,
                               run: Run)
  {
    && Stage(Selected(t, owner, namespace, chain, limit), run.w.Vector, run.results)
    && run.inserted <= |run.results|
    && Fresh(u, run.rowIds, run.inserted)
  }

  lemma {:induction false} CleanupSparesOthers(u: Tables, selected: seq<string>, w: World, cleanupOk: string -> bool,
                                               owner: string, namespace: string)
    ensures var after := Cleaned(u, selected, w, cleanupOk, owner);
            && (forall id :: id in after.vectors ==> id in u.vectors && after.vectors[id] == u.vectors[id])
            && (forall id :: id in u.vectors && !w.download(u.vectors[id].blobId).BlobNotFound? ==> id in after.vectors)
  {
    if selected == [] {
    } else {
      CleanupSparesOthers(u, selected[..|selected| - 1], w, cleanupOk, owner, namespace);
    }
  }

  lemma StoredHasData(selected: seq<string>, run: Run, k: nat)
    requires Stage(selected, run.w.Vector, run.results) && k < |Stored(run)|
    ensures !run.w.download(Stored(run)[k].0).BlobNotFound?
  {
    assert Stored(run)[k] == run.results[k];
    assert run.w.Vector(run.results[k].0).Some?;
  }

  lemma LateRows(t: Tables, u: Tables, owner: string, namespace: string, chain: seq<string>, limit: nat, run: Run)
    requires ValidLateRun(t, u, owner, namespace, chain, limit, run)
    ensures var after := AfterLateRun(t, u, owner, namespace, chain, limit, run).vectors;
            && (forall k :: 0 <= k < |Stored(run)| ==>
                  && run.rowIds(k) in after && run.rowIds(k) !in u.vectors
                  && after[run.rowIds(k)].blobId == Stored(run)[k].0 && InNamespace(after[run.rowIds(k)], owner, namespace))
            && (forall id :: id in after && id !in u.vectors ==> exists k :: 0 <= k < |Stored(run)| && run.rowIds(k) == id)
            && (forall id :: id in after && id in u.vectors ==> after[id] == u.vectors[id])
            && (forall id, k :: id in u.vectors && 0 <= k < |Stored(run)| && u.vectors[id].blobId == Stored(run)[k].0
                  ==> id in after && after[id] == u.vectors[id])
  {
    hide NoDuplicates, Cleaned, Indexed, Missing, Latest, Stage;
    var selected := Selected(t, owner, namespace, chain, limit);
    CleanupSparesOthers(u, selected, run.w, run.cleanupOk, owner, namespace);
    IndexedRows(Cleaned(u, selected, run.w, run.cleanupOk, owner), run.w, owner, namespace, Stored(run), run.rowIds);
    forall k | 0 <= k < |Stored(run)|
      ensures !run.w.download(Stored(run)[k].0).BlobNotFound?
    {
      StoredHasData(selected, run, k);
    }
  }

  /** A run that is overtaken by other writers leaves two rows for a blob exactly if one of the blobs
      it stores has been indexed in the namespace in the meantime. */
  lemma LateRunDuplicatesExactlyWhen(t: Tables, u: Tables, owner: string, namespace: string, chain: seq<string>,
                                     limit: nat, run: Run)
    requires ValidLateRun(t, u, owner, namespace, chain, limit, run)
    requires NoDuplicates(chain) && OneRowPerBlob(u, owner, namespace)
    ensures OneRowPerBlob(AfterLateRun(t, u, owner, namespace, chain, limit, run), owner, namespace)
       <==> forall k :: 0 <= k < |Stored(run)| ==> Stored(run)[k].0 !in Existing(u, owner, namespace)
  {
    LateDistinct(t, owner, namespace, chain, limit, run);
    hide NoDuplicates, AfterLateRun, ValidLateRun;
    LateRows(t, u, owner, namespace, chain, limit, run);
    var after := AfterLateRun(t, u, owner, namespace, chain, limit, run);
    if k :| 0 <= k < |Stored(run)| && Stored(run)[k].0 in Existing(u, owner, namespace) {
      var id :| id in u.vectors && InNamespace(u.vectors[id], owner, namespace) && u.vectors[id].blobId == Stored(run)[k].0;
      assert id in after.vectors && run.rowIds(k) in after.vectors && id != run.rowIds(k);
      assert !OneRowPerBlob(after, owner, namespace);
    } else {
      NoneMeanwhile(u, owner, namespace, run);
      forall a, b | && a in after.vectors && b in after.vectors
                    && InNamespace(after.vectors[a], owner, namespace) && InNamespace(after.vectors[b], owner, namespace)
                    && after.vectors[a].blobId == after.vectors[b].blobId
        ensures a == b
      {
        if a !in u.vectors && b !in u.vectors {
          var j :| 0 <= j < |Stored(run)| && run.rowIds(j) == a;
          var k :| 0 <= k < |Stored(run)| && run.rowIds(k) == b;
          assert Stored(run)[j].0 == Stored(run)[k].0;
        }
      }
    }
  }

  lemma NoneMeanwhile(u: Tables, owner: string, namespace: string, run: Run)
    requires forall k :: 0 <= k < |Stored(run)| ==> Stored(run)[k].0 !in Existing(u, owner, namespace)
    ensures forall id, k :: id in u.vectors && InNamespace(u.vectors[id], owner, namespace) && 0 <= k < |Stored(run)|
              ==> u.vectors[id].blobId != Stored(run)[k].0
  {
    forall id, k | id in u.vectors && InNamespace(u.vectors[id], owner, namespace) && 0 <= k < |Stored(run)|
      ensures u.vectors[id].blobId != Stored(run)[k].0
    {
      assert u.vectors[id].blobId in Existing(u, owner, namespace);
    }
  }

  lemma LateDistinct(t: Tables, owner: string, namespace: string, chain: seq<string>, limit: nat, run: Run)
    requires Stage(Selected(t, owner, namespace, chain, limit), run.w.Vector, run.results) && NoDuplicates(chain)
    ensures forall j, k :: 0 <= j < k < |Stored(run)| ==> Stored(run)[j].0 != Stored(run)[k].0
  {
    var missing := Missing(chain, Existing(t, owner, namespace));
    MissingDistinct(chain, Existing(t, owner, namespace));
    assert NoDuplicates(Latest(missing, limit));
    forall j, k | 0 <= j < k < |Stored(run)|
      ensures Stored(run)[j].0 != Stored(run)[k].0
    {
      assert Ids(run.results)[j] != Ids(run.results)[k];
    }
  }

  /** Two runs that choose their blobs at the same time and store them one after the other index a
      blob twice exactly if they store one in common. */
  lemma TwoRunsAtOnce(t: Tables, u: Tables, owner: string, namespace: string, chain: seq<string>, limit: nat,
                      first: Run, second: Run)
    requires ValidRun(t, owner, namespace, chain, limit, first) && u == AfterRun(t, owner, namespace, chain, limit, first)
    requires ValidLateRun(t, u, owner, namespace, chain, limit, second)
    requires NoDuplicates(chain) && OneRowPerBlob(t, owner, namespace)
    ensures OneRowPerBlob(AfterLateRun(t, u, owner, namespace, chain, limit, second), owner, namespace)
       <==> Elements(Ids(Stored(first))) !! Elements(Ids(Stored(second)))
  {
    RunKeepsOneRowPerBlob(t, owner, namespace, chain, limit, first);
    ExistingAfterRun(t, owner, namespace, chain, limit, first);
    LateRunDuplicatesExactlyWhen(t, u, owner, namespace, chain, limit, second);
    SecondIsNew(t, owner, namespace, chain, limit, second);
    hide NoDuplicates, AfterRun, AfterLateRun, ValidRun, ValidLateRun, Existing, OneRowPerBlob;
    StoredElements(second);
  }

  lemma {:induction false} NothingExpired(t: Tables, selected: seq<string>, w: World, cleanupOk: string -> bool, owner: string)
    requires forall id :: id in selected ==> !w.download(id).BlobNotFound?
    ensures Cleaned(t, selected, w, cleanupOk, owner) == t
  {
    if selected == [] {
    } else {
      assert selected[|selected| - 1] in selected;
      NothingExpired(t, selected[..|selected| - 1], w, cleanupOk, owner);
    }
  }

  /** And then, nothing having expired, a blob that both store counts twice against the storage. */
  lemma TwoRunsCountTwice(t: Tables, u: Tables, owner: string, namespace: string, chain: seq<string>, limit: nat,
                          first: Run, second: Run)
    requires ValidRun(t, owner, namespace, chain, limit, first) && u == AfterRun(t, owner, namespace, chain, limit, first)
    requires ValidLateRun(t, u, owner, namespace, chain, limit, second)
    requires forall id :: id in Selected(t, owner, namespace, chain, limit) ==>
               !first.w.download(id).BlobNotFound? && !second.w.download(id).BlobNotFound?
    ensures StorageUsed(AfterLateRun(t, u, owner, namespace, chain, limit, second), owner)
         == StorageUsed(t, owner) + CipherBytes(first.w, Stored(first)) + CipherBytes(second.w, Stored(second))
  {
    hide StorageUsed, Stage, CipherBytes, Missing, Latest;
    var selected := Selected(t, owner, namespace, chain, limit);
    NothingExpired(t, selected, first.w, first.cleanupOk, owner);
    NothingExpired(u, selected, second.w, second.cleanupOk, owner);
    IndexedStorage(t, first.w, owner, namespace, Stored(first), first.rowIds);
    IndexedStorage(u, second.w, owner, namespace, Stored(second), second.rowIds);
  }

  lemma SecondIsNew(t: Tables, owner: string, namespace: string, chain: seq<string>, limit: nat, run: Run)
    requires Stage(Selected(t, owner, namespace, chain, limit), run.w.Vector, run.results)
    ensures forall k :: 0 <= k < |Stored(run)| ==> Stored(run)[k].0 !in Existing(t, owner, namespace)
  {
    hide Missing, Latest, NoDuplicates;
    SelectedIsNew(t, owner, namespace, chain, limit);
    StageFacts(Selected(t, owner, namespace, chain, limit), run.w.Vector, run.results);
  }

  lemma StoredElements(run: Run)
    ensures forall id :: id in Elements(Ids(Stored(run))) <==> exists k :: 0 <= k < |Stored(run)| && Stored(run)[k].0 == id
  {
    forall k | 0 <= k < |Stored(run)|
      ensures Stored(run)[k].0 in Ids(Stored(run))
    {
      assert Ids(Stored(run))[k] == Stored(run)[k].0;
    }
    forall id | id in Elements(Ids(Stored(run)))
      ensures exists k :: 0 <= k < |Stored(run)| && Stored(run)[k].0 == id
    {
      var k := IdsAt(Stored(run), id);
    }
  }
}
