/** `restore`: index again, newest first, the blobs that the chain lists and the table lacks. */
module Restore {
  import opened Common
  import opened RememberDb
  import opened ByteOrder

  // ---------- which blobs are restored ----------

  ghost predicate NoDuplicates<T>(s: seq<T>) {
    forall i, j :: 0 <= i < j < |s| ==> s[i] != s[j]
  }

  function Elements<T>(s: seq<T>): set<T> {
    set x | x in s
  }

  /** SELECT DISTINCT blob_id WHERE owner AND namespace. */
  function Existing(t: Tables, owner: string, namespace: string): (existing: set<string>)
    ensures forall id :: id in t.vectors && t.vectors[id].owner == owner && t.vectors[id].namespace == namespace
              ==> t.vectors[id].blobId in existing
    ensures forall blobId :: blobId in existing ==>
              exists id :: id in t.vectors && t.vectors[id].blobId == blobId
                           && t.vectors[id].owner == owner && t.vectors[id].namespace == namespace
  {
    set id | id in t.vectors && t.vectors[id].owner == owner && t.vectors[id].namespace == namespace
      :: t.vectors[id].blobId
  }

  /** The listed ids that are not in the table, in the chain's order. */
  function Missing(chain: seq<string>, existing: set<string>): (m: seq<string>)
    ensures |m| <= |chain|
    ensures forall id :: id in m <==> id in chain && id !in existing
  {
    if chain == [] then []
    else
      var last := chain[|chain| - 1];
      Missing(chain[..|chain| - 1], existing) + (if last in existing then [] else [last])
  }

  /** The last `limit` of them. */
  function Latest(missing: seq<string>, limit: nat): seq<string> {
    if |missing| > limit then missing[|missing| - limit..] else missing
  }

  function Selected(t: Tables, owner: string, namespace: string, chain: seq<string>, limit: nat): seq<string> {
    Latest(Missing(chain, Existing(t, owner, namespace)), limit)
  }

  // ---------- the services ----------

  datatype Download = Fetched(data: seq<Byte>) | BlobNotFound | DownloadError

  /** What Walrus, SEAL and the embedding service answer during one run. The package id that
      decryption uses is looked up by blob id, so the answer may depend on the id. */
  datatype World = World(
    download: string -> Download,
    decrypt: (string, seq<Byte>) -> Option<string>,
    embed: (string, string) -> Option<seq<real>>)
  {
    function Data(id: string): Option<seq<Byte>> {
      match download(id)
      case Fetched(data) => Some(data)
      case _ => None
    }

    function Text(id: string): Option<string> {
      match Data(id)
      case Some(data) => decrypt(id, data)
      case None => None
    }

    function Vector(id: string): Option<seq<real>> {
      match Text(id)
      case Some(text) => embed(id, text)
      case None => None
    }
  }

  /** Expired blobs lose every row of the owner, one by one; a failed cleanup is ignored. */
  function Cleaned(t: Tables, selected: seq<string>, w: World, cleanupOk: string -> bool, owner: string): Tables {
    if selected == [] then t
    else
      var n := |selected| - 1;
      var before := Cleaned(t, selected[..n], w, cleanupOk, owner);
      if w.download(selected[n]).BlobNotFound? && cleanupOk(selected[n]) then DeleteBlob(before, selected[n], owner)
      else before
  }

  // ---------- what a stage passes on ----------

  function Ids<A>(items: seq<(string, A)>): seq<string> {
    seq(|items|, i requires 0 <= i < |items| => items[i].0)
  }

  /** `out` holds, in some order, the ids of `selected` that have a value, with that value. */
  ghost predicate Stage<A>(selected: seq<string>, value: string -> Option<A>, out: seq<(string, A)>) {
    && |out| <= |selected|
    && (forall k :: 0 <= k < |out| ==> out[k].0 in selected && value(out[k].0) == Some(out[k].1))
    && (forall i :: 0 <= i < |selected| && value(selected[i]).Some? ==> selected[i] in Ids(out))
    && (NoDuplicates(selected) ==> NoDuplicates(Ids(out)))
  }

  lemma StageCompose<A, B>(selected: seq<string>, first: string -> Option<A>, middle: seq<(string, A)>,
                           second: string -> Option<B>, out: seq<(string, B)>)
    requires Stage(selected, first, middle) && Stage(Ids(middle), second, out)
    requires forall id :: second(id).Some? ==> first(id).Some?
    ensures Stage(selected, second, out)
  {
    forall k | 0 <= k < |out|
      ensures out[k].0 in selected
    {
      var j :| 0 <= j < |middle| && Ids(middle)[j] == out[k].0;
      assert middle[j].0 in selected;
    }
  }

  ghost predicate At(items: seq<string>, done: set<int>, id: string) {
    exists i :: i in done && 0 <= i < |items| && items[i] == id
  }

  /** Part of the way: the items at the places in `done` have been answered, in some order. */
  ghost predicate Collected<A>(items: seq<string>, done: set<int>, value: string -> Option<A>, out: seq<(string, A)>) {
    && |out| <= |done|
    && (forall i :: i in done ==> 0 <= i < |items|)
    && (forall k :: 0 <= k < |out| ==> value(out[k].0) == Some(out[k].1) && At(items, done, out[k].0))
    && (forall i :: i in done && value(items[i]).Some? ==> items[i] in Ids(out))
    && (NoDuplicates(items) ==> NoDuplicates(Ids(out)))
  }

  lemma CollectNone<A>(items: seq<string>, done: set<int>, value: string -> Option<A>, out: seq<(string, A)>, i: nat)
    requires i < |items| && i !in done && Collected(items, done, value, out) && value(items[i]).None?
    ensures Collected(items, done + {i}, value, out)
  {
    hide NoDuplicates, Ids;
  }

  lemma CollectSome<A>(items: seq<string>, done: set<int>, value: string -> Option<A>, out: seq<(string, A)>, i: nat)
    requires i < |items| && i !in done && Collected(items, done, value, out) && value(items[i]).Some?
    ensures Collected(items, done + {i}, value, out + [(items[i], value(items[i]).value)])
  {
    hide NoDuplicates, Ids;
    var entry := (items[i], value(items[i]).value);
    IdsAppend(out, entry);
    assert At(items, done + {i}, items[i]);
    forall k | 0 <= k < |out|
      ensures At(items, done + {i}, out[k].0)
    {
    }
    if NoDuplicates(items) {
      if items[i] in Ids(out) {
        var k := IdsAt(out, items[i]);
        NotAt(items, done, i);
        assert false;
      }
      AppendDistinct(Ids(out), items[i]);
    }
  }

  lemma NotAt(items: seq<string>, done: set<int>, i: nat)
    requires NoDuplicates(items) && i < |items| && i !in done
    ensures !At(items, done, items[i])
  {
  }

  lemma IdsAppend<A>(out: seq<(string, A)>, entry: (string, A))
    ensures Ids(out + [entry]) == Ids(out) + [entry.0]
  {
  }

  lemma IdsAt<A>(out: seq<(string, A)>, id: string) returns (k: nat)
    requires id in Ids(out)
    ensures k < |out| && out[k].0 == id
  {
    k :| 0 <= k < |Ids(out)| && Ids(out)[k] == id;
  }

  lemma AppendDistinct<T>(s: seq<T>, x: T)
    requires NoDuplicates(s) && x !in s
    ensures NoDuplicates(s + [x])
  {
  }

  /** The next answer; an item without a value is dropped. */
  lemma CollectStep<A>(items: seq<string>, done: set<int>, value: string -> Option<A>, out: seq<(string, A)>, i: nat)
    requires i < |items| && i !in done && Collected(items, done, value, out)
    ensures Collected(items, done + {i}, value,
                      if value(items[i]).Some? then out + [(items[i], value(items[i]).value)] else out)
  {
    hide Collected;
    if value(items[i]).Some? {
      CollectSome(items, done, value, out, i);
    } else {
      CollectNone(items, done, value, out, i);
    }
  }

  lemma CollectedAll<A>(items: seq<string>, done: set<int>, value: string -> Option<A>, out: seq<(string, A)>)
    requires Collected(items, done, value, out)
    requires forall i :: 0 <= i < |items| ==> i in done
    ensures Stage(items, value, out)
  {
    hide NoDuplicates, Ids;
    FitsRange(done, 0, |items|);
  }

  lemma CollectNothing<A>(items: seq<string>, value: string -> Option<A>)
    ensures Collected(items, {}, value, [])
  {
  }

  lemma NothingCleaned(t: Tables, selected: seq<string>, w: World, cleanupOk: string -> bool, owner: string)
    ensures Cleaned(t, selected[..0], w, cleanupOk, owner) == t
  {
  }

  lemma CleanedStep(t: Tables, selected: seq<string>, k: nat, w: World, cleanupOk: string -> bool, owner: string)
    requires k < |selected|
    ensures Cleaned(t, selected[..k + 1], w, cleanupOk, owner)
         == if w.download(selected[k]).BlobNotFound? && cleanupOk(selected[k])
            then DeleteBlob(Cleaned(t, selected[..k], w, cleanupOk, owner), selected[k], owner)
            else Cleaned(t, selected[..k], w, cleanupOk, owner)
  {
    assert selected[..k + 1][..k] == selected[..k];
  }

  lemma StageFacts<A>(selected: seq<string>, value: string -> Option<A>, out: seq<(string, A)>)
    requires Stage(selected, value, out)
    ensures |out| <= |selected|
    ensures forall k :: 0 <= k < |out| ==> out[k].0 in selected && value(out[k].0) == Some(out[k].1)
  {
  }

  /** If nothing came through the first stage then nothing comes through a later one. */
  lemma NothingThrough<A, B>(selected: seq<string>, first: string -> Option<A>, second: string -> Option<B>)
    requires Stage(selected, first, [])
    requires forall id :: second(id).Some? ==> first(id).Some?
    ensures Stage(selected, second, [])
  {
  }

  lemma AllDownloaded(selected: seq<string>, w: World, downloaded: seq<(string, seq<Byte>)>,
                      results: seq<(string, seq<real>)>)
    requires Stage(selected, w.Data, downloaded) && Stage(selected, w.Vector, results)
    ensures forall k :: 0 <= k < |results| ==> results[k].0 in Ids(downloaded)
  {
    forall k | 0 <= k < |results|
      ensures results[k].0 in Ids(downloaded)
    {
      assert results[k].0 in selected && w.Data(results[k].0).Some?;
    }
  }

  // ---------- the stages ----------

  method DownloadAll(db: VectorDb, selected: seq<string>, w: World, cleanupOk: string -> bool, owner: string)
    returns (downloaded: seq<(string, seq<Byte>)>)
    modifies db`vectors
    ensures Stage(selected, w.Data, downloaded)
    ensures db.View() == Cleaned(old(db.View()), selected, w, cleanupOk, owner)
  {
    hide Collected, Stage, Cleaned, DeleteBlob;
    downloaded := [];
    ghost var done: set<int> := {};
    CollectNothing(selected, w.Data);
    NothingCleaned(old(db.View()), selected, w, cleanupOk, owner);
    for k := 0 to |selected|
      invariant forall i :: i in done <==> 0 <= i < k
      invariant Collected(selected, done, w.Data, downloaded)
      invariant db.View() == Cleaned(old(db.View()), selected[..k], w, cleanupOk, owner)
    {
      var id := selected[k];
      CleanedStep(old(db.View()), selected, k, w, cleanupOk, owner);
      CollectStep(selected, done, w.Data, downloaded, k);
      done := done + {k};
      match w.download(id)
      case Fetched(data) =>
        downloaded := downloaded + [(id, data)];
      case BlobNotFound =>
        if cleanupOk(id) {
          var _ := db.DeleteByBlobId(id, owner);
        }
      case DownloadError =>
    }
    CollectedAll(selected, done, w.Data, downloaded);
    assert selected[..|selected|] == selected;
  }

  /** Up to three decryptions are under way; whichever ends first is passed on first. `peak` is the
      greatest number that were under way at once. */
  method DecryptUnordered(downloaded: seq<(string, seq<Byte>)>, w: World)
    returns (texts: seq<(string, string)>, ghost peak: nat)
    requires forall k :: 0 <= k < |downloaded| ==> w.Data(downloaded[k].0) == Some(downloaded[k].1)
    ensures Stage(Ids(downloaded), w.Text, texts)
    ensures peak == if |downloaded| <= 3 then |downloaded| else 3
  {
    hide Collected, Stage;
    texts, peak := [], 0;
    ghost var items := Ids(downloaded);
    CollectNothing(items, w.Text);
    ghost var done: set<int> := {};
    var inFlight: set<int>, next := {}, 0;
    while next < |downloaded| || inFlight != {}
      invariant next <= |downloaded| && |inFlight| <= peak == if next <= 3 then next else 3
      invariant next < |downloaded| && next < 3 ==> |inFlight| == next
      invariant done !! inFlight
      invariant forall i :: 0 <= i < next <==> i in done || i in inFlight
      invariant Collected(items, done, w.Text, texts)
      decreases |downloaded| - next + |inFlight| + |downloaded| - next
    {
      if next < |downloaded| && |inFlight| < 3 {
        inFlight := inFlight + {next};
        next := next + 1;
        if |inFlight| > peak {
          peak := |inFlight|;
        }
      } else {
        var i :| i in inFlight;
        inFlight := inFlight - {i};
        CollectStep(items, done, w.Text, texts, i);
        done := done + {i};
        var (id, data) := downloaded[i];
        match w.decrypt(id, data)
        case Some(text) =>
          texts := texts + [(id, text)];
        case None =>
      }
    }
    CollectedAll(items, done, w.Text, texts);
  }

  method EmbedAll(texts: seq<(string, string)>, w: World) returns (results: seq<(string, seq<real>)>)
    requires forall k :: 0 <= k < |texts| ==> w.Text(texts[k].0) == Some(texts[k].1)
    ensures Stage(Ids(texts), w.Vector, results)
  {
    hide Collected, Stage;
    results := [];
    ghost var items := Ids(texts);
    CollectNothing(items, w.Vector);
    ghost var done: set<int> := {};
    for k := 0 to |texts|
      invariant forall i :: i in done <==> 0 <= i < k
      invariant Collected(items, done, w.Vector, results)
    {
      var (id, text) := texts[k];
      CollectStep(items, done, w.Vector, results, k);
      done := done + {k};
      match w.embed(id, text)
      case Some(vector) =>
        results := results + [(id, vector)];
      case None =>
    }
    CollectedAll(items, done, w.Vector, results);
  }

  // ---------- the rows ----------

  /** The row of a restored blob: its size is that of the ciphertext that was downloaded. */
  ghost function RowOf(w: World, owner: string, namespace: string, result: (string, seq<real>)): VectorRow {
    VectorRow(owner, namespace, result.0, result.1,
              match w.Data(result.0) case Some(data) => |data| case None => 0)
  }

  /** The rows of the results under fresh row ids. */
  ghost function Indexed(t: Tables, w: World, owner: string, namespace: string, results: seq<(string, seq<real>)>,
                         rowIds: nat -> string): Tables
  {
    if results == [] then t
    else
      var n := |results| - 1;
      Upsert(Indexed(t, w, owner, namespace, results[..n], rowIds), rowIds(n), RowOf(w, owner, namespace, results[n]))
  }

  lemma NothingIndexed(t: Tables, w: World, owner: string, namespace: string, rowIds: nat -> string)
    ensures Indexed(t, w, owner, namespace, [], rowIds) == t
  {
  }

  method InsertAll(db: VectorDb, w: World, owner: string, namespace: string, downloaded: seq<(string, seq<Byte>)>,
                   results: seq<(string, seq<real>)>, rowIds: nat -> string, insertOk: nat -> bool)
    returns (inserted: nat)
    requires forall k :: 0 <= k < |downloaded| ==> w.Data(downloaded[k].0) == Some(downloaded[k].1)
    requires forall k :: 0 <= k < |results| ==> results[k].0 in Ids(downloaded)
    modifies db`vectors
    ensures inserted <= |results|
    ensures forall k :: 0 <= k < inserted ==> insertOk(k)
    ensures inserted < |results| ==> !insertOk(inserted)
    ensures db.View() == Indexed(old(db.View()), w, owner, namespace, results[..inserted], rowIds)
  {
    var sizes := map k | 0 <= k < |downloaded| :: downloaded[k].0 := |downloaded[k].1|;
    inserted := 0;
    while inserted < |results|
      invariant inserted <= |results|
      invariant forall k :: 0 <= k < inserted ==> insertOk(k)
      invariant db.View() == Indexed(old(db.View()), w, owner, namespace, results[..inserted], rowIds)
    {
      var (blobId, vector) := results[inserted];
      if !insertOk(inserted) {
        return;
      }
      var size := if blobId in sizes then sizes[blobId] else 0;
      assert results[..inserted + 1][..inserted] == results[..inserted];
      db.InsertVector(rowIds(inserted), VectorRow(owner, namespace, blobId, vector, size));
      inserted := inserted + 1;
    }
  }

  datatype Response = Response(restored: nat, skipped: nat, total: nat)

  datatype RestoreError = EmptyNamespace | NoDecryptionKey | ChainQueryError | DatabaseError

  /** The first failure before any blob is looked at, or nothing to look at. */
  function Early(namespace: string, hasKey: bool, chain: Option<seq<string>>, lookupOk: bool)
    : Option<Result<Response, RestoreError>>
  {
    if namespace == "" then Some(Err(EmptyNamespace))
    else if !hasKey then Some(Err(NoDecryptionKey))
    else
      match chain
      case None => Some(Err(ChainQueryError))
      case Some(ids) =>
        if ids == [] then Some(Ok(Response(0, 0, 0)))
        else if !lookupOk then Some(Err(DatabaseError))
        else None
  }

  /** `results` are the blobs that came through every stage; all of them are indexed, or those
      before the first insert that failed. */
  method Restore(db: VectorDb, owner: string, namespace: string, limit: nat, hasKey: bool, chain: Option<seq<string>>,
                 lookupOk: bool, w: World, cleanupOk: string -> bool, rowIds: nat -> string, insertOk: nat -> bool)
    returns (r: Result<Response, RestoreError>, ghost results: seq<(string, seq<real>)>, ghost inserted: nat)
    modifies db`vectors
    ensures match Early(namespace, hasKey, chain, lookupOk)
            case Some(early) => r == early && db.View() == old(db.View())
            case None =>
              var selected := Selected(old(db.View()), owner, namespace, chain.value, limit);
              && Stage(selected, w.Vector, results)
              && inserted <= |results|
              && db.View() == Indexed(Cleaned(old(db.View()), selected, w, cleanupOk, owner), w, owner, namespace,
                                      results[..inserted], rowIds)
              && (if forall k :: 0 <= k < |results| ==> insertOk(k) then
                    && inserted == |results|
                    && r.Ok? && r.value.restored == |results| <= |selected|
                    && r.value.skipped + |selected| == r.value.total == |chain.value|
                  else
                    !insertOk(inserted) && r == Err(DatabaseError))
    ensures r == Err(EmptyNamespace) <==> namespace == ""
    ensures r == Err(NoDecryptionKey) <==> namespace != "" && !hasKey
    ensures r == Err(ChainQueryError) <==> namespace != "" && hasKey && chain.None?
    ensures namespace != "" && hasKey && chain == Some([]) ==> r == Ok(Response(0, 0, 0))
    ensures namespace != "" && hasKey && chain.Some? && chain.value != [] && !lookupOk ==> r == Err(DatabaseError)
  {
    hide Stage, Cleaned, Indexed, NoDuplicates;
    results, inserted := [], 0;
    if namespace == "" {
      return Err(EmptyNamespace), results, inserted;
    }
    if !hasKey {
      return Err(NoDecryptionKey), results, inserted;
    }
    if chain.None? {
      return Err(ChainQueryError), results, inserted;
    }
    var total := |chain.value|;
    if total == 0 {
      return Ok(Response(0, 0, 0)), results, inserted;
    }
    if !lookupOk {
      return Err(DatabaseError), results, inserted;
    }
    var selected := Selected(db.View(), owner, namespace, chain.value, limit);
    var skipped := total - |selected|;
    var downloaded := DownloadAll(db, selected, w, cleanupOk, owner);
    NothingIndexed(db.View(), w, owner, namespace, rowIds);
    StageFacts(selected, w.Data, downloaded);
    if downloaded == [] {
      NothingThrough(selected, w.Data, w.Vector);
      return Ok(Response(0, skipped, total)), results, inserted;
    }
    var texts, _ := DecryptUnordered(downloaded, w);
    StageCompose(selected, w.Data, downloaded, w.Text, texts);
    StageFacts(selected, w.Text, texts);
    var embedded := EmbedAll(texts, w);
    StageCompose(selected, w.Text, texts, w.Vector, embedded);
    results := embedded;
    StageFacts(selected, w.Vector, embedded);
    AllDownloaded(selected, w, downloaded, embedded);
    var stored := InsertAll(db, w, owner, namespace, downloaded, embedded, rowIds, insertOk);
    inserted := stored;
    if stored < |embedded| {
      return Err(DatabaseError), results, inserted;
    }
    assert results[..inserted] == results;
    r := Ok(Response(|embedded|, skipped, total));
  }
}
