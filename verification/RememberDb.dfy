/** The two tables behind the remember pipeline and the statements that change them. */
module RememberDb {
  import opened Common

  datatype Status = Pending | Running | Uploaded | Done | Failed

  datatype JobRow = JobRow(owner: string, namespace: string, status: Status, blobId: Option<string>)

  datatype VectorRow = VectorRow(owner: string, namespace: string, blobId: string, embedding: seq<real>, size: nat)

  datatype Tables = Tables(jobs: map<string, JobRow>, vectors: map<string, VectorRow>)

  // ---------- the statements, as functions of the tables ----------

  /** UPDATE remember_jobs SET status WHERE id; no row, no effect. */
  function SetStatus(t: Tables, id: string, status: Status): Tables {
    if id in t.jobs then t.(jobs := t.jobs[id := t.jobs[id].(status := status)]) else t
  }

  /** UPDATE remember_jobs SET status, blob_id WHERE id. */
  function SetStatusAndBlob(t: Tables, id: string, status: Status, blobId: string): Tables {
    if id in t.jobs then t.(jobs := t.jobs[id := t.jobs[id].(status := status, blobId := Some(blobId))]) else t
  }

  /** INSERT ... ON CONFLICT (id) DO UPDATE of every other column. */
  function Upsert(t: Tables, id: string, row: VectorRow): Tables {
    t.(vectors := t.vectors[id := row])
  }

  /** DELETE FROM vector_entries WHERE blob_id AND owner. */
  function DeleteBlob(t: Tables, blobId: string, owner: string): Tables {
    t.(vectors := map id | id in t.vectors && !(t.vectors[id].blobId == blobId && t.vectors[id].owner == owner)
                    :: t.vectors[id])
  }

  /** The sizes of one owner's rows. */
  function Sizes(vectors: map<string, VectorRow>, owner: string): map<string, int> {
    map id | id in vectors && vectors[id].owner == owner :: vectors[id].size
  }

  /** SELECT COALESCE(SUM(blob_size_bytes), 0) WHERE owner. */
  ghost function StorageUsed(t: Tables, owner: string): int {
    Sum(Sizes(t.vectors, owner))
  }

  /** An upsert changes an owner's storage by the new size less the size it replaces: writing
      the same row again changes nothing. */
  lemma UpsertStorage(t: Tables, id: string, row: VectorRow, owner: string)
    ensures StorageUsed(Upsert(t, id, row), owner)
         == StorageUsed(t, owner) + (if row.owner == owner then row.size else 0)
            - (if id in t.vectors && t.vectors[id].owner == owner then t.vectors[id].size else 0)
  {
    var before, after := Sizes(t.vectors, owner), Sizes(Upsert(t, id, row).vectors, owner);
    assert before - {id} == after - {id};
    SumRemove(before, id);
    SumRemove(after, id);
  }

  // ---------- the database object ----------

  class VectorDb {
    var jobs: map<string, JobRow>
    var vectors: map<string, VectorRow>

    function View(): Tables
      reads this
    {
      Tables(jobs, vectors)
    }

    constructor ()
      ensures View() == Tables(map[], map[])
    {
      jobs, vectors := map[], map[];
    }

    /** `id` comes from a fresh UUID in the routes; a row that is there already is kept. */
    method InsertRememberJob(id: string, owner: string, namespace: string)
      modifies this`jobs
      ensures jobs == if id in old(jobs) then old(jobs) else old(jobs)[id := JobRow(owner, namespace, Pending, None)]
    {
      if id !in jobs {
        jobs := jobs[id := JobRow(owner, namespace, Pending, None)];
      }
    }

    /** A status write whose outcome the caller ignores: it may have been lost. */
    method TryStatus(id: string, status: Status, written: bool)
      modifies this`jobs
      ensures View() == if written then SetStatus(old(View()), id, status) else old(View())
      ensures jobs == if written && id in old(jobs) then old(jobs)[id := old(jobs)[id].(status := status)] else old(jobs)
    {
      if written && id in jobs {
        jobs := jobs[id := jobs[id].(status := status)];
      }
    }

    method TryStatusAndBlob(id: string, status: Status, blobId: string, written: bool)
      modifies this`jobs
      ensures View() == if written then SetStatusAndBlob(old(View()), id, status, blobId) else old(View())
      ensures jobs == if written && id in old(jobs) then
                        old(jobs)[id := old(jobs)[id].(status := status, blobId := Some(blobId))]
                      else old(jobs)
    {
      if written && id in jobs {
        jobs := jobs[id := jobs[id].(status := status, blobId := Some(blobId))];
      }
    }

    /** Adds up the sizes of the owner's rows, in whatever order the database visits them. */
    method GetStorageUsed(owner: string) returns (used: int)
      ensures used == StorageUsed(View(), owner)
    {
      var sizes := Sizes(vectors, owner);
      used := 0;
      ghost var total := Sum(sizes);
      while sizes != map[]
        invariant used + Sum(sizes) == total
        decreases |sizes|
      {
        var id :| id in sizes;
        SumTakeOut(sizes, id);
        assert (sizes - {id}).Keys == sizes.Keys - {id};
        used := used + sizes[id];
        sizes := sizes - {id};
      }
    }

    method InsertVector(id: string, row: VectorRow)
      modifies this`vectors
      ensures View() == Upsert(old(View()), id, row)
      ensures vectors == old(vectors)[id := row]
    {
      vectors := vectors[id := row];
    }

    method DeleteByBlobId(blobId: string, owner: string) returns (rows: nat)
      modifies this`vectors
      ensures View() == DeleteBlob(old(View()), blobId, owner)
      ensures forall id :: id in old(vectors) ==>
                if old(vectors)[id].blobId == blobId && old(vectors)[id].owner == owner then id !in vectors
                else id in vectors && vectors[id] == old(vectors)[id]
      ensures vectors.Keys <= old(vectors).Keys
      ensures rows == |set id | id in old(vectors) && old(vectors)[id].blobId == blobId && old(vectors)[id].owner == owner|
      ensures rows == |old(vectors)| - |vectors|
    {
      var doomed := set id | id in vectors && vectors[id].blobId == blobId && vectors[id].owner == owner;
      var kept := map id | id in vectors && !(vectors[id].blobId == blobId && vectors[id].owner == owner) :: vectors[id];
      assert vectors.Keys == kept.Keys + doomed && kept.Keys !! doomed;
      assert |vectors| == |vectors.Keys| && |kept| == |kept.Keys|;
      rows := |doomed|;
      vectors := kept;
    }
  }
}
