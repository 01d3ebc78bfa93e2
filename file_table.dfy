/** The `uploaded_files` table both state managers keep in TinyDB: a list of
    documents in insertion order, queried by `file_id`. */
module FileTable {
  import opened Wrappers

  /** The status every recorded file carries. */
  const Synced: string := "synced"

  /** One document of the table. */
  datatype FileRecord = FileRecord(fileId: string, fileName: string, checksum: string, status: string)

  /** The record `mark_file_as_processed` writes. */
  function SyncedRecord(fileId: string, fileName: string, checksum: string): FileRecord {
    FileRecord(fileId, fileName, checksum, Synced)
  }

  predicate HasId(table: seq<FileRecord>, id: string) {
    exists k :: 0 <= k < |table| && table[k].fileId == id
  }

  /** `table.get(Query().file_id == id)`: the first document with that id. */
  function Get(table: seq<FileRecord>, id: string): (r: Option<FileRecord>)
    ensures r.None? <==> !HasId(table, id)
    ensures r.Some? ==>
      exists k :: 0 <= k < |table| && table[k] == r.value && r.value.fileId == id && IdAbsentBefore(table, id, k)
  {
    if table == [] then None
    else if table[0].fileId == id then Some(table[0])
    else
      var r := Get(table[1..], id);
      assert forall k :: 1 <= k < |table| ==> table[k] == table[1..][k - 1];
      r
  }

  predicate IdAbsentBefore(table: seq<FileRecord>, id: string, k: nat)
    requires k <= |table|
  {
    forall j :: 0 <= j < k ==> table[j].fileId != id
  }

  /** At most one document per id. */
  predicate UniqueIds(table: seq<FileRecord>) {
    forall i, j :: 0 <= i < j < |table| ==> table[i].fileId != table[j].fileId
  }

  /** TinyDB's `upsert(doc, cond)`: every document matching the condition is
      updated with the fields of `doc`, which here are all the fields; when
      none matches, `doc` is inserted at the end. */
  function Upsert(table: seq<FileRecord>, rec: FileRecord): (t: seq<FileRecord>)
    ensures |t| == if HasId(table, rec.fileId) then |table| else |table| + 1
  {
    if HasId(table, rec.fileId) then
      seq(|table|, k requires 0 <= k < |table| => if table[k].fileId == rec.fileId then rec else table[k])
    else table + [rec]
  }

  /** Read-your-write: the id now reads back as the record written. */
  lemma {:induction false} UpsertReadsBack(table: seq<FileRecord>, rec: FileRecord)
    ensures Get(Upsert(table, rec), rec.fileId) == Some(rec)
  {
    var t := Upsert(table, rec);
    assert HasId(t, rec.fileId) by {
      if HasId(table, rec.fileId) {
        var k :| 0 <= k < |table| && table[k].fileId == rec.fileId;
        assert t[k] == rec;
      } else {
        assert t[|table|] == rec;
      }
    }
    var r := Get(t, rec.fileId);
    var k :| 0 <= k < |t| && t[k] == r.value && r.value.fileId == rec.fileId;
    if !HasId(table, rec.fileId) {
      assert forall j :: 0 <= j < |table| ==> t[j] == table[j];
      assert k == |table|;
    }
  }

  /** Records with any other id are untouched. */
  lemma {:induction false} UpsertOthers(table: seq<FileRecord>, rec: FileRecord, id: string)
    requires id != rec.fileId
    ensures Get(Upsert(table, rec), id) == Get(table, id)
  {
    var t := Upsert(table, rec);
    forall k | 0 <= k < |table| ensures t[k].fileId == id <==> table[k].fileId == id {
      assert t[k] == table[k] || t[k] == rec;
    }
    assert t == table + [rec] || |t| == |table|;
    assert HasId(t, id) <==> HasId(table, id) by {
      if HasId(t, id) {
        var k :| 0 <= k < |t| && t[k].fileId == id;
      }
    }
    GetAgrees(t, table, id);
  }

  /** Two tables whose documents agree up to the first one with `id`, and
      which both hold it or both lack it, give the same `get`. */
  lemma {:induction false} GetAgrees(t: seq<FileRecord>, u: seq<FileRecord>, id: string)
    requires HasId(t, id) <==> HasId(u, id)
    requires forall k :: 0 <= k < |t| && 0 <= k < |u| && (t[k].fileId == id || u[k].fileId == id) ==> t[k] == u[k]
    requires forall k :: 0 <= k < |t| && 0 <= k < |u| ==> (t[k].fileId == id <==> u[k].fileId == id)
    requires HasId(t, id) ==> exists k :: 0 <= k < |t| && 0 <= k < |u| && t[k].fileId == id
    ensures Get(t, id) == Get(u, id)
  {
    if HasId(t, id) {
      var a := Get(t, id).value;
      var b := Get(u, id).value;
      var i :| 0 <= i < |t| && t[i] == a && a.fileId == id && IdAbsentBefore(t, id, i);
      var j :| 0 <= j < |u| && u[j] == b && b.fileId == id && IdAbsentBefore(u, id, j);
      var m :| 0 <= m < |t| && 0 <= m < |u| && t[m].fileId == id;
      assert i <= m && j <= m;
      if i < j { assert false; }
      if j < i { assert false; }
    }
  }

  /** An upsert keeps at most one document per id. */
  lemma {:induction false} UpsertKeepsUnique(table: seq<FileRecord>, rec: FileRecord)
    requires UniqueIds(table)
    ensures UniqueIds(Upsert(table, rec))
  {
    var t := Upsert(table, rec);
    if HasId(table, rec.fileId) {
      forall i, j | 0 <= i < j < |t| ensures t[i].fileId != t[j].fileId {
        assert table[i].fileId != table[j].fileId;
        assert t[i].fileId == table[i].fileId && t[j].fileId == table[j].fileId;
      }
    } else {
      forall i, j | 0 <= i < j < |t| ensures t[i].fileId != t[j].fileId {
        if j < |table| {
          assert t[i] == table[i] && t[j] == table[j];
        } else {
          assert t[i] == table[i];
        }
      }
    }
  }

  /** Repeating an upsert with the same record changes nothing. */
  lemma {:induction false} UpsertIdempotent(table: seq<FileRecord>, rec: FileRecord)
    ensures Upsert(Upsert(table, rec), rec) == Upsert(table, rec)
  {
    var t := Upsert(table, rec);
    UpsertReadsBack(table, rec);
    var t2 := Upsert(t, rec);
    assert |t2| == |t|;
    forall k | 0 <= k < |t| ensures t2[k] == t[k] {
    }
  }
}
