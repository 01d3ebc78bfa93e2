/** The asynchronous state manager the sync engine uses. Its lock only
    serialises concurrent callers and is not modelled: each call is one step. */
module DatabaseDBManager {
  import opened Wrappers
  import opened FileTable

  class DBManager {
    /** The documents of the `uploaded_files` table, in insertion order. */
    var fileTable: seq<FileRecord>

    /** At most one document per file id. The store does not demand it of
        what it opens, since a database file may hold duplicates; it holds
        from the start on unique stored records, and every upsert keeps it. */
    predicate Valid()
      reads this
    {
      UniqueIds(fileTable)
    }

    /** Opens the table with what the database file already holds. */
    constructor (stored: seq<FileRecord>)
      ensures fileTable == stored
      ensures UniqueIds(stored) ==> Valid()
    {
      fileTable := stored;
    }

    /** `check_file_status`: whether a document for the id exists and, if
        so, the checksum of the first one. */
    method CheckFileStatus(fileId: string) returns (isProcessed: bool, storedChecksum: Option<string>)
      ensures isProcessed <==> HasId(fileTable, fileId)
      ensures isProcessed ==> exists k :: 0 <= k < |fileTable| && fileTable[k].fileId == fileId &&
                                           storedChecksum == Some(fileTable[k].checksum)
      ensures !isProcessed ==> storedChecksum == None
      ensures storedChecksum == if isProcessed then Some(Get(fileTable, fileId).value.checksum) else None
    {
      var result := Get(fileTable, fileId);
      if result.Some? {
        return true, Some(result.value.checksum);
      }
      return false, None;
    }

    /** `mark_file_as_processed`: upserts the synced record for the id.
        `writeOk` is whether the table write succeeds; a failed write is
        re-raised, reported as `Fail`, and leaves the table as it was. */
    method MarkFileAsProcessed(fileId: string, fileName: string, checksum: string, writeOk: bool)
      returns (outcome: Outcome)
      modifies this
      ensures outcome == Pass <==> writeOk
      ensures writeOk ==> fileTable == Upsert(old(fileTable), SyncedRecord(fileId, fileName, checksum))
      ensures !writeOk ==> fileTable == old(fileTable)
      ensures writeOk ==> Get(fileTable, fileId) == Some(SyncedRecord(fileId, fileName, checksum))
      ensures forall id :: id != fileId ==> Get(fileTable, id) == Get(old(fileTable), id)
      ensures old(Valid()) ==> Valid()
    {
      if !writeOk {
        return Fail;
      }
      var rec := SyncedRecord(fileId, fileName, checksum);
      var before := fileTable;
      fileTable := Upsert(fileTable, rec);
      UpsertReadsBack(before, rec);
      forall id | id != fileId ensures Get(fileTable, id) == Get(before, id) {
        UpsertOthers(before, rec, id);
      }
      if UniqueIds(before) {
        UpsertKeepsUnique(before, rec);
      }
      return Pass;
    }
  }
}
