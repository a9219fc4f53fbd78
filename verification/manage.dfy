/** The owner-scoped routes of src/routes/v1/file.ts: `DELETE /v1/file/:fileId`
    and `GET /v1/file`. The caller is the account the token authenticates. */
module Manage {
  import opened Options
  import opened Catalogue
  import Download

  datatype DeleteReply = DeleteNotFound | Deleted

  /** The filter of the delete route: this short id, uploaded by the caller. */
  function OwnedId(fileId: string, caller: UserId): Query
  {
    Query(Some(fileId), Some(caller))
  }

  /** The filter of the list route: everything the caller uploaded. */
  function OwnedBy(caller: UserId): Query
  {
    Query(None, Some(caller))
  }

  /** The delete route: the cursor over the caller's documents with that
      short id keeps the last; if there is none the answer is NotFound and the
      catalogue is untouched, otherwise exactly that document goes. The id is
      looked up as sent, without cutting an extension. */
  method DeleteEndpoint(bucket: FileBucket, fileId: string, caller: UserId) returns (reply: DeleteReply)
    requires bucket.Valid()
    modifies bucket
    ensures bucket.Valid()
    ensures LastMatch(old(bucket.records), OwnedId(fileId, caller)).None? ==>
      reply == DeleteNotFound && bucket.records == old(bucket.records)
    ensures LastMatch(old(bucket.records), OwnedId(fileId, caller)).Some? ==>
      var k := LastMatch(old(bucket.records), OwnedId(fileId, caller)).value;
      reply == Deleted && bucket.records == old(bucket.records)[..k] + old(bucket.records)[k + 1..]
  {
    var q := OwnedId(fileId, caller);
    var file: Option<nat> := None;
    var i := 0;
    while i < |bucket.records|
      invariant 0 <= i <= |bucket.records|
      invariant file == LastMatch(bucket.records[..i], q)
    {
      assert bucket.records[..i + 1][..i] == bucket.records[..i];
      if Matches(bucket.records[i], q) {
        file := Some(i);
      }
      i := i + 1;
    }
    assert bucket.records[..i] == bucket.records;
    if file.None? {
      return DeleteNotFound;
    }
    WithoutIdAt(bucket.records, file.value);
    bucket.Delete(bucket.records[file.value].internalId);
    reply := Deleted;
  }

  /** The list route: the cursor over the caller's documents, pushed one by one. */
  method ListEndpoint(bucket: FileBucket, caller: UserId) returns (files: seq<FileRecord>)
    ensures files == Select(bucket.records, OwnedBy(caller))
  {
    var q := OwnedBy(caller);
    files := [];
    var i := 0;
    while i < |bucket.records|
      invariant 0 <= i <= |bucket.records|
      invariant files == Select(bucket.records[..i], q)
    {
      assert bucket.records[..i + 1][..i] == bucket.records[..i];
      if Matches(bucket.records[i], q) {
        files := files + [bucket.records[i]];
      }
      i := i + 1;
    }
    assert bucket.records[..i] == bucket.records;
  }

  /** The listing holds exactly the caller's documents: each of them as often
      as the catalogue does, no one else's, and in catalogue order. */
  lemma ListIsOwned(records: seq<FileRecord>, caller: UserId)
    ensures var files := Select(records, OwnedBy(caller));
      (forall i :: 0 <= i < |files| ==> files[i].metadata.uploadedBy == caller)
      && (forall r: FileRecord :: r.metadata.uploadedBy == caller ==> multiset(files)[r] == multiset(records)[r])
      && (forall r: FileRecord :: r.metadata.uploadedBy != caller ==> r !in files)
      && (forall a, b :: Select(a + b, OwnedBy(caller)) == Select(a, OwnedBy(caller)) + Select(b, OwnedBy(caller)))
  {
    var files := Select(records, OwnedBy(caller));
    SelectCounts(records, OwnedBy(caller));
    forall i | 0 <= i < |files| ensures files[i].metadata.uploadedBy == caller {
      assert multiset(files)[files[i]] > 0;
    }
    forall r: FileRecord | r.metadata.uploadedBy != caller ensures r !in files {
      assert multiset(files)[r] == 0;
    }
    forall a, b ensures Select(a + b, OwnedBy(caller)) == Select(a, OwnedBy(caller)) + Select(b, OwnedBy(caller)) {
      SelectAppend(a, b, OwnedBy(caller));
    }
  }

  /** After a delete, the removed document is gone and every other one stays;
      a request for its short id then gets NotFound unless another document
      carries the same short id. */
  lemma DeleteThenDownload(records: seq<FileRecord>, k: nat, downloadParam: Option<string>,
                           caller: Option<UserId>, sniff: seq<bv8> -> Option<string>,
                           byName: string -> Option<string>)
    requires k < |records| && UniqueIds(records)
    requires '.' !in records[k].metadata.shortId
    requires forall j :: 0 <= j < |records| && j != k ==> records[j].metadata.shortId != records[k].metadata.shortId
    ensures var after := records[..k] + records[k + 1..];
      multiset(after) == multiset(records) - multiset{records[k]}
      && (forall j :: 0 <= j < |after| ==> after[j].internalId != records[k].internalId)
      && Download.Resolve(after, records[k].metadata.shortId, downloadParam, caller, sniff, byName) == Download.NotFound
  {
    var after := records[..k] + records[k + 1..];
    var id := records[k].metadata.shortId;
    assert records == records[..k] + [records[k]] + records[k + 1..];
    forall j | 0 <= j < |after| ensures after[j].internalId != records[k].internalId
                                    && after[j].metadata.shortId != id {
      if j < k {
        assert after[j] == records[j];
      } else {
        assert after[j] == records[j + 1];
      }
    }
    Download.NormaliseIdDropsExtension(id, "");
    Download.ResolveOutcome(after, id, downloadParam, caller, sniff, byName);
  }
}
