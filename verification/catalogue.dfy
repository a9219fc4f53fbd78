/** The GridFS file bucket the routes use, seen as a catalogue of file
    documents in insertion order. Chunking is not modelled: a document
    carries its whole content. */
module Catalogue {
  import opened Options

  /** The account id a token authenticates (a MongoDB ObjectId). */
  type UserId = nat

  /** The `metadata` object the upload route attaches to each file. */
  datatype Metadata = Metadata(
    shortId: string,
    uploadedBy: UserId,
    private: bool,
    persistent: bool,
    tags: seq<string>)

  /** One file document: its `_id`, its original name, its bytes and its metadata. */
  datatype FileRecord = FileRecord(
    internalId: nat,
    filename: string,
    content: seq<bv8>,
    metadata: Metadata)

  /** The filters of the `find` calls: by `metadata.shortId`, by
      `metadata.uploadedBy`, or by both. */
  datatype Query = Query(shortId: Option<string>, owner: Option<UserId>)

  predicate Matches(r: FileRecord, q: Query)
  {
    (q.shortId.Some? ==> r.metadata.shortId == q.shortId.value)
    && (q.owner.Some? ==> r.metadata.uploadedBy == q.owner.value)
  }

  /** The position of the document a cursor loop that keeps overwriting its
      variable ends with: the last match in catalogue order. */
  function LastMatch(records: seq<FileRecord>, q: Query): (found: Option<nat>)
    ensures found.Some? ==>
      found.value < |records| && Matches(records[found.value], q)
      && forall j :: found.value < j < |records| ==> !Matches(records[j], q)
    ensures found.None? ==> forall j :: 0 <= j < |records| ==> !Matches(records[j], q)
  {
    if records == [] then None
    else if Matches(records[|records| - 1], q) then Some(|records| - 1)
    else LastMatch(records[..|records| - 1], q)
  }

  /** A matching document with no match after it is the one the cursor loop keeps. */
  lemma LastMatchIs(records: seq<FileRecord>, q: Query, k: nat)
    requires k < |records| && Matches(records[k], q)
    requires forall j :: k < j < |records| ==> !Matches(records[j], q)
    ensures LastMatch(records, q) == Some(k)
  {
  }

  /** The documents a cursor yields: the matches, in catalogue order. */
  function Select(records: seq<FileRecord>, q: Query): seq<FileRecord>
  {
    if records == [] then []
    else Select(records[..|records| - 1], q)
         + (if Matches(records[|records| - 1], q) then [records[|records| - 1]] else [])
  }

  /** A selection holds every matching document as often as the catalogue
      does, and nothing else. */
  lemma {:induction false} SelectCounts(records: seq<FileRecord>, q: Query)
    ensures forall r :: multiset(Select(records, q))[r] == if Matches(r, q) then multiset(records)[r] else 0
  {
    if records != [] {
      var init := records[..|records| - 1];
      SelectCounts(init, q);
      assert records == init + [records[|records| - 1]];
    }
  }

  /** Selection keeps order: selecting from a concatenation concatenates the selections. */
  lemma {:induction false} SelectAppend(a: seq<FileRecord>, b: seq<FileRecord>, q: Query)
    ensures Select(a + b, q) == Select(a, q) + Select(b, q)
    decreases |b|
  {
    if b == [] {
      assert a + b == a;
    } else {
      var init := b[..|b| - 1];
      SelectAppend(a, init, q);
      assert (a + b)[..|a + b| - 1] == a + init;
    }
  }

  /** The catalogue without the document whose `_id` is `id`. */
  function WithoutId(records: seq<FileRecord>, id: nat): seq<FileRecord>
  {
    if records == [] then []
    else (if records[0].internalId == id then [] else [records[0]]) + WithoutId(records[1..], id)
  }

  ghost predicate UniqueIds(records: seq<FileRecord>)
  {
    forall i, j :: 0 <= i < j < |records| ==> records[i].internalId != records[j].internalId
  }

  /** With unique `_id`s, deleting by `_id` removes exactly the one document at that position. */
  lemma {:induction false} WithoutIdAt(records: seq<FileRecord>, k: nat)
    requires k < |records| && UniqueIds(records)
    ensures WithoutId(records, records[k].internalId) == records[..k] + records[k + 1..]
  {
    if k == 0 {
      NotPresent(records[1..], records[0].internalId);
    } else {
      WithoutIdAt(records[1..], k - 1);
      assert records[1..][k - 1] == records[k];
      assert records[..k] == [records[0]] + records[1..][..k - 1];
      assert records[k + 1..] == records[1..][k..];
    }
  }

  lemma {:induction false} NotPresent(records: seq<FileRecord>, id: nat)
    requires forall i :: 0 <= i < |records| ==> records[i].internalId != id
    ensures WithoutId(records, id) == records
  {
    if records != [] {
      NotPresent(records[1..], id);
    }
  }

  /** The bucket: its documents in insertion order and the next fresh `_id`. */
  class FileBucket {
    var records: seq<FileRecord>
    var nextId: nat

    /** Every `_id` was handed out before and none is used twice. */
    ghost predicate Valid()
      reads this
    {
      (forall i :: 0 <= i < |records| ==> records[i].internalId < nextId)
      && UniqueIds(records)
    }

    constructor ()
      ensures Valid() && records == [] && nextId == 0
    {
      records := [];
      nextId := 0;
    }

    /** `openUploadStream` with a fresh `_id`, once the stream has finished:
        the new document is appended. */
    method Insert(filename: string, content: seq<bv8>, metadata: Metadata) returns (id: nat)
      requires Valid()
      modifies this
      ensures Valid()
      ensures id == old(nextId) && nextId == id + 1
      ensures records == old(records) + [FileRecord(id, filename, content, metadata)]
    {
      id := nextId;
      records := records + [FileRecord(id, filename, content, metadata)];
      nextId := nextId + 1;
    }

    /** `delete(_id)`: the document with that `_id` goes, the others stay in order. */
    method Delete(id: nat)
      requires Valid()
      modifies this
      ensures Valid() && nextId == old(nextId)
      ensures records == WithoutId(old(records), id)
    {
      WithoutIdKeeps(records, id);
      records := WithoutId(records, id);
    }
  }

  /** Deleting by `_id` keeps a subsequence of the documents, so it keeps the invariant. */
  lemma {:induction false} WithoutIdKeeps(records: seq<FileRecord>, id: nat)
    ensures forall r :: r in WithoutId(records, id) ==> r in records && r.internalId != id
    ensures UniqueIds(records) ==> UniqueIds(WithoutId(records, id))
  {
    if records != [] {
      WithoutIdKeeps(records[1..], id);
      var rest := WithoutId(records[1..], id);
      var out := WithoutId(records, id);
      if UniqueIds(records) && records[0].internalId != id {
        assert UniqueIds(records[1..]);
        assert out == [records[0]] + rest;
        forall i, j | 0 <= i < j < |out| ensures out[i].internalId != out[j].internalId {
          if i == 0 {
            assert out[j] in records[1..];
          } else {
            assert out[i] == rest[i - 1] && out[j] == rest[j - 1];
          }
        }
      } else if UniqueIds(records) {
        assert UniqueIds(records[1..]);
      }
    }
  }
}
