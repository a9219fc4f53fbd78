/** The download route `getEndpoint` of src/routes/v1/file.ts, shared by
    `GET /file/:fileId` and `GET /v1/file/:fileId`. */
module Download {
  import opened Options
  import opened JsText
  import opened Catalogue

  /** The id looked up for a requested `fileId`: `fileId.split(".")[0]`. */
  function NormaliseId(fileId: string): string
  {
    Split(fileId, '.')[0]
  }

  /** The looked-up id is the part of the request before its first `.`: the
      whole request when it has none. */
  lemma NormaliseIdCutsAtFirstDot(fileId: string)
    ensures var id := NormaliseId(fileId);
      |id| <= |fileId| && fileId[..|id|] == id && '.' !in id
      && ('.' in fileId ==> |id| < |fileId| && fileId[|id|] == '.')
      && ('.' !in fileId ==> id == fileId)
  {
    FirstPiece(fileId, '.');
  }

  /** Normalising twice gives the same id as normalising once. */
  lemma NormaliseIdIdempotent(fileId: string)
    ensures NormaliseId(NormaliseId(fileId)) == NormaliseId(fileId)
  {
    var id := NormaliseId(fileId);
    FirstPiece(fileId, '.');
    FirstPiece(id, '.');
    assert id[..|id|] == id;
  }

  /** A dot-free id with or without an extension appended normalises to itself. */
  lemma NormaliseIdDropsExtension(id: string, ext: string)
    requires '.' !in id
    ensures NormaliseId(id + "." + ext) == id
    ensures NormaliseId(id) == id
  {
    SplitPrefix(id, "." + ext, '.');
    assert id + "." + ext == id + ("." + ext);
    assert ("." + ext)[1..] == ext;
    assert Split("." + ext, '.')[0] == "";
    SplitPrefix(id, "", '.');
    assert id + "" == id;
  }

  const OctetStream: string := "application/octet-stream"

  /** The `Content-Type` header: the type sniffed from the leading bytes if
      there is one, else the type for the file name, else the generic binary type. */
  function ContentType(sniffed: Option<string>, byName: Option<string>): (t: string)
    ensures t != ""
    ensures Truthy(sniffed) ==> t == sniffed.value
    ensures !Truthy(sniffed) && Truthy(byName) ==> t == byName.value
    ensures !Truthy(sniffed) && !Truthy(byName) ==> t == OctetStream
  {
    if Truthy(sniffed) then sniffed.value
    else if Truthy(byName) then byName.value
    else OctetStream
  }

  const AttachmentPrefix: string := "attachment; filename=\""
  const InlinePrefix: string := "inline; filename=\""

  /** The `Content-Disposition` header: `attachment` when a download was
      asked for, `inline` otherwise, with the stored file name quoted. */
  function Disposition(download: bool, filename: string): string
  {
    (if download then AttachmentPrefix else InlinePrefix) + filename + "\""
  }

  /** Reads a `Content-Disposition` value of the two shapes above back into
      the download flag and the file name. */
  function ParseDisposition(header: string): Option<(bool, string)>
  {
    if |header| > |AttachmentPrefix| && header[..|AttachmentPrefix|] == AttachmentPrefix
       && header[|header| - 1] == '"' then
      Some((true, header[|AttachmentPrefix|..|header| - 1]))
    else if |header| > |InlinePrefix| && header[..|InlinePrefix|] == InlinePrefix
       && header[|header| - 1] == '"' then
      Some((false, header[|InlinePrefix|..|header| - 1]))
    else None
  }

  /** The disposition header determines the download flag and the file name:
      reading it back gives both. */
  lemma DispositionRoundTrip(download: bool, filename: string)
    ensures ParseDisposition(Disposition(download, filename)) == Some((download, filename))
  {
    var h := Disposition(download, filename);
    var p := if download then AttachmentPrefix else InlinePrefix;
    assert h == p + filename + "\"";
    assert h[..|p|] == p;
    assert h[|p|..|h| - 1] == filename;
    if !download && |h| > |AttachmentPrefix| {
      assert h[..|AttachmentPrefix|][0] == 'i' != AttachmentPrefix[0];
    }
  }

  /** What the route answers. */
  datatype DownloadReply =
    | NotFound
    | Unauthorized
    | Forbidden
    | Served(content: seq<bv8>, contentType: string, disposition: string)

  /** The access gate: a public file is served to anyone; a private one only
      to the caller whose token authenticates its uploader. */
  function Gate(file: FileRecord, caller: Option<UserId>): (outcome: Option<DownloadReply>)
    ensures outcome.None? <==> !file.metadata.private || caller == Some(file.metadata.uploadedBy)
    ensures outcome.Some? ==>
      (caller.None? && outcome.value == Unauthorized) || (caller.Some? && outcome.value == Forbidden)
  {
    if !file.metadata.private then None
    else if caller.None? then Some(Unauthorized)
    else if caller.value == file.metadata.uploadedBy then None
    else Some(Forbidden)
  }

  /** The answer to a download request, given what the request carries and
      the two type detectors: `sniff` classifies leading bytes, `byName` looks
      a file name up in the extension table. */
  function Resolve(records: seq<FileRecord>, fileId: string, downloadParam: Option<string>,
                   caller: Option<UserId>, sniff: seq<bv8> -> Option<string>,
                   byName: string -> Option<string>): (reply: DownloadReply)
  {
    match LastMatch(records, Query(Some(NormaliseId(fileId)), None))
    case None => NotFound
    case Some(k) =>
      var file := records[k];
      match Gate(file, caller)
      case Some(refusal) => refusal
      case None =>
        Served(file.content, ContentType(sniff(file.content), byName(file.filename)),
               Disposition(Truthy(downloadParam), file.filename))
  }

  /** NotFound exactly when no document carries the normalised id; otherwise
      the last such document decides: it is served, byte for byte, when it is
      public or the caller uploaded it; a private one gives Unauthorized
      without a token and Forbidden to anyone else. */
  lemma ResolveOutcome(records: seq<FileRecord>, fileId: string, downloadParam: Option<string>,
                       caller: Option<UserId>, sniff: seq<bv8> -> Option<string>,
                       byName: string -> Option<string>)
    ensures var reply := Resolve(records, fileId, downloadParam, caller, sniff, byName);
      var id := NormaliseId(fileId);
      && (reply.NotFound? <==> forall j :: 0 <= j < |records| ==> records[j].metadata.shortId != id)
      && (!reply.NotFound? ==>
            exists k :: 0 <= k < |records| && records[k].metadata.shortId == id
              && (forall j :: k < j < |records| ==> records[j].metadata.shortId != id)
              && var file := records[k];
              && (reply.Served? <==> !file.metadata.private || caller == Some(file.metadata.uploadedBy))
              && (reply.Unauthorized? <==> file.metadata.private && caller.None?)
              && (reply.Forbidden? <==> file.metadata.private && caller.Some? && caller.value != file.metadata.uploadedBy)
              && (reply.Served? ==> reply == Served(file.content,
                    ContentType(sniff(file.content), byName(file.filename)),
                    Disposition(Truthy(downloadParam), file.filename))))
  {
    var q := Query(Some(NormaliseId(fileId)), None);
    match LastMatch(records, q)
    case None =>
    case Some(k) =>
      assert records[k].metadata.shortId == NormaliseId(fileId);
  }

  /** When the last document with the normalised id passes the gate, it is served. */
  lemma ResolveServed(records: seq<FileRecord>, fileId: string, downloadParam: Option<string>,
                      caller: Option<UserId>, sniff: seq<bv8> -> Option<string>,
                      byName: string -> Option<string>, k: nat)
    requires LastMatch(records, Query(Some(NormaliseId(fileId)), None)) == Some(k)
    requires k < |records| && Gate(records[k], caller).None?
    ensures Resolve(records, fileId, downloadParam, caller, sniff, byName)
      == Served(records[k].content, ContentType(sniff(records[k].content), byName(records[k].filename)),
                Disposition(Truthy(downloadParam), records[k].filename))
  {
  }

  /** `getEndpoint`: normalise the id, run the cursor over the documents with
      that short id keeping the last, then apply the gate and pick the headers. */
  method GetEndpoint(bucket: Catalogue.FileBucket, fileId: string, downloadParam: Option<string>,
                     caller: Option<UserId>, sniff: seq<bv8> -> Option<string>,
                     byName: string -> Option<string>) returns (reply: DownloadReply)
    ensures reply == Resolve(bucket.records, fileId, downloadParam, caller, sniff, byName)
  {
    var download := Truthy(downloadParam);
    var id := NormaliseId(fileId);
    var q := Query(Some(id), None);
    var file: Option<nat> := None;
    var i := 0;
    while i < |bucket.records|
      invariant 0 <= i <= |bucket.records|
      invariant file == LastMatch(bucket.records[..i], q)
    {
      assert bucket.records[..i + 1][..i] == bucket.records[..i];
      if Matches(bucket.records[i], q) {
        file := Some(i);
      }
      i := i + 1;
    }
    assert bucket.records[..i] == bucket.records;
    if file.None? {
      return NotFound;
    }
    var doc := bucket.records[file.value];
    if doc.metadata.private {
      if caller.None? {
        return Unauthorized;
      }
      if caller.value != doc.metadata.uploadedBy {
        return Forbidden;
      }
    }
    var mimeType := ContentType(sniff(doc.content), byName(doc.filename));
    reply := Served(doc.content, mimeType, Disposition(download, doc.filename));
  }
}
