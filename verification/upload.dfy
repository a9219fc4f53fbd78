/** The upload route `uploadEndpoint` of src/routes/v1/file.ts, serving
    `PUT /v1/file` and, in its legacy form, `POST /upload`. */
module Upload {
  import opened Options
  import opened JsText
  import opened Base64Url
  import opened Catalogue
  import Download

  /** One multipart file as the form parser hands it over. */
  datatype UploadedPart = UploadedPart(originalname: string, content: seq<bv8>)

  /** What the authenticated token says about its account. */
  datatype Token = Token(user: UserId, persistAll: bool, defaultTags: Option<seq<string>>)

  /** The request headers the route reads: `w-private`, `w-tags`, `w-domains`. */
  datatype UploadHeaders = UploadHeaders(private: Option<string>, tags: Option<string>, domains: Option<string>)

  /** What each finished upload reports. */
  datatype UploadResult = UploadResult(id: string, extension: string)

  /** The answer: an error, the v1 structured list, or the legacy bare string
      or string list. */
  datatype UploadReply =
    | BadRequest(message: string)
    | Uploaded(urls: seq<string>)
    | LegacyOne(url: string)
    | LegacyMany(urls: seq<string>)

  const MaxBatch: nat := 10

  /** The batch check: absent, empty and oversized batches are refused with
      the route's messages. */
  function CheckBatch(files: Option<seq<UploadedPart>>): (error: Option<string>)
    ensures error.None? <==> files.Some? && 1 <= |files.value| <= MaxBatch
    ensures files.None? || |files.value| < 1 ==>
      error == Some("Upload at least one file in multipart/form-data request")
    ensures files.Some? && |files.value| > MaxBatch ==>
      error == Some("Upload a maximum of 10 files at a time.")
  {
    if files.None? || |files.value| < 1 then Some("Upload at least one file in multipart/form-data request")
    else if |files.value| > MaxBatch then Some("Upload a maximum of 10 files at a time.")
    else None
  }

  /** `filter(t => t.trim().length > 0)`. */
  function NonBlank(parts: seq<string>): seq<string>
  {
    if parts == [] then []
    else NonBlank(parts[..|parts| - 1])
         + (if IsBlank(parts[|parts| - 1]) then [] else [parts[|parts| - 1]])
  }

  /** The filter keeps order: it maps a concatenation to the concatenation
      of its results. */
  lemma {:induction false} NonBlankAppend(a: seq<string>, b: seq<string>)
    ensures NonBlank(a + b) == NonBlank(a) + NonBlank(b)
    decreases |b|
  {
    if b == [] {
      assert a + b == a;
    } else {
      var init := b[..|b| - 1];
      NonBlankAppend(a, init);
      assert (a + b)[..|a + b| - 1] == a + init;
    }
  }

  /** The filter drops exactly the blank entries: every other entry survives
      as often as it occurs. */
  lemma {:induction false} NonBlankCounts(a: seq<string>)
    ensures forall t :: multiset(NonBlank(a))[t] == if IsBlank(t) then 0 else multiset(a)[t]
  {
    if a != [] {
      var init := a[..|a| - 1];
      NonBlankCounts(init);
      assert a == init + [a[|a| - 1]];
    }
  }

  /** The tags `w-tags` contributes: its `;`-separated non-blank entries when
      the header is sent, `api upload` when it is not. */
  function HeaderTags(header: Option<string>): seq<string>
  {
    if header.None? then ["api upload"] else NonBlank(Split(header.value, ';'))
  }

  /** A new file's tags: the token's default tags, then the header's. */
  function MergeTags(defaultTags: Option<seq<string>>, header: Option<string>): seq<string>
  {
    (if defaultTags.Some? then defaultTags.value else []) + HeaderTags(header)
  }

  /** An entry survives the filter exactly when it is present and not blank. */
  lemma NonBlankMembers(parts: seq<string>)
    ensures forall t :: t in NonBlank(parts) <==> t in parts && !IsBlank(t)
  {
    NonBlankCounts(parts);
    forall t ensures t in NonBlank(parts) <==> t in parts && !IsBlank(t) {
      assert t in NonBlank(parts) <==> multiset(NonBlank(parts))[t] > 0;
      assert t in parts <==> multiset(parts)[t] > 0;
    }
  }

  /** The tags a sent `w-tags` header contributes: its non-blank entries, none
      holding a `;`, and none at all when every entry is blank. */
  lemma SentHeaderTags(header: string)
    ensures var pieces := Split(header, ';');
      var extra := HeaderTags(Some(header));
      && (forall t :: t in extra <==> t in pieces && !IsBlank(t))
      && (forall i :: 0 <= i < |extra| ==> ';' !in extra[i] && !IsBlank(extra[i]))
      && ((forall t :: t in pieces ==> IsBlank(t)) ==> extra == [])
  {
    var pieces := Split(header, ';');
    var extra := HeaderTags(Some(header));
    NonBlankMembers(pieces);
    SplitPiecesOmitSeparator(header, ';');
    forall i | 0 <= i < |extra| ensures ';' !in extra[i] && !IsBlank(extra[i]) {
      assert extra[i] in extra;
    }
    if extra != [] {
      assert extra[0] in pieces && !IsBlank(extra[0]);
    }
  }

  /** The token's defaults come first; `api upload` is added only when the
      header is absent; a sent header contributes exactly its non-blank
      entries, none holding a `;`, and nothing when every entry is blank. */
  lemma MergeTagsSpec(defaultTags: Option<seq<string>>, header: Option<string>)
    ensures var defaults := if defaultTags.Some? then defaultTags.value else [];
      var tags := MergeTags(defaultTags, header);
      && |defaults| <= |tags| && tags[..|defaults|] == defaults
      && (header.None? ==> tags == defaults + ["api upload"])
      && (header.Some? ==>
            && (forall t :: t in tags[|defaults|..] <==> t in Split(header.value, ';') && !IsBlank(t))
            && (forall i :: |defaults| <= i < |tags| ==> ';' !in tags[i] && !IsBlank(tags[i]))
            && ((forall t :: t in Split(header.value, ';') ==> IsBlank(t)) ==> tags == defaults))
  {
    var defaults := if defaultTags.Some? then defaultTags.value else [];
    var extra := HeaderTags(header);
    var tags := MergeTags(defaultTags, header);
    assert tags == defaults + extra;
    assert tags[..|defaults|] == defaults && tags[|defaults|..] == extra;
    if header.Some? {
      SentHeaderTags(header.value);
      forall i | |defaults| <= i < |tags| ensures ';' !in tags[i] && !IsBlank(tags[i]) {
        assert tags[i] == extra[i - |defaults|];
      }
      if extra == [] {
        assert tags == defaults;
      }
    }
  }

  /** The extension reported for a file: what follows the last `.` of its
      original name, or the whole name when it has none. */
  function Extension(originalname: string): string
  {
    var parts := Split(originalname, '.');
    parts[|parts| - 1]
  }

  lemma ExtensionSpec(originalname: string)
    ensures var ext := Extension(originalname);
      |ext| <= |originalname| && originalname[|originalname| - |ext|..] == ext && '.' !in ext
      && ('.' in originalname ==> |ext| < |originalname| && originalname[|originalname| - |ext| - 1] == '.')
      && ('.' !in originalname ==> ext == originalname)
  {
    LastPiece(originalname, '.');
  }

  /** `http://` only in the `local` environment. */
  function Protocol(env: Option<string>): string
  {
    if env == Some("local") then "http://" else "https://"
  }

  /** The configured host of each environment. */
  function EnvAliases(env: Option<string>): seq<string>
  {
    if env == Some("local") then ["localhost:45303"]
    else if env == Some("dev") then ["phoenix.wanderers.cloud"]
    else ["wanderers.cloud"]
  }

  /** The hosts to choose from: the `;`-separated `w-domains` entries when
      that header is non-empty, otherwise the environment's host. */
  function HostAliases(env: Option<string>, domains: Option<string>): seq<string>
  {
    if Truthy(domains) then Split(domains.value, ';') else EnvAliases(env)
  }

  lemma HostAliasesSpec(env: Option<string>, domains: Option<string>)
    ensures var aliases := HostAliases(env, domains);
      |aliases| >= 1
      && (Truthy(domains) ==> Join(aliases, ';') == domains.value
                              && forall i :: 0 <= i < |aliases| ==> ';' !in aliases[i])
      && (!Truthy(domains) ==> aliases == EnvAliases(env) && |aliases| == 1)
  {
    if Truthy(domains) {
      JoinSplit(domains.value, ';');
      SplitPiecesOmitSeparator(domains.value, ';');
    }
  }

  /** `Math.floor(random * n)` for a `Math.random()` value. */
  function AliasIndex(random: real, n: nat): (i: nat)
    requires 0.0 <= random < 1.0 && n >= 1
    ensures i < n
  {
    assert 0.0 <= random * (n as real) < n as real by {
      assert random * (n as real) <= random * (n as real);
      ProductBelow(random, n as real);
    }
    (random * (n as real)).Floor
  }

  lemma ProductBelow(x: real, y: real)
    requires 0.0 <= x < 1.0 && y > 0.0
    ensures 0.0 <= x * y < y
  {
  }

  /** The host the URLs use, drawn by `random` from the aliases. */
  function PickAlias(env: Option<string>, domains: Option<string>, random: real): (alias: string)
    requires 0.0 <= random < 1.0
    ensures alias in HostAliases(env, domains)
  {
    var aliases := HostAliases(env, domains);
    aliases[AliasIndex(random, |aliases|)]
  }

  /** The start of every URL: protocol, host and the route prefix. */
  function UrlBase(protocol: string, alias: string, isOld: bool): string
  {
    protocol + alias + (if isOld then "/file/" else "/v1/file/")
  }

  /** What follows the base in a file's URL: the short id, and for the
      legacy route a `.` and the extension. */
  function Segment(isOld: bool, u: UploadResult): string
  {
    if isOld then u.id + "." + u.extension else u.id
  }

  /** The reply for a finished batch. */
  function BuildReply(isOld: bool, base: string, uploads: seq<UploadResult>): UploadReply
  {
    if !isOld then Uploaded(seq(|uploads|, i requires 0 <= i < |uploads| => base + uploads[i].id))
    else if |uploads| == 1 then LegacyOne(base + uploads[0].id + "." + uploads[0].extension)
    else LegacyMany(seq(|uploads|, i requires 0 <= i < |uploads| => base + uploads[i].id + "." + uploads[i].extension))
  }

  /** The URLs a reply carries. */
  function Urls(reply: UploadReply): seq<string>
  {
    match reply
    case BadRequest(_) => []
    case Uploaded(urls) => urls
    case LegacyOne(url) => [url]
    case LegacyMany(urls) => urls
  }

  /** One URL per upload, in order, each the base followed by that upload's
      segment; the legacy route gives a bare string exactly for a single file. */
  lemma ReplyUrls(isOld: bool, base: string, uploads: seq<UploadResult>)
    ensures var reply := BuildReply(isOld, base, uploads);
      |Urls(reply)| == |uploads|
      && (forall i :: 0 <= i < |uploads| ==> Urls(reply)[i] == base + Segment(isOld, uploads[i]))
      && (!isOld ==> reply.Uploaded?)
      && (isOld ==> (reply.LegacyOne? <==> |uploads| == 1) && (reply.LegacyMany? <==> |uploads| != 1))
  {
    var reply := BuildReply(isOld, base, uploads);
    if isOld && |uploads| == 1 {
      assert Urls(reply)[0] == base + (uploads[0].id + "." + uploads[0].extension);
    } else if isOld {
      forall i | 0 <= i < |uploads| ensures Urls(reply)[i] == base + Segment(isOld, uploads[i]) {
        assert Urls(reply)[i] == base + uploads[i].id + "." + uploads[i].extension;
      }
    }
  }

  /** Every URL is protocol, host and route prefix followed by the file's
      segment; the protocol is `http://` exactly in the `local` environment
      and the host is one of the aliases on offer. */
  lemma UrlShape(isOld: bool, env: Option<string>, domains: Option<string>, random: real,
                 uploads: seq<UploadResult>)
    requires 0.0 <= random < 1.0
    ensures var protocol := Protocol(env);
      var alias := PickAlias(env, domains, random);
      var urls := Urls(BuildReply(isOld, UrlBase(protocol, alias, isOld), uploads));
      (protocol == "http://" <==> env == Some("local"))
      && (protocol == "http://" || protocol == "https://")
      && alias in HostAliases(env, domains)
      && |urls| == |uploads|
      && forall i :: 0 <= i < |urls| ==>
           urls[i] == protocol + alias + (if isOld then "/file/" else "/v1/file/") + Segment(isOld, uploads[i])
  {
    var protocol := Protocol(env);
    var alias := PickAlias(env, domains, random);
    var base := UrlBase(protocol, alias, isOld);
    ReplyUrls(isOld, base, uploads);
  }

  /** The metadata a request gives every file of its batch. */
  function RequestMetadata(shortId: string, token: Token, headers: UploadHeaders): Metadata
  {
    Metadata(shortId, token.user, Truthy(headers.private), token.persistAll,
             MergeTags(token.defaultTags, headers.tags))
  }

  /** The short ids of a batch, one per draw of random bytes; none holds a `.`. */
  function ShortIds(randomIds: seq<RandomBytes>): (ids: seq<string>)
    ensures |ids| == |randomIds|
    ensures forall i :: 0 <= i < |ids| ==> '.' !in ids[i]
  {
    seq(|randomIds|, i requires 0 <= i < |randomIds| => ShortId(randomIds[i]))
  }

  /** What each upload of the batch reports: its short id and its extension. */
  function Results(files: seq<UploadedPart>, ids: seq<string>): seq<UploadResult>
    requires |ids| == |files|
  {
    seq(|files|, i requires 0 <= i < |files| => UploadResult(ids[i], Extension(files[i].originalname)))
  }

  /** The documents a batch adds: one per file, in order, with fresh `_id`s from `start` on. */
  function NewRecords(start: nat, files: seq<UploadedPart>, ids: seq<string>,
                      token: Token, headers: UploadHeaders): seq<FileRecord>
    requires |ids| == |files|
  {
    seq(|files|, i requires 0 <= i < |files| =>
      FileRecord(start + i, files[i].originalname, files[i].content,
                 RequestMetadata(ids[i], token, headers)))
  }

  /** The per-file pipelines of `uploadEndpoint`, run in input order: each
      file is stored under a fresh short id with the request's metadata and
      reports its id and extension. */
  method StoreFiles(bucket: FileBucket, parts: seq<UploadedPart>, randomIds: seq<RandomBytes>,
                    token: Token, headers: UploadHeaders) returns (uploads: seq<UploadResult>)
    requires bucket.Valid() && |randomIds| == |parts|
    modifies bucket
    ensures bucket.Valid()
    ensures bucket.nextId == old(bucket.nextId) + |parts|
    ensures bucket.records == old(bucket.records) + NewRecords(old(bucket.nextId), parts, ShortIds(randomIds), token, headers)
    ensures uploads == Results(parts, ShortIds(randomIds))
  {
    ghost var ids := ShortIds(randomIds);
    ghost var added := NewRecords(bucket.nextId, parts, ids, token, headers);
    ghost var results := Results(parts, ids);
    uploads := [];
    var i := 0;
    while i < |parts|
      invariant 0 <= i <= |parts|
      invariant bucket.Valid()
      invariant bucket.nextId == old(bucket.nextId) + i
      invariant bucket.records == old(bucket.records) + added[..i]
      invariant uploads == results[..i]
    {
      var shortId := ShortId(randomIds[i]);
      assert shortId == ids[i];
      var id := bucket.Insert(parts[i].originalname, parts[i].content, RequestMetadata(shortId, token, headers));
      assert FileRecord(id, parts[i].originalname, parts[i].content, RequestMetadata(shortId, token, headers)) == added[i];
      assert added[..i + 1] == added[..i] + [added[i]];
      var fileNameParts := Split(parts[i].originalname, '.');
      uploads := uploads + [UploadResult(shortId, fileNameParts[|fileNameParts| - 1])];
      assert UploadResult(shortId, fileNameParts[|fileNameParts| - 1]) == results[i];
      assert results[..i + 1] == results[..i] + [results[i]];
      i := i + 1;
    }
    assert added[..i] == added;
    assert results[..i] == results;
  }

  /** The environment switch and the `w-domains` override of `uploadEndpoint`:
      the protocol and the host its URLs use. */
  method ChooseHost(env: Option<string>, domains: Option<string>, random: real)
    returns (protocol: string, alias: string)
    requires 0.0 <= random < 1.0
    ensures protocol == Protocol(env) && alias == PickAlias(env, domains, random)
  {
    var aliasesToUse: seq<string>;
    protocol := "https://";
    if env == Some("local") {
      aliasesToUse := ["localhost:45303"];
      protocol := "http://";
    } else if env == Some("dev") {
      aliasesToUse := ["phoenix.wanderers.cloud"];
    } else {
      aliasesToUse := ["wanderers.cloud"];
    }
    if Truthy(domains) {
      aliasesToUse := Split(domains.value, ';');
    }
    alias := aliasesToUse[AliasIndex(random, |aliasesToUse|)];
  }

  /** `uploadEndpoint`: check the batch, store every file with its metadata,
      pick protocol and host, and answer in the route's format. `randomIds`
      are the bytes `crypto.randomBytes` draws per file and `random` the
      `Math.random()` value. */
  method UploadEndpoint(bucket: FileBucket, isOld: bool, files: Option<seq<UploadedPart>>,
                        headers: UploadHeaders, token: Token, env: Option<string>,
                        randomIds: seq<RandomBytes>, random: real) returns (reply: UploadReply)
    requires bucket.Valid()
    requires files.Some? ==> |randomIds| == |files.value|
    requires 0.0 <= random < 1.0
    modifies bucket
    ensures bucket.Valid()
    ensures CheckBatch(files).Some? ==>
      reply == BadRequest(CheckBatch(files).value)
      && bucket.records == old(bucket.records) && bucket.nextId == old(bucket.nextId)
    ensures CheckBatch(files).None? ==>
      bucket.nextId == old(bucket.nextId) + |files.value|
      && bucket.records == old(bucket.records) + NewRecords(old(bucket.nextId), files.value, ShortIds(randomIds), token, headers)
      && reply == BuildReply(isOld, UrlBase(Protocol(env), PickAlias(env, headers.domains, random), isOld),
                             Results(files.value, ShortIds(randomIds)))
  {
    var error := CheckBatch(files);
    if error.Some? {
      return BadRequest(error.value);
    }
    var uploads := StoreFiles(bucket, files.value, randomIds, token, headers);
    var protocol, alias := ChooseHost(env, headers.domains, random);
    var urlBase := UrlBase(protocol, alias, isOld);
    reply := BuildReply(isOld, urlBase, uploads);
  }

  /** Round trip: right after a batch is stored, the request for any of its
      URLs serves that file's bytes back (to anyone for a public file, to the
      uploader for a private one), unless a later file of the same batch drew
      the same short id. Short ids are dot-free, as `Base64Url.ShortId` ensures. */
  lemma UploadThenDownload(records: seq<FileRecord>, start: nat, files: seq<UploadedPart>,
                           ids: seq<string>, token: Token, headers: UploadHeaders,
                           isOld: bool, base: string, i: nat,
                           downloadParam: Option<string>, caller: Option<UserId>,
                           sniff: seq<bv8> -> Option<string>, byName: string -> Option<string>)
    requires |ids| == |files| && i < |files| && '.' !in ids[i]
    requires forall j :: i < j < |files| ==> ids[j] != ids[i]
    requires !Truthy(headers.private) || caller == Some(token.user)
    ensures var uploads := Results(files, ids);
      var urls := Urls(BuildReply(isOld, base, uploads));
      var segment := Segment(isOld, uploads[i]);
      |urls| == |files| && urls[i] == base + segment
      && Download.Resolve(records + NewRecords(start, files, ids, token, headers),
                          segment, downloadParam, caller, sniff, byName)
         == Download.Served(files[i].content,
                            Download.ContentType(sniff(files[i].content), byName(files[i].originalname)),
                            Download.Disposition(Truthy(downloadParam), files[i].originalname))
  {
    var uploads := Results(files, ids);
    ReplyUrls(isOld, base, uploads);
    var segment := Segment(isOld, uploads[i]);
    var added := NewRecords(start, files, ids, token, headers);
    var all := records + added;
    Download.NormaliseIdDropsExtension(ids[i], uploads[i].extension);
    assert Download.NormaliseId(segment) == ids[i];
    LastOfBatch(records, start, files, ids, token, headers, i);
    assert all[|records| + i] == added[i];
    Download.ResolveServed(all, segment, downloadParam, caller, sniff, byName, |records| + i);
  }

  /** Among the catalogue extended by a batch, the last document with the
      short id of file `i` is that file's, when no later file of the batch
      has the same id. */
  lemma LastOfBatch(records: seq<FileRecord>, start: nat, files: seq<UploadedPart>,
                    ids: seq<string>, token: Token, headers: UploadHeaders, i: nat)
    requires |ids| == |files| && i < |files|
    requires forall j :: i < j < |files| ==> ids[j] != ids[i]
    ensures var all := records + NewRecords(start, files, ids, token, headers);
      LastMatch(all, Query(Some(ids[i]), None)) == Some(|records| + i)
  {
    var added := NewRecords(start, files, ids, token, headers);
    var all := records + added;
    var q := Query(Some(ids[i]), None);
    var k := |records| + i;
    assert all[k] == added[i];
    forall j | k < j < |all| ensures !Matches(all[j], q) {
      assert all[j] == added[j - |records|];
    }
    LastMatchIs(all, q, k);
  }
}
