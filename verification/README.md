# File routes of the wanderers API, modelled in Dafny

This project models the file routes of the wanderers API (`src/routes/v1/file.ts`),
an Express router over a GridFS bucket. It models the deterministic rules inside
the handlers. The catalogue is a `FileBucket` class holding the file documents in
insertion order. Each document has an internal `_id`, the original file name, the
content and the upload metadata: short id, uploader, `private`, `persistent`, tags.

- **Download** (`getEndpoint`):
  - The requested id is cut at its first `.`.
  - The last document with that short id is chosen; with none, the reply is NotFound.
  - Access gate: a public file is served to anyone. A private file is served only to its uploader.
  - The content type is the sniffed type, else the type for the file name, else `application/octet-stream`.
  - The disposition is `attachment` or `inline`, and carries the quoted file name.
- **Upload** (`uploadEndpoint`):
  - A batch must hold 1 to 10 files.
  - Every file gets a base64url short id made from four random bytes, plus the request's metadata and merged tags.
  - The protocol and host come from the environment or from the `w-domains` header.
  - The reply is the v1 URL list, or the legacy bare string or string list (legacy URLs end in `.ext`).
- **Delete and list**: both are scoped to the authenticated owner.

Foreign behaviour becomes parameters:
- the random bytes of each short id (`crypto.randomBytes(4)`);
- the `Math.random()` value;
- the `WC_ENV` environment variable;
- the content sniffer (`file-type`) and the extension table (`mime-types`), as functions returning an optional type;
- the authenticated account, as an optional user id.

Files: `options.dfy` (optional values, JavaScript truthiness), `js_text.dfy` (`split`,
`join`, `trim`), `base64url.dfy` (short ids), `catalogue.dfy` (documents, queries, the
bucket), `download.dfy`, `upload.dfy`, `manage.dfy`.

Points where the model makes a choice:
- A private file requested without a valid token never reaches the ownership
  check (`src/routes/v1/file.ts:59`); `AuthPermitPermanent` (line 58) decides first.
  The model assumes that middleware refuses the request with `Unauthorized`.
  `Forbidden` goes only to an authenticated caller who is not the uploader.
- `!!req.headers["w-private"]` and `!!req.query.download` are false for an empty value.
  So a file is private when the header is present and non-empty, not merely present.
- Delete looks the id up exactly as sent. It does not cut an extension as download does.

## Model

| member | source | states |
|---|---|---|
| `JsText.JoinSplit` | src/routes/v1/file.ts:28 | joining the pieces of a `split` with the separator gives back the string |
| `JsText.SplitJoin` | src/routes/v1/file.ts:113 | splitting a join of separator-free pieces gives back the pieces |
| `JsText.BlankIffAllWhiteSpace` | src/routes/v1/file.ts:83 | `t.trim().length > 0` fails exactly when every character is white space |
| `Base64Url.ShortId` | src/routes/v1/file.ts:75 | a short id is six URL-safe characters, holding no `.`, `;` or `/` |
| `Base64Url.DecodeEncode` | src/routes/v1/file.ts:75 | base64url decoding inverts the encoding for every byte sequence |
| `Base64Url.ShortIdInjective` | src/routes/v1/file.ts:75 | two short ids are equal exactly when their random bytes are, so there are 2^32 ids |
| `Catalogue.LastMatch` | src/routes/v1/file.ts:30-34 | the kept document matches the filter and no later one does; none is kept only when nothing matches |
| `Catalogue.SelectCounts` | src/routes/v1/file.ts:166-172 | a cursor yields each matching document as often as the catalogue holds it, and nothing else |
| `Catalogue.SelectAppend` | src/routes/v1/file.ts:169-172 | a cursor keeps catalogue order |
| `Catalogue.WithoutIdAt` | src/routes/v1/file.ts:154 | with unique `_id`s, deleting by `_id` removes exactly the document at that position |
| `Catalogue.FileBucket.Insert` | src/routes/v1/file.ts:76-88 | a finished upload appends one document with a fresh `_id`; `_id`s stay unique |
| `Catalogue.FileBucket.Delete` | src/routes/v1/file.ts:154 | the document with that `_id` goes, the rest stay in order, `_id`s stay unique |
| `Download.NormaliseIdCutsAtFirstDot` | src/routes/v1/file.ts:28 | the looked-up id is the prefix before the first `.`, has no `.`, and is the whole request when it has no `.` |
| `Download.NormaliseIdIdempotent` | src/routes/v1/file.ts:28 | normalising twice equals normalising once |
| `Download.NormaliseIdDropsExtension` | src/routes/v1/file.ts:28 | a dot-free id, with or without `.ext` appended, normalises to itself |
| `Download.ContentType` | src/routes/v1/file.ts:41-49 | the content type is never empty: the sniffed type, else the name's type, else `application/octet-stream` |
| `Download.DispositionRoundTrip` | src/routes/v1/file.ts:51 | the disposition header reads back as the download flag (`attachment` iff truthy) and the stored file name |
| `Download.Gate` | src/routes/v1/file.ts:57-61 | a file passes the gate iff it is public or the caller is its uploader; a refusal is Unauthorized without a token and Forbidden otherwise |
| `Download.ResolveOutcome` | src/routes/v1/file.ts:26-62 | NotFound iff no document has the normalised id; otherwise the last such document decides, served byte for byte when the gate allows |
| `Download.GetEndpoint` | src/routes/v1/file.ts:26-62 | the cursor loop and the gate compute the resolved reply |
| `Upload.CheckBatch` | src/routes/v1/file.ts:68-69 | a batch passes iff it is present and holds 1 to 10 files; the two refusals carry the route's messages |
| `Upload.NonBlankAppend` | src/routes/v1/file.ts:83 | the tag filter keeps order: filtering a concatenation concatenates the filtered parts |
| `Upload.NonBlankCounts` | src/routes/v1/file.ts:83 | the tag filter keeps each entry as often as it occurs unless it is blank, and drops every blank one |
| `Upload.MergeTagsSpec` | src/routes/v1/file.ts:83 | tags are the token's defaults, then the header's non-blank `;` entries; `api upload` only without the header; nothing from an all-blank header |
| `Upload.ExtensionSpec` | src/routes/v1/file.ts:89-90 | the extension is the dot-free suffix after the last `.`, or the whole name without a `.` |
| `Upload.HostAliasesSpec` | src/routes/v1/file.ts:97-113 | the aliases are never empty: the `;` entries of a non-empty `w-domains` (joining back to it), else the environment's single host |
| `Upload.AliasIndex` | src/routes/v1/file.ts:114 | `Math.floor(Math.random() * n)` is a valid index into the aliases |
| `Upload.PickAlias` | src/routes/v1/file.ts:113-114 | the chosen host is one of the aliases on offer |
| `Upload.ChooseHost` | src/routes/v1/file.ts:97-114 | the environment switch and the override compute the protocol and the chosen host |
| `Upload.ReplyUrls` | src/routes/v1/file.ts:119-131 | one URL per upload in input order, each the base plus the id (v1) or id `.` extension (legacy); the legacy reply is a bare string iff there is one file |
| `Upload.UrlShape` | src/routes/v1/file.ts:97-130 | every URL is protocol + host + `/file/` or `/v1/file/` + segment; `http://` iff the environment is `local`; the host is an offered alias |
| `Upload.ShortIds` | src/routes/v1/file.ts:75 | each file of a batch draws its own short id, and none of them holds a `.` |
| `Upload.StoreFiles` | src/routes/v1/file.ts:73-92 | each file is stored in order, with its bytes, a fresh `_id`, its short id, the uploader, the private and persistent flags and the merged tags; each reports id and extension |
| `Upload.UploadEndpoint` | src/routes/v1/file.ts:65-133 | a refused batch leaves the catalogue unchanged; an accepted one appends one document per file and answers with the URLs |
| `Upload.UploadThenDownload` | src/routes/v1/file.ts:116-130 | right after an upload, requesting a returned URL serves the file's bytes back to anyone allowed by the gate, unless a later file of the batch drew the same id |
| `Upload.LastOfBatch` | src/routes/v1/file.ts:73-92 | after a batch is stored, the last document carrying a file's short id is that file's own, unless a later file of the batch drew the same id |
| `Manage.DeleteEndpoint` | src/routes/v1/file.ts:145-163 | NotFound with the catalogue unchanged when the caller owns no document with the id; otherwise exactly the last such document is removed |
| `Manage.ListEndpoint` | src/routes/v1/file.ts:165-180 | the pushed list is the caller's documents in catalogue order |
| `Manage.ListIsOwned` | src/routes/v1/file.ts:166-172 | the listing holds every one of the caller's documents, as often as stored, no one else's, in order |
| `Manage.DeleteThenDownload` | src/routes/v1/file.ts:147-154 | after a delete the document is gone and the others remain; its short id then gives NotFound when no other document shares it |

## Left out

- Express routing, the reply classes and their fixed messages ("Upload complete", "File deleted", "Files listed"), and response serialisation: these are transport.
- The authentication middleware (`src/middleware/Auth.js` is not part of this model). Its outcome is a parameter: an optional authenticated user id, plus the token's `persistAll` flag and default tags. `Download.Gate`'s `Unauthorized` for a private file without a token is an assumption about `AuthPermitPermanent`, not something the route's code shows.
- The try/catch of the delete route, which turns a storage failure into ServerError and logs it. Storage never fails in the model.
- Multer's temporary disk storage, its random temporary file names, and `fs.createReadStream`: these are file I/O.
- GridFS chunking, the upload and download streams, piping and `finish` events. A document holds its whole content, and content is served unchanged. Upload stream errors are not modelled; the code does not handle them either.
- `file-type` and `mime-types` are foreign. They are function parameters with no assumed behaviour.
- Concurrency of `Promise.all`: the files of a batch are stored in input order. The order in which the real uploads complete, and hence their order in the bucket, is not modelled.
- `Upload.AliasIndex`: treats `Math.random()` as an exact real in [0, 1). Floating-point rounding of the product is not modelled.
- Cursor order: none of the `find` cursors is sorted, and MongoDB does not promise natural order. The model takes cursor order to be insertion order (`Catalogue.FileBucket.Insert` appends). Download's "last match wins", delete's removal of the last owned match, and the listing's order all rest on that choice.
- MongoDB ObjectIds are modelled as a counter kept by the bucket. This gives the uniqueness of `_id`s, not their format.
- Query and header values that Express delivers as arrays, or as objects, are not modelled. Every header and query value is an optional string.
- Short-id collisions are not prevented by the code, and the model does not prevent them. `Upload.UploadThenDownload` states the round trip only for a file that no later file of its batch collides with. Earlier documents with the same short id do not matter, because the last match in cursor order (taken as insertion order, see above) wins.
