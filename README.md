# gpup upload pipeline, modelled in Dafny

gpup uploads photos and videos to Google Photos from local paths and from
URLs. This project models the upload pipeline of `cli/upload.go`:

- `NeedUpload` hashes a file's contents (lower-case hex of its MD5 digest)
  and checks the hash against `CLI.FileHash`, the set of hashes already
  uploaded. A hash it has not seen is reserved in the set at once, so a
  second file with the same bytes in the same run is skipped.
- `findUploadItems` turns each argument into upload items. An
  `http://` or `https://` argument becomes one request item with an empty
  hash. It carries the basic-auth user and password and the headers, each
  split on its first colon, the headers trimmed. Any other argument is
  walked: regular files that need upload become file items with their
  hashes, other entries are ignored, and a walk error aborts everything with
  an error naming the root.
- `upload` rejects an empty argument list and an empty resolution. It sends
  the batch to an existing album, a new album or the library, in that order
  of precedence. It then reports every result and appends the raw 16-byte
  digest of each successful item with a hash to the ledger (cache) file.

Modules, one per file:

- `Basics` (basics.dfy): `Option`, bytes and 16-byte digests.
- `Hex` (hex.dfy): `%x` on bytes and `hex.DecodeString`, with their round trips.
- `Text` (text.dfy): `strings.TrimSpace`, `SplitN(s, ":", 2)` and `strings.Join`.
- `Items` (items.dfy): upload items, requests, walk entries, the environment
  and the photo service as the pipeline sees them, and the error messages.
- `Resolve` (resolve.dfy): the specification functions of `NeedUpload` and
  `findUploadItems` (`ProbeFile`, `Visit`, `WalkFrom`, `ResolveArg`,
  `ResolveFrom`, `Resolution0`) and the lemmas about them.
- `Dispatch` (dispatch.dfy): the choice of remote operation.
- `Report` (report.dfy): report lines, the bytes appended to the ledger file,
  and `Load`, which reads a ledger file back as a set of hashes.
- `Cli` (cli.dfy): class `Cli`, which holds the options and the mutable
  `fileHash` set, and class `LedgerFile`. Their methods are written as loops,
  in the shape of the Go code, and each is proved to compute the
  specification function it corresponds to.

The file system, MD5, `http.NewRequest` and the photo service are
parameters. `Env` gives the entries `filepath.Walk` visits under a root, the
outcome of reading a path, the MD5 function, and whether a URL is refused.
`Service` gives the client set-up error and the answers of the three remote
operations. A ledger file that could not be opened is a `null` `LedgerFile`.

## Model

| member | source | states |
|---|---|---|
| Items.Message | cli/upload.go:20-113 | the text of each error as the program formats it: "Nothing to upload", "Nothing to upload in" with the paths, "Could not parse URL: " and "Error while finding files in <root>: " |
| Text.Join | cli/upload.go:27 | the paths separated by ", ", as `strings.Join` writes them |
| Hex.Encode | cli/upload.go:131 | `%x` of n bytes is 2n lower-case hex digits |
| Hex.Decode | cli/upload.go:65 | decoding succeeds exactly for even-length strings of hex digits (either case), with half as many bytes |
| Hex.DigitValue | cli/upload.go:65 | a digit of either case has a value below 16; any other character has none |
| Hex.DigitRoundTrip | cli/upload.go:131 | each nibble's lower-case digit reads back as that nibble |
| Hex.DecodeEncode | cli/upload.go:65 | decoding the `%x` text of any bytes gives those bytes back |
| Hex.EncodeDecode | cli/upload.go:65 | a lower-case hex string that decodes re-encodes to itself |
| Hex.EncodeInjective | cli/upload.go:131 | different digests have different hash strings |
| Text.LeadingSpace | cli/upload.go:91 | counts the white-space prefix and stops at the first other character |
| Text.TrailingSpace | cli/upload.go:91 | counts the white-space suffix and stops at the last other character |
| Text.TrimSpace | cli/upload.go:91 | the result is the input with leading and trailing Unicode white space removed, and neither starts nor ends with white space |
| Text.IndexOf | cli/upload.go:86 | for a string holding the character: the position of its first occurrence, with none before it |
| Text.SplitColon | cli/upload.go:86-87 | the parts before and after the first colon rebuild the input, and the first part holds no colon |
| Text.IndexOfUnique | cli/upload.go:90 | a position holding the character with none before it is the first occurrence |
| Text.SplitColonUnique | cli/upload.go:90 | any split into a colon-free key, a colon and a value is the one SplitColon gives |
| Resolve.IsUrl | cli/upload.go:80 | an argument is fetched exactly when it starts with `http://` or `https://` |
| Resolve.HeaderPair | cli/upload.go:90-91 | a header string becomes its trimmed parts around the first colon (HeaderPairParts states the split) |
| Resolve.RequestFor | cli/upload.go:81-92 | the request keeps the URL; it has basic auth exactly when the flag is set, with a colon-free user that rebuilds the flag with the password; header pair i is the trimmed key and value around the first colon of header string i |
| Resolve.Visit | cli/upload.go:103-108 | the callback on a regular file emits at most one item, a file item for that path, and leaves a readable file's hash in the set |
| Resolve.HashOf | cli/upload.go:127-131 | a file's hash is 32 lower-case hex digits that decode to its MD5 digest |
| Resolve.ProbeFile | cli/upload.go:120-137 | an unopenable or unreadable file gives (false, ""); a readable one gives its hash, and needs upload exactly when the hash is not yet known |
| Resolve.HeaderPairParts | cli/upload.go:89-92 | a `key:value` header with a colon-free key becomes the trimmed key and the trimmed value; later colons stay in the value |
| Resolve.WalkFrom | cli/upload.go:99-114 | the walk keeps items and hashes equally long and only adds to the known set, also when it aborts |
| Resolve.ResolveArg | cli/upload.go:80-114 | one argument keeps items and hashes equally long and only adds to the known set |
| Resolve.ResolveFrom | cli/upload.go:78-117 | the remaining arguments keep items and hashes equally long and only add to the known set |
| Resolve.Resolution0 | cli/upload.go:74-118 | a successful resolution has as many hashes as items; the known set only grows |
| Resolve.HashesAppend | cli/upload.go:106 | appending a hash adds it to the set of non-empty hashes, unless it is empty |
| Resolve.VisitKeeps | cli/upload.go:103-108 | visiting a regular file keeps items and hashes aligned, distinct, unknown beforehand and reserved, and only appends |
| Resolve.WalkKeeps | cli/upload.go:99-114 | a whole walk keeps the same invariants, and an aborted one only grows the set |
| Resolve.ArgKeeps | cli/upload.go:79-115 | one argument, URL or root, keeps the same invariants |
| Resolve.ResolveKeeps | cli/upload.go:78-117 | all arguments keep the same invariants |
| Resolve.ResolutionInvariant | cli/upload.go:74-118 | on success: items and hashes aligned (empty hash exactly for URL items, the content hash for file items), hashes pairwise distinct and new, and the set is the old set plus exactly those hashes; on failure the set only grew |
| Resolve.UploadedContentsDistinct | cli/upload.go:104-106 | no two file items of one run have the same MD5 digest |
| Resolve.KnownContentSkipped | cli/upload.go:132-134 | no file item has a hash that was known before the run |
| Resolve.UrlYieldsOneItem | cli/upload.go:80-97 | an accepted URL appends exactly one request item, with an empty hash, and leaves the set alone |
| Resolve.NonRegularEmitNothing | cli/upload.go:109-110 | entries that are not regular files change nothing |
| Resolve.WalkStopsAtFirstError | cli/upload.go:101-102 | a walk aborts with the error of its first failing entry |
| Resolve.WalkErrorAborts | cli/upload.go:112-114 | a walk with a failing entry anywhere aborts |
| Resolve.WalkErrorFailsResolution | cli/upload.go:112-114 | a walk error under any root fails the whole resolution; when the arguments before that root resolved, the error names the root and carries the walk's error |
| Resolve.WalkCovers | cli/upload.go:103-108 | after a completed walk, every readable regular file it visited has its hash in the set |
| Resolve.ResolveCovers | cli/upload.go:78-117 | after a successful resolution, every readable regular file under a walked root has its hash in the set |
| Resolve.NewContentEmitted | cli/upload.go:104-106 | a readable regular file whose hash was not known before the run is carried by a file item of the result |
| Resolve.NoRegularFilesResolveToNothing | cli/upload.go:99-117 | roots whose walks hold no regular file and no error resolve to no new items and leave the set unchanged (the case `upload` then reports as nothing to upload) |
| Resolve.DuplicateInDirectoryUploadedOnce | cli/upload.go:104-107 | a directory with two copies of X and one Y yields one item per distinct content and reserves both hashes |
| Resolve.RerunFindsNothing | cli/upload.go:132-134 | the same directory with both hashes known yields no items |
| Dispatch.Choose | cli/upload.go:43-50 | an album title wins over a new-album title, which wins over the library; exactly one target |
| Report.ReportLines | cli/upload.go:59-63 | one line per result, numbered from 1, naming the item at the same position, OK exactly when the result has no error |
| Report.Committed | cli/upload.go:60-66 | an item's digest is written exactly when its result has no error, its hash is non-empty and the hash decodes |
| Report.Persisted | cli/upload.go:59-70 | the bytes appended for the first n results: the decoded digests of the committed items, in order (PersistedLoadsCommitted states what they read back as) |
| Report.PersistedWholeRecords | cli/upload.go:64-66 | with digest-shaped hashes the appended bytes are whole 16-byte records |
| Report.PersistedStep | cli/upload.go:59-66 | each result adds to what the appended bytes read back as exactly its own hash when it is committed, and nothing otherwise |
| Report.LoadAppend | cli/upload.go:54-66 | appending to a ledger of whole records adds the records of the new bytes |
| Report.CommittedHashesStep | cli/upload.go:59-70 | each result adds its hash to the committed set exactly when it succeeded and its hash decodes |
| Report.LoadRecord | cli/upload.go:66 | one 16-byte record reads back as the hex of those bytes |
| Report.CommittedRecord | cli/upload.go:64-66 | a committed hash contributes 16 bytes that read back as that hash |
| Report.PersistedLoadsCommitted | cli/upload.go:59-70 | the appended bytes are whole records and read back as exactly the hashes of the successful items that have one |
| Report.CommittedHashLoads | cli/upload.go:64-66 | after the append, every committed hash is in the ledger |
| Report.AlignedHashesAreDigests | cli/upload.go:131 | every non-empty hash of a resolution is 32 lower-case hex digits |
| Report.UploadedFileSkippedNextRun | cli/upload.go:132-134 | a file uploaded successfully is known to the next run that reads the ledger, and its probe there says no upload |
| Cli.LedgerFile.constructor | cli/upload.go:54 | the opened ledger file holds the bytes it already had |
| Cli.LedgerFile.Write | cli/upload.go:66 | written bytes go at the end of the file |
| Cli.ParseHeaders | cli/upload.go:89-92 | one pair per header string, in order, each the trimmed parts around its first colon |
| Cli.ReportResults | cli/upload.go:59-70 | the lines are ReportLines, and an open ledger file gains exactly the digests of the successful items whose hash decodes, in order |
| Cli.Cli.constructor | cli/upload.go:18 | the options and the known set are those given |
| Cli.Cli.NeedUpload | cli/upload.go:120-137 | answers ProbeFile on the old set and reserves a hash that needs upload |
| Cli.Cli.FindUploadItems | cli/upload.go:74-118 | returns the items and hashes of Resolution0 on the old set and leaves the set as it does; on an error returns no items and the error |
| Cli.Cli.Upload | cli/upload.go:18-72 | empty paths, failed resolution, empty resolution, client failure and batch failure each return their error with no report and no ledger write; otherwise the report lines and the ledger append of ReportResults for the chosen target's results |

## Left out

- Building the OAuth2 client and `photos.New` are one `Service.setupError`: the model does not separate the two failures, which both return their error unchanged.
- The photo service's upload of bytes, albums and retries are not part of this model; each operation is a function from the batch to its results.
- `filepath.Walk` is `Env.walk`, a list of entries per root in visiting order; file modes and lexical ordering are not modelled. A symbolic link is an `OtherEntry`, as `filepath.Walk` reports it through `Lstat` as a non-regular entry and does not follow it.
- `os.Open` and `io.Copy` are `Env.open`; a read error part-way through is `ReadFailed`, and the file handle's close is not modelled.
- MD5 itself is `Env.md5`, any function to 16-byte digests.
- `http.NewRequest` is `Env.requestError`, which only says whether the URL is refused and with what text; the shared HTTP client and the request's method are not modelled.
- `SetBasicAuth` and `Header.Add` are recorded as the pairs they receive; Base64 encoding of the credentials and header-name canonicalisation are not modelled.
- The pre-flight listing on standard error and the log line are not modelled; report lines are returned as values instead of printed.
- Context cancellation is not modelled.
- Errors from `f.Write` and from closing the ledger file are ignored by the program and are not modelled.
- Loading the ledger file into `FileHash` at start-up happens outside `cli/upload.go`; `Report.Load` is only a reference reader for stating what a later run will know.
- Go strings are byte sequences; the model uses Dafny character sequences, so `TrimSpace` sees characters rather than UTF-8 bytes.
- Cli.Cli.FindUploadItems: requires well-formed credentials whenever some argument is a URL. Go panics only when it reaches the credential split of an accepted URL, so the precondition also excludes inputs where an earlier root's walk fails first, where an earlier URL is refused by `http.NewRequest` first, and where every URL is itself refused (the refusal returns before the split).
- Cli.Cli.Upload: requires that no service answer has more results than items, where Go would panic indexing the items, and CanResolve, as for FindUploadItems; nil result pointers are not modelled.
