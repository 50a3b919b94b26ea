/**
  The values the upload pipeline passes around: upload items, the entries a
  directory walk reports, the outcome of reading a file, the collaborators
  the pipeline consults (file system, MD5, request construction, the photo
  service) and the errors it returns.
*/
module Items {
  import opened Basics
  import opened Text

  /** An HTTP GET request: the URL, the basic-auth user and password, and the extra headers in order. */
  datatype Request = Request(url: string, basicAuth: Option<(string, string)>, headers: seq<(string, string)>)

  /** `photos.FileUploadItem` (a local path) or `photos.HTTPUploadItem` (a request to fetch). */
  datatype UploadItem = FileItem(path: string) | HttpItem(request: Request)

  /**
    One call of the walk callback: a regular file, any other entry
    (directory, link, device), or the error the walk passes in.
  */
  datatype WalkEntry = RegularFile(path: string) | OtherEntry(path: string) | WalkFailure(error: string)

  /** `os.Open` followed by `io.Copy` into the hash: either step can fail. */
  datatype ReadOutcome = OpenFailed | ReadFailed | Read(content: seq<byte>)

  /**
    The pipeline's view of the machine it runs on: what `filepath.Walk`
    visits under a root, what reading a path gives, the MD5 function, and
    whether `http.NewRequest` refuses a URL (with its error text).
  */
  datatype Env = Env(
    walk: string -> seq<WalkEntry>,
    open: string -> ReadOutcome,
    md5: seq<byte> -> Digest,
    requestError: string -> Option<string>)

  /** The errors `upload` returns, one constructor per `fmt.Errorf` or passed-through error. */
  datatype UploadError =
    | NothingToUpload
    | NothingToUploadIn(paths: seq<string>)
    | BadUrl(detail: string)
    | WalkFailed(root: string, detail: string)
    | ClientFailed(detail: string)
    | RemoteFailed(detail: string)

  /** The text of each error, as the format strings write it. */
  function Message(e: UploadError): string {
    match e
    case NothingToUpload => "Nothing to upload"
    case NothingToUploadIn(paths) => "Nothing to upload in " + Join(paths, ", ")
    case BadUrl(d) => "Could not parse URL: " + d
    case WalkFailed(root, d) => "Error while finding files in " + root + ": " + d
    case ClientFailed(d) => d
    case RemoteFailed(d) => d
  }

  /** `photos.AddResult`: one item's outcome, an error or none. */
  datatype AddResult = AddResult(error: Option<string>)

  /** What an album call gives back: the per-item results, or one error for the whole batch. */
  datatype BatchOutcome = Added(results: seq<AddResult>) | BatchFailed(error: string)

  /**
    The photo service as the pipeline sees it: whether building the OAuth2
    client or the service fails, and the answers of its three operations.
  */
  datatype Service = Service(
    setupError: Option<string>,
    addToAlbum: (string, seq<UploadItem>) -> BatchOutcome,
    createAlbum: (string, seq<UploadItem>) -> BatchOutcome,
    addToLibrary: seq<UploadItem> -> seq<AddResult>)
}
