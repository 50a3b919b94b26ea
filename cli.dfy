/**
  The `CLI` object and its upload pipeline as the Go code writes them:
  loops over the arguments, the walk entries and the results, updating the
  set of known hashes in place and appending digests to the ledger file.
  Each method is proved to compute the corresponding function of modules
  Resolve, Dispatch and Report.
*/
module Cli {
  import opened Basics
  import Hex
  import opened Text
  import opened Items
  import opened Resolve
  import opened Dispatch
  import opened Report

  /** The ledger (cache) file, opened for appending: the bytes it holds. */
  class LedgerFile {
    var contents: seq<byte>

    constructor (existing: seq<byte>)
      ensures contents == existing
    {
      contents := existing;
    }

    /** `f.Write`: the bytes go at the end. */
    method Write(bs: seq<byte>)
      modifies this
      ensures contents == old(contents) + bs
    {
      contents := contents + bs;
    }
  }

  /**
    The `Key: Value` strings of the header flag, split on the first colon
    and trimmed, in order.
  */
  method ParseHeaders(headers: seq<string>) returns (kvs: seq<(string, string)>)
    requires forall h | h in headers :: ':' in h
    ensures |kvs| == |headers|
    ensures forall i | 0 <= i < |headers| :: kvs[i] == HeaderPair(headers[i])
  {
    kvs := [];
    for i := 0 to |headers|
      invariant |kvs| == i
      invariant forall j | 0 <= j < i :: kvs[j] == HeaderPair(headers[j])
    {
      var kv := SplitColon(headers[i]);
      kvs := kvs + [(TrimSpace(kv.0), TrimSpace(kv.1))];
    }
  }

  /**
    The reporting loop of `upload`: one line per result, and for every
    successful item with a hash that decodes, its 16 raw bytes appended to
    the ledger file when that file could be opened (`ledger != null`).
  */
  method ReportResults(items: seq<UploadItem>, md5s: seq<string>, results: seq<AddResult>, ledger: LedgerFile?)
    returns (lines: seq<ReportLine>)
    requires |results| <= |items| && |results| <= |md5s|
    modifies ledger
    ensures lines == ReportLines(items, results)
    ensures ledger != null ==> ledger.contents == old(ledger.contents) + Persisted(md5s, results, |results|)
  {
    lines := [];
    for i := 0 to |results|
      invariant |lines| == i
      invariant forall j | 0 <= j < i :: lines[j] == LineFor(j, items[j], results[j])
      invariant ledger != null ==> ledger.contents == old(ledger.contents) + Persisted(md5s, results, i)
    {
      match results[i].error
      case Some(e) =>
        lines := lines + [ReportLine(i + 1, items[i], Error(e))];
      case None =>
        lines := lines + [ReportLine(i + 1, items[i], Ok)];
        if ledger != null && md5s[i] != "" {
          var md5hash := Hex.Decode(md5s[i]);
          if md5hash.Some? {
            ledger.Write(md5hash.value);
          }
        }
    }
  }

  /** The command's options that the upload pipeline reads, and `FileHash`. */
  class Cli {
    const paths: seq<string>
    const albumTitle: string
    const newAlbum: string
    const requestBasicAuth: string
    const requestHeaders: seq<string>
    /** The hashes known so far: loaded from the ledger file, then reserved during resolution. */
    var fileHash: set<string>

    constructor (paths: seq<string>, albumTitle: string, newAlbum: string,
                 requestBasicAuth: string, requestHeaders: seq<string>, fileHash: set<string>)
      ensures this.paths == paths && this.albumTitle == albumTitle && this.newAlbum == newAlbum
      ensures this.requestBasicAuth == requestBasicAuth && this.requestHeaders == requestHeaders
      ensures this.fileHash == fileHash
    {
      this.paths := paths;
      this.albumTitle := albumTitle;
      this.newAlbum := newAlbum;
      this.requestBasicAuth := requestBasicAuth;
      this.requestHeaders := requestHeaders;
      this.fileHash := fileHash;
    }

    /**
      Whether the file `name` needs upload, with its hash. A file that
      cannot be opened or read gives (false, ""); a known hash gives
      (false, hash); a new hash is reserved at once and gives (true, hash).
    */
    method NeedUpload(name: string, env: Env) returns (need: bool, md5: string)
      modifies this`fileHash
      ensures Probe(need, md5) == ProbeFile(old(fileHash), env.open(name), env.md5)
      ensures fileHash == Reserve(old(fileHash), Probe(need, md5))
    {
      match env.open(name)
      case OpenFailed =>
        return false, "";
      case ReadFailed =>
        return false, "";
      case Read(content) =>
        md5 := Hex.Encode(env.md5(content));
        if md5 in fileHash {
          return false, md5;
        }
        fileHash := fileHash + {md5};
        return true, md5;
    }

    /**
      `findUploadItems`: every argument in order, a URL as one request item
      with an empty hash, any other argument walked for regular files that
      need upload. The first error ends it with no items; the hashes
      reserved before the error stay reserved.
    */
    method FindUploadItems(env: Env) returns (items: seq<UploadItem>, md5s: seq<string>, err: Option<UploadError>)
      requires CanResolve(paths, requestBasicAuth, requestHeaders)
      modifies this`fileHash
      ensures var r := Resolution0(paths, requestBasicAuth, requestHeaders, old(fileHash), env);
        && (r.Resolved? ==> err.None? && items == r.scan.items && md5s == r.scan.md5s && fileHash == r.scan.known)
        && (r.Failed? ==> err == Some(r.error) && items == [] && md5s == [] && fileHash == r.known)
    {
      ghost var goal := Resolution0(paths, requestBasicAuth, requestHeaders, fileHash, env);
      items, md5s := [], [];
      for k := 0 to |paths|
        invariant ResolveFrom(Scan(items, md5s, fileHash), paths[k..], requestBasicAuth, requestHeaders, env) == goal
      {
        var arg := paths[k];
        ghost var before := Scan(items, md5s, fileHash);
        assert paths[k..][1..] == paths[k + 1..];
        if IsUrl(arg) {
          match env.requestError(arg)
          case Some(e) =>
            return [], [], Some(BadUrl(e));
          case None =>
          var basicAuth := None;
          if requestBasicAuth != "" {
            basicAuth := Some(SplitColon(requestBasicAuth));
          }
          assert arg in paths;
          var headers := ParseHeaders(requestHeaders);
          assert Request(arg, basicAuth, headers) == RequestFor(arg, requestBasicAuth, requestHeaders);
          items := items + [HttpItem(Request(arg, basicAuth, headers))];
          md5s := md5s + [""];
        } else {
          var entries := env.walk(arg);
          for j := 0 to |entries|
            invariant WalkFrom(Scan(items, md5s, fileHash), entries[j..], env) == WalkFrom(before, entries, env)
          {
            assert entries[j..][1..] == entries[j + 1..];
            match entries[j]
            case WalkFailure(e) =>
              return [], [], Some(WalkFailed(arg, e));
            case OtherEntry(_) =>
            case RegularFile(name) =>
              var need, md5 := NeedUpload(name, env);
              if need {
                items := items + [FileItem(name)];
                md5s := md5s + [md5];
              }
          }
          assert ResolveArg(before, arg, requestBasicAuth, requestHeaders, env) == Resolved(Scan(items, md5s, fileHash));
        }
      }
      return items, md5s, None;
    }

    /**
      `upload`: resolve the arguments, send the batch to the album or the
      library the options select, then report each result and record the
      digests of the successful items.
    */
    method Upload(env: Env, svc: Service, ledger: LedgerFile?) returns (err: Option<UploadError>, lines: seq<ReportLine>)
      requires CanResolve(paths, requestBasicAuth, requestHeaders)
      requires ResultsFit(svc)
      modifies this`fileHash, ledger
      ensures paths == [] ==> err == Some(NothingToUpload) && lines == [] && fileHash == old(fileHash)
      ensures var r := Resolution0(paths, requestBasicAuth, requestHeaders, old(fileHash), env);
        paths != [] && r.Failed? ==> err == Some(r.error) && lines == [] && fileHash == r.known
      ensures var r := Resolution0(paths, requestBasicAuth, requestHeaders, old(fileHash), env);
        paths != [] && r.Resolved? ==>
          && fileHash == r.scan.known
          && (r.scan.items == [] ==> err == Some(NothingToUploadIn(paths)) && lines == [])
          && (r.scan.items != [] && svc.setupError.Some? ==> err == Some(ClientFailed(svc.setupError.value)) && lines == [])
          && (r.scan.items != [] && svc.setupError.None? ==>
                match Call(svc, Choose(albumTitle, newAlbum), r.scan.items)
                case BatchFailed(e) => err == Some(RemoteFailed(e)) && lines == []
                case Added(results) =>
                  && err.None?
                  && lines == ReportLines(r.scan.items, results)
                  && (ledger != null ==> ledger.contents == old(ledger.contents) + Persisted(r.scan.md5s, results, |results|)))
      ensures ledger != null && err.Some? ==> ledger.contents == old(ledger.contents)
    {
      if |paths| == 0 {
        return Some(NothingToUpload), [];
      }
      var items, md5s, e := FindUploadItems(env);
      if e.Some? {
        return e, [];
      }
      if |items| == 0 {
        return Some(NothingToUploadIn(paths)), [];
      }
      if svc.setupError.Some? {
        return Some(ClientFailed(svc.setupError.value)), [];
      }
      var outcome;
      if albumTitle != "" {
        outcome := svc.addToAlbum(albumTitle, items);
      } else if newAlbum != "" {
        outcome := svc.createAlbum(newAlbum, items);
      } else {
        outcome := Added(svc.addToLibrary(items));
      }
      assert outcome == Call(svc, Choose(albumTitle, newAlbum), items);
      match outcome
      case BatchFailed(x) =>
        return Some(RemoteFailed(x)), [];
      case Added(results) =>
        lines := ReportResults(items, md5s, results, ledger);
        err := None;
    }
  }
}
