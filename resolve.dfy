/**
  Resolution of the command-line arguments into upload items, written as
  functions over the state the Go code threads through its loops: the items
  and hashes found so far and the set of known hashes (`CLI.FileHash`).
  The methods of module Cli are proved to compute exactly these functions;
  the lemmas here state what the resolution promises.
*/
module Resolve {
  import opened Basics
  import Hex
  import opened Text
  import opened Items

  /** The hash `NeedUpload` computes for a content: `%x` of its MD5 digest. */
  function HashOf(md5: seq<byte> -> Digest, content: seq<byte>): (h: string)
    ensures |h| == 32 && Hex.IsLowerHex(h)
    ensures Hex.Decode(h) == Some(md5(content))
  {
    Hex.DecodeEncode(md5(content));
    Hex.Encode(md5(content))
  }

  /** The answer of `NeedUpload`: whether to upload, and the hash. */
  datatype Probe = Probe(need: bool, hash: string)

  /**
    `NeedUpload` against the set `known`: an unreadable file is skipped with
    no hash; a readable one needs upload exactly when its hash is new.
  */
  function ProbeFile(known: set<string>, read: ReadOutcome, md5: seq<byte> -> Digest): (p: Probe)
    ensures !read.Read? ==> p == Probe(false, "")
    ensures read.Read? ==> p.hash == HashOf(md5, read.content) && (p.need <==> p.hash !in known)
    ensures p.need ==> p.hash != ""
  {
    match read
    case Read(content) =>
      var h := HashOf(md5, content);
      Probe(h !in known, h)
    case _ => Probe(false, "")
  }

  /** The set after a probe: a hash that needs upload is reserved at once. */
  function Reserve(known: set<string>, p: Probe): set<string> {
    if p.need then known + {p.hash} else known
  }

  /** `uploadItems`, `md5s` and `FileHash` part-way through resolution. */
  datatype Scan = Scan(items: seq<UploadItem>, md5s: seq<string>, known: set<string>)

  /**
    The walk callback on a regular file: it emits at most one item, a file
    item for `path`, and afterwards a readable file's hash is in the set,
    either because it was already there or because it was just reserved.
  */
  function Visit(s: Scan, path: string, env: Env): (r: Scan)
    ensures s.known <= r.known
    ensures env.open(path).Read? ==> HashOf(env.md5, env.open(path).content) in r.known
    ensures r.items == s.items || r.items == s.items + [FileItem(path)]
  {
    var p := ProbeFile(s.known, env.open(path), env.md5);
    if p.need then Scan(s.items + [FileItem(path)], s.md5s + [p.hash], Reserve(s.known, p))
    else Scan(s.items, s.md5s, Reserve(s.known, p))
  }

  /**
    The outcome of one `filepath.Walk`: the scan after every entry, or the
    walk's error together with the set as the entries before it left it.
  */
  datatype WalkOutcome = Walked(scan: Scan) | WalkAborted(known: set<string>, error: string)

  /** The callback applied to the remaining entries `es`, stopping at the first error. */
  function WalkFrom(s: Scan, es: seq<WalkEntry>, env: Env): (r: WalkOutcome)
    ensures r.Walked? && |s.items| == |s.md5s| ==> |r.scan.items| == |r.scan.md5s|
    ensures r.Walked? ==> s.known <= r.scan.known
    ensures r.WalkAborted? ==> s.known <= r.known
    decreases |es|
  {
    if es == [] then Walked(s)
    else
      match es[0]
      case WalkFailure(e) => WalkAborted(s.known, e)
      case OtherEntry(_) => WalkFrom(s, es[1..], env)
      case RegularFile(path) => WalkFrom(Visit(s, path, env), es[1..], env)
  }

  /** An argument with an `http://` or `https://` prefix is fetched, not walked. */
  predicate IsUrl(arg: string) {
    "http://" <= arg || "https://" <= arg
  }

  /**
    The credential strings hold the colon that `SplitN(..., ":", 2)[1]`
    needs; Go panics on an index out of range otherwise.
  */
  predicate CredentialsOk(basicAuth: string, headers: seq<string>) {
    && (basicAuth != "" ==> ':' in basicAuth)
    && forall h | h in headers :: ':' in h
  }

  /** Resolving `args` panics nowhere: credentials are well formed if any argument is a URL. */
  predicate CanResolve(args: seq<string>, basicAuth: string, headers: seq<string>) {
    forall a | a in args :: IsUrl(a) ==> CredentialsOk(basicAuth, headers)
  }

  /** A "Key: Value" header string: the parts around the first colon, trimmed. */
  function HeaderPair(h: string): (kv: (string, string))
    requires ':' in h
  {
    var kv := SplitColon(h);
    (TrimSpace(kv.0), TrimSpace(kv.1))
  }

  /**
    A header written `key:value`, with no colon in the key, yields the
    trimmed key and the trimmed value; later colons stay in the value.
  */
  lemma HeaderPairParts(k: string, v: string)
    requires ':' !in k
    ensures HeaderPair(k + ":" + v) == (TrimSpace(k), TrimSpace(v))
  {
    SplitColonUnique(k + ":" + v, k, v);
  }

  /**
    The request built for a URL argument: basic auth only when the flag is
    set, its user and password rebuilding the flag around the first colon,
    and one header pair per header string.
  */
  function RequestFor(url: string, basicAuth: string, headers: seq<string>): (r: Request)
    requires CredentialsOk(basicAuth, headers)
    ensures r.url == url
    ensures r.basicAuth.Some? <==> basicAuth != ""
    ensures r.basicAuth.Some? ==> r.basicAuth.value.0 + ":" + r.basicAuth.value.1 == basicAuth && ':' !in r.basicAuth.value.0
    ensures |r.headers| == |headers|
    ensures forall i | 0 <= i < |headers| :: r.headers[i] == HeaderPair(headers[i])
  {
    Request(url,
      if basicAuth != "" then Some(SplitColon(basicAuth)) else None,
      seq(|headers|, i requires 0 <= i < |headers| => HeaderPair(headers[i])))
  }

  /** The outcome of resolving some arguments: the final scan, or the set and the error. */
  datatype Resolution = Resolved(scan: Scan) | Failed(known: set<string>, error: UploadError)

  /** One argument: a URL becomes one item with an empty hash; a root is walked. */
  function ResolveArg(s: Scan, arg: string, basicAuth: string, headers: seq<string>, env: Env): (r: Resolution)
    requires IsUrl(arg) ==> CredentialsOk(basicAuth, headers)
    ensures r.Resolved? && |s.items| == |s.md5s| ==> |r.scan.items| == |r.scan.md5s|
    ensures r.Resolved? ==> s.known <= r.scan.known
    ensures r.Failed? ==> s.known <= r.known
  {
    if IsUrl(arg) then
      match env.requestError(arg)
      case Some(e) => Failed(s.known, BadUrl(e))
      case None => Resolved(Scan(s.items + [HttpItem(RequestFor(arg, basicAuth, headers))], s.md5s + [""], s.known))
    else
      match WalkFrom(s, env.walk(arg), env)
      case Walked(s') => Resolved(s')
      case WalkAborted(known, e) => Failed(known, WalkFailed(arg, e))
  }

  /** `findUploadItems` from scan `s` over the remaining arguments, stopping at the first error. */
  function ResolveFrom(s: Scan, args: seq<string>, basicAuth: string, headers: seq<string>, env: Env): (r: Resolution)
    requires CanResolve(args, basicAuth, headers)
    ensures r.Resolved? && |s.items| == |s.md5s| ==> |r.scan.items| == |r.scan.md5s|
    ensures r.Resolved? ==> s.known <= r.scan.known
    ensures r.Failed? ==> s.known <= r.known
    decreases |args|
  {
    if args == [] then Resolved(s)
    else
      match ResolveArg(s, args[0], basicAuth, headers, env)
      case Failed(known, e) => Failed(known, e)
      case Resolved(s') => ResolveFrom(s', args[1..], basicAuth, headers, env)
  }

  /** `findUploadItems` as a whole, starting from the set `known`. */
  function Resolution0(args: seq<string>, basicAuth: string, headers: seq<string>, known: set<string>, env: Env): (r: Resolution)
    requires CanResolve(args, basicAuth, headers)
    ensures r.Resolved? ==> |r.scan.items| == |r.scan.md5s|
    ensures r.Resolved? ==> known <= r.scan.known
    ensures r.Failed? ==> known <= r.known
  {
    ResolveFrom(Scan([], [], known), args, basicAuth, headers, env)
  }

  // ---------------------------------------------------------------------
  // Invariants of resolution

  /** The non-empty hashes of a hash list. */
  function Hashes(md5s: seq<string>): set<string> {
    set h | h in md5s && h != ""
  }

  /**
    Items and hashes are positionally aligned: URL items have the empty
    hash, file items the hash of the file's readable content.
  */
  ghost predicate Aligned(s: Scan, env: Env) {
    && |s.items| == |s.md5s|
    && forall i | 0 <= i < |s.items| ::
         && (s.items[i].HttpItem? <==> s.md5s[i] == "")
         && (s.items[i].FileItem? ==>
               env.open(s.items[i].path).Read?
               && s.md5s[i] == HashOf(env.md5, env.open(s.items[i].path).content))
  }

  /**
    The non-empty hashes are pairwise distinct, none was in the initial set
    `known0`, and the set is `known0` plus exactly these hashes.
  */
  ghost predicate Reserved(s: Scan, known0: set<string>) {
    && (forall i, j | 0 <= i < j < |s.md5s| :: s.md5s[i] != "" ==> s.md5s[i] != s.md5s[j])
    && (forall i | 0 <= i < |s.md5s| :: s.md5s[i] != "" ==> s.md5s[i] !in known0)
    && s.known == known0 + Hashes(s.md5s)
  }

  /** Resolution only appends: the earlier scan is a prefix of the later one and the set only grows. */
  ghost predicate Extends(s: Scan, s': Scan) {
    s.items <= s'.items && s.md5s <= s'.md5s && s.known <= s'.known
  }

  lemma HashesAppend(md5s: seq<string>, h: string)
    ensures Hashes(md5s + [h]) == if h == "" then Hashes(md5s) else Hashes(md5s) + {h}
  {
    assert forall x :: x in md5s + [h] <==> x in md5s || x == h;
  }

  lemma VisitKeeps(s: Scan, path: string, env: Env, known0: set<string>)
    requires Aligned(s, env) && Reserved(s, known0)
    ensures Aligned(Visit(s, path, env), env) && Reserved(Visit(s, path, env), known0)
    ensures Extends(s, Visit(s, path, env))
  {
    var p := ProbeFile(s.known, env.open(path), env.md5);
    if p.need {
      HashesAppend(s.md5s, p.hash);
      var s' := Visit(s, path, env);
      assert forall i | 0 <= i < |s.md5s| :: s.md5s[i] != "" ==> s.md5s[i] in Hashes(s.md5s);
      assert s'.items[|s.items|] == FileItem(path);
    }
  }

  lemma {:induction false} WalkKeeps(s: Scan, es: seq<WalkEntry>, env: Env, known0: set<string>)
    requires Aligned(s, env) && Reserved(s, known0)
    ensures match WalkFrom(s, es, env)
      case Walked(s') => Aligned(s', env) && Reserved(s', known0) && Extends(s, s')
      case WalkAborted(known, _) => s.known <= known
    decreases |es|
  {
    if es != [] {
      match es[0]
      case WalkFailure(_) =>
      case OtherEntry(_) => WalkKeeps(s, es[1..], env, known0);
      case RegularFile(path) =>
        VisitKeeps(s, path, env, known0);
        WalkKeeps(Visit(s, path, env), es[1..], env, known0);
    }
  }

  lemma ArgKeeps(s: Scan, arg: string, basicAuth: string, headers: seq<string>, env: Env, known0: set<string>)
    requires IsUrl(arg) ==> CredentialsOk(basicAuth, headers)
    requires Aligned(s, env) && Reserved(s, known0)
    ensures match ResolveArg(s, arg, basicAuth, headers, env)
      case Resolved(s') => Aligned(s', env) && Reserved(s', known0) && Extends(s, s')
      case Failed(known, _) => s.known <= known
  {
    if IsUrl(arg) {
      HashesAppend(s.md5s, "");
    } else {
      WalkKeeps(s, env.walk(arg), env, known0);
    }
  }

  lemma {:induction false} ResolveKeeps(s: Scan, args: seq<string>, basicAuth: string, headers: seq<string>, env: Env, known0: set<string>)
    requires CanResolve(args, basicAuth, headers)
    requires Aligned(s, env) && Reserved(s, known0)
    ensures match ResolveFrom(s, args, basicAuth, headers, env)
      case Resolved(s') => Aligned(s', env) && Reserved(s', known0) && Extends(s, s')
      case Failed(known, _) => s.known <= known
    decreases |args|
  {
    if args != [] {
      ArgKeeps(s, args[0], basicAuth, headers, env, known0);
      match ResolveArg(s, args[0], basicAuth, headers, env)
      case Failed(_, _) =>
      case Resolved(s') => ResolveKeeps(s', args[1..], basicAuth, headers, env, known0);
    }
  }

  /**
    What `findUploadItems` promises on success: items and hashes are equally
    long and aligned (empty hash exactly for URL items, the file's hash for
    file items); the non-empty hashes are pairwise distinct and none was
    known before; the set afterwards is the old set plus exactly those
    hashes. On failure the set has only grown.
  */
  lemma ResolutionInvariant(args: seq<string>, basicAuth: string, headers: seq<string>, known0: set<string>, env: Env)
    requires CanResolve(args, basicAuth, headers)
    ensures var r := ResolveFrom(Scan([], [], known0), args, basicAuth, headers, env);
      && (r.Failed? ==> known0 <= r.known)
      && (r.Resolved? ==>
        var s := r.scan;
        && |s.items| == |s.md5s|
        && (forall i | 0 <= i < |s.items| :: s.items[i].HttpItem? <==> s.md5s[i] == "")
        && (forall i | 0 <= i < |s.items| :: s.items[i].FileItem? ==>
              env.open(s.items[i].path).Read?
              && s.md5s[i] == HashOf(env.md5, env.open(s.items[i].path).content))
        && (forall i, j | 0 <= i < j < |s.md5s| :: s.md5s[i] != "" ==> s.md5s[i] != s.md5s[j])
        && (forall i | 0 <= i < |s.md5s| :: s.md5s[i] != "" ==> s.md5s[i] !in known0)
        && s.known == known0 + Hashes(s.md5s))
  {
    assert Hashes([]) == {};
    assert Aligned(Scan([], [], known0), env);
    ResolveKeeps(Scan([], [], known0), args, basicAuth, headers, env, known0);
  }

  /**
    No two uploaded files share a digest, so in particular no content is
    uploaded twice in one run, whatever paths it is reachable under.
  */
  lemma UploadedContentsDistinct(args: seq<string>, basicAuth: string, headers: seq<string>, known0: set<string>, env: Env, i: nat, j: nat)
    requires CanResolve(args, basicAuth, headers)
    requires Resolution0(args, basicAuth, headers, known0, env).Resolved?
    requires var items := Resolution0(args, basicAuth, headers, known0, env).scan.items;
      i < j < |items| && items[i].FileItem? && items[j].FileItem?
    ensures var items := Resolution0(args, basicAuth, headers, known0, env).scan.items;
      && env.open(items[i].path).Read? && env.open(items[j].path).Read?
      && env.md5(env.open(items[i].path).content) != env.md5(env.open(items[j].path).content)
  {
    ResolutionInvariant(args, basicAuth, headers, known0, env);
  }

  /** A file whose hash is already known is never an upload item. */
  lemma KnownContentSkipped(args: seq<string>, basicAuth: string, headers: seq<string>, known0: set<string>, env: Env, i: nat)
    requires CanResolve(args, basicAuth, headers)
    requires Resolution0(args, basicAuth, headers, known0, env).Resolved?
    requires var items := Resolution0(args, basicAuth, headers, known0, env).scan.items;
      i < |items| && items[i].FileItem?
    ensures var items := Resolution0(args, basicAuth, headers, known0, env).scan.items;
      env.open(items[i].path).Read? && HashOf(env.md5, env.open(items[i].path).content) !in known0
  {
    ResolutionInvariant(args, basicAuth, headers, known0, env);
  }

  // ---------------------------------------------------------------------
  // Classification and walk handling

  /** A URL argument yields exactly one item, with the empty hash, and leaves the set alone. */
  lemma UrlYieldsOneItem(s: Scan, url: string, basicAuth: string, headers: seq<string>, env: Env)
    requires IsUrl(url) && CredentialsOk(basicAuth, headers)
    requires env.requestError(url).None?
    ensures ResolveArg(s, url, basicAuth, headers, env)
      == Resolved(Scan(s.items + [HttpItem(RequestFor(url, basicAuth, headers))], s.md5s + [""], s.known))
  {
  }

  /** Entries that are not regular files emit nothing and leave the set alone. */
  lemma {:induction false} NonRegularEmitNothing(s: Scan, es: seq<WalkEntry>, env: Env)
    requires forall i | 0 <= i < |es| :: es[i].OtherEntry?
    ensures WalkFrom(s, es, env) == Walked(s)
    decreases |es|
  {
    if es != [] {
      NonRegularEmitNothing(s, es[1..], env);
    }
  }

  /** A walk stops at its first error and reports that error. */
  lemma {:induction false} WalkStopsAtFirstError(s: Scan, es: seq<WalkEntry>, env: Env, k: nat)
    requires k < |es| && es[k].WalkFailure?
    requires forall i | 0 <= i < k :: !es[i].WalkFailure?
    ensures WalkFrom(s, es, env).WalkAborted?
    ensures WalkFrom(s, es, env).error == es[k].error
    decreases k
  {
    if k > 0 {
      var s' := if es[0].RegularFile? then Visit(s, es[0].path, env) else s;
      WalkStopsAtFirstError(s', es[1..], env, k - 1);
    }
  }

  /** A walk with an error anywhere aborts. */
  lemma {:induction false} WalkErrorAborts(s: Scan, es: seq<WalkEntry>, env: Env, k: nat)
    requires k < |es| && es[k].WalkFailure?
    ensures WalkFrom(s, es, env).WalkAborted?
    decreases k
  {
    if !es[0].WalkFailure? {
      var s' := if es[0].RegularFile? then Visit(s, es[0].path, env) else s;
      WalkErrorAborts(s', es[1..], env, k - 1);
    }
  }

  /**
    A walk error under any root makes the whole resolution fail: no items
    are returned, whatever the other arguments gave. When the arguments
    before that root all resolved, the error names the root and carries
    the walk's error.
  */
  lemma {:induction false} WalkErrorFailsResolution(s: Scan, args: seq<string>, basicAuth: string, headers: seq<string>, env: Env, r: nat, k: nat)
    requires CanResolve(args, basicAuth, headers)
    requires r < |args| && !IsUrl(args[r])
    requires k < |env.walk(args[r])| && env.walk(args[r])[k].WalkFailure?
    ensures ResolveFrom(s, args, basicAuth, headers, env).Failed?
    ensures var before := ResolveFrom(s, args[..r], basicAuth, headers, env);
      before.Resolved? ==>
        var walk := WalkFrom(before.scan, env.walk(args[r]), env);
        walk.WalkAborted? && ResolveFrom(s, args, basicAuth, headers, env).error == WalkFailed(args[r], walk.error)
    decreases r
  {
    if r == 0 {
      WalkErrorAborts(s, env.walk(args[0]), env, k);
      assert ResolveFrom(s, args[..0], basicAuth, headers, env) == Resolved(s);
    } else {
      assert args[..r][0] == args[0];
      assert args[..r][1..] == args[1..][..r - 1];
      match ResolveArg(s, args[0], basicAuth, headers, env)
      case Failed(_, _) =>
      case Resolved(s') =>
        assert args[1..][r - 1] == args[r];
        WalkErrorFailsResolution(s', args[1..], basicAuth, headers, env, r - 1, k);
    }
  }

  /** Every readable regular file a completed walk visits has its hash in the set afterwards. */
  lemma {:induction false} WalkCovers(s: Scan, es: seq<WalkEntry>, env: Env, k: nat)
    requires k < |es| && es[k].RegularFile? && env.open(es[k].path).Read?
    requires WalkFrom(s, es, env).Walked?
    ensures HashOf(env.md5, env.open(es[k].path).content) in WalkFrom(s, es, env).scan.known
    decreases k
  {
    var s' := if es[0].RegularFile? then Visit(s, es[0].path, env) else s;
    assert WalkFrom(s, es, env) == WalkFrom(s', es[1..], env);
    if k > 0 {
      assert es[1..][k - 1] == es[k];
      WalkCovers(s', es[1..], env, k - 1);
    }
  }

  /**
    In a successful resolution, every readable regular file under a walked
    root has its hash in the final set.
  */
  lemma {:induction false} ResolveCovers(s: Scan, args: seq<string>, basicAuth: string, headers: seq<string>, env: Env, r: nat, k: nat)
    requires CanResolve(args, basicAuth, headers)
    requires r < |args| && !IsUrl(args[r])
    requires k < |env.walk(args[r])| && env.walk(args[r])[k].RegularFile?
    requires env.open(env.walk(args[r])[k].path).Read?
    requires ResolveFrom(s, args, basicAuth, headers, env).Resolved?
    ensures HashOf(env.md5, env.open(env.walk(args[r])[k].path).content)
      in ResolveFrom(s, args, basicAuth, headers, env).scan.known
    decreases r
  {
    var first := ResolveArg(s, args[0], basicAuth, headers, env);
    assert first.Resolved?;
    if r == 0 {
      WalkCovers(s, env.walk(args[0]), env, k);
    } else {
      assert args[1..][r - 1] == args[r];
      ResolveCovers(first.scan, args[1..], basicAuth, headers, env, r - 1, k);
    }
  }

  /**
    Nothing new is missed: a readable regular file under a walked root
    whose hash was not known before the run is carried by a file item of
    the result (by exactly one, with UploadedContentsDistinct).
  */
  lemma NewContentEmitted(args: seq<string>, basicAuth: string, headers: seq<string>, known0: set<string>, env: Env, r: nat, k: nat)
    requires CanResolve(args, basicAuth, headers)
    requires Resolution0(args, basicAuth, headers, known0, env).Resolved?
    requires r < |args| && !IsUrl(args[r])
    requires k < |env.walk(args[r])| && env.walk(args[r])[k].RegularFile?
    requires env.open(env.walk(args[r])[k].path).Read?
    ensures var s := Resolution0(args, basicAuth, headers, known0, env).scan;
      var h := HashOf(env.md5, env.open(env.walk(args[r])[k].path).content);
      h !in known0 ==> exists i | 0 <= i < |s.items| :: s.items[i].FileItem? && s.md5s[i] == h
  {
    var s := Resolution0(args, basicAuth, headers, known0, env).scan;
    var h := HashOf(env.md5, env.open(env.walk(args[r])[k].path).content);
    ResolveCovers(Scan([], [], known0), args, basicAuth, headers, env, r, k);
    ResolutionInvariant(args, basicAuth, headers, known0, env);
    if h !in known0 {
      assert h in Hashes(s.md5s);
      var i :| 0 <= i < |s.md5s| && s.md5s[i] == h;
      assert s.items[i].FileItem?;
    }
  }

  /**
    Roots whose walks hold no regular file and no error resolve to nothing:
    zero items, zero hashes, the set unchanged.
  */
  lemma {:induction false} NoRegularFilesResolveToNothing(s: Scan, args: seq<string>, basicAuth: string, headers: seq<string>, env: Env)
    requires forall a | a in args :: !IsUrl(a)
    requires forall a, i | a in args && 0 <= i < |env.walk(a)| :: env.walk(a)[i].OtherEntry?
    ensures CanResolve(args, basicAuth, headers)
    ensures ResolveFrom(s, args, basicAuth, headers, env) == Resolved(s)
    decreases |args|
  {
    if args != [] {
      NonRegularEmitNothing(s, env.walk(args[0]), env);
      NoRegularFilesResolveToNothing(s, args[1..], basicAuth, headers, env);
    }
  }

  // ---------------------------------------------------------------------
  // A directory with a duplicate file, resolved twice

  /**
    A directory holding a.jpg and b.jpg with the same bytes X and c.jpg with
    bytes Y (of a different digest), against an empty set: two items, one
    per distinct content, and both hashes reserved.
  */
  lemma DuplicateInDirectoryUploadedOnce(dir: string, a: string, b: string, c: string, x: seq<byte>, y: seq<byte>, env: Env)
    requires !IsUrl(dir)
    requires env.walk(dir) == [OtherEntry(dir), RegularFile(a), RegularFile(b), RegularFile(c)]
    requires env.open(a) == Read(x) && env.open(b) == Read(x) && env.open(c) == Read(y)
    requires env.md5(x) != env.md5(y)
    ensures CanResolve([dir], "", [])
    ensures Resolution0([dir], "", [], {}, env)
      == Resolved(Scan([FileItem(a), FileItem(c)], [HashOf(env.md5, x), HashOf(env.md5, y)],
                       {HashOf(env.md5, x), HashOf(env.md5, y)}))
  {
    var hx, hy := HashOf(env.md5, x), HashOf(env.md5, y);
    assert hx != hy by {
      if hx == hy { Hex.EncodeInjective(env.md5(x), env.md5(y)); }
    }
    var es := env.walk(dir);
    var s1 := Visit(Scan([], [], {}), a, env);
    assert s1 == Scan([FileItem(a)], [hx], {hx});
    var s2 := Visit(s1, b, env);
    assert s2 == s1;
    var s3 := Visit(s2, c, env);
    assert s3 == Scan([FileItem(a), FileItem(c)], [hx, hy], {hx, hy});
    assert WalkFrom(s3, es[4..], env) == Walked(s3);
    assert WalkFrom(s2, es[3..], env) == Walked(s3);
    assert WalkFrom(s1, es[2..], env) == Walked(s3);
    assert WalkFrom(Scan([], [], {}), es[1..], env) == Walked(s3);
    assert WalkFrom(Scan([], [], {}), es, env) == Walked(s3);
    assert ResolveArg(Scan([], [], {}), dir, "", [], env) == Resolved(s3);
    assert [dir][1..] == [];
    assert ResolveFrom(s3, [], "", [], env) == Resolved(s3);
    assert ResolveFrom(Scan([], [], {}), [dir], "", [], env) == Resolved(s3);
  }

  /** The same directory again once both hashes are known: nothing is found to upload. */
  lemma RerunFindsNothing(dir: string, a: string, b: string, c: string, x: seq<byte>, y: seq<byte>, known: set<string>, env: Env)
    requires !IsUrl(dir)
    requires env.walk(dir) == [OtherEntry(dir), RegularFile(a), RegularFile(b), RegularFile(c)]
    requires env.open(a) == Read(x) && env.open(b) == Read(x) && env.open(c) == Read(y)
    requires HashOf(env.md5, x) in known && HashOf(env.md5, y) in known
    ensures CanResolve([dir], "", [])
    ensures Resolution0([dir], "", [], known, env) == Resolved(Scan([], [], known))
  {
    var s0 := Scan([], [], known);
    var es := env.walk(dir);
    assert Visit(s0, a, env) == s0 && Visit(s0, b, env) == s0 && Visit(s0, c, env) == s0;
    assert WalkFrom(s0, es[4..], env) == Walked(s0);
    assert WalkFrom(s0, es[3..], env) == Walked(s0);
    assert WalkFrom(s0, es[2..], env) == Walked(s0);
    assert WalkFrom(s0, es[1..], env) == Walked(s0);
    assert WalkFrom(s0, es, env) == Walked(s0);
    assert ResolveArg(s0, dir, "", [], env) == Resolved(s0);
    assert [dir][1..] == [];
    assert ResolveFrom(s0, [], "", [], env) == Resolved(s0);
    assert ResolveFrom(s0, [dir], "", [], env) == Resolved(s0);
  }
}
