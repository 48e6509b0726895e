/** src/buildCallback/remoteBuildCallback.ts: the esbuild callbacks for
    remote modules. Resolution follows the lock file's HTTP redirects to the
    final URL, looks up the hash the lock file records for it and computes
    its cache file; loading compares the hash of the cached contents with
    the recorded one. Reading the cache file and calling the loader rules
    are outside the model: the contents and `getLoader` are parameters. */
module RemoteCallback {
  import opened Wrappers
  import opened Records
  import opened Urls
  import opened LockMaps
  import Http

  const RemotePluginNamespace := "net.ts7m.esbuild-cache-plugin.general"

  /** `RemotePluginData` */
  datatype PluginData = PluginData(loader: Option<string>, cachePath: string, fileHash: string)

  /** The `OnResolveResult` of a remote module. */
  datatype Resolution = Resolution(path: string, namespace: string, pluginData: PluginData)

  /** The `OnLoadResult` of a remote module. */
  datatype LoadResult = Outdated(text: string) | Loaded(contents: seq<Http.Byte>, loader: Option<string>)

  // ---------------------------------------------------------------------------
  // Redirects

  /** A string that is not a redirect key: the redirect loop stops there. */
  predicate Settled(redirects: Record<string>, s: string) {
    Get(redirects, s).None?
  }

  /** Where `n` turns of the redirect loop lead from `s` (it stops early at
      a settled string). */
  function Chase(redirects: Record<string>, s: string, n: nat): string
    decreases n
  {
    if n == 0 then s
    else
      match Get(redirects, s)
      case None => s
      case Some(t) => Chase(redirects, t, n - 1)
  }

  /** The redirects from `s` end: some number of turns reaches a settled
      string. The source has no guard against a cycle. */
  ghost predicate RedirectsEnd(redirects: Record<string>, s: string) {
    exists n: nat :: Settled(redirects, Chase(redirects, s, n))
  }

  /** Once settled, further turns change nothing. */
  lemma {:induction false} ChaseSettled(redirects: Record<string>, s: string, n: nat, m: nat)
    requires Settled(redirects, Chase(redirects, s, n)) && n <= m
    ensures Chase(redirects, s, m) == Chase(redirects, s, n)
    decreases n
  {
    if n > 0 && Get(redirects, s).Some? {
      ChaseSettled(redirects, Get(redirects, s).value, n - 1, m - 1);
    }
  }

  /** Every way of settling settles on the same string. */
  lemma ChaseUnique(redirects: Record<string>, s: string, n: nat, m: nat)
    requires Settled(redirects, Chase(redirects, s, n)) && Settled(redirects, Chase(redirects, s, m))
    ensures Chase(redirects, s, n) == Chase(redirects, s, m)
  {
    if n <= m {
      ChaseSettled(redirects, s, n, m);
    } else {
      ChaseSettled(redirects, s, m, n);
    }
  }

  /** Every way of settling settles where `i` turns do. */
  lemma SettledOnce(redirects: Record<string>, s: string, i: nat)
    requires Settled(redirects, Chase(redirects, s, i))
    ensures forall n: nat :: Settled(redirects, Chase(redirects, s, n)) ==> Chase(redirects, s, n) == Chase(redirects, s, i)
  {
    forall n: nat | Settled(redirects, Chase(redirects, s, n))
      ensures Chase(redirects, s, n) == Chase(redirects, s, i)
    {
      ChaseUnique(redirects, s, n, i);
    }
  }

  /** One more turn of the loop, taken at the end. */
  lemma {:induction false} ChaseNext(redirects: Record<string>, s: string, i: nat)
    requires Get(redirects, Chase(redirects, s, i)).Some?
    ensures Chase(redirects, s, i + 1) == Get(redirects, Chase(redirects, s, i)).value
    decreases i
  {
    if i > 0 {
      var t := Get(redirects, s).value;
      ChaseNext(redirects, t, i - 1);
    }
  }

  /** Without redirects the string is its own final URL. */
  lemma NoRedirects(s: string, n: nat)
    ensures Settled([], s) && Chase([], s, n) == s
  {
  }

  // ---------------------------------------------------------------------------
  // Resolution

  /** What resolution answers for the final URL: null without a recorded
      hash or when the URL does not parse, otherwise the final URL with its
      hash, its loader and its cache file. */
  function RemoteAnswer(remote: Record<string>, cacheRoot: Url, getLoader: string -> Option<string>,
                        sha256: Http.Digest, final: string): Result<Option<Resolution>>
  {
    match Get(remote, final)
    case None => Ok(None)
    case Some(fileHash) =>
      match Parse(final)
      case None => Ok(None)
      case Some(u) =>
        var cacheURL :- Http.ToCacheURL(u, cacheRoot, sha256);
        Ok(Some(Resolution(final, RemotePluginNamespace, PluginData(getLoader(Href(u)), Href(cacheURL), fileHash))))
  }

  /** `onRemoteResolve(lockMap, cacheRoot, getLoader)(args)`, with
      `args.path` as `path`. */
  method OnRemoteResolve(lockMap: LockMapV3, cacheRoot: Url, getLoader: string -> Option<string>,
                         sha256: Http.Digest, path: string) returns (r: Result<Option<Resolution>>)
    requires RedirectsEnd(OrEmpty(lockMap.redirects), path)
    ensures forall n: nat :: Settled(OrEmpty(lockMap.redirects), Chase(OrEmpty(lockMap.redirects), path, n)) ==>
              r == RemoteAnswer(OrEmpty(lockMap.remote), cacheRoot, getLoader, sha256,
                                Chase(OrEmpty(lockMap.redirects), path, n))
  {
    var redirects := OrEmpty(lockMap.redirects);
    var remote := OrEmpty(lockMap.remote);
    ghost var bound: nat :| Settled(redirects, Chase(redirects, path, bound));
    ghost var i: nat := 0;
    var remoteURLString := path;
    while Get(redirects, remoteURLString).Some?
      invariant i <= bound && remoteURLString == Chase(redirects, path, i)
      decreases bound - i
    {
      assert i != bound;
      ChaseNext(redirects, path, i);
      remoteURLString := Get(redirects, remoteURLString).value;
      i := i + 1;
    }
    SettledOnce(redirects, path, i);
    var fileHash := Get(remote, remoteURLString);
    if fileHash.None? {
      return Ok(None);
    }
    var remoteURL := Parse(remoteURLString);
    if remoteURL.None? {
      return Ok(None);
    }
    var cacheURL := Http.ToCacheURL(remoteURL.value, cacheRoot, sha256);
    if cacheURL.Err? {
      return Err(cacheURL.message);
    }
    var loader := getLoader(Href(remoteURL.value));
    return Ok(Some(Resolution(remoteURLString, RemotePluginNamespace,
                              PluginData(loader, Href(cacheURL.value), fileHash.value))));
  }

  /** A resolved remote module is reported at its final URL, which is never
      a redirect key and has a recorded hash; its cache file is the http
      cache location of that URL. */
  lemma ResolvedAtFinalUrl(remote: Record<string>, redirects: Record<string>, cacheRoot: Url,
                           getLoader: string -> Option<string>, sha256: Http.Digest, path: string, n: nat)
    requires Settled(redirects, Chase(redirects, path, n))
    requires RemoteAnswer(remote, cacheRoot, getLoader, sha256, Chase(redirects, path, n)).Ok?
    requires RemoteAnswer(remote, cacheRoot, getLoader, sha256, Chase(redirects, path, n)).value.Some?
    ensures var res := RemoteAnswer(remote, cacheRoot, getLoader, sha256, Chase(redirects, path, n)).value.value;
            && Settled(redirects, res.path)
            && res.namespace == RemotePluginNamespace
            && Get(remote, res.path) == Some(res.pluginData.fileHash)
            && Parse(res.path).Some?
            && Http.ToCacheURL(Parse(res.path).value, cacheRoot, sha256).Ok?
            && res.pluginData.cachePath == Href(Http.ToCacheURL(Parse(res.path).value, cacheRoot, sha256).value)
  {
  }

  /** Resolution is null exactly when the final URL has no recorded hash or
      does not parse. */
  lemma RemoteAnswerNull(remote: Record<string>, cacheRoot: Url, getLoader: string -> Option<string>,
                         sha256: Http.Digest, final: string)
    ensures RemoteAnswer(remote, cacheRoot, getLoader, sha256, final) == Ok(None) <==>
            Get(remote, final).None? || Parse(final).None?
  {
  }

  // ---------------------------------------------------------------------------
  // Loading

  /** The hash comparison of `onRemoteLoad`, given the cached contents. */
  function OnRemoteLoad(path: string, data: PluginData, contents: seq<Http.Byte>, sha256: Http.Digest): LoadResult {
    if Http.HexString(sha256(contents)) != data.fileHash then Outdated("Outdated cache detected for " + path)
    else Loaded(contents, data.loader)
  }

  /** Contents whose digest is the recorded hash load unchanged, with the
      recorded loader. */
  lemma FreshCacheLoads(path: string, data: PluginData, contents: seq<Http.Byte>, sha256: Http.Digest)
    requires data.fileHash == Http.HexString(sha256(contents))
    ensures OnRemoteLoad(path, data, contents, sha256) == Loaded(contents, data.loader)
  {
  }

  /** The load reports outdated contents exactly when their digest is not
      the digest the recorded hash spells, and a recorded hash that is not
      lowercase hex of even length never matches. */
  lemma OutdatedExactly(path: string, data: PluginData, contents: seq<Http.Byte>, sha256: Http.Digest)
    ensures OnRemoteLoad(path, data, contents, sha256).Outdated? <==>
            Http.DecodeHex(data.fileHash) != Some(sha256(contents))
    ensures OnRemoteLoad(path, data, contents, sha256).Outdated? ==>
            OnRemoteLoad(path, data, contents, sha256).text == "Outdated cache detected for " + path
  {
    Http.HexStringDecodes(sha256(contents));
    if Http.DecodeHex(data.fileHash) == Some(sha256(contents)) {
      Http.DecodeHexWritten(data.fileHash);
    }
  }
}
