/** The npm cache as the resolvers see it: which cache files exist and what
    the `package.json` files among them hold. The file system is not read;
    `files` is the set of `href`s of the cache files that exist, and
    `manifests` maps the `href` of each readable, well-formed `package.json`
    to its contents. */
module CacheFiles {
  import opened Wrappers
  import opened Strs
  import opened Urls
  import opened NpmCacheUrl
  import opened PackageManifest

  datatype Cache = Cache(root: Url, files: set<string>, manifests: map<string, PackageJson>)

  const InvalidURLError := "TypeError: Invalid URL"

  /** `testCacheFileExistence(url, cacheRoot)` (and `testFileExistence` of the
      earlier generation): the URL itself when its cache file exists. */
  function TestCacheFileExistence(url: Url, cache: Cache): Result<Option<Url>> {
    var c :- ToCacheURL(url, cache.root);
    Ok(if Href(c) in cache.files then Some(url) else None)
  }

  /** `JSON.parse(await Deno.readTextFile(toCacheURL(url, cacheRoot)))`:
      a file that is missing or not JSON makes the read throw. */
  function ReadManifest(url: Url, cache: Cache): Result<PackageJson> {
    var c :- ToCacheURL(url, cache.root);
    if Href(c) in cache.manifests then Ok(cache.manifests[Href(c)])
    else Err("cannot read " + Href(c))
  }

  /** A candidate that was built and whose cache file exists. */
  predicate Hit(c: Option<Url>, cache: Cache) {
    c.Some? && TestCacheFileExistence(c.value, cache) == Ok(Some(c.value))
  }

  /** A candidate that was built and whose cache file is absent. */
  predicate Miss(c: Option<Url>, cache: Cache) {
    c.Some? && TestCacheFileExistence(c.value, cache) == Ok(None)
  }

  /** A `??` chain of existence probes: the candidates are tried in order and
      the first that exists is the answer. A candidate that is `None` is a
      `new URL(...)` that throws when the chain reaches it. */
  function FirstExisting(cands: seq<Option<Url>>, cache: Cache): Result<Option<Url>>
    decreases |cands|
  {
    if |cands| == 0 then Ok(None)
    else
      var u :- Need(cands[0], InvalidURLError);
      var hit :- TestCacheFileExistence(u, cache);
      if hit.Some? then Ok(hit) else FirstExisting(cands[1..], cache)
  }

  /** A chain's answer is the first candidate that exists, after misses only. */
  lemma {:induction false} FirstExistingHit(cands: seq<Option<Url>>, cache: Cache)
    requires FirstExisting(cands, cache).Ok? && FirstExisting(cands, cache).value.Some?
    ensures exists i :: 0 <= i < |cands| && cands[i] == FirstExisting(cands, cache).value &&
                        Hit(cands[i], cache) && forall j :: 0 <= j < i ==> Miss(cands[j], cache)
    decreases |cands|
  {
    var rest := cands[1..];
    if !Hit(cands[0], cache) {
      assert Miss(cands[0], cache);
      FirstExistingHit(rest, cache);
      var i :| 0 <= i < |rest| && rest[i] == FirstExisting(rest, cache).value && Hit(rest[i], cache) &&
               forall j :: 0 <= j < i ==> Miss(rest[j], cache);
      assert cands[i + 1] == rest[i];
      forall j | 0 <= j < i + 1 ensures Miss(cands[j], cache) {
        if j > 0 { assert cands[j] == rest[j - 1]; }
      }
    }
  }

  /** A chain is null exactly when every candidate is a miss. */
  lemma {:induction false} FirstExistingNull(cands: seq<Option<Url>>, cache: Cache)
    ensures FirstExisting(cands, cache) == Ok(None) <==> forall i :: 0 <= i < |cands| ==> Miss(cands[i], cache)
    decreases |cands|
  {
    if |cands| > 0 {
      var rest := cands[1..];
      FirstExistingNull(rest, cache);
      MissesBeforeShift(cands, cache, |cands|);
      if Miss(cands[0], cache) {
        assert FirstExisting(cands, cache) == FirstExisting(rest, cache);
      }
    }
  }

  /** Every candidate before the `i`th is a miss. */
  ghost predicate MissesBefore(cands: seq<Option<Url>>, cache: Cache, i: int)
    requires 0 <= i <= |cands|
  {
    forall j :: 0 <= j < i ==> Miss(cands[j], cache)
  }

  /** Misses before position `i` are a miss in front and misses before
      `i - 1` in the rest. */
  lemma MissesBeforeShift(cands: seq<Option<Url>>, cache: Cache, i: int)
    requires 0 < i <= |cands|
    ensures MissesBefore(cands, cache, i) <==> Miss(cands[0], cache) && MissesBefore(cands[1..], cache, i - 1)
  {
    if Miss(cands[0], cache) && MissesBefore(cands[1..], cache, i - 1) {
      forall j | 0 <= j < i ensures Miss(cands[j], cache) {
        if j > 0 { assert cands[j] == cands[1..][j - 1]; }
      }
    }
    if MissesBefore(cands, cache, i) {
      forall j | 0 <= j < i - 1 ensures Miss(cands[1..][j], cache) {
        assert cands[1..][j] == cands[j + 1];
      }
    }
  }

  /** The chain reaches candidate `i` and that candidate throws. */
  ghost predicate ThrowsAt(cands: seq<Option<Url>>, cache: Cache, i: int)
    requires 0 <= i < |cands|
  {
    !Hit(cands[i], cache) && !Miss(cands[i], cache) && MissesBefore(cands, cache, i)
  }

  /** A chain that throws has reached a candidate that throws. */
  lemma {:induction false} ThrowsFound(cands: seq<Option<Url>>, cache: Cache)
    requires FirstExisting(cands, cache).Err?
    ensures exists i :: 0 <= i < |cands| && ThrowsAt(cands, cache, i)
    decreases |cands|
  {
    var rest := cands[1..];
    if Miss(cands[0], cache) {
      assert FirstExisting(cands, cache) == FirstExisting(rest, cache);
      ThrowsFound(rest, cache);
      var i :| 0 <= i < |rest| && ThrowsAt(rest, cache, i);
      MissesBeforeShift(cands, cache, i + 1);
      assert ThrowsAt(cands, cache, i + 1);
    } else {
      assert ThrowsAt(cands, cache, 0);
    }
  }

  /** A chain that reaches a candidate that throws, throws. */
  lemma {:induction false} ThrowsReached(cands: seq<Option<Url>>, cache: Cache, i: int)
    requires 0 <= i < |cands| && ThrowsAt(cands, cache, i)
    ensures FirstExisting(cands, cache).Err?
    decreases i
  {
    if i > 0 {
      MissesBeforeShift(cands, cache, i);
      assert ThrowsAt(cands[1..], cache, i - 1);
      ThrowsReached(cands[1..], cache, i - 1);
    }
  }

  /** A chain throws exactly when it reaches a candidate that is neither a
      hit nor a miss. */
  lemma FirstExistingThrows(cands: seq<Option<Url>>, cache: Cache)
    ensures FirstExisting(cands, cache).Err? <==>
            exists i :: 0 <= i < |cands| && !Hit(cands[i], cache) && !Miss(cands[i], cache) &&
                        forall j :: 0 <= j < i ==> Miss(cands[j], cache)
  {
    if FirstExisting(cands, cache).Err? {
      ThrowsFound(cands, cache);
    }
    if exists i :: 0 <= i < |cands| && ThrowsAt(cands, cache, i) {
      var i :| 0 <= i < |cands| && ThrowsAt(cands, cache, i);
      ThrowsReached(cands, cache, i);
    }
  }

  /** Two chains joined by `??`: the second runs only when the first is null. */
  lemma {:induction false} FirstExistingAppend(a: seq<Option<Url>>, b: seq<Option<Url>>, cache: Cache)
    ensures FirstExisting(a + b, cache) ==
            match FirstExisting(a, cache)
            case Ok(None) => FirstExisting(b, cache)
            case other => other
    decreases |a|
  {
    if |a| == 0 {
      EmptyAppend(b);
    } else {
      FirstExistingAppend(a[1..], b, cache);
      assert (a + b)[0] == a[0];
      assert (a + b)[1..] == a[1..] + b;
    }
  }
}
