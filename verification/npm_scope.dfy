/** src/npm.ts, the package-scope part of the earlier npm resolver:
    bringing an `npm:` URL to the form `npm:/<package>/<path>` and walking up
    from it to the nearest directory whose `package.json` is in the cache.
    The URL operations are the ones of the Urls module; the literal
    references the walk resolves (`./package.json`, `../package.json`, `.`
    and `..`) are worked out once here as segment operations. */
module NpmScopes {
  import opened Wrappers
  import opened Strs
  import opened Urls
  import opened CacheFiles

  const EmptyPathError := "URL path must not be empty or root (/)."

  /** The relative references the scope search resolves. */
  const ManifestName := "package.json"
  const SiblingManifest := "./package.json"
  const ParentManifestRef := "../package.json"
  const Here := "."
  const Up := ".."

  /** The URL `u` with a new hierarchical path and no query or fragment:
      what resolving a relative path reference against `u` gives. */
  function At(u: Url, segs: seq<string>): Url {
    u.(path := Hier(segs), query := None, fragment := None)
  }

  /** All segments but the last: the directory the last segment sits in. */
  function Dir(segs: seq<string>): seq<string> {
    if |segs| > 0 then segs[..|segs| - 1] else []
  }

  // ---------------------------------------------------------------------------
  // normalizeNodeNpmUrl

  /** `normalizeNodeNpmUrl(url)`: an empty or root pathname throws; the
      pathname gets a leading `/`, and a `/` after a lone package segment;
      the result is parsed again from the protocol and that pathname alone. */
  function NormalizeNodeNpmUrl(url: Url): Result<Url> {
    var p := Pathname(url);
    if p == "" || p == "/" then Err(EmptyPathError)
    else
      var rooted := if StartsWith(p, "/") then p else "/" + p;
      var pathname := if |Split(rooted, '/')| < 3 then rooted + "/" else rooted;
      Need(Parse(Protocol(url) + pathname), InvalidURLError)
  }

  /** The empty and the root pathname, and only they, are refused with the
      normaliser's own message. */
  lemma NormalizeRejectsRoot(url: Url)
    ensures NormalizeNodeNpmUrl(url) == Err(EmptyPathError) <==> Pathname(url) == "" || Pathname(url) == "/"
  {
  }

  /** A URL naming a package location: a valid scheme, and either plain
      hierarchical segments that do not start with an empty one, or an opaque
      path that is a single plain segment (`npm:module@1.0.0`). */
  ghost predicate PackagePath(url: Url) {
    && ValidScheme(url.scheme)
    && match url.path
       case Hier(segs) => |segs| >= 1 && PlainSegments(segs) && segs[0] != ""
       case Opaque(t) => t != "" && PlainSegment(t)
  }

  /** The segments of the normalised form: a lone segment gets a trailing
      empty one, an opaque name becomes the first segment of a directory. */
  function NormalSegments(p: Path): seq<string> {
    match p
    case Hier(segs) => if |segs| == 1 then segs + [""] else segs
    case Opaque(t) => [t, ""]
  }

  function NormalForm(url: Url): Url {
    Url(url.scheme, None, Hier(NormalSegments(url.path)), None, None)
  }

  /** Parsing `scheme:` followed by the pathname of plain segments gives
      back exactly the URL with those segments. */
  lemma ParsePathOnly(scheme: string, segs: seq<string>)
    requires ValidScheme(scheme)
    requires |segs| >= 2 && PlainSegments(segs) && segs[0] != ""
    ensures Parse(scheme + ":" + PathString(Hier(segs))) == Some(Url(scheme, None, Hier(segs), None, None))
  {
    var v := Url(scheme, None, Hier(segs), None, None);
    HrefOfPath(v);
    ParseHref(v);
  }

  /** On a package location, normalising gives the URL with the normal
      segments and nothing else: no authority, query or fragment. */
  lemma NormalizeOf(url: Url)
    requires PackagePath(url)
    ensures NormalizeNodeNpmUrl(url) == Ok(NormalForm(url))
  {
    var p := Pathname(url);
    var segs := NormalSegments(url.path);
    match url.path
    case Hier(s) =>
      JoinStart(s, "/");
      PathStringSplit(s);
      assert StartsWith(p, "/");
      if |s| == 1 {
        PathStringSnocEmpty(s);
        assert PathString(Hier(segs)) == p + "/";
      }
      ParsePathOnly(url.scheme, segs);
    case Opaque(t) =>
      assert StartsWith(p, "/") == false by { assert p[0] == t[0]; assert t[0] in t; }
      assert "/" + p == PathString(Hier([t]));
      PathStringSplit([t]);
      PathStringSnocEmpty([t]);
      assert [t] + [""] == segs;
      ParsePathOnly(url.scheme, segs);
  }

  /** Normalising twice is normalising once. */
  lemma NormalizeIdempotent(url: Url)
    requires PackagePath(url)
    ensures PackagePath(NormalForm(url))
    ensures NormalizeNodeNpmUrl(NormalForm(url)) == NormalizeNodeNpmUrl(url)
  {
    NormalizeOf(url);
    var segs := NormalSegments(url.path);
    assert PlainSegments(segs) by {
      forall i | 0 <= i < |segs| ensures PlainSegment(segs[i]) {
        match url.path
        case Hier(s) => if i < |s| { assert segs[i] == s[i]; }
        case Opaque(t) =>
      }
    }
    assert NormalSegments(Hier(segs)) == segs;
    NormalizeOf(NormalForm(url));
  }

  // ---------------------------------------------------------------------------
  // Segments of parsed and resolved URLs

  /** A parsed hierarchical path has gone through dot removal. */
  lemma HierPartClean(rest: string)
    ensures ParseHierPart(rest).1.Hier? ==> Clean(ParseHierPart(rest).1.segments)
  {
    if StartsWith(rest, "//") {
      var r := rest[2..];
      match IndexOf(r, '/')
      case None =>
      case Some(j) => RemoveDotsIsClean(Split(r[j + 1..], '/'));
    } else if StartsWith(rest, "/") {
      RemoveDotsIsClean(Split(rest[1..], '/'));
    }
  }

  /** Every parsed URL has a valid scheme and, when hierarchical, clean segments. */
  lemma ParsedClean(s: string)
    ensures Parse(s).Some? ==> ValidScheme(Parse(s).value.scheme)
    ensures Parse(s).Some? && Parse(s).value.path.Hier? ==> Clean(Parse(s).value.path.segments)
  {
    match SchemeEnd(s)
    case None =>
    case Some(i) =>
      var (rest0, fragment) := SplitOff(s[i + 1..], '#');
      var (rest, query) := SplitOff(rest0, '?');
      HierPartClean(rest);
  }

  lemma NormalizedClean(url: Url)
    ensures NormalizeNodeNpmUrl(url).Ok? ==> ValidScheme(NormalizeNodeNpmUrl(url).value.scheme)
    ensures NormalizeNodeNpmUrl(url).Ok? && NormalizeNodeNpmUrl(url).value.path.Hier? ==>
              Clean(NormalizeNodeNpmUrl(url).value.path.segments)
  {
    var p := Pathname(url);
    if p != "" && p != "/" {
      var rooted := if StartsWith(p, "/") then p else "/" + p;
      var pathname := if |Split(rooted, '/')| < 3 then rooted + "/" else rooted;
      ParsedClean(Protocol(url) + pathname);
    }
  }

  lemma CleanDir(segs: seq<string>)
    requires Clean(segs)
    ensures Clean(Dir(segs))
  {
    if |segs| > 0 {
      forall i | 0 <= i < |Dir(segs)| ensures Dir(segs)[i] != "." && Dir(segs)[i] != ".." && '/' !in Dir(segs)[i] {
        assert Dir(segs)[i] == segs[i];
      }
    }
  }

  lemma CleanSnoc(segs: seq<string>, s: string)
    requires Clean(segs) && s != "." && s != ".." && '/' !in s
    ensures Clean(segs + [s])
  {
    forall i | 0 <= i < |segs + [s]| ensures (segs + [s])[i] != "." && (segs + [s])[i] != ".." && '/' !in (segs + [s])[i] {
      if i < |segs| { assert (segs + [s])[i] == segs[i]; }
    }
  }

  /** Dot removal passes a clean prefix straight to its output. */
  lemma {:induction false} RemoveDotsAfterClean(out: seq<string>, a: seq<string>, b: seq<string>)
    requires Clean(a)
    ensures RemoveDotsFrom(out, a + b) == RemoveDotsFrom(out + a, b)
    decreases |a|
  {
    if |a| == 0 {
      assert a + b == b;
      assert out + a == out;
    } else {
      assert (a + b)[0] == a[0];
      assert (a + b)[1..] == a[1..] + b;
      assert Clean(a[1..]) by {
        forall i | 0 <= i < |a[1..]| ensures a[1..][i] != "." && a[1..][i] != ".." && '/' !in a[1..][i] {
          assert a[1..][i] == a[i + 1];
        }
      }
      RemoveDotsAfterClean(out + [a[0]], a[1..], b);
      assert out + [a[0]] + a[1..] == out + a;
    }
  }

  /** Pieces a relative path reference is written with. */
  ghost predicate RelativePieces(pieces: seq<string>) {
    && |pieces| >= 1 && pieces[0] != ""
    && forall i :: 0 <= i < |pieces| ==>
         '/' !in pieces[i] && ':' !in pieces[i] && '?' !in pieces[i] && '#' !in pieces[i]
  }

  /** Such a reference has no scheme, query or fragment and does not start
      with `/`. */
  lemma RelativeReference(pieces: seq<string>, base: Url)
    requires RelativePieces(pieces)
    ensures Resolve(Join(pieces, "/"), base) == ResolveParts(Join(pieces, "/"), None, None, base)
    ensures var p := Join(pieces, "/"); p != "" && !StartsWith(p, "/") && !StartsWith(p, "//")
  {
    var p := Join(pieces, "/");
    JoinAbsent(pieces, '#');
    JoinAbsent(pieces, '?');
    JoinAbsent(pieces, ':');
    SplitOffAbsent(p, '#');
    SplitOffAbsent(p, '?');
    assert SchemeEnd(p).None?;
    JoinStart(pieces, "/");
    assert p[0] != '/' by { assert pieces[0][0] in pieces[0]; }
  }

  /** A relative reference of `/`-free pieces with no `:`, `?` or `#` is
      merged with the directory of a hierarchical base; against an opaque
      base it does not resolve. */
  lemma ResolveRelative(pieces: seq<string>, base: Url)
    requires RelativePieces(pieces)
    ensures base.path.Hier? ==>
              Resolve(Join(pieces, "/"), base) == Some(At(base, RemoveDots(Dir(base.path.segments) + pieces)))
    ensures base.path.Opaque? ==> Resolve(Join(pieces, "/"), base).None?
  {
    RelativeReference(pieces, base);
    SplitJoin(pieces, '/');
  }

  /** Against a hierarchical base with clean segments, such a reference
      continues dot removal from the base's directory. */
  lemma ResolveInDirectory(pieces: seq<string>, u: Url)
    requires RelativePieces(pieces)
    requires u.path.Hier? && Clean(u.path.segments)
    ensures Resolve(Join(pieces, "/"), u) == Some(At(u, RemoveDotsFrom(Dir(u.path.segments), pieces)))
  {
    ResolveRelative(pieces, u);
    var d := Dir(u.path.segments);
    CleanDir(u.path.segments);
    RemoveDotsAfterClean([], d, pieces);
    assert [] + d == d;
  }

  lemma JoinTwo(a: string, b: string)
    ensures Join([a, b], "/") == a + "/" + b
  {
    assert [a, b][1..] == [b];
  }

  lemma DotThenName(d: seq<string>, name: string)
    requires name != "." && name != ".."
    ensures RemoveDotsFrom(d, [".", name]) == d + [name]
  {
    var input := [".", name];
    assert input[0] == "." && input[1..] == [name] && |input| == 2;
    assert RemoveDotsFrom(d, input) == RemoveDotsFrom(d + [], [name]);
    assert d + [] == d;
    assert [name][1..] == [];
  }

  lemma UpThenName(d: seq<string>, name: string)
    requires name != "." && name != ".."
    ensures RemoveDotsFrom(d, ["..", name]) == Dir(d) + [name]
  {
    var input := ["..", name];
    assert input[0] == ".." && input[1..] == [name] && |input| == 2;
    assert RemoveDotsFrom(d, input) == RemoveDotsFrom(Dir(d) + [], [name]);
    assert Dir(d) + [] == Dir(d);
    assert [name][1..] == [];
  }

  /** `new URL('package.json', u)`: the `package.json` beside the last segment. */
  lemma ResolveManifest(u: Url)
    requires u.path.Hier? && Clean(u.path.segments)
    ensures var m := At(u, Dir(u.path.segments) + ["package.json"]);
            Resolve(ManifestName, u) == Some(m) && Clean(m.path.segments)
  {
    assert Join([ManifestName], "/") == ManifestName;
    ResolveInDirectory(["package.json"], u);
    CleanDir(u.path.segments);
    CleanSnoc(Dir(u.path.segments), "package.json");
  }

  /** `new URL('./package.json', u)`: the same file, and no file at all
      against an opaque path. */
  lemma ResolveSiblingManifest(u: Url)
    requires u.path.Hier? ==> Clean(u.path.segments)
    ensures u.path.Opaque? ==> Resolve(SiblingManifest, u).None?
    ensures u.path.Hier? ==>
              var m := At(u, Dir(u.path.segments) + ["package.json"]);
              Resolve(SiblingManifest, u) == Some(m) && Clean(m.path.segments)
  {
    JoinTwo(".", "package.json");
    assert SiblingManifest == Join([".", "package.json"], "/");
    ResolveRelative([".", "package.json"], u);
    if u.path.Hier? {
      ResolveInDirectory([".", "package.json"], u);
      DotThenName(Dir(u.path.segments), "package.json");
      CleanDir(u.path.segments);
      CleanSnoc(Dir(u.path.segments), "package.json");
    }
  }

  /** `new URL('../package.json', u)`: the `package.json` one directory up. */
  lemma ResolveParentManifest(u: Url)
    requires u.path.Hier? && Clean(u.path.segments)
    ensures var m := At(u, Dir(Dir(u.path.segments)) + ["package.json"]);
            Resolve(ParentManifestRef, u) == Some(m) && Clean(m.path.segments)
  {
    JoinTwo("..", "package.json");
    assert ParentManifestRef == Join(["..", "package.json"], "/");
    ResolveInDirectory(["..", "package.json"], u);
    UpThenName(Dir(u.path.segments), "package.json");
    CleanDir(u.path.segments);
    CleanDir(Dir(u.path.segments));
    CleanSnoc(Dir(Dir(u.path.segments)), "package.json");
  }

  /** `new URL('.', u)`: the directory of the last segment, with its `/`. */
  lemma ResolveHere(u: Url)
    requires u.path.Hier? && Clean(u.path.segments)
    ensures var m := At(u, Dir(u.path.segments) + [""]);
            Resolve(Here, u) == Some(m) && Clean(m.path.segments)
  {
    assert Here == Join(["."], "/");
    ResolveInDirectory(["."], u);
    assert RemoveDotsFrom(Dir(u.path.segments), ["."]) == RemoveDotsFrom(Dir(u.path.segments) + [""], []);
    CleanDir(u.path.segments);
    CleanSnoc(Dir(u.path.segments), "");
  }

  /** `new URL('..', u)`: the parent of that directory, with its `/`. */
  lemma ResolveUp(u: Url)
    requires u.path.Hier? && Clean(u.path.segments)
    ensures var m := At(u, Dir(Dir(u.path.segments)) + [""]);
            Resolve(Up, u) == Some(m) && Clean(m.path.segments)
  {
    assert Up == Join([".."], "/");
    ResolveInDirectory([".."], u);
    assert RemoveDotsFrom(Dir(u.path.segments), [".."]) == RemoveDotsFrom(Dir(Dir(u.path.segments)) + [""], []);
    CleanDir(u.path.segments);
    CleanDir(Dir(u.path.segments));
    CleanSnoc(Dir(Dir(u.path.segments)), "");
  }

  /** A pathname splits into one more part than it has segments. */
  lemma PathnameParts(segs: seq<string>)
    requires |segs| >= 1 && Clean(segs)
    ensures |Split(PathString(Hier(segs)), '/')| == |segs| + 1
  {
    PathStringSplit(segs);
  }

  // ---------------------------------------------------------------------------
  // findClosestPackageScope

  /** The loop of `findClosestPackageScope` from the candidate `pj` on: an
      existing `package.json` ends it at its directory; otherwise the
      candidate moves one directory up, and the search gives up once the
      candidate's pathname splits into fewer than three parts. */
  function ScopeSearch(pj: Url, cache: Cache): Result<Option<Url>>
    requires pj.path.Hier? && Clean(pj.path.segments)
    decreases |pj.path.segments|
  {
    var found :- TestCacheFileExistence(pj, cache);
    if found.Some? then
      ResolveHere(pj);
      Ok(Some(Resolve(Here, pj).value))
    else
      ResolveParentManifest(pj);
      var up := Resolve(ParentManifestRef, pj).value;
      if |Split(Pathname(up), '/')| < 3 then Ok(None)
      else
        PathnameParts(up.path.segments);
        ScopeSearch(up, cache)
  }

  /** The first candidate is the `package.json` beside the normalised URL's
      last segment. */
  lemma FirstCandidate(n: Url)
    requires n.path.Hier? ==> Clean(n.path.segments)
    ensures Resolve(SiblingManifest, n).Some? ==>
              n.path.Hier? && Resolve(SiblingManifest, n).value == At(n, Dir(n.path.segments) + ["package.json"]) &&
              Clean(Resolve(SiblingManifest, n).value.path.segments)
  {
    ResolveSiblingManifest(n);
  }

  /** `findClosestPackageScope(url, cacheRoot)` */
  function ClosestPackageScope(url: Url, cache: Cache): Result<Option<Url>> {
    var normalizedUrl :- NormalizeNodeNpmUrl(url);
    var first :- Need(Resolve(SiblingManifest, normalizedUrl), InvalidURLError);
    NormalizedClean(url);
    FirstCandidate(normalizedUrl);
    ScopeSearch(first, cache)
  }

  /** The `while` loop of `findClosestPackageScope`, which moves
      `packageJsonUrl` up one directory per turn. */
  method FindClosestPackageScope(url: Url, cache: Cache) returns (r: Result<Option<Url>>)
    ensures r == ClosestPackageScope(url, cache)
  {
    var normalizedUrl := NormalizeNodeNpmUrl(url);
    if normalizedUrl.Err? {
      return Err(normalizedUrl.message);
    }
    var first := Resolve(SiblingManifest, normalizedUrl.value);
    if first.None? {
      return Err(InvalidURLError);
    }
    NormalizedClean(url);
    FirstCandidate(normalizedUrl.value);
    var packageJsonUrl := first.value;
    while true
      invariant packageJsonUrl.path.Hier? && Clean(packageJsonUrl.path.segments)
      invariant ScopeSearch(packageJsonUrl, cache) == ClosestPackageScope(url, cache)
      decreases |packageJsonUrl.path.segments|
    {
      var found := TestCacheFileExistence(packageJsonUrl, cache);
      if found.Err? {
        return Err(found.message);
      }
      if found.value.Some? {
        break;
      }
      ResolveParentManifest(packageJsonUrl);
      packageJsonUrl := Resolve(ParentManifestRef, packageJsonUrl).value;
      if |Split(Pathname(packageJsonUrl), '/')| < 3 {
        return Ok(None);
      }
      PathnameParts(packageJsonUrl.path.segments);
    }
    ResolveHere(packageJsonUrl);
    r := Ok(Some(Resolve(Here, packageJsonUrl).value));
  }

  // ---------------------------------------------------------------------------
  // The search as a walk over directories

  /** The `package.json` candidate in the directory `d` under `base`. */
  function ManifestIn(base: Url, d: seq<string>): Url {
    At(base, d + ["package.json"])
  }

  /** One step up from the candidate in `d` is the candidate in `d`'s parent. */
  lemma ManifestUp(base: Url, d: seq<string>)
    requires Clean(d) && |d| >= 1
    ensures Clean(ManifestIn(base, d).path.segments)
    ensures Resolve(ParentManifestRef, ManifestIn(base, d)) == Some(ManifestIn(base, d[..|d| - 1]))
    ensures Resolve(Here, ManifestIn(base, d)) == Some(At(base, d + [""]))
  {
    var pj := ManifestIn(base, d);
    CleanSnoc(d, "package.json");
    ResolveParentManifest(pj);
    ResolveHere(pj);
    assert Dir(d + ["package.json"]) == d;
  }

  lemma CleanManifestIn(base: Url, d: seq<string>)
    requires Clean(d)
    ensures Clean(Dir(d)) && Clean(ManifestIn(base, d).path.segments)
  {
    CleanDir(d);
    CleanSnoc(d, "package.json");
  }

  /** A turn of the search that finds the `package.json` in `d` ends at `d`. */
  lemma ScopeSearchHit(base: Url, d: seq<string>, cache: Cache)
    requires Clean(d) && |d| >= 1 && Clean(ManifestIn(base, d).path.segments)
    requires Hit(Some(ManifestIn(base, d)), cache)
    ensures ScopeSearch(ManifestIn(base, d), cache) == Ok(Some(At(base, d + [""])))
  {
    ManifestUp(base, d);
  }

  /** A turn of the search that misses in `d` goes on in `d`'s parent ... */
  lemma ScopeSearchUp(base: Url, d: seq<string>, cache: Cache)
    requires Clean(d) && |d| >= 2 && Clean(Dir(d))
    requires Clean(ManifestIn(base, d).path.segments) && Clean(ManifestIn(base, Dir(d)).path.segments)
    requires Miss(Some(ManifestIn(base, d)), cache)
    ensures ScopeSearch(ManifestIn(base, d), cache) == ScopeSearch(ManifestIn(base, Dir(d)), cache)
  {
    ManifestUp(base, d);
    PathnameParts(ManifestIn(base, Dir(d)).path.segments);
  }

  /** ... except at the package root, where it gives up. */
  lemma ScopeSearchRoot(base: Url, d: seq<string>, cache: Cache)
    requires Clean(d) && |d| == 1 && Clean(ManifestIn(base, d).path.segments)
    requires Miss(Some(ManifestIn(base, d)), cache)
    ensures ScopeSearch(ManifestIn(base, d), cache) == Ok(None)
  {
    ManifestUp(base, d);
    PathnameParts(ManifestIn(base, Dir(d)).path.segments);
  }

  /** The `package.json` is missing in every directory `d[..j]` with
      `lo < j <= |d|`. */
  ghost predicate MissesAbove(base: Url, d: seq<string>, lo: nat, cache: Cache) {
    forall j :: lo < j <= |d| ==> Miss(Some(ManifestIn(base, d[..j])), cache)
  }

  lemma MissesAboveShift(base: Url, d: seq<string>, lo: nat, cache: Cache)
    requires lo < |d| && MissesAbove(base, d, lo, cache)
    ensures Miss(Some(ManifestIn(base, d)), cache) && MissesAbove(base, Dir(d), lo, cache)
  {
    assert d[..|d|] == d;
    forall j | lo < j <= |Dir(d)| ensures Miss(Some(ManifestIn(base, Dir(d)[..j])), cache) {
      assert Dir(d)[..j] == d[..j];
    }
  }

  /** Below the nearest hit the search moves up one directory. */
  lemma NearestStep(base: Url, d: seq<string>, k: nat, cache: Cache)
    requires Clean(d) && 1 <= k < |d|
    requires Hit(Some(ManifestIn(base, d[..k])), cache)
    requires MissesAbove(base, d, k, cache)
    ensures Clean(Dir(d)) && k <= |Dir(d)| && Dir(d)[..k] == d[..k] && MissesAbove(base, Dir(d), k, cache)
    ensures Clean(ManifestIn(base, d).path.segments) && Clean(ManifestIn(base, Dir(d)).path.segments)
    ensures ScopeSearch(ManifestIn(base, d), cache) == ScopeSearch(ManifestIn(base, Dir(d)), cache)
  {
    CleanManifestIn(base, d);
    CleanManifestIn(base, Dir(d));
    MissesAboveShift(base, d, k, cache);
    ScopeSearchUp(base, d, cache);
  }

  /** The search stops at the nearest directory, counting down from `d`
      itself, whose `package.json` exists. */
  lemma {:induction false} ScopeSearchNearest(base: Url, d: seq<string>, k: nat, cache: Cache)
    requires Clean(d) && 1 <= k <= |d|
    requires Hit(Some(ManifestIn(base, d[..k])), cache)
    requires MissesAbove(base, d, k, cache)
    ensures Clean(ManifestIn(base, d).path.segments)
    ensures ScopeSearch(ManifestIn(base, d), cache) == Ok(Some(At(base, d[..k] + [""])))
    decreases |d|
  {
    CleanManifestIn(base, d);
    if k < |d| {
      NearestStep(base, d, k, cache);
      ScopeSearchNearest(base, Dir(d), k, cache);
    } else {
      assert d[..k] == d;
      ScopeSearchHit(base, d, cache);
    }
  }

  /** When no directory down to the package root has a `package.json`, the
      search finds nothing. */
  lemma {:induction false} ScopeSearchNone(base: Url, d: seq<string>, cache: Cache)
    requires Clean(d) && |d| >= 1
    requires MissesAbove(base, d, 0, cache)
    ensures Clean(ManifestIn(base, d).path.segments)
    ensures ScopeSearch(ManifestIn(base, d), cache) == Ok(None)
    decreases |d|
  {
    CleanManifestIn(base, d);
    MissesAboveShift(base, d, 0, cache);
    if |d| == 1 {
      ScopeSearchRoot(base, d, cache);
    } else {
      CleanManifestIn(base, Dir(d));
      ScopeSearchUp(base, d, cache);
      ScopeSearchNone(base, Dir(d), cache);
    }
  }

  /** On a package location, the search starts at the `package.json` in the
      directory of the normalised path. */
  lemma ClosestPackageScopeSearch(url: Url, cache: Cache)
    requires PackagePath(url)
    ensures var d := Dir(NormalSegments(url.path));
            |d| >= 1 && Clean(d) && Clean(ManifestIn(NormalForm(url), d).path.segments) &&
            ClosestPackageScope(url, cache) == ScopeSearch(ManifestIn(NormalForm(url), d), cache)
  {
    NormalizeOf(url);
    NormalizedClean(url);
    var n := NormalForm(url);
    FirstCandidate(n);
    ResolveSiblingManifest(n);
    CleanDir(n.path.segments);
  }

  // ---------------------------------------------------------------------------
  // Bounds: a scope found from the parent of a scope is shorter

  lemma {:induction false} RemoveDotsLength(out: seq<string>, input: seq<string>)
    ensures |RemoveDotsFrom(out, input)| <= |out| + |input|
    decreases |input|
  {
    if |input| > 0 {
      var s, last := input[0], |input| == 1;
      var next :=
        if s == "." then out + (if last then [""] else [])
        else if s == ".." then Dir(out) + (if last then [""] else [])
        else out + [s];
      RemoveDotsLength(next, input[1..]);
    }
  }

  /** The path after a `/` has no more segments than that `/` and the rest's. */
  lemma HierPathBound(x: string)
    ensures |HierPath(x).segments| <= Count("/" + x, '/')
  {
    CountAppend("/", x, '/');
    SplitLength(x, '/');
    RemoveDotsLength([], Split(x, '/'));
  }

  lemma AuthorityPathBound(r: string, j: nat)
    requires j < |r| && r[j] == '/'
    ensures |HierPath(r[j + 1..]).segments| <= Count("//" + r, '/')
  {
    var x := r[j + 1..];
    assert r == r[..j] + ("/" + x);
    CountAppend(r[..j], "/" + x, '/');
    CountAppend("//", r, '/');
    HierPathBound(x);
  }

  /** A parsed hierarchical path has no more segments than the text has `/`. */
  lemma HierPartBound(rest: string)
    ensures ParseHierPart(rest).1.Hier? ==> |ParseHierPart(rest).1.segments| <= Count(rest, '/')
  {
    if StartsWith(rest, "//") {
      var r := rest[2..];
      assert rest == "//" + r;
      match IndexOf(r, '/')
      case None =>
        CountAppend("//", r, '/');
      case Some(j) =>
        AuthorityPathBound(r, j);
    } else if StartsWith(rest, "/") {
      assert rest == "/" + rest[1..];
      HierPathBound(rest[1..]);
    }
  }

  lemma SplitOffCount(s: string, c: char)
    ensures Count(SplitOff(s, c).0, '/') <= Count(s, '/')
  {
    match IndexOf(s, c)
    case None =>
    case Some(i) =>
      assert s == s[..i] + s[i..];
      CountAppend(s[..i], s[i..], '/');
  }

  /** Parsing `scheme:` and a pathname gives at most as many segments as the
      pathname has `/`. */
  lemma ParseBound(scheme: string, p: string)
    requires ValidScheme(scheme)
    ensures Parse(scheme + ":" + p).Some?
    ensures Parse(scheme + ":" + p).value.scheme == scheme
    ensures Parse(scheme + ":" + p).value.path.Hier? ==> |Parse(scheme + ":" + p).value.path.segments| <= Count(p, '/')
  {
    var s := scheme + ":" + p;
    SchemeEndOfScheme(scheme, p);
    assert s[..|scheme|] == scheme;
    assert s[|scheme| + 1..] == p;
    var (rest0, fragment) := SplitOff(p, '#');
    var (rest, query) := SplitOff(rest0, '?');
    SplitOffCount(p, '#');
    SplitOffCount(rest0, '?');
    HierPartBound(rest);
  }

  /** Normalising a clean location of at least two segments keeps its
      pathname, so the parsed result has no more segments. */
  lemma NormalizeBound(u: Url)
    requires ValidScheme(u.scheme) && u.path.Hier? && Clean(u.path.segments) && |u.path.segments| >= 2
    ensures NormalizeNodeNpmUrl(u).Ok?
    ensures var n := NormalizeNodeNpmUrl(u).value;
            n.scheme == u.scheme && (n.path.Hier? ==> |n.path.segments| <= |u.path.segments|)
  {
    var segs := u.path.segments;
    var p := Pathname(u);
    PathStringSplit(segs);
    SplitLength(p, '/');
    assert StartsWith(p, "/");
    ParseBound(u.scheme, p);
  }

  /** Scopes found by the search keep the scheme, stay clean, and are no
      longer than the candidate the search started from. */
  lemma {:induction false} ScopeSearchBound(pj: Url, cache: Cache)
    requires pj.path.Hier? && Clean(pj.path.segments) && |pj.path.segments| >= 1
    ensures var r := ScopeSearch(pj, cache);
            r.Ok? && r.value.Some? ==>
              r.value.value.scheme == pj.scheme && r.value.value.path.Hier? &&
              Clean(r.value.value.path.segments) &&
              1 <= |r.value.value.path.segments| <= |pj.path.segments|
    decreases |pj.path.segments|
  {
    var found := TestCacheFileExistence(pj, cache);
    if found.Ok? {
      if found.value.Some? {
        ResolveHere(pj);
      } else {
        ResolveParentManifest(pj);
        var up := Resolve(ParentManifestRef, pj).value;
        if |Split(Pathname(up), '/')| >= 3 {
          PathnameParts(up.path.segments);
          ScopeSearchBound(up, cache);
        }
      }
    }
  }

  /** The search starts beside the last segment of the normalised URL. */
  lemma ClosestFromNormal(u: Url, n: Url, cache: Cache)
    requires NormalizeNodeNpmUrl(u) == Ok(n)
    ensures n.path.Opaque? ==> ClosestPackageScope(u, cache).Err?
    ensures n.path.Hier? ==>
              Clean(n.path.segments) && Clean(Dir(n.path.segments) + ["package.json"]) &&
              ClosestPackageScope(u, cache) == ScopeSearch(At(n, Dir(n.path.segments) + ["package.json"]), cache)
  {
    NormalizedClean(u);
    ResolveSiblingManifest(n);
  }

  /** A URL the self-package walk can stand on: a valid scheme and clean,
      non-empty hierarchical segments. */
  ghost predicate ScopeShape(u: Url) {
    ValidScheme(u.scheme) && u.path.Hier? && Clean(u.path.segments) && |u.path.segments| >= 1
  }

  /** Every scope the search finds has that shape. */
  lemma ClosestScopeShape(u: Url, cache: Cache)
    ensures var r := ClosestPackageScope(u, cache);
            r.Ok? && r.value.Some? ==> ScopeShape(r.value.value)
  {
    var n := NormalizeNodeNpmUrl(u);
    if n.Ok? {
      NormalizedClean(u);
      ClosestFromNormal(u, n.value, cache);
      if n.value.path.Hier? {
        ScopeSearchBound(At(n.value, Dir(n.value.path.segments) + ["package.json"]), cache);
      }
    }
  }

  /** A scope found from a clean location of at least two segments keeps
      the scheme and has no more segments than the location. */
  lemma ClosestScopeBound(u: Url, cache: Cache)
    requires ValidScheme(u.scheme) && u.path.Hier? && Clean(u.path.segments) && |u.path.segments| >= 2
    ensures var r := ClosestPackageScope(u, cache);
            r.Ok? && r.value.Some? ==>
              r.value.value.scheme == u.scheme && r.value.value.path.Hier? &&
              Clean(r.value.value.path.segments) &&
              1 <= |r.value.value.path.segments| <= |u.path.segments|
  {
    NormalizeBound(u);
    var n := NormalizeNodeNpmUrl(u).value;
    ClosestFromNormal(u, n, cache);
    if n.path.Hier? {
      ScopeSearchBound(At(n, Dir(n.path.segments) + ["package.json"]), cache);
    }
  }

  /** The parent of a scope with at least three segments, and any scope
      found from it, has fewer segments: the self-package walk of
      `resolveImport` ends. */
  lemma ScopeShrinks(scope: Url, cache: Cache)
    requires ValidScheme(scope.scheme) && scope.path.Hier? && Clean(scope.path.segments)
    requires |scope.path.segments| >= 3
    ensures Resolve(Up, scope).Some?
    ensures var r := ClosestPackageScope(Resolve(Up, scope).value, cache);
            r.Ok? && r.value.Some? ==>
              ValidScheme(r.value.value.scheme) && r.value.value.path.Hier? &&
              Clean(r.value.value.path.segments) &&
              1 <= |r.value.value.path.segments| < |scope.path.segments|
  {
    ResolveUp(scope);
    ClosestScopeBound(Resolve(Up, scope).value, cache);
  }
}
