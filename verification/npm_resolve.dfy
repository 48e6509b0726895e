/** src/npm/resolveImport.ts: resolving an import made from a local file or
    from inside an npm package to the URL of a file in the npm cache. Core
    modules come first, then relative paths probed the way Node.js loads
    CommonJS files (`LOAD_AS_FILE`, `LOAD_INDEX`, `LOAD_AS_DIRECTORY`), then
    package names looked up in the lock file; an import map may replace the
    answer. Every `new URL(...)` that can throw and every thrown `Error` is an
    `Err`; `Ok(None)` is the source's `null`. */
module NpmResolve {
  import opened Wrappers
  import opened Strs
  import opened Records
  import opened Urls
  import opened PackageManifest
  import opened NpmCacheUrl
  import opened NpmModuleName
  import opened NpmCoreModule
  import opened NpmExports
  import opened LockMaps
  import opened CacheFiles
  import opened ImportMapResolvers

  const AbsoluteImportError := "Absolute path import is not permitted in Node.js modules."

  /** What `resolveFileImport` appends to the URL, in probing order. */
  const FileSuffixes: seq<string> := [".js", ".cjs", ".mjs", ".json", ".node"]

  /** The index files `resolveIndexJsImport` looks for, in probing order. */
  const IndexFiles: seq<string> := ["index.js", "index.cjs", "index.mjs", "index.json", "index.node"]

  /** `new URL(`${url.href}${suffix}`)` for each suffix. */
  function Suffixed(url: Url, suffixes: seq<string>): (r: seq<Option<Url>>)
    ensures |r| == |suffixes|
    ensures forall i :: 0 <= i < |r| ==> r[i] == Parse(Href(url) + suffixes[i])
  {
    seq(|suffixes|, i requires 0 <= i < |suffixes| => Parse(Href(url) + suffixes[i]))
  }

  /** `new URL(name, dir)` for each name. */
  function InDirectory(dir: Url, names: seq<string>): (r: seq<Option<Url>>)
    ensures |r| == |names|
    ensures forall i :: 0 <= i < |r| ==> r[i] == Resolve(names[i], dir)
  {
    seq(|names|, i requires 0 <= i < |names| => Resolve(names[i], dir))
  }

  /** The URL itself, then the URL with each suffix. */
  function FileCandidates(url: Url): seq<Option<Url>> {
    [Some(url)] + Suffixed(url, FileSuffixes)
  }

  /** `resolveFileImport(url, cacheRoot)` */
  function ResolveFileImport(url: Url, cache: Cache): Result<Option<Url>> {
    FirstExisting(FileCandidates(url), cache)
  }

  /** `if (!url.href.endsWith('/')) url = new URL(`${url.href}/`)` */
  function AsDirectory(url: Url): Result<Url> {
    if EndsWith(Href(url), "/") then Ok(url) else Need(Parse(Href(url) + "/"), InvalidURLError)
  }

  /** `resolveIndexJsImport(url, cacheRoot)` */
  function ResolveIndexJsImport(url: Url, cache: Cache): Result<Option<Url>> {
    var dir :- AsDirectory(url);
    FirstExisting(InDirectory(dir, IndexFiles), cache)
  }

  /** `getPackageJSONExports(packageJSON)` with its defaults: `main` is used
      and `require` is preferred to `import`. */
  function DefaultExports(pj: PackageJson): Result<Record<string>> {
    ExportsTable(pj, true, RequireFirst)
  }

  /** `resolveDirectoryImport(url, cacheRoot)` */
  function ResolveDirectoryImport(url: Url, cache: Cache): Result<Option<Url>> {
    var dir :- AsDirectory(url);
    var manifestURL :- Need(Resolve("package.json", dir), InvalidURLError);
    ProbeDirectory(dir, manifestURL, cache)
  }

  /** The rest of `resolveDirectoryImport`, once `dir` ends with `/` and
      the URL of its `package.json` is built. */
  function ProbeDirectory(dir: Url, manifestURL: Url, cache: Cache): Result<Option<Url>> {
    var found :- TestCacheFileExistence(manifestURL, cache);
    if found.None? then ResolveIndexJsImport(dir, cache)
    else
      var pj :- ReadManifest(manifestURL, cache);
      var exports :- DefaultExports(pj);
      match Get(exports, ".")
      case None => Ok(None)
      case Some(main) =>
        var mainURL :- Need(Resolve(main, dir), InvalidURLError);
        MainChain(mainURL, dir, cache)
  }

  /** `resolveFileImport(mainURL) ?? resolveIndexJsImport(mainURL) ?? resolveIndexJsImport(url)` */
  function MainChain(mainURL: Url, dir: Url, cache: Cache): Result<Option<Url>> {
    var asFile :- ResolveFileImport(mainURL, cache);
    if asFile.Some? then Ok(asFile)
    else
      var mainIndex :- ResolveIndexJsImport(mainURL, cache);
      if mainIndex.Some? then Ok(mainIndex)
      else ResolveIndexJsImport(dir, cache)
  }

  predicate IsRelative(specifier: string) {
    StartsWith(specifier, "./") || StartsWith(specifier, "../")
  }

  /** `resolveRelativeImport(moduleSpecifier, importer, cacheRoot)` */
  function ResolveRelativeImport(specifier: string, importer: Url, cache: Cache): Result<Option<Url>> {
    if StartsWith(specifier, "/") then Err(AbsoluteImportError)
    else if IsRelative(specifier) then
      var url :- Need(Resolve(specifier, importer), InvalidURLError);
      FileThenDirectory(url, cache)
    else Ok(None)
  }

  /** `resolveFileImport(url) ?? resolveDirectoryImport(url)` */
  function FileThenDirectory(url: Url, cache: Cache): Result<Option<Url>> {
    var asFile :- ResolveFileImport(url, cache);
    if asFile.Some? then Ok(asFile) else ResolveDirectoryImport(url, cache)
  }

  /** `resolvePackageSpecifier(moduleSpecifier, importer, lockMap)`: a
      local importer names packages by `npm:` specifier, a package importer
      by bare name; the lock file gives the full name to use. */
  function ResolvePackageSpecifier(specifier: string, importer: Url, lockMap: LockMapV3): Result<Option<Url>> {
    if Protocol(importer) == "file:" then
      if !StartsWith(specifier, "npm:") then Ok(None)
      else
        match DecomposeNPMModuleURL(specifier)
        case None => Ok(None)
        case Some(m) =>
          match Truthy(SpecifierEntry(lockMap, "npm:" + m.fullName))
          case None => Ok(None)
          case Some(fullName) =>
            var u :- Need(Parse(fullName + m.path), InvalidURLError);
            Ok(Some(u))
    else if Protocol(importer) == "npm:" then
      var m := DecomposeNPMModuleURL("npm:" + specifier);
      var im := DecomposeNPMModuleURL(Href(importer));
      if m.None? || im.None? then Ok(None)
      else if m.value.name == im.value.name then
        var u :- Need(Parse("npm:" + im.value.fullName), InvalidURLError);
        Ok(Some(u))
      else
        match Truthy(DependencyEntry(lockMap, im.value.fullName, m.value.fullName))
        case None => Ok(None)
        case Some(fullName) =>
          var u :- Need(Parse("npm:" + fullName + m.value.path), InvalidURLError);
          Ok(Some(u))
    else Ok(None)
  }

  /** `resolvePackageImport(moduleSpecifier, importer, cacheRoot, lockMap)` */
  function ResolvePackageImport(specifier: string, importer: Url, cache: Cache, lockMap: LockMapV3)
    : Result<Option<Url>>
  {
    var packageURL :- ResolvePackageSpecifier(specifier, importer, lockMap);
    if packageURL.None? then Ok(None)
    else
      match DecomposeNPMModuleURL(Href(packageURL.value))
      case None => Ok(None)
      case Some(m) =>
        var root :- Need(Parse("npm:/" + m.fullName + "/"), InvalidURLError);
        var manifestURL :- Need(Resolve("package.json", root), InvalidURLError);
        var manifestFile :- ToCacheURL(manifestURL, cache.root);
        if Href(manifestFile) !in cache.files then Ok(None)
        else
          var pj :- ReadManifest(manifestURL, cache);
          var exports :- DefaultExports(pj);
          PackageEntry(m.path, exports, root)
  }

  /** The file a package path names: the `exports` answer for `.<path>`,
      else `path` itself, each resolved against the package root. `path`
      begins with `/`, so the second resolution leaves the package root
      (see `FallbackLeavesPackage`). */
  function PackageEntry(path: string, exports: Record<string>, root: Url): Result<Option<Url>> {
    var target := match ResolvePackageJSONExports("." + path, exports)
                  case Some(resolved) => resolved
                  case None => path;
    var u :- Need(Resolve(target, root), InvalidURLError);
    Ok(Some(u))
  }

  lemma ResolveAbsolutePlain(pieces: seq<string>, base: Url)
    requires |pieces| >= 1 && pieces[0] != "" && PlainSegments(pieces)
    requires base.path.Hier?
    ensures Resolve("/" + Join(pieces, "/"), base) == Some(base.(path := Hier(pieces), query := None, fragment := None))
  {
    var j := Join(pieces, "/");
    var p := "/" + j;
    JoinAbsent(pieces, '#');
    JoinAbsent(pieces, '?');
    assert '#' !in p && '?' !in p by {
      assert forall k :: 1 <= k < |p| ==> p[k] == j[k - 1];
    }
    SplitOffAbsent(p, '#');
    SplitOffAbsent(p, '?');
    assert SchemeEnd(p).None?;
    JoinStart(pieces, "/");
    assert pieces[0][0] in pieces[0];
    assert p[1] == j[0];
    assert !StartsWith(p, "//");
    assert StartsWith(p, "/");
    assert p[1..] == j;
    assert forall k :: 0 <= k < |pieces| ==> '/' !in pieces[k];
    SplitJoin(pieces, '/');
    assert "/" == ['/'];
    assert Clean(pieces);
    RemoveDotsClean(pieces);
  }

  /** A package path that `exports` does not cover is resolved from the
      scheme's root: `npm:/<fullName>/` with `/a/b` gives `npm:/a/b`, and the
      package segment is gone. */
  lemma FallbackLeavesPackage(pieces: seq<string>, exports: Record<string>, root: Url)
    requires |pieces| >= 1 && pieces[0] != "" && PlainSegments(pieces)
    requires root.path.Hier?
    requires ResolvePackageJSONExports("." + ("/" + Join(pieces, "/")), exports).None?
    ensures PackageEntry("/" + Join(pieces, "/"), exports, root)
            == Ok(Some(root.(path := Hier(pieces), query := None, fragment := None)))
  {
    ResolveAbsolutePlain(pieces, root);
  }

  /** `resolveCoreModuleImport(…) ?? resolveRelativeImport(…) ?? resolvePackageImport(…)` */
  function ResolveChain(specifier: string, importer: Url, cache: Cache, lockMap: LockMapV3): Result<Option<Url>> {
    var core := ResolveCoreModuleImport(specifier);
    if core.Some? then Ok(core)
    else
      var relative :- ResolveRelativeImport(specifier, importer, cache);
      if relative.Some? then Ok(relative)
      else ResolvePackageImport(specifier, importer, cache, lockMap)
  }

  /** `resolveImport(...)` with the import map resolver in state `st`. */
  function ResolveImportSpec(specifier: string, importer: Url, cache: Cache, lockMap: LockMapV3,
                             st: Option<ResolverState>): Result<Option<Url>>
  {
    var resolved :- ResolveChain(specifier, importer, cache, lockMap);
    if resolved.None? then Ok(None)
    else
      match st
      case None => Ok(resolved)
      case Some(s) =>
        var mapped :- ResolveSpec(s, Href(resolved.value), Some(importer), false);
        Ok(if mapped.Some? then mapped else resolved)
  }

  /** `resolveImport(moduleSpecifier, importer, cacheRoot, lockMap, importMapResolver)` */
  method ResolveImport(specifier: string, importer: Url, cache: Cache, lockMap: LockMapV3,
                       importMapResolver: Option<ImportMapResolver>)
    returns (r: Result<Option<Url>>)
    ensures r == ResolveImportSpec(specifier, importer, cache, lockMap,
                                   if importMapResolver.Some? then Some(importMapResolver.value.State()) else None)
  {
    var resolved := ResolveChain(specifier, importer, cache, lockMap);
    if resolved.Err? {
      return Err(resolved.message);
    }
    if resolved.value.None? {
      return Ok(None);
    }
    if importMapResolver.None? {
      return resolved;
    }
    var mapped := importMapResolver.value.Resolve(Href(resolved.value.value), Some(importer), false);
    if mapped.Err? {
      return Err(mapped.message);
    }
    return Ok(if mapped.value.Some? then mapped.value else resolved.value);
  }

  // ---------------------------------------------------------------------------
  // Probing

  /** `resolveFileImport` answers with the first of `url`, `url.js`,
      `url.cjs`, `url.mjs`, `url.json` and `url.node` whose cache file
      exists, after misses only, and is null exactly when every one is a miss. */
  lemma ResolveFileImportFirst(url: Url, cache: Cache)
    ensures var c := FileCandidates(url);
      && |c| == 6 && c[0] == Some(url)
      && (forall i :: 1 <= i < 6 ==> c[i] == Parse(Href(url) + FileSuffixes[i - 1]))
    ensures var c := FileCandidates(url);
      ResolveFileImport(url, cache) == Ok(None) <==> forall i :: 0 <= i < |c| ==> Miss(c[i], cache)
    ensures var c := FileCandidates(url); var r := ResolveFileImport(url, cache);
      r.Ok? && r.value.Some? ==>
        exists i :: 0 <= i < |c| && c[i] == r.value && Hit(c[i], cache) &&
                    forall j :: 0 <= j < i ==> Miss(c[j], cache)
  {
    var c := FileCandidates(url);
    forall i | 1 <= i < 6 ensures c[i] == Parse(Href(url) + FileSuffixes[i - 1]) {
      assert c[i] == Suffixed(url, FileSuffixes)[i - 1];
    }
    FirstExistingNull(c, cache);
    var r := ResolveFileImport(url, cache);
    if r.Ok? && r.value.Some? {
      FirstExistingHit(c, cache);
    }
  }

  /** A URL with a hierarchical path and nothing after it, written in a form
      the parser reads back. */
  ghost predicate PlainLocation(url: Url) {
    WellFormed(url) && url.path.Hier? && url.query.None? && url.fragment.None?
  }

  /** The segments of the directory a URL path names: a final empty
      segment (a trailing `/`) is dropped, anything else is kept. */
  function DirectorySegments(segs: seq<string>): seq<string>
    requires |segs| >= 1
  {
    if segs[|segs| - 1] == "" then segs[..|segs| - 1] else segs
  }

  /** The URL of the directory `url` names, written with its trailing `/`. */
  function DirectoryOf(url: Url): Url
    requires url.path.Hier? && |url.path.segments| >= 1
  {
    url.(path := Hier(DirectorySegments(url.path.segments) + [""]))
  }

  lemma DirectoryClean(segs: seq<string>)
    requires |segs| >= 1 && PlainSegments(segs)
    ensures Clean(DirectorySegments(segs) + [""])
  {
    var d := DirectorySegments(segs);
    forall i | 0 <= i < |d + [""]| ensures (d + [""])[i] != "." && (d + [""])[i] != ".." && '/' !in (d + [""])[i] {
      if i < |d| {
        assert (d + [""])[i] == segs[i];
        assert PlainSegment(segs[i]);
      }
    }
  }

  /** `url.href.endsWith('/') ? url : new URL(`${url.href}/`)` is the
      directory URL, and applying it again changes nothing. */
  lemma AsDirectoryOf(url: Url)
    requires PlainLocation(url)
    ensures AsDirectory(url) == Ok(DirectoryOf(url))
    ensures AsDirectory(DirectoryOf(url)) == Ok(DirectoryOf(url))
    ensures Clean(DirectoryOf(url).path.segments)
  {
    var segs := url.path.segments;
    var d := DirectorySegments(segs);
    HrefEndsWithSlash(url);
    if segs[|segs| - 1] == "" {
      assert segs == d + [""];
    } else {
      ParseHrefSlash(url);
    }
    DirectoryClean(segs);
    HrefEndsWithSlash(DirectoryOf(url));
  }

  /** A single plain name resolved against a directory URL lands inside it. */
  lemma ResolveInDirectoryOf(name: string, url: Url)
    requires PlainLocation(url)
    requires PlainSegment(name) && name != "" && ':' !in name
    ensures var d := DirectorySegments(url.path.segments);
            Resolve(name, DirectoryOf(url)) == Some(url.(path := Hier(d + [name])))
  {
    var d := DirectorySegments(url.path.segments);
    DirectoryClean(url.path.segments);
    assert Join([name], "/") == name;
    ResolvePlainSegments([name], DirectoryOf(url));
    assert (d + [""])[..|d|] == d;
  }

  lemma IndexFileNames()
    ensures forall i :: 0 <= i < |IndexFiles| ==>
              PlainSegment(IndexFiles[i]) && IndexFiles[i] != "" && ':' !in IndexFiles[i]
  {
  }

  lemma ManifestFileName()
    ensures PlainSegment("package.json") && "package.json" != "" && ':' !in "package.json"
  {
  }

  /** The index files of a URL's directory, as probing candidates. */
  function IndexCandidates(url: Url): seq<Option<Url>>
    requires url.path.Hier? && |url.path.segments| >= 1
  {
    InDirectory(DirectoryOf(url), IndexFiles)
  }

  /** `resolveIndexJsImport` probes `index.js`, `index.cjs`, `index.mjs`,
      `index.json` and `index.node` inside the directory the URL names,
      whether or not its `href` ends with `/`. */
  lemma IndexCandidatesInDirectory(url: Url)
    requires PlainLocation(url)
    ensures AsDirectory(url) == Ok(DirectoryOf(url))
    ensures var d := DirectorySegments(url.path.segments);
      forall i :: 0 <= i < |IndexFiles| ==>
        IndexCandidates(url)[i] == Some(url.(path := Hier(d + [IndexFiles[i]])))
  {
    AsDirectoryOf(url);
    IndexFileNames();
    forall i | 0 <= i < |IndexFiles|
      ensures IndexCandidates(url)[i] == Some(url.(path := Hier(DirectorySegments(url.path.segments) + [IndexFiles[i]])))
    {
      ResolveInDirectoryOf(IndexFiles[i], url);
    }
  }

  /** `resolveIndexJsImport` answers with the first index file that exists,
      after misses only, and is null exactly when every one is a miss. */
  lemma ResolveIndexJsImportFirst(url: Url, cache: Cache)
    requires PlainLocation(url)
    ensures var c := IndexCandidates(url);
      ResolveIndexJsImport(url, cache) == Ok(None) <==> forall i :: 0 <= i < |c| ==> Miss(c[i], cache)
    ensures var c := IndexCandidates(url); var r := ResolveIndexJsImport(url, cache);
      r.Ok? && r.value.Some? ==>
        exists i :: 0 <= i < |c| && c[i] == r.value && Hit(c[i], cache) &&
                    forall j :: 0 <= j < i ==> Miss(c[j], cache)
  {
    var c := IndexCandidates(url);
    AsDirectoryOf(url);
    FirstExistingNull(c, cache);
    var r := ResolveIndexJsImport(url, cache);
    if r.Ok? && r.value.Some? {
      FirstExistingHit(c, cache);
    }
  }

  /** With a `main` entry, the directory is probed as one flat list: the
      main file and its suffixed forms, then main's index files, then the
      directory's own index files. */
  lemma MainChainFlat(mainURL: Url, dir: Url, cache: Cache)
    requires PlainLocation(mainURL) && PlainLocation(dir)
    ensures MainChain(mainURL, dir, cache) ==
            FirstExisting(FileCandidates(mainURL) + IndexCandidates(mainURL) + IndexCandidates(dir), cache)
  {
    var a, b, c := FileCandidates(mainURL), IndexCandidates(mainURL), IndexCandidates(dir);
    AsDirectoryOf(mainURL);
    AsDirectoryOf(dir);
    FirstExistingAppend(a + b, c, cache);
    FirstExistingAppend(a, b, cache);
  }

  /** The `package.json` a directory import looks for. */
  function ManifestOf(url: Url): Url
    requires url.path.Hier? && |url.path.segments| >= 1
  {
    url.(path := Hier(DirectorySegments(url.path.segments) + ["package.json"]))
  }

  /** A directory import builds `dir/` and `dir/package.json`. */
  lemma DirectoryImportSteps(url: Url, cache: Cache)
    requires PlainLocation(url)
    ensures ResolveDirectoryImport(url, cache) == ProbeDirectory(DirectoryOf(url), ManifestOf(url), cache)
    ensures ResolveIndexJsImport(url, cache) == FirstExisting(IndexCandidates(url), cache)
  {
    AsDirectoryOf(url);
    ManifestFileName();
    ResolveInDirectoryOf("package.json", url);
    DirectoryImportOf(url, DirectoryOf(url), ManifestOf(url), cache);
  }

  lemma DirectoryImportOf(url: Url, dir: Url, manifestURL: Url, cache: Cache)
    requires AsDirectory(url) == Ok(dir) && Resolve("package.json", dir) == Some(manifestURL)
    ensures ResolveDirectoryImport(url, cache) == ProbeDirectory(dir, manifestURL, cache)
    ensures ResolveIndexJsImport(url, cache) == FirstExisting(InDirectory(dir, IndexFiles), cache)
  {
  }

  /** Without a `package.json` in the cache, a directory is read through its
      index files only. */
  lemma DirectoryWithoutManifest(url: Url, cache: Cache)
    requires PlainLocation(url)
    requires Miss(Some(ManifestOf(url)), cache)
    ensures ResolveDirectoryImport(url, cache) == FirstExisting(IndexCandidates(url), cache)
  {
    DirectoryImportSteps(url, cache);
    AsDirectoryOf(url);
    assert ProbeDirectory(DirectoryOf(url), ManifestOf(url), cache) == ResolveIndexJsImport(DirectoryOf(url), cache);
  }

  /** With a `package.json` whose exports table has no `.` entry, a
      directory import is null, even when index files exist. */
  lemma DirectoryWithoutMain(url: Url, cache: Cache)
    requires PlainLocation(url)
    requires Hit(Some(ManifestOf(url)), cache)
    requires ReadManifest(ManifestOf(url), cache).Ok?
    requires var exports := DefaultExports(ReadManifest(ManifestOf(url), cache).value);
             exports.Ok? && Get(exports.value, ".").None?
    ensures ResolveDirectoryImport(url, cache) == Ok(None)
  {
    DirectoryImportSteps(url, cache);
  }

  /** A relative specifier whose target has no `package.json` beside it is
      probed as `LOAD_AS_FILE` then `LOAD_INDEX`: the file and its suffixed
      forms, then the index files of the directory it names. */
  lemma RelativeWithoutManifest(specifier: string, importer: Url, cache: Cache)
    requires IsRelative(specifier)
    requires Resolve(specifier, importer).Some? && PlainLocation(Resolve(specifier, importer).value)
    requires Miss(Some(ManifestOf(Resolve(specifier, importer).value)), cache)
    ensures var url := Resolve(specifier, importer).value;
      ResolveRelativeImport(specifier, importer, cache) ==
        FirstExisting(FileCandidates(url) + IndexCandidates(url), cache)
  {
    var url := Resolve(specifier, importer).value;
    RelativeImportOf(specifier, importer, url, cache);
    DirectoryWithoutManifest(url, cache);
    FirstExistingAppend(FileCandidates(url), IndexCandidates(url), cache);
  }

  lemma RelativeImportOf(specifier: string, importer: Url, url: Url, cache: Cache)
    requires IsRelative(specifier) && Resolve(specifier, importer) == Some(url)
    ensures ResolveRelativeImport(specifier, importer, cache) == FileThenDirectory(url, cache)
  {
    if StartsWith(specifier, "./") {
      StartsWithDiffer(specifier, "./", "/");
    } else {
      StartsWithDiffer(specifier, "../", "/");
    }
  }

  /** `/` specifiers throw; specifiers that are neither `./` nor `../`
      relative are not this resolver's business. */
  lemma RelativeImportGuards(specifier: string, importer: Url, cache: Cache)
    ensures StartsWith(specifier, "/") ==> ResolveRelativeImport(specifier, importer, cache) == Err(AbsoluteImportError)
    ensures !StartsWith(specifier, "/") && !IsRelative(specifier) ==> ResolveRelativeImport(specifier, importer, cache) == Ok(None)
  {
  }

  // ---------------------------------------------------------------------------
  // Package specifiers

  /** The URL a lock-file entry names, or the error `new URL` throws. */
  function UrlOrThrow(href: string): Result<Option<Url>> {
    match Parse(href)
    case None => Err(InvalidURLError)
    case Some(u) => Ok(Some(u))
  }

  /** From a local file, an `npm:` specifier is looked up under
      `packages.specifiers["npm:<fullName>"]` and its path appended to the
      answer; the lock file matters only through that one entry. */
  lemma LocalImporterReadsSpecifiers(specifier: string, importer: Url, a: LockMapV3, b: LockMapV3)
    requires Protocol(importer) == "file:"
    requires StartsWith(specifier, "npm:") && DecomposeNPMModuleURL(specifier).Some?
    requires var m := DecomposeNPMModuleURL(specifier).value;
             SpecifierEntry(a, "npm:" + m.fullName) == SpecifierEntry(b, "npm:" + m.fullName)
    ensures ResolvePackageSpecifier(specifier, importer, a) == ResolvePackageSpecifier(specifier, importer, b)
    ensures var m := DecomposeNPMModuleURL(specifier).value;
            var entry := SpecifierEntry(a, "npm:" + m.fullName);
      ResolvePackageSpecifier(specifier, importer, a) ==
        if entry.Some? && entry.value != "" then UrlOrThrow(entry.value + m.path) else Ok(None)
  {
  }

  /** From inside a package, a bare name is looked up in that package's
      `dependencies` in the lock file, and the lock file matters only
      through that one entry. */
  lemma PackageImporterReadsDependencies(specifier: string, importer: Url, a: LockMapV3, b: LockMapV3)
    requires Protocol(importer) == "npm:"
    requires DecomposeNPMModuleURL("npm:" + specifier).Some? && DecomposeNPMModuleURL(Href(importer)).Some?
    requires var m := DecomposeNPMModuleURL("npm:" + specifier).value;
             var im := DecomposeNPMModuleURL(Href(importer)).value;
             m.name != im.name &&
             DependencyEntry(a, im.fullName, m.fullName) == DependencyEntry(b, im.fullName, m.fullName)
    ensures ResolvePackageSpecifier(specifier, importer, a) == ResolvePackageSpecifier(specifier, importer, b)
    ensures var m := DecomposeNPMModuleURL("npm:" + specifier).value;
            var im := DecomposeNPMModuleURL(Href(importer)).value;
            var entry := DependencyEntry(a, im.fullName, m.fullName);
      ResolvePackageSpecifier(specifier, importer, a) ==
        if entry.Some? && entry.value != "" then UrlOrThrow("npm:" + entry.value + m.path) else Ok(None)
  {
  }

  /** A package importing its own name gets its own root back: the lock
      file is not read and the specifier's subpath is dropped. */
  lemma SelfImportIgnoresSubpath(a: string, b: string, importer: Url, la: LockMapV3, lb: LockMapV3)
    requires Protocol(importer) == "npm:"
    requires DecomposeNPMModuleURL(Href(importer)).Some?
    requires DecomposeNPMModuleURL("npm:" + a).Some? && DecomposeNPMModuleURL("npm:" + b).Some?
    requires DecomposeNPMModuleURL("npm:" + a).value.name == DecomposeNPMModuleURL(Href(importer)).value.name
    requires DecomposeNPMModuleURL("npm:" + b).value.name == DecomposeNPMModuleURL(Href(importer)).value.name
    ensures ResolvePackageSpecifier(a, importer, la) == ResolvePackageSpecifier(b, importer, lb)
    ensures ResolvePackageSpecifier(a, importer, la) ==
            UrlOrThrow("npm:" + DecomposeNPMModuleURL(Href(importer)).value.fullName)
  {
  }

  /** Importers other than local files and npm packages name no package,
      and neither does a local importer's specifier without `npm:`. */
  lemma OtherImportersNamePackagesNot(specifier: string, importer: Url, lockMap: LockMapV3)
    ensures Protocol(importer) != "file:" && Protocol(importer) != "npm:" ==>
              ResolvePackageSpecifier(specifier, importer, lockMap) == Ok(None)
    ensures Protocol(importer) == "file:" && !StartsWith(specifier, "npm:") ==>
              ResolvePackageSpecifier(specifier, importer, lockMap) == Ok(None)
  {
  }

  /** The root of a package and the URL of its `package.json`, as
      `resolvePackageImport` builds them for `packageURL`. */
  ghost predicate PackageLayout(packageURL: Url, m: ModuleName, root: Url, manifestURL: Url) {
    && DecomposeNPMModuleURL(Href(packageURL)) == Some(m)
    && Parse("npm:/" + m.fullName + "/") == Some(root)
    && Resolve("package.json", root) == Some(manifestURL)
  }

  /** A package whose `package.json` is not in the cache resolves to null;
      one whose `package.json` is there is answered by its entry point. */
  lemma PackageImportSteps(specifier: string, importer: Url, cache: Cache, lockMap: LockMapV3,
                           packageURL: Url, m: ModuleName, root: Url, manifestURL: Url)
    requires ResolvePackageSpecifier(specifier, importer, lockMap) == Ok(Some(packageURL))
    requires PackageLayout(packageURL, m, root, manifestURL)
    ensures Miss(Some(manifestURL), cache) ==> ResolvePackageImport(specifier, importer, cache, lockMap) == Ok(None)
    ensures Hit(Some(manifestURL), cache) && ReadManifest(manifestURL, cache).Ok? &&
            DefaultExports(ReadManifest(manifestURL, cache).value).Ok? ==>
              ResolvePackageImport(specifier, importer, cache, lockMap) ==
                PackageEntry(m.path, DefaultExports(ReadManifest(manifestURL, cache).value).value, root)
  {
  }

  // ---------------------------------------------------------------------------
  // The chain

  /** A core module name answers before anything else is consulted: the
      importer, the cache and the lock file make no difference. */
  lemma CoreModulesFirst(specifier: string, importer: Url, cache: Cache, lockMap: LockMapV3,
                         importer': Url, cache': Cache, lockMap': LockMapV3)
    requires StartsWith(specifier, "node:") || specifier in CoreModuleNames
    ensures ResolveChain(specifier, importer, cache, lockMap) == Ok(ResolveCoreModuleImport(specifier))
    ensures ResolveChain(specifier, importer, cache, lockMap) == ResolveChain(specifier, importer', cache', lockMap')
    ensures ResolveChain(specifier, importer, cache, lockMap).value.Some?
  {
  }

  /** A relative answer wins over a package answer; the lock file is only
      read when neither a core module nor a relative file matched. */
  lemma RelativeBeforePackage(specifier: string, importer: Url, cache: Cache, lockMap: LockMapV3, lockMap': LockMapV3)
    requires ResolveCoreModuleImport(specifier).None?
    requires ResolveRelativeImport(specifier, importer, cache).Ok? && ResolveRelativeImport(specifier, importer, cache).value.Some?
    ensures ResolveChain(specifier, importer, cache, lockMap) == ResolveRelativeImport(specifier, importer, cache)
    ensures ResolveChain(specifier, importer, cache, lockMap) == ResolveChain(specifier, importer, cache, lockMap')
  {
  }

  /** The import map only rewrites answers the chain found: without a map
      the chain's answer stands, an unresolved import stays unresolved, and
      a map that finds nothing leaves the answer as it was. */
  lemma ImportMapRewritesFoundOnly(specifier: string, importer: Url, cache: Cache, lockMap: LockMapV3,
                                   st: ResolverState)
    ensures ResolveImportSpec(specifier, importer, cache, lockMap, None) == ResolveChain(specifier, importer, cache, lockMap)
    ensures ResolveChain(specifier, importer, cache, lockMap) == Ok(None) ==>
              ResolveImportSpec(specifier, importer, cache, lockMap, Some(st)) == Ok(None)
    ensures var chain := ResolveChain(specifier, importer, cache, lockMap);
      chain.Ok? && chain.value.Some? && ResolveSpec(st, Href(chain.value.value), Some(importer), false) == Ok(None) ==>
        ResolveImportSpec(specifier, importer, cache, lockMap, Some(st)) == chain
    ensures ResolveChain(specifier, importer, cache, lockMap).Err? ==>
              ResolveImportSpec(specifier, importer, cache, lockMap, Some(st)) == ResolveChain(specifier, importer, cache, lockMap)
  {
  }
}
