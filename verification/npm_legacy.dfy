/** src/npm.ts: the earlier npm resolver, which reads a version 2 lock file.
    Relative imports are probed the way Node.js loads CommonJS files
    (`LOAD_AS_FILE`, `LOAD_INDEX`, `LOAD_AS_DIRECTORY`); package imports
    first look for the importer's own package among its enclosing scopes and
    then in the lock file's dependency tables. Every `new URL(...)` that can
    throw and every thrown `Error` is an `Err`; `Ok(None)` is `null`. */
module NpmLegacy {
  import opened Wrappers
  import opened Strs
  import opened Records
  import opened Urls
  import opened PackageManifest
  import opened LockMaps
  import opened CacheFiles
  import opened NpmScopes
  import NpmCacheUrl
  import NpmCoreModule
  import opened NpmExports
  import NpmResolve
  import opened LegacyImportMaps

  const AbsolutePathError := "Node.js module does not allowed to use absolute path import."

  /** The conditions this resolver reads, in order: `import` is never read. */
  const RequireDefault: seq<string> := ["require", "default"]

  /** What `resolveAsFile` appends to the URL, in probing order. */
  const FileExtensions: seq<string> := [".js", ".json", ".node"]

  /** The index files `resolveIndex` looks for, in probing order. */
  const IndexNames: seq<string> := ["index.js", "index.json", "index.node"]

  // ---------------------------------------------------------------------------
  // getPackageExports and resolveExports

  /** `getPackageExports(packageJSON, useMain)`: the `main` entry, then the
      `exports` field read with `require ?? default`. */
  method GetPackageExports(pj: PackageJson, useMain: bool) returns (r: Result<Record<string>>)
    ensures r == ExportsTable(pj, useMain, RequireDefault)
  {
    var exports: Record<string> := [];
    if useMain && pj.main.Some? {
      exports := Put(exports, ".", pj.main.value);
    }
    assert exports == Seed(pj, useMain);
    match pj.exports {
      case None =>
      case Some(Str(s)) =>
        exports := Put(exports, ".", s);
      case Some(Null) =>
        return Err(NullExportsError);
      case Some(Scalar) =>
      case Some(Arr(_)) =>
      case Some(Cond(raw)) =>
        r := ObjectExports(exports, raw, RequireDefault);
        return;
    }
    return Ok(exports);
  }

  /** `value['require'] ?? value['default']` */
  lemma FirstConditionRequireDefault(c: Record<ExportVal>)
    ensures FirstCondition(c, RequireDefault) ==
            if !Nullish(Get(c, "require")) then Get(c, "require")
            else if !Nullish(Get(c, "default")) then Get(c, "default")
            else None
  {
    assert RequireDefault[1..] == ["default"];
    assert RequireDefault[1..][1..] == [];
  }

  /** An `import` condition changes nothing: the `.` entry read from a
      conditions object is the same for any two objects that agree on
      `require` and `default`. */
  lemma ImportConditionIgnored(seed: Record<string>, c: Record<ExportVal>, c': Record<ExportVal>)
    requires |c| > 0 && |c'| > 0 && NoPathKeys(c) && NoPathKeys(c')
    requires Get(c, "require") == Get(c', "require") && Get(c, "default") == Get(c', "default")
    ensures ObjectTable(seed, c, RequireDefault) == ObjectTable(seed, c', RequireDefault)
  {
    FirstConditionRequireDefault(c);
    FirstConditionRequireDefault(c');
    ConditionsTable(seed, c);
    ConditionsTable(seed, c');
  }

  /** A non-empty conditions object sets the `.` entry from its chosen condition. */
  lemma ConditionsTable(seed: Record<string>, c: Record<ExportVal>)
    requires |c| > 0 && NoPathKeys(c)
    ensures var v := FirstCondition(c, RequireDefault);
            ObjectTable(seed, c, RequireDefault) ==
            if v.Some? && v.value.Str? then Ok(Put(seed, ".", v.value.text)) else Ok(seed)
  {
    assert !AllPathKeys(c) by { assert !IsPathKey(c[0].0); }
  }

  /** `resolveExports(path, exports)`: `.` and the empty path read the `.`
      entry; anything else is the first key that serves it. */
  function ResolveExports(path: string, exports: Record<string>): (r: Option<string>)
  {
    if path == "." || path == "" then Get(exports, ".") else FirstMatch(exports, path)
  }

  /** It answers as the package resolver's `resolvePackageJSONExports` does
      everywhere but at `./`. */
  lemma ResolveExportsAgrees(path: string, exports: Record<string>)
    requires path != "./"
    ensures ResolveExports(path, exports) == ResolvePackageJSONExports(path, exports)
  {
  }

  /** At `./` it does not read the `.` entry but the entry under the key
      `./`, if the table has one. */
  lemma {:induction false} ResolveExportsSlash(exports: Record<string>)
    ensures ResolveExports("./", exports) == Get(exports, "./")
    decreases |exports|
  {
    if |exports| > 0 {
      if Matches(exports[0].0, "./") {
        SlashKey(exports[0].0);
        assert Answer(exports[0], "./") == exports[0].1 + "./"[2..];
        assert exports[0].1 + "./"[2..] == exports[0].1;
      } else {
        assert exports[0].0 != "./";
        ResolveExportsSlash(exports[1..]);
      }
    }
  }

  /** The one key that serves `./` is `./` itself. */
  lemma SlashKey(k: string)
    requires Matches(k, "./")
    ensures k == "./"
  {
    if EndsWith(k, "/") {
      assert |k| <= 2 && k == "./"[..|k|];
      assert k[|k| - 1] == '/';
    }
  }

  // ---------------------------------------------------------------------------
  // resolveAsFile, resolveIndex, resolveAsDirectory

  /** The URL itself, then the URL with each extension appended. */
  function FileCandidates(url: Url): seq<Option<Url>> {
    [Some(url)] + NpmResolve.Suffixed(url, FileExtensions)
  }

  /** `resolveAsFile(url, cacheRoot)` */
  function ResolveAsFile(url: Url, cache: Cache): Result<Option<Url>> {
    FirstExisting(FileCandidates(url), cache)
  }

  /** The index file names resolved against the URL as it is. */
  function IndexCandidates(url: Url): seq<Option<Url>> {
    NpmResolve.InDirectory(url, IndexNames)
  }

  /** `resolveIndex(url, cacheRoot)` */
  function ResolveIndex(url: Url, cache: Cache): Result<Option<Url>> {
    FirstExisting(IndexCandidates(url), cache)
  }

  /** `resolveAsDirectory(url, cacheRoot)` */
  function ResolveAsDirectory(url: Url, cache: Cache): Result<Option<Url>> {
    var manifestURL :- Need(Resolve(ManifestName, url), InvalidURLError);
    var found :- TestCacheFileExistence(manifestURL, cache);
    if found.None? then ResolveIndex(url, cache)
    else
      var pj :- ReadManifest(manifestURL, cache);
      var exports :- ExportsTable(pj, true, RequireDefault);
      match Get(exports, ".")
      case None => Ok(None)
      case Some(main) =>
        var mainURL :- Need(Resolve(main, url), InvalidURLError);
        MainChain(mainURL, url, cache)
  }

  /** `resolveAsFile(mainURL) ?? resolveIndex(mainURL) ?? resolveIndex(url)` */
  function MainChain(mainURL: Url, url: Url, cache: Cache): Result<Option<Url>> {
    var asFile :- ResolveAsFile(mainURL, cache);
    if asFile.Some? then Ok(asFile)
    else
      var mainIndex :- ResolveIndex(mainURL, cache);
      if mainIndex.Some? then Ok(mainIndex) else ResolveIndex(url, cache)
  }

  /** `resolveAsFile` answers with the first of `url`, `url.js`, `url.json`
      and `url.node` whose cache file exists, after misses only, and is null
      exactly when all four miss. */
  lemma ResolveAsFileFirst(url: Url, cache: Cache)
    ensures var c := FileCandidates(url);
      && |c| == 4 && c[0] == Some(url)
      && (forall i :: 1 <= i < 4 ==> c[i] == Parse(Href(url) + FileExtensions[i - 1]))
    ensures var c := FileCandidates(url);
      ResolveAsFile(url, cache) == Ok(None) <==> forall i :: 0 <= i < |c| ==> Miss(c[i], cache)
    ensures var c := FileCandidates(url); var r := ResolveAsFile(url, cache);
      r.Ok? && r.value.Some? ==>
        exists i :: 0 <= i < |c| && c[i] == r.value && Hit(c[i], cache) &&
                    forall j :: 0 <= j < i ==> Miss(c[j], cache)
  {
    var c := FileCandidates(url);
    forall i | 1 <= i < 4 ensures c[i] == Parse(Href(url) + FileExtensions[i - 1]) {
      assert c[i] == NpmResolve.Suffixed(url, FileExtensions)[i - 1];
    }
    FirstExistingNull(c, cache);
    var r := ResolveAsFile(url, cache);
    if r.Ok? && r.value.Some? {
      FirstExistingHit(c, cache);
    }
  }

  lemma IndexNamesRelative(i: nat)
    requires i < |IndexNames|
    ensures RelativePieces([IndexNames[i]])
  {
    var n := IndexNames[i];
    assert n == "index.js" || n == "index.json" || n == "index.node";
  }

  /** `new URL('index.js', url)` keeps the URL's directory: against a URL
      whose last segment is a file name the index files are looked for
      beside that file, not under it. */
  lemma IndexCandidatesBeside(url: Url)
    requires url.path.Hier? && Clean(url.path.segments)
    ensures var c := IndexCandidates(url);
            |c| == 3 &&
            forall i :: 0 <= i < 3 ==> c[i] == Some(At(url, Dir(url.path.segments) + [IndexNames[i]]))
  {
    var c := IndexCandidates(url);
    forall i | 0 <= i < 3 ensures c[i] == Some(At(url, Dir(url.path.segments) + [IndexNames[i]])) {
      IndexNamesRelative(i);
      var n := IndexNames[i];
      assert Join([n], "/") == n;
      ResolveInDirectory([n], url);
      assert RemoveDotsFrom(Dir(url.path.segments), [n]) == RemoveDotsFrom(Dir(url.path.segments) + [n], []) by {
        assert n != "." && n != "..";
      }
    }
  }

  /** Without a `package.json`, a directory is read through its index files. */
  lemma DirectoryWithoutManifest(url: Url, cache: Cache)
    requires url.path.Hier? && Clean(url.path.segments)
    requires Miss(Some(At(url, Dir(url.path.segments) + ["package.json"])), cache)
    ensures ResolveAsDirectory(url, cache) == ResolveIndex(url, cache)
  {
    ResolveManifest(url);
  }

  /** With a `package.json` whose table has no `.` entry, a directory import
      is null, whatever index files exist. */
  lemma DirectoryWithoutMain(url: Url, cache: Cache)
    requires url.path.Hier? && Clean(url.path.segments)
    requires var m := At(url, Dir(url.path.segments) + ["package.json"]);
             Hit(Some(m), cache) && ReadManifest(m, cache).Ok? &&
             ExportsTable(ReadManifest(m, cache).value, true, RequireDefault).Ok? &&
             Get(ExportsTable(ReadManifest(m, cache).value, true, RequireDefault).value, ".").None?
    ensures ResolveAsDirectory(url, cache) == Ok(None)
  {
    ResolveManifest(url);
  }

  /** With a main file, the directory is probed as one flat list: the main
      file and its extensions, then the index files beside it, then those
      beside the directory URL. */
  lemma MainChainFlat(mainURL: Url, url: Url, cache: Cache)
    ensures MainChain(mainURL, url, cache) ==
            FirstExisting(FileCandidates(mainURL) + IndexCandidates(mainURL) + IndexCandidates(url), cache)
  {
    var a, b, c := FileCandidates(mainURL), IndexCandidates(mainURL), IndexCandidates(url);
    FirstExistingAppend(a + b, c, cache);
    FirstExistingAppend(a, b, cache);
  }

  // ---------------------------------------------------------------------------
  // The import map resolver

  /** The state of an optional import map resolver. */
  function StateOf(resolver: Option<LegacyImportMapResolver>): Option<LegacyState>
    reads if resolver.Some? then {resolver.value} else {}
  {
    if resolver.Some? then Some(resolver.value.State()) else None
  }

  /** `importmapResolver?.resolve(spec, importerDirname) ?? fallback`: the
      fallback is built only when there is no resolver or it answers null. */
  function OrElse(st: Option<LegacyState>, spec: string, dirname: Url, fallback: Result<Url>): Result<Option<Url>> {
    match st
    case None =>
      var u :- fallback;
      Ok(Some(u))
    case Some(s) =>
      var mapped :- LegacyResolve(s, spec, dirname);
      if mapped.Some? then Ok(mapped)
      else
        var u :- fallback;
        Ok(Some(u))
  }

  /** A non-null answer of the import map wins; without a resolver, or when
      it answers null, the fallback is the answer; the resolver's error is
      thrown. The result is never null. */
  lemma OrElseCases(st: Option<LegacyState>, spec: string, dirname: Url, fallback: Result<Url>)
    ensures var r := OrElse(st, spec, dirname, fallback);
            r.Ok? ==> r.value.Some?
    ensures st.Some? && LegacyResolve(st.value, spec, dirname).Ok? && LegacyResolve(st.value, spec, dirname).value.Some? ==>
              OrElse(st, spec, dirname, fallback) == LegacyResolve(st.value, spec, dirname)
    ensures st.Some? && LegacyResolve(st.value, spec, dirname).Err? ==>
              OrElse(st, spec, dirname, fallback) == Err(LegacyResolve(st.value, spec, dirname).message)
    ensures st.None? || LegacyResolve(st.value, spec, dirname) == Ok(None) ==>
              OrElse(st, spec, dirname, fallback) ==
                if fallback.Ok? then Ok(Some(fallback.value)) else Err(fallback.message)
  {
  }

  /** The same, as a call on the resolver object. */
  method ResolveOrElse(resolver: Option<LegacyImportMapResolver>, spec: string, dirname: Url, fallback: Result<Url>)
    returns (r: Result<Option<Url>>)
    ensures r == OrElse(StateOf(resolver), spec, dirname, fallback)
  {
    if resolver.Some? {
      var mapped := resolver.value.Resolve(spec, dirname);
      if mapped.Err? {
        return Err(mapped.message);
      }
      if mapped.value.Some? {
        return mapped;
      }
    }
    if fallback.Err? {
      return Err(fallback.message);
    }
    return Ok(Some(fallback.value));
  }

  // ---------------------------------------------------------------------------
  // Package specifiers

  /** A package import: the full name (`name@version`), the bare name, and
      the path segments after the full name. */
  datatype Specifier = Specifier(fullName: string, name: string, path: seq<string>)

  /** Everything after the last `:`, if there is one. */
  function ModuleNamePath(moduleName: string): string {
    if ':' in moduleName then moduleName[LastIndexOf(moduleName, ':') + 1..] else moduleName
  }

  /** `.replace(/^\//, '')` */
  function StripSlash(s: string): string {
    if StartsWith(s, "/") then s[1..] else s
  }

  /** How `resolveImport` reads a package import. */
  function PackageSpecifier(moduleName: string): Specifier {
    var parts := Split(StripSlash(ModuleNamePath(moduleName)), '/');
    Specifier(parts[0], NpmCacheUrl.DecomposePackageNameVersion(parts[0]).0, parts[1..])
  }

  /** The full name and the path put back together are the module name
      after its last `:` and one leading `/`; the full name has no `/` and
      the bare name is the full name without its version. */
  lemma PackageSpecifierParts(moduleName: string)
    ensures var s := PackageSpecifier(moduleName);
            && Join([s.fullName] + s.path, "/") == StripSlash(ModuleNamePath(moduleName))
            && '/' !in s.fullName && ':' !in s.fullName
            && (s.name == s.fullName || s.name + "@" + NpmCacheUrl.DecomposePackageNameVersion(s.fullName).1 == s.fullName)
  {
    var m := ModuleNamePath(moduleName);
    var parts := Split(StripSlash(m), '/');
    assert [parts[0]] + parts[1..] == parts;
    JoinSplit(StripSlash(m), '/');
    assert "/" == ['/'];
    assert ':' !in m by {
      if ':' in moduleName {
        var i := LastIndexOf(moduleName, ':');
        assert m == moduleName[i + 1..];
      }
    }
    assert ':' !in StripSlash(m);
    assert ':' !in parts[0] by {
      if ':' in parts[0] {
        var k :| 0 <= k < |parts[0]| && parts[0][k] == ':';
        JoinHas(parts, k);
      }
    }
  }

  /** A character of the first part occurs in the join. */
  lemma JoinHas(parts: seq<string>, k: nat)
    requires |parts| >= 1 && k < |parts[0]|
    ensures parts[0][k] in Join(parts, "/")
  {
    if |parts| > 1 {
      assert Join(parts, "/") == parts[0] + "/" + Join(parts[1..], "/");
      assert Join(parts, "/")[k] == parts[0][k];
    }
  }

  /** `normalizeNodeNpmUrl(importer).pathname.split('/')[1]`: the importer's
      package full name (`undefined` where the part is missing). */
  function ImporterFullName(importer: Url): Result<string> {
    var n :- NormalizeNodeNpmUrl(importer);
    var parts := Split(Pathname(n), '/');
    Ok(if |parts| >= 2 then parts[1] else "undefined")
  }

  /** `lockMap.npm?.specifiers` */
  function Specifiers(lockMap: LockMapV2): Option<Record<string>> {
    if lockMap.npm.Some? then lockMap.npm.value.specifiers else None
  }

  /** The dependency table an import is looked up in: a local file reads
      the top-level specifiers, a package reads its own dependencies. */
  function DependenciesFor(importer: Url, lockMap: LockMapV2): Result<Option<Record<string>>> {
    if Protocol(importer) == "file:" then Ok(Specifiers(lockMap))
    else
      var full :- ImporterFullName(importer);
      Ok(Dependencies(if lockMap.npm.Some? then lockMap.npm.value.packages else None, full))
  }

  // ---------------------------------------------------------------------------
  // Package URLs

  /** `new URL(target, `npm:/${fullName}/`)`, then the import map. */
  function PackageUrl(target: string, fullName: string, dirname: Url, st: Option<LegacyState>): Result<Option<Url>> {
    var root :- Need(Parse("npm:/" + fullName + "/"), InvalidURLError);
    var url :- Need(Resolve(target, root), InvalidURLError);
    OrElse(st, Href(url), dirname, Ok(url))
  }

  /** The export target of a package path: the `.` entry for no path,
      otherwise the entry that serves `./<path>`. */
  function ExportTarget(path: seq<string>, exports: Record<string>): Option<string> {
    if |path| == 0 then Get(exports, ".") else ResolveExports("./" + Join(path, "/"), exports)
  }

  /** One turn of the self-package loop at `scope`: when the scope's
      `package.json` names the imported package, its exports (without
      `main`) decide the answer, resolved in the importer's own package. */
  function SelfTurn(scope: Url, name: string, path: seq<string>, importerFull: string, dirname: Url, cache: Cache,
                    st: Option<LegacyState>): Result<Option<Url>>
  {
    var manifestURL :- Need(Resolve(ManifestName, scope), InvalidURLError);
    var pj :- ReadManifest(manifestURL, cache);
    if pj.name != Some(name) then Ok(None)
    else
      var exports :- ExportsTable(pj, false, RequireDefault);
      match ExportTarget(path, exports)
      case None => Ok(None)
      case Some(t) => PackageUrl(t, importerFull, dirname, st)
  }

  /** The self-package loop from `scope` on: a turn that answers ends it; a
      scope whose pathname splits into at most three parts ends it with
      nothing; otherwise the search goes on from the scope's parent. */
  function SelfLoop(scope: Url, name: string, path: seq<string>, importerFull: string, dirname: Url, cache: Cache,
                    st: Option<LegacyState>): Result<Option<Url>>
    requires ScopeShape(scope)
    decreases |scope.path.segments|
  {
    var turn :- SelfTurn(scope, name, path, importerFull, dirname, cache, st);
    if turn.Some? then Ok(turn)
    else if |Split(Pathname(scope), '/')| <= 3 then Ok(None)
    else
      PathnameParts(scope.path.segments);
      ScopeShrinks(scope, cache);
      var next :- ClosestPackageScope(Resolve(Up, scope).value, cache);
      if next.None? then Ok(None)
      else SelfLoop(next.value, name, path, importerFull, dirname, cache, st)
  }

  /** The self-package exports of a package importer. */
  function SelfExports(importer: Url, name: string, path: seq<string>, dirname: Url, cache: Cache,
                       st: Option<LegacyState>): Result<Option<Url>>
  {
    var scope :- ClosestPackageScope(importer, cache);
    if scope.None? then Ok(None)
    else
      var importerFull :- ImporterFullName(importer);
      ClosestScopeShape(importer, cache);
      SelfLoop(scope.value, name, path, importerFull, dirname, cache, st)
  }

  /** The import of package `fullName` found in a dependency table: its
      exports with `main`; a path that no key serves falls back to the file
      of that name inside the package. */
  function DependencyImport(fullName: string, path: seq<string>, dirname: Url, cache: Cache,
                            st: Option<LegacyState>): Result<Option<Url>>
  {
    var manifestURL :- Need(Parse("npm:/" + fullName + "/package.json"), InvalidURLError);
    var pj :- ReadManifest(manifestURL, cache);
    var exports :- ExportsTable(pj, true, RequireDefault);
    match ExportTarget(path, exports)
    case Some(t) => PackageUrl(t, fullName, dirname, st)
    case None =>
      if |path| == 0 then Ok(None)
      else
        var url :- Need(Parse("npm:/" + Join([fullName] + path, "/")), InvalidURLError);
        OrElse(st, Href(url), dirname, Ok(url))
  }

  /** The dependency-table half of a package import. */
  function FromDependencies(deps: Option<Record<string>>, key: string, path: seq<string>, dirname: Url,
                            cache: Cache, st: Option<LegacyState>): Result<Option<Url>>
  {
    match deps
    case None => Ok(None)
    case Some(d) =>
      match Get(d, key)
      case None => Ok(None)
      case Some(fullName) => DependencyImport(fullName, path, dirname, cache, st)
  }

  /** The key a dependency table is read with: a local file names packages
      by full name, a package by bare name. */
  function DependencyKey(importer: Url, spec: Specifier): string {
    if Protocol(importer) == "file:" then spec.fullName else spec.name
  }

  /** A package import: the self-package exports of a package importer
      first, then the dependency table. */
  function PackageImport(spec: Specifier, importer: Url, dirname: Url, cache: Cache, lockMap: LockMapV2,
                         st: Option<LegacyState>): Result<Option<Url>>
  {
    var deps :- DependenciesFor(importer, lockMap);
    var self :- if Protocol(importer) == "file:" then Ok(None) else SelfExports(importer, spec.name, spec.path, dirname, cache, st);
    if self.Some? then Ok(self)
    else FromDependencies(deps, DependencyKey(importer, spec), spec.path, dirname, cache, st)
  }

  predicate IsRelative(moduleName: string) {
    StartsWith(moduleName, "./") || StartsWith(moduleName, "../")
  }

  /** `resolveAsFile(url) ?? resolveAsDirectory(url)` */
  function FileThenDirectory(url: Url, cache: Cache): Result<Option<Url>> {
    var asFile :- ResolveAsFile(url, cache);
    if asFile.Some? then Ok(asFile) else ResolveAsDirectory(url, cache)
  }

  /** A `./` or `../` import: the file forms, then the directory, then the
      import map on what was found. */
  function RelativeImport(moduleName: string, importer: Url, dirname: Url, cache: Cache,
                          st: Option<LegacyState>): Result<Option<Url>>
  {
    var url :- Need(Resolve(moduleName, importer), InvalidURLError);
    var resolved :- FileThenDirectory(url, cache);
    if resolved.None? then Ok(None)
    else OrElse(st, Href(resolved.value), dirname, Ok(resolved.value))
  }

  /** `resolveImport(moduleName, importer, cacheRoot, lockMap, importmapResolver)`
      with the resolver in state `st`. */
  function ResolveImportSpec(moduleName: string, importer: Url, cache: Cache, lockMap: LockMapV2,
                             st: Option<LegacyState>): Result<Option<Url>>
  {
    var dirname :- Need(Resolve(Here, importer), InvalidURLError);
    if StartsWith(moduleName, "node:") then
      OrElse(st, moduleName, dirname, Need(Parse(moduleName), InvalidURLError))
    else if moduleName in NpmCoreModule.CoreModuleNames then
      OrElse(st, "node:" + moduleName, dirname, Need(Parse("node:" + moduleName), InvalidURLError))
    else if StartsWith(moduleName, "/") then Err(AbsolutePathError)
    else if IsRelative(moduleName) then RelativeImport(moduleName, importer, dirname, cache, st)
    else PackageImport(PackageSpecifier(moduleName), importer, dirname, cache, lockMap, st)
  }

  /** `resolveImport`, with the self-package loop walking up the scopes. */
  method ResolveImport(moduleName: string, importer: Url, cache: Cache, lockMap: LockMapV2,
                       resolver: Option<LegacyImportMapResolver>)
    returns (r: Result<Option<Url>>)
    ensures r == ResolveImportSpec(moduleName, importer, cache, lockMap, StateOf(resolver))
  {
    var st := StateOf(resolver);
    var dirname := Resolve(Here, importer);
    if dirname.None? {
      return Err(InvalidURLError);
    }
    if StartsWith(moduleName, "node:") {
      r := ResolveOrElse(resolver, moduleName, dirname.value, Need(Parse(moduleName), InvalidURLError));
      return;
    }
    if moduleName in NpmCoreModule.CoreModuleNames {
      r := ResolveOrElse(resolver, "node:" + moduleName, dirname.value, Need(Parse("node:" + moduleName), InvalidURLError));
      return;
    }
    if StartsWith(moduleName, "/") {
      return Err(AbsolutePathError);
    }
    if IsRelative(moduleName) {
      var url := Resolve(moduleName, importer);
      if url.None? {
        return Err(InvalidURLError);
      }
      var resolved := FileThenDirectory(url.value, cache);
      if resolved.Err? {
        return Err(resolved.message);
      }
      if resolved.value.None? {
        return Ok(None);
      }
      r := ResolveOrElse(resolver, Href(resolved.value.value), dirname.value, Ok(resolved.value.value));
      return;
    }
    var spec := PackageSpecifier(moduleName);
    var deps := DependenciesFor(importer, lockMap);
    if deps.Err? {
      return Err(deps.message);
    }
    if Protocol(importer) != "file:" {
      var scope := FindClosestPackageScope(importer, cache);
      if scope.Err? {
        return Err(scope.message);
      }
      ClosestScopeShape(importer, cache);
      ghost var self := SelfExports(importer, spec.name, spec.path, dirname.value, cache, st);
      var cur := scope.value;
      while cur.Some?
        invariant cur.Some? ==> ScopeShape(cur.value)
        invariant cur.Some? ==> self == SelfLoop(cur.value, spec.name, spec.path, ImporterFullName(importer).value, dirname.value, cache, st)
        invariant cur.Some? ==> ImporterFullName(importer).Ok?
        invariant cur.None? ==> self == Ok(None)
        decreases if cur.Some? then |cur.value.path.segments| + 1 else 0
      {
        var importerFull := ImporterFullName(importer).value;
        var turn := SelfTurn(cur.value, spec.name, spec.path, importerFull, dirname.value, cache, st);
        if turn.Err? {
          return Err(turn.message);
        }
        if turn.value.Some? {
          return turn;
        }
        if |Split(Pathname(cur.value), '/')| <= 3 {
          cur := None;
        } else {
          PathnameParts(cur.value.path.segments);
          ScopeShrinks(cur.value, cache);
          var next := FindClosestPackageScope(Resolve(Up, cur.value).value, cache);
          if next.Err? {
            return Err(next.message);
          }
          cur := next.value;
        }
      }
    }
    r := FromDependencies(deps.value, DependencyKey(importer, spec), spec.path, dirname.value, cache, st);
  }

  // ---------------------------------------------------------------------------
  // Properties of resolveImport

  /** A `node:` import is that URL unless the import map answers, and a
      listed core module name gets the `node:` scheme the same way; both
      come before every other rule. */
  lemma NodeImportsFirst(moduleName: string, importer: Url, cache: Cache, lockMap: LockMapV2)
    requires Resolve(Here, importer).Some?
    ensures StartsWith(moduleName, "node:") ==>
              Parse(moduleName).Some? && Parse(moduleName).value.scheme == "node" &&
              ResolveImportSpec(moduleName, importer, cache, lockMap, None) == Ok(Some(Parse(moduleName).value))
    ensures !StartsWith(moduleName, "node:") && moduleName in NpmCoreModule.CoreModuleNames ==>
              Parse("node:" + moduleName).Some? && Parse("node:" + moduleName).value.scheme == "node" &&
              ResolveImportSpec(moduleName, importer, cache, lockMap, None) == Ok(Some(Parse("node:" + moduleName).value))
  {
    if StartsWith(moduleName, "node:") {
      assert moduleName == "node:" + moduleName[5..];
      NpmCoreModule.ParseNode(moduleName[5..]);
    } else if moduleName in NpmCoreModule.CoreModuleNames {
      NpmCoreModule.ParseNode(moduleName);
    }
  }

  /** An absolute path throws, whatever the lock file and the cache hold. */
  lemma AbsolutePathThrows(moduleName: string, importer: Url, cache: Cache, lockMap: LockMapV2, st: Option<LegacyState>)
    requires StartsWith(moduleName, "/") && Resolve(Here, importer).Some?
    ensures ResolveImportSpec(moduleName, importer, cache, lockMap, st) == Err(AbsolutePathError)
  {
    assert moduleName[0] == "/"[0];
    NpmCoreModule.NotCoreName(moduleName);
    StartsWithDiffer(moduleName, "/", "node:");
  }

  /** A relative import reads neither the lock file nor the package scopes. */
  lemma RelativeImportOf(moduleName: string, importer: Url, cache: Cache, lockMap: LockMapV2, st: Option<LegacyState>)
    requires IsRelative(moduleName) && Resolve(Here, importer).Some?
    ensures ResolveImportSpec(moduleName, importer, cache, lockMap, st) ==
            RelativeImport(moduleName, importer, Resolve(Here, importer).value, cache, st)
  {
    var p := if StartsWith(moduleName, "./") then "./" else "../";
    assert StartsWith(moduleName, p);
    assert moduleName[0] == p[0];
    NpmCoreModule.NotCoreName(moduleName);
    StartsWithDiffer(moduleName, p, "node:");
    StartsWithDiffer(moduleName, p, "/");
  }

  /** What a relative import finds exists: the file forms and the directory
      forms all answer with a candidate whose cache file is present. */
  lemma FileThenDirectoryExists(url: Url, cache: Cache)
    requires FileThenDirectory(url, cache).Ok? && FileThenDirectory(url, cache).value.Some?
    ensures Hit(FileThenDirectory(url, cache).value, cache)
  {
    if ResolveAsFile(url, cache).Ok? && ResolveAsFile(url, cache).value.Some? {
      FirstExistingHit(FileCandidates(url), cache);
    } else {
      DirectoryExists(url, cache);
    }
  }

  lemma DirectoryExists(url: Url, cache: Cache)
    requires ResolveAsDirectory(url, cache).Ok? && ResolveAsDirectory(url, cache).value.Some?
    ensures Hit(ResolveAsDirectory(url, cache).value, cache)
  {
    var m := Resolve(ManifestName, url).value;
    if TestCacheFileExistence(m, cache).value.None? {
      FirstExistingHit(IndexCandidates(url), cache);
    } else {
      var pj := ReadManifest(m, cache).value;
      var main := Get(ExportsTable(pj, true, RequireDefault).value, ".").value;
      var mainURL := Resolve(main, url).value;
      MainChainFlat(mainURL, url, cache);
      FirstExistingHit(FileCandidates(mainURL) + IndexCandidates(mainURL) + IndexCandidates(url), cache);
    }
  }

  /** Without an import map, a relative import answers with a URL whose
      cache file exists, or null. */
  lemma RelativeImportExists(moduleName: string, importer: Url, dirname: Url, cache: Cache)
    requires RelativeImport(moduleName, importer, dirname, cache, None).Ok?
    requires RelativeImport(moduleName, importer, dirname, cache, None).value.Some?
    ensures Hit(RelativeImport(moduleName, importer, dirname, cache, None).value, cache)
  {
    FileThenDirectoryExists(Resolve(moduleName, importer).value, cache);
  }

  /** A local file reads only the top-level specifier of the full name; the
      self-package search does not run. */
  lemma FileImporterReadsSpecifiers(spec: Specifier, importer: Url, dirname: Url, cache: Cache,
                                    lockMap: LockMapV2, st: Option<LegacyState>)
    requires Protocol(importer) == "file:"
    ensures PackageImport(spec, importer, dirname, cache, lockMap, st) ==
            FromDependencies(Specifiers(lockMap), spec.fullName, spec.path, dirname, cache, st)
  {
  }

  /** A package importer looks its dependencies up by bare name: two
      imports of the same name and path with different versions resolve
      alike. */
  lemma PackageImporterIgnoresVersion(a: Specifier, b: Specifier, importer: Url, dirname: Url, cache: Cache,
                                      lockMap: LockMapV2, st: Option<LegacyState>)
    requires Protocol(importer) != "file:"
    requires a.name == b.name && a.path == b.path
    ensures PackageImport(a, importer, dirname, cache, lockMap, st) ==
            PackageImport(b, importer, dirname, cache, lockMap, st)
  {
  }

  /** A path that no key of the dependency's table serves is looked for
      inside the package: `npm:/<fullName>/<path>`. */
  lemma DependencyFallback(fullName: string, path: seq<string>, dirname: Url, cache: Cache)
    requires |path| >= 1 && fullName != "" && PlainSegments([fullName] + path)
    requires var m := Parse("npm:/" + fullName + "/package.json");
             m.Some? && ReadManifest(m.value, cache).Ok? &&
             ExportsTable(ReadManifest(m.value, cache).value, true, RequireDefault).Ok? &&
             ExportTarget(path, ExportsTable(ReadManifest(m.value, cache).value, true, RequireDefault).value).None?
    ensures DependencyImport(fullName, path, dirname, cache, None) ==
            Ok(Some(Url("npm", None, Hier([fullName] + path), None, None)))
  {
    PackageFileUrl([fullName] + path);
  }

  lemma NpmScheme()
    ensures ValidScheme("npm")
  {
  }

  /** `new URL(`npm:/${segs.join('/')}`)` for plain segments. */
  lemma PackageFileUrl(segs: seq<string>)
    requires |segs| >= 1 && segs[0] != "" && PlainSegments(segs)
    ensures Parse("npm:/" + Join(segs, "/")) == Some(Url("npm", None, Hier(segs), None, None))
  {
    var u := Url("npm", None, Hier(segs), None, None);
    NpmScheme();
    assert WellFormed(u);
    HrefOfPath(u);
    var j := Join(segs, "/");
    assert "npm" + ":" + ("/" + j) == "npm:/" + j;
    ParseHref(u);
  }

  // ---------------------------------------------------------------------------
  // The self-package walk, directory by directory

  /** A base the walk's directories hang from: a valid scheme and no
      authority, as the normaliser leaves them. */
  ghost predicate WalkBase(base: Url) {
    ValidScheme(base.scheme) && base.authority.None?
  }

  /** The directory a package importer sits in: the normalised segments
      without the last one. */
  function ImporterDir(importer: Url): seq<string> {
    Dir(NormalSegments(importer.path))
  }

  /** What the directory `dir` answers to a self import: nothing when it
      holds no `package.json`, otherwise the loop's turn at that scope. */
  function SelfAt(base: Url, dir: seq<string>, name: string, path: seq<string>, importerFull: string, dirname: Url,
                  cache: Cache, st: Option<LegacyState>): Result<Option<Url>>
  {
    var found :- TestCacheFileExistence(ManifestIn(base, dir), cache);
    if found.None? then Ok(None)
    else SelfTurn(At(base, dir + [""]), name, path, importerFull, dirname, cache, st)
  }

  /** The self-package walk stated over directories: from `dir` up to the
      package root, the first directory that answers decides. */
  function SelfWalk(base: Url, dir: seq<string>, name: string, path: seq<string>, importerFull: string, dirname: Url,
                    cache: Cache, st: Option<LegacyState>): Result<Option<Url>>
    decreases |dir|
  {
    if |dir| == 0 then Ok(None)
    else
      var here :- SelfAt(base, dir, name, path, importerFull, dirname, cache, st);
      if here.Some? then Ok(here) else SelfWalk(base, Dir(dir), name, path, importerFull, dirname, cache, st)
  }

  /** The `package.json` in `dir` exists, names `name`, and its exports,
      read without `main`, serve `path` with the target `t`. */
  ghost predicate Serves(base: Url, dir: seq<string>, name: string, path: seq<string>, cache: Cache, t: string) {
    var m := ManifestIn(base, dir);
    && Hit(Some(m), cache)
    && ReadManifest(m, cache).Ok?
    && ReadManifest(m, cache).value.name == Some(name)
    && ExportsTable(ReadManifest(m, cache).value, false, RequireDefault).Ok?
    && ExportTarget(path, ExportsTable(ReadManifest(m, cache).value, false, RequireDefault).value) == Some(t)
  }

  /** The directory `dir` lets the walk go on: it holds no `package.json`,
      or one that names another package, or one whose exports serve no
      target for `path`. */
  ghost predicate Passes(base: Url, dir: seq<string>, name: string, path: seq<string>, cache: Cache) {
    var m := ManifestIn(base, dir);
    || Miss(Some(m), cache)
    || (&& Hit(Some(m), cache)
        && ReadManifest(m, cache).Ok?
        && (|| ReadManifest(m, cache).value.name != Some(name)
            || (&& ExportsTable(ReadManifest(m, cache).value, false, RequireDefault).Ok?
                && ExportTarget(path, ExportsTable(ReadManifest(m, cache).value, false, RequireDefault).value).None?)))
  }

  /** The `package.json` of the scope at `dir` is the one in `dir`. */
  lemma ScopeManifest(base: Url, dir: seq<string>)
    requires Clean(dir)
    ensures Resolve(ManifestName, At(base, dir + [""])) == Some(ManifestIn(base, dir))
  {
    CleanSnoc(dir, "");
    ResolveManifest(At(base, dir + [""]));
    assert Dir(dir + [""]) == dir;
  }

  /** A package URL that is built is never null. */
  lemma PackageUrlSome(target: string, fullName: string, dirname: Url, st: Option<LegacyState>)
    ensures PackageUrl(target, fullName, dirname, st).Ok? ==> PackageUrl(target, fullName, dirname, st).value.Some?
  {
    var root := Parse("npm:/" + fullName + "/");
    if root.Some? {
      var url := Resolve(target, root.value);
      if url.Some? {
        OrElseCases(st, Href(url.value), dirname, Ok(url.value));
      }
    }
  }

  /** A directory that serves the import answers with the target resolved
      in the importer's package. */
  lemma SelfAtServes(base: Url, dir: seq<string>, name: string, path: seq<string>, importerFull: string, dirname: Url,
                     cache: Cache, st: Option<LegacyState>, t: string)
    requires Clean(dir) && Serves(base, dir, name, path, cache, t)
    ensures SelfAt(base, dir, name, path, importerFull, dirname, cache, st) == PackageUrl(t, importerFull, dirname, st)
  {
    ScopeManifest(base, dir);
  }

  /** A directory that passes answers nothing. */
  lemma SelfAtPasses(base: Url, dir: seq<string>, name: string, path: seq<string>, importerFull: string, dirname: Url,
                     cache: Cache, st: Option<LegacyState>)
    requires Clean(dir) && Passes(base, dir, name, path, cache)
    ensures SelfAt(base, dir, name, path, importerFull, dirname, cache, st) == Ok(None)
  {
    ScopeManifest(base, dir);
  }

  /** Every directory `d[..j]` with `lo < j <= |d|` passes. */
  ghost predicate PassesAbove(base: Url, d: seq<string>, lo: nat, name: string, path: seq<string>, cache: Cache) {
    forall j :: lo < j <= |d| ==> Passes(base, d[..j], name, path, cache)
  }

  lemma PassesAboveShift(base: Url, d: seq<string>, lo: nat, name: string, path: seq<string>, cache: Cache)
    requires lo < |d| && PassesAbove(base, d, lo, name, path, cache)
    ensures Passes(base, d, name, path, cache) && PassesAbove(base, Dir(d), lo, name, path, cache)
  {
    assert d[..|d|] == d;
    forall j | lo < j <= |Dir(d)| ensures Passes(base, Dir(d)[..j], name, path, cache) {
      assert Dir(d)[..j] == d[..j];
    }
  }

  /** A directory that serves the import ends the walk with its answer. */
  lemma SelfWalkServes(base: Url, d: seq<string>, name: string, path: seq<string>, importerFull: string,
                       dirname: Url, cache: Cache, st: Option<LegacyState>, t: string)
    requires Clean(d) && |d| >= 1 && Serves(base, d, name, path, cache, t)
    ensures SelfWalk(base, d, name, path, importerFull, dirname, cache, st) == PackageUrl(t, importerFull, dirname, st)
  {
    SelfAtServes(base, d, name, path, importerFull, dirname, cache, st, t);
    PackageUrlSome(t, importerFull, dirname, st);
  }

  /** A directory that passes hands the walk to the directory above. */
  lemma SelfWalkPasses(base: Url, d: seq<string>, name: string, path: seq<string>, importerFull: string,
                       dirname: Url, cache: Cache, st: Option<LegacyState>)
    requires Clean(d) && |d| >= 1 && Passes(base, d, name, path, cache)
    ensures Clean(Dir(d))
    ensures SelfWalk(base, d, name, path, importerFull, dirname, cache, st) ==
            SelfWalk(base, Dir(d), name, path, importerFull, dirname, cache, st)
  {
    SelfAtPasses(base, d, name, path, importerFull, dirname, cache, st);
    CleanDir(d);
  }

  /** The walk answers from the nearest directory `d[..k]` that serves the
      import, provided every directory between it and `d` passes. */
  lemma {:induction false} SelfWalkNearest(base: Url, d: seq<string>, k: nat, name: string, path: seq<string>,
                                           importerFull: string, dirname: Url, cache: Cache, st: Option<LegacyState>,
                                           t: string)
    requires Clean(d) && 1 <= k <= |d|
    requires Serves(base, d[..k], name, path, cache, t)
    requires PassesAbove(base, d, k, name, path, cache)
    ensures SelfWalk(base, d, name, path, importerFull, dirname, cache, st) == PackageUrl(t, importerFull, dirname, st)
  {
    WalkToServing(base, d, k, d[..k], name, path, importerFull, dirname, cache, st);
    SelfWalkServes(base, d[..k], name, path, importerFull, dirname, cache, st, t);
  }

  /** Directories that pass hand the walk from `d` down to `top == d[..k]`. */
  lemma {:induction false} WalkToServing(base: Url, d: seq<string>, k: nat, top: seq<string>, name: string,
                                         path: seq<string>, importerFull: string, dirname: Url, cache: Cache,
                                         st: Option<LegacyState>)
    requires Clean(d) && 1 <= k <= |d| && top == d[..k]
    requires PassesAbove(base, d, k, name, path, cache)
    ensures Clean(top) && |top| >= 1
    ensures SelfWalk(base, d, name, path, importerFull, dirname, cache, st) ==
            SelfWalk(base, top, name, path, importerFull, dirname, cache, st)
    decreases |d|
  {
    if k == |d| {
      assert top == d;
    } else {
      PassesAboveShift(base, d, k, name, path, cache);
      SelfWalkPasses(base, d, name, path, importerFull, dirname, cache, st);
      assert Dir(d)[..k] == top;
      WalkToServing(base, Dir(d), k, top, name, path, importerFull, dirname, cache, st);
    }
  }

  /** When every directory up to the package root passes, the walk answers
      nothing. */
  lemma {:induction false} SelfWalkNone(base: Url, d: seq<string>, name: string, path: seq<string>,
                                        importerFull: string, dirname: Url, cache: Cache, st: Option<LegacyState>)
    requires Clean(d)
    requires PassesAbove(base, d, 0, name, path, cache)
    ensures SelfWalk(base, d, name, path, importerFull, dirname, cache, st) == Ok(None)
    decreases |d|
  {
    if |d| > 0 {
      PassesAboveShift(base, d, 0, name, path, cache);
      SelfWalkPasses(base, d, name, path, importerFull, dirname, cache, st);
      SelfWalkNone(base, Dir(d), name, path, importerFull, dirname, cache, st);
    }
  }

  lemma PlainClean(segs: seq<string>)
    requires PlainSegments(segs)
    ensures Clean(segs)
  {
  }

  /** From a directory, the closest scope search starts at that
      directory's own `package.json`. */
  lemma ClosestOfDirectory(base: Url, e: seq<string>, cache: Cache)
    requires WalkBase(base) && |e| >= 1 && PlainSegments(e) && e[0] != ""
    ensures Clean(e) && Clean(ManifestIn(base, e).path.segments)
    ensures ClosestPackageScope(At(base, e + [""]), cache) == ScopeSearch(ManifestIn(base, e), cache)
  {
    PlainClean(e);
    CleanManifestIn(base, e);
    var u := At(base, e + [""]);
    assert PlainSegments(e + [""]) by {
      forall i | 0 <= i < |e + [""]| ensures PlainSegment((e + [""])[i]) {
        if i < |e| { assert (e + [""])[i] == e[i]; }
      }
    }
    assert PackagePath(u);
    ClosestPackageScopeSearch(u, cache);
    assert NormalSegments(u.path) == e + [""];
    assert Dir(e + [""]) == e;
    assert ManifestIn(NormalForm(u), e) == ManifestIn(base, e);
  }

  /** The parent of the scope at `d` is the directory above `d`. */
  lemma ScopeParent(base: Url, d: seq<string>)
    requires Clean(d) && |d| >= 1
    ensures Clean(d + [""])
    ensures Resolve(Up, At(base, d + [""])) == Some(At(base, Dir(d) + [""]))
  {
    CleanSnoc(d, "");
    ResolveUp(At(base, d + [""]));
    assert Dir(d + [""]) == d;
  }

  /** The self-package loop run on what a scope search gave: its error,
      nothing, or the loop from the scope it found. */
  ghost function LoopFrom(r: Result<Option<Url>>, name: string, path: seq<string>, importerFull: string, dirname: Url,
                          cache: Cache, st: Option<LegacyState>): Result<Option<Url>>
  {
    match r
    case Err(m) => Err(m)
    case Ok(None) => Ok(None)
    case Ok(Some(s)) => if ScopeShape(s) then SelfLoop(s, name, path, importerFull, dirname, cache, st) else Ok(None)
  }

  /** The loop's unfolding at a scope: a turn that answers or throws ends
      it, a scope of at most three pathname parts ends it, and otherwise
      it goes on from the closest scope above. */
  lemma LoopUp(scope: Url, name: string, path: seq<string>, importerFull: string, dirname: Url,
               cache: Cache, st: Option<LegacyState>)
    requires ScopeShape(scope)
    ensures Resolve(Up, scope).Some?
    ensures var turn := SelfTurn(scope, name, path, importerFull, dirname, cache, st);
            SelfLoop(scope, name, path, importerFull, dirname, cache, st) ==
              if turn.Err? || turn.value.Some? then turn
              else if |Split(Pathname(scope), '/')| <= 3 then Ok(None)
              else LoopFrom(ClosestPackageScope(Resolve(Up, scope).value, cache), name, path, importerFull, dirname, cache, st)
  {
    ResolveUp(scope);
    var turn := SelfTurn(scope, name, path, importerFull, dirname, cache, st);
    if turn.Ok? && turn.value.None? && |Split(Pathname(scope), '/')| > 3 {
      PathnameParts(scope.path.segments);
      ScopeShrinks(scope, cache);
    }
  }

  /** One turn of the loop at the scope of `d`: an answer or an error ends
      it, and so does the package root; otherwise the search goes on from
      the directory above `d`. */
  lemma LoopAt(base: Url, d: seq<string>, name: string, path: seq<string>, importerFull: string, dirname: Url,
               cache: Cache, st: Option<LegacyState>)
    requires WalkBase(base) && |d| >= 1 && PlainSegments(d) && d[0] != ""
    ensures ScopeShape(At(base, d + [""])) && Clean(ManifestIn(base, Dir(d)).path.segments)
    ensures var turn := SelfTurn(At(base, d + [""]), name, path, importerFull, dirname, cache, st);
            SelfLoop(At(base, d + [""]), name, path, importerFull, dirname, cache, st) ==
              if turn.Err? || turn.value.Some? then turn
              else if |d| == 1 then Ok(None)
              else LoopFrom(ScopeSearch(ManifestIn(base, Dir(d)), cache), name, path, importerFull, dirname, cache, st)
  {
    PlainClean(d);
    CleanManifestIn(base, Dir(d));
    ScopeParent(base, d);
    PathnameParts(d + [""]);
    LoopUp(At(base, d + [""]), name, path, importerFull, dirname, cache, st);
    if |d| >= 2 {
      var e := Dir(d);
      assert e[0] == d[0];
      assert PlainSegments(e) by {
        forall i | 0 <= i < |e| ensures PlainSegment(e[i]) { assert e[i] == d[i]; }
      }
      ClosestOfDirectory(base, e, cache);
    }
  }

  /** The scope search from the `package.json` in `d`, followed by the
      self-package loop on the scope it finds, is the walk from `d`. */
  lemma {:induction false} SearchThenLoop(base: Url, d: seq<string>, name: string, path: seq<string>,
                                          importerFull: string, dirname: Url, cache: Cache, st: Option<LegacyState>)
    requires WalkBase(base) && |d| >= 1 && PlainSegments(d) && d[0] != ""
    ensures Clean(d) && Clean(ManifestIn(base, d).path.segments)
    ensures LoopFrom(ScopeSearch(ManifestIn(base, d), cache), name, path, importerFull, dirname, cache, st) ==
            SelfWalk(base, d, name, path, importerFull, dirname, cache, st)
    decreases |d|
  {
    PlainClean(d);
    CleanManifestIn(base, d);
    var m := ManifestIn(base, d);
    var found := TestCacheFileExistence(m, cache);
    var e := Dir(d);
    if |d| >= 2 {
      assert e[0] == d[0];
      assert PlainSegments(e) by {
        forall i | 0 <= i < |e| ensures PlainSegment(e[i]) { assert e[i] == d[i]; }
      }
      SearchThenLoop(base, e, name, path, importerFull, dirname, cache, st);
    }
    if found.Err? {
      SearchErr(base, d, cache);
    } else if found.value.Some? {
      ScopeSearchHit(base, d, cache);
      LoopAt(base, d, name, path, importerFull, dirname, cache, st);
    } else if |d| == 1 {
      ScopeSearchRoot(base, d, cache);
    } else {
      ScopeSearchUp(base, d, cache);
    }
  }

  /** A probe that throws makes the search throw. */
  lemma SearchErr(base: Url, d: seq<string>, cache: Cache)
    requires Clean(ManifestIn(base, d).path.segments)
    requires TestCacheFileExistence(ManifestIn(base, d), cache).Err?
    ensures ScopeSearch(ManifestIn(base, d), cache) == Err(TestCacheFileExistence(ManifestIn(base, d), cache).message)
  {
  }

  /** The self-package exports are the loop run on the closest scope of
      the importer. */
  lemma SelfExportsLoop(importer: Url, name: string, path: seq<string>, dirname: Url, cache: Cache,
                        st: Option<LegacyState>)
    requires ImporterFullName(importer).Ok?
    ensures SelfExports(importer, name, path, dirname, cache, st) ==
            LoopFrom(ClosestPackageScope(importer, cache), name, path, ImporterFullName(importer).value, dirname, cache, st)
  {
    ClosestScopeShape(importer, cache);
  }

  /** The normalised segments of a package location are plain, and so
      is the importer's directory, which starts with the package. */
  lemma ImporterDirPlain(importer: Url)
    requires PackagePath(importer)
    ensures var segs := NormalSegments(importer.path);
            |segs| >= 2 && PlainSegments(segs) && segs[0] != ""
    ensures var d := ImporterDir(importer);
            |d| >= 1 && PlainSegments(d) && d[0] == NormalSegments(importer.path)[0] && Clean(d)
  {
    var segs := NormalSegments(importer.path);
    assert PlainSegments(segs) by {
      forall i | 0 <= i < |segs| ensures PlainSegment(segs[i]) {
        match importer.path
        case Hier(s) => if i < |s| { assert segs[i] == s[i]; }
        case Opaque(t) =>
      }
    }
    var d := ImporterDir(importer);
    assert PlainSegments(d) by {
      forall i | 0 <= i < |d| ensures PlainSegment(d[i]) { assert d[i] == segs[i]; }
    }
    PlainClean(d);
  }

  /** A package importer's full name is its first normalised segment. */
  lemma ImporterFullNameOf(importer: Url)
    requires PackagePath(importer)
    ensures |NormalSegments(importer.path)| >= 1
    ensures ImporterFullName(importer) == Ok(NormalSegments(importer.path)[0])
  {
    NormalizeOf(importer);
    ImporterDirPlain(importer);
    PathStringSplit(NormalSegments(importer.path));
  }

  /** The self-package exports of a package importer are the walk from the
      importer's directory, resolved in the package named by the importer's
      first segment. */
  lemma SelfExportsWalk(importer: Url, name: string, path: seq<string>, dirname: Url, cache: Cache,
                        st: Option<LegacyState>)
    requires PackagePath(importer)
    ensures |NormalSegments(importer.path)| >= 2 && |ImporterDir(importer)| >= 1 && Clean(ImporterDir(importer))
    ensures ImporterFullName(importer) == Ok(NormalSegments(importer.path)[0])
    ensures SelfExports(importer, name, path, dirname, cache, st) ==
            SelfWalk(NormalForm(importer), ImporterDir(importer), name, path, NormalSegments(importer.path)[0],
                     dirname, cache, st)
  {
    ImporterDirPlain(importer);
    ImporterFullNameOf(importer);
    ClosestPackageScopeSearch(importer, cache);
    SelfExportsLoop(importer, name, path, dirname, cache, st);
    SearchThenLoop(NormalForm(importer), ImporterDir(importer), name, path, NormalSegments(importer.path)[0],
                   dirname, cache, st);
  }

  /** The self-package exports answer from the nearest enclosing directory
      whose `package.json` names the imported package and serves the path;
      every directory below it holds no `package.json`, or one for another
      package or without a target. The target is resolved in the importer's
      own package, whatever directory the `package.json` sits in. */
  lemma SelfExportsNearest(importer: Url, name: string, path: seq<string>, dirname: Url, cache: Cache,
                           st: Option<LegacyState>, k: nat, t: string)
    requires PackagePath(importer)
    requires 1 <= k <= |ImporterDir(importer)|
    requires Serves(NormalForm(importer), ImporterDir(importer)[..k], name, path, cache, t)
    requires forall j :: k < j <= |ImporterDir(importer)| ==>
               Passes(NormalForm(importer), ImporterDir(importer)[..j], name, path, cache)
    ensures |NormalSegments(importer.path)| >= 1
    ensures SelfExports(importer, name, path, dirname, cache, st) ==
            PackageUrl(t, NormalSegments(importer.path)[0], dirname, st)
  {
    SelfExportsWalk(importer, name, path, dirname, cache, st);
    SelfWalkNearest(NormalForm(importer), ImporterDir(importer), k, name, path, NormalSegments(importer.path)[0],
                    dirname, cache, st, t);
  }

  /** When no directory up to the package root serves the import, the
      self-package exports answer nothing. */
  lemma SelfExportsNone(importer: Url, name: string, path: seq<string>, dirname: Url, cache: Cache,
                        st: Option<LegacyState>)
    requires PackagePath(importer)
    requires forall j :: 1 <= j <= |ImporterDir(importer)| ==>
               Passes(NormalForm(importer), ImporterDir(importer)[..j], name, path, cache)
    ensures SelfExports(importer, name, path, dirname, cache, st) == Ok(None)
  {
    SelfExportsWalk(importer, name, path, dirname, cache, st);
    SelfWalkNone(NormalForm(importer), ImporterDir(importer), name, path, NormalSegments(importer.path)[0],
                 dirname, cache, st);
  }

  /** A package importer whose enclosing scopes serve a self import gets
      that answer, whatever the lock file says. */
  lemma PackageImportNearest(spec: Specifier, importer: Url, dirname: Url, cache: Cache, lockMap: LockMapV2,
                             st: Option<LegacyState>, k: nat, t: string)
    requires Protocol(importer) != "file:" && PackagePath(importer)
    requires 1 <= k <= |ImporterDir(importer)|
    requires Serves(NormalForm(importer), ImporterDir(importer)[..k], spec.name, spec.path, cache, t)
    requires forall j :: k < j <= |ImporterDir(importer)| ==>
               Passes(NormalForm(importer), ImporterDir(importer)[..j], spec.name, spec.path, cache)
    ensures |NormalSegments(importer.path)| >= 1
    ensures PackageImport(spec, importer, dirname, cache, lockMap, st) ==
            PackageUrl(t, NormalSegments(importer.path)[0], dirname, st)
  {
    ImporterFullNameOf(importer);
    SelfExportsNearest(importer, spec.name, spec.path, dirname, cache, st, k, t);
    PackageUrlSome(t, NormalSegments(importer.path)[0], dirname, st);
  }

  /** When no enclosing scope serves it, a package importer's import is
      looked up by bare name in the importer's own dependencies. */
  lemma PackageImportWithoutSelf(spec: Specifier, importer: Url, dirname: Url, cache: Cache, lockMap: LockMapV2,
                                 st: Option<LegacyState>)
    requires Protocol(importer) != "file:" && PackagePath(importer)
    requires forall j :: 1 <= j <= |ImporterDir(importer)| ==>
               Passes(NormalForm(importer), ImporterDir(importer)[..j], spec.name, spec.path, cache)
    ensures |NormalSegments(importer.path)| >= 1
    ensures PackageImport(spec, importer, dirname, cache, lockMap, st) ==
            FromDependencies(Dependencies(if lockMap.npm.Some? then lockMap.npm.value.packages else None,
                                          NormalSegments(importer.path)[0]),
                             spec.name, spec.path, dirname, cache, st)
  {
    ImporterFullNameOf(importer);
    SelfExportsNone(importer, spec.name, spec.path, dirname, cache, st);
  }
}
