# Module resolution and cache layout of esbuild-plugin-cache-deno

This project models in Dafny how the Deno cache plugin for esbuild decides
where an import lives and which file of Deno's cache holds it:

- the npm resolvers of three generations:
  - `src/npm/*.ts`, which reads version 3 lock files;
  - `src/npm.ts`, which reads version 2 lock files and walks package scopes;
  - the root `npm.ts`, which works on file system paths;
- the two import-map resolvers:
  - `src/importMapResolver.ts`, after the import-map algorithms of the WHATWG HTML Standard;
  - the legacy twins `src/importMap.ts` and `src/importmap.ts`;
- remote modules:
  - `src/http.ts`, which resolves remote specifiers and maps a remote URL to its `deps/<scheme>/<host>/<sha256>` cache file;
  - the esbuild callbacks of `src/buildCallback/remoteBuildCallback.ts`, which follow the lock file's redirects and compare hashes;
- the helpers `createURL` and `isSpecialURL` and the `WarningsHandler` class.

Throughout the model, a few conventions hold:

- A thrown error is the `Err` case of a `Result`. `null` and `undefined` are `None`.
- A JavaScript object is a sequence of key/value pairs in insertion order.
- A URL is a scheme, an optional authority, a path (hierarchical segments or opaque text), a query and a fragment. Relative references are resolved by section 5.2 of RFC 3986, with dot-segment removal (section 5.2.4).
- The file system is a value:
  - for the npm cache, the set of cache files that exist and the parsed `package.json` files among them;
  - for the root `npm.ts`, the regular files, the existing paths and the `main` fields.
- SHA-256 is a function parameter.

Code that updates state step by step is imperative Dafny:

- the `WarningsHandler` class;
- the `for…in` loop that fills the exports table;
- the loops that normalize import maps;
- the two resolver classes and their scope loops;
- the redirect loop;
- the package-scope searches of `src/npm.ts`.

Each of these methods is proved equal to a specification function, and the properties are proved about that function. The rest is functions and lemmas.

Some behaviours of the code are surprising, and the model keeps them as written:

- `decomposePackageNameVersion` splits at the last `@` after the first character.
  - So `react-dom@18.2.0_react@18.2.0` gives the name `react-dom@18.2.0_react`.
  - The test at test/unit/npm/toCacheURL.test.ts:29-34 expects `react-dom/18.2.0`. The model follows the code.
- `decomposeNPMModuleURL` splits at the first `@` after the name.
  - Its `@scope/name` alternative takes `@types/react` whole.
  - The test at test/unit/npm/moduleNames.test.ts:74-79 expects `@types`. The model follows the code.
- The scope guard `typeof resolved !== null` of the legacy import maps is always true. So the first applicable scope answers even when it has no entry for the path.
- In the version 3 resolver:
  - a package importing its own name gets its root, without the subpath;
  - the fallback `new URL(module.path, packageURL)` drops the package segment, because `module.path` starts with `/`.
- In the version 2 resolver:
  - the fallback keeps the package segment;
  - index files are probed beside a URL that does not end with `/`;
  - `resolveExports` reads the `./` key for the specifier `./`.
  - the self-package walk resolves a scope's target against `npm:/<importer's package>/`, even when the matching `package.json` sits in a nested directory.
- The redirect loop has no guard against a cycle. The model requires that the redirects from the path end.
- With an import map, `src/http.ts` drops a URL specifier that the map does not cover.

## Model

| member | source | states |
|---|---|---|
| Util.CreateURL | src/util.ts:8-14 | never throws: without a base, the parsed URL, non-null exactly when the string starts with a scheme; with a base, null when the base does not parse and otherwise the string resolved against it |
| Util.IsSpecialURL | src/util.ts:23-35 | true exactly for the protocols `ftp:`, `file:`, `http:`, `https:`, `ws:` and `wss:` |
| Util.SpecialDependsOnScheme | src/util.ts:23-35 | two URLs with the same scheme are both special or both not |
| Util.PackageSchemesNotSpecial | src/util.ts:32-33 | `npm:` and `node:` URLs are not special |
| WarningsHandlers.WarningsHandler.constructor | src/warningsHandler.ts:10-12 | a new handler holds no warnings |
| WarningsHandlers.WarningsHandler.Clear | src/warningsHandler.ts:14-16 | afterwards the list is empty, whatever it held |
| WarningsHandlers.WarningsHandler.Push | src/warningsHandler.ts:18-20 | the arguments are appended in order behind the earlier warnings |
| WarningsHandlers.WarningsHandler.Values | src/warningsHandler.ts:6-8 | iteration yields exactly the current list in insertion order and changes nothing |
| Strs.LastIndexOf | src/npm/toCacheURL.ts:4 | -1 exactly when the character is absent; otherwise an occurrence with none after it |
| Strs.Split | src/importMapResolver.ts:52 | there is at least one piece and no piece holds the separator |
| Strs.JoinSplit | src/importMapResolver.ts:52 | the pieces joined with the separator give the string back |
| Records.Put | src/importMap.ts:38 | `r[k] = v` keeps an existing key in its place and appends a new key last |
| Records.PutGet | src/importMap.ts:38 | after `r[k] = v`, reading `k` gives `v` and every other key reads as before |
| Urls.ParseHrefSlash | src/npm/resolveImport.ts:29-31 | `new URL(url.href + '/')` is the same URL with an empty last segment added |
| NpmCacheUrl.DecomposePackageNameVersion | src/npm/toCacheURL.ts:1-10 | with no `@` after the first character the result is `(s, '')`; otherwise `name + '@' + version == s`, the name is non-empty and the version holds no `@` |
| NpmCacheUrl.DecomposeNoVersion | src/npm/toCacheURL.ts:4-6 | a string without `@`, or with `@` only in front, is all name with an empty version |
| NpmCacheUrl.DecomposePeerSuffixed | src/npm/toCacheURL.ts:4-8 | `react-dom@18.2.0_react@18.2.0` gives the name `react-dom@18.2.0_react` and the version `18.2.0` |
| NpmCacheUrl.ToCacheURL | src/npm/toCacheURL.ts:12-24 | a pathname without a first segment throws |
| NpmCacheUrl.ToCacheURLPathnameOnly | src/npm/toCacheURL.ts:12-24 | two URLs with the same pathname have the same cache URL |
| NpmCacheUrl.ToCacheURLSegments | src/npm/toCacheURL.ts:13-23 | the cache URL is the root directory followed by `npm`, `registry.npmjs.org`, the name, the version and every later pathname segment in order, so a trailing `/` survives |
| NpmCacheUrl.CacheRelativePathOfSegments | src/npm/toCacheURL.ts:13-22 | the pathname splits into at least two pieces, and the relative cache path is the join of the cache segments |
| NpmCacheUrl.CachePathHasNoScheme | src/npm/toCacheURL.ts:22-23 | the relative cache path never reads as a URL with a scheme, so it is always resolved against the cache root |
| NpmCacheUrl.ToCacheURLReact | test/unit/npm/toCacheURL.test.ts:23-27 | `npm:/react@1.0.0/package.json` under `file:///cache/` is `file:///cache/npm/registry.npmjs.org/react/1.0.0/package.json` |
| NpmCoreModule.ResolveCoreModuleImport | src/npm/coreModule.ts:48-56 | a `node:` specifier is the URL it spells; a listed name becomes `node:<name>`; anything else is null; every answer has the `node` scheme |
| NpmCoreModule.ParseNodeName | src/npm/coreModule.ts:52-54 | `node:<name>` for a plain name parses to the URL whose opaque path is the name |
| NpmCoreModule.HttpIsCore | src/npm/coreModule.ts:1-56 | `http` resolves to `node:http` |
| NpmCoreModule.CoreNameLetter | src/npm/coreModule.ts:1-46 | every listed name starts with a lowercase letter |
| NpmCoreModule.NotCoreName | src/npm/coreModule.ts:1-46 | a name starting with `/` or `.` is not listed |
| NpmModuleName.DecomposeNPMModuleURL | src/npm/moduleName.ts:12-27 | only specifiers starting with `npm:` decompose; the path always starts with `/`; a version is non-empty without `/` and makes the full name `name@version`, and an unscoped name then holds no `@`; without a version the full name is the name |
| NpmModuleName.DecomposeReassembles | src/npm/moduleName.ts:20-25 | `npm:`, the optional `/`, the full name and the path (absent when it defaulted) spell the specifier again |
| NpmModuleName.SlashIsOptional | src/npm/moduleName.ts:9-11 | `npm:x` and `npm:/x` decompose alike whenever `npm:x` decomposes |
| NpmModuleName.VersionedShape | src/npm/moduleName.ts:9 | a match of the versioned expression is a name, `@`, a version without `/`, and a rest that is empty or starts with `/` |
| NpmModuleName.UnversionedShape | src/npm/moduleName.ts:10-11 | a match of the unversioned expression is a name of at least two characters or `@scope/name`, and a rest that is empty or starts with `/` |
| NpmModuleName.VersionedMatch | src/npm/moduleName.ts:9 | the name runs to the first `@` after its first character and the version runs to the next `/` |
| NpmModuleName.DecomposeVersioned | src/npm/moduleName.ts:9-25 | `npm:` or `npm:/`, then `name@version` and a path, decomposes into exactly that name, version and path |
| NpmModuleName.UnscopedMatch | src/npm/moduleName.ts:11 | an unscoped name of two or more characters, then a path, matches with that name |
| NpmModuleName.ScopedMatch | src/npm/moduleName.ts:11 | `@scope/name` without a version matches whole, scope included |
| NpmModuleName.DecomposeUnversioned | src/npm/moduleName.ts:10-25 | an unversioned name and a path without `@` decompose into that name, no version and that path |
| NpmModuleName.ShortNameRejected | src/npm/moduleName.ts:10-19 | a one-character unversioned name matches neither expression and gives null |
| NpmModuleName.ShortNameAfterSlash | src/npm/moduleName.ts:9-11 | with the `/` present, the retry without it keeps the `/` in the name |
| NpmExports.FirstCondition | src/npm/packageJSONExports.ts:36-44 | the value of the first listed condition that is neither missing nor null, or none |
| NpmExports.Target | src/npm/packageJSONExports.ts:25-48 | a string contributes itself, an array its first element, a condition object its chosen condition when that is a string; null, an empty array and a number or boolean contribute nothing |
| NpmExports.FillPathMap | src/npm/packageJSONExports.ts:24-49 | the `for…in` loop leaves the table equal to the path-map specification of the visited keys |
| NpmExports.ObjectExports | src/npm/packageJSONExports.ts:18-70 | all path keys run the loop; all condition keys set `.` from the chosen condition; mixed keys throw |
| NpmExports.GetPackageJSONExports | src/npm/packageJSONExports.ts:3-73 | the result is the exports table of the specification: `main` seeds `.` when `useMain`, then `exports` is applied |
| NpmExports.PathMapKeys | src/npm/packageJSONExports.ts:24-49 | the loop writes only keys it visits |
| NpmExports.PathMapOther | src/npm/packageJSONExports.ts:24-49 | a key the loop never visits keeps its earlier value |
| NpmExports.PathMapAt | src/npm/packageJSONExports.ts:24-49 | without repeated keys, each key ends with what its own value contributes, or keeps its earlier value when that is nothing |
| NpmExports.TableKeys | src/npm/packageJSONExports.ts:8-70 | every key of the table is `.` or a key of `exports` |
| NpmExports.TablePathEntry | src/npm/packageJSONExports.ts:9-49 | in a path map, a key whose value contributes a file maps to it, overwriting `main` at `.`; otherwise `main`'s entry stays |
| NpmExports.StringExportsWins | src/npm/packageJSONExports.ts:9-64 | a string `exports`, or a condition object whose chosen condition is a string, sets `.` whatever `main` says |
| NpmExports.MainOnly | src/npm/packageJSONExports.ts:9-14 | with no `exports` or an empty `exports` object, the table is `main` alone |
| NpmExports.TableError | src/npm/packageJSONExports.ts:13-69 | the call throws exactly when `exports` is null or mixes path keys with condition keys |
| NpmExports.PreferenceDecides | src/npm/packageJSONExports.ts:36-61 | with `import` and `require` both set, `preferImport` chooses between them |
| NpmExports.FirstMatch | src/npm/packageJSONExports.ts:83-99 | the answer comes from the first key in order that matches (exact, or a `/`-ended prefix), not the longest; null when none does |
| NpmExports.ResolvePackageJSONExports | src/npm/packageJSONExports.ts:75-100 | `''`, `.` and `./` read the `.` entry; anything else is the first match |
| NpmExports.PatternKeysIgnored | src/npm/packageJSONExports.ts:84-85 | dropping the keys that hold `*` changes no answer |
| NpmExports.AnswerShape | src/npm/packageJSONExports.ts:87-95 | an exact key answers with its value; a prefix key with its value followed by the rest of the specifier |
| CacheFiles.FirstExistingHit | src/npm/resolveImport.ts:17-22 | a non-null answer of a `??` chain of probes is a candidate that exists, after misses only |
| CacheFiles.FirstExistingNull | src/npm/resolveImport.ts:17-22 | the chain is null exactly when every candidate is a miss |
| CacheFiles.FirstExistingThrows | src/npm/resolveImport.ts:17-22 | the chain throws exactly when it reaches a candidate that is neither a hit nor a miss |
| CacheFiles.ThrowsFound | src/npm/resolveImport.ts:17-22 | a chain that throws has reached a candidate that throws |
| CacheFiles.ThrowsReached | src/npm/resolveImport.ts:17-22 | a chain that reaches a candidate that throws, throws |
| CacheFiles.FirstExistingAppend | src/npm/resolveImport.ts:81-82 | joining two chains by `??` runs the second only when the first is null |
| LockMaps.Truthy | src/npm/resolveImport.ts:103 | a missing value and the empty string are false; any other string is itself |
| NpmResolve.Suffixed | src/npm/resolveImport.ts:18-22 | each candidate is `new URL(url.href + suffix)`, in suffix order |
| NpmResolve.InDirectory | src/npm/resolveImport.ts:32-36 | each candidate is `new URL(name, dir)`, in name order |
| NpmResolve.ResolveFileImportFirst | src/npm/resolveImport.ts:13-23 | the first of `url`, `.js`, `.cjs`, `.mjs`, `.json`, `.node` that exists, after misses only; null exactly when all miss |
| NpmResolve.AsDirectoryOf | src/npm/resolveImport.ts:29-31 | the trailing-slash fix-up yields the directory URL, and applying it twice changes nothing |
| NpmResolve.ResolveInDirectoryOf | src/npm/resolveImport.ts:32-36 | a plain name resolved against a directory URL lands inside that directory |
| NpmResolve.IndexCandidatesInDirectory | src/npm/resolveImport.ts:25-37 | `index.js`, `index.cjs`, `index.mjs`, `index.json`, `index.node` are probed inside the directory the URL names, with or without its trailing `/` |
| NpmResolve.ResolveIndexJsImportFirst | src/npm/resolveImport.ts:25-37 | the first index file that exists, after misses only; null exactly when all miss |
| NpmResolve.DirectoryImportSteps | src/npm/resolveImport.ts:39-57 | a directory import builds `dir/` and `dir/package.json` |
| NpmResolve.DirectoryWithoutManifest | src/npm/resolveImport.ts:47-53 | without a cached `package.json`, a directory is read through its index files only |
| NpmResolve.DirectoryWithoutMain | src/npm/resolveImport.ts:54-62 | with a `package.json` whose table has no `.` entry the import is null, even when index files exist |
| NpmResolve.MainChainFlat | src/npm/resolveImport.ts:64-67 | with a `.` entry, the probes are main as a file, main's index files, then the directory's index files, as one flat chain |
| NpmResolve.RelativeWithoutManifest | src/npm/resolveImport.ts:70-86 | with no `package.json` beside the target, a relative import probes the file forms, then the index files of the directory it names |
| NpmResolve.RelativeImportGuards | src/npm/resolveImport.ts:75-85 | a `/` specifier throws; one that is neither `./` nor `../` is null |
| NpmResolve.LocalImporterReadsSpecifiers | src/npm/resolveImport.ts:93-106 | from a `file:` importer, an `npm:` specifier resolves through `packages.specifiers['npm:' + fullName]` with its path appended, and the lock file matters only through that entry |
| NpmResolve.PackageImporterReadsDependencies | src/npm/resolveImport.ts:107-122 | from an `npm:` importer, a foreign name resolves through the importer's `dependencies[fullName]`, and the lock file matters only through that entry |
| NpmResolve.SelfImportIgnoresSubpath | src/npm/resolveImport.ts:114-116 | a package importing its own name gets its own root: the lock file is not read and the subpath is dropped |
| NpmResolve.OtherImportersNamePackagesNot | src/npm/resolveImport.ts:88-125 | importers other than `file:` and `npm:` name no package, and neither does a `file:` importer's specifier without `npm:` |
| NpmResolve.PackageImportSteps | src/npm/resolveImport.ts:127-160 | a package whose `package.json` is not cached resolves to null; otherwise its exports table answers |
| NpmResolve.FallbackLeavesPackage | src/npm/resolveImport.ts:159 | a path the exports do not cover resolves from the scheme's root: `npm:/<fullName>/` with `/a/b` gives `npm:/a/b` |
| NpmResolve.ResolveImport | src/npm/resolveImport.ts:162-178 | the answer is the specification's: the core, relative and package chain, then the import map's non-null answer in its place |
| NpmResolve.CoreModulesFirst | src/npm/resolveImport.ts:169-172 | a core module answers before the importer, the cache or the lock file are consulted |
| NpmResolve.RelativeBeforePackage | src/npm/resolveImport.ts:169-172 | a relative answer wins over a package answer; the lock file is read only when neither matched |
| NpmResolve.ImportMapRewritesFoundOnly | src/npm/resolveImport.ts:174-177 | without a map the chain's answer stands; an unresolved import stays null; a map that finds nothing leaves the answer |
| ImportMapResolvers.ResolveURLLikeModuleSpecifier | src/importMapResolver.ts:24-36 | `/`, `./` and `../` specifiers resolve against the base; anything else must be an absolute URL, and the base plays no part |
| ImportMapResolvers.NormalizedKey | src/importMapResolver.ts:38-49 | the key an entry is stored under is the href of the URL it denotes, or the key itself; an empty key has none |
| ImportMapResolvers.NormalizeSpecifierKey | src/importMapResolver.ts:38-49 | returns the normalized key and pushes a warning exactly when the key is empty |
| ImportMapResolvers.VerbosityCount | src/importMapResolver.ts:51-54 | the number of `/` plus one, less one when the specifier is empty or ends with `/` |
| ImportMapResolvers.VerbosityTrailingSlash | src/importMapResolver.ts:51-54 | `a/b/` and `a/b` are equally verbose |
| ImportMapResolvers.NormalizeEntry | src/importMapResolver.ts:63-97 | an empty key is dropped; an unresolvable value, or a `/`-ended key whose URL does not end with `/`, keeps the entry with a null value; each case with its warnings in order |
| ImportMapResolvers.NormalizeEntryInto | src/importMapResolver.ts:63-97 | one turn of the loop pushes the item and the warnings of the specification |
| ImportMapResolvers.SortAndNormalizeModuleSpecifierMap | src/importMapResolver.ts:56-102 | the items are the normalized entries sorted by descending verbosity; the warnings are appended in entry order |
| ImportMapResolvers.ItemsFromEntries | src/importMapResolver.ts:63-70 | every item comes from an entry with a non-empty key |
| ImportMapResolvers.SortedItems | src/importMapResolver.ts:99 | the sorted items hold every normalized entry once, more verbose keys first, equally verbose keys in their original order |
| ImportMapResolvers.NormalizeScope | src/importMapResolver.ts:112-124 | a prefix that does not resolve drops the scope with a warning; otherwise the scope keeps its prefix's href, its normalized map and the prefix's verbosity |
| ImportMapResolvers.NormalizeScopeInto | src/importMapResolver.ts:112-124 | one turn of the scope loop, with its `try` and `catch` |
| ImportMapResolvers.NormalizeScopesInto | src/importMapResolver.ts:111-125 | the loop normalizes every scope in order and appends the warnings as they arise |
| ImportMapResolvers.SortAndNormalizeScopes | src/importMapResolver.ts:104-130 | the scopes are the normalized scopes sorted by descending verbosity of their prefix |
| ImportMapResolvers.ItemAnswer | src/importMapResolver.ts:138-173 | a null value throws; a prefix match resolves the rest against the mapped URL, answers with that URL exactly when it lies under the mapped URL, and throws otherwise |
| ImportMapResolvers.ImportsMatchFirst | src/importMapResolver.ts:132-177 | null exactly when no item applies (exact key, or a `/`-ended prefix for a bare or special specifier); otherwise the first applicable item answers |
| ImportMapResolvers.ResolveImportsMatch | src/importMapResolver.ts:132-177 | the loop with early return computes the specification's answer |
| ImportMapResolvers.ScopesMatchFirst | src/importMapResolver.ts:225-238 | nothing is found exactly when no applicable scope has a match; otherwise the first applicable scope with a match answers |
| ImportMapResolvers.ImportMapResolver.constructor | src/importMapResolver.ts:190-203 | imports and scopes are normalized and sorted; the warnings are the imports' then the scopes', in a fresh list |
| ImportMapResolvers.ImportMapResolver.Resolve | src/importMapResolver.ts:213-250 | the scope loop, the top-level imports, then the fallback compute the specification's answer |
| ImportMapResolvers.NoMatchFallsBack | src/importMapResolver.ts:240-249 | with nothing applicable, the answer is the specifier's own URL (null for a bare one), or null with `noSpecifierItself` |
| ImportMapResolvers.ImporterOnlySelectsScopes | src/importMapResolver.ts:218-238 | without scopes the importer makes no difference |
| ImportMapResolvers.ScopeBeforeImports | src/importMapResolver.ts:225-247 | once an applicable scope has a match, the top-level imports are not consulted |
| Sorting.Insert | src/importMapResolver.ts:99 | the result is the elements and the new one, as a multiset, one longer |
| Sorting.InsertSorted | src/importMapResolver.ts:99 | inserting into a descending sequence keeps it descending |
| Sorting.SortDesc | src/importMapResolver.ts:99 | the result is a permutation of the input |
| Sorting.SortSorted | src/importMapResolver.ts:127 | the result is ordered by descending key |
| Sorting.SortStable | src/importMap.ts:71 | elements with equal keys keep their relative order |
| LegacyImportMaps.AbsoluteValueIsFile | src/importMap.ts:19-20 | a value written as an absolute path is `file://` plus the path, whatever the document root |
| LegacyImportMaps.InvalidValueThrows | src/importMap.ts:15-26 | a value that is neither a URL nor path-like throws with the map's error message |
| LegacyImportMaps.MapToUrlStep | src/importMap.ts:33-39 | the next entry either extends the map by its converted key and value or makes the whole map throw |
| LegacyImportMaps.ImportMapMapToUrl | src/importMap.ts:28-41 | the loop builds the specification's map, or throws its error |
| LegacyImportMaps.PutAllErrSticks | src/importMap.ts:33-39 | once a prefix of the entries throws, the whole map throws the same error |
| LegacyImportMaps.PutAllHas | src/importMap.ts:33-39 | after the assignments a key is present exactly when some entry converts to it |
| LegacyImportMaps.PutAllLast | src/importMap.ts:33-39 | a present key holds the value of the last entry that converts to it |
| LegacyImportMaps.PutAllOk | src/importMap.ts:33-39 | building succeeds exactly when every entry converts |
| LegacyImportMaps.PutAllAgree | src/importMap.ts:33-39 | two conversions that agree on every entry build the same map and fail together |
| LegacyImportMaps.MapToUrlContents | src/importMap.ts:28-41 | the map holds exactly the normalized keys, each with the last matching entry's value, and throws exactly when some key or value does not convert |
| LegacyImportMaps.MapToUrlTwins | src/importmap.ts:28-41 | the two files build the same map and differ only in their error messages |
| LegacyImportMaps.NonEmptyParts | src/importMap.ts:59 | the filtered parts are the non-empty pieces of the split, in order |
| LegacyImportMaps.MakeScopeKinds | src/importMap.ts:53-69 | a scope is a full-URL scope exactly when its key parses; its segments come from the pathname then, from the key otherwise; it throws exactly when its map does |
| LegacyImportMaps.BuildScopesEach | src/importMap.ts:52-70 | the built scopes are one per key, in key order |
| LegacyImportMaps.ScopesOrdered | src/importMap.ts:52-71 | the scopes are ordered by descending segment count, rearrange the built scopes, and keep key order within equal counts |
| LegacyImportMaps.DotSegmentKept | src/importMap.ts:66 | a path scope written `./x/` keeps `.` as a segment |
| LegacyImportMaps.WithImportsFirst | src/importMap.ts:74-89 | null exactly when no key matches; otherwise the first matching key answers, exact or as a `/`-ended prefix |
| LegacyImportMaps.ResolveWithImports | src/importMap.ts:74-89 | the loop with early return computes the specification's answer |
| LegacyImportMaps.ScopeDecidesAt | src/importMap.ts:115-137 | the first applicable scope answers with its own map's answer |
| LegacyImportMaps.NoScopeApplies | src/importMap.ts:139-144 | the top-level imports answer when no scope applies |
| LegacyImportMaps.FirstApplicableScopeDecides | src/importMap.ts:108-145 | the first applicable scope decides even when its map has nothing; the imports are read only when no scope applies |
| LegacyImportMaps.ApplicableScopeHidesImports | src/importMap.ts:119-122 | an applicable scope without an entry for the path makes the answer null even when the imports match |
| LegacyImportMaps.LegacyImportMapResolver.Create | src/importMap.ts:96-105 | the constructor succeeds exactly when the imports and every scope convert, with the specification's state, and otherwise throws that error |
| LegacyImportMaps.LegacyImportMapResolver.Resolve | src/importMap.ts:108-145 | the path fix-up and the scope loop compute the specification's answer |
| Http.UrlSpecifierKept | src/http.ts:10-12 | without a resolver, an absolute URL specifier is returned as it is |
| Http.PathSpecifierResolved | src/http.ts:13-21 | without a resolver, `/`, `./` and `../` specifiers are resolved against the importer |
| Http.BareSpecifierNull | src/http.ts:9-32 | without a resolver, a bare specifier is null |
| Http.UnmappedUrlDropped | src/http.ts:23-30 | with a resolver, the answer is the resolver's, and a URL it does not map is dropped |
| Http.HrefResolvesAlike | src/http.ts:23-29 | a URL specifier and its `href` resolve alike |
| Http.ToHex | src/http.ts:44 | `toString(16)` gives one lowercase digit below 16 and two from 16 on |
| Http.HexByteDigits | src/http.ts:44 | the padded text is the high nibble's digit, then the low nibble's |
| Http.HexStringDecodes | src/http.ts:43-45 | the digest text has two lowercase hex digits per byte and reads back as the bytes |
| Http.HexStringShape | src/http.ts:43-45 | the text is twice as long as the bytes and consists of lowercase hex digits |
| Http.DecodeHexWritten | src/http.ts:43-45 | every text that reads as bytes is the digest text of those bytes |
| Http.PathBytes | src/http.ts:39-40 | each character contributes the low byte of its code |
| Http.PathBytesLatin1 | src/http.ts:39-40 | characters below U+0100 are hashed as they are |
| Http.CacheURLDependsOnHostAndPath | src/http.ts:35-49 | query, fragment, port and credentials never change the cache URL: it depends on scheme, hostname and pathname |
| Http.CachePathRelative | src/http.ts:46-48 | the cache path never has a scheme of its own |
| Http.ToCacheURLSegments | src/http.ts:35-49 | under a directory root the cache file is the root directory followed by `deps`, the scheme, the hostname and the hex digest of the pathname |
| Http.CacheURLExample | test/unit/http.test.ts:54-58 | `https://example.com/package/index.js` is cached at `file:///cache/deps/https/example.com/` followed by the hex digest of `/package/index.js` |
| RemoteCallback.ChaseSettled | src/buildCallback/remoteBuildCallback.ts:26-28 | once the redirect chase reaches a string that is not a redirect key, further turns change nothing |
| RemoteCallback.ChaseUnique | src/buildCallback/remoteBuildCallback.ts:26-28 | every way of settling settles on the same string |
| RemoteCallback.ChaseNext | src/buildCallback/remoteBuildCallback.ts:26-28 | one more turn follows the redirect of the current string |
| RemoteCallback.OnRemoteResolve | src/buildCallback/remoteBuildCallback.ts:16-46 | the loop stops at the settled final URL, and the answer is the lookup of that URL |
| RemoteCallback.ResolvedAtFinalUrl | src/buildCallback/remoteBuildCallback.ts:29-45 | a resolution is at the final URL, which is no redirect key, carries the recorded hash, the remote namespace, and the http cache file of that URL |
| RemoteCallback.RemoteAnswerNull | src/buildCallback/remoteBuildCallback.ts:29-37 | null exactly when the final URL has no recorded hash or does not parse |
| RemoteCallback.FreshCacheLoads | src/buildCallback/remoteBuildCallback.ts:91-97 | contents whose digest text is the recorded hash load unchanged with the recorded loader |
| RemoteCallback.OutdatedExactly | src/buildCallback/remoteBuildCallback.ts:82-95 | the load reports outdated contents exactly when the recorded hash does not read as their digest, with the message naming the path |
| NpmScopes.NormalizeRejectsRoot | src/npm.ts:85-87 | the empty and the root pathname, and only they, throw |
| NpmScopes.NormalizeOf | src/npm.ts:84-98 | on a package location the result is the URL with a leading `/` and a directory after a lone package segment, and nothing else |
| NpmScopes.NormalizeIdempotent | src/npm.ts:84-98 | normalizing twice is normalizing once |
| NpmScopes.FirstCandidate | src/npm.ts:102 | the first candidate is the `package.json` beside the normalized URL's last segment |
| NpmScopes.FindClosestPackageScope | src/npm.ts:100-112 | the `while` loop computes the specification's search |
| NpmScopes.ScopeSearchHit | src/npm.ts:104-111 | a search that finds `package.json` in a directory ends at that directory |
| NpmScopes.ScopeSearchUp | src/npm.ts:104-109 | a miss moves the search to the parent directory |
| NpmScopes.ScopeSearchRoot | src/npm.ts:105-108 | a miss at the package root gives up |
| NpmScopes.ScopeSearchNearest | src/npm.ts:100-112 | the search finds the nearest directory at or above the start that holds `package.json` |
| NpmScopes.ScopeSearchNone | src/npm.ts:104-109 | with no `package.json` down to the package root, the search finds nothing |
| NpmScopes.ClosestPackageScopeSearch | src/npm.ts:100-104 | on a package location the search starts at the `package.json` of the normalized directory |
| NpmScopes.ClosestScopeShape | src/npm.ts:100-112 | every scope found keeps the scheme, is clean, and ends with a directory |
| NpmScopes.ClosestScopeBound | src/npm.ts:100-112 | a scope found from a location has no more segments than the location |
| NpmScopes.ScopeShrinks | src/npm.ts:299-302 | the next scope of the self-package walk has fewer segments, so the walk ends |
| NpmLegacy.GetPackageExports | src/npm.ts:114-159 | the loop builds the specification's table: `main` when `useMain`, then `exports` read with `require ?? default`; mixed keys throw |
| NpmLegacy.FirstConditionRequireDefault | src/npm.ts:141 | the chosen condition is `require`, or `default` when `require` is nullish |
| NpmLegacy.ImportConditionIgnored | src/npm.ts:147-152 | two condition objects that agree on `require` and `default` give the same `.` entry |
| NpmLegacy.ConditionsTable | src/npm.ts:147-152 | a conditions object sets `.` from its chosen condition when that is a string |
| NpmLegacy.ResolveExportsAgrees | src/npm.ts:161-181 | everywhere but at `./`, it answers as `resolvePackageJSONExports` does |
| NpmLegacy.ResolveExportsSlash | src/npm.ts:162-181 | at `./` it reads the entry under the key `./`, not `.` |
| NpmLegacy.ResolveAsFileFirst | src/npm.ts:187-193 | the first of `url`, `.js`, `.json`, `.node` that exists, after misses only; null exactly when all four miss |
| NpmLegacy.IndexCandidatesBeside | src/npm.ts:195-200 | index files are probed in the URL's directory, beside a last segment that names a file |
| NpmLegacy.DirectoryWithoutManifest | src/npm.ts:206-221 | without a `package.json` the directory is read through its index files |
| NpmLegacy.DirectoryWithoutMain | src/npm.ts:206-219 | with a `package.json` without a `.` entry the import is null |
| NpmLegacy.MainChainFlat | src/npm.ts:212-216 | with a main file the probes are main as a file, the index files beside it, then those beside the directory URL |
| NpmLegacy.OrElseCases | src/npm.ts:234-235 | a non-null map answer wins; otherwise the fallback answers; the map's error is thrown; the result is never null |
| NpmLegacy.ResolveOrElse | src/npm.ts:234-235 | the call on the resolver object computes that answer |
| NpmLegacy.PackageSpecifierParts | src/npm.ts:261-266 | the full name and the path put back together are the name after its last `:` and one leading `/`; the bare name is the full name without its version |
| NpmLegacy.ResolveImport | src/npm.ts:224-336 | the method, with its self-package walk, computes the specification's answer; what the walk answers is stated by `PackageImportNearest` and `PackageImportWithoutSelf` |
| NpmLegacy.NodeImportsFirst | src/npm.ts:233-240 | a `node:` import, or a listed name as `node:<name>`, is that URL unless the import map answers, before every other rule |
| NpmLegacy.AbsolutePathThrows | src/npm.ts:242-244 | a `/` specifier throws whatever the lock file and the cache hold |
| NpmLegacy.RelativeImportOf | src/npm.ts:245-255 | a relative import reads neither the lock file nor the package scopes |
| NpmLegacy.FileThenDirectoryExists | src/npm.ts:247-248 | what the file and directory probes find has a cache file |
| NpmLegacy.RelativeImportExists | src/npm.ts:245-255 | without an import map a relative import answers with a cached URL or null |
| NpmLegacy.FileImporterReadsSpecifiers | src/npm.ts:268-315 | a `file:` importer reads only `npm.specifiers[fullName]`, and the self-package search does not run |
| NpmLegacy.PackageImporterIgnoresVersion | src/npm.ts:268-314 | a package importer looks its dependencies up by bare name: the same name and path resolve alike whatever the version |
| NpmLegacy.SelfExportsWalk | src/npm.ts:276-304 | the self-package loop over `findClosestPackageScope` equals a walk over the importer's directories from its own up to the package root, where the first directory that answers decides |
| NpmLegacy.SelfWalkNearest | src/npm.ts:276-304 | the walk answers from the nearest directory whose `package.json` names the package and serves the path; every directory below it has no `package.json`, or one for another package or without a target |
| NpmLegacy.SelfWalkNone | src/npm.ts:276-304 | when every directory up to the package root passes, the walk answers nothing |
| NpmLegacy.SelfExportsNearest | src/npm.ts:276-304 | for a package importer, the nearest serving scope answers, with its target resolved against `npm:/<importer's first segment>/`, not against the scope that holds the `package.json` |
| NpmLegacy.SelfExportsNone | src/npm.ts:276-304 | when no scope up to the package root serves the import, the self-package search answers nothing |
| NpmLegacy.PackageImportNearest | src/npm.ts:261-304 | a package importer whose enclosing scopes serve a self import gets that answer, whatever the lock file says |
| NpmLegacy.PackageImportWithoutSelf | src/npm.ts:261-336 | otherwise the import is looked up by bare name in the importer's own `packages[<first segment>].dependencies` |
| NpmLegacy.DependencyFallback | src/npm.ts:326-334 | a path no key serves resolves to `npm:/<fullName>/<path>` |
| NpmLegacy.PackageFileUrl | src/npm.ts:332 | `new URL('npm:/' + segments.join('/'))` is the URL with those segments |
| NodeRequire.FirstFile | npm.ts:87-100 | a chain of `fs.exists(…, { isFile: true })` probes answers with the first regular file, after non-files only |
| NodeRequire.FirstFileAppend | npm.ts:130-132 | probing two lists one after the other is probing their concatenation |
| NodeRequire.FileCandidates | npm.ts:85-101 | the candidates are the path, then the path with `.js`, `.json`, `.node` |
| NodeRequire.IndexCandidates | npm.ts:103-115 | the candidates are `join(path, index.js)`, `index.json`, `index.node` |
| NodeRequire.LoadAsFileFirst | npm.ts:85-101 | the first of the path and its three extensions that is a regular file; null when none is |
| NodeRequire.LoadIndexFirst | npm.ts:103-115 | the first index file that is a regular file; null when none is |
| NodeRequire.DirectoryWithMain | npm.ts:128-132 | with a string `main`, the probes are the entry as a file, the entry's index files, then the directory's |
| NodeRequire.DirectoryWithoutMain | npm.ts:118-127 | without `package.json` or a string `main`, the directory's index files answer; a `package.json` that does not read throws |
| NodeRequire.DirectoryFindsFiles | npm.ts:117-133 | everything the directory probes find is a regular file |
| NodeRequire.RequireNodeModuleKinds | npm.ts:55-83 | a core module is the name after `node:` or a listed name; a file is a regular file reached from a path; a module is a bare name in scope; only a path can throw |
| NodeRequire.BareNameInScope | npm.ts:78-82 | a bare name resolves exactly when it is in scope, and the disk is not read |
| NodeRequire.PathsProbed | npm.ts:68-76 | a `/` path and a relative path are probed alike, the relative one from the importer's directory |

## Left out

- Plugin wiring is not part of this model:
  - `src/mod.ts`;
  - the npm, import-map and loader build callbacks;
  - `onRemoteNamespaceResolve`;
  - the root `mod.ts`.
  These only connect the modelled functions to esbuild.
- Fetching redirects over the network and running `deno info` are left out. Both are I/O.
- Reading files is left out:
  - `Deno.readFile`, `Deno.readTextFile` and `fs.exists` become the cache and disk values;
  - `JSON.parse` becomes the parsed `package.json` datatype, and a file that is missing or malformed is an error.
- SHA-256 is a function parameter. Only the hex formatting and the hash comparison are modelled.
- The loader rules are a parameter: `getLoader` lives in `src/mod.ts`.
- WHATWG URL parsing is simplified:
  - percent-encoding, IDNA, host and port parsing, and case folding are not modelled;
  - the special-scheme rules for backslashes and empty hosts are not modelled;
  - a `.` in a regular expression of `src/npm/moduleName.ts` matches every character, including line terminators.
- JavaScript objects keep insertion order. Their integer-like keys would come first in `for…in`, and that is not modelled; neither are prototype keys.
- `posix.join` and `posix.dirname` of the Deno standard library are parameters of `NodeRequire`. The standard library's `deps.ts` is not part of this model.
- Shared definitions:
  - `decomposePackageNameVersion` and `toCacheURL` of `src/npm.ts` (lines 59-82) are the same code as `src/npm/toCacheURL.ts` and share `NpmCacheUrl`'s definitions;
  - the core-module lists of `src/npm.ts` and `npm.ts` share `NpmCoreModule.CoreModuleNames`.
- The `#` imports branch of `src/npm.ts` (lines 257-259) has an empty body and is not modelled.
- `src/npm/testCacheFileExistence.ts` is modelled as the existence test `CacheFiles.TestCacheFileExistence`. It has no contract of its own.
- Async and Promise plumbing is sequential in the model.
- RemoteCallback.OnRemoteResolve: requires that the redirects from the path end. On a cycle the source loops forever, and that is not represented.
- NpmExports.Target: an array under `exports` holds only strings in the model. The source copies the first element whatever it is (`src/npm/packageJSONExports.ts` lines 30-34). A `[null]` array, or a fallback array such as `[{"import": …}, "./x.js"]`, would put null or an object into the table, where later `typeof` tests and string concatenation act on it. JavaScript's conversion of such values to strings is not modelled.
- NpmLegacy.GetPackageExports: the same restriction holds for the array branch of `src/npm.ts` (lines 135-139).
