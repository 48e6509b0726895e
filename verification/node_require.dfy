/** npm.ts: the earliest resolver, which works on file system paths. It
    follows the Node.js `require` algorithm: core modules by name, `/` and
    relative paths as a file and then as a directory, and bare names only when
    they are among the modules in scope. The file system is a value:
    `files` are the paths of regular files, `entries` every path that exists,
    and `mains` the `main` field of each `package.json` that reads and parses
    (None where it is not a string). `posix.join` and `posix.dirname` belong
    to the Deno standard library and are parameters. */
module NodeRequire {
  import opened Wrappers
  import opened Strs
  import NpmCoreModule

  datatype ModuleType = File | CoreModule | Module

  /** `ModuleResolveResult` */
  datatype ModuleResolveResult = ModuleResolveResult(name: string, kind: ModuleType)

  datatype Disk = Disk(files: set<string>, entries: set<string>, mains: map<string, Option<string>>)

  /** What the extension probes append, in order. */
  const Extensions: seq<string> := [".js", ".json", ".node"]

  /** The index files, in probing order. */
  const IndexNames: seq<string> := ["index.js", "index.json", "index.node"]

  const PackageJsonName := "package.json"

  /** `Deno.readTextFile` or `JSON.parse` throwing on `path`. */
  function ReadError(path: string): string {
    "cannot read " + path
  }

  /** `a ?? b` on two probe results. */
  function Either(a: Option<ModuleResolveResult>, b: Option<ModuleResolveResult>): Option<ModuleResolveResult> {
    if a.Some? then a else b
  }

  /** A chain of `fs.exists(c, { isFile: true })` probes: the first candidate
      that is a regular file. */
  function FirstFile(cands: seq<string>, disk: Disk): (r: Option<string>)
    ensures r.None? <==> forall i :: 0 <= i < |cands| ==> cands[i] !in disk.files
    ensures r.Some? ==> exists i :: 0 <= i < |cands| && cands[i] == r.value && r.value in disk.files &&
                          forall j :: 0 <= j < i ==> cands[j] !in disk.files
    decreases |cands|
  {
    if |cands| == 0 then None
    else if cands[0] in disk.files then Some(cands[0])
    else
      var r := FirstFile(cands[1..], disk);
      if r.Some? then
        ghost var i :| 0 <= i < |cands[1..]| && cands[1..][i] == r.value && r.value in disk.files &&
                       forall j :: 0 <= j < i ==> cands[1..][j] !in disk.files;
        assert cands[i + 1] == cands[1..][i];
        assert forall j :: 0 <= j < i + 1 ==> cands[j] !in disk.files by {
          forall j | 0 <= j < i + 1 ensures cands[j] !in disk.files {
            if j > 0 { assert cands[j] == cands[1..][j - 1]; }
          }
        }
        r
      else
        assert forall i :: 0 <= i < |cands| ==> cands[i] !in disk.files by {
          forall i | 0 <= i < |cands| ensures cands[i] !in disk.files {
            if i > 0 { assert cands[i] == cands[1..][i - 1]; }
          }
        }
        r
  }

  /** Probing two lists one after the other is probing their concatenation. */
  lemma {:induction false} FirstFileAppend(a: seq<string>, b: seq<string>, disk: Disk)
    ensures FirstFile(a + b, disk) == if FirstFile(a, disk).Some? then FirstFile(a, disk) else FirstFile(b, disk)
    decreases |a|
  {
    if |a| > 0 {
      assert (a + b)[0] == a[0];
      assert (a + b)[1..] == a[1..] + b;
      FirstFileAppend(a[1..], b, disk);
    } else {
      assert a + b == b;
    }
  }

  /** A found file as a result. */
  function AsFile(p: Option<string>): Option<ModuleResolveResult> {
    if p.Some? then Some(ModuleResolveResult(p.value, File)) else None
  }

  /** The path, then the path with each extension. */
  function FileCandidates(path: string): (c: seq<string>)
    ensures |c| == 4 && c[0] == path
    ensures forall i :: 1 <= i < 4 ==> c[i] == path + Extensions[i - 1]
  {
    [path, path + Extensions[0], path + Extensions[1], path + Extensions[2]]
  }

  /** `loadAsFile(path)` */
  function LoadAsFile(path: string, disk: Disk): Option<ModuleResolveResult> {
    AsFile(FirstFile(FileCandidates(path), disk))
  }

  /** `posix.join(path, name)` for each index name. */
  function IndexCandidates(path: string, join: (string, string) -> string): (c: seq<string>)
    ensures |c| == 3 && forall i :: 0 <= i < 3 ==> c[i] == join(path, IndexNames[i])
  {
    [join(path, IndexNames[0]), join(path, IndexNames[1]), join(path, IndexNames[2])]
  }

  /** `loadIndex(path)` */
  function LoadIndex(path: string, disk: Disk, join: (string, string) -> string): Option<ModuleResolveResult> {
    AsFile(FirstFile(IndexCandidates(path, join), disk))
  }

  /** `loadAsDirectory(path)`: an absent `package.json`, or one whose `main`
      is not a string, leaves the index files; a `package.json` that exists
      but does not read or parse throws. */
  function LoadAsDirectory(path: string, disk: Disk, join: (string, string) -> string): Result<Option<ModuleResolveResult>> {
    var packageJsonPath := join(path, PackageJsonName);
    if packageJsonPath !in disk.entries then Ok(LoadIndex(path, disk, join))
    else if packageJsonPath !in disk.mains then Err(ReadError(packageJsonPath))
    else
      match disk.mains[packageJsonPath]
      case None => Ok(LoadIndex(path, disk, join))
      case Some(entry) =>
        var entryPath := join(path, entry);
        Ok(Either(LoadAsFile(entryPath, disk), Either(LoadIndex(entryPath, disk, join), LoadIndex(path, disk, join))))
  }

  /** `loadAsFile(p) ?? loadAsDirectory(p)` */
  function FileOrDirectory(path: string, disk: Disk, join: (string, string) -> string): Result<Option<ModuleResolveResult>> {
    var asFile := LoadAsFile(path, disk);
    if asFile.Some? then Ok(asFile) else LoadAsDirectory(path, disk, join)
  }

  predicate IsRelative(moduleName: string) {
    StartsWith(moduleName, "./") || StartsWith(moduleName, "../")
  }

  /** `requireNodeModule(moduleName, importer, modulesInScope)` */
  function RequireNodeModule(moduleName: string, importer: string, modulesInScope: seq<string>, disk: Disk,
                             join: (string, string) -> string, dirname: string -> string)
    : Result<Option<ModuleResolveResult>>
  {
    var importerPath := dirname(importer);
    if StartsWith(moduleName, "node:") then Ok(Some(ModuleResolveResult(moduleName[5..], CoreModule)))
    else if moduleName in NpmCoreModule.CoreModuleNames then Ok(Some(ModuleResolveResult(moduleName, CoreModule)))
    else if StartsWith(moduleName, "/") then FileOrDirectory(moduleName, disk, join)
    else if IsRelative(moduleName) then FileOrDirectory(join(importerPath, moduleName), disk, join)
    else if moduleName in modulesInScope then Ok(Some(ModuleResolveResult(moduleName, Module)))
    else Ok(None)
  }

  // ---------------------------------------------------------------------------
  // Properties

  /** `loadAsFile` answers with the first of the path, `.js`, `.json` and
      `.node` forms that is a regular file, and is null when none is. */
  lemma LoadAsFileFirst(path: string, disk: Disk)
    ensures var r := LoadAsFile(path, disk); var c := FileCandidates(path);
            && (r.None? <==> forall i :: 0 <= i < 4 ==> c[i] !in disk.files)
            && (r.Some? ==>
                  r.value.kind == File &&
                  exists i :: 0 <= i < 4 && c[i] == r.value.name &&
                    c[i] in disk.files && forall j :: 0 <= j < i ==> c[j] !in disk.files)
  {
  }

  /** `loadIndex` answers with the first index file beside `join(path, …)`
      that is a regular file. */
  lemma LoadIndexFirst(path: string, disk: Disk, join: (string, string) -> string)
    ensures var r := LoadIndex(path, disk, join);
            && (r.None? <==> forall i :: 0 <= i < 3 ==> join(path, IndexNames[i]) !in disk.files)
            && (r.Some? ==>
                  r.value.kind == File &&
                  exists i :: 0 <= i < 3 && join(path, IndexNames[i]) == r.value.name &&
                    r.value.name in disk.files &&
                    forall j :: 0 <= j < i ==> join(path, IndexNames[j]) !in disk.files)
  {
    var c := IndexCandidates(path, join);
    var r := FirstFile(c, disk);
    if r.Some? {
      var i :| 0 <= i < |c| && c[i] == r.value && r.value in disk.files &&
                forall j :: 0 <= j < i ==> c[j] !in disk.files;
      assert join(path, IndexNames[i]) == r.value;
    }
  }

  /** A directory with a `main` entry is probed as one flat list: the entry
      and its extensions, the entry's index files, then the directory's. */
  lemma DirectoryWithMain(path: string, entry: string, disk: Disk, join: (string, string) -> string)
    requires join(path, PackageJsonName) in disk.entries
    requires join(path, PackageJsonName) in disk.mains && disk.mains[join(path, PackageJsonName)] == Some(entry)
    ensures var e := join(path, entry);
            LoadAsDirectory(path, disk, join) ==
            Ok(AsFile(FirstFile(FileCandidates(e) + IndexCandidates(e, join) + IndexCandidates(path, join), disk)))
  {
    var e := join(path, entry);
    var a, b, c := FileCandidates(e), IndexCandidates(e, join), IndexCandidates(path, join);
    FirstFileAppend(a + b, c, disk);
    FirstFileAppend(a, b, disk);
  }

  /** Without a usable `main` the directory is read through its index files;
      a `package.json` that exists but does not read throws. */
  lemma DirectoryWithoutMain(path: string, disk: Disk, join: (string, string) -> string)
    ensures var pj := join(path, PackageJsonName);
            (pj !in disk.entries || (pj in disk.mains && disk.mains[pj].None?)) ==>
              LoadAsDirectory(path, disk, join) == Ok(LoadIndex(path, disk, join))
    ensures var pj := join(path, PackageJsonName);
            LoadAsDirectory(path, disk, join).Err? <==> pj in disk.entries && pj !in disk.mains
  {
  }

  /** Every file the directory probes find is a regular file. */
  lemma DirectoryFindsFiles(path: string, disk: Disk, join: (string, string) -> string)
    requires LoadAsDirectory(path, disk, join).Ok? && LoadAsDirectory(path, disk, join).value.Some?
    ensures var r := LoadAsDirectory(path, disk, join).value.value; r.kind == File && r.name in disk.files
  {
    var pj := join(path, PackageJsonName);
    if pj in disk.entries && pj in disk.mains && disk.mains[pj].Some? {
      DirectoryWithMain(path, disk.mains[pj].value, disk, join);
    }
  }

  /** What `requireNodeModule` answers, by kind: a core module is the name
      after `node:` or a listed name; a file is a regular file reached from a
      `/` or relative path; a module is a bare name in scope. Only reading a
      `package.json` throws, and only for a path. */
  lemma RequireNodeModuleKinds(moduleName: string, importer: string, modulesInScope: seq<string>, disk: Disk,
                               join: (string, string) -> string, dirname: string -> string)
    ensures var r := RequireNodeModule(moduleName, importer, modulesInScope, disk, join, dirname);
            r.Ok? && r.value.Some? ==>
              && (r.value.value.kind == CoreModule ==>
                    (StartsWith(moduleName, "node:") && r.value.value.name == moduleName[5..]) ||
                    (r.value.value.name == moduleName && moduleName in NpmCoreModule.CoreModuleNames))
              && (r.value.value.kind == File ==>
                    r.value.value.name in disk.files && (StartsWith(moduleName, "/") || IsRelative(moduleName)))
              && (r.value.value.kind == Module ==>
                    r.value.value.name == moduleName && moduleName in modulesInScope)
    ensures var r := RequireNodeModule(moduleName, importer, modulesInScope, disk, join, dirname);
            r.Err? ==> StartsWith(moduleName, "/") || IsRelative(moduleName)
  {
    var r := RequireNodeModule(moduleName, importer, modulesInScope, disk, join, dirname);
    if !StartsWith(moduleName, "node:") && moduleName !in NpmCoreModule.CoreModuleNames {
      var p := if StartsWith(moduleName, "/") then moduleName else join(dirname(importer), moduleName);
      if (StartsWith(moduleName, "/") || IsRelative(moduleName)) && LoadAsFile(p, disk).None? &&
         r.Ok? && r.value.Some? {
        DirectoryFindsFiles(p, disk, join);
      }
    }
  }

  /** A bare name that is neither a `node:` URL nor a core module, nor a
      path, resolves exactly when it is in scope: the disk is never read. */
  lemma BareNameInScope(moduleName: string, importer: string, modulesInScope: seq<string>, disk: Disk,
                        join: (string, string) -> string, dirname: string -> string)
    requires |moduleName| > 0 && moduleName[0] != '/' && moduleName[0] != '.' && moduleName[0] != 'n'
    ensures RequireNodeModule(moduleName, importer, modulesInScope, disk, join, dirname) ==
            if moduleName in NpmCoreModule.CoreModuleNames then Ok(Some(ModuleResolveResult(moduleName, CoreModule)))
            else if moduleName in modulesInScope then Ok(Some(ModuleResolveResult(moduleName, Module)))
            else Ok(None)
  {
    assert !StartsWith(moduleName, "node:");
    assert !StartsWith(moduleName, "/");
    assert !IsRelative(moduleName);
  }

  /** A `/` path and a relative path are probed the same way: a relative
      one from the importer's directory. */
  lemma PathsProbed(moduleName: string, importer: string, modulesInScope: seq<string>, disk: Disk,
                    join: (string, string) -> string, dirname: string -> string)
    requires StartsWith(moduleName, "/") || IsRelative(moduleName)
    ensures RequireNodeModule(moduleName, importer, modulesInScope, disk, join, dirname) ==
            FileOrDirectory(if StartsWith(moduleName, "/") then moduleName else join(dirname(importer), moduleName), disk, join)
  {
    assert moduleName[0] == '/' || moduleName[0] == '.';
    NpmCoreModule.NotCoreName(moduleName);
    if StartsWith(moduleName, "/") {
      StartsWithDiffer(moduleName, "/", "node:");
    } else {
      var p := if StartsWith(moduleName, "./") then "./" else "../";
      assert StartsWith(moduleName, p);
      StartsWithDiffer(moduleName, p, "node:");
      StartsWithDiffer(moduleName, p, "/");
    }
  }
}
