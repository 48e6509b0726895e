/** The parts of Deno's lock file (`deno.lock`) the resolvers read. Every
    field of the JSON document may be missing, which `None` stands for.
    Version 3 keeps npm packages under `packages`, remote files under
    `remote` and HTTP redirects under `redirects`; version 2 keeps npm
    packages under `npm`. */
module LockMaps {
  import opened Wrappers
  import opened Records

  /** `packages.npm[fullName]` (version 3) or `npm.packages[fullName]` (version 2). */
  datatype NpmPackage = NpmPackage(dependencies: Option<Record<string>>)

  datatype Packages = Packages(specifiers: Option<Record<string>>, npm: Option<Record<NpmPackage>>)

  datatype LockMapV3 = LockMapV3(
    packages: Option<Packages>,
    remote: Option<Record<string>>,
    redirects: Option<Record<string>>)

  datatype NpmSection = NpmSection(specifiers: Option<Record<string>>, packages: Option<Record<NpmPackage>>)

  datatype LockMapV2 = LockMapV2(npm: Option<NpmSection>)

  /** A value read through an optional chain that JavaScript treats as true:
      a missing value and the empty string are both false. */
  function Truthy(v: Option<string>): (r: Option<string>)
    ensures r.Some? <==> v.Some? && v.value != ""
    ensures r.Some? ==> r == v
  {
    if v.Some? && v.value != "" then v else None
  }

  /** `lockMap.packages?.specifiers?.[specifier]` */
  function SpecifierEntry(lockMap: LockMapV3, specifier: string): Option<string> {
    match lockMap.packages
    case None => None
    case Some(p) =>
      match p.specifiers
      case None => None
      case Some(s) => Get(s, specifier)
  }

  /** The dependency table of one package, if the lock file records one. */
  function Dependencies(packages: Option<Record<NpmPackage>>, fullName: string): Option<Record<string>> {
    match packages
    case None => None
    case Some(ps) =>
      match Get(ps, fullName)
      case None => None
      case Some(pkg) => pkg.dependencies
  }

  /** `lockMap.packages?.npm?.[importerFullName]?.dependencies?.[fullName]` */
  function DependencyEntry(lockMap: LockMapV3, importerFullName: string, fullName: string): Option<string> {
    var deps := Dependencies(if lockMap.packages.Some? then lockMap.packages.value.npm else None, importerFullName);
    match deps
    case None => None
    case Some(d) => Get(d, fullName)
  }

  /** A missing record reads as `{}`. */
  function OrEmpty(r: Option<Record<string>>): Record<string> {
    r.GetOr([])
  }
}
