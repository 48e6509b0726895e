/** The parts of a parsed `package.json` the resolvers read.
    JSON values that can appear under `exports` are kept with their shape,
    except that an array holds strings only; a `main` that is not a string is recorded as absent, because every
    reader tests `typeof main === 'string'` first. */
module PackageManifest {
  import opened Wrappers
  import opened Records

  /** A JSON value under `exports`. `Scalar` stands for a number or a boolean. */
  datatype ExportVal =
    | Null
    | Scalar
    | Str(text: string)
    | Arr(items: seq<string>)
    | Cond(entries: Record<ExportVal>)

  /** `exports == None` is a missing `exports` field. */
  datatype PackageJson = PackageJson(name: Option<string>, main: Option<string>, exports: Option<ExportVal>)

  /** `undefined` or `null`, the two values `??` skips. */
  predicate Nullish(v: Option<ExportVal>) {
    v.None? || v.value.Null?
  }
}
