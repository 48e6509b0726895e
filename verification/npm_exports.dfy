/** Flattening a `package.json` `main`/`exports` into a table from subpath
    (`.`, `./foo`, `./dir/`) to target file, and looking a subpath up in it:
    the subset of the Node.js package `exports` rules the resolvers use
    (no `*` patterns, no nested conditions, the first array alternative). */
module NpmExports {
  import opened Wrappers
  import opened Strs
  import opened Records
  import opened PackageManifest

  const MixedKeysError := "Condition and path are mixed in the keys of package.json exports"
  /** `Object.keys(null)` throws a TypeError. */
  const NullExportsError := "Cannot convert undefined or null to object"

  /** The condition names in the order a `??` chain reads them. */
  const ImportFirst: seq<string> := ["import", "require", "default"]
  const RequireFirst: seq<string> := ["require", "import", "default"]

  /** `key === '.' || key.startsWith('./')` */
  predicate IsPathKey(k: string) {
    k == "." || StartsWith(k, "./")
  }

  /** `v[c0] ?? v[c1] ?? …`: the value of the first listed condition that is
      neither missing nor null, None when there is none. */
  function FirstCondition(entries: Record<ExportVal>, order: seq<string>): (r: Option<ExportVal>)
    ensures r.None? <==> forall i :: 0 <= i < |order| ==> Nullish(Get(entries, order[i]))
    ensures r.Some? ==> exists i :: 0 <= i < |order| && Get(entries, order[i]) == r &&
                          !Nullish(r) && forall j :: 0 <= j < i ==> Nullish(Get(entries, order[j]))
    decreases |order|
  {
    if |order| == 0 then None
    else
      var v := Get(entries, order[0]);
      if !Nullish(v) then v
      else
        var r := FirstCondition(entries, order[1..]);
        if r.Some? then
          ghost var i :| 0 <= i < |order[1..]| && Get(entries, order[1..][i]) == r &&
                         !Nullish(r) && forall j :: 0 <= j < i ==> Nullish(Get(entries, order[1..][j]));
          assert forall j :: 0 <= j < i + 1 ==> Nullish(Get(entries, order[j])) by {
            forall j | 0 <= j < i + 1 ensures Nullish(Get(entries, order[j])) {
              if j > 0 { assert order[j] == order[1..][j - 1]; }
            }
          }
          assert order[i + 1] == order[1..][i];
          r
        else
          assert forall i :: 0 <= i < |order| ==> Nullish(Get(entries, order[i])) by {
            forall i | 0 <= i < |order| ensures Nullish(Get(entries, order[i])) {
              if i > 0 { assert order[i] == order[1..][i - 1]; }
            }
          }
          r
  }

  /** What one value of a path-keyed `exports` object puts in the table:
      a string itself, an array its first element, a condition object its
      chosen condition when that is a string; nothing for null, for an empty
      array, or for a number or boolean (whose condition lookups are undefined). */
  function Target(v: ExportVal, order: seq<string>): (r: Option<string>)
    ensures v.Str? ==> r == Some(v.text)
    ensures v.Arr? ==> (r.Some? <==> |v.items| > 0) && (r.Some? ==> r.value == v.items[0])
    ensures v.Cond? ==> (r.Some? <==> FirstCondition(v.entries, order).Some? && FirstCondition(v.entries, order).value.Str?)
    ensures v.Null? || v.Scalar? ==> r.None?
  {
    match v
    case Null => None
    case Scalar => None
    case Str(s) => Some(s)
    case Arr(xs) => if |xs| > 0 then Some(xs[0]) else None
    case Cond(c) =>
      match FirstCondition(c, order)
      case Some(Str(s)) => Some(s)
      case _ => None
  }

  /** The table after the `for…in` loop has visited `entries` in order,
      starting from `acc`. */
  function PathMap(acc: Record<string>, entries: Record<ExportVal>, order: seq<string>): Record<string>
    decreases |entries|
  {
    if |entries| == 0 then acc
    else
      Visit(PathMap(acc, entries[..|entries| - 1], order), entries[|entries| - 1], order)
  }

  /** One turn of the loop: the entry's contribution, if any, is written under its key. */
  function Visit(exports: Record<string>, entry: (string, ExportVal), order: seq<string>): Record<string> {
    match Target(entry.1, order)
    case Some(s) => Put(exports, entry.0, s)
    case None => exports
  }

  /** What a key reads after a visit: the new contribution, or what it read before. */
  function Overwrite(contribution: Option<string>, before: Option<string>): Option<string> {
    if contribution.Some? then contribution else before
  }

  lemma VisitGet(exports: Record<string>, entry: (string, ExportVal), order: seq<string>, k: string)
    ensures Get(Visit(exports, entry, order), k) ==
            if k == entry.0 then Overwrite(Target(entry.1, order), Get(exports, k)) else Get(exports, k)
  {
    if Target(entry.1, order).Some? {
      PutGet(exports, entry.0, Target(entry.1, order).value, k);
    }
  }

  /** The `main` entry the table starts from. */
  function Seed(pj: PackageJson, useMain: bool): Record<string> {
    if useMain && pj.main.Some? then [(".", pj.main.value)] else []
  }

  /** The table `getPackageJSONExports` builds, or the error it throws:
      `order` is the condition preference. */
  function ExportsTable(pj: PackageJson, useMain: bool, order: seq<string>): Result<Record<string>> {
    var seed := Seed(pj, useMain);
    match pj.exports
    case None => Ok(seed)
    case Some(Str(s)) => Ok(Put(seed, ".", s))
    case Some(Null) => Err(NullExportsError)
    // `Object.keys` of a number or boolean is empty; of an array it is its
    // indices, so a non-empty array is read as conditions and has none.
    case Some(Scalar) => Ok(seed)
    case Some(Arr(_)) => Ok(seed)
    case Some(Cond(raw)) => ObjectTable(seed, raw, order)
  }

  /** `Object.keys(rawExports).map(key => key === '.' || key.startsWith('./')).every(v => v)` */
  predicate AllPathKeys(raw: Record<ExportVal>) {
    forall i :: 0 <= i < |raw| ==> IsPathKey(raw[i].0)
  }

  /** `….every(v => !v)` */
  predicate NoPathKeys(raw: Record<ExportVal>) {
    forall i :: 0 <= i < |raw| ==> !IsPathKey(raw[i].0)
  }

  /** An `exports` object: path keys are flattened, condition keys set `.`. */
  function ObjectTable(seed: Record<string>, raw: Record<ExportVal>, order: seq<string>): Result<Record<string>> {
    if AllPathKeys(raw) then Ok(PathMap(seed, raw, order))
    else if NoPathKeys(raw) then
      match FirstCondition(raw, order)
      case Some(Str(s)) => Ok(Put(seed, ".", s))
      case _ => Ok(seed)
    else Err(MixedKeysError)
  }

  /** The path-keyed loop: each entry is read once, in key order, and the
      table it writes to is updated in place. */
  method FillPathMap(seed: Record<string>, raw: Record<ExportVal>, order: seq<string>)
    returns (exports: Record<string>)
    ensures exports == PathMap(seed, raw, order)
  {
    exports := seed;
    var i := 0;
    while i < |raw|
      invariant 0 <= i <= |raw|
      invariant exports == PathMap(seed, raw[..i], order)
    {
      assert raw[..i + 1][..i] == raw[..i];
      var (key, value) := raw[i];
      match value {
        case Null =>
        case Str(s) =>
          exports := Put(exports, key, s);
        case Arr(xs) =>
          if |xs| > 0 {
            exports := Put(exports, key, xs[0]);
          }
        case Scalar =>
        case Cond(c) =>
          var chosen := FirstCondition(c, order);
          if chosen.Some? && chosen.value.Str? {
            exports := Put(exports, key, chosen.value.text);
          }
      }
      i := i + 1;
    }
    assert raw[..|raw|] == raw;
  }

  /** The object branch of `getPackageJSONExports`: the key kinds decide
      between the path loop, the top-level conditions and the error. */
  method ObjectExports(seed: Record<string>, raw: Record<ExportVal>, order: seq<string>)
    returns (r: Result<Record<string>>)
    ensures r == ObjectTable(seed, raw, order)
  {
    var exports := seed;
    if AllPathKeys(raw) {
      exports := FillPathMap(exports, raw, order);
    } else if NoPathKeys(raw) {
      var chosen := FirstCondition(raw, order);
      if chosen.Some? && chosen.value.Str? {
        exports := Put(exports, ".", chosen.value.text);
      }
    } else {
      return Err(MixedKeysError);
    }
    return Ok(exports);
  }

  /** `getPackageJSONExports(packageJSON, useMain, preferImport)` */
  method GetPackageJSONExports(pj: PackageJson, useMain: bool, preferImport: bool)
    returns (r: Result<Record<string>>)
    ensures r == ExportsTable(pj, useMain, if preferImport then ImportFirst else RequireFirst)
  {
    var order := if preferImport then ImportFirst else RequireFirst;
    var exports: Record<string> := [];
    if useMain && pj.main.Some? {
      exports := Put(exports, ".", pj.main.value);
    }
    assert exports == Seed(pj, useMain);
    match pj.exports {
      case None =>
      case Some(Str(s)) =>
        exports := Put(exports, ".", s);
      case Some(Null) =>
        return Err(NullExportsError);
      case Some(Scalar) =>
      case Some(Arr(_)) =>
      case Some(Cond(raw)) =>
        r := ObjectExports(exports, raw, order);
        return;
    }
    return Ok(exports);
  }

  // ---------------------------------------------------------------------------
  // Properties of the table

  /** The loop only writes keys it visits. */
  lemma {:induction false} PathMapKeys(acc: Record<string>, entries: Record<ExportVal>, order: seq<string>, k: string)
    requires k in Keys(PathMap(acc, entries, order))
    ensures k in Keys(acc) || k in Keys(entries)
    decreases |entries|
  {
    if |entries| > 0 {
      var init := entries[..|entries| - 1];
      var prev := PathMap(acc, init, order);
      var last := entries[|entries| - 1];
      assert Keys(init) == Keys(entries)[..|entries| - 1];
      if k in Keys(prev) {
        PathMapKeys(acc, init, order, k);
      } else {
        assert k == last.0;
        assert Keys(entries)[|entries| - 1] == k;
      }
    }
  }

  /** A key the loop never visits keeps the value it had before. */
  lemma {:induction false} PathMapOther(acc: Record<string>, entries: Record<ExportVal>, order: seq<string>, k: string)
    requires k !in Keys(entries)
    ensures Get(PathMap(acc, entries, order), k) == Get(acc, k)
    decreases |entries|
  {
    if |entries| > 0 {
      var init := entries[..|entries| - 1];
      var last := entries[|entries| - 1];
      assert Keys(entries) == Keys(init) + [last.0];
      PathMapOther(acc, init, order, k);
      VisitGet(PathMap(acc, init, order), last, order, k);
    }
  }

  /** In an `exports` object without repeated keys, each key ends up with
      what its own value contributes, or keeps what it had before when its
      value contributes nothing. */
  lemma {:induction false} PathMapAt(acc: Record<string>, entries: Record<ExportVal>, order: seq<string>, i: nat)
    requires DistinctKeys(entries)
    requires i < |entries|
    ensures Get(PathMap(acc, entries, order), entries[i].0) ==
            Overwrite(Target(entries[i].1, order), Get(acc, entries[i].0))
    decreases |entries|
  {
    var n := |entries|;
    var init := entries[..n - 1];
    var last := entries[n - 1];
    var k := entries[i].0;
    assert PathMap(acc, entries, order) == Visit(PathMap(acc, init, order), last, order);
    VisitGet(PathMap(acc, init, order), last, order, k);
    if i == n - 1 {
      assert k !in Keys(init) by {
        forall j | 0 <= j < |init| ensures Keys(init)[j] != k {
          assert init[j] == entries[j];
        }
      }
      PathMapOther(acc, init, order, k);
    } else {
      assert init[i] == entries[i];
      assert DistinctKeys(init) by {
        forall a, b | 0 <= a < b < |init| ensures init[a].0 != init[b].0 {
          assert init[a] == entries[a] && init[b] == entries[b];
        }
      }
      assert last.0 != k;
      PathMapAt(acc, init, order, i);
    }
  }

  /** Every key of the table is `.` or a key of the `exports` object. */
  lemma TableKeys(pj: PackageJson, useMain: bool, order: seq<string>, k: string)
    requires ExportsTable(pj, useMain, order).Ok?
    requires k in Keys(ExportsTable(pj, useMain, order).value)
    ensures k == "." || (pj.exports.Some? && pj.exports.value.Cond? && k in Keys(pj.exports.value.entries))
  {
    var seed := Seed(pj, useMain);
    assert Keys(seed) == if seed == [] then [] else ["."];
    match pj.exports
    case Some(Cond(raw)) =>
      if AllPathKeys(raw) {
        PathMapKeys(seed, raw, order, k);
      }
    case _ =>
  }

  /** In a path map, a key whose value contributes a file is mapped to it,
      overwriting `main` when the key is `.`; a key whose value contributes
      nothing keeps what `main` gave it. */
  lemma TablePathEntry(pj: PackageJson, useMain: bool, order: seq<string>, i: nat)
    requires pj.exports.Some? && pj.exports.value.Cond?
    requires var raw := pj.exports.value.entries;
      DistinctKeys(raw) && i < |raw| && AllPathKeys(raw)
    ensures var raw := pj.exports.value.entries;
      var r := ExportsTable(pj, useMain, order);
      r.Ok? && Get(r.value, raw[i].0) ==
        Overwrite(Target(raw[i].1, order), if raw[i].0 == "." && useMain then pj.main else None)
  {
    var raw := pj.exports.value.entries;
    var seed := Seed(pj, useMain);
    assert ExportsTable(pj, useMain, order) == Ok(PathMap(seed, raw, order));
    PathMapAt(seed, raw, order, i);
    assert Get(seed, raw[i].0) == if raw[i].0 == "." && useMain then pj.main else None;
  }

  /** A string `exports`, or a condition object whose chosen condition is a
      string, sets `.` whatever `main` says. */
  lemma StringExportsWins(pj: PackageJson, useMain: bool, order: seq<string>, s: string)
    requires pj.exports == Some(Str(s)) ||
             (pj.exports.Some? && pj.exports.value.Cond? && |pj.exports.value.entries| > 0 &&
              NoPathKeys(pj.exports.value.entries) &&
              FirstCondition(pj.exports.value.entries, order) == Some(Str(s)))
    ensures ExportsTable(pj, useMain, order) == Ok(Put(Seed(pj, useMain), ".", s))
    ensures Get(ExportsTable(pj, useMain, order).value, ".") == Some(s)
  {
    if pj.exports.value.Cond? {
      var raw := pj.exports.value.entries;
      assert !IsPathKey(raw[0].0);
      assert !AllPathKeys(raw);
      assert ObjectTable(Seed(pj, useMain), raw, order) == Ok(Put(Seed(pj, useMain), ".", s));
    }
    PutGet(Seed(pj, useMain), ".", s, ".");
  }

  /** With no `exports`, or an empty `exports` object, the table is `main` alone. */
  lemma MainOnly(pj: PackageJson, order: seq<string>)
    requires pj.main.Some?
    requires pj.exports.None? || pj.exports == Some(Cond([]))
    ensures ExportsTable(pj, true, order) == Ok([(".", pj.main.value)])
    ensures ExportsTable(pj, false, order) == Ok([])
  {
  }

  /** The table is refused exactly when `exports` is null or mixes path keys
      with condition keys. */
  lemma TableError(pj: PackageJson, useMain: bool, order: seq<string>)
    ensures ExportsTable(pj, useMain, order).Err? <==>
      pj.exports == Some(Null) ||
      (pj.exports.Some? && pj.exports.value.Cond? &&
       (exists i :: 0 <= i < |pj.exports.value.entries| && IsPathKey(pj.exports.value.entries[i].0)) &&
       (exists j :: 0 <= j < |pj.exports.value.entries| && !IsPathKey(pj.exports.value.entries[j].0)))
  {
  }

  /** With both `import` and `require` set, the preference decides. */
  lemma PreferenceDecides(c: Record<ExportVal>, imp: string, req: string)
    requires Get(c, "import") == Some(Str(imp))
    requires Get(c, "require") == Some(Str(req))
    ensures Target(Cond(c), ImportFirst) == Some(imp)
    ensures Target(Cond(c), RequireFirst) == Some(req)
  {
    assert ImportFirst[0] == "import" && RequireFirst[0] == "require";
    assert FirstCondition(c, ImportFirst) == Some(Str(imp));
    assert FirstCondition(c, RequireFirst) == Some(Str(req));
  }

  // ---------------------------------------------------------------------------
  // Lookup

  /** Whether table key `key` serves `specifier`: keys holding `*` never do,
      a `/`-terminated key is a prefix, any other key must be equal. */
  predicate Matches(key: string, specifier: string) {
    '*' !in key && (if EndsWith(key, "/") then StartsWith(specifier, key) else specifier == key)
  }

  /** What a matching key yields: its value, plus the rest of the specifier
      after a prefix key. */
  function Answer(entry: (string, string), specifier: string): string
    requires Matches(entry.0, specifier)
  {
    if EndsWith(entry.0, "/") then entry.1 + specifier[|entry.0|..] else entry.1
  }

  /** The `for…in` search: the first key in order that matches, not the longest. */
  function FirstMatch(exports: Record<string>, specifier: string): (r: Option<string>)
    ensures r.None? <==> forall i :: 0 <= i < |exports| ==> !Matches(exports[i].0, specifier)
    ensures r.Some? ==> exists i :: 0 <= i < |exports| && Matches(exports[i].0, specifier) &&
                          r.value == Answer(exports[i], specifier) &&
                          forall j :: 0 <= j < i ==> !Matches(exports[j].0, specifier)
    decreases |exports|
  {
    if |exports| == 0 then None
    else if Matches(exports[0].0, specifier) then Some(Answer(exports[0], specifier))
    else
      var r := FirstMatch(exports[1..], specifier);
      if r.Some? then
        ghost var i :| 0 <= i < |exports[1..]| && Matches(exports[1..][i].0, specifier) &&
                       r.value == Answer(exports[1..][i], specifier) &&
                       forall j :: 0 <= j < i ==> !Matches(exports[1..][j].0, specifier);
        assert exports[i + 1] == exports[1..][i];
        assert forall j :: 0 <= j < i + 1 ==> !Matches(exports[j].0, specifier) by {
          forall j | 0 <= j < i + 1 ensures !Matches(exports[j].0, specifier) {
            if j > 0 { assert exports[j] == exports[1..][j - 1]; }
          }
        }
        r
      else
        assert forall i :: 0 <= i < |exports| ==> !Matches(exports[i].0, specifier) by {
          forall i | 0 <= i < |exports| ensures !Matches(exports[i].0, specifier) {
            if i > 0 { assert exports[i] == exports[1..][i - 1]; }
          }
        }
        r
  }

  /** `resolvePackageJSONExports(specifier, exports)`: `''`, `'.'` and `'./'`
      read the `.` entry; anything else is the first match. None stands for
      both `null` and `undefined`. */
  function ResolvePackageJSONExports(specifier: string, exports: Record<string>): (r: Option<string>)
    ensures specifier in {"", ".", "./"} ==> r == Get(exports, ".")
    ensures specifier !in {"", ".", "./"} ==> r == FirstMatch(exports, specifier)
  {
    if specifier == "" || specifier == "." || specifier == "./" then Get(exports, ".")
    else FirstMatch(exports, specifier)
  }

  /** The entries whose key has no `*`. */
  function WithoutPatterns(exports: Record<string>): (r: Record<string>)
    ensures forall i :: 0 <= i < |r| ==> '*' !in r[i].0
    decreases |exports|
  {
    if |exports| == 0 then []
    else if '*' in exports[0].0 then WithoutPatterns(exports[1..])
    else [exports[0]] + WithoutPatterns(exports[1..])
  }

  /** Keys holding `*` are never used: dropping them changes no answer. */
  lemma {:induction false} PatternKeysIgnored(exports: Record<string>, specifier: string)
    ensures FirstMatch(WithoutPatterns(exports), specifier) == FirstMatch(exports, specifier)
    decreases |exports|
  {
    if |exports| > 0 {
      PatternKeysIgnored(exports[1..], specifier);
      if '*' !in exports[0].0 {
        var w := [exports[0]] + WithoutPatterns(exports[1..]);
        assert w[1..] == WithoutPatterns(exports[1..]);
      }
    }
  }

  /** An exact key's answer is its value; a prefix key's answer starts with
      its value and ends with the rest of the specifier. */
  lemma AnswerShape(entry: (string, string), specifier: string)
    requires Matches(entry.0, specifier)
    ensures EndsWith(entry.0, "/") ==>
      StartsWith(Answer(entry, specifier), entry.1) && specifier == entry.0 + specifier[|entry.0|..]
    ensures !EndsWith(entry.0, "/") ==> Answer(entry, specifier) == entry.1 && specifier == entry.0
  {
    if EndsWith(entry.0, "/") {
      var a := Answer(entry, specifier);
      assert a[..|entry.1|] == entry.1;
      assert specifier == specifier[..|entry.0|] + specifier[|entry.0|..];
    }
  }
}
