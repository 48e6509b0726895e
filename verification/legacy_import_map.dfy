/** src/importMap.ts and its twin src/importmap.ts: the earlier, simpler
    import-map resolver that src/http.ts and src/npm.ts use. The two files
    are the same code except for the word in one error message
    ("importMap" and "importmap"), which is the `mapName` parameter here.

    Values become URLs: an absolute URL as it is, `/x` as `file:///x`,
    `./` and `../` against the document root, anything else throws. Keys
    that look like paths are rewritten to hrefs against the document root.
    Scopes are ordered by their number of non-empty path segments, most
    first, and the first scope that applies to the importer's directory
    answers, even with null. */
module LegacyImportMaps {
  import opened Wrappers
  import opened Strs
  import opened Records
  import opened Urls
  import opened Sorting
  import CacheFiles
  import ImportMapResolvers

  /** A scope: its key, whether the key is a full URL, the non-empty
      segments of its path, and its own map. */
  datatype Scope = Scope(path: string, isFullUrl: bool, pathSegments: seq<string>, imports: Record<Url>)

  /** The two spellings of the map's name in the error message. */
  const ImportMapLabel := "importMap"
  const ImportmapLabel := "importmap"

  function ValueError(value: string, mapName: string): string {
    value + " is not valid for " + mapName + " value."
  }

  /** `./`, `../` or `/` at the start. */
  predicate IsPathLike(s: string) {
    StartsWith(s, "./") || StartsWith(s, "../") || StartsWith(s, "/")
  }

  /** `getImportMapValueUrl(value, docRoot)` */
  function GetImportMapValueUrl(value: string, docRoot: Url, mapName: string): Result<Url> {
    match Parse(value)
    case Some(u) => Ok(u)
    case None =>
      if StartsWith(value, "/") then Need(Parse("file://" + value), CacheFiles.InvalidURLError)
      else if StartsWith(value, "./") || StartsWith(value, "../") then
        Need(Resolve(value, docRoot), CacheFiles.InvalidURLError)
      else Err(ValueError(value, mapName))
  }

  /** A path-like string becomes its href against `docRoot`; anything else
      is kept as written. `importMapMapToUrl` does this to keys and
      `resolve` to the path it is asked for. */
  function NormalizePath(key: string, docRoot: Url): Result<string> {
    if IsPathLike(key) then
      var u :- Need(Resolve(key, docRoot), CacheFiles.InvalidURLError);
      Ok(Href(u))
    else Ok(key)
  }

  /** One entry of `importMapMapToUrl`: the key is normalised, then the
      value converted. */
  function ConvertEntry(entry: (string, string), docRoot: Url, mapName: string): Result<(string, Url)> {
    var key :- NormalizePath(entry.0, docRoot);
    var url :- GetImportMapValueUrl(entry.1, docRoot, mapName);
    Ok((key, url))
  }

  /** Assigns the converted entries one after another, in key order; the
      first entry that does not convert throws. */
  function PutAll(entries: Record<string>, convert: ((string, string)) -> Result<(string, Url)>): Result<Record<Url>>
    decreases |entries|
  {
    if |entries| == 0 then Ok([])
    else
      var n := |entries| - 1;
      var acc :- PutAll(entries[..n], convert);
      var e :- convert(entries[n]);
      Ok(Put(acc, e.0, e.1))
  }

  /** `importMapMapToUrl(map, docRoot)`, as a value. */
  function MapToUrl(entries: Record<string>, docRoot: Url, mapName: string): Result<Record<Url>> {
    PutAll(entries, e => ConvertEntry(e, docRoot, mapName))
  }

  /** Once a prefix of the entries throws, the whole map throws the same error. */
  lemma {:induction false} PutAllErrSticks(entries: Record<string>, convert: ((string, string)) -> Result<(string, Url)>, i: nat)
    requires i <= |entries|
    requires PutAll(entries[..i], convert).Err?
    ensures PutAll(entries, convert) == PutAll(entries[..i], convert)
    decreases |entries| - i
  {
    if i == |entries| {
      assert entries[..i] == entries;
    } else {
      var n := |entries| - 1;
      var prefix := entries[..n];
      assert prefix[..i] == entries[..i];
      PutAllErrSticks(prefix, convert, i);
    }
  }

  /** One more entry: the map so far, then that entry's assignment. */
  lemma PutAllSnoc(entries: Record<string>, convert: ((string, string)) -> Result<(string, Url)>, i: nat)
    requires i < |entries|
    ensures PutAll(entries[..i + 1], convert) ==
            match PutAll(entries[..i], convert)
            case Err(m) => Err(m)
            case Ok(acc) =>
              (match convert(entries[i])
               case Err(m) => Err(m)
               case Ok(e) => Ok(Put(acc, e.0, e.1)))
  {
    assert entries[..i + 1][..i] == entries[..i];
  }

  /** One step of `importMapMapToUrl`: the next entry either extends the
      map or throws for the whole map. */
  lemma MapToUrlStep(entries: Record<string>, docRoot: Url, mapName: string, i: nat, urlMap: Record<Url>)
    requires i < |entries| && MapToUrl(entries[..i], docRoot, mapName) == Ok(urlMap)
    ensures ConvertEntry(entries[i], docRoot, mapName).Ok? ==>
              MapToUrl(entries[..i + 1], docRoot, mapName) ==
              Ok(Put(urlMap, ConvertEntry(entries[i], docRoot, mapName).value.0, ConvertEntry(entries[i], docRoot, mapName).value.1))
    ensures ConvertEntry(entries[i], docRoot, mapName).Err? ==>
              MapToUrl(entries, docRoot, mapName) == Err(ConvertEntry(entries[i], docRoot, mapName).message)
  {
    var convert := e => ConvertEntry(e, docRoot, mapName);
    PutAllSnoc(entries, convert, i);
    if ConvertEntry(entries[i], docRoot, mapName).Err? {
      PutAllErrSticks(entries, convert, i + 1);
    }
  }

  /** `importMapMapToUrl(map, docRoot)` */
  method ImportMapMapToUrl(entries: Record<string>, docRoot: Url, mapName: string) returns (r: Result<Record<Url>>)
    ensures r == MapToUrl(entries, docRoot, mapName)
  {
    var urlMap: Record<Url> := [];
    var i := 0;
    while i < |entries|
      invariant 0 <= i <= |entries|
      invariant MapToUrl(entries[..i], docRoot, mapName) == Ok(urlMap)
    {
      MapToUrlStep(entries, docRoot, mapName, i, urlMap);
      var key := entries[i].0;
      var newKey := key;
      if IsPathLike(key) {
        var u := Resolve(key, docRoot);
        if u.None? {
          return Err(CacheFiles.InvalidURLError);
        }
        newKey := Href(u.value);
      }
      var url := GetImportMapValueUrl(entries[i].1, docRoot, mapName);
      if url.Err? {
        return Err(url.message);
      }
      urlMap := Put(urlMap, newKey, url.value);
      i := i + 1;
    }
    assert entries[..i] == entries;
    return Ok(urlMap);
  }

  /** Entry `i` converts to key `k`. */
  ghost predicate KeyAt(entries: Record<string>, convert: ((string, string)) -> Result<(string, Url)>, i: int, k: string)
    requires 0 <= i < |entries|
  {
    convert(entries[i]).Ok? && convert(entries[i]).value.0 == k
  }

  /** A map built without error is the map of all but the last entry, with
      the last entry's assignment applied. */
  lemma PutAllLastEntry(entries: Record<string>, convert: ((string, string)) -> Result<(string, Url)>)
    requires |entries| > 0 && PutAll(entries, convert).Ok?
    ensures PutAll(entries[..|entries| - 1], convert).Ok? && convert(entries[|entries| - 1]).Ok?
    ensures PutAll(entries, convert).value ==
            Put(PutAll(entries[..|entries| - 1], convert).value, convert(entries[|entries| - 1]).value.0, convert(entries[|entries| - 1]).value.1)
  {
  }

  /** A key present after the assignments was assigned by some entry. */
  lemma {:induction false} PutAllFrom(entries: Record<string>, convert: ((string, string)) -> Result<(string, Url)>, k: string)
    requires PutAll(entries, convert).Ok? && Get(PutAll(entries, convert).value, k).Some?
    ensures exists i :: 0 <= i < |entries| && KeyAt(entries, convert, i, k)
    decreases |entries|
  {
    var n := |entries| - 1;
    var prefix := entries[..n];
    PutAllLastEntry(entries, convert);
    var e := convert(entries[n]).value;
    PutGet(PutAll(prefix, convert).value, e.0, e.1, k);
    if k == e.0 {
      assert KeyAt(entries, convert, n, k);
    } else {
      PutAllFrom(prefix, convert, k);
      var i :| 0 <= i < n && KeyAt(prefix, convert, i, k);
      KeyAtPrefix(entries, convert, i, k);
    }
  }

  /** A key some entry assigns is present after the assignments. */
  lemma {:induction false} PutAllTo(entries: Record<string>, convert: ((string, string)) -> Result<(string, Url)>, i: int, k: string)
    requires PutAll(entries, convert).Ok? && 0 <= i < |entries| && KeyAt(entries, convert, i, k)
    ensures Get(PutAll(entries, convert).value, k).Some?
    decreases |entries|
  {
    var n := |entries| - 1;
    var prefix := entries[..n];
    PutAllLastEntry(entries, convert);
    var e := convert(entries[n]).value;
    PutGet(PutAll(prefix, convert).value, e.0, e.1, k);
    if i < n && k != e.0 {
      KeyAtPrefix(entries, convert, i, k);
      PutAllTo(prefix, convert, i, k);
    }
  }

  /** After the assignments, when none throws, a key is present exactly
      when some entry converts to it. */
  lemma PutAllHas(entries: Record<string>, convert: ((string, string)) -> Result<(string, Url)>, k: string)
    requires PutAll(entries, convert).Ok?
    ensures Get(PutAll(entries, convert).value, k).Some? <==> exists i :: 0 <= i < |entries| && KeyAt(entries, convert, i, k)
  {
    if Get(PutAll(entries, convert).value, k).Some? {
      PutAllFrom(entries, convert, k);
    }
    if exists i :: 0 <= i < |entries| && KeyAt(entries, convert, i, k) {
      var i :| 0 <= i < |entries| && KeyAt(entries, convert, i, k);
      PutAllTo(entries, convert, i, k);
    }
  }

  /** Dropping the last entry changes no earlier entry's key. */
  lemma KeyAtPrefix(entries: Record<string>, convert: ((string, string)) -> Result<(string, Url)>, j: int, k: string)
    requires 0 <= j < |entries| - 1
    ensures KeyAt(entries[..|entries| - 1], convert, j, k) == KeyAt(entries, convert, j, k)
  {
    assert entries[..|entries| - 1][j] == entries[j];
  }

  /** No entry after the `i`th converts to key `k`. */
  ghost predicate LastKeyAt(entries: Record<string>, convert: ((string, string)) -> Result<(string, Url)>, i: int, k: string)
    requires 0 <= i < |entries|
  {
    forall j :: i < j < |entries| ==> !KeyAt(entries, convert, j, k)
  }

  /** An entry that stays last for its key when the next entry assigns another key. */
  lemma LastKeyAtExtend(entries: Record<string>, convert: ((string, string)) -> Result<(string, Url)>, i: int, k: string)
    requires 0 <= i < |entries| - 1
    requires LastKeyAt(entries[..|entries| - 1], convert, i, k)
    requires convert(entries[|entries| - 1]).Ok? && convert(entries[|entries| - 1]).value.0 != k
    ensures LastKeyAt(entries, convert, i, k)
  {
    forall j | i < j < |entries| ensures !KeyAt(entries, convert, j, k) {
      if j < |entries| - 1 {
        KeyAtPrefix(entries, convert, j, k);
      }
    }
  }

  /** The value of a present key comes from the last entry that converts to it. */
  lemma {:induction false} PutAllLast(entries: Record<string>, convert: ((string, string)) -> Result<(string, Url)>, k: string)
    requires PutAll(entries, convert).Ok?
    requires Get(PutAll(entries, convert).value, k).Some?
    ensures exists i :: 0 <= i < |entries| && convert(entries[i]) == Ok((k, Get(PutAll(entries, convert).value, k).value)) &&
                        LastKeyAt(entries, convert, i, k)
    decreases |entries|
  {
    var n := |entries| - 1;
    var prefix := entries[..n];
    PutAllLastEntry(entries, convert);
    var acc := PutAll(prefix, convert).value;
    var e := convert(entries[n]).value;
    var m := PutAll(entries, convert).value;
    assert m == Put(acc, e.0, e.1);
    var v := Get(m, k).value;
    PutGet(acc, e.0, e.1, k);
    if k == e.0 {
      assert convert(entries[n]) == Ok((k, v));
      assert LastKeyAt(entries, convert, n, k);
    } else {
      assert Get(acc, k) == Some(v);
      PutAllLast(prefix, convert, k);
      var i :| 0 <= i < n && convert(prefix[i]) == Ok((k, v)) && LastKeyAt(prefix, convert, i, k);
      assert prefix[i] == entries[i];
      LastKeyAtExtend(entries, convert, i, k);
    }
  }

  /** Every entry converts. */
  ghost predicate AllConvert(entries: Record<string>, convert: ((string, string)) -> Result<(string, Url)>) {
    forall i :: 0 <= i < |entries| ==> convert(entries[i]).Ok?
  }

  /** All entries convert exactly when all but the last do and the last does. */
  lemma AllConvertLast(entries: Record<string>, convert: ((string, string)) -> Result<(string, Url)>)
    requires |entries| > 0
    ensures AllConvert(entries, convert) <==>
            AllConvert(entries[..|entries| - 1], convert) && convert(entries[|entries| - 1]).Ok?
  {
    var n := |entries| - 1;
    var prefix := entries[..n];
    if AllConvert(prefix, convert) && convert(entries[n]).Ok? {
      forall i | 0 <= i < |entries| ensures convert(entries[i]).Ok? {
        if i < n { assert prefix[i] == entries[i]; }
      }
    }
    if AllConvert(entries, convert) {
      forall i | 0 <= i < n ensures convert(prefix[i]).Ok? {
        assert prefix[i] == entries[i];
      }
    }
  }

  /** Building succeeds exactly when every entry converts. */
  lemma {:induction false} PutAllOk(entries: Record<string>, convert: ((string, string)) -> Result<(string, Url)>)
    ensures PutAll(entries, convert).Ok? <==> AllConvert(entries, convert)
    decreases |entries|
  {
    if |entries| > 0 {
      var n := |entries| - 1;
      PutAllOk(entries[..n], convert);
      AllConvertLast(entries, convert);
      assert PutAll(entries, convert).Ok? <==> PutAll(entries[..n], convert).Ok? && convert(entries[n]).Ok?;
    }
  }

  /** Two conversions that succeed on the same entries with the same results
      build the same map, and fail together. */
  lemma {:induction false} PutAllAgree(entries: Record<string>, c1: ((string, string)) -> Result<(string, Url)>,
                                       c2: ((string, string)) -> Result<(string, Url)>)
    requires forall i :: 0 <= i < |entries| ==> (c1(entries[i]).Ok? <==> c2(entries[i]).Ok?)
    requires forall i :: 0 <= i < |entries| && c1(entries[i]).Ok? ==> c1(entries[i]) == c2(entries[i])
    ensures PutAll(entries, c1).Ok? <==> PutAll(entries, c2).Ok?
    ensures PutAll(entries, c1).Ok? ==> PutAll(entries, c1) == PutAll(entries, c2)
    decreases |entries|
  {
    if |entries| > 0 {
      var n := |entries| - 1;
      var prefix := entries[..n];
      assert forall i :: 0 <= i < n ==> prefix[i] == entries[i];
      PutAllAgree(prefix, c1, c2);
    }
  }

  /** Entry `i` of an import map's entries normalises to key `k`. */
  ghost predicate NormalizesTo(entries: Record<string>, i: int, k: string, docRoot: Url, mapName: string)
    requires 0 <= i < |entries|
  {
    ConvertEntry(entries[i], docRoot, mapName).Ok? && ConvertEntry(entries[i], docRoot, mapName).value.0 == k
  }

  /** `importMapMapToUrl` holds exactly the normalised keys, each with the
      value of the last entry whose key normalises to it, and throws
      exactly when some key or value does not convert. */
  lemma MapToUrlContents(entries: Record<string>, docRoot: Url, mapName: string, k: string)
    ensures MapToUrl(entries, docRoot, mapName).Ok? <==>
            forall i :: 0 <= i < |entries| ==> ConvertEntry(entries[i], docRoot, mapName).Ok?
    ensures var r := MapToUrl(entries, docRoot, mapName);
      r.Ok? ==>
        (Get(r.value, k).Some? <==>
           exists i :: 0 <= i < |entries| && NormalizesTo(entries, i, k, docRoot, mapName))
    ensures var r := MapToUrl(entries, docRoot, mapName);
      r.Ok? && Get(r.value, k).Some? ==>
        exists i :: 0 <= i < |entries| && ConvertEntry(entries[i], docRoot, mapName) == Ok((k, Get(r.value, k).value)) &&
          forall j :: i < j < |entries| ==> !NormalizesTo(entries, j, k, docRoot, mapName)
  {
    var convert := e => ConvertEntry(e, docRoot, mapName);
    PutAllOk(entries, convert);
    forall i | 0 <= i < |entries| ensures KeyAt(entries, convert, i, k) == NormalizesTo(entries, i, k, docRoot, mapName) {
    }
    if MapToUrl(entries, docRoot, mapName).Ok? {
      PutAllHas(entries, convert, k);
      if Get(MapToUrl(entries, docRoot, mapName).value, k).Some? {
        PutAllLast(entries, convert, k);
      }
    }
  }

  /** The two files build the same map; only their error messages differ. */
  lemma MapToUrlTwins(entries: Record<string>, docRoot: Url)
    ensures MapToUrl(entries, docRoot, ImportMapLabel).Ok? <==> MapToUrl(entries, docRoot, ImportmapLabel).Ok?
    ensures MapToUrl(entries, docRoot, ImportMapLabel).Ok? ==>
              MapToUrl(entries, docRoot, ImportMapLabel) == MapToUrl(entries, docRoot, ImportmapLabel)
  {
    PutAllAgree(entries, e => ConvertEntry(e, docRoot, ImportMapLabel), e => ConvertEntry(e, docRoot, ImportmapLabel));
  }

  /** A value written as an absolute path is a `file:` URL with an empty
      host, whatever the document root. */
  lemma AbsoluteValueIsFile(pieces: seq<string>, docRoot: Url, mapName: string)
    requires |pieces| >= 1 && pieces[0] != "" && PlainSegments(pieces)
    ensures GetImportMapValueUrl("/" + Join(pieces, "/"), docRoot, mapName) ==
            Ok(Url("file", Some(""), Hier(pieces), None, None))
  {
    var value := "/" + Join(pieces, "/");
    assert Parse(value).None?;
    assert StartsWith(value, "/");
    ParseFileUrl(pieces);
  }

  /** `file://` followed by an absolute path parses back to that path. */
  lemma ParseFileUrl(pieces: seq<string>)
    requires |pieces| >= 1 && pieces[0] != "" && PlainSegments(pieces)
    ensures Parse("file://" + ("/" + Join(pieces, "/"))) == Some(Url("file", Some(""), Hier(pieces), None, None))
  {
    var u := Url("file", Some(""), Hier(pieces), None, None);
    FileSchemeValid();
    ParseHref(u);
    HrefOfAuthority(u);
    FileHref("/" + Join(pieces, "/"));
  }

  lemma FileSchemeValid()
    ensures ValidScheme("file")
  {
    assert "file"[0] == 'f' && "file"[1] == 'i' && "file"[2] == 'l' && "file"[3] == 'e';
  }

  lemma FileHref(x: string)
    ensures "file" + ":" + ("//" + "" + x) == "file://" + x
  {
    assert "file" + ":" + "//" == "file://";
    assert "//" + "" + x == "//" + x;
    AppendAssoc("file" + ":", "//", x);
  }

  /** A value that is neither a URL nor path-like throws, naming the file's map. */
  lemma InvalidValueThrows(value: string, docRoot: Url, mapName: string)
    requires Parse(value).None? && !IsPathLike(value)
    ensures GetImportMapValueUrl(value, docRoot, mapName) == Err(ValueError(value, mapName))
  {
  }

  // ---------------------------------------------------------------------------
  // Scopes

  /** `.filter((v) => v.length > 0)` */
  function NonEmptyParts(parts: seq<string>): (r: seq<string>)
    ensures forall i :: 0 <= i < |r| ==> |r[i]| > 0
    ensures forall x :: x in r <==> x in parts && x != ""
    decreases |parts|
  {
    if |parts| == 0 then []
    else
      var rest := NonEmptyParts(parts[1..]);
      assert forall x :: x in parts <==> x == parts[0] || x in parts[1..];
      if parts[0] == "" then rest else [parts[0]] + rest
  }

  /** `s.split('/').filter((v) => v.length > 0)` */
  function PathSegments(s: string): seq<string> {
    NonEmptyParts(Split(s, '/'))
  }

  /** A scope whose key is not a full URL: segments of the key itself. */
  function PathScope(path: string, imports: Record<string>, docRoot: Url, mapName: string): Result<Scope> {
    var m :- MapToUrl(imports, docRoot, mapName);
    Ok(Scope(path, false, PathSegments(path), m))
  }

  /** One element of the `.map(...)` in `getImportMapScopes`. A map that
      throws inside the `try` sends control to the `catch`, which builds
      the same map again and throws the same error. */
  function MakeScope(path: string, imports: Record<string>, docRoot: Url, mapName: string): Result<Scope> {
    match Parse(path)
    case Some(u) =>
      (match MapToUrl(imports, docRoot, mapName)
       case Ok(m) => Ok(Scope(path, true, PathSegments(Pathname(u)), m))
       case Err(_) => PathScope(path, imports, docRoot, mapName))
    case None => PathScope(path, imports, docRoot, mapName)
  }

  /** A scope is a full-URL scope exactly when its key parses; its segments
      come from the pathname then, from the key otherwise; and it throws
      exactly when its map does, with the map's error. */
  lemma MakeScopeKinds(path: string, imports: Record<string>, docRoot: Url, mapName: string)
    ensures MakeScope(path, imports, docRoot, mapName).Ok? <==> MapToUrl(imports, docRoot, mapName).Ok?
    ensures MakeScope(path, imports, docRoot, mapName).Err? ==>
              MakeScope(path, imports, docRoot, mapName).message == MapToUrl(imports, docRoot, mapName).message
    ensures var r := MakeScope(path, imports, docRoot, mapName);
      r.Ok? ==>
        && r.value.path == path
        && r.value.imports == MapToUrl(imports, docRoot, mapName).value
        && (r.value.isFullUrl <==> Parse(path).Some?)
        && r.value.pathSegments == (if Parse(path).Some? then PathSegments(Pathname(Parse(path).value)) else PathSegments(path))
  {
  }

  /** `Object.keys(scopes).map(...)`, in key order; the first scope that
      throws ends it. */
  function BuildScopes(scopes: Record<Record<string>>, docRoot: Url, mapName: string): Result<seq<Scope>>
    decreases |scopes|
  {
    if |scopes| == 0 then Ok([])
    else
      var first :- MakeScope(scopes[0].0, scopes[0].1, docRoot, mapName);
      var rest :- BuildScopes(scopes[1..], docRoot, mapName);
      Ok([first] + rest)
  }

  lemma {:induction false} BuildScopesEach(scopes: Record<Record<string>>, docRoot: Url, mapName: string)
    ensures BuildScopes(scopes, docRoot, mapName).Ok? <==>
            forall i :: 0 <= i < |scopes| ==> MakeScope(scopes[i].0, scopes[i].1, docRoot, mapName).Ok?
    ensures var r := BuildScopes(scopes, docRoot, mapName);
      r.Ok? ==> (|r.value| == |scopes| &&
        forall i :: 0 <= i < |scopes| ==> r.value[i] == MakeScope(scopes[i].0, scopes[i].1, docRoot, mapName).value)
    decreases |scopes|
  {
    if |scopes| > 0 {
      BuildScopesEach(scopes[1..], docRoot, mapName);
      assert forall i :: 1 <= i < |scopes| ==> scopes[1..][i - 1] == scopes[i];
    }
  }

  function SegmentCount(scope: Scope): int {
    |scope.pathSegments|
  }

  /** `getImportMapScopes(importMap, docRoot)` */
  function GetImportMapScopes(importMap: ImportMapResolvers.ImportMap, docRoot: Url, mapName: string)
    : Result<seq<Scope>>
  {
    match importMap.scopes
    case None => Ok([])
    case Some(scopes) =>
      var built :- BuildScopes(scopes, docRoot, mapName);
      Ok(SortDesc(built, SegmentCount))
  }

  /** The scopes come out ordered by segment count, most first; they are
      the built scopes rearranged, and scopes with equal counts keep their
      key order. */
  lemma ScopesOrdered(importMap: ImportMapResolvers.ImportMap, docRoot: Url, mapName: string, k: int)
    requires importMap.scopes.Some?
    requires GetImportMapScopes(importMap, docRoot, mapName).Ok?
    ensures var s := GetImportMapScopes(importMap, docRoot, mapName).value;
            var built := BuildScopes(importMap.scopes.value, docRoot, mapName).value;
      && SortedDesc(s, SegmentCount)
      && multiset(s) == multiset(built)
      && WithKey(s, SegmentCount, k) == WithKey(built, SegmentCount, k)
  {
    var built := BuildScopes(importMap.scopes.value, docRoot, mapName).value;
    SortSorted(built, SegmentCount);
    SortStable(built, SegmentCount, k);
  }

  /** A path scope written `./x/` keeps `.` as a segment. */
  lemma DotSegmentKept()
    ensures PathSegments("./x/") == [".", "x"]
  {
    assert IndexOf("./x/", '/') == Some(1);
    assert "./x/"[..1] == "." && "./x/"[2..] == "x/";
    assert IndexOf("x/", '/') == Some(1);
    assert "x/"[..1] == "x" && "x/"[2..] == "";
    assert Split("./x/", '/') == [".", "x", ""];
  }

  // ---------------------------------------------------------------------------
  // Lookup

  /** A `/`-terminated key is a prefix; any other key must match exactly. */
  predicate KeyMatches(key: string, path: string) {
    if EndsWith(key, "/") then StartsWith(path, key) else path == key
  }

  /** The answer of a matching key: the rest of the path resolved against
      a prefix key's URL, or an exact key's URL. */
  function KeyAnswer(path: string, key: string, target: Url): Result<Option<Url>>
    requires KeyMatches(key, path)
  {
    if EndsWith(key, "/") then
      var u :- Need(Resolve(path[|key|..], target), CacheFiles.InvalidURLError);
      Ok(Some(u))
    else Ok(Some(target))
  }

  /** `resolveWithImports(path, map)`: the first key in insertion order
      that matches answers. */
  function WithImports(path: string, imports: Record<Url>): Result<Option<Url>>
    decreases |imports|
  {
    if |imports| == 0 then Ok(None)
    else if KeyMatches(imports[0].0, path) then KeyAnswer(path, imports[0].0, imports[0].1)
    else WithImports(path, imports[1..])
  }

  /** No key matches exactly when the answer is null; otherwise the first
      matching key gives the answer, which is never null. */
  lemma {:induction false} WithImportsFirst(path: string, imports: Record<Url>)
    ensures WithImports(path, imports) == Ok(None) <==>
            forall i :: 0 <= i < |imports| ==> !KeyMatches(imports[i].0, path)
    ensures forall i :: 0 <= i < |imports| && KeyMatches(imports[i].0, path) &&
                        (forall j :: 0 <= j < i ==> !KeyMatches(imports[j].0, path)) ==>
              WithImports(path, imports) == KeyAnswer(path, imports[i].0, imports[i].1)
    decreases |imports|
  {
    if |imports| > 0 {
      var rest := imports[1..];
      WithImportsFirst(path, rest);
      assert forall i :: 1 <= i < |imports| ==> imports[i] == rest[i - 1];
      if !KeyMatches(imports[0].0, path) {
        forall i | 0 < i < |imports| && KeyMatches(imports[i].0, path) &&
                   (forall j :: 0 <= j < i ==> !KeyMatches(imports[j].0, path))
          ensures WithImports(path, imports) == KeyAnswer(path, imports[i].0, imports[i].1)
        {
          assert forall j :: 0 <= j < i - 1 ==> rest[j] == imports[j + 1];
        }
      }
    }
  }

  /** `resolveWithImports(path, map)` */
  method ResolveWithImports(path: string, imports: Record<Url>) returns (r: Result<Option<Url>>)
    ensures r == WithImports(path, imports)
  {
    var i := 0;
    while i < |imports|
      invariant 0 <= i <= |imports|
      invariant WithImports(path, imports[i..]) == WithImports(path, imports)
    {
      assert imports[i..][1..] == imports[i + 1..];
      var key := imports[i].0;
      if EndsWith(key, "/") {
        if StartsWith(path, key) {
          var u := Resolve(path[|key|..], imports[i].1);
          if u.None? {
            return Err(CacheFiles.InvalidURLError);
          }
          return Ok(u);
        }
      } else if path == key {
        return Ok(Some(imports[i].1));
      }
      i := i + 1;
    }
    return Ok(None);
  }

  /** Whether a scope applies to the importer's directory: a full-URL scope
      when the href starts with its key, a path scope when the href holds
      `/<segments>/` or ends with `/<segments>`. */
  predicate Applies(scope: Scope, href: string) {
    if scope.isFullUrl then StartsWith(href, scope.path)
    else
      var joined := "/" + Join(scope.pathSegments, "/");
      Contains(href, joined + "/") || EndsWith(href, joined)
  }

  /** The scope loop and the top-level fallback: the first scope that
      applies answers, whatever its answer. */
  function ScopedAnswer(path: string, href: string, scopes: seq<Scope>, imports: Record<Url>): Result<Option<Url>>
    decreases |scopes|
  {
    if |scopes| == 0 then WithImports(path, imports)
    else if Applies(scopes[0], href) then WithImports(path, scopes[0].imports)
    else ScopedAnswer(path, href, scopes[1..], imports)
  }

  /** No scope before the `i`th applies. */
  ghost predicate NoneApplyBefore(scopes: seq<Scope>, href: string, i: int)
    requires 0 <= i <= |scopes|
  {
    forall j :: 0 <= j < i ==> !Applies(scopes[j], href)
  }

  lemma NoneApplyShift(scopes: seq<Scope>, href: string, i: int)
    requires 0 < i <= |scopes|
    ensures NoneApplyBefore(scopes, href, i) <==> !Applies(scopes[0], href) && NoneApplyBefore(scopes[1..], href, i - 1)
  {
    if !Applies(scopes[0], href) && NoneApplyBefore(scopes[1..], href, i - 1) {
      forall j | 0 <= j < i ensures !Applies(scopes[j], href) {
        if j > 0 { assert scopes[j] == scopes[1..][j - 1]; }
      }
    }
    if NoneApplyBefore(scopes, href, i) {
      forall j | 0 <= j < i - 1 ensures !Applies(scopes[1..][j], href) {
        assert scopes[1..][j] == scopes[j + 1];
      }
    }
  }

  /** The scope at `i` answers when it is the first that applies. */
  lemma {:induction false} ScopeDecidesAt(path: string, href: string, scopes: seq<Scope>, imports: Record<Url>, i: int)
    requires 0 <= i < |scopes| && Applies(scopes[i], href) && NoneApplyBefore(scopes, href, i)
    ensures ScopedAnswer(path, href, scopes, imports) == WithImports(path, scopes[i].imports)
    decreases i
  {
    if i > 0 {
      NoneApplyShift(scopes, href, i);
      assert scopes[1..][i - 1] == scopes[i];
      ScopeDecidesAt(path, href, scopes[1..], imports, i - 1);
    }
  }

  /** The top-level imports answer when no scope applies. */
  lemma {:induction false} NoScopeApplies(path: string, href: string, scopes: seq<Scope>, imports: Record<Url>)
    requires NoneApplyBefore(scopes, href, |scopes|)
    ensures ScopedAnswer(path, href, scopes, imports) == WithImports(path, imports)
    decreases |scopes|
  {
    if |scopes| > 0 {
      NoneApplyShift(scopes, href, |scopes|);
      NoScopeApplies(path, href, scopes[1..], imports);
    }
  }

  /** The first applicable scope decides, even when its map has nothing for
      the path; the top-level imports are read only when no scope applies. */
  lemma FirstApplicableScopeDecides(path: string, href: string, scopes: seq<Scope>, imports: Record<Url>)
    ensures (forall i :: 0 <= i < |scopes| ==> !Applies(scopes[i], href)) ==>
              ScopedAnswer(path, href, scopes, imports) == WithImports(path, imports)
    ensures forall i :: 0 <= i < |scopes| && Applies(scopes[i], href) &&
                        (forall j :: 0 <= j < i ==> !Applies(scopes[j], href)) ==>
              ScopedAnswer(path, href, scopes, imports) == WithImports(path, scopes[i].imports)
  {
    if NoneApplyBefore(scopes, href, |scopes|) {
      NoScopeApplies(path, href, scopes, imports);
    }
    forall i | 0 <= i < |scopes| && Applies(scopes[i], href) && NoneApplyBefore(scopes, href, i)
      ensures ScopedAnswer(path, href, scopes, imports) == WithImports(path, scopes[i].imports)
    {
      ScopeDecidesAt(path, href, scopes, imports, i);
    }
  }

  /** The state of a resolver: its top-level map, its sorted scopes (None
      for none) and its document root. */
  datatype LegacyState = LegacyState(imports: Record<Url>, scopes: Option<seq<Scope>>, docRoot: Url)

  /** What the constructor builds, or the error it throws. */
  function LegacyStateOf(importMap: ImportMapResolvers.ImportMap, docRoot: Url, mapName: string): Result<LegacyState> {
    var imports :- MapToUrl(importMap.imports.GetOr([]), docRoot, mapName);
    var scopes :- GetImportMapScopes(importMap, docRoot, mapName);
    Ok(LegacyState(imports, if |scopes| > 0 then Some(scopes) else None, docRoot))
  }

  /** `resolve(path, importerDirname)` on a resolver in state `st`. */
  function LegacyResolve(st: LegacyState, path: string, importerDirname: Url): Result<Option<Url>> {
    var p :- NormalizePath(path, st.docRoot);
    ScopedAnswer(p, Href(importerDirname), st.scopes.GetOr([]), st.imports)
  }

  /** A scope that applies but has no entry for the path hides the
      top-level imports: the answer is null even when they match. */
  lemma ApplicableScopeHidesImports(st: LegacyState, path: string, importerDirname: Url, i: nat)
    requires NormalizePath(path, st.docRoot).Ok?
    requires st.scopes.Some? && i < |st.scopes.value|
    requires Applies(st.scopes.value[i], Href(importerDirname))
    requires forall j :: 0 <= j < i ==> !Applies(st.scopes.value[j], Href(importerDirname))
    requires var p := NormalizePath(path, st.docRoot).value;
             forall k :: 0 <= k < |st.scopes.value[i].imports| ==> !KeyMatches(st.scopes.value[i].imports[k].0, p)
    ensures LegacyResolve(st, path, importerDirname) == Ok(None)
  {
    var p := NormalizePath(path, st.docRoot).value;
    FirstApplicableScopeDecides(p, Href(importerDirname), st.scopes.value, st.imports);
    WithImportsFirst(p, st.scopes.value[i].imports);
  }

  /** `ImportMapResolver` of src/importMap.ts and `ImportmapResolver` of
      src/importmap.ts. */
  class LegacyImportMapResolver {
    var imports: Record<Url>
    var scopes: Option<seq<Scope>>
    var docRoot: Url

    function State(): LegacyState
      reads this
    {
      LegacyState(imports, scopes, docRoot)
    }

    constructor (st: LegacyState)
      ensures State() == st
    {
      imports := st.imports;
      scopes := st.scopes;
      docRoot := st.docRoot;
    }

    /** `new ImportMapResolver(importMap, docRoot)`, which throws when a
        key or a value does not convert. */
    static method Create(importMap: ImportMapResolvers.ImportMap, docRoot: Url, mapName: string)
      returns (r: Result<LegacyImportMapResolver>)
      ensures r.Ok? <==> LegacyStateOf(importMap, docRoot, mapName).Ok?
      ensures r.Err? ==> r.message == LegacyStateOf(importMap, docRoot, mapName).message
      ensures r.Ok? ==> fresh(r.value) && r.value.State() == LegacyStateOf(importMap, docRoot, mapName).value
    {
      var imports := ImportMapMapToUrl(importMap.imports.GetOr([]), docRoot, mapName);
      if imports.Err? {
        return Err(imports.message);
      }
      var scopes := GetImportMapScopes(importMap, docRoot, mapName);
      if scopes.Err? {
        return Err(scopes.message);
      }
      var c := new LegacyImportMapResolver(
        LegacyState(imports.value, if |scopes.value| > 0 then Some(scopes.value) else None, docRoot));
      return Ok(c);
    }

    /** `resolve(path, importerDirname)` */
    method Resolve(path: string, importerDirname: Url) returns (r: Result<Option<Url>>)
      ensures r == LegacyResolve(State(), path, importerDirname)
    {
      var p := path;
      if IsPathLike(path) {
        var u := Urls.Resolve(path, docRoot);
        if u.None? {
          return Err(CacheFiles.InvalidURLError);
        }
        p := Href(u.value);
      }
      var href := Href(importerDirname);
      if scopes.Some? {
        var all := scopes.value;
        var i := 0;
        while i < |all|
          invariant 0 <= i <= |all|
          invariant ScopedAnswer(p, href, all[i..], imports) == ScopedAnswer(p, href, all, imports)
        {
          assert all[i..][1..] == all[i + 1..];
          var scope := all[i];
          if scope.isFullUrl {
            if StartsWith(href, scope.path) {
              r := ResolveWithImports(p, scope.imports);
              return;
            }
          } else {
            var joined := "/" + Join(scope.pathSegments, "/");
            if Contains(href, joined + "/") || EndsWith(href, joined) {
              r := ResolveWithImports(p, scope.imports);
              return;
            }
          }
          i := i + 1;
        }
      }
      r := ResolveWithImports(p, imports);
    }
  }
}
