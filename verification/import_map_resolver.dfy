/** src/importMapResolver.ts: import maps read as the WHATWG HTML Standard
    describes ("sort and normalize a module specifier map", "resolve an
    imports match", "resolve a URL-like module specifier"), except that
    entries and scopes are ordered by their number of `/`-separated parts
    (their verbosity) instead of by code units. */
module ImportMapResolvers {
  import opened Wrappers
  import opened Strs
  import opened Records
  import opened Urls
  import opened Util
  import opened Sorting
  import opened WarningsHandlers

  /** An import map as written: both members may be missing. */
  datatype ImportMap = ImportMap(imports: Option<Record<string>>, scopes: Option<Record<Record<string>>>)

  /** A normalized entry; a null `value` marks an entry kept only to fail. */
  datatype SpecifierItem = SpecifierItem(key: string, value: Option<Url>, verbosity: int)

  datatype ScopeItem = ScopeItem(prefix: string, imports: seq<SpecifierItem>, verbosity: int)

  function ItemVerbosity(item: SpecifierItem): int { item.verbosity }

  function ScopeVerbosity(scope: ScopeItem): int { scope.verbosity }

  predicate IsURLLike(specifier: string) {
    StartsWith(specifier, "/") || StartsWith(specifier, "./") || StartsWith(specifier, "../")
  }

  /** A specifier starting with `/` or `.` has no scheme. */
  lemma URLLikeHasNoScheme(specifier: string)
    requires IsURLLike(specifier)
    ensures SchemeEnd(specifier).None?
  {
    assert specifier[0] == '/' || specifier[0] == '.';
  }

  /** `resolveURLLikeModuleSpecifier(specifier, baseURL)`: `/`, `./` and
      `../` specifiers are resolved against `baseURL`; anything else must be
      an absolute URL, and the base plays no part. */
  function ResolveURLLikeModuleSpecifier(specifier: string, baseURL: Url): (r: Option<Url>)
    ensures SchemeEnd(specifier).Some? ==> r == Parse(specifier)
    ensures IsURLLike(specifier) ==> r == Resolve(specifier, baseURL)
    ensures !IsURLLike(specifier) && SchemeEnd(specifier).None? ==> r.None?
  {
    if IsURLLike(specifier) then
      URLLikeHasNoScheme(specifier);
      Resolve(specifier, baseURL)
    else Parse(specifier)
  }

  const EmptyKeyWarning := Warning("Import map specifier key is empty")

  /** The key an entry is stored under: the href of the URL it denotes, or
      the key itself; an empty key has none. */
  function NormalizedKey(key: string, baseURL: Url): (r: Option<string>)
    ensures r.None? <==> key == ""
    ensures r.Some? ==> r.value != ""
  {
    if key == "" then None
    else
      match ResolveURLLikeModuleSpecifier(key, baseURL)
      case Some(u) => assert Href(u)[|u.scheme|] == ':'; Some(Href(u))
      case None => Some(key)
  }

  /** `normalizeSpecifierKey(specifierKey, baseURL, warnings)` */
  method NormalizeSpecifierKey(key: string, baseURL: Url, warnings: WarningsHandler) returns (r: Option<string>)
    modifies warnings
    ensures r == NormalizedKey(key, baseURL)
    ensures warnings.warnings == old(warnings.warnings) + (if key == "" then [EmptyKeyWarning] else [])
  {
    if key == "" {
      warnings.Push([EmptyKeyWarning]);
      return None;
    }
    var u := ResolveURLLikeModuleSpecifier(key, baseURL);
    if u.Some? {
      r := Some(Href(u.value));
    } else {
      r := Some(key);
    }
  }

  /** `getVerbosity(specifier)`: the number of `/`-separated parts, not
      counting one empty part at the end. */
  function GetVerbosity(specifier: string): int {
    var split := Split(specifier, '/');
    if split[|split| - 1] == "" then |split| - 1 else |split|
  }

  /** The verbosity is the number of `/` plus one, less one when the
      specifier is empty or ends with `/`. */
  lemma VerbosityCount(specifier: string)
    ensures GetVerbosity(specifier) ==
            Count(specifier, '/') + (if specifier == "" || specifier[|specifier| - 1] == '/' then 0 else 1)
  {
    var split := Split(specifier, '/');
    SplitLength(specifier, '/');
    SplitLastEmpty(specifier, '/');
    assert |split| == Count(specifier, '/') + 1;
    assert split[|split| - 1] == "" <==> specifier == "" || specifier[|specifier| - 1] == '/';
  }

  /** `a/b/` and `a/b` are equally verbose. */
  lemma VerbosityTrailingSlash(specifier: string)
    requires specifier != "" && specifier[|specifier| - 1] != '/'
    ensures GetVerbosity(specifier + "/") == GetVerbosity(specifier)
  {
    VerbosityCount(specifier);
    VerbosityCount(specifier + "/");
    CountAppend(specifier, "/", '/');
  }

  // ---------------------------------------------------------------------------
  // Normalization of a specifier map

  function IgnoredKeyWarning(key: string): Warning {
    Warning("Import map module specifier key " + key + " is ignored.")
  }

  function InvalidValueWarning(key: string, value: string): Warning {
    Warning("Import map module specifier value " + value + " for " + key + " is invalid.")
  }

  function SlashMismatchWarning(key: string, href: string): Warning {
    Warning("Import map key " + key + " ends with \"/\" but the relevant URL " + href + " does not ends with \"/\".")
  }

  /** One turn of the entry loop: the item it pushes, if any, and the
      warnings it raises, in order. */
  function NormalizeEntry(key: string, value: string, baseURL: Url): (r: (Option<SpecifierItem>, seq<Warning>))
    ensures r.0.None? <==> key == ""
    ensures r.0.Some? ==> r.0.value.key == NormalizedKey(key, baseURL).value
    ensures r.0.Some? ==> r.0.value.verbosity == GetVerbosity(r.0.value.key)
    ensures r.0.Some? ==> (r.0.value.value.None? <==>
              ResolveURLLikeModuleSpecifier(value, baseURL).None? ||
              (EndsWith(key, "/") && !EndsWith(Href(ResolveURLLikeModuleSpecifier(value, baseURL).value), "/")))
    ensures r.0.Some? && r.0.value.value.Some? ==> r.0.value.value == ResolveURLLikeModuleSpecifier(value, baseURL)
    ensures r.0.Some? ==> (r.1 == [] <==> r.0.value.value.Some?)
  {
    match NormalizedKey(key, baseURL)
    case None => (None, [EmptyKeyWarning, IgnoredKeyWarning(key)])
    case Some(k) =>
      var verbosity := GetVerbosity(k);
      match ResolveURLLikeModuleSpecifier(value, baseURL)
      case None => (Some(SpecifierItem(k, None, verbosity)), [InvalidValueWarning(key, value)])
      case Some(address) =>
        if EndsWith(key, "/") && !EndsWith(Href(address), "/") then
          (Some(SpecifierItem(k, None, verbosity)), [SlashMismatchWarning(key, Href(address))])
        else (Some(SpecifierItem(k, Some(address), verbosity)), [])
  }

  /** The items pushed while visiting `entries`, before sorting. */
  function Items(entries: Record<string>, baseURL: Url): seq<SpecifierItem>
    decreases |entries|
  {
    if |entries| == 0 then []
    else
      var last := entries[|entries| - 1];
      var item := NormalizeEntry(last.0, last.1, baseURL).0;
      Items(entries[..|entries| - 1], baseURL) + (if item.Some? then [item.value] else [])
  }

  /** The warnings raised while visiting `entries`. */
  function MapWarnings(entries: Record<string>, baseURL: Url): seq<Warning>
    decreases |entries|
  {
    if |entries| == 0 then []
    else
      var last := entries[|entries| - 1];
      MapWarnings(entries[..|entries| - 1], baseURL) + NormalizeEntry(last.0, last.1, baseURL).1
  }

  /** The body of the entry loop: normalizes one entry, pushing its warnings. */
  method NormalizeEntryInto(key: string, value: string, baseURL: Url, warnings: WarningsHandler)
    returns (item: Option<SpecifierItem>)
    modifies warnings
    ensures item == NormalizeEntry(key, value, baseURL).0
    ensures warnings.warnings == old(warnings.warnings) + NormalizeEntry(key, value, baseURL).1
  {
    var normalizedKey := NormalizeSpecifierKey(key, baseURL, warnings);
    if normalizedKey.None? {
      warnings.Push([IgnoredKeyWarning(key)]);
      return None;
    }
    var verbosity := GetVerbosity(normalizedKey.value);
    var addressURL := ResolveURLLikeModuleSpecifier(value, baseURL);
    if addressURL.None? {
      warnings.Push([InvalidValueWarning(key, value)]);
      return Some(SpecifierItem(normalizedKey.value, None, verbosity));
    }
    if EndsWith(key, "/") && !EndsWith(Href(addressURL.value), "/") {
      warnings.Push([SlashMismatchWarning(key, Href(addressURL.value))]);
      return Some(SpecifierItem(normalizedKey.value, None, verbosity));
    }
    return Some(SpecifierItem(normalizedKey.value, addressURL, verbosity));
  }

  /** `sortAndNormalizeModuleSpecifierMap(map, baseURL, warnings)`: entries
      are normalized in order, warnings appended as they arise, and the
      items sorted by descending verbosity. */
  method SortAndNormalizeModuleSpecifierMap(m: Record<string>, baseURL: Url, warnings: WarningsHandler)
    returns (result: seq<SpecifierItem>)
    modifies warnings
    ensures result == SortDesc(Items(m, baseURL), ItemVerbosity)
    ensures warnings.warnings == old(warnings.warnings) + MapWarnings(m, baseURL)
  {
    result := [];
    var i := 0;
    while i < |m|
      invariant 0 <= i <= |m|
      invariant result == Items(m[..i], baseURL)
      invariant warnings.warnings == old(warnings.warnings) + MapWarnings(m[..i], baseURL)
    {
      assert m[..i + 1][..i] == m[..i];
      var (key, value) := m[i];
      var item := NormalizeEntryInto(key, value, baseURL, warnings);
      AppendAssoc(old(warnings.warnings), MapWarnings(m[..i], baseURL), NormalizeEntry(key, value, baseURL).1);
      if item.Some? {
        result := result + [item.value];
      }
      i := i + 1;
    }
    assert m[..|m|] == m;
    result := SortDesc(result, ItemVerbosity);
  }

  /** Every item comes from an entry with a non-empty key: empty keys are dropped. */
  lemma {:induction false} ItemsFromEntries(entries: Record<string>, baseURL: Url, item: SpecifierItem)
    requires item in Items(entries, baseURL)
    ensures exists i :: 0 <= i < |entries| && entries[i].0 != "" &&
                        NormalizeEntry(entries[i].0, entries[i].1, baseURL).0 == Some(item)
    decreases |entries|
  {
    var n := |entries|;
    var init := entries[..n - 1];
    var last := entries[n - 1];
    var e := NormalizeEntry(last.0, last.1, baseURL).0;
    if item in Items(init, baseURL) {
      ItemsFromEntries(init, baseURL, item);
      var i :| 0 <= i < |init| && init[i].0 != "" && NormalizeEntry(init[i].0, init[i].1, baseURL).0 == Some(item);
      assert entries[i] == init[i];
    } else {
      assert e == Some(item);
    }
  }

  /** The sorted items hold every normalized entry once, with the more
      verbose keys first and equally verbose keys in their original order. */
  lemma SortedItems(m: Record<string>, baseURL: Url, v: int)
    ensures var s := SortDesc(Items(m, baseURL), ItemVerbosity);
      SortedDesc(s, ItemVerbosity) && multiset(s) == multiset(Items(m, baseURL)) &&
      WithKey(s, ItemVerbosity, v) == WithKey(Items(m, baseURL), ItemVerbosity, v)
  {
    SortSorted(Items(m, baseURL), ItemVerbosity);
    SortStable(Items(m, baseURL), ItemVerbosity, v);
  }

  // ---------------------------------------------------------------------------
  // Normalization of scopes

  function ScopePrefixWarning(prefix: string): Warning {
    Warning("Import map scope prefix " + prefix + " is ignored.")
  }

  /** One scope: None with a warning when its prefix does not resolve,
      otherwise the scope with its own map normalized. */
  function NormalizeScope(prefix: string, imports: Record<string>, baseURL: Url): (r: (Option<ScopeItem>, seq<Warning>))
    ensures r.0.None? <==> Resolve(prefix, baseURL).None?
    ensures r.0.Some? ==> r.0.value.prefix == Href(Resolve(prefix, baseURL).value) &&
                          r.0.value.verbosity == GetVerbosity(r.0.value.prefix)
  {
    match Resolve(prefix, baseURL)
    case None => (None, [ScopePrefixWarning(prefix)])
    case Some(u) =>
      (Some(ScopeItem(Href(u), SortDesc(Items(imports, baseURL), ItemVerbosity), GetVerbosity(Href(u)))),
       MapWarnings(imports, baseURL))
  }

  function ScopeItems(scopes: Record<Record<string>>, baseURL: Url): seq<ScopeItem>
    decreases |scopes|
  {
    if |scopes| == 0 then []
    else
      var last := scopes[|scopes| - 1];
      var item := NormalizeScope(last.0, last.1, baseURL).0;
      ScopeItems(scopes[..|scopes| - 1], baseURL) + (if item.Some? then [item.value] else [])
  }

  function ScopesWarnings(scopes: Record<Record<string>>, baseURL: Url): seq<Warning>
    decreases |scopes|
  {
    if |scopes| == 0 then []
    else
      var last := scopes[|scopes| - 1];
      ScopesWarnings(scopes[..|scopes| - 1], baseURL) + NormalizeScope(last.0, last.1, baseURL).1
  }

  /** The body of the scope loop: the `try` block and its `catch`. */
  method NormalizeScopeInto(scopePrefix: string, imports: Record<string>, baseURL: Url, warnings: WarningsHandler)
    returns (item: Option<ScopeItem>)
    modifies warnings
    ensures item == NormalizeScope(scopePrefix, imports, baseURL).0
    ensures warnings.warnings == old(warnings.warnings) + NormalizeScope(scopePrefix, imports, baseURL).1
  {
    var scopePrefixURL := Resolve(scopePrefix, baseURL);
    if scopePrefixURL.None? {
      warnings.Push([ScopePrefixWarning(scopePrefix)]);
      return None;
    }
    var href := Href(scopePrefixURL.value);
    var items := SortAndNormalizeModuleSpecifierMap(imports, baseURL, warnings);
    return Some(ScopeItem(href, items, GetVerbosity(href)));
  }

  lemma ScopesStep(scopes: Record<Record<string>>, baseURL: Url, i: nat)
    requires i < |scopes|
    ensures var r := NormalizeScope(scopes[i].0, scopes[i].1, baseURL);
      ScopeItems(scopes[..i + 1], baseURL) == ScopeItems(scopes[..i], baseURL) + (if r.0.Some? then [r.0.value] else []) &&
      ScopesWarnings(scopes[..i + 1], baseURL) == ScopesWarnings(scopes[..i], baseURL) + r.1
  {
    assert scopes[..i + 1][..i] == scopes[..i];
  }

  /** The scope loop of `sortAndNormalizeScopes`: every scope in order,
      warnings appended as they arise. */
  method NormalizeScopesInto(scopes: Record<Record<string>>, baseURL: Url, warnings: WarningsHandler)
    returns (result: seq<ScopeItem>)
    modifies warnings
    ensures result == ScopeItems(scopes, baseURL)
    ensures warnings.warnings == old(warnings.warnings) + ScopesWarnings(scopes, baseURL)
  {
    result := [];
    var i := 0;
    while i < |scopes|
      invariant 0 <= i <= |scopes|
      invariant result == ScopeItems(scopes[..i], baseURL)
      invariant warnings.warnings == old(warnings.warnings) + ScopesWarnings(scopes[..i], baseURL)
    {
      ScopesStep(scopes, baseURL, i);
      var item := NormalizeScopeInto(scopes[i].0, scopes[i].1, baseURL, warnings);
      AppendAssoc(old(warnings.warnings), ScopesWarnings(scopes[..i], baseURL),
                  NormalizeScope(scopes[i].0, scopes[i].1, baseURL).1);
      if item.Some? {
        result := result + [item.value];
      }
      i := i + 1;
    }
    assert scopes[..|scopes|] == scopes;
  }

  /** `sortAndNormalizeScopes(scopes, baseURL, warnings)`: scopes are
      normalized in order and sorted by descending verbosity of their prefix. */
  method SortAndNormalizeScopes(scopes: Record<Record<string>>, baseURL: Url, warnings: WarningsHandler)
    returns (result: seq<ScopeItem>)
    modifies warnings
    ensures result == SortDesc(ScopeItems(scopes, baseURL), ScopeVerbosity)
    ensures warnings.warnings == old(warnings.warnings) + ScopesWarnings(scopes, baseURL)
  {
    result := NormalizeScopesInto(scopes, baseURL, warnings);
    result := SortDesc(result, ScopeVerbosity);
  }

  // ---------------------------------------------------------------------------
  // Lookup

  /** Whether an item takes part in resolving: an equal key, or a
      `/`-terminated key that prefixes the specifier when the specifier is
      not a URL or is a special URL. */
  predicate Applies(item: SpecifierItem, normalized: string, specifierURL: Option<Url>) {
    item.key == normalized ||
    (EndsWith(item.key, "/") && StartsWith(normalized, item.key) &&
     (specifierURL.None? || IsSpecialURL(specifierURL.value)))
  }

  function NullResultError(key: string): string {
    "Cannot resolve " + key + ", the resolution result is null for some reason."
  }

  function NoResolutionError(normalized: string, target: Url, key: string): string {
    "Cannot resolve " + normalized + " on " + Href(target) + " for " + key
  }

  function BacktrackingError(normalized: string, target: Url, key: string): string {
    NoResolutionError(normalized, target, key) + "; backtracking is not allowed."
  }

  /** The answer of the first applicable item. A null value throws; a prefix
      match resolves the rest of the specifier against the mapped URL and
      throws when the result does not lie under it. */
  function ItemAnswer(item: SpecifierItem, normalized: string): (r: Result<Option<Url>>)
    requires item.key == normalized || StartsWith(normalized, item.key)
    ensures r.Ok? ==> r.value.Some?
    ensures item.value.None? ==> r == Err(NullResultError(item.key))
    ensures item.key == normalized ==> r == (if item.value.Some? then Ok(item.value) else Err(NullResultError(item.key)))
    ensures item.key != normalized && r.Ok? ==>
              r.value == Resolve(normalized[|item.key|..], item.value.value) &&
              StartsWith(Href(r.value.value), Href(item.value.value))
    ensures item.key != normalized && item.value.Some? &&
            Resolve(normalized[|item.key|..], item.value.value).Some? &&
            StartsWith(Href(Resolve(normalized[|item.key|..], item.value.value).value), Href(item.value.value)) ==>
              r == Ok(Resolve(normalized[|item.key|..], item.value.value))
  {
    if item.key == normalized then
      if item.value.None? then Err(NullResultError(item.key)) else Ok(item.value)
    else
      match item.value
      case None => Err(NullResultError(item.key))
      case Some(target) =>
        match Resolve(normalized[|item.key|..], target)
        case None => Err(NoResolutionError(normalized, target, item.key))
        case Some(url) =>
          if !StartsWith(Href(url), Href(target)) then Err(BacktrackingError(normalized, target, item.key))
          else Ok(Some(url))
  }

  /** `resolveImportsMatch` as a search: the first applicable item decides. */
  function ImportsMatch(normalized: string, specifierURL: Option<Url>, items: seq<SpecifierItem>): Result<Option<Url>>
    decreases |items|
  {
    if |items| == 0 then Ok(None)
    else if Applies(items[0], normalized, specifierURL) then ItemAnswer(items[0], normalized)
    else ImportsMatch(normalized, specifierURL, items[1..])
  }

  /** No item applies exactly when the search finds nothing; otherwise the
      first applicable item gives the answer. */
  lemma {:induction false} ImportsMatchFirst(normalized: string, specifierURL: Option<Url>, items: seq<SpecifierItem>)
    ensures var r := ImportsMatch(normalized, specifierURL, items);
      (r == Ok(None) <==> forall i :: 0 <= i < |items| ==> !Applies(items[i], normalized, specifierURL)) &&
      (r != Ok(None) ==> exists i :: 0 <= i < |items| && Applies(items[i], normalized, specifierURL) &&
                                   r == ItemAnswer(items[i], normalized) &&
                                   forall j :: 0 <= j < i ==> !Applies(items[j], normalized, specifierURL))
    decreases |items|
  {
    if |items| > 0 && !Applies(items[0], normalized, specifierURL) {
      var r := ImportsMatch(normalized, specifierURL, items[1..]);
      ImportsMatchFirst(normalized, specifierURL, items[1..]);
      if r != Ok(None) {
        var i :| 0 <= i < |items[1..]| && Applies(items[1..][i], normalized, specifierURL) &&
                 r == ItemAnswer(items[1..][i], normalized) &&
                 forall j :: 0 <= j < i ==> !Applies(items[1..][j], normalized, specifierURL);
        assert items[i + 1] == items[1..][i];
        forall j | 0 <= j < i + 1 ensures !Applies(items[j], normalized, specifierURL) {
          if j > 0 { assert items[j] == items[1..][j - 1]; }
        }
      } else {
        forall i | 0 <= i < |items| ensures !Applies(items[i], normalized, specifierURL) {
          if i > 0 { assert items[i] == items[1..][i - 1]; }
        }
      }
    }
  }

  /** `resolveImportsMatch(normalizedSpecifier, specifierURL, specifierMap)`:
      a loop with early return. */
  method ResolveImportsMatch(normalized: string, specifierURL: Option<Url>, items: seq<SpecifierItem>)
    returns (r: Result<Option<Url>>)
    ensures r == ImportsMatch(normalized, specifierURL, items)
  {
    var i := 0;
    while i < |items|
      invariant 0 <= i <= |items|
      invariant ImportsMatch(normalized, specifierURL, items[i..]) == ImportsMatch(normalized, specifierURL, items)
    {
      assert items[i..][1..] == items[i + 1..];
      var item := items[i];
      if item.key == normalized {
        if item.value.None? {
          return Err(NullResultError(item.key));
        }
        return Ok(item.value);
      }
      if EndsWith(item.key, "/") && StartsWith(normalized, item.key) &&
         (specifierURL.None? || IsSpecialURL(specifierURL.value)) {
        if item.value.None? {
          return Err(NullResultError(item.key));
        }
        var target := item.value.value;
        var url := Resolve(normalized[|item.key|..], target);
        if url.None? {
          return Err(NoResolutionError(normalized, target, item.key));
        }
        if !StartsWith(Href(url.value), Href(target)) {
          return Err(BacktrackingError(normalized, target, item.key));
        }
        return Ok(url);
      }
      i := i + 1;
    }
    return Ok(None);
  }

  /** A scope applies to an importer whose href is its prefix, or starts
      with it when the prefix ends with `/`. */
  predicate ScopeApplies(prefix: string, baseURLString: string) {
    prefix == baseURLString || (EndsWith(prefix, "/") && StartsWith(baseURLString, prefix))
  }

  /** What one scope contributes: its imports' match when it applies. */
  function ScopeAnswer(normalized: string, specifierURL: Option<Url>, baseURLString: string, scope: ScopeItem)
    : Result<Option<Url>>
  {
    if ScopeApplies(scope.prefix, baseURLString) then ImportsMatch(normalized, specifierURL, scope.imports)
    else Ok(None)
  }

  /** The scope loop: the first scope with an answer decides. */
  function ScopesMatch(normalized: string, specifierURL: Option<Url>, baseURLString: string, scopes: seq<ScopeItem>)
    : Result<Option<Url>>
    decreases |scopes|
  {
    if |scopes| == 0 then Ok(None)
    else
      var here := ScopeAnswer(normalized, specifierURL, baseURLString, scopes[0]);
      if here != Ok(None) then here
      else ScopesMatch(normalized, specifierURL, baseURLString, scopes[1..])
  }

  /** The scope loop finds nothing exactly when no applicable scope has a
      match; otherwise it answers with the imports of the first applicable
      scope that has one. */
  lemma {:induction false} ScopesMatchFirst(normalized: string, specifierURL: Option<Url>, baseURLString: string,
                                            scopes: seq<ScopeItem>)
    ensures var r := ScopesMatch(normalized, specifierURL, baseURLString, scopes);
      (r == Ok(None) <==>
        forall i :: 0 <= i < |scopes| && ScopeApplies(scopes[i].prefix, baseURLString) ==>
          ImportsMatch(normalized, specifierURL, scopes[i].imports) == Ok(None)) &&
      (r != Ok(None) ==>
        exists i :: 0 <= i < |scopes| && ScopeApplies(scopes[i].prefix, baseURLString) &&
          r == ImportsMatch(normalized, specifierURL, scopes[i].imports) &&
          forall j :: 0 <= j < i && ScopeApplies(scopes[j].prefix, baseURLString) ==>
            ImportsMatch(normalized, specifierURL, scopes[j].imports) == Ok(None))
    decreases |scopes|
  {
    if |scopes| > 0 {
      var here := ScopeAnswer(normalized, specifierURL, baseURLString, scopes[0]);
      if here == Ok(None) {
        var r := ScopesMatch(normalized, specifierURL, baseURLString, scopes[1..]);
        ScopesMatchFirst(normalized, specifierURL, baseURLString, scopes[1..]);
        if r != Ok(None) {
          var i :| 0 <= i < |scopes[1..]| && ScopeApplies(scopes[1..][i].prefix, baseURLString) &&
            r == ImportsMatch(normalized, specifierURL, scopes[1..][i].imports) &&
            forall j :: 0 <= j < i && ScopeApplies(scopes[1..][j].prefix, baseURLString) ==>
              ImportsMatch(normalized, specifierURL, scopes[1..][j].imports) == Ok(None);
          assert scopes[i + 1] == scopes[1..][i];
          forall j | 0 <= j < i + 1 && ScopeApplies(scopes[j].prefix, baseURLString)
            ensures ImportsMatch(normalized, specifierURL, scopes[j].imports) == Ok(None) {
            if j > 0 { assert scopes[j] == scopes[1..][j - 1]; }
          }
        } else {
          forall i | 0 <= i < |scopes| && ScopeApplies(scopes[i].prefix, baseURLString)
            ensures ImportsMatch(normalized, specifierURL, scopes[i].imports) == Ok(None) {
            if i > 0 { assert scopes[i] == scopes[1..][i - 1]; }
          }
        }
      }
    }
  }

  /** What a resolver holds once constructed. */
  datatype ResolverState = ResolverState(imports: seq<SpecifierItem>, scopes: seq<ScopeItem>, baseURL: Url)

  /** The specifier as the maps see it: resolved against the resolver's
      base (never the importer) when URL-like, or left as written. */
  function Normalized(specifier: string, baseURL: Url): string {
    match ResolveURLLikeModuleSpecifier(specifier, baseURL)
    case Some(u) => Href(u)
    case None => specifier
  }

  /** `resolve(moduleSpecifier, importer, noSpecifierItself)`: scopes first,
      then the top-level imports, then the specifier's own URL. */
  function ResolveSpec(st: ResolverState, specifier: string, importer: Option<Url>, noSpecifierItself: bool)
    : Result<Option<Url>>
  {
    var baseURLString := if importer.Some? then Href(importer.value) else Href(st.baseURL);
    var specifierURL := ResolveURLLikeModuleSpecifier(specifier, st.baseURL);
    var normalized := Normalized(specifier, st.baseURL);
    var scoped :- ScopesMatch(normalized, specifierURL, baseURLString, st.scopes);
    if scoped.Some? then Ok(scoped)
    else
      var top :- ImportsMatch(normalized, specifierURL, st.imports);
      if top.Some? then Ok(top)
      else Ok(if noSpecifierItself then None else specifierURL)
  }

  class ImportMapResolver {
    var imports: seq<SpecifierItem>
    var scopes: seq<ScopeItem>
    var baseURL: Url
    var warnings: WarningsHandler

    function State(): ResolverState
      reads this
    {
      ResolverState(imports, scopes, baseURL)
    }

    /** Normalizes and sorts the top-level imports, then the scopes, into a
        fresh warnings list. */
    constructor (importMap: ImportMap, baseURL: Url)
      ensures imports == SortDesc(Items(importMap.imports.GetOr([]), baseURL), ItemVerbosity)
      ensures scopes == SortDesc(ScopeItems(importMap.scopes.GetOr([]), baseURL), ScopeVerbosity)
      ensures this.baseURL == baseURL
      ensures fresh(warnings)
      ensures warnings.warnings ==
              MapWarnings(importMap.imports.GetOr([]), baseURL) + ScopesWarnings(importMap.scopes.GetOr([]), baseURL)
    {
      var w := new WarningsHandler();
      var importsRecord := importMap.imports.GetOr([]);
      var scopesRecord := importMap.scopes.GetOr([]);
      var imps := SortAndNormalizeModuleSpecifierMap(importsRecord, baseURL, w);
      EmptyAppend(MapWarnings(importsRecord, baseURL));
      assert w.warnings == MapWarnings(importsRecord, baseURL);
      var scs := SortAndNormalizeScopes(scopesRecord, baseURL, w);
      warnings := w;
      imports := imps;
      scopes := scs;
      this.baseURL := baseURL;
    }

    method Resolve(moduleSpecifier: string, importer: Option<Url>, noSpecifierItself: bool)
      returns (r: Result<Option<Url>>)
      ensures r == ResolveSpec(State(), moduleSpecifier, importer, noSpecifierItself)
    {
      var baseURLString := if importer.Some? then Href(importer.value) else Href(baseURL);
      var specifierURL := ResolveURLLikeModuleSpecifier(moduleSpecifier, baseURL);
      var normalized := if specifierURL.Some? then Href(specifierURL.value) else moduleSpecifier;
      var i := 0;
      while i < |scopes|
        invariant 0 <= i <= |scopes|
        invariant ScopesMatch(normalized, specifierURL, baseURLString, scopes[i..]) ==
                  ScopesMatch(normalized, specifierURL, baseURLString, scopes)
      {
        assert scopes[i..][1..] == scopes[i + 1..];
        var scope := scopes[i];
        var isPrefix := EndsWith(scope.prefix, "/") && StartsWith(baseURLString, scope.prefix);
        if scope.prefix == baseURLString || isPrefix {
          var scopeImportsMatch := ResolveImportsMatch(normalized, specifierURL, scope.imports);
          if scopeImportsMatch.Err? || scopeImportsMatch.value.Some? {
            return scopeImportsMatch;
          }
        }
        i := i + 1;
      }
      var importsMatch := ResolveImportsMatch(normalized, specifierURL, imports);
      if importsMatch.Err? || importsMatch.value.Some? {
        return importsMatch;
      }
      return Ok(if noSpecifierItself then None else specifierURL);
    }
  }

  // ---------------------------------------------------------------------------
  // Properties of resolution

  /** With nothing in the map that applies, the answer is the specifier's
      own URL (None for a bare specifier), or None when asked not to fall
      back to it. */
  lemma NoMatchFallsBack(st: ResolverState, specifier: string, importer: Option<Url>, noSpecifierItself: bool)
    requires forall i :: 0 <= i < |st.scopes| ==> !ScopeApplies(st.scopes[i].prefix, if importer.Some? then Href(importer.value) else Href(st.baseURL))
    requires forall i :: 0 <= i < |st.imports| ==>
               !Applies(st.imports[i], Normalized(specifier, st.baseURL), ResolveURLLikeModuleSpecifier(specifier, st.baseURL))
    ensures ResolveSpec(st, specifier, importer, noSpecifierItself) ==
            Ok(if noSpecifierItself then None else ResolveURLLikeModuleSpecifier(specifier, st.baseURL))
    ensures !IsURLLike(specifier) && SchemeEnd(specifier).None? ==>
            ResolveSpec(st, specifier, importer, noSpecifierItself) == Ok(None)
  {
    var base := if importer.Some? then Href(importer.value) else Href(st.baseURL);
    ScopesMatchFirst(Normalized(specifier, st.baseURL), ResolveURLLikeModuleSpecifier(specifier, st.baseURL), base, st.scopes);
    ImportsMatchFirst(Normalized(specifier, st.baseURL), ResolveURLLikeModuleSpecifier(specifier, st.baseURL), st.imports);
  }

  /** The importer only chooses scopes: without scopes it makes no difference. */
  lemma ImporterOnlySelectsScopes(st: ResolverState, specifier: string, a: Option<Url>, b: Option<Url>, noSpecifierItself: bool)
    requires st.scopes == []
    ensures ResolveSpec(st, specifier, a, noSpecifierItself) == ResolveSpec(st, specifier, b, noSpecifierItself)
  {
  }

  /** Once an applicable scope has a match, the top-level imports are not consulted. */
  lemma ScopeBeforeImports(st: ResolverState, specifier: string, importer: Option<Url>, noSpecifierItself: bool, i: nat)
    requires i < |st.scopes|
    requires var base := if importer.Some? then Href(importer.value) else Href(st.baseURL);
      ScopeApplies(st.scopes[i].prefix, base) &&
      ImportsMatch(Normalized(specifier, st.baseURL), ResolveURLLikeModuleSpecifier(specifier, st.baseURL), st.scopes[i].imports).Ok? &&
      ImportsMatch(Normalized(specifier, st.baseURL), ResolveURLLikeModuleSpecifier(specifier, st.baseURL), st.scopes[i].imports).value.Some?
    ensures ResolveSpec(st, specifier, importer, noSpecifierItself) ==
            ScopesMatch(Normalized(specifier, st.baseURL), ResolveURLLikeModuleSpecifier(specifier, st.baseURL),
                        if importer.Some? then Href(importer.value) else Href(st.baseURL), st.scopes)
  {
    var base := if importer.Some? then Href(importer.value) else Href(st.baseURL);
    var normalized := Normalized(specifier, st.baseURL);
    var specifierURL := ResolveURLLikeModuleSpecifier(specifier, st.baseURL);
    ScopesMatchFirst(normalized, specifierURL, base, st.scopes);
    assert ScopesMatch(normalized, specifierURL, base, st.scopes) != Ok(None);
  }
}
