/** src/npm/toCacheURL.ts: where the cache keeps the files of an npm package. */
module NpmCacheUrl {
  import opened Wrappers
  import opened Strs
  import opened Urls

  /** `decomposePackageNameVersion`: splits at the last `@` that is not the
      first character. */
  function DecomposePackageNameVersion(s: string): (r: (string, string))
    ensures LastIndexOf(s, '@') <= 0 ==> r == (s, "")
    ensures LastIndexOf(s, '@') > 0 ==> r.0 + "@" + r.1 == s && '@' !in r.1 && |r.0| > 0
  {
    var i := LastIndexOf(s, '@');
    if i <= 0 then (s, "")
    else
      assert s == s[..i] + "@" + s[i + 1..];
      (s[..i], s[i + 1..])
  }

  /** With no `@`, or with `@` only in front (a scope), the string is all name. */
  lemma DecomposeNoVersion(s: string)
    requires '@' !in s || (s[0] == '@' && '@' !in s[1..])
    ensures DecomposePackageNameVersion(s) == (s, "")
  {
  }

  /** The cache directory layout `npm/registry.npmjs.org/<name>/<version>/...`. */
  function CacheRelativePath(segs: seq<string>): string
    requires |segs| >= 2
  {
    var (name, version) := DecomposePackageNameVersion(segs[1]);
    Join(["npm", "registry.npmjs.org", name, version] + segs[2..], "/")
  }

  /** `toCacheURL(url, cacheRoot)`: the pathname's first segment names the
      package; reading a missing first segment throws. */
  function ToCacheURL(url: Url, cacheRoot: Url): (r: Result<Url>)
    ensures |Split(Pathname(url), '/')| < 2 ==> r.Err?
  {
    var segs := Split(Pathname(url), '/');
    if |segs| < 2 then Err("TypeError: Cannot read properties of undefined (reading 'lastIndexOf')")
    else Need(Resolve(CacheRelativePath(segs), cacheRoot), "TypeError: Invalid URL")
  }

  /** The cache URL depends on nothing but the pathname and the cache root. */
  lemma ToCacheURLPathnameOnly(u: Url, v: Url, cacheRoot: Url)
    requires Pathname(u) == Pathname(v)
    ensures ToCacheURL(u, cacheRoot) == ToCacheURL(v, cacheRoot)
  {
  }

  /** For a hierarchical package URL and a directory cache root, the cache URL
      is the root's directory followed by `npm`, `registry.npmjs.org`, the
      name, the version and then every later pathname segment, verbatim and
      in order (so a trailing `/` survives as a final empty segment). */
  lemma ToCacheURLSegments(url: Url, cacheRoot: Url)
    requires url.path.Hier? && |url.path.segments| >= 1
    requires forall i :: 0 <= i < |url.path.segments| ==> PlainSegment(url.path.segments[i])
    requires PlainSegment(DecomposePackageNameVersion(url.path.segments[0]).0)
    requires PlainSegment(DecomposePackageNameVersion(url.path.segments[0]).1)
    requires cacheRoot.path.Hier? && |cacheRoot.path.segments| >= 1
    requires Clean(cacheRoot.path.segments)
    ensures ToCacheURL(url, cacheRoot) == Ok(cacheRoot.(
              path := Hier(DirectoryOf(cacheRoot.path.segments) + CacheSegments(url.path.segments)),
              query := None, fragment := None))
  {
    var segs := url.path.segments;
    var pieces := CacheSegments(segs);
    CacheSegmentsPlain(segs);
    CachePathHasNoScheme(pieces);
    ResolvePlainSegments(pieces, cacheRoot);
    CacheRelativePathOfSegments(segs);
  }

  lemma CacheSegmentsPlain(segs: seq<string>)
    requires |segs| >= 1
    requires forall i :: 0 <= i < |segs| ==> PlainSegment(segs[i])
    requires PlainSegment(DecomposePackageNameVersion(segs[0]).0)
    requires PlainSegment(DecomposePackageNameVersion(segs[0]).1)
    ensures |CacheSegments(segs)| >= 2 && CacheSegments(segs)[0] == "npm"
    ensures forall i :: 0 <= i < |CacheSegments(segs)| ==> PlainSegment(CacheSegments(segs)[i])
  {
    var pieces := CacheSegments(segs);
    var (name, version) := DecomposePackageNameVersion(segs[0]);
    assert pieces == ["npm", "registry.npmjs.org", name, version] + segs[1..];
    RegistryPlain();
    forall i | 0 <= i < |pieces| ensures PlainSegment(pieces[i]) {
      if i >= 4 { assert pieces[i] == segs[i - 3]; }
    }
  }

  lemma RegistryPlain()
    ensures PlainSegment("npm") && PlainSegment("registry.npmjs.org")
  {
  }

  function DirectoryOf(segs: seq<string>): seq<string>
    requires |segs| >= 1
  {
    segs[..|segs| - 1]
  }

  /** `npm`, `registry.npmjs.org`, name, version, then the segments after the package. */
  function CacheSegments(segs: seq<string>): seq<string>
    requires |segs| >= 1
  {
    var (name, version) := DecomposePackageNameVersion(segs[0]);
    ["npm", "registry.npmjs.org", name, version] + segs[1..]
  }

  lemma CacheRelativePathOfSegments(segs: seq<string>)
    requires |segs| >= 1
    requires forall i :: 0 <= i < |segs| ==> '/' !in segs[i]
    ensures |Split(PathString(Hier(segs)), '/')| >= 2
    ensures CacheRelativePath(Split(PathString(Hier(segs)), '/')) == Join(CacheSegments(segs), "/")
  {
    PathStringSplit(segs);
    assert ([""] + segs)[2..] == segs[1..];
  }

  lemma CachePathHasNoScheme(pieces: seq<string>)
    requires |pieces| >= 2 && pieces[0] == "npm"
    ensures SchemeEnd(Join(pieces, "/")).None?
  {
    var p := Join(pieces, "/");
    assert p == "npm" + "/" + Join(pieces[1..], "/");
    assert p[0] == 'n' && p[1] == 'p' && p[2] == 'm' && p[3] == '/';
  }

  lemma DecomposeReact()
    ensures DecomposePackageNameVersion("react@1.0.0") == ("react", "1.0.0")
  {
    var s := "react@1.0.0";
    assert s[5] == '@';
    assert LastIndexOf(s, '@') == 5;
    assert s[..5] == "react";
    assert s[6..] == "1.0.0";
  }

  /** A version that itself holds `@` is cut at its last `@`: the name keeps
      everything before it, `_react` included. */
  lemma DecomposePeerSuffixed()
    ensures DecomposePackageNameVersion("react-dom@18.2.0_react@18.2.0") == ("react-dom@18.2.0_react", "18.2.0")
  {
    var s := "react-dom@18.2.0_react@18.2.0";
    assert s[22] == '@' && s[23..] == "18.2.0";
    assert LastIndexOf(s, '@') == 22;
    assert s[..22] == "react-dom@18.2.0_react";
  }

  /** `npm:/react@1.0.0/package.json` under `file:///cache/` is cached at
      `file:///cache/npm/registry.npmjs.org/react/1.0.0/package.json`. */
  lemma ToCacheURLReact(u: Url, root: Url)
    requires u == Url("npm", None, Hier(["react@1.0.0", "package.json"]), None, None)
    requires root == Url("file", Some(""), Hier(["cache", ""]), None, None)
    ensures ToCacheURL(u, root)
            == Ok(Url("file", Some(""), Hier(["cache", "npm", "registry.npmjs.org", "react", "1.0.0", "package.json"]), None, None))
  {
    ReactPlain(u.path.segments, root.path.segments);
    ToCacheURLSegments(u, root);
    ReactSegments(u.path.segments, root.path.segments);
  }

  lemma ReactPlain(segs: seq<string>, rsegs: seq<string>)
    requires segs == ["react@1.0.0", "package.json"] && rsegs == ["cache", ""]
    ensures forall i :: 0 <= i < |segs| ==> PlainSegment(segs[i])
    ensures PlainSegment(DecomposePackageNameVersion(segs[0]).0)
    ensures PlainSegment(DecomposePackageNameVersion(segs[0]).1)
    ensures Clean(rsegs)
  {
    DecomposeReact();
    PlainReactSegments();
    PlainReactParts();
  }

  lemma PlainReactSegments()
    ensures PlainSegment("react@1.0.0") && PlainSegment("package.json")
  {
  }

  lemma PlainReactParts()
    ensures PlainSegment("react") && PlainSegment("1.0.0")
  {
  }

  lemma ReactSegments(segs: seq<string>, rsegs: seq<string>)
    requires segs == ["react@1.0.0", "package.json"] && rsegs == ["cache", ""]
    ensures DirectoryOf(rsegs) + CacheSegments(segs)
            == ["cache", "npm", "registry.npmjs.org", "react", "1.0.0", "package.json"]
  {
    DecomposeReact();
    assert DirectoryOf(rsegs) == ["cache"];
    assert CacheSegments(segs) == ["npm", "registry.npmjs.org", "react", "1.0.0"] + ["package.json"];
  }
}
