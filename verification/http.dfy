/** src/http.ts: how a remote (http/https) import is resolved against its
    importer, and where the Deno cache keeps the file of a remote URL:
    `deps/<scheme>/<hostname>/<hex SHA-256 of the pathname>` under the cache
    root. SHA-256 (FIPS 180-4) is not modelled; it is the parameter `sha256`,
    a function from bytes to bytes. */
module Http {
  import opened Wrappers
  import opened Strs
  import opened Urls
  import CacheFiles
  import opened LegacyImportMaps

  type Digest = seq<Byte> -> seq<Byte>

  // ---------------------------------------------------------------------------
  // Import resolution

  /** The URL of a specifier before any import map: a URL as it is, a path
      (`/`, `./`, `../`) against the importer, and nothing for a bare name. */
  function DirectUrl(moduleName: string, importer: Url): Result<Option<Url>> {
    match Parse(moduleName)
    case Some(u) => Ok(Some(u))
    case None =>
      if IsPathLike(moduleName) then
        var u :- Need(Resolve(moduleName, importer), CacheFiles.InvalidURLError);
        Ok(Some(u))
      else Ok(None)
  }

  /** `resolveImport(moduleName, importer, importMapResolver)`; `resolver`
      is the state of the import-map resolver, when one is given. With a
      resolver, its answer for the importer's directory replaces the URL. */
  function ResolveImport(moduleName: string, importer: Url, resolver: Option<LegacyState>): Result<Option<Url>> {
    var url :- DirectUrl(moduleName, importer);
    match resolver
    case None => Ok(url)
    case Some(st) =>
      var importerDirname :- Need(Resolve(".", importer), CacheFiles.InvalidURLError);
      LegacyResolve(st, if url.Some? then Href(url.value) else moduleName, importerDirname)
  }

  /** An absolute URL is returned as it is. */
  lemma UrlSpecifierKept(moduleName: string, importer: Url)
    requires Parse(moduleName).Some?
    ensures ResolveImport(moduleName, importer, None) == Ok(Parse(moduleName))
  {
  }

  /** `/`, `./` and `../` specifiers are resolved against the importer. */
  lemma PathSpecifierResolved(moduleName: string, importer: Url)
    requires Parse(moduleName).None? && IsPathLike(moduleName)
    ensures ResolveImport(moduleName, importer, None) ==
            if Resolve(moduleName, importer).Some? then Ok(Resolve(moduleName, importer))
            else Err(CacheFiles.InvalidURLError)
  {
  }

  /** A bare specifier resolves to nothing without a resolver. */
  lemma BareSpecifierNull(moduleName: string, importer: Url)
    requires Parse(moduleName).None? && !IsPathLike(moduleName)
    ensures ResolveImport(moduleName, importer, None) == Ok(None)
  {
  }

  /** With a resolver, a URL the resolver has no entry for is dropped: the
      answer is null although the specifier was a URL. */
  lemma UnmappedUrlDropped(moduleName: string, importer: Url, st: LegacyState)
    requires Parse(moduleName).Some? && Resolve(".", importer).Some?
    requires LegacyResolve(st, Href(Parse(moduleName).value), Resolve(".", importer).value) == Ok(None)
    ensures ResolveImport(moduleName, importer, None) == Ok(Parse(moduleName))
    ensures ResolveImport(moduleName, importer, Some(st)) == Ok(None)
  {
  }

  /** A URL specifier and its `href` resolve alike, with or without a resolver. */
  lemma HrefResolvesAlike(moduleName: string, importer: Url, resolver: Option<LegacyState>)
    requires Parse(moduleName).Some? && WellFormed(Parse(moduleName).value)
    ensures ResolveImport(Href(Parse(moduleName).value), importer, resolver) == ResolveImport(moduleName, importer, resolver)
  {
    ParseHref(Parse(moduleName).value);
  }

  // ---------------------------------------------------------------------------
  // Hex digests

  /** A byte, as the elements of a `Uint8Array`. */
  newtype Byte = x: int | 0 <= x < 256

  /** The lowercase hex digit of a value below 16, as `toString(16)` writes it. */
  function HexDigit(n: nat): char
    requires n < 16
  {
    if n < 10 then ('0' as int + n) as char else ('a' as int + n - 10) as char
  }

  predicate IsHexDigit(c: char) {
    ('0' <= c <= '9') || ('a' <= c <= 'f')
  }

  /** `b.toString(16)`: one digit below 16, two from 16 on. */
  function ToHex(b: Byte): (r: string)
    ensures 1 <= |r| <= 2
  {
    var n := b as int;
    if n < 16 then [HexDigit(n)] else [HexDigit(n / 16), HexDigit(n % 16)]
  }

  /** `.padStart(2, '0')` */
  function PadStart2(s: string): string {
    if |s| == 0 then "00" else if |s| == 1 then "0" + s else s
  }

  /** A string of at most two characters ends the padded text, behind
      zeros. */
  lemma PadStart2Pads(s: string)
    requires |s| <= 2
    ensures |PadStart2(s)| == 2 && PadStart2(s)[2 - |s|..] == s
    ensures forall i :: 0 <= i < 2 - |s| ==> PadStart2(s)[i] == '0'
  {
  }

  /** One byte as two lowercase hex digits. */
  function HexByte(b: Byte): string {
    PadStart2(ToHex(b))
  }

  /** The padded digits are the high and the low nibble, in that order. */
  lemma HexByteDigits(b: Byte)
    ensures HexByte(b) == [HexDigit(b as int / 16), HexDigit(b as int % 16)]
  {
    var n := b as int;
    if n < 16 {
      assert n / 16 == 0 && n % 16 == n;
      assert ToHex(b) == [HexDigit(n)];
      assert HexDigit(0) == '0';
    } else {
      assert ToHex(b) == [HexDigit(n / 16), HexDigit(n % 16)];
    }
  }

  /** `Array.from(view).map((b) => b.toString(16).padStart(2, '0')).join('')` */
  function HexString(d: seq<Byte>): string
    decreases |d|
  {
    if |d| == 0 then "" else HexByte(d[0]) + HexString(d[1..])
  }

  /** The value of a lowercase hex digit. */
  function HexValue(c: char): (r: Option<nat>)
    ensures r.Some? <==> IsHexDigit(c)
    ensures r.Some? ==> r.value < 16 && HexDigit(r.value) == c
  {
    if '0' <= c <= '9' then Some(c as int - '0' as int)
    else if 'a' <= c <= 'f' then Some(c as int - 'a' as int + 10)
    else None
  }

  /** Reading a lowercase hex string back into bytes, two digits a byte. */
  function DecodeHex(s: string): Option<seq<Byte>>
    decreases |s|
  {
    if |s| == 0 then Some([])
    else if |s| == 1 then None
    else
      var hi :- HexValue(s[0]);
      var lo :- HexValue(s[1]);
      var rest :- DecodeHex(s[2..]);
      Some([(hi * 16 + lo) as Byte] + rest)
  }

  /** Digits are lowercase hex digits, and their values read back. */
  lemma HexDigitValue(n: nat)
    requires n < 16
    ensures IsHexDigit(HexDigit(n)) && HexValue(HexDigit(n)) == Some(n)
  {
  }

  /** The digest text has two lowercase hex digits per byte (64 characters
      for a SHA-256 digest), and reading it back gives the bytes. */
  lemma {:induction false} HexStringDecodes(d: seq<Byte>)
    ensures |HexString(d)| == 2 * |d|
    ensures forall i :: 0 <= i < |HexString(d)| ==> IsHexDigit(HexString(d)[i])
    ensures DecodeHex(HexString(d)) == Some(d)
    decreases |d|
  {
    HexStringShape(d);
    if |d| > 0 {
      var b, tail := d[0], d[1..];
      HexStringDecodes(tail);
      var hi, lo := b as int / 16, b as int % 16;
      HexStringStep(b, tail);
      assert d == [b] + tail;
      HexDigitValue(hi);
      HexDigitValue(lo);
      var s := HexString(d);
      SplitTwo(s);
      DecodePair(s);
      assert (hi * 16 + lo) as Byte == b;
    }
  }

  /** Two lowercase hex digits per byte. */
  lemma {:induction false} HexStringShape(d: seq<Byte>)
    ensures |HexString(d)| == 2 * |d|
    ensures forall i :: 0 <= i < |HexString(d)| ==> IsHexDigit(HexString(d)[i])
    decreases |d|
  {
    if |d| > 0 {
      var b, tail := d[0], d[1..];
      HexStringShape(tail);
      var rest := HexString(tail);
      HexStringStep(b, tail);
      assert d == [b] + tail;
      HexDigitValue(b as int / 16);
      HexDigitValue(b as int % 16);
      var s := HexString(d);
      forall i | 0 <= i < |s| ensures IsHexDigit(s[i]) {
        if i >= 2 { assert s[i] == rest[i - 2]; }
      }
    }
  }

  /** Every string that reads as bytes is the digest text of those bytes:
      no other spelling (upper case, odd length) is ever produced. */
  lemma {:induction false} DecodeHexWritten(s: string)
    requires DecodeHex(s).Some?
    ensures HexString(DecodeHex(s).value) == s
    decreases |s|
  {
    if |s| > 0 {
      DecodePair(s);
      var hi, lo := HexValue(s[0]).value, HexValue(s[1]).value;
      var b := (hi * 16 + lo) as Byte;
      var rest := DecodeHex(s[2..]).value;
      DecodeHexWritten(s[2..]);
      Nibbles(hi, lo);
      HexStringStep(b, rest);
      SplitTwo(s);
      calc {
        HexString(DecodeHex(s).value);
        HexString([b] + rest);
        [HexDigit(hi), HexDigit(lo)] + HexString(rest);
        [s[0], s[1]] + s[2..];
        s;
      }
    }
  }

  /** The first two digits read as one byte, the rest as the rest. */
  lemma DecodePair(s: string)
    requires |s| >= 2 || DecodeHex(s).Some?
    ensures |s| > 0 && DecodeHex(s).Some? ==> |s| >= 2 && HexValue(s[0]).Some? && HexValue(s[1]).Some?
    ensures |s| >= 2 ==>
              DecodeHex(s) == if HexValue(s[0]).Some? && HexValue(s[1]).Some? && DecodeHex(s[2..]).Some?
                              then Some([(HexValue(s[0]).value * 16 + HexValue(s[1]).value) as Byte] + DecodeHex(s[2..]).value)
                              else None
  {
  }

  lemma SplitTwo(s: string)
    requires |s| >= 2
    ensures s == [s[0], s[1]] + s[2..]
  {
  }

  lemma Nibbles(hi: nat, lo: nat)
    requires hi < 16 && lo < 16
    ensures ((hi * 16 + lo) as Byte) as int / 16 == hi && ((hi * 16 + lo) as Byte) as int % 16 == lo
  {
  }

  /** The text of one more byte: its high and its low digit in front. */
  lemma HexStringStep(b: Byte, rest: seq<Byte>)
    ensures HexString([b] + rest) == [HexDigit(b as int / 16), HexDigit(b as int % 16)] + HexString(rest)
  {
    assert ([b] + rest)[1..] == rest;
    HexByteDigits(b);
  }

  // ---------------------------------------------------------------------------
  // Cache location

  /** `char.charCodeAt(0)` of one code point of the pathname: the code point
      itself, or its high surrogate above U+FFFF. */
  function FirstCodeUnit(c: char): nat {
    if c as int < 0x10000 then c as int else 0xD800 + (c as int - 0x10000) / 0x400
  }

  /** `new Uint8Array(codes)` keeps the low byte of each code. */
  function PathBytes(p: string): (r: seq<Byte>)
    ensures |r| == |p|
    ensures forall i :: 0 <= i < |p| ==> r[i] as int == FirstCodeUnit(p[i]) % 256
  {
    seq(|p|, i requires 0 <= i < |p| => (FirstCodeUnit(p[i]) % 256) as Byte)
  }

  /** Characters below U+0100 are hashed as they are. */
  lemma PathBytesLatin1(p: string)
    requires forall i :: 0 <= i < |p| ==> p[i] as int < 256
    ensures forall i :: 0 <= i < |p| ==> PathBytes(p)[i] as int == p[i] as int
  {
  }

  /** The relative path `deps/<protocol>/<hostname>/<hash>`. */
  function CachePath(url: Url, sha256: Digest): string {
    var protocol := Protocol(url)[..|Protocol(url)| - 1];
    Join(["deps", protocol, Hostname(url), HexString(sha256(PathBytes(Pathname(url))))], "/")
  }

  /** `toCacheURL(url, cacheRoot)` */
  function ToCacheURL(url: Url, cacheRoot: Url, sha256: Digest): Result<Url> {
    Need(Resolve(CachePath(url, sha256), cacheRoot), CacheFiles.InvalidURLError)
  }

  /** Query, fragment, port and credentials never change the cache location:
      it depends only on the scheme, the hostname and the pathname. */
  lemma CacheURLDependsOnHostAndPath(u: Url, v: Url, cacheRoot: Url, sha256: Digest)
    requires u.scheme == v.scheme && Hostname(u) == Hostname(v) && Pathname(u) == Pathname(v)
    ensures ToCacheURL(u, cacheRoot, sha256) == ToCacheURL(v, cacheRoot, sha256)
  {
    assert Protocol(u) == Protocol(v);
  }

  /** The cache path never has a scheme of its own, so it is always resolved
      against the cache root. */
  lemma CachePathRelative(pieces: seq<string>)
    requires |pieces| >= 1 && pieces[0] == "deps"
    ensures SchemeEnd(Join(pieces, "/")).None?
  {
    var s := Join(pieces, "/");
    if |pieces| == 1 {
      assert s == "deps";
    } else {
      assert s == "deps" + "/" + Join(pieces[1..], "/");
      assert s[0] == 'd' && s[1] == 'e' && s[2] == 'p' && s[3] == 's' && s[4] == '/';
    }
  }

  /** The protocol without its `:` is the scheme. */
  lemma ProtocolScheme(url: Url)
    ensures Protocol(url)[..|Protocol(url)| - 1] == url.scheme
  {
  }

  /** Under a directory cache root, the cache file is the root's directory
      followed by `deps`, the scheme, the hostname and the hex digest of the
      pathname, as four segments. */
  lemma ToCacheURLSegments(url: Url, cacheRoot: Url, sha256: Digest)
    requires ValidScheme(url.scheme) && PlainSegment(Hostname(url))
    requires cacheRoot.path.Hier? && |cacheRoot.path.segments| >= 1 && Clean(cacheRoot.path.segments)
    ensures var rsegs := cacheRoot.path.segments;
            var hex := HexString(sha256(PathBytes(Pathname(url))));
            ToCacheURL(url, cacheRoot, sha256) ==
            Ok(cacheRoot.(path := Hier(rsegs[..|rsegs| - 1] + ["deps", url.scheme, Hostname(url), hex]),
                          query := None, fragment := None))
  {
    var hex := HexString(sha256(PathBytes(Pathname(url))));
    var pieces := ["deps", url.scheme, Hostname(url), hex];
    ProtocolScheme(url);
    assert CachePath(url, sha256) == Join(pieces, "/");
    HexDigitsPlain(hex, sha256(PathBytes(Pathname(url))));
    SchemePlain(url.scheme);
    CachePiecesPlain(url.scheme, Hostname(url), hex);
    CachePathRelative(pieces);
    ResolvePlainSegments(pieces, cacheRoot);
  }

  lemma CachePiecesPlain(scheme: string, host: string, hex: string)
    requires PlainSegment(scheme) && PlainSegment(host) && PlainSegment(hex)
    ensures var pieces := ["deps", scheme, host, hex];
            forall i :: 0 <= i < |pieces| ==> PlainSegment(pieces[i])
  {
    DepsPlain();
  }

  lemma DepsPlain()
    ensures PlainSegment("deps") && "deps" != ""
  {
    assert "deps"[0] == 'd';
  }

  /** A digest text is a plain path segment. */
  lemma HexDigitsPlain(hex: string, d: seq<Byte>)
    requires hex == HexString(d)
    ensures PlainSegment(hex)
  {
    HexStringDecodes(d);
    forall i | 0 <= i < |hex| ensures hex[i] != '/' && hex[i] != '?' && hex[i] != '#' && hex[i] != '.' {
      assert IsHexDigit(hex[i]);
    }
    assert '/' !in hex && '?' !in hex && '#' !in hex;
    if |hex| >= 1 { assert hex[0] != '.'; }
  }

  /** A valid scheme is a plain path segment. */
  lemma SchemePlain(s: string)
    requires ValidScheme(s)
    ensures PlainSegment(s)
  {
    forall i | 0 <= i < |s| ensures s[i] != '/' && s[i] != '?' && s[i] != '#' {
      if i > 0 { assert IsSchemeChar(s[i]); }
    }
    assert s[0] != '.';
  }

  // ---------------------------------------------------------------------------
  // The cache location of a known URL

  lemma ExampleHostname()
    ensures Hostname(Url("https", Some("example.com"), Hier(["package", "index.js"]), None, None)) == "example.com"
  {
    var a := "example.com";
    assert '@' !in a && ':' !in a;
    assert LastIndexOf(a, '@') + 1 == 0 && a[0..] == a;
    assert !StartsWith(a, "[") by { assert a[0] == 'e'; }
    assert IndexOf(a, ':') == None;
  }

  lemma ExamplePathname()
    ensures Pathname(Url("https", Some("example.com"), Hier(["package", "index.js"]), None, None)) == "/package/index.js"
  {
    assert Join(["package", "index.js"], "/") == "package" + "/" + Join(["index.js"], "/");
  }

  /** `https://example.com/package/index.js` is cached under `file:///cache/`
      as `file:///cache/deps/https/example.com/<hex digest of /package/index.js>`. */
  lemma CacheURLExample(sha256: Digest)
    ensures var url := Url("https", Some("example.com"), Hier(["package", "index.js"]), None, None);
            var root := Url("file", Some(""), Hier(["cache", ""]), None, None);
            var r := ToCacheURL(url, root, sha256);
            r.Ok? && Href(r.value) == "file:///cache/deps/https/example.com/" + HexString(sha256(PathBytes("/package/index.js")))
  {
    var url := Url("https", Some("example.com"), Hier(["package", "index.js"]), None, None);
    var root := Url("file", Some(""), Hier(["cache", ""]), None, None);
    var hex := HexString(sha256(PathBytes("/package/index.js")));
    ExampleHostname();
    ExamplePathname();
    HttpsScheme();
    ExampleHostPlain();
    CacheRootClean();
    ToCacheURLSegments(url, root, sha256);
    var segs := ["cache", "deps", "https", "example.com", hex];
    assert ["cache", ""][..1] + ["deps", "https", "example.com", hex] == segs;
    var c := root.(path := Hier(segs));
    HrefOfAuthority(c);
    JoinExample(hex);
  }

  lemma JoinExample(hex: string)
    ensures "file" + ":" + ("//" + "" + ("/" + Join(["cache", "deps", "https", "example.com", hex], "/"))) ==
            "file:///cache/deps/https/example.com/" + hex
  {
    var t := "cache/deps/https/example.com/";
    JoinExampleParts(hex);
    FileHrefPrefix(t + hex);
    AppendAssoc("file:///", t, hex);
    ExampleRootText();
  }

  lemma ExampleRootText()
    ensures "file:///" + "cache/deps/https/example.com/" == "file:///cache/deps/https/example.com/"
  {
  }

  lemma JoinExampleParts(hex: string)
    ensures Join(["cache", "deps", "https", "example.com", hex], "/") == "cache/deps/https/example.com/" + hex
  {
    JoinExampleDeps(hex);
    JoinStep("cache", ["deps", "https", "example.com", hex], "deps/https/example.com/", "cache/deps/https/example.com/", hex);
  }

  lemma JoinExampleDeps(hex: string)
    ensures Join(["deps", "https", "example.com", hex], "/") == "deps/https/example.com/" + hex
  {
    JoinExampleHttps(hex);
    JoinStep("deps", ["https", "example.com", hex], "https/example.com/", "deps/https/example.com/", hex);
  }

  lemma JoinExampleHttps(hex: string)
    ensures Join(["https", "example.com", hex], "/") == "https/example.com/" + hex
  {
    JoinExampleHost(hex);
    JoinStep("https", ["example.com", hex], "example.com/", "https/example.com/", hex);
  }

  lemma JoinExampleHost(hex: string)
    ensures Join(["example.com", hex], "/") == "example.com/" + hex
  {
    JoinStep("example.com", [hex], "", "example.com/", hex);
  }

  /** A join whose tail is `tail + hex` gains `x/` in front. */
  lemma JoinStep(x: string, rest: seq<string>, tail: string, whole: string, hex: string)
    requires |rest| >= 1 && Join(rest, "/") == tail + hex && whole == x + "/" + tail
    ensures Join([x] + rest, "/") == whole + hex
  {
    assert ([x] + rest)[1..] == rest;
    AppendAssoc(x + "/", tail, hex);
  }

  lemma FileHrefPrefix(j: string)
    ensures "file" + ":" + ("//" + "" + ("/" + j)) == "file:///" + j
  {
    assert "//" + "" == "//";
    AppendAssoc("//", "/", j);
    AppendAssoc("file" + ":", "///", j);
  }

  lemma HttpsScheme()
    ensures ValidScheme("https")
  {
    assert "https"[0] == 'h' && "https"[1] == 't' && "https"[2] == 't' && "https"[3] == 'p' && "https"[4] == 's';
  }

  lemma ExampleHostPlain()
    ensures PlainSegment("example.com")
  {
    assert "example.com"[0] == 'e';
    assert "example.com" != "." && "example.com" != "..";
  }

  lemma CacheRootClean()
    ensures Clean(["cache", ""])
  {
    assert "cache"[0] == 'c';
  }
}
