/** src/npm/coreModule.ts: recognising imports of Node.js built-in modules. */
module NpmCoreModule {
  import opened Wrappers
  import opened Strs
  import opened Urls

  /** The list as the source writes it, misspellings and all
      (`readline/promises.js`, `pref_hooks`, `querystrings`). */
  const CoreModuleNames: seq<string> := [
    "assert", "async_hooks", "buffer", "child_process", "cluster", "console",
    "constants", "crypto", "dgram", "diagnostics_channel", "dns", "domain",
    "events", "fs", "http", "http2", "https", "inspector",
    "readline/promises.js", "module", "net", "os", "path", "pref_hooks",
    "process", "punycode", "querystrings", "readline", "repl", "stream",
    "string_decoder", "sys", "test", "timers", "tls", "trace_events", "tty",
    "url", "util", "v8", "vm", "wasi", "worker_threads", "zlib"]

  lemma ParseNode(rest: string)
    ensures Parse("node:" + rest).Some? && Parse("node:" + rest).value.scheme == "node"
  {
    assert ValidScheme("node");
    assert "node" + ":" + rest == "node:" + rest;
    SchemeEndOfScheme("node", rest);
    assert ("node:" + rest)[..4] == "node";
  }

  /** `node:<name>` for a name with no query, fragment or leading `/` is the
      URL whose opaque path is the name. */
  lemma ParseNodeName(n: string)
    requires '?' !in n && '#' !in n && (|n| > 0 ==> n[0] != '/')
    ensures Parse("node:" + n) == Some(Url("node", None, Opaque(n), None, None))
  {
    var u := Url("node", None, Opaque(n), None, None);
    assert ValidScheme("node");
    assert Href(u) == "node:" + n;
    ParseHref(u);
  }

  /** `resolveCoreModuleImport(moduleName)`: a `node:` URL is taken as it is,
      a listed name gets the `node:` scheme, anything else is not a core module. */
  function ResolveCoreModuleImport(moduleName: string): (r: Option<Url>)
    ensures r.Some? <==> StartsWith(moduleName, "node:") || moduleName in CoreModuleNames
    ensures r.Some? ==> r.value.scheme == "node"
    ensures StartsWith(moduleName, "node:") ==> r == Parse(moduleName)
    ensures !StartsWith(moduleName, "node:") && moduleName in CoreModuleNames ==>
              r == Parse("node:" + moduleName)
  {
    if StartsWith(moduleName, "node:") then
      assert moduleName == "node:" + moduleName[5..];
      ParseNode(moduleName[5..]);
      Parse(moduleName)
    else if moduleName in CoreModuleNames then
      ParseNode(moduleName);
      Parse("node:" + moduleName)
    else None
  }

  /** `http` resolves to `node:http`. */
  lemma HttpIsCore()
    ensures ResolveCoreModuleImport("http") == Some(Url("node", None, Opaque("http"), None, None))
  {
    assert !StartsWith("http", "node:");
    assert CoreModuleNames[14] == "http";
    ParseNodeName("http");
  }

  /** Every core module name starts with a lowercase letter. */
  lemma CoreNameLetter(i: nat)
    requires i < |CoreModuleNames|
    ensures var n := CoreModuleNames[i]; |n| > 0 && 'a' <= n[0] <= 'z'
  {
    if i < 11 {
    } else if i < 22 {
    } else if i < 33 {
    } else {
    }
  }

  /** A name that starts with `/` or `.` is no core module name. */
  lemma NotCoreName(n: string)
    requires |n| > 0 && (n[0] == '/' || n[0] == '.')
    ensures n !in CoreModuleNames
  {
    forall i | 0 <= i < |CoreModuleNames| ensures CoreModuleNames[i] != n {
      CoreNameLetter(i);
    }
  }
}
