/** src/npm/moduleName.ts: taking an `npm:` specifier apart into package
    name, version and path. The source matches two regular expressions; this
    module is a hand-written parser that follows their backtracking:
    `npm:` and an optional `/` (tried consumed first), then either
    `name@version` (first expression) or an unversioned `name` or
    `@scope/name` (second expression), then the rest as the path. */
module NpmModuleName {
  import opened Wrappers
  import opened Strs

  datatype ModuleName = ModuleName(name: string, version: Option<string>, fullName: string, path: string)

  /** End of the longest run of characters other than `/` starting at `i`. */
  function NonSlashEnd(t: string, i: nat): (j: nat)
    requires i <= |t|
    ensures i <= j <= |t|
    ensures forall k :: i <= k < j ==> t[k] != '/'
    ensures j == |t| || t[j] == '/'
    decreases |t| - i
  {
    if i == |t| || t[i] == '/' then i else NonSlashEnd(t, i + 1)
  }

  /** A match: the package name, the version when one was captured, and the
      unmatched rest that the optional path group takes. */
  datatype Match = Match(name: string, version: Option<string>, rest: string)

  /** `[^@]*@(?<version>[^/]+)` from `from`: the name runs up to the first
      `@` at or after `from`, the version is the longest run without `/`. */
  function VersionedAt(t: string, from: nat): Option<Match>
    requires from <= |t|
  {
    match IndexOf(t[from..], '@')
    case None => None
    case Some(k) => VersionAfter(t, from + k)
  }

  /** `@(?<version>[^/]+)` with the `@` at `j`: the name is everything before it. */
  function VersionAfter(t: string, j: nat): Option<Match>
    requires j < |t|
  {
    var e := NonSlashEnd(t, j + 1);
    if e == j + 1 then None
    else Some(Match(t[..j], Some(t[j + 1..e]), t[e..]))
  }

  /** What `VersionedAt` captures: the name, `@`, a version without `/`
      and a rest that is empty or starts a path spell `t` out again. */
  lemma VersionedAtShape(t: string, from: nat)
    requires from <= |t|
    ensures var m := VersionedAt(t, from);
      m.Some? ==>
        && m.value.version.Some? && m.value.name + "@" + m.value.version.value + m.value.rest == t
        && |m.value.name| >= from && '@' !in m.value.name[from..]
        && |m.value.version.value| > 0 && '/' !in m.value.version.value
        && (m.value.rest == "" || m.value.rest[0] == '/')
  {
    match IndexOf(t[from..], '@')
    case None =>
    case Some(k) =>
      var j := from + k;
      var e := NonSlashEnd(t, j + 1);
      if e != j + 1 {
        assert VersionedAt(t, from) == Some(Match(t[..j], Some(t[j + 1..e]), t[e..]));
        assert t[j] == t[from..][k] == '@';
        PrefixDrop(t, from, j);
        CutAround(t, j, e);
      }
  }

  /** `(?<pkgName>@?[^/][^@]*)@(?<version>[^/]+)`, with `@?` tried consumed first. */
  function Versioned(t: string): Option<Match> {
    var scoped := if |t| >= 2 && t[0] == '@' && t[1] != '/' then VersionedAt(t, 2) else None;
    if scoped.Some? then scoped
    else if |t| >= 1 && t[0] != '/' then VersionedAt(t, 1)
    else None
  }

  /** What a match of the first expression on `u` looks like: a name that
      does not start with `/` (and holds no `@` unless it is scoped), `@`,
      the version, the rest, spelling `u` out again. */
  predicate VersionedShaped(m: Match, u: string) {
    && m.version.Some? && m.name + "@" + m.version.value + m.rest == u
    && |m.name| >= 1 && m.name[0] != '/'
    && (m.name[0] != '@' ==> '@' !in m.name)
    && |m.version.value| > 0 && '/' !in m.version.value
    && (m.rest == "" || m.rest[0] == '/')
  }

  lemma VersionedShape(t: string)
    ensures Versioned(t).Some? ==> VersionedShaped(Versioned(t).value, t)
  {
    if |t| >= 2 && t[0] == '@' && t[1] != '/' {
      VersionedAtShape(t, 2);
      var m := VersionedAt(t, 2);
      if m.Some? { assert t[0] == m.value.name[0]; }
    }
    if |t| >= 1 && t[0] != '/' {
      VersionedAtShape(t, 1);
      var m := VersionedAt(t, 1);
      if m.Some? {
        assert t[0] == m.value.name[0];
        if t[0] != '@' { NotInAfterHead(m.value.name, '@'); }
      }
    }
  }

  /** `(?<pkgName>[^@][^/]+|@[^/]+\/[^/]+)`: an unversioned name or scope/name. */
  function Unversioned(t: string): Option<Match> {
    if |t| >= 2 && t[0] != '@' && t[1] != '/' then
      var e := NonSlashEnd(t, 1);
      Some(Match(t[..e], None, t[e..]))
    else if |t| >= 2 && t[0] == '@' && t[1] != '/' then
      var e1 := NonSlashEnd(t, 1);
      if e1 + 1 < |t| && t[e1 + 1] != '/' then
        var e2 := NonSlashEnd(t, e1 + 1);
        Some(Match(t[..e2], None, t[e2..]))
      else None
    else None
  }

  /** What a match of the second expression on `u` looks like: a name of
      two or more characters and the rest, which together spell `u`. */
  predicate UnversionedShaped(m: Match, u: string) {
    m.name + m.rest == u && m.version.None? && |m.name| >= 2 && (m.rest == "" || m.rest[0] == '/')
  }

  lemma UnversionedShape(t: string)
    ensures Unversioned(t).Some? ==> UnversionedShaped(Unversioned(t).value, t)
  {
    var m := Unversioned(t);
    if m.Some? {
      SplitAt(t, |m.value.name|);
    }
  }

  /** `^npm:\/?<body>`: the body is tried after a consumed `/` first, then
      with the `/` left to the body. */
  function AfterPrefix(s: string, body: string -> Option<Match>): Option<Match>
    requires StartsWith(s, "npm:")
  {
    var t := s[4..];
    if |t| > 0 && t[0] == '/' then
      var m := body(t[1..]);
      if m.Some? then m else body(t)
    else body(t)
  }

  /** The match the two expressions make on a specifier starting with `npm:`. */
  function PackageMatch(s: string): Option<Match>
    requires StartsWith(s, "npm:")
  {
    var m1 := AfterPrefix(s, Versioned);
    if m1.Some? then m1 else AfterPrefix(s, Unversioned)
  }

  /** The facts about a match that `DecomposeNPMModuleURL` promises. */
  predicate Captured(m: Match) {
    && (m.version.Some? ==>
          && |m.version.value| > 0 && '/' !in m.version.value
          && |m.name| > 0 && m.name[0] != '/'
          && (m.name[0] != '@' ==> '@' !in m.name))
    && (m.rest == "" || m.rest[0] == '/')
  }

  lemma PackageMatchCaptured(s: string)
    requires StartsWith(s, "npm:")
    ensures PackageMatch(s).Some? ==> Captured(PackageMatch(s).value)
  {
    var t := s[4..];
    VersionedShape(t);
    UnversionedShape(t);
    if |t| > 0 {
      VersionedShape(t[1..]);
      UnversionedShape(t[1..]);
    }
  }

  /** The result object built from a match: the path defaults to `/`. */
  function Assemble(m: Match): ModuleName {
    ModuleName(
      m.name,
      m.version,
      if m.version.Some? && m.version.value != "" then m.name + "@" + m.version.value else m.name,
      if m.rest == "" then "/" else m.rest)
  }

  /** `decomposeNPMModuleURL(moduleSpecifier)` */
  function DecomposeNPMModuleURL(s: string): (r: Option<ModuleName>)
    ensures r.Some? ==> StartsWith(s, "npm:")
    ensures r.Some? ==> |r.value.path| > 0 && r.value.path[0] == '/'
    ensures r.Some? && r.value.version.Some? ==>
              r.value.fullName == r.value.name + "@" + r.value.version.value
              && |r.value.version.value| > 0 && '/' !in r.value.version.value
              && |r.value.name| > 0 && r.value.name[0] != '/'
              && (r.value.name[0] != '@' ==> '@' !in r.value.name)
    ensures r.Some? && r.value.version.None? ==> r.value.fullName == r.value.name
  {
    if !StartsWith(s, "npm:") then None
    else
      PackageMatchCaptured(s);
      match PackageMatch(s)
      case None => None
      case Some(m) => Some(Assemble(m))
  }

  /** The string facts behind `DecomposeReassembles`: the input after
      `npm:` and an optional `/` splits into the full name and the rest. */
  lemma Reassemble(s: string, input: string, fullName: string, rest: string)
    requires StartsWith(s, "npm:")
    requires s[4..] == input || s[4..] == "/" + input
    requires fullName + rest == input
    ensures var path := if rest == "" then "/" else rest;
            || s == "npm:" + fullName + path
            || s == "npm:/" + fullName + path
            || (path == "/" && (s == "npm:" + fullName || s == "npm:/" + fullName))
  {
    SplitAt(s, 4);
    AppendEmpty(fullName);
    var prefix := "npm:";
    if s[4..] != input {
      AppendAssoc("npm:", "/", input);
      prefix := "npm:/";
    }
    assert s == prefix + (fullName + rest);
    AppendAssoc(prefix, fullName, rest);
  }

  /** The parts put back together give the specifier again: `npm:`, the
      optional `/`, the full name, then the path (absent when it defaulted). */
  lemma DecomposeReassembles(s: string)
    requires DecomposeNPMModuleURL(s).Some?
    ensures var r := DecomposeNPMModuleURL(s).value;
            || s == "npm:" + r.fullName + r.path
            || s == "npm:/" + r.fullName + r.path
            || (r.path == "/" && (s == "npm:" + r.fullName || s == "npm:/" + r.fullName))
  {
    var t := s[4..];
    var r := DecomposeNPMModuleURL(s).value;
    VersionedShape(t);
    UnversionedShape(t);
    if |t| > 0 {
      VersionedShape(t[1..]);
      UnversionedShape(t[1..]);
    }
    var slashed := |t| > 0 && t[0] == '/';
    if slashed {
      SplitFirst(t, '/');
    }
    var input: string;
    var m: Match;
    if slashed && Versioned(t[1..]).Some? {
      input, m := t[1..], Versioned(t[1..]).value;
    } else if Versioned(t).Some? {
      input, m := t, Versioned(t).value;
    } else if slashed && Unversioned(t[1..]).Some? {
      input, m := t[1..], Unversioned(t[1..]).value;
    } else {
      input, m := t, Unversioned(t).value;
    }
    assert r.fullName + m.rest == input;
    assert r.path == if m.rest == "" then "/" else m.rest;
    Reassemble(s, input, r.fullName, m.rest);
  }

  /** `npm:x` and `npm:/x` decompose alike whenever `npm:x` decomposes. */
  lemma SlashIsOptional(t: string)
    requires |t| == 0 || t[0] != '/'
    requires DecomposeNPMModuleURL("npm:" + t).Some?
    ensures DecomposeNPMModuleURL("npm:/" + t) == DecomposeNPMModuleURL("npm:" + t)
  {
    SlashPrefixes(t);
    VersionedSlashFails(t);
  }

  /** What follows `npm:` and `npm:/` in the two spellings. */
  lemma SlashPrefixes(t: string)
    ensures StartsWith("npm:" + t, "npm:") && ("npm:" + t)[4..] == t
    ensures StartsWith("npm:/" + t, "npm:") && ("npm:/" + t)[4..] == "/" + t
    ensures ("/" + t)[0] == '/' && ("/" + t)[1..] == t
  {
    assert ("npm:/" + t)[4..] == "/" + t;
  }

  lemma {:induction false} NonSlashEndAt(t: string, i: nat, j: nat)
    requires i <= j <= |t|
    requires forall k :: i <= k < j ==> t[k] != '/'
    requires j == |t| || t[j] == '/'
    ensures NonSlashEnd(t, i) == j
    decreases j - i
  {
    if i < j {
      NonSlashEndAt(t, i + 1, j);
    }
  }

  lemma IndexOfAt(s: string, c: char, k: nat)
    requires k < |s| && s[k] == c && c !in s[..k]
    ensures IndexOf(s, c) == Some(k)
  {
  }

  /** The run without `/` that starts after `a` covers `v` when `p` is
      empty or starts with `/`. */
  lemma NonSlashEndOver(a: string, v: string, p: string)
    requires '/' !in v && (p == "" || p[0] == '/')
    ensures NonSlashEnd(a + v + p, |a|) == |a| + |v|
  {
    var t := a + v + p;
    forall k | |a| <= k < |a| + |v| ensures t[k] != '/' {
      assert t[k] == v[k - |a|];
    }
    NonSlashEndAt(t, |a|, |a| + |v|);
  }

  /** The three pieces of `n + "@" + version + path`. */
  lemma VersionedPieces(n: string, version: string, path: string)
    ensures var t := n + "@" + version + path;
      var j := |n|;
      var e := j + 1 + |version|;
      && |t| == e + |path|
      && t[..j] == n && t[j + 1..e] == version && t[e..] == path
      && n + "@" + version + path == n + "@" + (version + path)
  {
  }

  /** A name followed by `@version` and a path: the name runs to the first
      `@` after its first character, the version to the next `/`. */
  lemma VersionedMatch(n: string, version: string, path: string)
    requires |n| >= 1 && n[0] != '/' && '@' !in n[1..] && (n[0] == '@' ==> |n| >= 2)
    requires |version| >= 1 && '/' !in version
    requires path == "" || path[0] == '/'
    ensures Versioned(n + "@" + version + path) == Some(Match(n, Some(version), path))
  {
    var t := n + "@" + version + path;
    var from := if n[0] == '@' && n[1] != '/' then 2 else 1;
    assert '@' !in n[from..] by {
      if from == 2 { assert n[2..] == n[1..][1..]; }
    }
    AtFirstAt(n, version, path, from);
    AfterVersion(n, version, path);
    assert t[0] == n[0] && (|n| >= 2 ==> t[1] == n[1]);
    VersionedFrom(t, from, Match(n, Some(version), path));
  }

  /** `Versioned` tries the scoped start exactly when `t` begins with `@`
      and a character other than `/`. */
  lemma VersionedFrom(t: string, from: nat, m: Match)
    requires |t| >= 1 && t[0] != '/'
    requires from == if |t| >= 2 && t[0] == '@' && t[1] != '/' then 2 else 1
    requires from <= |t| && VersionedAt(t, from) == Some(m)
    ensures Versioned(t) == Some(m)
  {
  }

  /** From `from` on, the first `@` is the one right after the name. */
  lemma AtFirstAt(n: string, version: string, path: string, from: nat)
    requires 1 <= from <= |n| && '@' !in n[from..]
    ensures |n| < |n + "@" + version + path|
    ensures VersionedAt(n + "@" + version + path, from) == VersionAfter(n + "@" + version + path, |n|)
  {
    var t := n + "@" + version + path;
    var s := t[from..];
    assert s[..|n| - from] == n[from..];
    IndexOfAt(s, '@', |n| - from);
    VersionedAtIndex(t, from, |n| - from);
  }

  /** After the `@` that ends the name, the version runs to the path. */
  lemma AfterVersion(n: string, version: string, path: string)
    requires |version| >= 1 && '/' !in version
    requires path == "" || path[0] == '/'
    ensures |n| < |n + "@" + version + path|
    ensures VersionAfter(n + "@" + version + path, |n|) == Some(Match(n, Some(version), path))
  {
    var t := n + "@" + version + path;
    VersionedPieces(n, version, path);
    NonSlashEndOver(n + "@", version, path);
    VersionAfterEnd(t, |n|, |n| + 1 + |version|);
  }

  /** `VersionedAt` cuts at the first `@` it finds. */
  lemma VersionedAtIndex(t: string, from: nat, k: nat)
    requires from <= |t| && IndexOf(t[from..], '@') == Some(k)
    ensures from + k < |t| && VersionedAt(t, from) == VersionAfter(t, from + k)
  {
    var s := t[from..];
    assert |s| == |t| - from;
  }

  /** `VersionAfter` takes the version up to the end of the non-`/` run. */
  lemma VersionAfterEnd(t: string, j: nat, e: nat)
    requires j < |t| && NonSlashEnd(t, j + 1) == e && e != j + 1
    ensures VersionAfter(t, j) == Some(Match(t[..j], Some(t[j + 1..e]), t[e..]))
  {
  }

  /** With the optional `/` present, the body is tried on what follows it first. */
  lemma AfterPrefixOf(slash: string, t: string, body: string -> Option<Match>)
    requires slash == "" || slash == "/"
    requires |t| == 0 || t[0] != '/'
    ensures StartsWith("npm:" + slash + t, "npm:")
    ensures AfterPrefix("npm:" + slash + t, body)
            == if slash == "" || body(t).Some? then body(t) else body(slash + t)
  {
    var s := "npm:" + slash + t;
    assert s == "npm:" + (slash + t);
    assert s[4..] == slash + t;
    assert (slash + t)[|slash|..] == t;
  }

  /** `npm:` or `npm:/`, then `name@version` and a path, decomposes into exactly those. */
  lemma DecomposeVersioned(slash: string, n: string, version: string, path: string)
    requires slash == "" || slash == "/"
    requires |n| >= 1 && n[0] != '/' && '@' !in n[1..] && (n[0] == '@' ==> |n| >= 2)
    requires |version| >= 1 && '/' !in version
    requires path == "" || path[0] == '/'
    ensures DecomposeNPMModuleURL("npm:" + slash + n + "@" + version + path)
            == Some(ModuleName(n, Some(version), n + "@" + version, if path == "" then "/" else path))
  {
    var t := n + "@" + version + path;
    assert "npm:" + slash + n + "@" + version + path == "npm:" + slash + t;
    VersionedMatch(n, version, path);
    AfterPrefixOf(slash, t, Versioned);
  }

  /** An unversioned, unscoped name of two or more characters, then a path. */
  lemma UnscopedMatch(n: string, path: string)
    requires |n| >= 2 && n[0] != '@' && '/' !in n && '@' !in n
    requires '@' !in path && (path == "" || path[0] == '/')
    ensures Versioned(n + path).None?
    ensures Unversioned(n + path) == Some(Match(n, None, path))
  {
    var t := n + path;
    assert '@' !in t;
    assert '@' !in t[1..] && '@' !in t[2..];
    assert t[..|n|] == n && t[|n|..] == path;
    assert t[0] == n[0] && t[1] == n[1];
    forall k | 1 <= k < |n| ensures t[k] != '/' {
      assert t[k] == n[k];
    }
    NonSlashEndAt(t, 1, |n|);
  }

  /** `@scope/name` without a version, then a path. */
  lemma ScopedMatch(scope: string, pkg: string, path: string)
    requires |scope| >= 1 && '/' !in scope && '@' !in scope
    requires |pkg| >= 1 && '/' !in pkg && '@' !in pkg
    requires '@' !in path && (path == "" || path[0] == '/')
    ensures Versioned("@" + scope + "/" + pkg + path).None?
    ensures Unversioned("@" + scope + "/" + pkg + path) == Some(Match("@" + scope + "/" + pkg, None, path))
  {
    var n := "@" + scope + "/" + pkg;
    var t := n + path;
    assert t == "@" + scope + "/" + pkg + path;
    assert '@' !in t[1..] by {
      assert t[1..] == scope + "/" + pkg + path;
    }
    assert t[1..][1..] == t[2..];
    var e1 := 1 + |scope|;
    var e2 := e1 + 1 + |pkg|;
    assert t[1] == scope[0];
    assert t[e1] == '/';
    assert t[e1 + 1] == pkg[0];
    forall k | 1 <= k < e1 ensures t[k] != '/' {
      assert t[k] == scope[k - 1];
    }
    forall k | e1 + 1 <= k < e2 ensures t[k] != '/' {
      assert t[k] == pkg[k - e1 - 1];
    }
    assert t[..e2] == n && t[e2..] == path;
    NonSlashEndAt(t, 1, e1);
    NonSlashEndAt(t, e1 + 1, e2);
  }

  lemma VersionedSlashFails(t: string)
    ensures Versioned("/" + t).None?
  {
  }

  /** An unversioned name that is unscoped and two or more characters long,
      or `@scope/name`. */
  ghost predicate UnversionedName(n: string) {
    || (|n| >= 2 && n[0] != '@' && '/' !in n && '@' !in n)
    || (exists scope, pkg :: n == "@" + scope + "/" + pkg
          && |scope| >= 1 && '/' !in scope && '@' !in scope
          && |pkg| >= 1 && '/' !in pkg && '@' !in pkg)
  }

  /** Such a name, then a path without `@`: only the second expression matches. */
  lemma UnversionedNameMatch(n: string, path: string)
    requires UnversionedName(n)
    requires '@' !in path && (path == "" || path[0] == '/')
    ensures |n + path| > 0 && (n + path)[0] != '/'
    ensures Versioned(n + path).None?
    ensures Unversioned(n + path) == Some(Match(n, None, path))
  {
    if |n| >= 2 && n[0] != '@' && '/' !in n && '@' !in n {
      UnscopedMatch(n, path);
    } else {
      var scope, pkg :| n == "@" + scope + "/" + pkg
                   && |scope| >= 1 && '/' !in scope && '@' !in scope
                   && |pkg| >= 1 && '/' !in pkg && '@' !in pkg;
      ScopedMatch(scope, pkg, path);
    }
    assert (n + path)[0] == n[0];
  }

  /** An unversioned name and a path without `@` decompose into that name and path. */
  lemma DecomposeUnversioned(slash: string, n: string, path: string)
    requires slash == "" || slash == "/"
    requires '@' !in path && (path == "" || path[0] == '/')
    requires UnversionedName(n)
    ensures DecomposeNPMModuleURL("npm:" + slash + n + path)
            == Some(ModuleName(n, None, n, if path == "" then "/" else path))
  {
    var t := n + path;
    AppendAssoc("npm:" + slash, n, path);
    UnversionedNameMatch(n, path);
    AfterPrefixOf(slash, t, Versioned);
    AfterPrefixOf(slash, t, Unversioned);
    VersionedSlashFails(t);
    assert PackageMatch("npm:" + slash + t) == Some(Match(n, None, path));
  }

  /** A one-character unversioned name matches neither expression. */
  lemma ShortNameRejected()
    ensures DecomposeNPMModuleURL("npm:a").None?
  {
  }

  /** With the `/` present, the second expression's retry without it keeps
      the `/` in the name. */
  lemma ShortNameAfterSlash()
    ensures DecomposeNPMModuleURL("npm:/a") == Some(ModuleName("/a", None, "/a", "/"))
  {
    var s := "npm:/a";
    assert s[4..] == "/a";
    assert "/a"[1..] == "a";
    assert Versioned("a") == None;
    assert Versioned("/a") == None;
    assert Unversioned("a") == None;
    assert NonSlashEnd("/a", 1) == 2;
    assert "/a"[..2] == "/a" && "/a"[2..] == "";
    assert Unversioned("/a") == Some(Match("/a", None, ""));
  }
}
