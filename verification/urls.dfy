/** The part of the WHATWG URL Standard the resolvers rely on: parsing an
    absolute URL (`new URL(s)`), resolving a reference against a base
    (`new URL(ref, base)`), and reading `href`, `protocol`, `hostname` and
    `pathname`. A URL is a scheme, an optional authority, a path, an optional
    query and an optional fragment. A path that follows the scheme with `/` is
    hierarchical and kept as its `/`-separated segments; any other path is
    opaque (`npm:react`, `node:fs`). References are resolved as in section
    5.2 of RFC 3986, with dot segments removed as in section 5.2.4. */
module Urls {
  import opened Wrappers
  import opened Strs

  datatype Path = Hier(segments: seq<string>) | Opaque(text: string)

  datatype Url = Url(
    scheme: string,
    authority: Option<string>,
    path: Path,
    query: Option<string>,
    fragment: Option<string>)

  function PathString(p: Path): string {
    match p
    case Hier(segs) => "/" + Join(segs, "/")
    case Opaque(t) => t
  }

  /** `url.href` */
  function Href(u: Url): string {
    u.scheme + ":" + HrefAfterScheme(u)
  }

  function HrefAfterScheme(u: Url): string {
    (if u.authority.Some? then "//" + u.authority.value else "")
    + PathString(u.path)
    + (if u.query.Some? then "?" + u.query.value else "")
    + (if u.fragment.Some? then "#" + u.fragment.value else "")
  }

  /** `href` of a URL with no authority, query or fragment. */
  lemma HrefOfPath(u: Url)
    requires u.authority.None? && u.query.None? && u.fragment.None?
    ensures Href(u) == u.scheme + ":" + PathString(u.path)
  {
    EmptyAppend(PathString(u.path));
    AppendEmpty(PathString(u.path));
  }

  /** `href` of a URL with an authority but no query or fragment. */
  lemma HrefOfAuthority(u: Url)
    requires u.authority.Some? && u.query.None? && u.fragment.None?
    ensures Href(u) == u.scheme + ":" + ("//" + u.authority.value + PathString(u.path))
  {
    AppendEmpty("//" + u.authority.value + PathString(u.path));
  }

  /** `url.protocol`: the scheme followed by `:`. */
  function Protocol(u: Url): string {
    u.scheme + ":"
  }

  /** `url.pathname` */
  function Pathname(u: Url): string {
    PathString(u.path)
  }

  /** `url.hostname`: the authority without credentials and port. */
  function Hostname(u: Url): string {
    match u.authority
    case None => ""
    case Some(a) =>
      var h := a[LastIndexOf(a, '@') + 1..];
      if StartsWith(h, "[") then
        match IndexOf(h, ']')
        case Some(i) => h[..i + 1]
        case None => h
      else
        match IndexOf(h, ':')
        case Some(i) => h[..i]
        case None => h
  }

  predicate IsAlpha(c: char) {
    ('a' <= c <= 'z') || ('A' <= c <= 'Z')
  }

  predicate IsSchemeChar(c: char) {
    IsAlpha(c) || ('0' <= c <= '9') || c == '+' || c == '-' || c == '.'
  }

  predicate ValidScheme(s: string) {
    |s| >= 1 && IsAlpha(s[0]) && forall i :: 1 <= i < |s| ==> IsSchemeChar(s[i])
  }

  function SchemeEndFrom(s: string, i: nat): (r: Option<nat>)
    requires 1 <= i <= |s|
    requires ValidScheme(s[..i])
    ensures r.Some? ==> i <= r.value < |s| && s[r.value] == ':' && ValidScheme(s[..r.value])
    decreases |s| - i
  {
    if i == |s| then None
    else if s[i] == ':' then Some(i)
    else if IsSchemeChar(s[i]) then SchemeEndFrom(s, i + 1)
    else None
  }

  /** The index of the `:` that ends a leading scheme, if `s` has one. */
  function SchemeEnd(s: string): (r: Option<nat>)
    ensures r.Some? ==> 1 <= r.value < |s| && s[r.value] == ':' && ValidScheme(s[..r.value])
  {
    if |s| == 0 || !IsAlpha(s[0]) then None else SchemeEndFrom(s, 1)
  }

  /** Splits `s` at the first `c` into what comes before and what comes after. */
  function SplitOff(s: string, c: char): (string, Option<string>) {
    match IndexOf(s, c)
    case None => (s, None)
    case Some(i) => (s[..i], Some(s[i + 1..]))
  }

  function RemoveDotsFrom(out: seq<string>, input: seq<string>): seq<string>
    decreases |input|
  {
    if |input| == 0 then out
    else
      var s, last := input[0], |input| == 1;
      if s == "." then RemoveDotsFrom(out + (if last then [""] else []), input[1..])
      else if s == ".." then
        RemoveDotsFrom((if |out| > 0 then out[..|out| - 1] else []) + (if last then [""] else []), input[1..])
      else RemoveDotsFrom(out + [s], input[1..])
  }

  /** RFC 3986, section 5.2.4, on the segments of an absolute path. */
  function RemoveDots(segs: seq<string>): seq<string> {
    RemoveDotsFrom([], segs)
  }

  /** Segments that dot removal has already normalised. */
  ghost predicate Clean(segs: seq<string>) {
    forall i :: 0 <= i < |segs| ==> segs[i] != "." && segs[i] != ".." && '/' !in segs[i]
  }

  function HierPath(p: string): Path {
    Hier(RemoveDots(Split(p, '/')))
  }

  /** Authority and path of what follows `scheme:` (query and fragment removed). */
  function ParseHierPart(rest: string): (Option<string>, Path) {
    if StartsWith(rest, "//") then
      var r := rest[2..];
      match IndexOf(r, '/')
      case None => (Some(r), Hier([""]))
      case Some(j) => (Some(r[..j]), HierPath(r[j + 1..]))
    else if StartsWith(rest, "/") then (None, HierPath(rest[1..]))
    else (None, Opaque(rest))
  }

  /** `new URL(s)`: None where the constructor throws (no scheme). */
  function Parse(s: string): (r: Option<Url>)
    ensures r.Some? <==> SchemeEnd(s).Some?
  {
    match SchemeEnd(s)
    case None => None
    case Some(i) => Some(ParseAfterScheme(s[..i], s[i + 1..]))
  }

  /** What follows `scheme:`, read as authority, path, query and fragment. */
  function ParseAfterScheme(scheme: string, tail: string): (u: Url)
    ensures u.scheme == scheme
  {
    var (rest0, fragment) := SplitOff(tail, '#');
    var (rest, query) := SplitOff(rest0, '?');
    var (authority, path) := ParseHierPart(rest);
    Url(scheme, authority, path, query, fragment)
  }

  /** `new URL(ref, base)`: None where the constructor throws. A reference
      with a scheme is parsed on its own; against an opaque base only a
      fragment-only reference resolves. */
  function Resolve(ref: string, base: Url): Option<Url> {
    if SchemeEnd(ref).Some? then Parse(ref)
    else
      var (r0, fragment) := SplitOff(ref, '#');
      var (r, query) := SplitOff(r0, '?');
      ResolveParts(r, query, fragment, base)
  }

  /** Resolution of a scheme-less reference, split into path, query and fragment. */
  function ResolveParts(r: string, query: Option<string>, fragment: Option<string>, base: Url): Option<Url> {
    if StartsWith(r, "//") then
      var (authority, path) := ParseHierPart(r);
      Some(Url(base.scheme, authority, path, query, fragment))
    else
      match base.path
      case Opaque(_) =>
        if r == "" && query.None? && fragment.Some? then Some(base.(fragment := fragment)) else None
      case Hier(bsegs) =>
        if r == "" then
          Some(base.(query := if query.Some? then query else base.query, fragment := fragment))
        else if StartsWith(r, "/") then
          Some(base.(path := HierPath(r[1..]), query := query, fragment := fragment))
        else
          Some(base.(path := Hier(Merge(bsegs, r)), query := query, fragment := fragment))
  }

  /** A relative path replaces the last segment of the base path. */
  function Merge(bsegs: seq<string>, r: string): seq<string> {
    var dir := if |bsegs| > 0 then bsegs[..|bsegs| - 1] else [];
    RemoveDots(dir + Split(r, '/'))
  }

  /** Dot removal passes clean segments through unchanged. */
  lemma {:induction false} RemoveDotsFromClean(out: seq<string>, input: seq<string>)
    requires Clean(input)
    ensures RemoveDotsFrom(out, input) == out + input
    decreases |input|
  {
    if |input| > 0 {
      RemoveDotsFromClean(out + [input[0]], input[1..]);
    }
  }

  /** Dot removal leaves no `.` or `..` segment behind. */
  lemma {:induction false} RemoveDotsFromIsClean(out: seq<string>, input: seq<string>)
    requires Clean(out)
    requires forall i :: 0 <= i < |input| ==> '/' !in input[i]
    ensures Clean(RemoveDotsFrom(out, input))
    decreases |input|
  {
    if |input| > 0 {
      var s, last := input[0], |input| == 1;
      var popped := if |out| > 0 then out[..|out| - 1] else [];
      var next :=
        if s == "." then out + (if last then [""] else [])
        else if s == ".." then popped + (if last then [""] else [])
        else out + [s];
      assert Clean(next);
      RemoveDotsFromIsClean(next, input[1..]);
    }
  }

  lemma RemoveDotsIsClean(input: seq<string>)
    requires forall i :: 0 <= i < |input| ==> '/' !in input[i]
    ensures Clean(RemoveDots(input))
  {
    RemoveDotsFromIsClean([], input);
  }

  lemma RemoveDotsClean(input: seq<string>)
    requires Clean(input)
    ensures RemoveDots(input) == input
  {
    RemoveDotsFromClean([], input);
  }

  /** Splitting a hierarchical pathname at `/` gives an empty piece, then the segments. */
  lemma PathStringSplit(segs: seq<string>)
    requires |segs| >= 1
    requires forall i :: 0 <= i < |segs| ==> '/' !in segs[i]
    ensures Split(PathString(Hier(segs)), '/') == [""] + segs
  {
    var s := PathString(Hier(segs));
    assert s[0] == '/';
    assert IndexOf(s, '/') == Some(0);
    assert s[1..] == Join(segs, "/");
    SplitJoin(segs, '/');
  }

  lemma SplitOffAbsent(s: string, c: char)
    requires c !in s
    ensures SplitOff(s, c) == (s, None)
  {
  }

  /** A segment that reference resolution keeps as it is. */
  predicate PlainSegment(s: string) {
    s != "." && s != ".." && '/' !in s && '?' !in s && '#' !in s
  }

  lemma JoinAbsent(parts: seq<string>, c: char)
    requires forall i :: 0 <= i < |parts| ==> c !in parts[i]
    requires c != '/'
    ensures c !in Join(parts, "/")
    decreases |parts|
  {
    if |parts| > 1 {
      JoinAbsent(parts[1..], c);
    }
  }

  /** A relative path of plain segments is appended to the base's directory. */
  lemma ResolvePlainSegments(pieces: seq<string>, base: Url)
    requires |pieces| >= 1 && pieces[0] != ""
    requires forall i :: 0 <= i < |pieces| ==> PlainSegment(pieces[i])
    requires SchemeEnd(Join(pieces, "/")).None?
    requires base.path.Hier? && |base.path.segments| >= 1 && Clean(base.path.segments)
    ensures var bsegs := base.path.segments;
            Resolve(Join(pieces, "/"), base)
            == Some(base.(path := Hier(bsegs[..|bsegs| - 1] + pieces), query := None, fragment := None))
  {
    var p := Join(pieces, "/");
    JoinAbsent(pieces, '#');
    JoinAbsent(pieces, '?');
    SplitOffAbsent(p, '#');
    SplitOffAbsent(p, '?');
    assert Resolve(p, base) == ResolveParts(p, None, None, base);
    JoinStart(pieces, "/");
    assert pieces[0][0] in pieces[0];
    MergePlainSegments(pieces, base.path.segments);
  }

  /** A join starts with the first part. */
  lemma JoinStart(parts: seq<string>, sep: string)
    requires |parts| >= 1 && parts[0] != ""
    ensures |Join(parts, sep)| > 0 && Join(parts, sep)[0] == parts[0][0]
  {
    if |parts| > 1 {
      assert Join(parts, sep) == parts[0] + sep + Join(parts[1..], sep);
    }
  }

  /** Merging plain segments onto a clean base keeps every segment. */
  lemma MergePlainSegments(pieces: seq<string>, bsegs: seq<string>)
    requires |pieces| >= 1
    requires forall i :: 0 <= i < |pieces| ==> PlainSegment(pieces[i])
    requires |bsegs| >= 1 && Clean(bsegs)
    ensures Merge(bsegs, Join(pieces, "/")) == bsegs[..|bsegs| - 1] + pieces
  {
    assert forall i :: 0 <= i < |pieces| ==> '/' !in pieces[i];
    SplitJoin(pieces, '/');
    assert "/" == ['/'];
    assert Split(Join(pieces, "/"), '/') == pieces;
    var dir := bsegs[..|bsegs| - 1];
    var all := dir + pieces;
    assert Merge(bsegs, Join(pieces, "/")) == RemoveDots(all);
    forall i | 0 <= i < |all| ensures all[i] != "." && all[i] != ".." && '/' !in all[i] {
      if i < |dir| { assert all[i] == bsegs[i]; } else { assert all[i] == pieces[i - |dir|]; }
    }
    RemoveDotsClean(all);
  }

  lemma SplitOffAt(a: string, b: string, c: char)
    requires c !in a
    ensures SplitOff(a + [c] + b, c) == (a, Some(b))
  {
    var s := a + [c] + b;
    assert s[|a|] == c;
    assert s[..|a|] == a;
    assert s[|a| + 1..] == b;
  }

  lemma {:induction false} SchemeEndFromScheme(scheme: string, rest: string, i: nat)
    requires ValidScheme(scheme)
    requires 1 <= i <= |scheme|
    ensures var s := scheme + ":" + rest;
            ValidScheme(s[..i]) && SchemeEndFrom(s, i) == Some(|scheme|)
    decreases |scheme| - i
  {
    var s := scheme + ":" + rest;
    assert s[..i] == scheme[..i];
    if i < |scheme| {
      assert s[i] == scheme[i];
      SchemeEndFromScheme(scheme, rest, i + 1);
    }
  }

  /** A valid scheme followed by `:` is recognised as the scheme. */
  lemma SchemeEndOfScheme(scheme: string, rest: string)
    requires ValidScheme(scheme)
    ensures SchemeEnd(scheme + ":" + rest) == Some(|scheme|)
  {
    SchemeEndFromScheme(scheme, rest, 1);
  }

  /** Segments that print and parse back as themselves. */
  ghost predicate PlainSegments(segs: seq<string>) {
    forall i :: 0 <= i < |segs| ==> PlainSegment(segs[i])
  }

  /** A URL that `href` writes out in a form the parser reads back unchanged. */
  ghost predicate WellFormed(u: Url) {
    && ValidScheme(u.scheme)
    && (u.authority.Some? ==>
          u.path.Hier? && '/' !in u.authority.value && '?' !in u.authority.value && '#' !in u.authority.value)
    && (match u.path
        case Hier(segs) =>
          |segs| >= 1 && PlainSegments(segs) && (u.authority.None? && |segs| >= 2 ==> segs[0] != "")
        case Opaque(t) =>
          '?' !in t && '#' !in t && (|t| > 0 ==> t[0] != '/'))
    && (u.query.Some? ==> '#' !in u.query.value)
  }

  lemma HierPathOfJoin(segs: seq<string>)
    requires |segs| >= 1 && PlainSegments(segs)
    ensures HierPath(Join(segs, "/")) == Hier(segs)
  {
    assert forall i :: 0 <= i < |segs| ==> '/' !in segs[i];
    SplitJoin(segs, '/');
    assert "/" == ['/'];
    RemoveDotsClean(segs);
  }

  lemma PathStringAbsent(p: Path, c: char)
    requires c != '/'
    requires p.Hier? ==> forall i :: 0 <= i < |p.segments| ==> c !in p.segments[i]
    requires p.Opaque? ==> c !in p.text
    ensures c !in PathString(p)
  {
    if p.Hier? {
      JoinAbsent(p.segments, c);
    }
  }

  lemma ParseHierPartOfAuthority(a: string, segs: seq<string>)
    requires '/' !in a
    requires |segs| >= 1 && PlainSegments(segs)
    ensures ParseHierPart("//" + a + PathString(Hier(segs))) == (Some(a), Hier(segs))
  {
    var j := Join(segs, "/");
    HierPathOfJoin(segs);
    AuthorityLayout(a, j);
    SplitOffAt(a, j, '/');
  }

  lemma AuthorityLayout(a: string, j: string)
    ensures var rest := "//" + a + ("/" + j);
            StartsWith(rest, "//") && rest[2..] == a + ['/'] + j
  {
    var rest := "//" + a + ("/" + j);
    assert rest[2..] == a + ['/'] + j;
  }

  lemma JoinFirstNotSlash(segs: seq<string>)
    requires |segs| >= 1 && '/' !in segs[0]
    requires |segs| >= 2 ==> segs[0] != ""
    ensures var j := Join(segs, "/"); |j| == 0 || j[0] != '/'
  {
    var j := Join(segs, "/");
    if |segs| >= 2 {
      assert j == segs[0] + "/" + Join(segs[1..], "/");
      assert j[0] == segs[0][0];
      assert segs[0][0] in segs[0];
    } else {
      assert j == segs[0];
      if |j| > 0 { assert j[0] in segs[0]; }
    }
  }

  lemma ParseHierPartOfPath(segs: seq<string>)
    requires |segs| >= 1 && PlainSegments(segs)
    requires |segs| >= 2 ==> segs[0] != ""
    ensures ParseHierPart(PathString(Hier(segs))) == (None, Hier(segs))
  {
    var j := Join(segs, "/");
    var rest := "/" + j;
    assert rest == PathString(Hier(segs));
    HierPathOfJoin(segs);
    assert PlainSegment(segs[0]);
    JoinFirstNotSlash(segs);
    if |rest| >= 2 {
      assert rest[..2][1] == rest[1] == j[0];
    }
    assert !StartsWith(rest, "//");
    assert StartsWith(rest, "/");
    assert rest[1..] == j;
  }

  /** Query and fragment written by `href` are split off again. */
  lemma SplitQueryFragment(rest: string, query: Option<string>, fragment: Option<string>)
    requires '#' !in rest && '?' !in rest
    requires query.Some? ==> '#' !in query.value
    ensures var q := if query.Some? then "?" + query.value else "";
            var f := if fragment.Some? then "#" + fragment.value else "";
            SplitOff(rest + q + f, '#') == (rest + q, fragment) && SplitOff(rest + q, '?') == (rest, query)
  {
    var q := if query.Some? then "?" + query.value else "";
    var f := if fragment.Some? then "#" + fragment.value else "";
    assert '#' !in rest + q;
    if fragment.Some? {
      assert rest + q + f == (rest + q) + ['#'] + fragment.value;
      SplitOffAt(rest + q, fragment.value, '#');
    } else {
      assert rest + q + f == rest + q;
      SplitOffAbsent(rest + q, '#');
    }
    if query.Some? {
      assert rest + q == rest + ['?'] + query.value;
      SplitOffAt(rest, query.value, '?');
    } else {
      assert rest + q == rest;
      SplitOffAbsent(rest, '?');
    }
  }

  /** The text after `scheme:` in `href` is read back as the URL's parts. */
  lemma ParseAfterSchemeOfHref(u: Url)
    requires WellFormed(u)
    ensures ParseAfterScheme(u.scheme, HrefAfterScheme(u)) == u
  {
    var auth := if u.authority.Some? then "//" + u.authority.value else "";
    var q := if u.query.Some? then "?" + u.query.value else "";
    var f := if u.fragment.Some? then "#" + u.fragment.value else "";
    var rest := auth + PathString(u.path);
    assert HrefAfterScheme(u) == rest + q + f;
    ParseHierPartOfHref(u);
    RestAbsent(u);
    SplitQueryFragment(rest, u.query, u.fragment);
  }

  lemma RestAbsent(u: Url)
    requires WellFormed(u)
    ensures var rest := (if u.authority.Some? then "//" + u.authority.value else "") + PathString(u.path);
            '#' !in rest && '?' !in rest
  {
    if u.path.Hier? {
      assert forall i :: 0 <= i < |u.path.segments| ==> '#' !in u.path.segments[i] && '?' !in u.path.segments[i];
    }
    PathStringAbsent(u.path, '#');
    PathStringAbsent(u.path, '?');
  }

  lemma ParseHierPartOfHref(u: Url)
    requires WellFormed(u)
    ensures ParseHierPart((if u.authority.Some? then "//" + u.authority.value else "") + PathString(u.path))
            == (u.authority, u.path)
  {
    match u.path
    case Hier(segs) =>
      if u.authority.Some? {
        ParseHierPartOfAuthority(u.authority.value, segs);
      } else {
        EmptyAppend(PathString(u.path));
        ParseHierPartOfPath(segs);
      }
    case Opaque(t) =>
      EmptyAppend(t);
      ParseHierPartOfOpaque(t);
  }

  lemma ParseHierPartOfOpaque(t: string)
    requires |t| > 0 ==> t[0] != '/'
    ensures ParseHierPart(t) == (None, Opaque(t))
  {
    if |t| >= 1 { assert t[..1][0] == t[0]; }
  }

  /** Parsing what `href` writes gives the URL back. */
  lemma ParseHref(u: Url)
    requires WellFormed(u)
    ensures Parse(Href(u)) == Some(u)
  {
    var s := Href(u);
    var tail := HrefAfterScheme(u);
    assert s == u.scheme + ":" + tail;
    SchemeEndOfScheme(u.scheme, tail);
    assert s[..|u.scheme|] == u.scheme;
    assert s[|u.scheme| + 1..] == tail;
    ParseAfterSchemeOfHref(u);
  }

  /** The text `href` writes before the path: the scheme, `:` and the authority. */
  function HrefPrefix(u: Url): string {
    u.scheme + ":" + (if u.authority.Some? then "//" + u.authority.value else "")
  }

  /** Without query and fragment, `href` is the prefix followed by the path. */
  lemma HrefOfHier(u: Url)
    requires u.query.None? && u.fragment.None?
    ensures Href(u) == HrefPrefix(u) + PathString(u.path)
  {
    if u.authority.Some? {
      HrefOfAuthority(u);
      AppendAssoc(u.scheme + ":", "//" + u.authority.value, PathString(u.path));
    } else {
      HrefOfPath(u);
      AppendEmpty(u.scheme + ":");
    }
  }

  /** Appending `/` to a path adds an empty last segment. */
  lemma PathStringSnocEmpty(segs: seq<string>)
    requires |segs| >= 1
    ensures PathString(Hier(segs + [""])) == PathString(Hier(segs)) + "/"
  {
    JoinSnoc(segs, "", "/");
    AppendEmpty(Join(segs, "/") + "/");
    AppendAssoc("/", Join(segs, "/"), "/");
  }

  /** A hierarchical path ends with `/` exactly when its last segment is empty. */
  lemma PathStringEndsWithSlash(segs: seq<string>)
    requires |segs| >= 1 && forall i :: 0 <= i < |segs| ==> '/' !in segs[i]
    ensures EndsWith(PathString(Hier(segs)), "/") <==> segs[|segs| - 1] == ""
  {
    var last := segs[|segs| - 1];
    var p := PathString(Hier(segs));
    var front: string;
    if |segs| == 1 {
      front := "/";
    } else {
      var init := segs[..|segs| - 1];
      assert segs == init + [last];
      JoinSnoc(init, last, "/");
      AppendAssoc("/", Join(init, "/") + "/", last);
      AppendAssoc("/", Join(init, "/"), "/");
      front := "/" + Join(init, "/") + "/";
    }
    assert p == front + last;
    assert front[|front| - 1] == '/';
    assert EndsWith(p, "/") <==> p[|p| - 1] == '/' by {
      assert p[|p| - 1..] == [p[|p| - 1]];
    }
    if last != "" {
      assert p[|p| - 1] == last[|last| - 1];
      assert last[|last| - 1] in last;
    }
  }

  /** Whether `href` ends with `/` is decided by the path alone. */
  lemma EndsWithSlashAfter(a: string, p: string)
    requires |p| >= 1
    ensures EndsWith(a + p, "/") <==> EndsWith(p, "/")
  {
    assert (a + p)[|a + p| - 1..] == p[|p| - 1..];
  }

  /** A hierarchical URL without query or fragment: its `href` ends with `/`
      exactly when its last segment is empty. */
  lemma HrefEndsWithSlash(u: Url)
    requires u.path.Hier? && u.query.None? && u.fragment.None?
    requires |u.path.segments| >= 1 && forall i :: 0 <= i < |u.path.segments| ==> '/' !in u.path.segments[i]
    ensures EndsWith(Href(u), "/") <==> u.path.segments[|u.path.segments| - 1] == ""
  {
    HrefOfHier(u);
    EndsWithSlashAfter(HrefPrefix(u), PathString(u.path));
    PathStringEndsWithSlash(u.path.segments);
  }

  /** `new URL(`${url.href}/`)` for a URL whose path does not end with `/`:
      the same URL with an empty segment added. */
  lemma ParseHrefSlash(u: Url)
    requires WellFormed(u) && u.path.Hier? && u.query.None? && u.fragment.None?
    requires u.path.segments[|u.path.segments| - 1] != ""
    ensures Parse(Href(u) + "/") == Some(u.(path := Hier(u.path.segments + [""])))
  {
    var segs := u.path.segments;
    var v := u.(path := Hier(segs + [""]));
    assert PlainSegments(segs + [""]) by {
      forall i | 0 <= i < |segs + [""]| ensures PlainSegment((segs + [""])[i]) {
        if i < |segs| { assert (segs + [""])[i] == segs[i]; }
      }
    }
    assert (segs + [""])[0] == segs[0];
    assert WellFormed(v);
    HrefOfHier(u);
    HrefOfHier(v);
    PathStringSnocEmpty(segs);
    AppendAssoc(HrefPrefix(u), PathString(u.path), "/");
    ParseHref(v);
  }
}
