/** src/util.ts: constructing a URL without throwing, and the WHATWG URL
    Standard's set of special schemes. */
module Util {
  import opened Wrappers
  import opened Urls

  /** `createURL(url, base)`: `new URL(url, base)`, with null where the
      constructor throws. A base that does not parse makes it throw too. */
  function CreateURL(url: string, base: Option<string>): (r: Option<Url>)
    ensures base.None? ==> r == Parse(url)
    ensures base.None? ==> (r.Some? <==> SchemeEnd(url).Some?)
    ensures base.Some? && Parse(base.value).None? ==> r.None?
    ensures base.Some? && Parse(base.value).Some? ==> r == Resolve(url, Parse(base.value).value)
  {
    match base
    case None => Parse(url)
    case Some(b) =>
      match Parse(b)
      case None => None
      case Some(bu) => Resolve(url, bu)
  }

  const SpecialProtocols: set<string> := {"ftp:", "file:", "http:", "https:", "ws:", "wss:"}

  /** `isSpecialURL(url)`: a switch over `url.protocol`. */
  function IsSpecialURL(u: Url): (b: bool)
    ensures b <==> Protocol(u) in SpecialProtocols
  {
    match Protocol(u)
    case "ftp:" => true
    case "file:" => true
    case "http:" => true
    case "https:" => true
    case "ws:" => true
    case "wss:" => true
    case _ => false
  }

  /** Being special is a property of the scheme alone. */
  lemma SpecialDependsOnScheme(u: Url, v: Url)
    requires u.scheme == v.scheme
    ensures IsSpecialURL(u) == IsSpecialURL(v)
  {
    assert Protocol(u) == Protocol(v);
  }

  /** The package schemes of this plugin are not special. */
  lemma PackageSchemesNotSpecial(u: Url)
    requires u.scheme == "npm" || u.scheme == "node"
    ensures !IsSpecialURL(u)
  {
    var p := Protocol(u);
    assert p == "npm:" || p == "node:";
    assert p[0] == 'n';
  }
}
