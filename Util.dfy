/**
 * Request keys and URL normalisation (src/util.js).
 *
 * The WHATWG URL parser is not modelled: it is a parameter `parse` that either
 * rejects its input (`new URL` throws) or yields a URL record. Of the record only
 * what `normalizeURL` touches is kept: the serialisation without the fragment and
 * the fragment itself, which the URL serializer appends after a `#`.
 */
module Util {
  import opened Wrappers

  /** The two accessors of a Playwright request the core reads. */
  datatype Request = Request(httpMethod: string, url: string)

  predicate StartsWith(s: string, prefix: string)
  {
    prefix <= s
  }

  predicate EndsWith(s: string, suffix: string)
  {
    |suffix| <= |s| && s[|s| - |suffix|..] == suffix
  }

  // ---------------------------------------------------------------------
  // requestKey
  // ---------------------------------------------------------------------

  /** The method, a colon and the raw, unnormalised URL. */
  function RequestKey(r: Request): (k: string)
    ensures |k| == |r.httpMethod| + 1 + |r.url|
    ensures k[..|r.httpMethod|] == r.httpMethod && k[|r.httpMethod|] == ':' && k[|r.httpMethod| + 1..] == r.url
  {
    r.httpMethod + ":" + r.url
  }

  /** Index of the first `:` in `s`, if any. */
  function FirstColon(s: string): (i: Option<nat>)
    ensures i.None? <==> ':' !in s
    ensures i.Some? ==> i.value < |s| && s[i.value] == ':' && ':' !in s[..i.value]
  {
    if s == [] then None
    else if s[0] == ':' then Some(0)
    else match FirstColon(s[1..])
      case None => None
      case Some(j) =>
        assert s[..j + 1] == [s[0]] + s[1..][..j];
        Some(j + 1)
  }

  /** Reads a key back as the request it was built from, splitting at the first `:`. */
  function SplitKey(k: string): Option<Request>
  {
    match FirstColon(k)
    case None => None
    case Some(i) => Some(Request(k[..i], k[i + 1..]))
  }

  lemma {:induction false} FirstColonAt(s: string, m: nat)
    requires m < |s| && s[m] == ':' && ':' !in s[..m]
    ensures FirstColon(s) == Some(m)
  {
    if m > 0 {
      assert s[0] in s[..m];
      assert s[1..][..m - 1] == s[1..m];
      assert forall c :: c in s[1..m] ==> c in s[..m];
      FirstColonAt(s[1..], m - 1);
    }
  }

  /** When the method has no `:`, the key determines the request: `SplitKey` inverts `RequestKey`. */
  lemma SplitRequestKey(r: Request)
    requires ':' !in r.httpMethod
    ensures SplitKey(RequestKey(r)) == Some(r)
  {
    FirstColonAt(RequestKey(r), |r.httpMethod|);
  }

  lemma RequestKeyInjective(r1: Request, r2: Request)
    requires ':' !in r1.httpMethod && ':' !in r2.httpMethod
    requires RequestKey(r1) == RequestKey(r2)
    ensures r1 == r2
  {
    SplitRequestKey(r1);
    SplitRequestKey(r2);
  }

  /** For one URL, distinct methods give distinct keys, whatever characters they hold. */
  lemma KeySeparatesMethods(m1: string, m2: string, url: string)
    requires m1 != m2
    ensures RequestKey(Request(m1, url)) != RequestKey(Request(m2, url))
  {
    var k1, k2 := RequestKey(Request(m1, url)), RequestKey(Request(m2, url));
    if |m1| == |m2| {
      assert k1[..|m1|] != k2[..|m1|];
    } else {
      assert |k1| != |k2|;
    }
  }

  // ---------------------------------------------------------------------
  // normalizeURL
  // ---------------------------------------------------------------------

  /** A parsed URL: its serialisation without the fragment, and the fragment. */
  datatype Url = Url(withoutFragment: string, fragment: Option<string>)

  function FragmentSuffix(u: Url): string
  {
    match u.fragment
    case None => ""
    case Some(f) => "#" + f
  }

  /** The URL's serialisation: the fragment, if any, follows a `#`. */
  function Serialize(u: Url): string
  {
    u.withoutFragment + FragmentSuffix(u)
  }

  /** The URL parser: `None` when parsing throws. */
  type Parser = string -> Option<Url>

  function Last(s: string): char
    requires s != []
  {
    s[|s| - 1]
  }

  /** The replacement of `/\/+$/` by nothing: the run of `/` at the very end of the string goes. */
  function StripTrailingSlashes(s: string): (r: string)
    ensures r <= s
    ensures forall k :: |r| <= k < |s| ==> s[k] == '/'
    ensures r == [] || Last(r) != '/'
  {
    if s != [] && Last(s) == '/' then StripTrailingSlashes(s[..|s| - 1]) else s
  }

  /** Setting the hash to the empty string clears the fragment. */
  function ClearHash(u: Url): Url
  {
    u.(fragment := None)
  }

  /** The normal form of a URL: strip trailing slashes, parse, clear the hash, serialise.
      `None` when the parser throws. */
  function NormalizeURL(parse: Parser, url: string): (r: Option<string>)
    ensures r.None? <==> parse(StripTrailingSlashes(url)).None?
    ensures r.Some? ==> var u := parse(StripTrailingSlashes(url)).value;
                        r.value == u.withoutFragment && Serialize(u) == r.value + FragmentSuffix(u)
  {
    match parse(StripTrailingSlashes(url))
    case None => None
    case Some(u) => Some(Serialize(ClearHash(u)))
  }

  /** Slashes are stripped only at the very end of the raw string: `…/x/#f` keeps its `/x/`. */
  lemma StripOnlyAtEnd(s: string)
    requires s != [] && Last(s) != '/'
    ensures StripTrailingSlashes(s) == s
  {
  }

  /** Appending a slash makes no difference to the normal form. */
  lemma NormalizeIgnoresTrailingSlash(parse: Parser, url: string)
    ensures NormalizeURL(parse, url + "/") == NormalizeURL(parse, url)
  {
    assert (url + "/")[..|url|] == url;
  }

  /** The key is built from the raw URL: two spellings that normalise alike still
      give different keys. */
  lemma KeyKeepsTrailingSlash(parse: Parser, m: string, url: string)
    ensures NormalizeURL(parse, url + "/") == NormalizeURL(parse, url)
    ensures RequestKey(Request(m, url + "/")) != RequestKey(Request(m, url))
  {
    NormalizeIgnoresTrailingSlash(parse, url);
  }

  lemma {:induction false} StripAllSlashes(s: string)
    requires forall k :: 0 <= k < |s| ==> s[k] == '/'
    ensures StripTrailingSlashes(s) == []
  {
    if s != [] {
      StripAllSlashes(s[..|s| - 1]);
    }
  }

  /** A parser that rejects `''` (as the WHATWG parser does) makes `normalizeURL` throw on the
      empty string and on any string made only of slashes. */
  lemma NormalizeRejectsEmpty(parse: Parser, url: string)
    requires parse([]).None?
    requires forall k :: 0 <= k < |url| ==> url[k] == '/'
    ensures NormalizeURL(parse, url).None?
  {
    StripAllSlashes(url);
  }
}
