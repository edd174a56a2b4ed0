/**
 * The browser-independent bookkeeping of the recorder (src/record.js): the
 * header allow-list, the request-drop filter, the output file name, the
 * response hook that fills `snapshot.responses`, and the purge of CSS
 * responses. Playwright's events arrive as values; the URL parser, the
 * regular-expression engine and base64 are parameters held in `Config`.
 */
module Record {
  import opened Wrappers
  import opened Util
  import opened Archive
  import Quopri

  type byte = Quopri.byte

  /** What `main` settles before any hook fires. */
  datatype Config = Config(
    uri: string,                        // URI, the target URL
    headerNames: seq<string>,           // HEADERS, already lower-cased
    drop: seq<string>,                  // DROP, the request-drop patterns
    parse: Parser,                      // the URL parser
    matches: (string, string) -> bool,  // does the case-insensitive pattern match the text
    base64: seq<byte> -> string)        // base64 encoding of a body

  /** A Playwright response as the hook reads it; `body` is `None` when reading the body throws. */
  datatype Response = Response(
    request: Request,
    status: int,
    headers: map<string, string>,
    url: string,
    body: Option<seq<byte>>)

  // ---------------------------------------------------------------------
  // processArgs: the header allow-list is lower-cased once
  // ---------------------------------------------------------------------

  function ToLowerChar(c: char): char
  {
    if 'A' <= c <= 'Z' then (c as int + 32) as char else c
  }

  /** Lower-casing, for ASCII letters. */
  function ToLower(s: string): (r: string)
    ensures |r| == |s|
    ensures forall k :: 0 <= k < |s| ==> r[k] == ToLowerChar(s[k]) && !('A' <= r[k] <= 'Z')
  {
    if s == [] then [] else [ToLowerChar(s[0])] + ToLower(s[1..])
  }

  /** The configured header names, each lower-cased, in their order (the split itself is not modelled). */
  function LowerCaseNames(names: seq<string>): (r: seq<string>)
    ensures |r| == |names|
    ensures forall i :: 0 <= i < |names| ==> r[i] == ToLower(names[i])
  {
    if names == [] then [] else [ToLower(names[0])] + LowerCaseNames(names[1..])
  }

  // ---------------------------------------------------------------------
  // restrictHeaders
  // ---------------------------------------------------------------------

  /** Keeps exactly the headers whose name is on the allow-list, values unchanged. */
  function RestrictHeaders(headers: map<string, string>, allow: seq<string>): (r: map<string, string>)
    ensures forall h :: h in r <==> h in headers && h in allow
    ensures forall h :: h in r ==> r[h] == headers[h]
  {
    map h | h in headers && h in allow :: headers[h]
  }

  /** With the list lower-cased, a header survives exactly when its name is the
      lower-case form of a configured name. */
  lemma RestrictToConfiguredNames(headers: map<string, string>, names: seq<string>, h: string)
    ensures h in RestrictHeaders(headers, LowerCaseNames(names))
            <==> h in headers && exists i :: 0 <= i < |names| && ToLower(names[i]) == h
  {
    var lowered := LowerCaseNames(names);
    if h in headers && h in lowered {
      var i :| 0 <= i < |lowered| && lowered[i] == h;
      assert ToLower(names[i]) == h;
    }
  }

  // ---------------------------------------------------------------------
  // Output file name
  // ---------------------------------------------------------------------

  /** A host that starts with `www.` loses that prefix, once. */
  function StripWww(host: string): (r: string)
    ensures StartsWith(host, "www.") ==> "www." + r == host
    ensures !StartsWith(host, "www.") ==> r == host
  {
    if StartsWith(host, "www.") then host[4..] else host
  }

  /** The archive path: the given one, or `snapshot_<host>.json`; `.gz` added once
      when compressing. `output` is the second positional argument or the output option;
      the empty string counts as absent. */
  method OutputName(host: string, output: Option<string>, gzip: bool) returns (out: string)
    ensures (output.None? || output == Some("")) ==>
              out == "snapshot_" + StripWww(host) + ".json" + (if gzip then ".gz" else "")
    ensures output.Some? && output.value != "" && (!gzip || EndsWith(output.value, ".gz")) ==>
              out == output.value
    ensures output.Some? && output.value != "" && gzip && !EndsWith(output.value, ".gz") ==>
              out == output.value + ".gz"
    ensures gzip ==> EndsWith(out, ".gz")
  {
    var h := host;
    if StartsWith(h, "www.") {
      h := h[4..];
    }
    out := if output.Some? then output.value else "";
    if out == "" {
      out := "snapshot_" + h + ".json";
      assert out[|out| - 1] == 'n';
    }
    if gzip && !EndsWith(out, ".gz") {
      out := out + ".gz";
    }
  }

  // ---------------------------------------------------------------------
  // The drop filter and the response hook
  // ---------------------------------------------------------------------

  /** How a route handler ends: the request is aborted, let through, or the handler
      throws because `normalizeURL` threw. */
  datatype RouteAction = Abort | Continue | HandlerThrows

  /** Why the response hook returned without storing. */
  datatype Skip = UrlRejected | DataUrl | IndexPage | Redirect | ServerError | BodyUnavailable

  datatype HookOutcome = Skipped(reason: Skip) | Store(key: string, entry: Entry)

  /** What every stored entry satisfies. */
  predicate EntryWellFormed(cfg: Config, e: Entry)
  {
    && e.body.Some?
    && !(300 <= e.status <= 399) && e.status < 500
    && !StartsWith(e.requestUrl, "data:")
    && NormalizeURL(cfg.parse, cfg.uri) != Some(e.requestUrl)
  }

  /** The classification of the response hook, in the order of its checks. */
  function ResponseDecision(cfg: Config, resp: Response): (d: HookOutcome)
    ensures d.Store? <==>
              && NormalizeURL(cfg.parse, resp.request.url).Some?
              && !StartsWith(NormalizeURL(cfg.parse, resp.request.url).value, "data:")
              && NormalizeURL(cfg.parse, cfg.uri).Some?
              && NormalizeURL(cfg.parse, cfg.uri) != NormalizeURL(cfg.parse, resp.request.url)
              && !(300 <= resp.status <= 399) && resp.status < 500
              && resp.body.Some?
    ensures d.Store? ==>
              && d.key == RequestKey(resp.request)
              && d.entry == Entry(Some(cfg.base64(resp.body.value)),
                                  RestrictHeaders(resp.headers, cfg.headerNames),
                                  NormalizeURL(cfg.parse, resp.request.url).value,
                                  resp.url, resp.status)
              && EntryWellFormed(cfg, d.entry)
  {
    match NormalizeURL(cfg.parse, resp.request.url)
    case None => Skipped(UrlRejected)
    case Some(u) =>
      if StartsWith(u, "data:") then Skipped(DataUrl)
      else match NormalizeURL(cfg.parse, cfg.uri)
        case None => Skipped(UrlRejected)
        case Some(index) =>
          if u == index then Skipped(IndexPage)
          else if 300 <= resp.status <= 399 then Skipped(Redirect)
          else if resp.status >= 500 then Skipped(ServerError)
          else match resp.body
            case None => Skipped(BodyUnavailable)
            case Some(buffer) =>
              Store(RequestKey(resp.request),
                    Entry(Some(cfg.base64(buffer)), RestrictHeaders(resp.headers, cfg.headerNames),
                          u, resp.url, resp.status))
  }

  /** The single key assignment the hook performs, if any. */
  function ApplyOutcome(m: map<string, Entry>, d: HookOutcome): (m': map<string, Entry>)
    ensures d.Skipped? ==> m' == m
    ensures d.Store? ==> m'.Keys == m.Keys + {d.key} && m'[d.key] == d.entry
    ensures d.Store? ==> forall k :: k in m && k != d.key ==> m'[k] == m[k]
  {
    match d
    case Skipped(_) => m
    case Store(k, e) => m[k := e]
  }

  /** The CSS purge matches a content type that starts with `text/css`;
      an absent or empty header never matches. */
  predicate IsCss(e: Entry)
  {
    ContentType(e).Some? && StartsWith(ContentType(e).value, "text/css")
  }

  /** The responses left after the purge. */
  function WithoutCss(m: map<string, Entry>): (r: map<string, Entry>)
    ensures forall k :: k in r <==> k in m && !IsCss(m[k])
    ensures forall k :: k in r ==> r[k] == m[k]
  {
    map k | k in m && !IsCss(m[k]) :: m[k]
  }

  /** The recorder's state: the snapshot's responses, shared by the hooks. */
  class Recorder {
    const cfg: Config
    var responses: map<string, Entry>

    ghost predicate Valid()
      reads this
    {
      forall k :: k in responses ==> EntryWellFormed(cfg, responses[k])
    }

    /** Argument processing lower-cases the allow-list; the snapshot starts with no responses. */
    constructor (uri: string, headers: seq<string>, drop: seq<string>, parse: Parser,
                 matches: (string, string) -> bool, base64: seq<byte> -> string)
      ensures Valid()
      ensures cfg == Config(uri, LowerCaseNames(headers), drop, parse, matches, base64)
      ensures responses == map[]
    {
      cfg := Config(uri, LowerCaseNames(headers), drop, parse, matches, base64);
      responses := map[];
    }

    /** The route handler for every request: abort at the first DROP pattern that matches
        the normalised URL, otherwise continue. */
    method OnRoute(r: Request) returns (a: RouteAction)
      ensures NormalizeURL(cfg.parse, r.url).None? <==> a == HandlerThrows
      ensures NormalizeURL(cfg.parse, r.url).Some? ==>
                (a == Abort <==> exists i :: 0 <= i < |cfg.drop| && cfg.matches(cfg.drop[i], NormalizeURL(cfg.parse, r.url).value))
    {
      var nu := NormalizeURL(cfg.parse, r.url);
      if nu.None? {
        return HandlerThrows;
      }
      var u := nu.value;
      for i := 0 to |cfg.drop|
        invariant forall j :: 0 <= j < i ==> !cfg.matches(cfg.drop[j], u)
      {
        if cfg.matches(cfg.drop[i], u) {
          return Abort;
        }
      }
      return Continue;
    }

    /** The response hook: one atomic assignment into `responses`,
        overwriting whatever the key held, or nothing. */
    method OnResponse(resp: Response)
      requires Valid()
      modifies this
      ensures Valid()
      ensures responses == ApplyOutcome(old(responses), ResponseDecision(cfg, resp))
    {
      var d := ResponseDecision(cfg, resp);
      responses := ApplyOutcome(responses, d);
    }

    /** The loop over a snapshot of the response keys, deleting CSS responses in place. */
    method PurgeCssResponses()
      requires Valid()
      modifies this
      ensures Valid()
      ensures responses == WithoutCss(old(responses))
    {
      var keys := responses.Keys;
      while keys != {}
        invariant keys <= old(responses).Keys
        invariant responses.Keys == (set k | k in old(responses) && (k in keys || !IsCss(old(responses)[k])))
        invariant forall k :: k in responses ==> responses[k] == old(responses)[k]
        decreases keys
      {
        var k :| k in keys;
        var res := responses[k];
        if IsCss(res) {
          responses := responses - {k};
        }
        keys := keys - {k};
      }
    }
  }
}
