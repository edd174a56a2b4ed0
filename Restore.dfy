/**
 * The replay route decision (the route handler for every request in src/restore.js):
 * for each intercepted request, serve the archived index HTML, answer 204 for a
 * script when JavaScript is off, fulfil from the archived responses, or let the
 * request through to the network.
 */
module Restore {
  import opened Wrappers
  import opened Util
  import opened Archive
  import Record
  import Quopri

  type byte = Quopri.byte

  /** What the handler does with the route. */
  datatype Action =
    | ServeIndex(contentType: string, html: string)                    // answer with the archived HTML
    | NoContent                                                       // answer with status 204
    | ServeCached(contentType: string, body: seq<byte>, status: Option<int>)  // answer from the archive
    | ContinueRequest                                                 // let the request through
    | HandlerThrows                                                   // normalizeURL threw

  const IndexContentType: string := "text/html; charset=utf-8"

  /** A cached body counts as present when it exists and is not the empty string. */
  predicate Truthy(body: Option<string>)
  {
    body.Some? && body.value != ""
  }

  /** A script type, compared exactly: `text/javascript` or `application/javascript`, nothing else. */
  predicate IsScriptType(ct: Option<string>)
  {
    ct == Some("text/javascript") || ct == Some("application/javascript")
  }

  /** The entry's content type, or the empty string when it has none. */
  function ContentTypeOrEmpty(e: Entry): string
  {
    match ContentType(e)
    case Some(ct) => ct
    case None => ""
  }

  /** `a` is the handler's action for the intercepted request `r`, given the archive
      `record` and the `js` flag. `fromBase64` decodes base64 text into bytes. */
  function RouteDecision(parse: Parser, fromBase64: string -> seq<byte>, record: Snapshot, js: bool, r: Request): (a: Action)
    ensures a == HandlerThrows <==> NormalizeURL(parse, r.url).None? || NormalizeURL(parse, record.url).None?
    ensures a.ServeIndex? <==>
              && NormalizeURL(parse, r.url).Some?
              && NormalizeURL(parse, r.url) == NormalizeURL(parse, record.url)
    ensures a.ServeIndex? ==> a == ServeIndex(IndexContentType, record.html)
    ensures a.NoContent? <==>
              && NormalizeURL(parse, r.url).Some? && NormalizeURL(parse, record.url).Some?
              && NormalizeURL(parse, r.url) != NormalizeURL(parse, record.url)
              && RequestKey(r) in record.responses && Truthy(record.responses[RequestKey(r)].body)
              && !js && IsScriptType(ContentType(record.responses[RequestKey(r)]))
    ensures a.ServeCached? <==>
              && NormalizeURL(parse, r.url).Some? && NormalizeURL(parse, record.url).Some?
              && NormalizeURL(parse, r.url) != NormalizeURL(parse, record.url)
              && RequestKey(r) in record.responses && Truthy(record.responses[RequestKey(r)].body)
              && (js || !IsScriptType(ContentType(record.responses[RequestKey(r)])))
    ensures a.ServeCached? ==>
              var cached := record.responses[RequestKey(r)];
              a == ServeCached(ContentTypeOrEmpty(cached), fromBase64(cached.body.value), record.status)
    ensures a.ContinueRequest? <==>
              && NormalizeURL(parse, r.url).Some? && NormalizeURL(parse, record.url).Some?
              && NormalizeURL(parse, r.url) != NormalizeURL(parse, record.url)
              && (RequestKey(r) !in record.responses || !Truthy(record.responses[RequestKey(r)].body))
  {
    match NormalizeURL(parse, r.url)
    case None => HandlerThrows
    case Some(u) =>
      match NormalizeURL(parse, record.url)
      case None => HandlerThrows
      case Some(index) =>
        if u == index then ServeIndex(IndexContentType, record.html)
        else
          var key := RequestKey(r);
          if key in record.responses && Truthy(record.responses[key].body) then
            var cached := record.responses[key];
            if !js && IsScriptType(ContentType(cached)) then NoContent
            else ServeCached(ContentTypeOrEmpty(cached), fromBase64(cached.body.value), record.status)
          else ContinueRequest
  }

  /** A response the recorder stored is, on replay of the same request against the
      archive it went into, served with the bytes it was recorded with (given that
      base64 decoding inverts encoding on them), its content type if the allow-list
      kept it, and the archive-level status; an empty body falls through to the
      network instead, and with JavaScript off a script is answered with 204. */
  lemma ReplayOfRecordedResponse(cfg: Record.Config, resp: Record.Response, fromBase64: string -> seq<byte>,
                                 record: Snapshot, js: bool)
    requires Record.ResponseDecision(cfg, resp).Store?
    requires record.url == cfg.uri
    requires var d := Record.ResponseDecision(cfg, resp);
             d.key in record.responses && record.responses[d.key] == d.entry
    requires resp.body.Some? ==> fromBase64(cfg.base64(resp.body.value)) == resp.body.value
    requires resp.body.Some? ==> (cfg.base64(resp.body.value) == "" <==> resp.body.value == [])
    ensures var a := RouteDecision(cfg.parse, fromBase64, record, js, resp.request);
            var buffer := resp.body.value;
            var ct := if "content-type" in resp.headers && "content-type" in cfg.headerNames
                      then Some(resp.headers["content-type"]) else None;
            && (buffer == [] ==> a == ContinueRequest)
            && (buffer != [] && !js && IsScriptType(ct) ==> a == NoContent)
            && (buffer != [] && (js || !IsScriptType(ct)) ==>
                  a == ServeCached(if ct.Some? then ct.value else "", buffer, record.status))
  {
    var d := Record.ResponseDecision(cfg, resp);
    assert ContentType(d.entry) == (if "content-type" in resp.headers && "content-type" in cfg.headerNames
                                    then Some(resp.headers["content-type"]) else None);
  }
}
