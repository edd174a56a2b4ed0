# web-snap capture/replay core in Dafny

web-snap records a rendered web page into one JSON archive: the final HTML plus every
network response the page triggered, keyed by request. Later it replays the page in
a browser, answering the intercepted requests from that archive. This project models
the browser-independent parts of that protocol and proves properties about them:

- **Quoted-printable codec** (`Quopri.dfy`, src/quopri.js). `CheckRanges` is a
  method with a loop, proved against the predicate `InSomeRange`. The encoder `Encode`
  is a loop too, proved against the reference function `Encoding`. The decoder
  `Decode` is three rewriting passes, each a recursive function. These are proved:
  - the byte-level escaping rules;
  - the length law;
  - that the output is printable and has no soft line breaks;
  - that encoding is the identity exactly on inputs whose bytes are all kept;
  - a line-by-line account of each decoding pass;
  - the round trip `Decode(Encoding(b)) == Chars(b)`.
- **Request key and URL normaliser** (`Util.dfy`, src/util.js). The key is
  `method:url` on the raw URL. `SplitKey` inverts it when the method has no `:`.
  `NormalizeURL` strips the trailing run of `/` from the raw string, parses it,
  clears the fragment and serialises it. The WHATWG parser is a parameter that may
  reject its input.
- **Archive shape** (`Archive.dfy`): a captured entry and the snapshot root.
- **Recorder bookkeeping** (`Record.dfy`, src/record.js):
  - the lower-casing of the header allow-list;
  - `restrictHeaders`;
  - the output file name;
  - the DROP route filter;
  - the response hook, as one decision function `ResponseDecision` plus one map
    assignment `ApplyOutcome`;
  - the CSS purge loop.

  The state the hooks share, `snapshot.responses`, is the field `responses` of the
  class `Recorder`. Its invariant `Valid` says every stored entry has a body, is not
  a redirect or server error, is not a `data:` URL and is not the index page.
- **Replay route decision** (`Restore.dfy`, src/restore.js). It is a total function
  `RouteDecision` with five outcomes:
  - serve the index HTML;
  - answer 204;
  - serve from the cache;
  - continue to the network;
  - the handler throws, which happens only when `normalizeURL` rejects a URL.

  Because the function is total and the outcomes are constructors of one datatype,
  every request gets exactly one action. `ReplayOfRecordedResponse` connects the
  recorder to the replayer: a response the hook stored is, when the same request is
  replayed against that archive, served with the bytes that were recorded.

Abstract collaborators are passed in as function-valued parameters (in
`Record.Config` for the recorder):
- the URL parser (`Parser`, where `None` means `new URL` threw);
- the DROP regular-expression test;
- base64 encoding and decoding.

Where a property needs something of them, it is a `requires` of that lemma. For
example, `ReplayOfRecordedResponse` requires that base64 decoding inverts encoding
on the recorded buffer.

## Behaviour notes

Notes on the code's behaviour:

- The response hook overwrites `responses[key]` unconditionally. No status-based
  guard protects an earlier 200 (src/record.js:167).
- `response_url` is always written (src/record.js:171).
- The body is always base64 (src/record.js:168). The quoted-printable codec is
  defined in src/quopri.js, but nothing in src/record.js uses it.
- The request key uses the raw URL, not the normalised one (src/util.js:10). So
  `GET:…/x/` and `GET:…/x` are different keys, although both URLs normalise alike
  (`Util.KeyKeepsTrailingSlash`).
- `normalizeURL` throws on `''` and on strings made only of slashes, when the parser
  rejects `''`. It does not map them to `''` (`Util.NormalizeRejectsEmpty`).
- With JavaScript off, only a content type exactly equal to `text/javascript` or
  `application/javascript` gets the 204 answer. The match is not a prefix match, and
  `application/x-javascript` does not qualify (src/restore.js:101).
- A served cached entry gets the archive-level `record.status`, not the entry's own
  status (src/restore.js:110). src/record.js never writes `status` at the snapshot
  level, so for archives it produced this is `None`.
- The decoder's comment cites the RFC 2045 rule that all trailing white space on a
  line is deleted. The pattern at src/quopri.js:12 deletes only the one space or tab
  right before each line end, so `"a  \n"` decodes to `"a \n"` (`Quopri.StripLine`).
- A recorded empty body is stored as `''`, which is falsy. On replay it goes to the
  network (`Restore.ReplayOfRecordedResponse`).

## Model

| member | source | states |
|---|---|---|
| `Quopri.CheckRanges` | src/quopri.js:70-83 | true exactly when the number equals a one-element entry or lies in a two-element inclusive entry of the table; entries of other lengths never match |
| `Quopri.SafeRangesExact` | src/quopri.js:37-45 | the ranges table admits exactly TAB, LF, CR, 0x20-0x3C and 0x3E-0x7E |
| `Quopri.Escape` | src/quopri.js:61 | the escape of a byte is `=` followed by exactly two upper-case hex digits of its value, zero-padded below 0x10 |
| `Quopri.Encode` | src/quopri.js:31-65 | the loop's output equals the reference encoding: the bytes' tokens concatenated in order |
| `Quopri.TokenRule` | src/quopri.js:50-61 | a byte is emitted as itself exactly when it is safe and not a trailing space or tab; otherwise it becomes `=` plus its two upper-case hex digits |
| `Quopri.EqualsSignEscaped` | src/quopri.js:43-44 | `=` (0x3D) is always emitted as `=3D` |
| `Quopri.TrailingWsEscaped` | src/quopri.js:53-56 | a space or tab that ends the input or comes before CR or LF is emitted as `=20` or `=09` |
| `Quopri.EncodeFromLength` | src/quopri.js:58-61 | the length of the encoding of any suffix is its byte count plus two per escaped byte |
| `Quopri.EncodingLength` | src/quopri.js:46-64 | output length equals input length plus twice the number of escaped bytes |
| `Quopri.EncodeFromPrintable` | src/quopri.js:58-61 | every character an output token contributes is TAB, LF, CR or in 0x20-0x7E |
| `Quopri.EncodingPrintable` | src/quopri.js:46-64 | every output character is TAB, LF, CR or in 0x20-0x7E |
| `Quopri.EncodeFromEscapesComplete` | src/quopri.js:58-61 | in the encoding of any suffix, every `=` is followed by two upper-case hex digits |
| `Quopri.NoSoftBreaks` | src/quopri.js:46-64 | every `=` in the output starts a complete `=XX` escape, so no soft line break is ever inserted, whatever the line length |
| `Quopri.IdentityOnSafeInput` | src/quopri.js:50-59 | encoding returns the input unchanged if and only if every byte is safe and no space or tab precedes CR, LF or the end |
| `Quopri.StripLineEndWs` | src/quopri.js:12 | the first pass never lengthens its input; what it deletes is stated by `Quopri.StripLine` and `Quopri.StripOnlyDeletes` |
| `Quopri.StripOnlyDeletes` | src/quopri.js:12 | the first pass introduces no character, and text without spaces and tabs passes unchanged |
| `Quopri.StripLine` | src/quopri.js:8-12 | the first decoding pass works per line: of a line only one final space or tab is deleted, the rest and leading spaces stay; line ends are LF, CR, U+2028, U+2029 or the end |
| `Quopri.RemoveSoftBreaks` | src/quopri.js:16 | the second pass never lengthens its input; what it deletes is stated by `Quopri.SoftBreakRemoved` and `Quopri.SoftBreaksPlain` |
| `Quopri.SoftBreaksPlain` | src/quopri.js:16 | the second pass leaves text without `=` unchanged |
| `Quopri.SoftBreakRemoved` | src/quopri.js:13-16 | the second pass deletes `=` together with a following CRLF, CR or LF, or at the end of the input |
| `Quopri.EscapesPlain` | src/quopri.js:21 | the third pass leaves text without `=` unchanged |
| `Quopri.DecodeEscapes` | src/quopri.js:21-24 | the third pass never lengthens its input; what it replaces is stated by `Quopri.EscapeOfByteDecoded` and `Quopri.EscapesPlain` |
| `Quopri.HexDigitCases` | src/quopri.js:21 | every digit the pattern `[a-fA-F0-9]` accepts is the upper-case or the lower-case digit of its value |
| `Quopri.EscapeOfByteDecoded` | src/quopri.js:17-24 | for every byte x, `=` followed by x's two hex digits, each in upper or lower case, decodes to the character with code x |
| `Quopri.Decode` | src/quopri.js:4-26 | decoding never lengthens its input; its inverse property is `Quopri.RoundTrip` |
| `Quopri.DecodePlain` | src/quopri.js:4-26 | on text without `=`, decoding only deletes the space or tab that ends a line; text without `=`, spaces or tabs comes back unchanged |
| `Quopri.StripKeepsEncoding` | src/quopri.js:12 | the first decoding pass leaves any encoder output unchanged |
| `Quopri.SoftKeepsEncoding` | src/quopri.js:16 | the second decoding pass leaves any encoder output unchanged |
| `Quopri.EscapesDecodeEncoding` | src/quopri.js:21-24 | the third decoding pass turns encoder output back into the bytes read as code units |
| `Quopri.RoundTrip` | src/quopri.js:4-65 | decoding the encoding of any byte buffer gives the buffer read as code units 0-255 |
| `Quopri.EncodeExamples` | test/quopri.test.js:18 | `' = '` encodes to `' =3D=20'` |
| `Quopri.EncodeTrailingTabExample` | test/quopri.test.js:19 | `'foo\t'` encodes to `'foo=09'` |
| `Util.RequestKey` | src/util.js:9-11 | the key is the method, then `:`, then the raw URL, with nothing normalised |
| `Util.SplitRequestKey` | src/util.js:10 | when the method has no `:`, splitting the key at its first `:` gives back method and URL |
| `Util.RequestKeyInjective` | src/util.js:10 | when neither method has a `:`, equal keys mean equal method and URL |
| `Util.KeySeparatesMethods` | src/util.js:10 | for one URL, different methods always give different keys |
| `Util.StripTrailingSlashes` | src/util.js:14 | the result is a prefix of the input, everything removed is `/`, and the result does not end in `/` |
| `Util.NormalizeURL` | src/util.js:13-17 | fails exactly when the parser rejects the slash-stripped string; otherwise it is the parsed URL's serialisation with the fragment cut off |
| `Util.StripOnlyAtEnd` | src/util.js:14-15 | a string not ending in `/` is unchanged by stripping, so `…/x/#f` keeps its `/x/` |
| `Util.NormalizeIgnoresTrailingSlash` | src/util.js:14 | a trailing slash makes no difference to the normal form |
| `Util.KeyKeepsTrailingSlash` | src/util.js:9-17 | `url/` and `url` normalise alike but give different request keys |
| `Util.NormalizeRejectsEmpty` | src/util.js:14 | with a parser that rejects `''`, normalising `''` or any all-slash string fails |
| `Record.ToLower` | src/record.js:54 | lower-casing keeps the length, maps each character, and leaves no upper-case ASCII letter |
| `Record.LowerCaseNames` | src/record.js:54 | the allow-list keeps its length and order, each name lower-cased |
| `Record.RestrictHeaders` | src/record.js:86-89 | keeps exactly the headers whose name is on the allow-list, values unchanged |
| `Record.RestrictToConfiguredNames` | src/record.js:54-88 | a response header survives exactly when its name is the lower-case form of a configured name |
| `Record.StripWww` | src/record.js:75-76 | exactly one leading `www.` is removed from the host, and nothing else changes |
| `Record.OutputName` | src/record.js:75-79 | the default name is `snapshot_<host>.json`, and an empty output counts as absent; with gzip the name ends in `.gz`, which is never added twice; without gzip a given name is kept |
| `Record.Recorder.OnRoute` | src/record.js:127-138 | aborts exactly when some DROP pattern matches the normalised URL, otherwise continues; throws when the URL does not parse |
| `Record.ResponseDecision` | src/record.js:140-174 | an entry is stored exactly when the URL normalises, is not `data:`, is not the index, the status is not 300-399 and below 500, and the body was read; the entry is then under `requestKey(r)` with a base64 body, the filtered headers, the normalised request URL, `response.url()` and the status |
| `Record.ApplyOutcome` | src/record.js:167 | a store sets that one key, replacing any earlier entry whatever its status, and no other key changes; a skip changes nothing |
| `Record.Recorder.constructor` | src/record.js:91 | the recorder starts with no responses and with the allow-list lower-cased |
| `Record.Recorder.OnResponse` | src/record.js:140-174 | the responses afterwards are the old ones with the hook's outcome applied; the entry invariant is kept |
| `Record.WithoutCss` | src/record.js:253-260 | keeps exactly the entries whose content type does not start with `text/css`, unchanged |
| `Record.Recorder.PurgeCssResponses` | src/record.js:253-260 | the in-place deletion loop leaves exactly the non-CSS entries, untouched; the entry invariant is kept |
| `Restore.RouteDecision` | src/restore.js:83-118 | each action is given by an if-and-only-if: the handler throws exactly when a URL fails to normalise. The index HTML, as `text/html; charset=utf-8`, is served exactly when the normalised URLs agree, before any lookup. Otherwise the lookup is by the raw request key. 204 is answered exactly when the entry exists with a truthy body, JS is off and the type is an exact script type. The entry is served exactly when it exists with a truthy body and JS is on or the type is not a script type; it carries its content type or `''`, the base64-decoded body and the archive-level status. In every remaining case the request continues |
| `Restore.ReplayOfRecordedResponse` | src/restore.js:96-112 | a response the recorder stored is, when the same request is replayed against the archive, served with the recorded bytes, the content type that the allow-list let through and the archive status; an empty body goes to the network and, with JS off, a script gets 204 |

## Left out

- Browser driving is not modelled because these are foreign browser calls. This covers: launching, contexts, `goto` and the navigation timeout, `waitForSelector`, element removal and CSS injection through `page.evaluate`, `page.content()` and the successive `snapshot.html` stages, `base_url`, the console relay and `describe`.
- PurgeCSS, CleanCSS and html-minifier-terser are not modelled because they are opaque libraries. The purge model starts from the entries' own content types.
- gzip and gunzip, file reads and writes, and JSON formatting are not modelled because they are I/O.
- `delay` and every timeout are not modelled because they are timers.
- The async ordering of the hooks is not modelled. Each hook call is one atomic step on `Recorder`.
- The WHATWG URL parser, the regular-expression engine and `Buffer` base64 are parameters, not definitions. A property that needs one of their laws states that law as a `requires`.
- An exception from `normalizeURL` inside a hook becomes an outcome (`HandlerThrows`, `UrlRejected`). The model does not follow what Node.js then does with the rejected promise.
- Building DROP (src/record.js:81-84) is not modelled separately: the compiled regular expressions are the pattern list itself, read through the `matches` parameter.
- `smartSplit`, `toBool` and `checkBrowser` are not part of this model, because their definitions are not in src/util.js. The allow-list reaches the model already split.
- The host of `new URL(URI)` is an input to `OutputName`. If `URI` does not parse, the script stops there, and that path is not modelled.
- The CLI scripts, `cli/stats.js` and the block-list updater are not modelled because they are argument parsing, reporting and HTTP fetching.
- Console logging in the hooks and handlers is not modelled, because it only reports and changes no state (src/record.js:132, 151, 155, 158, 164; src/restore.js:88, 106).
- Strings in JavaScript are UTF-16 code units, and `decode` works on those. The model's strings are Unicode scalar values, so a lone surrogate cannot be represented. Every character the encoder emits and every decoded `=XX` is below 256, where the two views agree.
- Quopri.StripLineEndWs: its own contract states only the length bound. What it deletes is proved in `StripLine` and `StripOnlyDeletes`, which keeps those facts out of every use of the function.
- Quopri.RemoveSoftBreaks: its own contract states only the length bound. What it deletes is proved in `SoftBreakRemoved` and `SoftBreaksPlain`.
- Quopri.DecodeEscapes: its own contract states only the length bound. What it replaces is proved in `EscapeOfByteDecoded` and `EscapesPlain`.
- Quopri.Decode: its own contract states only the length bound. The round trip is `RoundTrip`, and text without `=` is covered by `DecodePlain`.
- Quopri.Encode: a string argument is first UTF-8 encoded (src/quopri.js:33-35). The model takes the bytes.
- Record.ToLower: only ASCII letters are lower-cased, while JavaScript's `toLowerCase` maps all of Unicode.
- Record.RestrictHeaders: the result is a map, so the order of `Object.entries` is not kept.
- Record.Recorder.PurgeCssResponses: the `res.body = null` before each deletion is not modelled, because entries are values and the deleted entry is no longer reachable.
