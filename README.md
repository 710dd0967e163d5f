# Library relay: request routing

A Dafny model of the request-routing core of `tiddlyhost-plugin-library/relay.js`.
The relay is a page that an embedded TiddlyWiki talks to as if it were a local
content server. The relay answers each `{verb, url, cookies}` message itself:
- `recipes/library/tiddlers.json` gets the asset catalog, which is loaded once at startup.
- `recipes/library/tiddlers/<title>[.json]` gets one entry, fetched from the remote library.
- Any other URL gets a plain 404.

The model is pure, as the routing is. The listener becomes a function from the
message to the reply it posts (`None` when it posts nothing). The browser
primitives become the fields of `JsonValues.Host`:
- `fetch`, which settles to `NetworkError` or `HttpResponse(status, body)`;
- `JSON.parse`, which gives `None` where it throws;
- `JSON.stringify(_, null, 4)`.

Every property holds for every choice of these three. `encodeURIComponent` is
modelled exactly as ECMA-262 defines it: the unescaped set, then UTF-8, then
upper-case `%XY` per section 2.1 of RFC 3986. It comes with the matching
`decodeURIComponent` and a round-trip proof.

Modules:
- `Wrappers`: `Option`.
- `JsonValues`: JSON values, `Host`, and `FetchJson`. `FetchJson` is the fetch, `ok` check and `response.json()` sequence that both fetches share.
- `UriComponent`: `encodeURIComponent`, `decodeURIComponent` and their round trip.
- `Relay`: `removePrefix`, route classification, title extraction, the remote URL, `stripOuterBrackets`, `fetchAssetList`, the listener and the listener as written.

Where the relay's intended design and its code differ, the model follows the code:
- An empty `libraryUrl` parameter is falsy, so it is treated like a missing one (line 106).
- A parsed entry that is itself a JSON string is parsed a second time by `stripOuterBrackets` (line 133). When that second parse fails, the string is served unquoted.
- The design promises that `prefix + T` and `prefix + T + ".json"` make the same remote request for every title. The code gives this only for a title `T` that does not end in `.json`. A title such as `a.json` cannot be reached as `prefix + T`, because `…/a.json` is fetched as `a` (lines 40-42).
- The single-entry route as written never answers at all; see Findings. The 404 path at lines 64-77 does not cover that failure: the error is thrown before the `try`.

## Model

| member | source | states |
|---|---|---|
| `Relay.RemovePrefix` | tiddlyhost-plugin-library/relay.js:126-128 | if `s` starts with `p`, then `p + r == s` and `r` is `|p|` shorter; otherwise `r == s` |
| `Relay.Classify` | tiddlyhost-plugin-library/relay.js:20-33 | the catalog route is taken iff the URL equals the catalog path; the entry route iff the URL starts with the entry prefix; the fallback otherwise. Together these make the three routes total and exclusive |
| `Relay.RoutesDisjoint` | tiddlyhost-plugin-library/relay.js:20-33 | the catalog path does not start with the entry prefix (it lacks the trailing `/`), so the order of the two checks does not matter |
| `Relay.StripJsonSuffix` | tiddlyhost-plugin-library/relay.js:40-42 | a title ending in `.json` loses exactly that suffix (`r + ".json" == t`); any other title is unchanged |
| `Relay.TitleRecovered` | tiddlyhost-plugin-library/relay.js:35-42 | every single-entry URL is the prefix plus the extracted title, with one optional `.json` after it |
| `Relay.TitleOfJsonUrl` | tiddlyhost-plugin-library/relay.js:35-42 | `prefix + T + ".json"` names `T` for every `T`: only one suffix comes off, so `a.json.json` names `a.json` |
| `Relay.TitleOfPlainUrl` | tiddlyhost-plugin-library/relay.js:35-42 | `prefix + T` names `T` when `T` does not end in `.json` |
| `Relay.JsonSuffixIrrelevant` | tiddlyhost-plugin-library/relay.js:35-60 | for a title `T` that does not end in `.json`, `prefix + T` and `prefix + T + ".json"` make the same remote request and, for the same answer from the library, get the same status, type and body |
| `UriComponent.EncodeIsQuerySafe` | tiddlyhost-plugin-library/relay.js:44 | the encoded title contains only unescaped characters and `%`, so it holds no `&`, `=`, `#` or space |
| `UriComponent.DecodeEncode` | tiddlyhost-plugin-library/relay.js:44 | `decodeURIComponent(encodeURIComponent(s)) == s` for every string |
| `UriComponent.EncodeInjective` | tiddlyhost-plugin-library/relay.js:44 | different titles have different encodings |
| `Relay.RemoteUrlCarriesTitle` | tiddlyhost-plugin-library/relay.js:44 | reading the remote URL's `title` parameter back (up to the next `&`, then decoded) gives the title. What follows is exactly `&include_system=1`, so no title adds or changes a query parameter |
| `Relay.RemoteUrlInjective` | tiddlyhost-plugin-library/relay.js:44 | with the same base URL, distinct titles are fetched from distinct remote URLs |
| `JsonValues.FetchJson` | tiddlyhost-plugin-library/relay.js:47-51 | the parsed body is returned iff the fetch resolved, its status is in 200..299 and the body parses; it is then exactly the parse of that body |
| `Relay.Unwrapped` | tiddlyhost-plugin-library/relay.js:134-137 | a single-element array prints as its element; every other value prints as itself |
| `Relay.StripOuterBrackets` | tiddlyhost-plugin-library/relay.js:131-142 | a string that fails to parse is returned unchanged; a string that parses is unwrapped as its parsed value; any other value is unwrapped as it is |
| `Relay.StripOuterBracketsOfEncodedString` | tiddlyhost-plugin-library/relay.js:133-137 | if the host parser reads back what its printer wrote, a non-string value wrapped in a JSON string is served the same as the value itself |
| `Relay.StripOneLevelOnly` | tiddlyhost-plugin-library/relay.js:134-135 | only one pair of brackets comes off: `[[x]]` is served as the printed `[x]` |
| `Relay.FetchAssetList` | tiddlyhost-plugin-library/relay.js:102-123 | a missing or empty `libraryUrl` gives `[]`. Otherwise, for the fetch of the asset-list URL: a network error, a status outside 200..299 or an unparsable body each give `[]`, and an ok status with a parsable body gives the parsed body unchanged |
| `Relay.FetchAssetListFailSoft` | tiddlyhost-plugin-library/relay.js:106-122 | the catalog is always either `[]` or exactly what the library returned for `?title=assetList` |
| `Relay.Listen` | tiddlyhost-plugin-library/relay.js:18-93 | there is a reply iff the verb is `GET`. Every reply has verb `GET-RESPONSE`, echoes `url` and `cookies`, and is either 200/`application/json` or 404/`text/plain`/`Not found` |
| `Relay.CatalogReply` | tiddlyhost-plugin-library/relay.js:20-32 | a GET for the catalog path gets 200, `application/json` and the printed catalog |
| `Relay.EntryReply` | tiddlyhost-plugin-library/relay.js:33-77 | a GET on the entry route fetches the remote URL built from the extracted title. It gets 200 with the bracket-stripped data when the fetch delivers JSON, and the plain 404 otherwise |
| `Relay.EntryFailureIsNotFound` | tiddlyhost-plugin-library/relay.js:46-77 | a network error or a status outside 200..299 (HTTP 500, say) gives status 404, `text/plain`, `Not found` |
| `Relay.FallbackReply` | tiddlyhost-plugin-library/relay.js:78-91 | any other URL gets the plain 404 |
| `Relay.OkExactly` | tiddlyhost-plugin-library/relay.js:18-91 | a GET is answered 200 exactly for the catalog path and for an entry the library delivered as JSON |
| `Relay.LoadedCatalogServed` | tiddlyhost-plugin-library/relay.js:8-29 | a catalog that loaded successfully at startup is what the catalog route serves, printed |
| `Relay.ListenAsWritten` | tiddlyhost-plugin-library/relay.js:44 | as written, a GET on the entry route posts nothing; every other message, non-GET messages on the entry route included, is answered as by `Listen` with any base URL |
| `Relay.EntryRequestUnansweredAsWritten` | tiddlyhost-plugin-library/relay.js:44 | for `{verb: "GET", url: "recipes/library/tiddlers/Foo"}` the listener as written posts nothing, while `Listen` replies |

## Findings

| source | as written | input that shows it | evidently intended | confidence | as-written member | corrected member |
|---|---|---|---|---|---|---|
| tiddlyhost-plugin-library/relay.js:44 | reads `libraryUrl`, which is declared only inside `fetchAssetList` (line 104). The lookup throws a ReferenceError before the `try` at line 46, the listener's promise rejects, and nothing is posted | `{verb: "GET", url: "recipes/library/tiddlers/Foo"}` | fetch `<libraryUrl>/tiddlers.json?title=Foo&include_system=1` and reply 200 with the entry, or the plain 404 | not executed; high, unless the page happens to define a global named `libraryUrl` (an element with that id, say) | `Relay.ListenAsWritten`, `Relay.EntryRequestUnansweredAsWritten` | `Relay.Listen`, which takes the library's base URL as the parameter `baseUrl` |

## Left out

- Browser I/O: `window.addEventListener`, `event.source.postMessage`, `URLSearchParams` and `window.location`. Each message is an input, each posted reply is the `Option<Response>` result, and the `libraryUrl` parameter is an `Option<string>` input. A `postMessage` that throws is not modelled.
- The page-level variable `assetList` (lines 4 and 8) is assigned once, before the listener is installed. It is modelled as the value of `FetchAssetList` that is passed to `Listen`. The outer `try` (lines 7-100) catches nothing, because `fetchAssetList` catches its own failures.
- `fetch`, `JSON.parse` and `JSON.stringify(_, null, 4)` are uninterpreted fields of `Host`. The model does not state their formatting and grammar, and JSON numbers are kept as opaque reals.
- Concurrency of interleaved listener invocations, and fetches that never settle: the modelled `fetch` always settles, and each message is routed on its own.
- A library that changes between requests, and transient failures: `Host.fetch` is a fixed function of the URL, so two requests for the same URL get the same answer. The second ensures of `JsonSuffixIrrelevant` (same status, type and body) rests on this; its first ensures (the same remote request) does not.
- Logging (`console.log`, `console.error`), and the unchecked `event.origin` with the wildcard `"*"` target of every post. Neither changes what is routed or replied.
- Messages whose `data` is missing or whose `url` is not a string are outside the model, which types `url` as a string. Most such messages make the source throw a TypeError and post nothing. An array `url` has its own `indexOf`: one whose first element is not the entry prefix takes the fallback 404, which echoes the array; `["recipes/library/tiddlers/"]` reaches `removePrefix` and throws there (line 127).
- Titles holding a lone UTF-16 surrogate: `encodeURIComponent` throws a URIError at line 44 and nothing is posted. Dafny strings hold Unicode scalar values only, so such titles cannot be represented.
