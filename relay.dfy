/**
  The request router of the library relay: a message listener that answers
  `{verb, url, cookies}` messages from an embedded wiki as if it were a local
  content server, serving the asset catalog from memory and single entries
  by fetching them from a remote library.

  The listener is modelled as a function from the inbound message (and the
  catalog, the library's base URL and the host primitives) to the reply it
  posts, `None` when it posts nothing.
*/
module Relay {
  import opened Wrappers
  import opened JsonValues
  import UriComponent

  const CATALOG_PATH := "recipes/library/tiddlers.json"
  const ENTRY_PREFIX := "recipes/library/tiddlers/"
  const JSON_SUFFIX := ".json"
  const NOT_FOUND_BODY := "Not found"

  /** An inbound message; `cookies` is opaque and only echoed back. */
  datatype Request<C> = Request(verb: string, url: string, cookies: C)

  /** A posted reply; `mimeType` is the message's `type` field. */
  datatype Response<C> = Response(
    verb: string, status: string, cookies: C, url: string, mimeType: string, body: string)

  /** What a GET resolves to before it is wrapped in an envelope. */
  datatype Outcome = Found(json: string) | NotFound

  /** The three routes a GET can take. */
  datatype Route = CatalogRoute | EntryRoute | FallbackRoute

  // ---------------------------------------------------------------------------
  // String helpers

  /** `s.startsWith(p)`; for the route check, also `s.indexOf(p) === 0`. */
  predicate StartsWith(s: string, p: string) {
    |p| <= |s| && s[..|p|] == p
  }

  /** `s.endsWith(x)`. */
  predicate EndsWith(s: string, x: string) {
    |x| <= |s| && s[|s| - |x|..] == x
  }

  /** `removePrefix(s, p)`: `s` without its leading `p`, or `s` itself when it does not start with `p`. */
  function RemovePrefix(s: string, p: string): (r: string)
    ensures StartsWith(s, p) ==> p + r == s && |r| == |s| - |p|
    ensures !StartsWith(s, p) ==> r == s
  {
    if StartsWith(s, p) then s[|p|..] else s
  }

  // ---------------------------------------------------------------------------
  // Route classification and the single-entry request

  /** The route of a GET for `url`, checked in the listener's order. */
  function Classify(url: string): (r: Route)
    ensures r == CatalogRoute <==> url == CATALOG_PATH
    ensures r == EntryRoute <==> StartsWith(url, ENTRY_PREFIX)
    ensures r == FallbackRoute <==> url != CATALOG_PATH && !StartsWith(url, ENTRY_PREFIX)
  {
    RoutesDisjoint(url);
    if url == CATALOG_PATH then CatalogRoute
    else if StartsWith(url, ENTRY_PREFIX) then EntryRoute
    else FallbackRoute
  }

  /** The catalog path lacks the prefix's trailing slash, so no URL is on both routes. */
  lemma RoutesDisjoint(url: string)
    ensures url == CATALOG_PATH ==> !StartsWith(url, ENTRY_PREFIX)
  {
    if url == CATALOG_PATH {
      assert url[|ENTRY_PREFIX| - 1] == '.' != ENTRY_PREFIX[|ENTRY_PREFIX| - 1];
    }
  }

  /** At most one trailing `.json` comes off. */
  function StripJsonSuffix(t: string): (r: string)
    ensures EndsWith(t, JSON_SUFFIX) ==> r + JSON_SUFFIX == t
    ensures !EndsWith(t, JSON_SUFFIX) ==> r == t
  {
    if EndsWith(t, JSON_SUFFIX) then t[..|t| - |JSON_SUFFIX|] else t
  }

  /** The entry title named by a single-entry URL. */
  function ExtractTitle(url: string): string {
    StripJsonSuffix(RemovePrefix(url, ENTRY_PREFIX))
  }

  /** The remote request for one entry, system tiddlers included. */
  function RemoteUrl(baseUrl: string, title: string): string {
    baseUrl + "/tiddlers.json?title=" + UriComponent.Encode(title) + "&include_system=1"
  }

  /** A URL on the single-entry route is the prefix, the title and possibly one `.json`. */
  lemma TitleRecovered(url: string)
    requires StartsWith(url, ENTRY_PREFIX)
    ensures url == ENTRY_PREFIX + ExtractTitle(url)
         || url == ENTRY_PREFIX + ExtractTitle(url) + JSON_SUFFIX
  {
  }

  /** `prefix + T + ".json"` names `T`, whatever `T` ends with: `a.json.json` names `a.json`. */
  lemma TitleOfJsonUrl(title: string)
    ensures ExtractTitle(ENTRY_PREFIX + title + JSON_SUFFIX) == title
  {
  }

  /** `prefix + T` names `T` when `T` does not end in `.json`. */
  lemma TitleOfPlainUrl(title: string)
    requires !EndsWith(title, JSON_SUFFIX)
    ensures ExtractTitle(ENTRY_PREFIX + title) == title
  {
  }

  /** The part of `s` before the first `c`. */
  function UpTo(s: string, c: char): (r: string)
    ensures |r| <= |s| && r == s[..|r|] && c !in r
    ensures |r| < |s| ==> s[|r|] == c
  {
    if s == [] || s[0] == c then [] else [s[0]] + UpTo(s[1..], c)
  }

  lemma {:induction false} UpToStopsAtFirst(e: string, c: char, t: string)
    requires c !in e
    ensures UpTo(e + [c] + t, c) == e
  {
    if e != [] {
      assert (e + [c] + t)[1..] == e[1..] + [c] + t;
      UpToStopsAtFirst(e[1..], c, t);
      assert [e[0]] + e[1..] == e;
    }
  }

  /**
    How the library reads the `title` parameter back: the text between
    `?title=` and the next `&`, percent-decoded.
  */
  function QueryTitle(baseUrl: string, url: string): Option<string> {
    var head := baseUrl + "/tiddlers.json?title=";
    if StartsWith(url, head) then UriComponent.Decode(UpTo(url[|head|..], '&')) else None
  }

  /**
    The remote URL carries the title intact in its `title` parameter, and the
    parameter ends exactly where `&include_system=1` begins: no title, however
    many `&`, `=` or `#` it holds, adds or changes a query parameter.
  */
  lemma RemoteUrlCarriesTitle(baseUrl: string, title: string)
    ensures QueryTitle(baseUrl, RemoteUrl(baseUrl, title)) == Some(title)
    ensures var head := baseUrl + "/tiddlers.json?title=";
            var encoded := UpTo(RemoteUrl(baseUrl, title)[|head|..], '&');
            RemoteUrl(baseUrl, title)[|head| + |encoded|..] == "&include_system=1"
  {
    var head := baseUrl + "/tiddlers.json?title=";
    var e := UriComponent.Encode(title);
    var url := RemoteUrl(baseUrl, title);
    assert url == head + (e + ['&'] + "include_system=1");
    assert url[..|head|] == head;
    assert url[|head|..] == e + ['&'] + "include_system=1";
    UriComponent.EncodeIsQuerySafe(title);
    assert '&' !in e;
    UpToStopsAtFirst(e, '&', "include_system=1");
    UriComponent.DecodeEncode(title);
  }

  /** Distinct titles are fetched from distinct remote URLs. */
  lemma RemoteUrlInjective(baseUrl: string, t1: string, t2: string)
    requires RemoteUrl(baseUrl, t1) == RemoteUrl(baseUrl, t2)
    ensures t1 == t2
  {
    var head := baseUrl + "/tiddlers.json?title=";
    var tail := "&include_system=1";
    var e1, e2 := UriComponent.Encode(t1), UriComponent.Encode(t2);
    assert RemoteUrl(baseUrl, t1) == head + e1 + tail;
    assert RemoteUrl(baseUrl, t2) == head + e2 + tail;
    assert |e1| == |e2|;
    assert e1 == (head + e1 + tail)[|head|..|head| + |e1|];
    assert e2 == (head + e2 + tail)[|head|..|head| + |e2|];
    UriComponent.EncodeInjective(t1, t2);
  }

  // ---------------------------------------------------------------------------
  // Bracket stripping

  /** A single-element array loses its brackets; anything else is printed as it is. */
  function Unwrapped(v: Json, host: Host): (r: string)
    ensures v.Arr? && |v.items| == 1 ==> r == host.stringify(v.items[0])
    ensures !(v.Arr? && |v.items| == 1) ==> r == host.stringify(v)
  {
    if v.Arr? && |v.items| == 1 then host.stringify(v.items[0]) else host.stringify(v)
  }

  /**
    `stripOuterBrackets(json)`: a string is parsed first and, when it is not
    JSON, returned unchanged; the parsed (or given) value is then unwrapped.
  */
  function StripOuterBrackets(json: Json, host: Host): (r: string)
    ensures json.Str? && host.parse(json.s).None? ==> r == json.s
    ensures json.Str? && host.parse(json.s).Some? ==> r == Unwrapped(host.parse(json.s).value, host)
    ensures !json.Str? ==> r == Unwrapped(json, host)
  {
    if json.Str? then
      match host.parse(json.s)
      case None => json.s
      case Some(parsed) => Unwrapped(parsed, host)
    else Unwrapped(json, host)
  }

  /**
    A non-string value that arrives wrapped in a JSON string is served the same
    as the value itself, provided the host's parser reads back what its printer
    wrote. A string value is not: it would be parsed a second time.
  */
  lemma StripOuterBracketsOfEncodedString(v: Json, host: Host)
    requires !v.Str?
    requires host.parse(host.stringify(v)) == Some(v)
    ensures StripOuterBrackets(Str(host.stringify(v)), host) == StripOuterBrackets(v, host)
  {
  }

  /** Only one pair of brackets comes off: `[[x]]` is served as `[x]`. */
  lemma StripOneLevelOnly(x: Json, host: Host)
    ensures StripOuterBrackets(Arr([Arr([x])]), host) == host.stringify(Arr([x]))
  {
  }

  // ---------------------------------------------------------------------------
  // Catalog loader

  /** The catalog request: the title is not encoded and system tiddlers are not asked for. */
  function AssetListUrl(libraryUrl: string): string {
    libraryUrl + "/tiddlers.json?title=assetList"
  }

  /**
    `fetchAssetList()`: the `libraryUrl` query parameter (`None` when absent)
    selects the remote library; a missing or empty parameter and every failure
    give the empty list, and success gives the parsed body unchanged.
  */
  function FetchAssetList(libraryUrl: Option<string>, host: Host): (catalog: Json)
    ensures libraryUrl.None? || libraryUrl == Some("") ==> catalog == Arr([])
    ensures libraryUrl.Some? && libraryUrl != Some("") ==>
      var result := host.fetch(AssetListUrl(libraryUrl.value));
      && (result.NetworkError? ==> catalog == Arr([]))
      && (result.HttpResponse? && !IsOk(result.status) ==> catalog == Arr([]))
      && (result.HttpResponse? && host.parse(result.body).None? ==> catalog == Arr([]))
      && (result.HttpResponse? && IsOk(result.status) && host.parse(result.body).Some? ==>
            catalog == host.parse(result.body).value)
  {
    match libraryUrl
    case None => Arr([])
    case Some(u) =>
      if u == "" then Arr([])
      else match FetchJson(AssetListUrl(u), host)
        case None => Arr([])
        case Some(data) => data
  }

  /** Fail-soft: the catalog is either empty or exactly what the library returned for the asset list. */
  lemma FetchAssetListFailSoft(libraryUrl: Option<string>, host: Host)
    ensures var catalog := FetchAssetList(libraryUrl, host);
      || catalog == Arr([])
      || (libraryUrl.Some? && FetchJson(AssetListUrl(libraryUrl.value), host) == Some(catalog))
  {
  }

  // ---------------------------------------------------------------------------
  // The listener

  /** The single-entry route: fetch, check, parse, strip; any failure is a plain 404. */
  function FetchEntry(url: string, baseUrl: string, host: Host): (r: Outcome)
  {
    match FetchJson(RemoteUrl(baseUrl, ExtractTitle(url)), host)
    case None => NotFound
    case Some(data) => Found(StripOuterBrackets(data, host))
  }

  /** What a GET for `url` resolves to. */
  function Answer(url: string, catalog: Json, baseUrl: string, host: Host): Outcome {
    match Classify(url)
    case CatalogRoute => Found(host.stringify(catalog))
    case EntryRoute => FetchEntry(url, baseUrl, host)
    case FallbackRoute => NotFound
  }

  /** The envelope every reply shares; only status, type and body depend on the outcome. */
  function Envelope<C>(req: Request<C>, outcome: Outcome): Response<C> {
    match outcome
    case Found(json) => Response("GET-RESPONSE", "200", req.cookies, req.url, "application/json", json)
    case NotFound => Response("GET-RESPONSE", "404", req.cookies, req.url, "text/plain", NOT_FOUND_BODY)
  }

  predicate IsOkReply<C>(r: Response<C>) {
    r.status == "200" && r.mimeType == "application/json"
  }

  predicate IsNotFoundReply<C>(r: Response<C>) {
    r.status == "404" && r.mimeType == "text/plain" && r.body == NOT_FOUND_BODY
  }

  /**
    The message listener with the library's base URL in scope: the reply it
    posts for `req`, or `None` when it posts nothing.
  */
  function Listen<C>(req: Request<C>, catalog: Json, baseUrl: string, host: Host): (reply: Option<Response<C>>)
    ensures reply.None? <==> req.verb != "GET"
    ensures reply.Some? ==>
      && reply.value.verb == "GET-RESPONSE"
      && reply.value.url == req.url
      && reply.value.cookies == req.cookies
      && (IsOkReply(reply.value) || IsNotFoundReply(reply.value))
  {
    if req.verb != "GET" then None
    else Some(Envelope(req, Answer(req.url, catalog, baseUrl, host)))
  }

  /** The catalog route serves the whole catalog, printed. */
  lemma CatalogReply<C>(req: Request<C>, catalog: Json, baseUrl: string, host: Host)
    requires req.verb == "GET" && req.url == CATALOG_PATH
    ensures Listen(req, catalog, baseUrl, host)
         == Some(Response("GET-RESPONSE", "200", req.cookies, req.url, "application/json", host.stringify(catalog)))
  {
  }

  /** The single-entry route asks the library for the extracted title and answers with what it gets. */
  lemma EntryReply<C>(req: Request<C>, catalog: Json, baseUrl: string, host: Host)
    requires req.verb == "GET" && StartsWith(req.url, ENTRY_PREFIX)
    ensures var fetched := FetchJson(RemoteUrl(baseUrl, ExtractTitle(req.url)), host);
      Listen(req, catalog, baseUrl, host)
      == Some(if fetched.Some?
              then Response("GET-RESPONSE", "200", req.cookies, req.url, "application/json",
                            StripOuterBrackets(fetched.value, host))
              else Response("GET-RESPONSE", "404", req.cookies, req.url, "text/plain", NOT_FOUND_BODY))
  {
  }

  /** A network error or a status outside 200..299 from the library is reported as a plain 404. */
  lemma EntryFailureIsNotFound<C>(req: Request<C>, catalog: Json, baseUrl: string, host: Host)
    requires req.verb == "GET" && StartsWith(req.url, ENTRY_PREFIX)
    requires var result := host.fetch(RemoteUrl(baseUrl, ExtractTitle(req.url)));
      result.NetworkError? || !IsOk(result.status)
    ensures Listen(req, catalog, baseUrl, host)
         == Some(Response("GET-RESPONSE", "404", req.cookies, req.url, "text/plain", NOT_FOUND_BODY))
  {
  }

  /** Every other URL is a plain 404 without any request to the library. */
  lemma FallbackReply<C>(req: Request<C>, catalog: Json, baseUrl: string, host: Host)
    requires req.verb == "GET" && req.url != CATALOG_PATH && !StartsWith(req.url, ENTRY_PREFIX)
    ensures Listen(req, catalog, baseUrl, host)
         == Some(Response("GET-RESPONSE", "404", req.cookies, req.url, "text/plain", NOT_FOUND_BODY))
  {
  }

  /** A reply is a 200 exactly for the catalog and for an entry the library delivered as JSON. */
  lemma OkExactly<C>(req: Request<C>, catalog: Json, baseUrl: string, host: Host)
    requires req.verb == "GET"
    ensures Listen(req, catalog, baseUrl, host).value.status == "200" <==>
      (|| req.url == CATALOG_PATH
       || (StartsWith(req.url, ENTRY_PREFIX) && FetchJson(RemoteUrl(baseUrl, ExtractTitle(req.url)), host).Some?))
  {
  }

  /**
    For a title `T` that does not end in `.json`, `prefix + T` and
    `prefix + T + ".json"` are the same request to the library and, for the same answer from the library, get the same status,
    type and body.
  */
  lemma JsonSuffixIrrelevant<C>(title: string, cookies: C, catalog: Json, baseUrl: string, host: Host)
    requires !EndsWith(title, JSON_SUFFIX)
    ensures RemoteUrl(baseUrl, ExtractTitle(ENTRY_PREFIX + title))
         == RemoteUrl(baseUrl, ExtractTitle(ENTRY_PREFIX + title + JSON_SUFFIX))
    ensures var plain := Listen(Request("GET", ENTRY_PREFIX + title, cookies), catalog, baseUrl, host).value;
            var suffixed := Listen(Request("GET", ENTRY_PREFIX + title + JSON_SUFFIX, cookies), catalog, baseUrl, host).value;
            plain.status == suffixed.status && plain.mimeType == suffixed.mimeType && plain.body == suffixed.body
  {
    TitleOfPlainUrl(title);
    TitleOfJsonUrl(title);
    var plainUrl := ENTRY_PREFIX + title;
    var suffixedUrl := ENTRY_PREFIX + title + JSON_SUFFIX;
    assert StartsWith(plainUrl, ENTRY_PREFIX) by { assert plainUrl[..|ENTRY_PREFIX|] == ENTRY_PREFIX; }
    assert StartsWith(suffixedUrl, ENTRY_PREFIX) by { assert suffixedUrl[..|ENTRY_PREFIX|] == ENTRY_PREFIX; }
  }

  /** A catalog loaded at startup is what the catalog route later serves. */
  lemma LoadedCatalogServed<C>(libraryUrl: string, data: Json, req: Request<C>, baseUrl: string, host: Host)
    requires libraryUrl != ""
    requires FetchJson(AssetListUrl(libraryUrl), host) == Some(data)
    requires req.verb == "GET" && req.url == CATALOG_PATH
    ensures Listen(req, FetchAssetList(Some(libraryUrl), host), baseUrl, host).value.body == host.stringify(data)
  {
  }

  // ---------------------------------------------------------------------------
  // The listener as written

  /**
    The listener exactly as written. Line 44 of relay.js reads `libraryUrl`,
    which is declared only inside `fetchAssetList`; the lookup throws a
    ReferenceError before the `try` of the single-entry route, the listener's
    promise rejects and no reply is posted. Every other message is answered
    as by `Listen`, whatever the base URL, since those routes never read it.
  */
  function ListenAsWritten<C>(req: Request<C>, catalog: Json, host: Host): (reply: Option<Response<C>>)
    ensures req.verb == "GET" && StartsWith(req.url, ENTRY_PREFIX) ==> reply.None?
    ensures !(req.verb == "GET" && StartsWith(req.url, ENTRY_PREFIX)) ==>
      forall baseUrl: string :: reply == Listen(req, catalog, baseUrl, host)
  {
    if req.verb == "GET" && Classify(req.url) == EntryRoute then None
    else Listen(req, catalog, "", host)
  }

  /** Every single-entry request goes unanswered as written, though the intended listener answers it. */
  lemma EntryRequestUnansweredAsWritten<C>(cookies: C, catalog: Json, baseUrl: string, host: Host)
    ensures var req := Request("GET", ENTRY_PREFIX + "Foo", cookies);
      ListenAsWritten(req, catalog, host).None? && Listen(req, catalog, baseUrl, host).Some?
  {
  }
}
