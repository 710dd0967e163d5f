/**
  JSON values as the relay sees them, and the host primitives it calls.

  The relay never looks inside a JSON value except to ask whether it is a
  string (to parse it once more) or an array of exactly one element, so the
  formatting done by
  `JSON.stringify(v, null, 4)`, the grammar accepted by `JSON.parse` and the
  network behind `fetch` stay uninterpreted: they are fields of `Host`, and
  every property below holds for every choice of them.
*/
module JsonValues {
  import opened Wrappers

  /** A parsed JSON value. Numbers are kept opaque (as reals); object members keep their order. */
  datatype Json =
    | Null
    | Bool(b: bool)
    | Number(n: real)
    | Str(s: string)
    | Arr(items: seq<Json>)
    | Obj(members: seq<(string, Json)>)

  /** What `fetch(url)` settles to: a rejected promise, or a response with a status and a body text. */
  datatype HttpResult =
    | NetworkError
    | HttpResponse(status: int, body: string)

  /**
    The browser primitives the relay depends on:
    `fetch` (one request per call), `parse` (`JSON.parse`; `None` when it throws)
    and `stringify` (`JSON.stringify(v, null, 4)`, four-space pretty printing).
  */
  datatype Host = Host(
    fetch: string -> HttpResult,
    parse: string -> Option<Json>,
    stringify: Json -> string)

  /** `Response.ok`: the status is in the range 200 to 299. */
  predicate IsOk(status: int) {
    200 <= status <= 299
  }

  /**
    `fetch(url)`, the `ok` check, then `response.json()`: the parsed body when
    all three succeed, `None` for a network error, a status outside 200..299 or
    a body that is not JSON.
  */
  function FetchJson(url: string, host: Host): (r: Option<Json>)
    ensures r.Some? <==>
      host.fetch(url).HttpResponse? && IsOk(host.fetch(url).status) && host.parse(host.fetch(url).body).Some?
    ensures r.Some? ==> r == host.parse(host.fetch(url).body)
  {
    match host.fetch(url)
    case NetworkError => None
    case HttpResponse(status, text) =>
      if !IsOk(status) then None else host.parse(text)
  }
}
