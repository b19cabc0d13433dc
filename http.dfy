/** Shared vocabulary of the HTTP layer: requests, responses, cookies,
    status codes, and the few Go `strings` helpers the handlers use. */
module Http {

  type byte = x: int | 0 <= x < 256

  datatype Option<+T> = None | Some(value: T)

  datatype Result<+T, +E> = Ok(value: T) | Err(error: E)

  // Status codes of RFC 9110 section 15 that the handlers produce.
  const StatusOK := 200
  const StatusBadRequest := 400
  const StatusForbidden := 403
  const StatusNotFound := 404
  const StatusMethodNotAllowed := 405
  const StatusConflict := 409
  const StatusInternalServerError := 500

  datatype Method = GET | POST | PUT | DELETE | PATCH

  /** The parts of an inbound request the handlers look at. `query` holds the
      first value of each query parameter, `cookies` the value of each cookie
      the client sent. */
  datatype Request = Request(
    verb: Method,
    urlPath: string,
    query: map<string, string>,
    cookies: map<string, string>,
    tls: bool,
    body: seq<byte>)

  /** `r.URL.Query().Get(key)`: the value, or "" when the parameter is absent. */
  function QueryGet(r: Request, key: string): string
  {
    if key in r.query then r.query[key] else ""
  }

  /** A Set-Cookie instruction. */
  datatype Cookie = Cookie(name: string, value: string, maxAge: int, path: string, secure: bool)

  /** What a handler writes back: a status, an optional body, headers and cookies. */
  datatype Response<+B> = Response(status: int, body: Option<B>, headers: map<string, string>, cookies: seq<Cookie>)

  /** A response that carries only a status (what `httpErr` writes). */
  function StatusOnly<B>(status: int): Response<B>
  {
    Response(status, None, map[], [])
  }

  predicate HasPrefix(s: string, prefix: string)
  {
    prefix <= s
  }

  predicate HasSuffix(s: string, suffix: string)
  {
    |suffix| <= |s| && s[|s| - |suffix|..] == suffix
  }

  /** Go's `strings.TrimPrefix`: removes one leading `prefix` if present. */
  function TrimPrefix(s: string, prefix: string): (r: string)
    ensures HasPrefix(s, prefix) ==> s == prefix + r
    ensures !HasPrefix(s, prefix) ==> r == s
  {
    if HasPrefix(s, prefix) then s[|prefix|..] else s
  }

  /** Go's `strings.TrimSuffix`: removes one trailing `suffix` if present. */
  function TrimSuffix(s: string, suffix: string): (r: string)
    ensures HasSuffix(s, suffix) ==> s == r + suffix
    ensures !HasSuffix(s, suffix) ==> r == s
  {
    if HasSuffix(s, suffix) then s[..|s| - |suffix|] else s
  }
}
