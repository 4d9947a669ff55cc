/** Request headers and responses as the route handlers see them. */
module Http {
  import opened Wrappers

  /** Request or response headers, keyed by lower-case header name. */
  type Headers = map<string, string>

  /** `headers.get(name)`: `None` for an absent header. */
  function Header(h: Headers, name: string): Option<string> {
    if name in h then Some(h[name]) else None
  }

  /** A response: status code, headers and a route-specific body. */
  datatype Response<B> = Response(status: int, headers: Headers, body: B)
}
