/** The calls the source makes into code outside this model (Node's crypto,
    the WHATWG URL parser, `encodeURIComponent`, the mime-types table, JSON,
    `Number`), gathered as function values. The model says nothing about them
    beyond what their types say; each is deterministic because it is a
    function. */
module Foreign {
  import opened Wrappers

  type Bytes = seq<bv8>

  datatype Externals = Externals(
    /** `sha256Base64Url`: SHA-256 (FIPS 180-4) of the bytes, base64url
        encoded without padding (section 5 of RFC 4648). */
    sha256Base64Url: Bytes -> string,
    /** SHA-256 of a string's UTF-8 bytes as lower-case hex (`hashIp`). */
    sha256Hex: string -> string,
    /** `Buffer.from(s)`: the UTF-8 bytes of a string. */
    utf8: string -> Bytes,
    /** A zip entry read with `async('string')`: its bytes decoded as UTF-8. */
    utf8Decode: Bytes -> string,
    encodeUriComponent: string -> string,
    /** `decodeURIComponent`; `None` where it throws a URIError. */
    decodeUriComponent: string -> Option<string>,
    /** `new URL(url, base).toString()`; `None` where the constructor throws. */
    resolveUrl: (string, string) -> Option<string>,
    /** `new URL(url, 'http://local.placeholder').searchParams.get('file')`;
        `None` when the parameter is absent or the URL does not parse. */
    fileQueryParameter: string -> Option<string>,
    /** `lookup` of the mime-types package; `None` for `false`. */
    lookupMime: string -> Option<string>,
    /** RSA-SHA256 signature of the body under the PEM private key, base64. */
    signRsaSha256: (string, string) -> string,
    /** `Number(s)` when the result is finite; `None` for NaN and infinities. */
    parseFiniteNumber: string -> Option<real>
  )
}
