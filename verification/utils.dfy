/** lib/utils.ts: the file-name guard and the request origin. The hash
    `sha256Base64Url` is a foreign function (`Externals.sha256Base64Url`). */
module Utils {
  import opened Wrappers
  import opened Text
  import opened Http

  /** A name that could leave the asset directory: it contains `..`, `/`
      or `\`. */
  predicate UnsafeFileName(value: string) {
    Contains(value, "..") || Contains(value, "/") || Contains(value, "\\")
  }

  /** `sanitizeFileName`: the name itself, or the "Invalid file path"
      failure when it is unsafe. */
  function SanitizeFileName(value: string): (r: Result<string, string>)
    ensures r.Success? <==> !UnsafeFileName(value)
    ensures r.Success? ==> r.value == value
    ensures r.Failure? ==> r.error == "Invalid file path"
  {
    if UnsafeFileName(value) then Failure("Invalid file path") else Success(value)
  }

  /** A name that passes the guard holds no path separator and no `..`. */
  lemma SanitizedHasNoSeparator(value: string)
    requires SanitizeFileName(value).Success?
    ensures '/' !in value && '\\' !in value
    ensures forall i :: 0 <= i < |value| - 1 ==> !(value[i] == '.' && value[i + 1] == '.')
  {
    ContainsChar(value, '/');
    ContainsChar(value, '\\');
    forall i | 0 <= i < |value| - 1 ensures !(value[i] == '.' && value[i + 1] == '.') {
      if value[i] == '.' && value[i + 1] == '.' {
        ContainsAt(value, "..", i);
      }
    }
  }

  /** `t` occurring at position `i` of `s` is contained in `s`. */
  lemma {:induction false} ContainsAt(s: string, t: string, i: nat)
    requires i + |t| <= |s| && s[i..i + |t|] == t
    ensures Contains(s, t)
    decreases i
  {
    if i > 0 {
      assert s[1..][i - 1..i - 1 + |t|] == s[i..i + |t|];
      ContainsAt(s[1..], t, i - 1);
    }
  }

  /** Without `/`, `\` and two dots in a row a name passes the guard. */
  lemma SafeCharsPass(value: string)
    requires '/' !in value && '\\' !in value
    requires forall i :: 0 <= i < |value| - 1 ==> !(value[i] == '.' && value[i + 1] == '.')
    ensures SanitizeFileName(value) == Success(value)
  {
    ContainsChar(value, '/');
    ContainsChar(value, '\\');
    NoDoubleDot(value);
  }

  lemma {:induction false} NoDoubleDot(value: string)
    requires forall i :: 0 <= i < |value| - 1 ==> !(value[i] == '.' && value[i + 1] == '.')
    ensures !Contains(value, "..")
    decreases |value|
  {
    if |value| > 0 {
      forall i | 0 <= i < |value[1..]| - 1 ensures !(value[1..][i] == '.' && value[1..][i + 1] == '.') {
        assert value[1..][i] == value[i + 1] && value[1..][i + 1] == value[i + 2];
      }
      NoDoubleDot(value[1..]);
      if |value| >= 2 {
        assert !(value[0] == '.' && value[1] == '.');
        assert value[..2] != "..";
      }
    }
  }

  /** The scheme of the inferred origin: the forwarded protocol when given,
      otherwise `http` for a localhost host and `https` for any other. */
  function OriginProtocol(forwardedProto: Option<string>, host: string): (p: string)
    ensures Truthy(forwardedProto) ==> p == forwardedProto.value
    ensures !Truthy(forwardedProto) ==> (p == "http" <==> Contains(host, "localhost"))
    ensures !Truthy(forwardedProto) ==> p == "http" || p == "https"
  {
    OrDefault(forwardedProto, if Contains(host, "localhost") then "http" else "https")
  }

  const LocalOrigin: string := "http://localhost:3000"

  /** `inferOriginFromRequest`: `<protocol>://<host>`, the forwarded host
      taking precedence over `host`; without either, the local development
      origin. */
  function InferOrigin(h: Headers): (r: string)
    ensures Truthy(Header(h, "x-forwarded-host")) ==>
              r == OriginProtocol(Header(h, "x-forwarded-proto"), h["x-forwarded-host"]) + "://" + h["x-forwarded-host"]
    ensures !Truthy(Header(h, "x-forwarded-host")) && Truthy(Header(h, "host")) ==>
              r == OriginProtocol(Header(h, "x-forwarded-proto"), h["host"]) + "://" + h["host"]
    ensures !Truthy(Header(h, "x-forwarded-host")) && !Truthy(Header(h, "host")) ==> r == LocalOrigin
  {
    var host := OrElse(Header(h, "x-forwarded-host"), Header(h, "host"));
    if Truthy(host) then OriginProtocol(Header(h, "x-forwarded-proto"), host.value) + "://" + host.value
    else LocalOrigin
  }

  /** Every inferred origin ends in the host it was built from (or is the
      local one), whichever headers are present; a plain localhost request
      is served over http. */
  lemma OriginEndsWithHost(h: Headers)
    ensures var host := OrElse(Header(h, "x-forwarded-host"), Header(h, "host"));
      Truthy(host) ==> EndsWith(InferOrigin(h), "://" + host.value)
    ensures var host := OrElse(Header(h, "x-forwarded-host"), Header(h, "host"));
      Truthy(host) && !Truthy(Header(h, "x-forwarded-proto")) && Contains(host.value, "localhost") ==>
        StartsWith(InferOrigin(h), "http://")
  {
    var host := OrElse(Header(h, "x-forwarded-host"), Header(h, "host"));
    if Truthy(host) {
      var p := OriginProtocol(Header(h, "x-forwarded-proto"), host.value);
      assert InferOrigin(h) == p + ("://" + host.value);
    }
  }
}
