/** app/api/manifest/route.ts: the `GET` handler of the Expo Updates
    manifest endpoint, as a decision from the request headers, the
    configuration and the update rows to a response and the events it
    records. */
module ManifestRoute {
  import opened Wrappers
  import opened Text
  import opened Http
  import opened Foreign
  import opened Env
  import opened Sfv
  import opened Expo
  import opened Events
  import opened Utils
  import opened Updates
  import opened UpdatesResolve

  /** A JSON `{ error }` body, no body, or the manifest JSON. */
  datatype Body = NoBody | ErrorBody(error: string) | ManifestJson(payload: string)

  type RouteResponse = Response<Body>

  /** The response, or the message of an exception the handler does not
      catch, and the events passed to `trackEvent` on the way, each insert
      taken to succeed. */
  datatype ManifestOutcome = ManifestOutcome(response: Result<RouteResponse, string>, events: seq<EventRow>)

  /** What the handler reads besides the headers: the configuration, the
      update rows, the error of the resolver's query if it fails, the clock
      and `JSON.stringify` of a manifest. */
  datatype World = World(env: AppEnv, rows: seq<UpdateRow>, queryError: Option<string>, now: int, stringify: Manifest -> string)

  /** The vary list of the manifest responses. */
  const ManifestVary: seq<string> := ["accept", "expo-protocol-version", "expo-platform", "expo-runtime-version",
                                      "expo-channel-name", "expo-current-update-id", "expo-expect-signature"]

  function ErrorResponse(status: int, error: string): RouteResponse {
    Response(status, map[], ErrorBody(error))
  }

  // ---------------------------------------------------------------------
  // Validation

  const MissingHeadersError := "Missing expo-runtime-version or expo-platform headers."
  const InvalidSignatureHeaderError := "Invalid expo-expect-signature header format."
  const NotAcceptableError := "Not acceptable. Supported manifest content types: application/expo+json, application/json."

  /** An `expo-protocol-version` other than `1`; an absent or empty one is
      accepted. */
  predicate UnsupportedProtocol(c: ExpoContext) {
    Truthy(c.protocolVersion) && c.protocolVersion.value != "1"
  }

  /** An `expo-expect-signature` header that is present but not a
      dictionary. */
  predicate MalformedExpectation(c: ExpoContext) {
    Truthy(c.expectSignatureHeader) && !c.expectSignatureValid
  }

  /** The request checks, in order: protocol version, the two required
      headers, the platform, the expect-signature header, the negotiation.
      Each check is reached only when the earlier ones pass, so the first
      failing one decides the response. `None` when the request passes all
      of them. */
  function Rejection(c: ExpoContext, accept: Option<string>, x: Externals): (r: Option<RouteResponse>)
    ensures UnsupportedProtocol(c) ==>
              r == Some(ErrorResponse(406, "Unsupported expo-protocol-version: " + c.protocolVersion.value))
    ensures !UnsupportedProtocol(c) && (c.runtimeVersion == "" || c.platform == "") ==>
              r == Some(ErrorResponse(400, MissingHeadersError))
    ensures !UnsupportedProtocol(c) && c.runtimeVersion != "" && c.platform != "" && !IsSupportedExpoPlatform(c.platform) ==>
              r == Some(ErrorResponse(400, "Unsupported expo-platform: " + c.platform + ". Use ios or android."))
    ensures !UnsupportedProtocol(c) && c.runtimeVersion != "" && IsSupportedExpoPlatform(c.platform) && MalformedExpectation(c) ==>
              r == Some(ErrorResponse(400, InvalidSignatureHeaderError))
    ensures !UnsupportedProtocol(c) && c.runtimeVersion != "" && IsSupportedExpoPlatform(c.platform) && !MalformedExpectation(c) ==>
              (r.Some? <==> NegotiateManifestContentType(accept, x).None?)
    ensures r.Some? ==> r.value.status in {400, 406} && r.value.body.ErrorBody?
    ensures r.None? ==> NegotiateManifestContentType(accept, x).Some?
  {
    if UnsupportedProtocol(c) then
      Some(ErrorResponse(406, "Unsupported expo-protocol-version: " + c.protocolVersion.value))
    else if c.runtimeVersion == "" || c.platform == "" then
      Some(ErrorResponse(400, MissingHeadersError))
    else if !IsSupportedExpoPlatform(c.platform) then
      Some(ErrorResponse(400, "Unsupported expo-platform: " + c.platform + ". Use ios or android."))
    else if MalformedExpectation(c) then
      Some(ErrorResponse(400, InvalidSignatureHeaderError))
    else if NegotiateManifestContentType(accept, x).None? then
      Some(ErrorResponse(406, NotAcceptableError))
    else None
  }

  // ---------------------------------------------------------------------
  // Signing expectations

  /** A dictionary member's text when it is a string; a bare flag or a
      missing member counts as absent. */
  function StringMember(d: Option<SfDictionary>, key: string): (r: Option<string>)
    ensures r.Some? <==> d.Some? && key in d.value && d.value[key].SfString?
    ensures r.Some? ==> r.value == d.value[key].text
  {
    if d.Some? && key in d.value && d.value[key].SfString? then Some(d.value[key].text) else None
  }

  /** The signing options of a request: sign when the header is non-empty,
      with the key id and algorithm it names as strings. */
  function SigningOptions(c: ExpoContext): (o: SignOptions)
    ensures o.shouldSign <==> Truthy(c.expectSignatureHeader)
    ensures o.expectedKeyId == StringMember(c.expectSignature, "keyid")
    ensures o.expectedAlg == StringMember(c.expectSignature, "alg")
  {
    SignOptions(Truthy(c.expectSignatureHeader), StringMember(c.expectSignature, "keyid"), StringMember(c.expectSignature, "alg"))
  }

  /** `expo-expect-signature: sig, keyid, alg` (all flags) expects nothing
      about the key: bare flags are not strings. */
  lemma FlagExpectationsIgnored(h: Headers)
    requires Header(h, "expo-expect-signature") == Some("sig, keyid, alg")
    ensures var o := SigningOptions(ParseExpoContext(h));
      o.shouldSign && o.expectedKeyId.None? && o.expectedAlg.None?
  {
    var c := ParseExpoContext(h);
    ParseThreeFlags();
    FlagsAreNotStrings(c.expectSignature);
  }

  lemma FlagsAreNotStrings(d: Option<SfDictionary>)
    requires d == Some(map["sig" := SfFlag, "keyid" := SfFlag, "alg" := SfFlag])
    ensures StringMember(d, "keyid").None? && StringMember(d, "alg").None?
  {
  }

  /** The flag header parses to three flags. */
  lemma ParseThreeFlags()
    ensures ParseStructuredDictionary("sig, keyid, alg")
         == DictionaryParse(true, Some(map["sig" := SfFlag, "keyid" := SfFlag, "alg" := SfFlag]))
  {
    TrimNoSpaceEnds("sig, keyid, alg");
    ThreeFlagsSplit();
    FlagsParse();
  }

  lemma ThreeFlagsSplit()
    ensures SplitCsv("sig, keyid, alg") == ["sig", "keyid", "alg"]
  {
    var members := ["sig", "keyid", "alg"];
    assert Join(members, ", ") == "sig, keyid, alg" by {
      assert Join(["alg"], ", ") == "alg";
      assert Join(["keyid", "alg"], ", ") == "keyid, alg";
    }
    forall m | m in members ensures m != "" && ',' !in m && Trim(m) == m {
      TrimNoSpaceEnds(m);
    }
    SplitCsvJoin(members);
  }

  lemma FlagsParse()
    ensures ParseMembers(["sig", "keyid", "alg"], map[]) == DictionaryParse(true, Some(map["sig" := SfFlag, "keyid" := SfFlag, "alg" := SfFlag]))
  {
    assert ValidKey("sig") && ValidKey("keyid") && ValidKey("alg");
    ParseBareKey("sig");
    ParseBareKey("keyid");
    ParseBareKey("alg");
    ParseMembersCons(["sig", "keyid", "alg"], map[]);
    ParseMembersCons(["keyid", "alg"], map["sig" := SfFlag]);
    ParseMembersCons(["alg"], map["sig" := SfFlag, "keyid" := SfFlag]);
  }

  // ---------------------------------------------------------------------
  // Events

  /** An event with the request's context. */
  function ContextEvent(t: EventType, c: ExpoContext, ipHash: Option<string>, updateId: Option<string>, now: int, details: EventDetails): (e: EventRow)
    ensures e.eventType == t && e.createdAt == now && e.updateId == updateId && e.ipHash == ipHash
    ensures e.platform == Some(c.platform) && e.runtimeVersion == Some(c.runtimeVersion) && e.channel == Some(c.channel)
  {
    EventRow(t, Some(c.platform), Some(c.runtimeVersion), Some(c.channel), c.appVersion, c.deviceId, ipHash,
             c.osName, c.osVersion, c.deviceModel, updateId, now, details)
  }

  // ---------------------------------------------------------------------
  // The handler

  /** The status of a failed signing: a mismatch with the client's
      expectation is not acceptable; anything else is a server error. */
  function SignFailureStatus(reason: Option<SignFailure>): (s: int)
    ensures s == 406 <==> reason == Some(KeyIdMismatch) || reason == Some(AlgorithmMismatch)
    ensures s == 406 || s == 500
  {
    if reason == Some(KeyIdMismatch) || reason == Some(AlgorithmMismatch) then 406 else 500
  }

  function ReasonText(reason: Option<SignFailure>): string {
    if reason.Some? then ReasonName(reason.value) else "unknown"
  }

  /** The resolver's answer for a request, `origin` being the base of the
      absolute asset URLs. */
  function ResolveFor(c: ExpoContext, origin: string, w: World, x: Externals): Result<Option<Manifest>, string> {
    ResolveLatestUpdate(ResolveInput(c.platform, c.runtimeVersion, c.channel, c.currentUpdateId, origin), w.rows, w.queryError, x)
  }

  /** The asset base of a request: the configured base URL, else the origin
      inferred from the request headers. */
  function RequestOrigin(h: Headers, env: AppEnv): string {
    OrDefault(env.appBaseUrl, InferOrigin(h))
  }

  /** The 200 response for a manifest: the payload as body, the negotiated
      type, the protocol headers and the signature if one was produced. */
  function ServeManifest(payload: string, contentType: ManifestContentType, signature: Option<string>): (r: RouteResponse)
    ensures r.status == 200 && r.body == ManifestJson(payload)
    ensures r.headers.Keys == ProtocolHeaderNames + {"content-type"}
                              + (if Truthy(signature) then {"expo-signature"} else {})
    ensures r.headers["content-type"] == ContentTypeName(contentType) + "; charset=utf-8"
    ensures "expo-signature" in r.headers <==> Truthy(signature)
    ensures Truthy(signature) ==> r.headers["expo-signature"] == signature.value
    ensures r.headers["vary"] == Join(ManifestVary, ", ")
    ensures r.headers["expo-protocol-version"] == "1" && r.headers["cache-control"] == DefaultCacheControl
  {
    AddedHeaderNames();
    Response(200, TypedAndSigned(ManifestHeaders(), ContentTypeName(contentType) + "; charset=utf-8", signature),
             ManifestJson(payload))
  }

  /** `base` with the content type set and the signature added when there
      is one; every other header is kept. */
  function TypedAndSigned(base: Headers, contentType: string, signature: Option<string>): (h: Headers)
    requires "content-type" !in base && "expo-signature" !in base
    ensures h.Keys == base.Keys + {"content-type"} + (if Truthy(signature) then {"expo-signature"} else {})
    ensures h["content-type"] == contentType
    ensures Truthy(signature) ==> h["expo-signature"] == signature.value
    ensures forall k :: k in base ==> h[k] == base[k]
  {
    var typed := base["content-type" := contentType];
    if Truthy(signature) then typed["expo-signature" := signature.value] else typed
  }

  /** The two headers a served manifest adds are not protocol headers. */
  lemma AddedHeaderNames()
    ensures forall k :: k in ProtocolHeaderNames ==> k != "content-type" && k != "expo-signature"
    ensures "content-type" != "expo-signature"
  {
  }

  /** The protocol headers of the manifest responses: the defaults with the
      manifest vary list. */
  function ManifestHeaders(): (h: Headers)
    ensures h.Keys == ProtocolHeaderNames
    ensures h["vary"] == Join(ManifestVary, ", ")
    ensures h["expo-protocol-version"] == "1" && h["cache-control"] == DefaultCacheControl
  {
    JoinFirst(ManifestVary);
    ExpoResponseHeaders(ResponseOptions([], [], None, Some(ManifestVary)))
  }

  /** A join of a list whose first item is non-empty is non-empty. */
  lemma JoinFirst(items: seq<string>)
    requires |items| > 0 && items[0] != ""
    ensures Join(items, ", ") != ""
  {
    if |items| > 1 {
      assert Join(items, ", ")[0] == items[0][0];
    }
  }

  /** The handler after the checks: the response for what the resolver
      returned, after recording `check`, with `sign` the request's
      signer. */
  function Respond(c: ExpoContext, contentType: ManifestContentType, resolved: Result<Option<Manifest>, string>,
                   check: EventRow, ipHash: Option<string>, now: int, stringify: Manifest -> string,
                   sign: string -> SignOutcome): (r: ManifestOutcome)
    ensures |r.events| >= 1 && r.events[0] == check && |r.events| <= 2
    ensures resolved.Failure? ==> r == ManifestOutcome(Failure(resolved.error), [check])
    ensures resolved == Success(None) ==>
              && r.response == Success(Response(204, ManifestHeaders(), NoBody))
              && |r.events| == 2 && r.events[1].eventType == UpdateNone && r.events[1].updateId == c.currentUpdateId
    ensures resolved.Success? && resolved.value.Some? ==>
              var payload := stringify(resolved.value.value);
              var signing := sign(payload);
              if Truthy(c.expectSignatureHeader) && !Truthy(signing.signature) then
                && r.response.Success? && r.response.value.status == SignFailureStatus(signing.reason)
                && r.response.value.body.ErrorBody? && |r.events| == 1
              else
                && r.response == Success(ServeManifest(payload, contentType, signing.signature))
                && |r.events| == 2 && r.events[1].eventType == UpdateServed && r.events[1].updateId == Some(resolved.value.value.id)
  {
    match resolved
    case Failure(e) => ManifestOutcome(Failure(e), [check])
    case Success(None) =>
      var none := ContextEvent(UpdateNone, c, ipHash, c.currentUpdateId, now, NoneDetails("no_update_available"));
      ManifestOutcome(Success(Response(204, ManifestHeaders(), NoBody)), [check, none])
    case Success(Some(manifest)) =>
      var payload := stringify(manifest);
      var signing := sign(payload);
      if Truthy(c.expectSignatureHeader) && !Truthy(signing.signature) then
        var reason := ReasonText(signing.reason);
        ManifestOutcome(Success(ErrorResponse(SignFailureStatus(signing.reason), "Unable to produce signed manifest (" + reason + ").")), [check])
      else
        var served := ContextEvent(UpdateServed, c, ipHash, Some(manifest.id), now,
                                   ServedDetails(manifest.launchAsset.url, |manifest.assets|));
        ManifestOutcome(Success(ServeManifest(payload, contentType, signing.signature)), [check, served])
  }

  /** The signer of a request: `maybeSignManifest` with the request's
      signing options. */
  function Signer(c: ExpoContext, env: AppEnv, x: Externals): (sign: string -> SignOutcome)
    ensures forall p :: sign(p) == MaybeSignManifest(p, SigningOptions(c), env, x)
  {
    (p: string) => MaybeSignManifest(p, SigningOptions(c), env, x)
  }

  /** The `update_check` event of a request that passed the checks. */
  function CheckEvent(c: ExpoContext, ipHash: Option<string>, now: int): (e: EventRow)
    ensures e.eventType == UpdateCheck && e.updateId == c.currentUpdateId
  {
    ContextEvent(UpdateCheck, c, ipHash, c.currentUpdateId, now, CheckDetails(c.expectSignature.Some?))
  }

  /** The handler over the parsed request: the context `c`, the Accept
      header, the hashed client address and the asset base. */
  function Handle(c: ExpoContext, accept: Option<string>, ipHash: Option<string>, origin: string, w: World, x: Externals): (r: ManifestOutcome)
    ensures Rejection(c, accept, x).Some? ==> r == ManifestOutcome(Success(Rejection(c, accept, x).value), [])
    ensures Rejection(c, accept, x).None? ==>
              r == Respond(c, NegotiateManifestContentType(accept, x).value, ResolveFor(c, origin, w, x),
                           CheckEvent(c, ipHash, w.now), ipHash, w.now, w.stringify, Signer(c, w.env, x))
    ensures Rejection(c, accept, x).None? ==>
              |r.events| >= 1 && r.events[0].eventType == UpdateCheck && r.events[0].updateId == c.currentUpdateId
              && |r.events| <= 2
  {
    match Rejection(c, accept, x)
    case Some(rejection) => ManifestOutcome(Success(rejection), [])
    case None =>
      var contentType := NegotiateManifestContentType(accept, x).value;
      Respond(c, contentType, ResolveFor(c, origin, w, x), CheckEvent(c, ipHash, w.now), ipHash, w.now, w.stringify, Signer(c, w.env, x))
  }

  /** `GET`: a rejected request records nothing; any other records its
      `update_check`, for the update the client reports, first, and at most
      one event after it. */
  function ManifestGet(h: Headers, w: World, x: Externals): (r: ManifestOutcome)
    ensures r == Handle(ParseExpoContext(h), Header(h, "accept"), HashIp(GetRequestIp(h), w.env, x), RequestOrigin(h, w.env), w, x)
    ensures var c := ParseExpoContext(h);
      Rejection(c, Header(h, "accept"), x).Some? ==> r == ManifestOutcome(Success(Rejection(c, Header(h, "accept"), x).value), [])
    ensures var c := ParseExpoContext(h);
      Rejection(c, Header(h, "accept"), x).None? ==>
        |r.events| >= 1 && r.events[0].eventType == UpdateCheck && r.events[0].updateId == c.currentUpdateId
        && |r.events| <= 2
  {
    Handle(ParseExpoContext(h), Header(h, "accept"), HashIp(GetRequestIp(h), w.env, x), RequestOrigin(h, w.env), w, x)
  }

  /** A 200 response carries exactly the string that was signed: its body is
      the serialised resolved manifest, and its signature header, present
      exactly when a signature was produced, is the signature of that very
      body. It has the negotiated content type and records `update_check`
      then `update_served` for the manifest's id. */
  lemma OkBodyIsSignedPayload(c: ExpoContext, accept: Option<string>, ipHash: Option<string>, origin: string, w: World, x: Externals)
    ensures var r := Handle(c, accept, ipHash, origin, w, x);
      r.response.Success? && r.response.value.status == 200 ==>
      var resp := r.response.value;
      && ResolveFor(c, origin, w, x).Success? && ResolveFor(c, origin, w, x).value.Some?
      && resp.body == ManifestJson(w.stringify(ResolveFor(c, origin, w, x).value.value))
      && var signing := MaybeSignManifest(resp.body.payload, SigningOptions(c), w.env, x);
         && ("expo-signature" in resp.headers <==> Truthy(signing.signature))
         && ("expo-signature" in resp.headers ==> resp.headers["expo-signature"] == signing.signature.value)
         && (Truthy(c.expectSignatureHeader) ==> "expo-signature" in resp.headers)
         && NegotiateManifestContentType(accept, x).Some?
         && resp.headers["content-type"] == ContentTypeName(NegotiateManifestContentType(accept, x).value) + "; charset=utf-8"
         && r.events == [r.events[0], r.events[1]]
         && r.events[0].eventType == UpdateCheck && r.events[1].eventType == UpdateServed
         && r.events[1].updateId == Some(ResolveFor(c, origin, w, x).value.value.id)
  {
    var r := Handle(c, accept, ipHash, origin, w, x);
    if r.response.Success? && r.response.value.status == 200 {
      assert Rejection(c, accept, x).None?;
      RespondServed(c, NegotiateManifestContentType(accept, x).value, ResolveFor(c, origin, w, x),
                    CheckEvent(c, ipHash, w.now), ipHash, w.now, w.stringify, Signer(c, w.env, x));
    }
  }

  /** A 200 from the handler after the checks is the served manifest,
      whose signing was not both requested and failed. */
  lemma RespondServed(c: ExpoContext, contentType: ManifestContentType, resolved: Result<Option<Manifest>, string>,
                      check: EventRow, ipHash: Option<string>, now: int, stringify: Manifest -> string,
                      sign: string -> SignOutcome)
    ensures var r := Respond(c, contentType, resolved, check, ipHash, now, stringify, sign);
      r.response.Success? && r.response.value.status == 200 ==>
      resolved.Success? && resolved.value.Some? &&
      var payload := stringify(resolved.value.value);
      var signing := sign(payload);
      && !(Truthy(c.expectSignatureHeader) && !Truthy(signing.signature))
      && r.response.value == ServeManifest(payload, contentType, signing.signature)
      && |r.events| == 2 && r.events[1].eventType == UpdateServed && r.events[1].updateId == Some(resolved.value.value.id)
  {
    if resolved.Success? && resolved.value.Some? {
      var signing := sign(stringify(resolved.value.value));
      assert SignFailureStatus(signing.reason) != 200;
    }
  }

  /** No update (none newer, or the client's current one) gives 204 with no
      body and records `update_check` then `update_none`. */
  lemma NoUpdateIsNoContent(c: ExpoContext, accept: Option<string>, ipHash: Option<string>, origin: string, w: World, x: Externals)
    requires Rejection(c, accept, x).None?
    requires ResolveFor(c, origin, w, x) == Success(None)
    ensures var r := Handle(c, accept, ipHash, origin, w, x);
      && r.response.Success? && r.response.value.status == 204 && r.response.value.body == NoBody
      && r.response.value.headers["vary"] == Join(ManifestVary, ", ")
      && |r.events| == 2 && r.events[0].eventType == UpdateCheck && r.events[1].eventType == UpdateNone
  {
  }

  /** A requested signature that cannot be produced gives 406 for a key-id
      or algorithm mismatch and 500 otherwise, and records no
      `update_served`. */
  lemma SigningFailureStatus(c: ExpoContext, accept: Option<string>, ipHash: Option<string>, origin: string, w: World, x: Externals)
    requires Rejection(c, accept, x).None?
    requires ResolveFor(c, origin, w, x).Success? && ResolveFor(c, origin, w, x).value.Some?
    requires Truthy(c.expectSignatureHeader)
    requires !Truthy(MaybeSignManifest(w.stringify(ResolveFor(c, origin, w, x).value.value), SigningOptions(c), w.env, x).signature)
    ensures var r := Handle(c, accept, ipHash, origin, w, x);
      var reason := MaybeSignManifest(w.stringify(ResolveFor(c, origin, w, x).value.value), SigningOptions(c), w.env, x).reason;
      && r.response.Success?
      && (r.response.value.status == 406 <==> reason == Some(KeyIdMismatch) || reason == Some(AlgorithmMismatch))
      && (r.response.value.status == 500 <==> !(reason == Some(KeyIdMismatch) || reason == Some(AlgorithmMismatch)))
      && r.response.value.body.ErrorBody?
      && |r.events| == 1 && r.events[0].eventType == UpdateCheck
  {
  }

  /** Every request that passes the checks and reaches a response records
      one `update_check` and then exactly one of `update_none` (204) or
      `update_served` (200), and no second event when signing fails. */
  lemma EventsPerRequest(c: ExpoContext, accept: Option<string>, ipHash: Option<string>, origin: string, w: World, x: Externals)
    requires Rejection(c, accept, x).None?
    requires Handle(c, accept, ipHash, origin, w, x).response.Success?
    ensures var r := Handle(c, accept, ipHash, origin, w, x);
      var status := r.response.value.status;
      && r.events[0].eventType == UpdateCheck
      && (status == 204 <==> |r.events| == 2 && r.events[1].eventType == UpdateNone)
      && (status == 200 <==> |r.events| == 2 && r.events[1].eventType == UpdateServed)
      && (status != 200 && status != 204 <==> |r.events| == 1)
  {
    RespondEvents(c, NegotiateManifestContentType(accept, x).value, ResolveFor(c, origin, w, x),
                  CheckEvent(c, ipHash, w.now), ipHash, w.now, w.stringify, Signer(c, w.env, x));
  }

  lemma RespondEvents(c: ExpoContext, contentType: ManifestContentType, resolved: Result<Option<Manifest>, string>,
                      check: EventRow, ipHash: Option<string>, now: int, stringify: Manifest -> string,
                      sign: string -> SignOutcome)
    ensures var r := Respond(c, contentType, resolved, check, ipHash, now, stringify, sign);
      r.response.Success? ==>
      var status := r.response.value.status;
      && (status == 204 <==> |r.events| == 2 && r.events[1].eventType == UpdateNone)
      && (status == 200 <==> |r.events| == 2 && r.events[1].eventType == UpdateServed)
      && (status != 200 && status != 204 <==> |r.events| == 1)
  {
    if resolved.Success? && resolved.value.Some? {
      var signing := sign(stringify(resolved.value.value));
      assert SignFailureStatus(signing.reason) != 200 && SignFailureStatus(signing.reason) != 204;
    }
  }
}
