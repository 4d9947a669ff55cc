/** lib/expo.ts: the protocol helpers of the manifest endpoint. Accept-header
    negotiation in the manner of sections 12.5.1 and 12.4.2 of RFC 9110, the
    request context, the response headers, the content type of a stored
    file, the optional code signing and the client address. */
module Expo {
  import opened Wrappers
  import opened Text
  import opened Sorting
  import opened Http
  import opened Foreign
  import opened Sfv
  import opened Env

  // ---------------------------------------------------------------------
  // Accept-header negotiation

  /** The manifest media types the endpoint can produce, in preference order. */
  datatype ManifestContentType = ExpoJson | PlainJson

  function ContentTypeName(t: ManifestContentType): string {
    match t
    case ExpoJson => "application/expo+json"
    case PlainJson => "application/json"
  }

  /** One parsed media range of an Accept header. */
  datatype AcceptItem = AcceptItem(mediaType: string, quality: real, specificity: nat, index: nat)

  /** `Math.max(0, Math.min(1, x))`. */
  function Clamp01(x: real): (r: real)
    ensures 0.0 <= r <= 1.0
    ensures 0.0 <= x <= 1.0 ==> r == x
  {
    if x < 0.0 then 0.0 else if x > 1.0 then 1.0 else x
  }

  /** The quality after the `;`-parameters `params`: each `q=<finite number>`
      parameter (key compared case-insensitively) replaces it, clamped. */
  function Quality(params: seq<string>, current: real, x: Externals): (q: real)
    requires 0.0 <= current <= 1.0
    ensures 0.0 <= q <= 1.0
  {
    if |params| == 0 then current
    else
      var kv := Split(Trim(params[0]), '=');
      var next :=
        if Lower(Trim(kv[0])) == "q" && |kv| >= 2 then
          match x.parseFiniteNumber(Trim(kv[1]))
          case Some(n) => Clamp01(n)
          case None => current
        else current;
      Quality(params[1..], next, x)
  }

  // Exact type 2, `type/*` 1, `*/*` 0.
  function Specificity(mediaType: string): nat {
    if mediaType == "*/*" then 0 else if EndsWith(mediaType, "/*") then 1 else 2
  }

  /** What every parsed entry satisfies: a lower-case media type containing
      `/`, a quality in [0, 1] and the specificity of its media type. */
  predicate WellFormedItem(it: AcceptItem) {
    && '/' in it.mediaType && IsLowerCase(it.mediaType)
    && 0.0 <= it.quality <= 1.0
    && it.specificity == Specificity(it.mediaType)
  }

  /** The media range of one comma-separated entry: the lower-cased, trimmed
      text before its first `;`. */
  function MediaRangeOf(part: string): string {
    Lower(Trim(Split(part, ';')[0]))
  }

  /** One comma-separated entry at position `index`; `None` when its media
      range has no `/`. */
  function ParseAcceptEntry(part: string, index: nat, x: Externals): (r: Option<AcceptItem>)
    ensures r.Some? <==> '/' in MediaRangeOf(part)
    ensures r.Some? ==> WellFormedItem(r.value) && r.value.index == index
    ensures r.Some? ==> r.value.mediaType == MediaRangeOf(part)
  {
    var items := Split(part, ';');
    var mediaType := MediaRangeOf(part);
    if '/' !in mediaType then None
    else Some(AcceptItem(mediaType, Quality(items[1..], 1.0, x), Specificity(mediaType), index))
  }

  /** Each part parsed at its own position (the `.map((part, index) => ...)`). */
  function ParsedEntries(parts: seq<string>, x: Externals): (r: seq<Option<AcceptItem>>)
    ensures |r| == |parts|
    ensures forall k :: 0 <= k < |parts| ==> r[k] == ParseAcceptEntry(parts[k], k, x)
  {
    seq(|parts|, k requires 0 <= k < |parts| => ParseAcceptEntry(parts[k], k, x))
  }

  /** `parseAcceptHeader`: the entries of the non-empty comma-separated parts
      whose media range has a `/`, each numbered by its part's position. */
  function ParseAcceptHeader(accept: string, x: Externals): (r: seq<AcceptItem>)
    ensures forall i :: 0 <= i < |r| ==> WellFormedItem(r[i])
    ensures forall i :: 0 <= i < |r| ==>
      (r[i].index < |SplitCsv(accept)| && ParseAcceptEntry(SplitCsv(accept)[r[i].index], r[i].index, x) == Some(r[i]))
    ensures forall i, j :: 0 <= i < j < |r| ==> r[i].index < r[j].index
    ensures forall k :: 0 <= k < |SplitCsv(accept)| && ParseAcceptEntry(SplitCsv(accept)[k], k, x).Some? ==>
      ParseAcceptEntry(SplitCsv(accept)[k], k, x).value in r
  {
    var parts := SplitCsv(accept);
    EntriesOfParts(parts, x);
    Somes(ParsedEntries(parts, x))
  }

  /** The parsed entries of `parts`, each numbered by its part. */
  lemma EntriesOfParts(parts: seq<string>, x: Externals)
    ensures var r := Somes(ParsedEntries(parts, x));
      && (forall i :: 0 <= i < |r| ==> WellFormedItem(r[i]))
      && (forall i :: 0 <= i < |r| ==> r[i].index < |parts| && ParseAcceptEntry(parts[r[i].index], r[i].index, x) == Some(r[i]))
      && (forall i, j :: 0 <= i < j < |r| ==> r[i].index < r[j].index)
      && (forall k :: 0 <= k < |parts| && ParseAcceptEntry(parts[k], k, x).Some? ==> ParseAcceptEntry(parts[k], k, x).value in r)
  {
    var entries := ParsedEntries(parts, x);
    var r := Somes(entries);
    forall i | 0 <= i < |r|
      ensures SomesOrigin(entries, i) == r[i].index && WellFormedItem(r[i])
      ensures r[i].index < |parts| && ParseAcceptEntry(parts[r[i].index], r[i].index, x) == Some(r[i])
    {
      var k := SomesOrigin(entries, i);
      assert entries[k] == ParseAcceptEntry(parts[k], k, x);
    }
    forall i, j | 0 <= i < j < |r| ensures r[i].index < r[j].index {
      SomesOriginIncreasing(entries, i, j);
    }
    forall k | 0 <= k < |parts| && ParseAcceptEntry(parts[k], k, x).Some?
      ensures ParseAcceptEntry(parts[k], k, x).value in r
    {
      SomesComplete(entries, k);
    }
  }

  /** The entries with quality above zero (`.filter(entry => entry.quality > 0)`). */
  function Acceptable(items: seq<AcceptItem>): (r: seq<AcceptItem>)
    ensures forall it :: it in r <==> it in items && it.quality > 0.0
  {
    if |items| == 0 then []
    else (if items[0].quality > 0.0 then [items[0]] else []) + Acceptable(items[1..])
  }

  /** The comparator of the sort: higher quality, then higher specificity,
      then earlier position. */
  predicate RanksBefore(a: AcceptItem, b: AcceptItem) {
    || a.quality > b.quality
    || (a.quality == b.quality && a.specificity > b.specificity)
    || (a.quality == b.quality && a.specificity == b.specificity && a.index < b.index)
  }

  lemma RanksBeforeIsStrictWeakOrder()
    ensures StrictWeakOrder(RanksBefore)
  {
  }

  // `mediaTypeMatches`: `*/*` matches everything, `t/*` the supported type
  // whose type is `t`, and anything else only the identical string.
  function MediaTypeMatches(accepted: string, supported: ManifestContentType): bool {
    if accepted == "*/*" then true
    else
      var a := Split(accepted, '/');
      var s := Split(ContentTypeName(supported), '/');
      var acceptedType := a[0];
      var acceptedSubtype := if |a| >= 2 then a[1] else "";
      if acceptedType == "" || acceptedSubtype == "" then false
      else if acceptedSubtype == "*" then acceptedType == s[0]
      else accepted == ContentTypeName(supported)
  }

  /** The subtype of a supported type's name. */
  function SubtypeName(t: ManifestContentType): string {
    match t
    case ExpoJson => "expo+json"
    case PlainJson => "json"
  }

  /** Two slash-free parts joined by a slash split back into the two. */
  lemma SplitTypeAndSubtype(tp: string, sub: string)
    requires '/' !in tp && '/' !in sub
    ensures Split(tp + ['/'] + sub, '/') == [tp, sub]
  {
    SplitAtSeparator(tp, '/', sub);
    SplitNoSeparator(sub, '/');
  }

  /** A supported type's name is `application/` and its subtype. */
  lemma ContentTypeSplits(t: ManifestContentType)
    ensures Split(ContentTypeName(t), '/') == ["application", SubtypeName(t)]
    ensures SubtypeName(t) != "" && SubtypeName(t) != "*"
  {
    assert ContentTypeName(t) == "application" + ['/'] + SubtypeName(t);
    SplitTypeAndSubtype("application", SubtypeName(t));
  }

  /** Both supported types have type `application`. */
  lemma SupportedTypeIsApplication(t: ManifestContentType)
    ensures Split(ContentTypeName(t), '/')[0] == "application"
  {
    ContentTypeSplits(t);
  }

  /** A supported type's own name matches it. */
  lemma MediaTypeMatchesItself(t: ManifestContentType)
    ensures MediaTypeMatches(ContentTypeName(t), t)
  {
    ContentTypeSplits(t);
    assert ContentTypeName(t) != "*/*";
  }

  // `t/*` (for a type `t` other than `*`) matches exactly when `t` is the
  // supported type's type.
  lemma MediaTypeWildcardSubtype(tp: string, rest: string, supported: ManifestContentType)
    requires tp != "" && tp != "*" && '/' !in tp
    ensures MediaTypeMatches(tp + "/*" + rest, supported) <==>
              (Split(rest, '/')[0] == "" && tp == "application") || tp + "/*" + rest == ContentTypeName(supported)
  {
    var accepted := tp + "/*" + rest;
    assert accepted == tp + ['/'] + ("*" + rest);
    SplitAtSeparator(tp, '/', "*" + rest);
    SupportedTypeIsApplication(supported);
    if |rest| > 0 && rest[0] == '/' {
      assert "*" + rest == "*" + ['/'] + rest[1..];
      SplitAtSeparator("*", '/', rest[1..]);
      SplitAtSeparator("", '/', rest[1..]);
      assert rest == "" + ['/'] + rest[1..];
    } else if |rest| > 0 {
      assert ("*" + rest)[1..] == rest;
    }
  }

  /** Anything but a wildcard matches only the identical supported type. */
  lemma MediaTypeExact(accepted: string, supported: ManifestContentType)
    requires accepted != "*/*"
    requires |Split(accepted, '/')| < 2 || Split(accepted, '/')[1] != "*"
    ensures MediaTypeMatches(accepted, supported) <==> accepted == ContentTypeName(supported)
  {
    if accepted == ContentTypeName(supported) {
      MediaTypeMatchesItself(supported);
    }
  }

  /** Some supported type matches the entry. */
  predicate MatchesSupported(it: AcceptItem) {
    MediaTypeMatches(it.mediaType, ExpoJson) || MediaTypeMatches(it.mediaType, PlainJson)
  }

  /** The first entry matching a supported type decides; for that entry
      expo+json is tried before plain JSON. */
  function FirstSupported(items: seq<AcceptItem>): (r: Option<ManifestContentType>)
    ensures r.None? <==> forall i :: 0 <= i < |items| ==> !MatchesSupported(items[i])
  {
    if |items| == 0 then None
    else if MediaTypeMatches(items[0].mediaType, ExpoJson) then Some(ExpoJson)
    else if MediaTypeMatches(items[0].mediaType, PlainJson) then Some(PlainJson)
    else
      assert forall i :: 1 <= i < |items| ==> items[i] == items[1..][i - 1];
      FirstSupported(items[1..])
  }

  /** The ranked candidates negotiation chooses from. */
  function Candidates(accept: string, x: Externals): seq<AcceptItem> {
    Acceptable(ParseAcceptHeader(accept, x))
  }

  /** The choice among candidates: the first supported match in rank order. */
  function Choose(cands: seq<AcceptItem>): Option<ManifestContentType> {
    FirstSupported(SortBy(cands, RanksBefore))
  }

  /** `negotiateManifestContentType`: with no Accept header, or one of white
      space only, expo+json; otherwise the choice among the acceptable
      entries, where `None` means not acceptable. */
  function NegotiateManifestContentType(accept: Option<string>, x: Externals): (r: Option<ManifestContentType>)
    ensures !Truthy(accept) ==> r == Some(ExpoJson)
    ensures Truthy(accept) && Trim(accept.value) == "" ==> r == Some(ExpoJson)
  {
    if !Truthy(accept) || Trim(accept.value) == "" then Some(ExpoJson)
    else Choose(Candidates(accept.value, x))
  }

  /** The position of the entry that decides `FirstSupported`. */
  ghost function DecidingIndex(items: seq<AcceptItem>): (k: nat)
    requires FirstSupported(items).Some?
    ensures k < |items|
    ensures MediaTypeMatches(items[k].mediaType, FirstSupported(items).value)
    ensures FirstSupported(items).value == PlainJson ==> !MediaTypeMatches(items[k].mediaType, ExpoJson)
    ensures forall j :: 0 <= j < k ==> !MatchesSupported(items[j])
  {
    if MatchesSupported(items[0]) then 0
    else
      SkipUnsupported(items);
      var k := DecidingIndex(items[1..]);
      assert items[k + 1] == items[1..][k];
      assert forall j :: 1 <= j < k + 1 ==> items[j] == items[1..][j - 1];
      k + 1
  }

  /** An entry that matches nothing is skipped. */
  lemma SkipUnsupported(items: seq<AcceptItem>)
    requires |items| > 0 && !MatchesSupported(items[0])
    ensures FirstSupported(items) == FirstSupported(items[1..])
  {
  }

  /** What the choice is, independent of how the sort is done: `None`
      exactly when no candidate matches a supported type; otherwise a type
      matched by some candidate that no better-ranked matching candidate
      precedes, and plain JSON only when that candidate does not match
      expo+json. */
  lemma ChoosePicksBestRanked(cands: seq<AcceptItem>)
    ensures Choose(cands).None? <==> forall c :: c in cands ==> !MatchesSupported(c)
    ensures Choose(cands).Some? ==>
              exists c :: c in cands && MediaTypeMatches(c.mediaType, Choose(cands).value)
                && (Choose(cands).value == PlainJson ==> !MediaTypeMatches(c.mediaType, ExpoJson))
                && forall d :: d in cands && RanksBefore(d, c) ==> !MatchesSupported(d)
  {
    var sorted := SortBy(cands, RanksBefore);
    SortByMembers(cands, RanksBefore);
    if FirstSupported(sorted).Some? {
      RanksBeforeIsStrictWeakOrder();
      SortBySorted(cands, RanksBefore);
      var k := DecidingIndex(sorted);
      DecidingIsBestRanked(sorted, k);
      assert sorted[k] in cands;
    }
  }

  /** In a ranked list, nothing that ranks before the deciding entry
      matches a supported type. */
  lemma DecidingIsBestRanked(sorted: seq<AcceptItem>, k: nat)
    requires SortedBy(sorted, RanksBefore)
    requires k < |sorted| && forall j :: 0 <= j < k ==> !MatchesSupported(sorted[j])
    ensures forall d :: d in sorted && RanksBefore(d, sorted[k]) ==> !MatchesSupported(d)
  {
    forall d | d in sorted && RanksBefore(d, sorted[k])
      ensures !MatchesSupported(d)
    {
      var j :| 0 <= j < |sorted| && sorted[j] == d;
      assert j < k;
    }
  }

  /** For a non-blank Accept header: no type exactly when no parsed entry
      with a positive quality matches a supported type; otherwise the type
      is matched by such an entry, and no entry ranking before it matches
      anything supported. */
  lemma NegotiatePicksBestRanked(accept: string, x: Externals)
    requires Trim(accept) != ""
    ensures var r := NegotiateManifestContentType(Some(accept), x);
      var items := ParseAcceptHeader(accept, x);
      && (r.None? <==> forall c :: c in items && c.quality > 0.0 ==> !MatchesSupported(c))
      && (r.Some? ==>
            exists c :: c in items && c.quality > 0.0 && MediaTypeMatches(c.mediaType, r.value)
              && (r.value == PlainJson ==> !MediaTypeMatches(c.mediaType, ExpoJson))
              && forall d :: d in items && d.quality > 0.0 && RanksBefore(d, c) ==> !MatchesSupported(d))
  {
    assert accept != "";
    var items := ParseAcceptHeader(accept, x);
    var cands := Candidates(accept, x);
    var r := Choose(cands);
    assert NegotiateManifestContentType(Some(accept), x) == r;
    assert forall c :: c in cands <==> c in items && c.quality > 0.0;
    ChoosePicksBestRanked(cands);
    if r.Some? {
      var c :| c in cands && MediaTypeMatches(c.mediaType, r.value)
                && (r.value == PlainJson ==> !MediaTypeMatches(c.mediaType, ExpoJson))
                && forall d :: d in cands && RanksBefore(d, c) ==> !MatchesSupported(d);
      assert c in items && c.quality > 0.0;
    }
  }

  /** A header with a single part that parses to `it` yields just `it`. */
  lemma SingleEntryHeader(accept: string, part: string, it: AcceptItem, x: Externals)
    requires SplitCsv(accept) == [part]
    requires ParseAcceptEntry(part, 0, x) == Some(it)
    ensures ParseAcceptHeader(accept, x) == [it]
  {
    var r := ParseAcceptHeader(accept, x);
    assert it in r;
    forall i | 0 <= i < |r| ensures r[i] == it {
      assert r[i].index == 0;
    }
  }

  /** A single candidate decides alone. */
  lemma ChooseSingle(it: AcceptItem)
    ensures Choose([it]) == FirstSupported([it])
  {
    assert SortBy([it], RanksBefore) == Insert(it, [], RanksBefore);
  }

  /** A header consisting of one plain media range `p` (trimmed,
      lower-case, no `,` or `;`) yields the single entry for `p`. */
  lemma PlainMediaRangeHeader(p: string, x: Externals)
    requires '/' in p && ',' !in p && ';' !in p && Trim(p) == p && IsLowerCase(p)
    ensures ParseAcceptHeader(p, x) == [AcceptItem(p, 1.0, Specificity(p), 0)]
  {
    SplitCsvJoin([p]);
    SplitNoSeparator(p, ';');
    LowerOfLowerCase(p);
    assert MediaRangeOf(p) == p;
    SingleEntryHeader(p, p, AcceptItem(p, 1.0, Specificity(p), 0), x);
  }

  /** A header of one plain media range with a non-zero quality is decided
      by that range alone. */
  lemma NegotiateSingleRange(p: string, x: Externals)
    requires '/' in p && ',' !in p && ';' !in p && Trim(p) == p && IsLowerCase(p)
    ensures NegotiateManifestContentType(Some(p), x) == FirstSupported([AcceptItem(p, 1.0, Specificity(p), 0)])
  {
    PlainMediaRangeHeader(p, x);
    var it := AcceptItem(p, 1.0, Specificity(p), 0);
    assert Acceptable([it]) == [it] + Acceptable([]);
    ChooseSingle(it);
  }

  /** A wildcard-only header selects expo+json. */
  lemma NegotiateAnyType(accept: string, x: Externals)
    requires accept == "*/*"
    ensures NegotiateManifestContentType(Some(accept), x) == Some(ExpoJson)
  {
    TrimNoSpaceEnds(accept);
    NegotiateSingleRange(accept, x);
  }

  /** What a single candidate chooses. */
  lemma FirstSupportedSingle(it: AcceptItem)
    ensures FirstSupported([it]) ==
      if MediaTypeMatches(it.mediaType, ExpoJson) then Some(ExpoJson)
      else if MediaTypeMatches(it.mediaType, PlainJson) then Some(PlainJson)
      else None
  {
    assert [it][1..] == [];
  }

  lemma ApplicationJsonMatches(accept: string)
    requires accept == "application/json"
    ensures !MediaTypeMatches(accept, ExpoJson) && MediaTypeMatches(accept, PlainJson)
  {
    assert accept == "application" + ['/'] + "json";
    SplitAtSeparator("application", '/', "json");
    SplitNoSeparator("json", '/');
    MediaTypeExact(accept, ExpoJson);
    MediaTypeExact(accept, PlainJson);
  }

  lemma TextPlainMatchesNothing(accept: string)
    requires accept == "text/plain"
    ensures !MediaTypeMatches(accept, ExpoJson) && !MediaTypeMatches(accept, PlainJson)
  {
    assert accept == "text" + ['/'] + "plain";
    SplitAtSeparator("text", '/', "plain");
    SplitNoSeparator("plain", '/');
    MediaTypeExact(accept, ExpoJson);
    MediaTypeExact(accept, PlainJson);
  }

  /** The media ranges of the two literal headers below: letters and one
      slash. */
  predicate RangeChar(c: char) {
    'a' <= c <= 'z' || c == '/'
  }

  /** A string of lower-case letters and a slash, starting and ending with
      a letter, is a plain media range. */
  lemma PlainRange(accept: string)
    requires |accept| > 0 && '/' in accept && forall i :: 0 <= i < |accept| ==> RangeChar(accept[i])
    requires accept[0] != '/' && accept[|accept| - 1] != '/'
    ensures '/' in accept && ',' !in accept && ';' !in accept && Trim(accept) == accept && IsLowerCase(accept)
  {
    PrintableNotSpace(accept[0], 0);
    PrintableNotSpace(accept[|accept| - 1], 0);
    TrimNoSpaceEnds(accept);
  }

  lemma PlainRangeLiteral(accept: string)
    requires accept == "application/json" || accept == "text/plain"
    ensures '/' in accept && ',' !in accept && ';' !in accept && Trim(accept) == accept && IsLowerCase(accept)
  {
    var last := |accept| - 1;
    assert forall i :: 0 <= i < |accept| ==> RangeChar(accept[i]);
    assert accept[0] != '/' && accept[last] != '/';
    assert '/' in accept;
    PlainRange(accept);
  }

  /** `application/json` alone selects plain JSON. */
  lemma NegotiatePlainJson(accept: string, x: Externals)
    requires accept == "application/json"
    ensures NegotiateManifestContentType(Some(accept), x) == Some(PlainJson)
  {
    PlainRangeLiteral(accept);
    NegotiateSingleRange(accept, x);
    ApplicationJsonMatches(accept);
    FirstSupportedSingle(AcceptItem(accept, 1.0, Specificity(accept), 0));
  }

  /** `text/plain` matches no supported type: not acceptable. */
  lemma NegotiateTextPlain(accept: string, x: Externals)
    requires accept == "text/plain"
    ensures NegotiateManifestContentType(Some(accept), x).None?
  {
    PlainRangeLiteral(accept);
    NegotiateSingleRange(accept, x);
    TextPlainMatchesNothing(accept);
    FirstSupportedSingle(AcceptItem(accept, 1.0, Specificity(accept), 0));
  }

  // ---------------------------------------------------------------------
  // Request context

  /** `isSupportedExpoPlatform`: exactly `ios` or `android`, compared as
      given. */
  predicate IsSupportedExpoPlatform(platform: string) {
    platform == "ios" || platform == "android"
  }

  /** `ExpoUpdateRequestContext`; absent headers are `None`. */
  datatype ExpoContext = ExpoContext(
    protocolVersion: Option<string>,
    platform: string,
    runtimeVersion: string,
    channel: string,
    currentUpdateId: Option<string>,
    expectSignatureHeader: Option<string>,
    expectSignature: Option<SfDictionary>,
    expectSignatureValid: bool,
    appVersion: Option<string>,
    deviceId: Option<string>,
    osName: Option<string>,
    osVersion: Option<string>,
    deviceModel: Option<string>)

  /** The platform header lower-cased and trimmed, `''` when absent. */
  function NormalizedPlatform(h: Headers): (p: string)
    ensures "expo-platform" !in h ==> p == ""
    ensures "expo-platform" in h ==> p == Trim(Lower(h["expo-platform"]))
    ensures IsLowerCase(p) && Trim(p) == p
  {
    match Header(h, "expo-platform")
    case None => ""
    case Some(v) =>
      LowerIsLowerCase(v);
      TrimLowerCase(Lower(v));
      TrimIdempotent(Lower(v));
      Trim(Lower(v))
  }

  /** The parsed `expo-expect-signature` header: a missing or empty header
      is valid and has no dictionary. */
  function ExpectSignature(header: Option<string>): (r: DictionaryParse)
    ensures !Truthy(header) ==> r == DictionaryParse(true, None)
    ensures Truthy(header) ==> r == ParseStructuredDictionary(header.value)
  {
    if Truthy(header) then ParseStructuredDictionary(header.value) else DictionaryParse(true, None)
  }

  /** `parseExpoContextFromRequest`: the headers with their defaults. */
  function ParseExpoContext(h: Headers): (c: ExpoContext)
    ensures c.platform == NormalizedPlatform(h)
    ensures "expo-runtime-version" !in h ==> c.runtimeVersion == ""
    ensures "expo-runtime-version" in h ==> c.runtimeVersion == h["expo-runtime-version"]
    ensures !Truthy(Header(h, "expo-channel-name")) ==> c.channel == "production"
    ensures Truthy(Header(h, "expo-channel-name")) ==> c.channel == h["expo-channel-name"]
    ensures c.expectSignatureHeader == Header(h, "expo-expect-signature")
    ensures !Truthy(c.expectSignatureHeader) ==> c.expectSignatureValid && c.expectSignature.None?
    ensures Truthy(c.expectSignatureHeader) ==>
      DictionaryParse(c.expectSignatureValid, c.expectSignature) == ParseStructuredDictionary(c.expectSignatureHeader.value)
    ensures c.protocolVersion == Header(h, "expo-protocol-version")
    ensures c.currentUpdateId == Header(h, "expo-current-update-id")
    ensures c.appVersion == Header(h, "x-app-version") && c.deviceId == Header(h, "x-device-id")
    ensures c.osName == Header(h, "x-os-name") && c.osVersion == Header(h, "x-os-version")
    ensures c.deviceModel == Header(h, "x-device-model")
  {
    var sig := Header(h, "expo-expect-signature");
    var parsed := ExpectSignature(sig);
    ExpoContext(
      Header(h, "expo-protocol-version"),
      NormalizedPlatform(h),
      OrDefault(Header(h, "expo-runtime-version"), ""),
      OrDefault(Header(h, "expo-channel-name"), "production"),
      Header(h, "expo-current-update-id"),
      sig,
      parsed.value,
      parsed.valid,
      Header(h, "x-app-version"),
      Header(h, "x-device-id"),
      Header(h, "x-os-name"),
      Header(h, "x-os-version"),
      Header(h, "x-device-model"))
  }

  /** The context's facts that hold for every request: a normalised
      platform is left alone by normalising it again, the channel is never
      empty, and a dictionary is present exactly when a non-empty
      expect-signature header parsed. */
  lemma ContextInvariants(h: Headers)
    ensures var c := ParseExpoContext(h);
      && Trim(Lower(c.platform)) == c.platform
      && c.channel != ""
      && (c.expectSignature.Some? <==> Truthy(c.expectSignatureHeader) && c.expectSignatureValid)
  {
    var c := ParseExpoContext(h);
    LowerOfLowerCase(c.platform);
  }

  /** Platform names are matched case-insensitively and around white space
      when the context is built. */
  lemma ContextPlatformSupported(h: Headers, v: string)
    requires "expo-platform" in h && Trim(Lower(h["expo-platform"])) == v
    ensures IsSupportedExpoPlatform(ParseExpoContext(h).platform) <==> v == "ios" || v == "android"
  {
  }

  // ---------------------------------------------------------------------
  // Response headers

  /** The options of `expoResponseHeaders`; an absent record is given as no
      entries. */
  datatype ResponseOptions = ResponseOptions(
    manifestFilters: seq<(string, string)>,
    serverDefinedHeaders: seq<(string, string)>,
    cacheControl: Option<string>,
    vary: Option<seq<string>>)

  const DefaultCacheControl: string := "private, max-age=0"
  const DefaultVary: string := "accept, expo-platform, expo-runtime-version, expo-channel-name"

  /** The headers every protocol response carries. */
  const ProtocolHeaderNames: set<string> := {"expo-protocol-version", "expo-sfv-version", "expo-manifest-filters",
                                             "expo-server-defined-headers", "cache-control", "vary"}

  /** `expoResponseHeaders`: the protocol headers, the two dictionaries
      serialised, and cache-control and vary with their defaults (an empty
      joined vary list falls back too). */
  function ExpoResponseHeaders(o: ResponseOptions): (h: Headers)
    ensures h.Keys == ProtocolHeaderNames
    ensures h["expo-protocol-version"] == "1" && h["expo-sfv-version"] == "0"
    ensures h["expo-manifest-filters"] == SerializeStructuredDictionary(o.manifestFilters)
    ensures h["expo-server-defined-headers"] == SerializeStructuredDictionary(o.serverDefinedHeaders)
    ensures h["cache-control"] == OrDefault(o.cacheControl, DefaultCacheControl)
    ensures o.vary.Some? && Join(o.vary.value, ", ") != "" ==> h["vary"] == Join(o.vary.value, ", ")
    ensures o.vary.None? || Join(o.vary.value, ", ") == "" ==> h["vary"] == DefaultVary
  {
    var vary := match o.vary case Some(v) => Some(Join(v, ", ")) case None => None;
    map[
      "expo-protocol-version" := "1",
      "expo-sfv-version" := "0",
      "expo-manifest-filters" := SerializeStructuredDictionary(o.manifestFilters),
      "expo-server-defined-headers" := SerializeStructuredDictionary(o.serverDefinedHeaders),
      "cache-control" := OrDefault(o.cacheControl, DefaultCacheControl),
      "vary" := OrDefault(vary, DefaultVary)]
  }

  /** No options: empty dictionaries and the default cache-control and
      vary. */
  lemma ResponseHeadersDefaults()
    ensures var h := ExpoResponseHeaders(ResponseOptions([], [], None, None));
      h["expo-manifest-filters"] == "" && h["expo-server-defined-headers"] == ""
      && h["cache-control"] == DefaultCacheControl && h["vary"] == DefaultVary
  {
    assert KeptEntries([]) == [];
  }

  /** The manifest-filters header reads back, with the structured-field
      parser, as the filters record. */
  lemma ManifestFiltersReadBack(o: ResponseOptions, m: map<string, string>)
    requires EntriesOf(o.manifestFilters, m)
    requires forall k :: k in m ==> ValidKey(k) && IsLowerCase(k) && ',' !in m[k]
    ensures ParseStructuredDictionary(ExpoResponseHeaders(o)["expo-manifest-filters"]) == DictionaryParse(true, Some(AsDictionary(m)))
  {
    SerializeRecordThenParse(o.manifestFilters, m);
  }

  // ---------------------------------------------------------------------
  // Content type of a stored file

  const DefaultContentType: string := "application/octet-stream"

  /** `resolveContentType`: Hermes bytecode and bundles are JavaScript;
      otherwise the mime table's answer when it has a non-empty one, else the
      fallback. */
  function ResolveContentType(filePath: string, fallback: string, x: Externals): (t: string)
    ensures EndsWith(filePath, ".hbc") || EndsWith(filePath, ".bundle") ==> t == "application/javascript"
    ensures !(EndsWith(filePath, ".hbc") || EndsWith(filePath, ".bundle")) ==>
      t == OrDefault(x.lookupMime(filePath), fallback)
  {
    if EndsWith(filePath, ".hbc") || EndsWith(filePath, ".bundle") then "application/javascript"
    else OrDefault(x.lookupMime(filePath), fallback)
  }

  /** With a non-empty fallback the content type is never empty, and it is
      the fallback only when neither the suffix rule nor the table gave
      another answer. */
  lemma ResolveContentTypeTotal(filePath: string, fallback: string, x: Externals)
    requires fallback != ""
    ensures ResolveContentType(filePath, fallback, x) != ""
    ensures ResolveContentType(filePath, fallback, x) == fallback && fallback != "application/javascript" ==>
      && !(EndsWith(filePath, ".hbc") || EndsWith(filePath, ".bundle"))
      && (!Truthy(x.lookupMime(filePath)) || x.lookupMime(filePath).value == fallback)
  {
  }

  // ---------------------------------------------------------------------
  // Code signing

  /** Why no signature was produced although one was asked for. */
  datatype SignFailure = MissingPrivateKey | KeyIdMismatch | AlgorithmMismatch

  function ReasonName(f: SignFailure): string {
    match f
    case MissingPrivateKey => "missing_private_key"
    case KeyIdMismatch => "key_id_mismatch"
    case AlgorithmMismatch => "algorithm_mismatch"
  }

  /** The options of `maybeSignManifest`. */
  datatype SignOptions = SignOptions(shouldSign: bool, expectedKeyId: Option<string>, expectedAlg: Option<string>)

  /** `{ signature, reason }`. */
  datatype SignOutcome = SignOutcome(signature: Option<string>, reason: Option<SignFailure>)

  /** `.replace(/\\n/g, '\n')`: every backslash-`n` pair, scanned from the
      left, becomes a line feed. */
  function UnescapeNewlines(s: string): (r: string)
    ensures |r| <= |s|
    ensures '\\' !in s ==> r == s
    decreases |s|
  {
    if |s| >= 2 && s[0] == '\\' && s[1] == 'n' then "\n" + UnescapeNewlines(s[2..])
    else if |s| == 0 then ""
    else [s[0]] + UnescapeNewlines(s[1..])
  }

  /** The `expo-signature` value: `sig=:<base64>:, keyid="<id>", alg="<alg>"`. */
  function SignatureHeaderValue(signature: string, keyId: string, alg: string): string {
    "sig=:" + signature + ":, keyid=\"" + keyId + "\", alg=\"" + alg + "\""
  }

  /** The key-id check fails: an expected key id was given and differs from
      the configured one. */
  predicate KeyIdRejected(o: SignOptions, env: AppEnv) {
    Truthy(o.expectedKeyId) && o.expectedKeyId.value != env.codeSignKeyId
  }

  predicate AlgRejected(o: SignOptions, env: AppEnv) {
    Truthy(o.expectedAlg) && o.expectedAlg.value != env.codeSignAlg
  }

  /** `maybeSignManifest`: no signature unless asked for; then, in this
      order, a missing key, a key-id mismatch and an algorithm mismatch are
      reported; otherwise the body is signed with the configured key. */
  function MaybeSignManifest(body: string, o: SignOptions, env: AppEnv, x: Externals): (r: SignOutcome)
    ensures !o.shouldSign ==> r == SignOutcome(None, None)
    ensures o.shouldSign ==> (r.signature.Some? <==> r.reason.None?)
    ensures o.shouldSign && !Truthy(env.privateKeyPem) ==> r.reason == Some(MissingPrivateKey)
    ensures o.shouldSign && Truthy(env.privateKeyPem) && KeyIdRejected(o, env) ==> r.reason == Some(KeyIdMismatch)
    ensures o.shouldSign && Truthy(env.privateKeyPem) && !KeyIdRejected(o, env) && AlgRejected(o, env) ==>
      r.reason == Some(AlgorithmMismatch)
    ensures r.signature.Some? <==> o.shouldSign && Truthy(env.privateKeyPem) && !KeyIdRejected(o, env) && !AlgRejected(o, env)
    ensures r.signature.Some? ==>
              r.signature.value == SignatureHeaderValue(x.signRsaSha256(body, UnescapeNewlines(env.privateKeyPem.value)), env.codeSignKeyId, env.codeSignAlg)
  {
    if !o.shouldSign then SignOutcome(None, None)
    else if !Truthy(env.privateKeyPem) then SignOutcome(None, Some(MissingPrivateKey))
    else if KeyIdRejected(o, env) then SignOutcome(None, Some(KeyIdMismatch))
    else if AlgRejected(o, env) then SignOutcome(None, Some(AlgorithmMismatch))
    else
      var key := UnescapeNewlines(env.privateKeyPem.value);
      SignOutcome(Some(SignatureHeaderValue(x.signRsaSha256(body, key), env.codeSignKeyId, env.codeSignAlg)), None)
  }

  /** A produced signature names the configured key id and algorithm, so
      any non-empty expectation the client stated is met by it. */
  lemma SignatureHonoursExpectations(body: string, o: SignOptions, env: AppEnv, x: Externals)
    requires MaybeSignManifest(body, o, env, x).signature.Some?
    ensures Truthy(o.expectedKeyId) ==> o.expectedKeyId.value == env.codeSignKeyId
    ensures Truthy(o.expectedAlg) ==> o.expectedAlg.value == env.codeSignAlg
    ensures o.shouldSign && Truthy(env.privateKeyPem)
  {
  }

  /** Escaping a value without quotes changes nothing. */
  lemma {:induction false} EscapeQuotesNoQuote(v: string)
    requires '"' !in v
    ensures EscapeQuotes(v) == v
    decreases |v|
  {
    if |v| > 0 {
      EscapeQuotesNoQuote(v[1..]);
      assert [v[0]] + v[1..] == v;
    }
  }

  /** A quoted member of the signature header is the serialised entry. */
  lemma QuotedMember(k: string, v: string)
    requires ValidKey(k) && IsLowerCase(k) && '"' !in v && ',' !in v
    ensures k + "=\"" + v + "\"" == SerializeEntry(k, v)
    ensures ParseMember(k + "=\"" + v + "\"") == Some((k, SfString(v)))
    ensures CleanMember(k + "=\"" + v + "\"")
  {
    SafeKeyOfValidKey(k);
    EscapeQuotesNoQuote(v);
    SerializeEntryParses(k, v);
    SerializeEntryShape(k, v);
  }

  /** The `sig` member keeps the colon-delimited signature verbatim. */
  lemma SigMemberParses(signature: string)
    ensures ParseMember("sig=:" + signature + ":") == Some(("sig", SfString(":" + signature + ":")))
  {
    var v := ":" + signature + ":";
    SigKeyValid();
    ColonDelimitedTrimmed(signature);
    ParseKeyValueMember("sig", v);
    SigPrefixSplits(signature);
  }

  lemma SigPrefixSplits(signature: string)
    ensures "sig=:" + signature + ":" == "sig" + "=" + (":" + signature + ":")
  {
    var a, b := "sig=:" + signature + ":", "sig" + "=" + (":" + signature + ":");
    assert |a| == |b|;
    assert forall i :: 0 <= i < |a| ==> a[i] == b[i];
  }

  lemma SigKeyValid()
    ensures ValidKey("sig")
  {
  }

  /** A colon-delimited value has no surrounding space and no quotes. */
  lemma ColonDelimitedTrimmed(signature: string)
    ensures Trim(":" + signature + ":") == ":" + signature + ":"
    ensures MemberValue(":" + signature + ":") == SfString(":" + signature + ":")
  {
    var v := ":" + signature + ":";
    PrintableNotSpace(':', 0);
    TrimNoSpaceEnds(v);
    assert v[0] == ':';
  }

  lemma SigMemberShape(signature: string)
    requires ',' !in signature
    ensures CleanMember("sig=:" + signature + ":")
  {
    var m := "sig=:" + signature + ":";
    PrintableNotSpace(':', 0);
    PrintableNotSpace('s', 0);
    assert m[0] == 's' && m[|m| - 1] == ':';
    TrimNoSpaceEnds(m);
  }

  /** A header member with no comma and no space at either end. */
  predicate CleanMember(m: string) {
    m != "" && ',' !in m && Trim(m) == m && !IsSpace(m[0]) && !IsSpace(m[|m| - 1])
  }

  /** The members of the signature header. */
  function SignatureMembers(signature: string, keyId: string, alg: string): seq<string> {
    ["sig=:" + signature + ":", "keyid" + "=\"" + keyId + "\"", "alg" + "=\"" + alg + "\""]
  }

  lemma SignatureHeaderIsJoin(signature: string, keyId: string, alg: string)
    ensures SignatureHeaderValue(signature, keyId, alg) == Join(SignatureMembers(signature, keyId, alg), ", ")
  {
    var ms := SignatureMembers(signature, keyId, alg);
    assert Join(ms[1..][1..], ", ") == ms[2];
    assert Join(ms[1..], ", ") == ms[1] + ", " + ms[2];
  }

  lemma SignatureMembersShape(signature: string, keyId: string, alg: string)
    requires ',' !in signature && ',' !in keyId && ',' !in alg && '"' !in keyId && '"' !in alg
    ensures forall m :: m in SignatureMembers(signature, keyId, alg) ==> CleanMember(m)
  {
    var ms := SignatureMembers(signature, keyId, alg);
    SigMemberShape(signature);
    QuotedMemberClean("keyid", keyId);
    QuotedMemberClean("alg", alg);
    forall m | m in ms
      ensures CleanMember(m)
    {
      assert m == ms[0] || m == ms[1] || m == ms[2];
    }
  }

  lemma QuotedMemberClean(k: string, v: string)
    requires k == "keyid" || k == "alg"
    requires '"' !in v && ',' !in v
    ensures CleanMember(k + "=\"" + v + "\"")
  {
    KeysOfSignature();
    QuotedMember(k, v);
  }

  lemma KeysOfSignature()
    ensures ValidKey("keyid") && IsLowerCase("keyid") && ValidKey("alg") && IsLowerCase("alg")
  {
  }

  /** The signature header is the trimmed join of its members, and splits
      back into them. */
  lemma SignatureHeaderSplits(signature: string, keyId: string, alg: string)
    requires ',' !in signature && ',' !in keyId && ',' !in alg && '"' !in keyId && '"' !in alg
    ensures var s := SignatureHeaderValue(signature, keyId, alg);
      s != "" && Trim(s) == s && SplitCsv(s) == SignatureMembers(signature, keyId, alg)
  {
    SignatureHeaderIsJoin(signature, keyId, alg);
    SignatureMembersShape(signature, keyId, alg);
    MembersRoundTrip(SignatureMembers(signature, keyId, alg));
  }

  /** Members of the right shape joined with `, ` form a trimmed header
      that splits back into them. */
  lemma MembersRoundTrip(ms: seq<string>)
    requires |ms| > 0
    requires forall m :: m in ms ==> CleanMember(m)
    ensures var s := Join(ms, ", ");
      s != "" && Trim(s) == s && SplitCsv(s) == ms
  {
    JoinTrimmed(ms, ", ");
    SplitCsvJoin(ms);
  }

  /** Three valid members collect into the dictionary of their pairs. */
  lemma ParseThreeMembers(ms: seq<string>, a: (string, SfItem), b: (string, SfItem), c: (string, SfItem))
    requires |ms| == 3
    requires ParseMember(ms[0]) == Some(a) && ParseMember(ms[1]) == Some(b) && ParseMember(ms[2]) == Some(c)
    ensures ParseMembers(ms, map[]) == DictionaryParse(true, Some(map[a.0 := a.1][b.0 := b.1][c.0 := c.1]))
  {
    var d1 := map[a.0 := a.1];
    var d2 := d1[b.0 := b.1];
    ParseMembersCons(ms, map[]);
    assert ms[1..][0] == ms[1];
    ParseMembersCons(ms[1..], d1);
    assert ms[1..][1..][0] == ms[2];
    ParseMembersCons(ms[1..][1..], d2);
    assert ms[1..][1..][1..] == [];
  }

  /** The produced `expo-signature` value reads back, with the
      structured-field parser, as the signature (between colons), the key id
      and the algorithm, provided none of them holds a comma and the key id
      and algorithm hold no quote. */
  lemma SignatureHeaderParses(signature: string, keyId: string, alg: string)
    requires ',' !in signature && ',' !in keyId && ',' !in alg && '"' !in keyId && '"' !in alg
    ensures ParseStructuredDictionary(SignatureHeaderValue(signature, keyId, alg)) ==
      DictionaryParse(true, Some(map["sig" := SfString(":" + signature + ":"), "keyid" := SfString(keyId), "alg" := SfString(alg)]))
  {
    var ms := SignatureMembers(signature, keyId, alg);
    SignatureHeaderSplits(signature, keyId, alg);
    SigMemberParses(signature);
    KeysOfSignature();
    QuotedMember("keyid", keyId);
    QuotedMember("alg", alg);
    ParseThreeMembers(ms, ("sig", SfString(":" + signature + ":")), ("keyid", SfString(keyId)), ("alg", SfString(alg)));
  }

  // ---------------------------------------------------------------------
  // Client address

  /** `getRequestIp`: the first comma-separated part of
      `x-forwarded-for`, trimmed; `None` when the header or that part is
      empty. */
  function GetRequestIp(h: Headers): (r: Option<string>)
    ensures !Truthy(Header(h, "x-forwarded-for")) ==> r.None?
    ensures r.Some? ==> r.value != "" && Trim(r.value) == r.value && ',' !in r.value
    ensures Truthy(Header(h, "x-forwarded-for")) && ',' !in Header(h, "x-forwarded-for").value ==>
              var v := Header(h, "x-forwarded-for").value;
              && (r.Some? <==> Trim(v) != "")
              && (r.Some? ==> r.value == Trim(v))
  {
    var f := Header(h, "x-forwarded-for");
    if !Truthy(f) then None
    else
      SplitFirstOfPlain(f.value, ',');
      var first := Trim(Split(f.value, ',')[0]);
      SplitPartsFree(f.value, ',');
      TrimChars(Split(f.value, ',')[0]);
      TrimIdempotent(Split(f.value, ',')[0]);
      if first == "" then None else Some(first)
  }

  /** The client address is the first hop of the forwarded-for list,
      whether it is the only hop (`rest` is `None`) or more follow after a
      comma. */
  lemma GetRequestIpFirstHop(h: Headers, first: string, rest: Option<string>)
    requires "x-forwarded-for" in h
    requires h["x-forwarded-for"] == first + (if rest.Some? then "," + rest.value else "")
    requires ',' !in first
    ensures Trim(first) != "" ==> GetRequestIp(h) == Some(Trim(first))
    ensures Trim(first) == "" ==> GetRequestIp(h).None?
  {
    var v := h["x-forwarded-for"];
    if rest.Some? {
      assert v == first + [','] + rest.value;
      SplitAtSeparator(first, ',', rest.value);
    } else {
      assert v == first;
      SplitNoSeparator(first, ',');
    }
    assert Split(v, ',')[0] == first;
  }

  /** `hashIp`: the hex SHA-256 of `<salt>:<ip>`, or `None` without an
      address. */
  function HashIp(ip: Option<string>, env: AppEnv, x: Externals): (r: Option<string>)
    ensures r.Some? <==> Truthy(ip)
    ensures r.Some? ==> r.value == x.sha256Hex(env.analyticsSalt + ":" + ip.value)
  {
    if Truthy(ip) then Some(x.sha256Hex(env.analyticsSalt + ":" + ip.value)) else None
  }
}
