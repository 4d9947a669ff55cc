# shiftcal-updates, modelled in Dafny

shiftcal-updates is a self-hosted over-the-air update server for mobile
apps that speak the Expo Updates protocol (version 1). This project models
its core:

- the manifest endpoint (`GET /api/manifest`): header parsing, Accept
  negotiation, update resolution, optional code signing, the events it
  records, and the status it answers with;
- the asset endpoint (`GET /api/assets`);
- archive publication, listing and deletion of published updates, with
  reference-based garbage collection of stored assets;
- the content-addressed asset store;
- the admin token checks and the admin publish endpoint;
- the remote-config service;
- the dashboard aggregation;
- the bsdiff outcome classifier;
- the command-line publish script.

Everything is a pure function over immutable data:

- the database is a sequence of rows;
- the asset directory is a map from file name to bytes;
- each database or file-system failure that the source reports is an
  explicit `Option<string>` fault argument. The event insert of
  `trackEvent` is the exception: it only logs its failure, and the model
  treats every tracked event as stored (see "## Left out");
- the clock is an integer (milliseconds) or ISO-string parameter;
- every foreign computation is a function-valued field of
  `Foreign.Externals`. These are SHA-256/base64url, hex SHA-256, UTF-8
  encoding and decoding, `encodeURIComponent`/`decodeURIComponent`, WHATWG
  URL resolution, the `file` query parameter of a URL, the mime lookup,
  RSA-SHA256 signing and `Number` parsing.

Nothing is assumed about these functions except where a lemma states a
requirement (for example, that hashes use the base64url alphabet).

Each module follows one source file:

- `Expo` and `Sfv` follow `lib/expo.ts`;
- `Updates`, `UpdatesPublish`, `UpdatesList`, `UpdatesResolve` and
  `UpdatesDelete` follow `lib/services/updates-service.ts`;
- `ManifestRoute`, `AssetsRoute` and `PublishRoute` follow the three route
  handlers;
- `Storage`, `Utils`, `Auth`, `Bsdiff`, `ConfigService` and `Env` follow
  the library files of the same names;
- `StatsLabels` and `StatsService` follow `lib/services/stats-service.ts`;
- `PublishScript` follows `scripts/publish-update.mjs`.

`Text`, `Sorting`, `Wrappers`, `Http`, `Events`, `Foreign` and `NodePath`
are shared foundations:

- JavaScript `trim`, `split`, `toLowerCase` and `join`;
- the stable `Array.prototype.sort`;
- Option/Result;
- headers and responses;
- the analytics event rows;
- the foreign functions;
- Node's `path.extname`.

An uncaught exception of the source is a `Failure` carrying the error
message.

The asset route always serves the whole stored file. No code path
delivers binary patches, so the model has none. `lib/bsdiff.ts` is modelled
only as the classification of a subprocess outcome.

## Model

| member | source | states |
|---|---|---|
| Sfv.SplitCsv | lib/expo.ts:35-40 | every part produced is non-empty and already trimmed |
| Sfv.SplitCsvJoin | lib/expo.ts:35-40 | splitting members joined by `", "` gives the members back when each is non-empty, comma-free and trimmed |
| Sfv.Unescape | lib/expo.ts:126-129 | removing the escapes never lengthens the text |
| Sfv.EscapeQuotes | lib/expo.ts:151 | the escaped text never starts with a quote and adds no characters other than backslashes |
| Sfv.UnescapeEscapeQuotes | lib/expo.ts:126-151 | unescaping undoes escaping for every string |
| Sfv.MemberValue | lib/expo.ts:124-134 | a value in double quotes becomes its inner text unescaped; any other value, `:…:` included, is kept verbatim |
| Sfv.ParseMember | lib/expo.ts:109-134 | a member parses exactly when its trimmed key matches the key grammar; the key is that text; a member without `=` is the flag `true` |
| Sfv.ParseBareKey | lib/expo.ts:119-122 | a bare valid key parses as the flag `true` |
| Sfv.ParseKeyValueMember | lib/expo.ts:115-134 | `key=value` with a valid key parses to the key and the value's reading, `=` characters inside the value kept |
| Sfv.ValidKeyShape | lib/expo.ts:115-117 | a key accepted by the grammar has no `=`, no comma and no surrounding white space |
| Sfv.ParseMembers | lib/expo.ts:107-137 | the dictionary is valid exactly when every member parses; a value exists exactly when valid; earlier keys stay |
| Sfv.ParseMembersLaterOverwrites | lib/expo.ts:136 | a later member with the same key overwrites the earlier value |
| Sfv.ParseStructuredDictionary | lib/expo.ts:102-140 | blank input is the valid empty dictionary; otherwise the result is valid exactly when every comma-separated member parses, and it carries a value exactly when valid |
| Sfv.SafeKey | lib/expo.ts:150 | keeps the length; every character is lower-case safe; each lowered character outside `[a-z0-9_.*-]` becomes `-` and every other is kept |
| Sfv.SafeKeyOfValidKey | lib/expo.ts:150 | a lower-case key in the grammar is unchanged by the key cleaning |
| Sfv.KeptEntries | lib/expo.ts:143 | exactly the entries with a non-empty key are kept, all of them when none is empty |
| Sfv.SerializedMembers | lib/expo.ts:144-153 | one `key="value"` member per entry, in order |
| Sfv.SerializeStructuredDictionary | lib/expo.ts:142-155 | a map with no non-empty key serialises to the empty string |
| Sfv.SerializeEntryParses | lib/expo.ts:142-155 | one serialised entry with a lower-case valid key parses back to the key and the value |
| Sfv.SerializedSplits | lib/expo.ts:142-155 | the serialised form of entries with valid lower-case keys and comma-free values is trimmed and splits into its members |
| Sfv.SerializeThenParse | lib/expo.ts:102-155 | parsing the serialisation of such entries gives the valid dictionary they build, the last value of a repeated key winning |
| Sfv.SerializeRecordThenParse | lib/expo.ts:102-155 | for a record listed by its entries with valid lower-case keys and comma-free values, parsing the serialisation returns exactly that record |
| Sfv.AsDictionary | lib/expo.ts:102-140 | the dictionary of a string record has the same keys, each value a string item |
| Sfv.ToDictionaryOfEntries | lib/expo.ts:142-155 | building the dictionary from a record's listed entries gives the record's dictionary |
| Expo.Clamp01 | lib/expo.ts:59 | the result lies in [0, 1] and equals the input when the input already does |
| Expo.Quality | lib/expo.ts:53-62 | the quality of an entry lies in [0, 1] |
| Expo.ParseAcceptEntry | lib/expo.ts:46-79 | an entry is kept exactly when its lower-cased, trimmed media range contains `/`; a kept entry is well formed (lower case, quality in [0, 1], specificity 0/1/2 for `*/*`, `t/*`, exact) and keeps its position |
| Expo.ParseAcceptHeader | lib/expo.ts:42-81 | the result lists, in increasing position, exactly the entries of the comma-separated header that parse, each well formed |
| Expo.EntriesOfParts | lib/expo.ts:44-80 | dropping the unparsable entries keeps every parsed one, in position order |
| Expo.Acceptable | lib/expo.ts:168 | exactly the entries with a positive quality are kept |
| Expo.RanksBeforeIsStrictWeakOrder | lib/expo.ts:169-177 | the ranking by quality, then specificity, then position is a strict weak order |
| Expo.MediaTypeMatchesItself | lib/expo.ts:83-100 | each supported type matches itself |
| Expo.MediaTypeWildcardSubtype | lib/expo.ts:95-99 | `t/*…` matches a supported type exactly when it is `application/*` (nothing after the star before any further slash) or is that type's exact name |
| Expo.MediaTypeExact | lib/expo.ts:83-100 | a range that is neither `*/*` nor a subtype wildcard matches exactly the type of the same name |
| Expo.ApplicationJsonMatches | lib/expo.ts:83-100 | `application/json` matches plain JSON and not expo+json |
| Expo.TextPlainMatchesNothing | lib/expo.ts:83-100 | `text/plain` matches no supported type |
| Expo.FirstSupported | lib/expo.ts:179-187 | no type exactly when no entry matches a supported type |
| Expo.FirstSupportedSingle | lib/expo.ts:179-185 | for one entry, expo+json is tried before plain JSON |
| Expo.ChoosePicksBestRanked | lib/expo.ts:168-187 | the choice is none exactly when no candidate matches; otherwise a candidate matches it (not matching expo+json when the choice is plain JSON), and nothing ranked before that candidate matches any supported type |
| Expo.NegotiateManifestContentType | lib/expo.ts:161-188 | an absent, empty or white-space-only Accept header gives expo+json |
| Expo.NegotiatePicksBestRanked | lib/expo.ts:161-188 | for a non-blank header: no type exactly when no parsed entry of positive quality matches; otherwise the type is matched by such an entry that no better-ranked supported match precedes |
| Expo.NegotiateAnyType | lib/expo.ts:161-188 | `*/*` negotiates expo+json |
| Expo.NegotiatePlainJson | lib/expo.ts:161-188 | `application/json` negotiates plain JSON |
| Expo.NegotiateTextPlain | lib/expo.ts:161-188 | `text/plain` is not acceptable |
| Expo.NegotiateSingleRange | lib/expo.ts:161-188 | a single plain lower-case media range is decided by that range alone with quality 1 |
| Expo.PlainMediaRangeHeader | lib/expo.ts:42-81 | a single plain media range parses to one entry of quality 1 at position 0 |
| Expo.SingleEntryHeader | lib/expo.ts:42-81 | a header with one part parses to that part's entry alone |
| Expo.NormalizedPlatform | lib/expo.ts:191 | the platform header lower-cased and trimmed, empty when absent |
| Expo.ExpectSignature | lib/expo.ts:192-195 | an absent or empty expect-signature header is valid with no dictionary; otherwise it is parsed |
| Expo.ParseExpoContext | lib/expo.ts:190-212 | every context field: platform normalised, runtime `''` when absent, channel `production` when absent or empty, the expectation parsed, the other headers as given |
| Expo.ContextInvariants | lib/expo.ts:190-212 | the platform is normalised, the channel is never empty, and a dictionary is present exactly when the header is present and valid |
| Expo.ContextPlatformSupported | lib/expo.ts:157-191 | the platform is supported exactly when the normalised header is `ios` or `android` |
| Expo.ExpoResponseHeaders | lib/expo.ts:214-228 | exactly the six protocol headers: version `1`, SFV version `0`, both dictionaries serialised, cache-control and vary with their defaults (an empty joined vary list also falls back) |
| Expo.ResponseHeadersDefaults | lib/expo.ts:214-228 | with no options both dictionaries are empty and the default cache-control and vary are used |
| Expo.ManifestFiltersReadBack | lib/expo.ts:214-228 | a client parsing `expo-manifest-filters` gets back the record serialised into it |
| Expo.ResolveContentType | lib/expo.ts:230-236 | `.hbc` and `.bundle` paths are JavaScript; otherwise the mime lookup's non-empty answer, else the fallback |
| Expo.ResolveContentTypeTotal | lib/expo.ts:230-236 | with a non-empty fallback the content type is never empty; it equals a fallback other than JavaScript only when the path is neither `.hbc` nor `.bundle` and the mime table gave no other non-empty answer |
| Expo.UnescapeNewlines | lib/expo.ts:263 | the key text never grows and is unchanged without backslashes |
| Expo.MaybeSignManifest | lib/expo.ts:238-272 | unsigned when not asked; then missing key, key-id mismatch and algorithm mismatch are reported in that order; a signature exactly when none applies, then in the `sig=:…:, keyid="…", alg="…"` form over the body with the unescaped key |
| Expo.SignatureHonoursExpectations | lib/expo.ts:246-261 | a produced signature implies that signing was asked for, a key is configured, and every non-empty expectation equals the configuration |
| Expo.SignatureHeaderSplits | lib/expo.ts:270 | the signature header splits into its three members |
| Expo.SignatureHeaderParses | lib/expo.ts:270 | parsing the signature header with the dictionary parser yields `sig`, `keyid` and `alg` with their values |
| Expo.SigMemberParses | lib/expo.ts:270 | the `sig=:…:` member parses to its colon-delimited value |
| Expo.QuotedMember | lib/expo.ts:270 | a quoted member is the serialised entry and parses back to its value |
| Expo.GetRequestIp | lib/expo.ts:283-290 | no address without a forwarded-for header; an address is non-empty, trimmed and comma-free; a single-address header gives its trimmed value, none when blank |
| Expo.GetRequestIpFirstHop | lib/expo.ts:289 | for any forwarded-for header, one hop or several, the address is the trimmed first hop, none when that is blank |
| Expo.HashIp | lib/expo.ts:274-281 | a hash exactly when an address is given: the hex SHA-256 of salt, colon, address |
| Updates.ForwardSlashes | lib/services/updates-service.ts:77 | every backslash becomes a slash, nothing else changes |
| Updates.NormalizeZipPath | lib/services/updates-service.ts:76-78 | no backslash survives; after the slash conversion a leading `./` is removed, then a leading `/` (so `.//` loses three characters and `/` one), and a path with neither prefix is unchanged |
| Updates.NormalizeZipPathSuffix | lib/services/updates-service.ts:76-78 | the result is a suffix of the slash-converted path, at most three characters shorter |
| Updates.NormalizeZipPathPlain | lib/services/updates-service.ts:76-78 | a path without backslashes, `./` or leading `/` is unchanged |
| Updates.ReadZipFile | lib/services/updates-service.ts:80-83 | the normalised entry, else its `./` form, else nothing |
| Updates.NormalizePlatform | lib/services/updates-service.ts:97-104 | iOS exactly for `ios`, Android exactly for `android`, in any letter case |
| Updates.NormalizePlatformNames | lib/services/updates-service.ts:97-104 | a platform's own name normalises back to it |
| Updates.ToAbsoluteUrl | lib/services/updates-service.ts:126-132 | `http://` and `https://` URLs are kept; others are resolved against the origin |
| Updates.AbsoluteAssets | lib/services/updates-service.ts:137-141 | every asset keeps its position and fields except an absolutised URL; fails exactly when some URL does not resolve |
| Updates.CloneManifestWithOrigin | lib/services/updates-service.ts:134-146 | the clone exists exactly when the launch URL and every asset URL resolve |
| Updates.CloneChangesOnlyUrls | lib/services/updates-service.ts:134-146 | only URLs change: id, times, metadata, extra, asset count and order are preserved, and absolute URLs are untouched |
| Updates.NormalizeCurrentUpdateId | lib/services/updates-service.ts:148-154 | null or empty gives none; otherwise some id no longer than the header |
| Updates.NormalizeCurrentUpdateIdQuotes | lib/services/updates-service.ts:148-154 | an unquoted id is recovered from the id, `"id"`, `"id` and `id"` |
| Updates.WrappedIdUnwrapped | lib/services/updates-service.ts:148-154 | one pair of surrounding quotes is removed from any id, inner quotes kept |
| Updates.LeadingQuoteDropped | lib/services/updates-service.ts:151 | one leading quote is removed independently of the end |
| Updates.TrailingQuoteDropped | lib/services/updates-service.ts:152 | one trailing quote is removed independently of the start |
| Updates.UnquotedKept | lib/services/updates-service.ts:148-154 | an id without end quotes is kept |
| Updates.ExtractFilename | lib/services/updates-service.ts:314-330 | no name without a URL or without a non-empty `file` parameter; otherwise its decoding, none when decoding throws |
| Updates.AddName | lib/services/updates-service.ts:332-348 | adding to the name set keeps the old names and adds the new one |
| Updates.AddAssetNames | lib/services/updates-service.ts:338-345 | the names are kept, and every added name is a non-empty name extracted from some asset |
| Updates.AddAssetNamesComplete | lib/services/updates-service.ts:338-345 | every non-empty extracted name is collected |
| Updates.CollectedNames | lib/services/updates-service.ts:332-348 | the collected names are exactly the non-empty names extracted from the launch asset and the assets |
| NodePath.Extname | lib/services/updates-service.ts:122 | the extension is empty or starts with a dot |
| NodePath.ExtnameShape | lib/services/updates-service.ts:122 | a non-empty extension is a dot-led, slash- and dot-free proper suffix of the last path segment |
| NodePath.ExtnameOfStemAndExtension | lib/services/updates-service.ts:122 | `dir/stem.ext` has extension `.ext` |
| NodePath.ExtnameOfBareName | lib/services/updates-service.ts:122 | a bare `stem.ext` has extension `.ext` |
| UpdatesPublish.MetadataFile | lib/services/updates-service.ts:158-162 | no metadata exactly when neither `metadata.json` nor `./metadata.json` is in the archive |
| UpdatesPublish.PlatformCandidate | lib/services/updates-service.ts:167-180 | a section is kept exactly when it names ios or android (any case), is an object and has a non-empty bundle |
| UpdatesPublish.SelectPlatforms | lib/services/updates-service.ts:167-180 | exactly the kept sections, each with a non-empty bundle |
| UpdatesPublish.SelectPlatformsOrdered | lib/services/updates-service.ts:167-180 | the kept sections keep their archive order |
| UpdatesPublish.AssetPath | lib/services/updates-service.ts:106-112 | a string entry is its path; an object entry its non-empty path, else none |
| UpdatesPublish.AssetExtension | lib/services/updates-service.ts:114-124 | the declared extension without its dot, else the path's extension without its dot, else none |
| UpdatesPublish.MetadataKey | lib/services/updates-service.ts:218 | an object entry's `key`, else its `hash`; nothing for a string entry |
| UpdatesPublish.AssetRecord | lib/services/updates-service.ts:218-229 | hash of the bytes; key from metadata else the hash; declared or resolved content type; the stored URL; `.ext` or no extension |
| UpdatesPublish.PublishAssets | lib/services/updates-service.ts:203-230 | stored files never change; the only failure is a missing asset |
| UpdatesPublish.PublishAssetsCount | lib/services/updates-service.ts:203-230 | the loop succeeds exactly when every entry with a path is in the archive |
| UpdatesPublish.PublishAssetsRecords | lib/services/updates-service.ts:203-230 | on success there is one record per entry with a path, in order, each the record built from that entry's archive bytes (hash, key, content type, stored URL, extension) |
| UpdatesPublish.PublishAssetsStores | lib/services/updates-service.ts:210-216 | every file the loop adds is named after an entry's archive bytes and holds those bytes; on success the file of every entry with a path is in the store |
| UpdatesPublish.LaunchExtension | lib/services/updates-service.ts:197 | the bundle's extension without its dot, `js` when it has none |
| UpdatesPublish.PublishSection | lib/services/updates-service.ts:190-255 | stored files never change; failures are a missing bundle or asset; a row carries the section's id and platform |
| UpdatesPublish.PublishSectionRow | lib/services/updates-service.ts:190-271 | a missing bundle throws with the store unchanged; a row carries the request's channel, runtime, versions and time, a launch asset keyed by its hash as JavaScript with its extension, and its asset count |
| UpdatesPublish.Section | lib/services/updates-service.ts:190-255 | one section's work is sound for the loop |
| UpdatesPublish.PublishSections | lib/services/updates-service.ts:190-278 | earlier rows and files stay; at most one row per section; success returns exactly the added rows, one per section; failures are missing files or the insert |
| UpdatesPublish.PublishSectionsRows | lib/services/updates-service.ts:190-278 | each added row belongs to the matching section and carries that section's fresh id |
| UpdatesPublish.InsertFailureKeepsEarlierRows | lib/services/updates-service.ts:257-277 | an insert failing at section f leaves exactly the rows of the sections before it |
| UpdatesPublish.ArchiveSections | lib/services/updates-service.ts:156-184 | a missing metadata file throws; success has at least one section; failures are metadata problems or no bundles |
| UpdatesPublish.PublishUpdateArchive | lib/services/updates-service.ts:156-281 | metadata failures change nothing; stored files and earlier rows always stay |
| UpdatesPublish.PublishRowsPerSection | lib/services/updates-service.ts:156-281 | rows added are per kept section in order with its id; success returns all of them, one per section; failures leave the rows of earlier sections |
| UpdatesList.ListPublishedUpdates | lib/services/updates-service.ts:283-296 | a query error throws with its message; otherwise `min(limit, rows)` rows drawn from the stored ones (a sub-multiset) |
| UpdatesList.ListedNewestFirst | lib/services/updates-service.ts:283-296 | the listing is newest first, only cut short by the limit, and no stored row left out of it is newer than a listed one |
| UpdatesResolve.QueryChannel | lib/services/updates-service.ts:457 | an empty channel means `production`; any other is used as is |
| UpdatesResolve.NewestMatch | lib/services/updates-service.ts:452-460 | none exactly when no row matches; otherwise a matching row no older than any other match |
| UpdatesResolve.ResolveLatestUpdate | lib/services/updates-service.ts:444-477 | unknown platform or empty runtime gives null; a query error throws; otherwise, for the newest matching row: none or no manifest gives null, the client's current id gives null, else the manifest with absolute URLs is served (an unresolvable URL throws `Invalid URL`); a served manifest is always that clone |
| UpdatesResolve.ResolvedIsNewest | lib/services/updates-service.ts:444-477 | a served manifest is the newest row of the requested platform, runtime and channel, same id, metadata and asset count, and not the client's current id |
| UpdatesResolve.AlreadyCurrentGetsNothing | lib/services/updates-service.ts:471-474 | a client reporting the newest id, quoted or not, gets null |
| UpdatesResolve.ResolveIgnoresPlatformCase | lib/services/updates-service.ts:445 | the platform's letter case does not matter |
| UpdatesDelete.FindRow | lib/services/updates-service.ts:356-366 | none exactly when no row has the id, else a row with it |
| UpdatesDelete.WithoutRow | lib/services/updates-service.ts:378-385 | exactly the rows with another id remain |
| UpdatesDelete.WithoutEvents | lib/services/updates-service.ts:389-398 | exactly the events of other updates remain, the count being the number removed |
| UpdatesDelete.ReferencedNamesSpec | lib/services/updates-service.ts:405-416 | a name is referenced exactly when some remaining manifest yields it |
| UpdatesDelete.CollectedDistinct | lib/services/updates-service.ts:332-348 | the collected names have no duplicates |
| UpdatesDelete.RemoveUnreferenced | lib/services/updates-service.ts:418-433 | exactly the unreferenced safe candidates are removed; each unreferenced unsafe one gives a warning |
| UpdatesDelete.RemoveUnreferencedCount | lib/services/updates-service.ts:418-433 | the count is the number of removed names that existed |
| UpdatesDelete.DeletePublishedUpdate | lib/services/updates-service.ts:350-442 | blank id throws; throws change nothing; unknown id changes nothing, zero counts; otherwise the row and (unless failing) its events go, with warnings for failures and no file deleted when the remaining query fails |
| UpdatesDelete.DeleteUnknownId | lib/services/updates-service.ts:368-376 | an unknown id gives `deleted: false`, zero counts, no warnings, nothing changed |
| UpdatesDelete.DeleteStore | lib/services/updates-service.ts:400-433 | the store loses exactly the removable candidates, with their count reported |
| UpdatesDelete.DeleteCollectsGarbage | lib/services/updates-service.ts:400-433 | a file disappears exactly when the deleted manifest names it, the name is safe and no remaining manifest names it; the others keep their bytes; the count equals the files removed |
| Storage.KeepAlnum | lib/storage.ts:12 | only ASCII letters and digits remain; an all-alphanumeric text is unchanged |
| Storage.CleanExtension | lib/storage.ts:11-12 | the cleaned extension is lower-case alphanumeric |
| Storage.NormalizeExtension | lib/storage.ts:7-14 | empty without an extension; `.`+cleaned exactly when the cleaned text is non-empty |
| Storage.NormalizeExtensionWellFormed | lib/storage.ts:7-14 | the result is empty or a dot followed by lower-case alphanumerics |
| Storage.NormalizeExtensionIdempotent | lib/storage.ts:7-14 | normalising twice equals normalising once |
| Storage.StoreImmutableAsset | lib/storage.ts:27-46 | file name is hash plus normalised extension, URL through the assets route; an existing file is not rewritten; nothing else changes |
| Storage.StoreIdempotent | lib/storage.ts:35-41 | storing the same bytes again returns the same result and changes nothing |
| Storage.ReadStoredAsset | lib/storage.ts:48-54 | unsafe names are refused before the store is read; otherwise the stored bytes or not-found |
| Storage.DeleteStoredAsset | lib/storage.ts:56-70 | unsafe names throw; otherwise true exactly when the file existed, and only it is removed |
| Storage.DeleteTwice | lib/storage.ts:56-70 | a second delete reports false and changes nothing |
| Storage.StoredAssetReadable | lib/storage.ts:27-54 | with a base64url hash, a stored asset can be read back, with the new bytes when it was new |
| Utils.SanitizeFileName | lib/utils.ts:30-35 | the name unchanged exactly when it contains none of `..`, `/`, `\`; otherwise the `Invalid file path` error |
| Utils.SanitizedHasNoSeparator | lib/utils.ts:30-35 | an accepted name has no slash, backslash or two consecutive dots |
| Utils.SafeCharsPass | lib/utils.ts:30-35 | a name without slashes, backslashes and consecutive dots is accepted |
| Utils.OriginProtocol | lib/utils.ts:22-24 | the forwarded protocol when given, else `http` exactly when the host contains `localhost`, else `https` |
| Utils.InferOrigin | lib/utils.ts:17-28 | `<protocol>://<host>`, forwarded host before host, the local origin without either |
| Utils.OriginEndsWithHost | lib/utils.ts:17-28 | the origin ends with `://` plus the chosen host, and is `http://` for a localhost host without a forwarded protocol |
| Auth.TimingSafeMatch | lib/auth.ts:8-17 | a match exactly when the UTF-8 bytes are equal, never for different lengths |
| Auth.MatchIsEquality | lib/auth.ts:8-17 | with an injective encoding a match is string equality |
| Auth.IsValidAdminToken | lib/auth.ts:19-26 | no candidate is false without consulting the configuration; a missing configured token throws; otherwise byte equality |
| Auth.BearerToken | lib/auth.ts:28-44 | a token only from a header whose first two space-separated parts are non-empty with scheme `bearer` in any case; the token is the second part trimmed; otherwise null |
| Auth.BearerTokenOfHeader | lib/auth.ts:28-44 | `Bearer <token>` yields the token |
| Auth.AssertAdmin | lib/auth.ts:51-64 | a valid bearer token admits; admission implies a configured token; no candidate at all refuses |
| Auth.AdminIffSomeCandidateMatches | lib/auth.ts:51-64 | with a configured token, admitted exactly when the bearer token, the `x-admin-token` header or the session cookie matches it |
| Auth.NoTokenConfigured | lib/auth.ts:19-64 | with no configured token, any candidate makes the check throw and nothing admits |
| Env.WithDefaults | lib/env.ts:9-13 | the salt, key id and algorithm default to the schema's values when unset; the rest as given |
| Env.RequireSetting | lib/env.ts:37-43 | the value when set and non-empty, else the missing-variable error naming it |
| Bsdiff.DecimalText | lib/bsdiff.ts:59 | `String(n)` is non-empty, digits for a natural number, `-`-led for a negative one |
| Bsdiff.DecimalTextValue | lib/bsdiff.ts:59 | the digits read back as the number |
| Bsdiff.OutputSummary | lib/bsdiff.ts:57-59 | the non-empty outputs joined by ` \| `, empty exactly when both are |
| Bsdiff.FailureMessage | lib/bsdiff.ts:57-65 | the output summary when non-empty, else the truthy code, else the message, else the error's text |
| Bsdiff.Classify | lib/bsdiff.ts:18-66 | ok exactly on success; ENOENT before the timeout flags; killed or SIGTERM is a timeout; every other error is a failure with the failure message |
| Bsdiff.FailedRunReportsOutput | lib/bsdiff.ts:57-65 | a failed run with both outputs reports `stderr \| stdout` |
| Bsdiff.SilentFailureReportsStatus | lib/bsdiff.ts:57-65 | a failed run without output reports its exit status |
| ConfigService.WithLastUpdated | lib/services/config-service.ts:5-10 | only `lastUpdated` is set, every other member kept |
| ConfigService.StampTwice | lib/services/config-service.ts:5-10 | stamping twice equals stamping once with the later time |
| ConfigService.GetRemoteConfig | lib/services/config-service.ts:20-49 | a load error throws; a stored object is returned without writes; otherwise the stamped default is written to row 1 and returned, or the seed error thrown; history untouched |
| ConfigService.SeedThenRead | lib/services/config-service.ts:20-49 | after a read, reading again returns the same configuration and writes nothing |
| ConfigService.UpdateRemoteConfig | lib/services/config-service.ts:51-83 | the input with a new `lastUpdated` is stored and returned; one history entry records it and the previous configuration unless history fails; a persist error throws with no history |
| ConfigService.UpdateThenRead | lib/services/config-service.ts:51-83 | a read after an update returns what the update stored |
| AssetsRoute.AssetGet | app/api/assets/route.ts:9-45 | no file parameter is 400; a failed read is 404; 200 exactly on a read, with the bytes, the resolved type, immutable caching and one download event of the byte length; no events otherwise |
| AssetsRoute.ServesStoredAsset | app/api/assets/route.ts:9-45 | a stored asset is served with status 200, with its bytes when new, recording its download |
| ManifestRoute.Rejection | app/api/manifest/route.ts:23-56 | protocol 406 first; missing headers, unsupported platform and malformed expectation give 400 in that order; then 406 exactly when negotiation fails |
| ManifestRoute.StringMember | app/api/manifest/route.ts:122-124 | an expectation exists exactly when the dictionary has the key with a string value |
| ManifestRoute.SigningOptions | app/api/manifest/route.ts:121-130 | sign exactly when the header is given; expectations from string members only |
| ManifestRoute.FlagExpectationsIgnored | app/api/manifest/route.ts:122-124 | `sig, keyid, alg` asks for a signature with no expectations |
| ManifestRoute.ParseThreeFlags | app/api/manifest/route.ts:122-124 | the bare `sig, keyid, alg` header is three flags |
| ManifestRoute.ContextEvent | app/api/manifest/route.ts:60-75 | an event carries its type, time, update id, IP hash and the request's platform, runtime and channel |
| ManifestRoute.CheckEvent | app/api/manifest/route.ts:60-75 | the check event is an `update_check` with the client's current id |
| ManifestRoute.SignFailureStatus | app/api/manifest/route.ts:134 | 406 exactly for a key-id or algorithm mismatch, else 500 |
| ManifestRoute.ManifestHeaders | app/api/manifest/route.ts:85-95 | exactly the protocol headers with the manifest vary list |
| ManifestRoute.ServeManifest | app/api/manifest/route.ts:161-168 | 200 with the payload as body, `<type>; charset=utf-8`, and `expo-signature` exactly when a signature exists |
| ManifestRoute.Signer | app/api/manifest/route.ts:121-130 | the signer signs with the request's signing options |
| ManifestRoute.Respond | app/api/manifest/route.ts:77-168 | resolver error throws after the check event; null is 204 with `update_none`; a requested signature not produced is the failure status with no second event; else the 200 response with `update_served` |
| ManifestRoute.Handle | app/api/manifest/route.ts:19-168 | a rejection answers with no events; otherwise one check event, then the outcome for the negotiated type, the resolver's answer and the signer |
| ManifestRoute.ManifestGet | app/api/manifest/route.ts:19-168 | the handler over the parsed context, Accept header, hashed IP and origin; rejections record nothing |
| ManifestRoute.OkBodyIsSignedPayload | app/api/manifest/route.ts:121-168 | a 200 body is exactly the string given to the signer; the signature header is that signer's result, present whenever requested; the content type is negotiated; the events are check then served |
| ManifestRoute.RespondServed | app/api/manifest/route.ts:121-168 | a 200 arises only from a resolved manifest whose required signature exists |
| ManifestRoute.NoUpdateIsNoContent | app/api/manifest/route.ts:97-119 | no update gives 204, empty body, the manifest vary list, and events check then none |
| ManifestRoute.SigningFailureStatus | app/api/manifest/route.ts:132-141 | a missing requested signature gives 406 for mismatches, 500 otherwise, with only the check event |
| ManifestRoute.EventsPerRequest | app/api/manifest/route.ts:60-159 | a validated request records a check, then `update_none` exactly on 204, `update_served` exactly on 200, nothing more otherwise |
| ManifestRoute.RespondEvents | app/api/manifest/route.ts:97-159 | the second event matches the status in the same way |
| PublishRoute.ToView | app/api/admin/publish/route.ts:8-19 | `N/A` for a missing app version, `''` for a missing message, the manifest's asset count or 0, other fields copied |
| PublishRoute.Views | app/api/admin/publish/route.ts:27 | one view per row, in order |
| PublishRoute.Guard | app/api/admin/publish/route.ts:22-24 | passes exactly when admitted; refused is 401; a throwing check throws |
| PublishRoute.AdminGet | app/api/admin/publish/route.ts:21-28 | 401 first; otherwise the views of the newest 150 rows, or the listing's error |
| PublishRoute.FieldText | app/api/admin/publish/route.ts:37-40 | a missing or empty field is the fallback, a non-empty one its text |
| PublishRoute.Optional | app/api/admin/publish/route.ts:58-59 | empty text is absent, anything else present |
| PublishRoute.ReadPublishForm | app/api/admin/publish/route.ts:37-52 | accepted exactly with a non-blank runtime and a file archive; runtime is checked first; fields trimmed, channel defaulting to `production` only when missing or empty |
| PublishRoute.BlankChannelStaysBlank | app/api/admin/publish/route.ts:37 | a white-space channel becomes `''`, not `production` |
| PublishRoute.AdminPost | app/api/admin/publish/route.ts:30-67 | 401 first; form errors are 400; a successful publish answers 200 with the count and views of the published rows, and only it does; a publish error throws |
| PublishRoute.AdminPostPublishesSections | app/api/admin/publish/route.ts:54-66 | with the real service, a 200 counts one row per platform section, each with its platform and fresh id; a service error is thrown |
| PublishRoute.AdminDelete | app/api/admin/publish/route.ts:69-88 | 401 first; a blank id is 400; not deleted is 404; otherwise 200 with the result |
| PublishRoute.DeleteUnknownIs404 | app/api/admin/publish/route.ts:79-82 | deleting an unknown id answers 404 |
| PublishScript.IndexOf | scripts/publish-update.mjs:6 | the first position of the flag, none exactly when absent |
| PublishScript.GetArg | scripts/publish-update.mjs:5-9 | the fallback when the flag is absent; else the next argument when present and non-empty, else the fallback |
| PublishScript.GetArgGiven | scripts/publish-update.mjs:5-9 | a flag's first occurrence followed by a non-empty value yields it |
| PublishScript.ReadArgs | scripts/publish-update.mjs:11-17 | channel defaults to `production` and is never empty; app version and message default to `''`; the required four are empty when missing |
| PublishScript.StripTrailingSlash | scripts/publish-update.mjs:36 | one trailing slash removed, nothing else |
| PublishScript.PublishUrl | scripts/publish-update.mjs:36 | the URL ends with `/api/admin/publish` after the stripped server |
| PublishScript.RunScript | scripts/publish-update.mjs:19-48 | missing required options exit 1 with no request; the request is built from the options and the file; exit 0 exactly when sent and accepted |
| PublishScript.ScriptFormAccepted | scripts/publish-update.mjs:26-42 | the endpoint reads the script's form back as the script's values trimmed, empty versions and messages as absent |
| Sorting.SortBySorted | lib/services/stats-service.ts:77-79 | the sort is ordered for any strict weak order |
| Sorting.SortByStable | lib/services/stats-service.ts:77-79 | elements tied in the order keep their relative order |
| Sorting.SortByMembers | lib/services/stats-service.ts:77-79 | sorting keeps exactly the same elements |
| Sorting.SortBy | lib/services/stats-service.ts:77-79 | the sorted sequence is a permutation of the input |
| Sorting.SortByDistinct | lib/services/stats-service.ts:77-79 | sorting a duplicate-free sequence keeps it duplicate-free |
| StatsLabels.Label | lib/services/stats-service.ts:73 | the trimmed value when non-blank, else the fallback |
| StatsLabels.Labels | lib/services/stats-service.ts:73 | one label per value, at the same position |
| StatsLabels.OccurrencesPositive | lib/services/stats-service.ts:74 | a label has a positive count exactly when it occurs |
| StatsLabels.FirstAppearance | lib/services/stats-service.ts:71-77 | each label once, exactly the labels seen |
| StatsLabels.Tally | lib/services/stats-service.ts:74 | each label paired with its number of occurrences |
| StatsLabels.CountByLabel | lib/services/stats-service.ts:70-80 | one entry per distinct label, each with its occurrence count |
| StatsLabels.CountByLabelSpec | lib/services/stats-service.ts:70-80 | every label appears, names distinct, counts positive and summing to the input length, most frequent first, ties in first-appearance order |
| StatsService.Identity | lib/services/stats-service.ts:149 | the device id when truthy, else the IP hash; never empty |
| StatsService.Take | lib/services/stats-service.ts:200 | the first `min(n, length)` elements, as `slice(0, n)` |
| StatsService.DeviceEntry | lib/services/stats-service.ts:155-162 | the entry's time is the event's; every field has a non-empty fallback; the device id when given |
| StatsService.Bump | lib/services/stats-service.ts:138-173 | only the event day's existing bucket changes, by its type |
| StatsService.SeeDevice | lib/services/stats-service.ts:150-163 | the identity is added; its entry replaced only by a strictly later event; first sightings append to the order |
| StatsService.Aggregate | lib/services/stats-service.ts:135-174 | each bucket holds its day's checks, serves and fetches; the 24-hour count is the checks after the threshold; identities are listed once each |
| StatsService.DevicesSeen | lib/services/stats-service.ts:149-151 | an identity is seen exactly when some check carries it |
| StatsService.LatestDeviceIsLatestCheck | lib/services/stats-service.ts:153-163 | each identity's entry is its latest check, earlier equal-time checks winning |
| StatsService.Checks | lib/services/stats-service.ts:176 | every check event occurs in the result as often as among the events, and nothing else does |
| StatsService.ToLatestUpdate | lib/services/stats-service.ts:202-211 | `N/A` and the no-message fallback, other fields copied |
| StatsService.LatestUpdates | lib/services/stats-service.ts:202 | the first 12 rows mapped |
| StatsService.Breakdown | lib/services/stats-service.ts:178-196 | at most `cap` distinct labels of one field of the checks, `cap` of them when there are that many, each with the number of checks carrying it, most frequent first; no label left out is more frequent than one kept |
| StatsService.DailyOf | lib/services/stats-service.ts:222 | one bucket per day key, in order, with that day's counts |
| StatsService.RecentDevices | lib/services/stats-service.ts:198-200 | at most 10 entries, each the entry of a seen identity |
| StatsService.RecentDevicesAreLatest | lib/services/stats-service.ts:198-200 | newest first, each the latest check of its identity; ten entries unless fewer devices were seen, and no device left out was seen later than one listed |
| StatsService.RecentDevicesSelected | lib/services/stats-service.ts:198-200 | over any device map: newest first, `min(10, devices)` entries, none left out seen later than one kept |
| StatsService.GetDashboardStats | lib/services/stats-service.ts:82-230 | errors throw in order; summary counts are the check, serve and fetch totals and the update count; daily buckets per day; breakdowns capped at 6/8/8/6; latest 12 updates |
| StatsService.UniqueDevicesCount | lib/services/stats-service.ts:149-151 | the unique devices are the distinct identities of checks |
| StatsService.DailyChecksAtMostTotal | lib/services/stats-service.ts:116-222 | the daily checks sum to at most the total checks |
| StatsService.SumChecksBounded | lib/services/stats-service.ts:135-174 | counting checks over distinct days never exceeds the checks |

## Left out

- Cryptography is not computed. SHA-256, base64url, RSA-SHA256 signing and the IP hash are uninterpreted fields of `Foreign.Externals`; key parsing is not modelled.
- JSZip decompression, `JSON.parse`, `JSON.stringify`, the mime-types lookup, WHATWG `URL` parsing and resolution, and `encodeURIComponent`/`decodeURIComponent` are uninterpreted. An archive is a map from entry name to bytes; metadata after parsing is a datatype.
- `Number` parsing of q-values is an uninterpreted function returning a real or nothing. Floating-point rounding is not modelled.
- The Supabase client is replaced by row sequences plus explicit per-statement error arguments. `maybeSingle` is the first row with the id; rows are assumed to have unique ids.
- Rows with equal `created_at` have no defined order in the database. The model picks the later-stored row as newest and keeps stored order when listing.
- The file system is a map. Only the not-found error of `unlink` is modelled; other file-system errors are left out.
- The clock and date-fns formatting are parameters: integer timestamps, an abstract day-key function and the list of day keys.
- Zod parsing and caching of the environment are replaced by a configuration record with the schema defaults.
- `toLowerCase` is modelled on ASCII letters only. `trim` uses JavaScript's white-space set; no Unicode case mapping is modelled.
- Auth.TimingSafeMatch: the constant-time comparison is not modelled, only its result.
- The bsdiff subprocess itself, its 15-second timeout and buffer limits, and patch delivery are left out. The classifier takes the subprocess outcome as input.
- Logging (`console.*`) is left out, including the history failure in `updateRemoteConfig`, which is only logged.
- A failed `expo_events` insert in `trackEvent` is only logged, so the event is lost. The routes' event outputs list every event they track, as if each insert succeeded; no fault argument models this failure, and the responses do not depend on it.
- Concurrency between requests is left out; every operation runs alone.
- The response of the publish script is only ok or not ok. Parsing its JSON body and printing it are left out.
- `NextResponse` serialisation, cookies and the UI are left out. The admin session cookie is an input.
- Sfv.SplitCsv: its own contract states only the shape of the parts; the content is stated by Sfv.SplitCsvJoin.
- Sfv.Unescape: its own contract bounds the length; its meaning is stated by Sfv.UnescapeEscapeQuotes.
- Sfv.SerializeStructuredDictionary: its own contract covers the empty case; the format is stated by Sfv.SerializedSplits and Sfv.SerializeThenParse.
- Expo.NegotiateManifestContentType: its own contract covers the blank header; the non-blank case is stated by Expo.NegotiatePicksBestRanked.
- Updates.CloneManifestWithOrigin: its own contract states when it succeeds; what changes is stated by Updates.CloneChangesOnlyUrls.
- Expo.GetRequestIp: its own contract states the address only for a forwarded-for header without a comma; for a list of hops, the trimmed first hop is stated by Expo.GetRequestIpFirstHop.
- Auth.AssertAdmin: its own contract is partial; the whole decision is stated by Auth.AdminIffSomeCandidateMatches and Auth.NoTokenConfigured.
- UpdatesPublish.PublishAssets: its own contract states the frame and the failure kind; the records are stated by UpdatesPublish.PublishAssetsRecords and the stored files by UpdatesPublish.PublishAssetsStores.
- StatsService.RecentDevices: its own contract bounds the list; ordering, provenance and the selection of the ten latest devices are stated by StatsService.RecentDevicesAreLatest and StatsService.RecentDevicesSelected.
