/** app/api/assets/route.ts: the `GET` handler that serves a stored asset
    by file name, with an immutable cache policy, and records the download. */
module AssetsRoute {
  import opened Wrappers
  import opened Http
  import opened Foreign
  import opened Env
  import opened Expo
  import opened Events
  import opened Storage

  /** A JSON `{ error }` body or the asset's bytes. */
  datatype AssetBody = AssetError(error: string) | AssetBytes(bytes: Bytes)

  const ImmutableCacheControl := "public, max-age=31536000, immutable"
  const MissingFileError := "Missing file query parameter."
  const AssetNotFoundError := "Asset not found."

  /** The response and the events passed to `trackEvent`, whose insert
      is taken to succeed. */
  datatype AssetOutcome = AssetOutcome(response: Response<AssetBody>, events: seq<EventRow>)

  /** `GET`: `file` is the request URL's `file` query parameter, `now` the
      clock. A missing or empty parameter is a 400; any failure to read the
      stored file, an unsafe name included, is a 404. */
  function AssetGet(file: Option<string>, h: Headers, env: AppEnv, store: BlobStore, now: int, x: Externals): (r: AssetOutcome)
    ensures !Truthy(file) ==> r == AssetOutcome(Response(400, map[], AssetError(MissingFileError)), [])
    ensures Truthy(file) && ReadStoredAsset(store, file.value).Failure? ==>
              r == AssetOutcome(Response(404, map[], AssetError(AssetNotFoundError)), [])
    ensures r.response.status == 200 <==> Truthy(file) && ReadStoredAsset(store, file.value).Success?
    ensures r.response.status == 200 ==>
              && r.response.body == AssetBytes(store[file.value])
              && r.response.headers == map["content-type" := ResolveContentType(file.value, DefaultContentType, x),
                                           "cache-control" := ImmutableCacheControl]
              && r.events == [BareEvent(AssetDownload, HashIp(GetRequestIp(h), env, x), now,
                                        DownloadDetails(file.value, r.response.headers["content-type"], |store[file.value]|))]
    ensures r.response.status != 200 ==> r.events == []
  {
    if !Truthy(file) then AssetOutcome(Response(400, map[], AssetError(MissingFileError)), [])
    else
      match ReadStoredAsset(store, file.value)
      case Failure(_) => AssetOutcome(Response(404, map[], AssetError(AssetNotFoundError)), [])
      case Success(bytes) =>
        var contentType := ResolveContentType(file.value, DefaultContentType, x);
        var ipHash := HashIp(GetRequestIp(h), env, x);
        var event := BareEvent(AssetDownload, ipHash, now, DownloadDetails(file.value, contentType, |bytes|));
        var headers := map["content-type" := contentType, "cache-control" := ImmutableCacheControl];
        AssetOutcome(Response(200, headers, AssetBytes(bytes)), [event])
  }

  /** An asset stored by `storeImmutableAsset` is served from the URL's
      file name (a SHA-256 digest is never empty): the bytes just written
      when the name was new, and the download event records the file name,
      the content type served and the number of bytes served. */
  lemma ServesStoredAsset(store: BlobStore, bytes: Bytes, ext: Option<string>, h: Headers, env: AppEnv, now: int, x: Externals)
    requires forall c :: c in x.sha256Base64Url(bytes) ==> IsBase64UrlChar(c)
    requires x.sha256Base64Url(bytes) != ""
    ensures var (asset, stored) := StoreImmutableAsset(store, bytes, ext, x);
      var r := AssetGet(Some(asset.filename), h, env, stored, now, x);
      && r.response.status == 200
      && (asset.filename !in store ==> r.response.body == AssetBytes(bytes))
      && r.events[0].eventType == AssetDownload
      && r.events[0].details == DownloadDetails(asset.filename, ResolveContentType(asset.filename, DefaultContentType, x),
                                                |r.response.body.bytes|)
  {
    StoredAssetReadable(store, bytes, ext, x);
    var (asset, stored) := StoreImmutableAsset(store, bytes, ext, x);
    assert asset.filename != "" by { assert asset.hash != ""; }
  }
}
