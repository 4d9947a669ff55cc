/** lib/services/updates-service.ts, part one: the manifest and row types,
    and the small helpers the publish, resolve and delete operations share.
    The database is a sequence of rows; JSZip archives are maps from entry
    name to bytes. */
module Updates {
  import opened Wrappers
  import opened Text
  import opened Foreign

  // ---------------------------------------------------------------------
  // Data model

  datatype Platform = Ios | Android

  function PlatformName(p: Platform): string {
    match p
    case Ios => "ios"
    case Android => "android"
  }

  /** `ExpoManifestAsset`. */
  datatype ManifestAsset = ManifestAsset(key: string, contentType: string, url: string, hash: string, fileExtension: Option<string>)

  datatype ManifestMetadata = ManifestMetadata(message: Option<string>, appVersion: Option<string>, channel: string)

  datatype ManifestExtra = ManifestExtra(appVersion: Option<string>, channel: string)

  /** `ExpoManifest`; `createdAt` is the publication instant in
      milliseconds. */
  datatype Manifest = Manifest(
    id: string,
    createdAt: int,
    runtimeVersion: string,
    launchAsset: ManifestAsset,
    assets: seq<ManifestAsset>,
    metadata: ManifestMetadata,
    extra: ManifestExtra)

  /** A row of `expo_updates`; `manifest` is `None` for a row whose
      manifest column is null. */
  datatype UpdateRow = UpdateRow(
    id: string,
    platform: Platform,
    channel: string,
    runtimeVersion: string,
    appVersion: Option<string>,
    message: Option<string>,
    manifest: Option<Manifest>,
    createdAt: int,
    assetsCount: nat)

  /** An archive: entry name to contents. */
  type Zip = map<string, Bytes>

  // ---------------------------------------------------------------------
  // Archive paths

  /** `.replace(/\\/g, '/')`. */
  function ForwardSlashes(s: string): (r: string)
    ensures |r| == |s| && '\\' !in r
    ensures forall i :: 0 <= i < |s| ==> r[i] == (if s[i] == '\\' then '/' else s[i])
  {
    seq(|s|, i requires 0 <= i < |s| => if s[i] == '\\' then '/' else s[i])
  }

  /** `normalizeZipPath`: backslashes become slashes, then one leading `./`
      and then one leading `/` are removed. */
  function NormalizeZipPath(path: string): (r: string)
    ensures '\\' !in r
    ensures var a := ForwardSlashes(path);
      && (StartsWith(a, "./") && !StartsWith(a[2..], "/") ==> r == a[2..])
      && (StartsWith(a, ".//") ==> r == a[3..])
      && (StartsWith(a, "/") ==> r == a[1..])
      && (!StartsWith(a, "./") && !StartsWith(a, "/") ==> r == a)
  {
    var a := ForwardSlashes(path);
    assert StartsWith(a, ".//") ==> StartsWith(a, "./") && a[2] == '/' && a[2..][1..] == a[3..];
    assert StartsWith(a, "/") ==> a[0] == '/' && !StartsWith(a, "./");
    var b := if StartsWith(a, "./") then a[2..] else a;
    if StartsWith(b, "/") then b[1..] else b
  }

  /** Normalising a forward-slash path without a leading `./` or `/`
      changes nothing. */
  lemma NormalizeZipPathPlain(path: string)
    requires '\\' !in path && !StartsWith(path, "./") && !StartsWith(path, "/")
    ensures NormalizeZipPath(path) == path
  {
    assert ForwardSlashes(path) == path;
  }

  /** What normalisation removes: the result is the forward-slash path
      with at most three leading characters dropped. */
  lemma NormalizeZipPathSuffix(path: string)
    ensures var a := ForwardSlashes(path);
      EndsWith(a, NormalizeZipPath(path)) && |a| - |NormalizeZipPath(path)| <= 3
  {
  }

  /** `readZipFile`: the entry under the normalised path, else under `./`
      and the normalised path. */
  function ReadZipFile(zip: Zip, path: string): (r: Option<Bytes>)
    ensures NormalizeZipPath(path) in zip ==> r == Some(zip[NormalizeZipPath(path)])
    ensures NormalizeZipPath(path) !in zip && "./" + NormalizeZipPath(path) in zip ==>
              r == Some(zip["./" + NormalizeZipPath(path)])
    ensures r.None? <==> NormalizeZipPath(path) !in zip && "./" + NormalizeZipPath(path) !in zip
  {
    var n := NormalizeZipPath(path);
    if n in zip then Some(zip[n])
    else if "./" + n in zip then Some(zip["./" + n])
    else None
  }

  // ---------------------------------------------------------------------
  // Platforms

  /** `normalizePlatform`: `ios` or `android` in any letter case. Only
      ASCII letters are folded; no other character lower-cases into these
      names. */
  function NormalizePlatform(value: string): (r: Option<Platform>)
    ensures r == Some(Ios) <==> Lower(value) == "ios"
    ensures r == Some(Android) <==> Lower(value) == "android"
  {
    var p := Lower(value);
    if p == "ios" then Some(Ios) else if p == "android" then Some(Android) else None
  }

  /** The platform names are recognised as themselves. */
  lemma NormalizePlatformNames(p: Platform)
    ensures NormalizePlatform(PlatformName(p)) == Some(p)
  {
    LowerOfLowerCase(PlatformName(p));
  }

  // ---------------------------------------------------------------------
  // Absolute URLs

  /** `toAbsoluteUrl`: absolute `http`/`https` URLs are kept; any other is
      resolved against the origin, which may throw. */
  function ToAbsoluteUrl(url: string, origin: string, x: Externals): (r: Option<string>)
    ensures StartsWith(url, "http://") || StartsWith(url, "https://") ==> r == Some(url)
    ensures !(StartsWith(url, "http://") || StartsWith(url, "https://")) ==> r == x.resolveUrl(url, origin)
  {
    if StartsWith(url, "http://") || StartsWith(url, "https://") then Some(url)
    else x.resolveUrl(url, origin)
  }

  /** The assets with absolute URLs, or `None` when one fails to resolve. */
  function AbsoluteAssets(assets: seq<ManifestAsset>, origin: string, x: Externals): (r: Option<seq<ManifestAsset>>)
    ensures r.Some? <==> forall i :: 0 <= i < |assets| ==> ToAbsoluteUrl(assets[i].url, origin, x).Some?
    ensures r.Some? ==> |r.value| == |assets|
    ensures r.Some? ==> forall i :: 0 <= i < |assets| ==>
              r.value[i] == assets[i].(url := ToAbsoluteUrl(assets[i].url, origin, x).value)
    decreases |assets|
  {
    if |assets| == 0 then Some([])
    else
      match ToAbsoluteUrl(assets[0].url, origin, x)
      case None => None
      case Some(u) =>
        var rest := AbsoluteAssets(assets[1..], origin, x);
        assert forall i :: 1 <= i < |assets| ==> assets[i] == assets[1..][i - 1];
        if rest.None? then None else Some([assets[0].(url := u)] + rest.value)
  }

  /** `cloneManifestWithOrigin`: the launch asset's and every asset's URL
      made absolute, `None` when resolving throws. */
  function CloneManifestWithOrigin(m: Manifest, origin: string, x: Externals): (r: Option<Manifest>)
    ensures r.Some? <==> ToAbsoluteUrl(m.launchAsset.url, origin, x).Some? && AbsoluteAssets(m.assets, origin, x).Some?
  {
    match ToAbsoluteUrl(m.launchAsset.url, origin, x)
    case None => None
    case Some(u) =>
      match AbsoluteAssets(m.assets, origin, x)
      case None => None
      case Some(assets) => Some(m.(launchAsset := m.launchAsset.(url := u), assets := assets))
  }

  /** Only `url` fields change: the clone has the same id, timestamps,
      metadata and asset count and order, and each asset differs from the
      original in its URL alone, which is kept when already absolute. */
  lemma CloneChangesOnlyUrls(m: Manifest, origin: string, x: Externals)
    requires CloneManifestWithOrigin(m, origin, x).Some?
    ensures var c := CloneManifestWithOrigin(m, origin, x).value;
      && c.id == m.id && c.createdAt == m.createdAt && c.runtimeVersion == m.runtimeVersion
      && c.metadata == m.metadata && c.extra == m.extra
      && c.launchAsset == m.launchAsset.(url := c.launchAsset.url)
      && |c.assets| == |m.assets|
      && (forall i :: 0 <= i < |m.assets| ==> c.assets[i] == m.assets[i].(url := c.assets[i].url))
      && (StartsWith(m.launchAsset.url, "http://") || StartsWith(m.launchAsset.url, "https://") ==> c.launchAsset == m.launchAsset)
      && (forall i :: 0 <= i < |m.assets| && (StartsWith(m.assets[i].url, "http://") || StartsWith(m.assets[i].url, "https://")) ==>
            c.assets[i] == m.assets[i])
  {
  }

  // ---------------------------------------------------------------------
  // Current update id

  /** `normalizeCurrentUpdateId`: `None` for a missing or empty header;
      otherwise one leading and one trailing double quote are each removed
      if present (`/^"|"$/g`), independently of each other. */
  function NormalizeCurrentUpdateId(value: Option<string>): (r: Option<string>)
    ensures !Truthy(value) ==> r.None?
    ensures Truthy(value) ==> r.Some? && |r.value| <= |value.value|
  {
    if !Truthy(value) then None
    else
      var v := value.value;
      var a := if StartsWith(v, "\"") then v[1..] else v;
      Some(if EndsWith(a, "\"") then a[..|a| - 1] else a)
  }

  /** The quotes are removed whether or not they are paired, and an id
      without quotes is kept as it is. */
  lemma NormalizeCurrentUpdateIdQuotes(id: string)
    requires id != "" && '"' !in id
    ensures NormalizeCurrentUpdateId(Some(id)) == Some(id)
    ensures NormalizeCurrentUpdateId(Some("\"" + id + "\"")) == Some(id)
    ensures NormalizeCurrentUpdateId(Some("\"" + id)) == Some(id)
    ensures NormalizeCurrentUpdateId(Some(id + "\"")) == Some(id)
  {
    assert id[0] in id && id[|id| - 1] in id;
    UnquotedKept(id);
    LeadingQuoteDropped(id + "\"");
    assert ("\"" + id) + "\"" == "\"" + (id + "\"");
    TrailingQuoteDropped(id);
    LeadingQuoteDropped(id);
  }

  /** One pair of surrounding quotes is removed from any id, even one
      that holds quotes itself: `""x""` gives `"x"`. */
  lemma WrappedIdUnwrapped(id: string)
    ensures NormalizeCurrentUpdateId(Some("\"" + id + "\"")) == Some(id)
  {
    var a := ("\"" + id + "\"")[1..];
    assert a == id + "\"";
    assert a[..|a| - 1] == id;
  }

  lemma UnquotedKept(id: string)
    requires id != "" && id[0] != '"' && id[|id| - 1] != '"'
    ensures NormalizeCurrentUpdateId(Some(id)) == Some(id)
  {
  }

  lemma TrailingQuoteDropped(id: string)
    requires id != "" && id[0] != '"'
    ensures NormalizeCurrentUpdateId(Some(id + "\"")) == Some(id)
  {
    assert (id + "\"")[..|id|] == id;
  }

  /** A leading quote is dropped, then a trailing one if the rest has it. */
  lemma LeadingQuoteDropped(rest: string)
    requires rest != "" && rest[0] != '"'
    ensures NormalizeCurrentUpdateId(Some("\"" + rest)) == NormalizeCurrentUpdateId(Some(rest))
  {
    assert ("\"" + rest)[1..] == rest;
  }

  // ---------------------------------------------------------------------
  // Asset file names referenced by a manifest

  /** `extractFilenameFromAssetUrl`: the decoded `file` query parameter;
      `None` for a missing URL, a missing or empty parameter, or a decoding
      error. */
  function ExtractFilename(url: Option<string>, x: Externals): (r: Option<string>)
    ensures !Truthy(url) ==> r.None?
    ensures Truthy(url) && !Truthy(x.fileQueryParameter(url.value)) ==> r.None?
    ensures Truthy(url) && Truthy(x.fileQueryParameter(url.value)) ==>
              r == x.decodeUriComponent(x.fileQueryParameter(url.value).value)
  {
    if !Truthy(url) then None
    else
      var file := x.fileQueryParameter(url.value);
      if !Truthy(file) then None else x.decodeUriComponent(file.value)
  }

  /** `set.add(name)` for an insertion-ordered set held as a sequence
      without repetitions. */
  function AddName(names: seq<string>, name: string): (r: seq<string>)
    ensures forall n :: n in r <==> n in names || n == name
  {
    if name in names then names else names + [name]
  }

  /** Adds each non-empty extracted name of the URLs. */
  function AddAssetNames(names: seq<string>, assets: seq<ManifestAsset>, x: Externals): (r: seq<string>)
    ensures forall n :: n in names ==> n in r
    ensures forall n :: n in r ==> n in names || (n != "" && exists i :: 0 <= i < |assets| && ExtractFilename(Some(assets[i].url), x) == Some(n))
    decreases |assets|
  {
    if |assets| == 0 then names
    else
      var f := ExtractFilename(Some(assets[0].url), x);
      var next := if Truthy(f) then AddName(names, f.value) else names;
      var r := AddAssetNames(next, assets[1..], x);
      assert forall i :: 1 <= i < |assets| ==> assets[i] == assets[1..][i - 1];
      r
  }

  /** The extracted name of an asset, when non-empty, is kept. */
  lemma {:induction false} AddAssetNamesComplete(names: seq<string>, assets: seq<ManifestAsset>, x: Externals, i: nat)
    requires i < |assets| && Truthy(ExtractFilename(Some(assets[i].url), x))
    ensures ExtractFilename(Some(assets[i].url), x).value in AddAssetNames(names, assets, x)
    decreases |assets|
  {
    var f := ExtractFilename(Some(assets[0].url), x);
    var next := if Truthy(f) then AddName(names, f.value) else names;
    if i > 0 {
      assert assets[1..][i - 1] == assets[i];
      AddAssetNamesComplete(next, assets[1..], x, i - 1);
    }
  }

  /** `collectManifestAssetFilenames`: the non-empty file names of the
      launch asset and the assets, in insertion order. */
  function CollectManifestAssetFilenames(m: Manifest, x: Externals): (r: seq<string>)
  {
    var f := ExtractFilename(Some(m.launchAsset.url), x);
    AddAssetNames(if Truthy(f) then [f.value] else [], m.assets, x)
  }

  /** The name extracted from the URL of the launch asset or of asset `i`. */
  predicate NameOfManifest(m: Manifest, x: Externals, n: string) {
    n != "" &&
    (ExtractFilename(Some(m.launchAsset.url), x) == Some(n) ||
     exists i :: 0 <= i < |m.assets| && ExtractFilename(Some(m.assets[i].url), x) == Some(n))
  }

  /** The collected names are exactly the non-empty names extracted from
      the manifest's URLs. */
  lemma CollectedNames(m: Manifest, x: Externals)
    ensures forall n :: n in CollectManifestAssetFilenames(m, x) <==> NameOfManifest(m, x, n)
  {
    var f := ExtractFilename(Some(m.launchAsset.url), x);
    var start: seq<string> := if Truthy(f) then [f.value] else [];
    forall n ensures n in CollectManifestAssetFilenames(m, x) <==> NameOfManifest(m, x, n) {
      if NameOfManifest(m, x, n) && ExtractFilename(Some(m.launchAsset.url), x) != Some(n) {
        var i :| 0 <= i < |m.assets| && ExtractFilename(Some(m.assets[i].url), x) == Some(n);
        AddAssetNamesComplete(start, m.assets, x, i);
      }
    }
  }
}
