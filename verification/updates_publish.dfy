/** lib/services/updates-service.ts, part two: `publishUpdateArchive`. An
    `expo export` archive is read, each iOS/Android section's launch bundle
    and assets are stored content-addressed, and one update row per section
    is inserted. Nothing is rolled back: a failure keeps the blobs and rows
    written before it. */
module UpdatesPublish {
  import opened Wrappers
  import opened Text
  import opened Foreign
  import opened NodePath
  import opened Storage
  import opened Expo
  import opened Updates

  // ---------------------------------------------------------------------
  // metadata.json

  /** An entry of a section's `assets` list: a bare path, or a record. */
  datatype AssetEntry =
    | PathEntry(path: string)
    | ObjectEntry(objectPath: Option<string>, ext: Option<string>, fileExtension: Option<string>,
                  contentType: Option<string>, key: Option<string>, hash: Option<string>)

  /** A platform section: its bundle path and its assets (`[]` when the
      list is missing). */
  datatype PlatformMetadata = PlatformMetadata(bundle: Option<string>, assets: seq<AssetEntry>)

  /** metadata.json after `JSON.parse`: `Unparseable` when parsing throws
      (or yields `null`); otherwise the `fileMetadata` entries, `None` when
      the field is missing or not an object. A section that is not an object
      is `None`. */
  datatype MetadataJson =
    | Unparseable
    | Parsed(fileMetadata: Option<seq<(string, Option<PlatformMetadata>)>>)

  /** The ways publishing can throw. */
  datatype PublishError =
    | MetadataMissing
    | MetadataUnreadable
    | FileMetadataMissing
    | NoBundles
    | LaunchBundleMissing(bundle: string)
    | AssetMissing(path: string)
    | PersistFailed

  /** The inputs of `publishUpdateArchive` other than the archive. */
  datatype PublishInput = PublishInput(channel: string, runtimeVersion: string, appVersion: Option<string>, message: Option<string>)

  /** A kept platform section. */
  datatype PlatformEntry = PlatformEntry(platform: Platform, bundle: string, assets: seq<AssetEntry>)

  /** `zip.file('metadata.json') || zip.file('./metadata.json')`. */
  function MetadataFile(zip: Zip): (r: Option<Bytes>)
    ensures r.None? <==> "metadata.json" !in zip && "./metadata.json" !in zip
  {
    if "metadata.json" in zip then Some(zip["metadata.json"])
    else if "./metadata.json" in zip then Some(zip["./metadata.json"])
    else None
  }

  /** A section is kept when its name is a platform and it has a non-empty
      bundle. */
  function PlatformCandidate(section: (string, Option<PlatformMetadata>)): (r: Option<PlatformEntry>)
    ensures r.Some? <==> NormalizePlatform(section.0).Some? && section.1.Some? && Truthy(section.1.value.bundle)
    ensures r.Some? ==> r.value == PlatformEntry(NormalizePlatform(section.0).value, section.1.value.bundle.value, section.1.value.assets)
  {
    match NormalizePlatform(section.0)
    case None => None
    case Some(p) =>
      if section.1.Some? && Truthy(section.1.value.bundle) then
        Some(PlatformEntry(p, section.1.value.bundle.value, section.1.value.assets))
      else None
  }

  /** The kept sections, in `Object.entries` order. */
  function SelectPlatforms(sections: seq<(string, Option<PlatformMetadata>)>): (r: seq<PlatformEntry>)
    ensures forall i :: 0 <= i < |r| ==> r[i].bundle != ""
    ensures forall i :: 0 <= i < |r| ==> exists k :: 0 <= k < |sections| && PlatformCandidate(sections[k]) == Some(r[i])
    ensures forall k :: 0 <= k < |sections| && PlatformCandidate(sections[k]).Some? ==> PlatformCandidate(sections[k]).value in r
  {
    var cands := seq(|sections|, i requires 0 <= i < |sections| => PlatformCandidate(sections[i]));
    var r := Somes(cands);
    forall i | 0 <= i < |r| ensures exists k :: 0 <= k < |sections| && PlatformCandidate(sections[k]) == Some(r[i]) {
      var k := SomesOrigin(cands, i);
    }
    forall k | 0 <= k < |sections| && PlatformCandidate(sections[k]).Some? ensures PlatformCandidate(sections[k]).value in r {
      SomesComplete(cands, k);
    }
    r
  }

  /** Kept sections keep their relative order. */
  lemma SelectPlatformsOrdered(sections: seq<(string, Option<PlatformMetadata>)>, i: nat, j: nat)
    requires i < j < |SelectPlatforms(sections)|
    ensures exists k, l ::
              && 0 <= k < l < |sections|
              && PlatformCandidate(sections[k]) == Some(SelectPlatforms(sections)[i])
              && PlatformCandidate(sections[l]) == Some(SelectPlatforms(sections)[j])
  {
    var cands := seq(|sections|, n requires 0 <= n < |sections| => PlatformCandidate(sections[n]));
    SomesOriginIncreasing(cands, i, j);
    var k, l := SomesOrigin(cands, i), SomesOrigin(cands, j);
    assert cands[k] == PlatformCandidate(sections[k]) && cands[l] == PlatformCandidate(sections[l]);
  }

  // ---------------------------------------------------------------------
  // Asset records

  /** `getAssetPath`: a bare path as given; a record's path when
      non-empty. */
  function AssetPath(e: AssetEntry): (r: Option<string>)
    ensures e.PathEntry? ==> r == Some(e.path)
    ensures e.ObjectEntry? ==> (r.Some? <==> Truthy(e.objectPath)) && (r.Some? ==> r == e.objectPath)
  {
    match e
    case PathEntry(p) => Some(p)
    case ObjectEntry(p, _, _, _, _, _) => if Truthy(p) then p else None
  }

  /** `getAssetExtension`: a record's `fileExtension` or `ext` without a
      leading dot; otherwise the path's extension without its dot, `None`
      when that is empty. */
  function AssetExtension(e: AssetEntry, fallbackPath: string): (r: Option<string>)
    ensures e.ObjectEntry? && Truthy(OrElse(e.fileExtension, e.ext)) ==>
              r == Some(DropLeadingDot(OrElse(e.fileExtension, e.ext).value))
    ensures !(e.ObjectEntry? && Truthy(OrElse(e.fileExtension, e.ext))) ==>
              (r.Some? <==> DropLeadingDot(Extname(fallbackPath)) != "")
              && (r.Some? ==> r.value == DropLeadingDot(Extname(fallbackPath)))
  {
    var explicit := if e.ObjectEntry? then OrElse(e.fileExtension, e.ext) else None;
    if Truthy(explicit) then Some(DropLeadingDot(explicit.value))
    else
      var ext := DropLeadingDot(Extname(fallbackPath));
      if ext == "" then None else Some(ext)
  }

  /** The manifest key a record names: `key`, else `hash`. */
  function MetadataKey(e: AssetEntry): (r: Option<string>)
    ensures e.PathEntry? ==> r.None?
    ensures e.ObjectEntry? ==> r == OrElse(e.key, e.hash)
  {
    if e.ObjectEntry? then OrElse(e.key, e.hash) else None
  }

  /** The manifest record of an asset stored from `bytes`. */
  function AssetRecord(e: AssetEntry, path: string, bytes: Bytes, stored: StoredAsset, x: Externals): (a: ManifestAsset)
    ensures a.hash == x.sha256Base64Url(bytes)
    ensures a.key == OrDefault(MetadataKey(e), a.hash)
    ensures e.PathEntry? ==> a.contentType == ResolveContentType(path, DefaultContentType, x)
    ensures e.ObjectEntry? ==> a.contentType == OrDefault(e.contentType, ResolveContentType(path, DefaultContentType, x))
    ensures a.url == stored.relativeUrl
    ensures var ext := AssetExtension(e, path);
      (a.fileExtension.Some? <==> Truthy(ext)) && (a.fileExtension.Some? ==> a.fileExtension.value == "." + ext.value)
  {
    var hash := x.sha256Base64Url(bytes);
    var ext := AssetExtension(e, path);
    var fallbackType := ResolveContentType(path, DefaultContentType, x);
    ManifestAsset(
      OrDefault(MetadataKey(e), hash),
      if e.PathEntry? then fallbackType else OrDefault(e.contentType, fallbackType),
      stored.relativeUrl,
      hash,
      if Truthy(ext) then Some("." + ext.value) else None)
  }

  /** The asset loop of one section: entries without a path are skipped, a
      missing file throws, every other asset is stored and recorded. The
      store is returned also on failure: blobs already written stay. */
  function PublishAssets(entries: seq<AssetEntry>, zip: Zip, store: BlobStore, x: Externals): (r: (Result<seq<ManifestAsset>, PublishError>, BlobStore))
    ensures forall k :: k in store ==> k in r.1 && r.1[k] == store[k]
    ensures r.0.Success? ==> |r.0.value| <= |entries|
    ensures r.0.Failure? ==> r.0.error.AssetMissing?
    decreases |entries|
  {
    if |entries| == 0 then (Success([]), store)
    else
      var e := entries[0];
      var path := AssetPath(e);
      if !Truthy(path) then PublishAssets(entries[1..], zip, store, x)
      else
        match ReadZipFile(zip, path.value)
        case None => (Failure(AssetMissing(path.value)), store)
        case Some(bytes) =>
          var (stored, store1) := StoreImmutableAsset(store, bytes, AssetExtension(e, path.value), x);
          var (rest, store2) := PublishAssets(entries[1..], zip, store1, x);
          if rest.Failure? then (rest, store2)
          else (Success([AssetRecord(e, path.value, bytes, stored, x)] + rest.value), store2)
  }

  /** The entries with a usable path, in order: those the loop records. */
  function PathEntries(entries: seq<AssetEntry>): (r: seq<AssetEntry>)
    ensures |r| <= |entries|
    ensures forall j :: 0 <= j < |r| ==> Truthy(AssetPath(r[j])) && r[j] in entries
    decreases |entries|
  {
    if |entries| == 0 then []
    else (if Truthy(AssetPath(entries[0])) then [entries[0]] else []) + PathEntries(entries[1..])
  }

  /** The manifest record of an entry with a path whose archive file holds
      `bytes`: the stored asset's URL depends only on the bytes and the
      extension, not on what the store already holds. */
  function EntryRecord(e: AssetEntry, bytes: Bytes, x: Externals): ManifestAsset {
    var p := OrDefault(AssetPath(e), "");
    AssetRecord(e, p, bytes, StoreImmutableAsset(map[], bytes, AssetExtension(e, p), x).0, x)
  }

  /** The stored file name of an entry with a path whose archive file holds
      `bytes`. */
  function EntryFileName(e: AssetEntry, bytes: Bytes, x: Externals): string {
    var p := OrDefault(AssetPath(e), "");
    AssetFileName(bytes, AssetExtension(e, p), x)
  }

  /** The bytes the archive holds for an entry's path. */
  function EntryBytes(e: AssetEntry, zip: Zip): Option<Bytes> {
    if Truthy(AssetPath(e)) then ReadZipFile(zip, AssetPath(e).value) else None
  }

  lemma StoredAssetOfAnyStore(store: BlobStore, bytes: Bytes, ext: Option<string>, x: Externals)
    ensures StoreImmutableAsset(store, bytes, ext, x).0 == StoreImmutableAsset(map[], bytes, ext, x).0
  {
  }

  /** An entry whose path is missing from the archive makes the loop throw,
      and only such an entry. */
  lemma {:induction false} PublishAssetsCount(entries: seq<AssetEntry>, zip: Zip, store: BlobStore, x: Externals)
    ensures var r := PublishAssets(entries, zip, store, x);
      r.0.Success? <==> forall i :: 0 <= i < |entries| && Truthy(AssetPath(entries[i])) ==> ReadZipFile(zip, AssetPath(entries[i]).value).Some?
    decreases |entries|
  {
    if |entries| > 0 {
      var e := entries[0];
      var path := AssetPath(e);
      assert forall i :: 1 <= i < |entries| ==> entries[i] == entries[1..][i - 1];
      if !Truthy(path) {
        PublishAssetsCount(entries[1..], zip, store, x);
      } else if ReadZipFile(zip, path.value).Some? {
        var (stored, store1) := StoreImmutableAsset(store, ReadZipFile(zip, path.value).value, AssetExtension(e, path.value), x);
        PublishAssetsCount(entries[1..], zip, store1, x);
      }
    }
  }

  /** `rec` is the record of entry `e`, built from its archive bytes. */
  predicate RecordOf(e: AssetEntry, rec: ManifestAsset, zip: Zip, x: Externals) {
    EntryBytes(e, zip).Some? && rec == EntryRecord(e, EntryBytes(e, zip).value, x)
  }

  /** `RecordOf` as a relation value, so that sequence lemmas can carry it
      without unfolding it. */
  function RecordRel(zip: Zip, x: Externals): (AssetEntry, ManifestAsset) -> bool {
    (e: AssetEntry, rec: ManifestAsset) => RecordOf(e, rec, zip, x)
  }

  /** On success the records are, in order, those of the entries that have
      a path. */
  predicate RecordsOfPathEntries(entries: seq<AssetEntry>, zip: Zip, store: BlobStore, x: Externals) {
    var r := PublishAssets(entries, zip, store, x);
    r.0.Success? ==> Pointwise(PathEntries(entries), r.0.value, RecordRel(zip, x))
  }

  /** The asset loop's records are those of the entries with a path, in
      order, each built from the bytes the archive holds for it. */
  lemma {:induction false} PublishAssetsRecords(entries: seq<AssetEntry>, zip: Zip, store: BlobStore, x: Externals)
    ensures var r := PublishAssets(entries, zip, store, x);
      var pe := PathEntries(entries);
      r.0.Success? ==>
        && |r.0.value| == |pe|
        && forall j :: 0 <= j < |pe| ==>
             EntryBytes(pe[j], zip).Some? && r.0.value[j] == EntryRecord(pe[j], EntryBytes(pe[j], zip).value, x)
    decreases |entries|
  {
    PublishAssetsRecordsOf(entries, zip, store, x);
    var r := PublishAssets(entries, zip, store, x);
    var pe := PathEntries(entries);
    if r.0.Success? {
      forall j | 0 <= j < |pe|
        ensures EntryBytes(pe[j], zip).Some? && r.0.value[j] == EntryRecord(pe[j], EntryBytes(pe[j], zip).value, x)
      {
        assert RecordRel(zip, x)(pe[j], r.0.value[j]);
      }
    }
  }

  lemma {:induction false} PublishAssetsRecordsOf(entries: seq<AssetEntry>, zip: Zip, store: BlobStore, x: Externals)
    ensures RecordsOfPathEntries(entries, zip, store, x)
    decreases |entries|
  {
    if |entries| > 0 {
      var e := entries[0];
      if !Truthy(AssetPath(e)) {
        PublishAssetsRecordsOf(entries[1..], zip, store, x);
        assert PathEntries(entries) == PathEntries(entries[1..]);
      } else if EntryBytes(e, zip).Some? {
        var path := AssetPath(e).value;
        var bytes := EntryBytes(e, zip).value;
        PublishAssetsRecordsOf(entries[1..], zip, StoreImmutableAsset(store, bytes, AssetExtension(e, path), x).1, x);
        RecordsOfPresentEntry(entries, zip, store, x, path, bytes);
      }
    }
  }

  lemma PathEntriesCons(entries: seq<AssetEntry>)
    requires |entries| > 0 && Truthy(AssetPath(entries[0]))
    ensures PathEntries(entries) == [entries[0]] + PathEntries(entries[1..])
  {
  }

  /** The inductive step of `PublishAssetsRecords` for an entry whose file
      is in the archive. */
  lemma RecordsOfPresentEntry(entries: seq<AssetEntry>, zip: Zip, store: BlobStore, x: Externals, path: string, bytes: Bytes)
    requires |entries| > 0 && AssetPath(entries[0]) == Some(path) && path != "" && ReadZipFile(zip, path) == Some(bytes)
    requires RecordsOfPathEntries(entries[1..], zip, StoreImmutableAsset(store, bytes, AssetExtension(entries[0], path), x).1, x)
    ensures RecordsOfPathEntries(entries, zip, store, x)
  {
    var e := entries[0];
    var (stored, store1) := StoreImmutableAsset(store, bytes, AssetExtension(e, path), x);
    PublishAssetStep(entries, zip, store, x, path, bytes);
    PathEntriesCons(entries);
    var r := PublishAssets(entries, zip, store, x);
    var rest := PublishAssets(entries[1..], zip, store1, x);
    if r.0.Success? {
      var head := EntryRecord(e, bytes, x);
      assert EntryBytes(e, zip) == Some(bytes);
      assert RecordRel(zip, x)(e, head);
      PointwiseCons(e, head, PathEntries(entries[1..]), rest.0.value, RecordRel(zip, x));
    }
  }

  /** `ys` is related to `xs` position by position. */
  predicate Pointwise<A, B>(xs: seq<A>, ys: seq<B>, rel: (A, B) -> bool) {
    |ys| == |xs| && forall j :: 0 <= j < |xs| ==> rel(xs[j], ys[j])
  }

  /** A pointwise relation extends to a new head pair. */
  lemma PointwiseCons<A, B>(a: A, b: B, xs: seq<A>, ys: seq<B>, rel: (A, B) -> bool)
    requires rel(a, b) && Pointwise(xs, ys, rel)
    ensures Pointwise([a] + xs, [b] + ys, rel)
  {
    forall j | 0 <= j < |xs| + 1
      ensures rel(([a] + xs)[j], ([b] + ys)[j])
    {
      if j > 0 { assert ([a] + xs)[j] == xs[j - 1] && ([b] + ys)[j] == ys[j - 1]; }
    }
  }

  /** One step of the asset loop on an entry whose file is in the archive:
      the file is stored, and on success its record heads those of the
      remaining entries. */
  lemma PublishAssetStep(entries: seq<AssetEntry>, zip: Zip, store: BlobStore, x: Externals, path: string, bytes: Bytes)
    requires |entries| > 0 && AssetPath(entries[0]) == Some(path) && path != "" && ReadZipFile(zip, path) == Some(bytes)
    ensures var store1 := StoreImmutableAsset(store, bytes, AssetExtension(entries[0], path), x).1;
      var r := PublishAssets(entries, zip, store, x);
      var rest := PublishAssets(entries[1..], zip, store1, x);
      && r.1 == rest.1
      && (r.0.Success? <==> rest.0.Success?)
      && (r.0.Success? ==> r.0.value == [EntryRecord(entries[0], bytes, x)] + rest.0.value)
  {
    var e := entries[0];
    var stored := StoreImmutableAsset(store, bytes, AssetExtension(e, path), x);
    var rest := PublishAssets(entries[1..], zip, stored.1, x);
    var record := AssetRecord(e, path, bytes, stored.0, x);
    assert Truthy(AssetPath(e));
    assert PublishAssets(entries, zip, store, x)
        == if rest.0.Failure? then rest else (Success([record] + rest.0.value), rest.1);
    EntryRecordOfStored(e, store, path, bytes, x);
  }

  lemma EntryRecordOfStored(e: AssetEntry, store: BlobStore, path: string, bytes: Bytes, x: Externals)
    requires AssetPath(e) == Some(path)
    ensures EntryRecord(e, bytes, x) == AssetRecord(e, path, bytes, StoreImmutableAsset(store, bytes, AssetExtension(e, path), x).0, x)
  {
    StoredAssetOfAnyStore(store, bytes, AssetExtension(e, path), x);
  }

  /** What the loop leaves in the store: every file it adds is named after
      an entry's archive bytes and holds those bytes, and on success the
      file of every entry with a path is present. */
  lemma {:induction false} PublishAssetsStores(entries: seq<AssetEntry>, zip: Zip, store: BlobStore, x: Externals)
    ensures var r := PublishAssets(entries, zip, store, x);
      forall k :: k in r.1 && k !in store ==>
        exists e :: e in entries && EntryBytes(e, zip) == Some(r.1[k]) && k == EntryFileName(e, r.1[k], x)
    ensures var r := PublishAssets(entries, zip, store, x);
      r.0.Success? ==> forall e :: e in entries && Truthy(AssetPath(e)) ==>
        EntryBytes(e, zip).Some? && EntryFileName(e, EntryBytes(e, zip).value, x) in r.1
    decreases |entries|
  {
    if |entries| > 0 {
      var e := entries[0];
      var path := AssetPath(e);
      assert forall d :: d in entries ==> d == e || d in entries[1..];
      if !Truthy(path) {
        PublishAssetsStores(entries[1..], zip, store, x);
      } else if ReadZipFile(zip, path.value).Some? {
        var bytes := ReadZipFile(zip, path.value).value;
        var (stored, store1) := StoreImmutableAsset(store, bytes, AssetExtension(e, path.value), x);
        PublishAssetsStores(entries[1..], zip, store1, x);
        var r := PublishAssets(entries, zip, store, x);
        assert r == PublishAssets(entries[1..], zip, store1, x) || r.0.Success?;
        assert EntryBytes(e, zip) == Some(bytes) && EntryFileName(e, bytes, x) == stored.filename;
        forall k | k in r.1 && k !in store
          ensures exists d :: d in entries && EntryBytes(d, zip) == Some(r.1[k]) && k == EntryFileName(d, r.1[k], x)
        {
          if k in store1 {
            assert k == stored.filename && store1[k] == bytes && r.1[k] == store1[k];
          }
        }
      }
    }
  }

  // ---------------------------------------------------------------------
  // Publishing one section

  /** `path.extname(bundle)` without its dot, `js` when empty. */
  function LaunchExtension(bundle: string): (r: string)
    ensures r != ""
    ensures DropLeadingDot(Extname(bundle)) != "" ==> r == DropLeadingDot(Extname(bundle))
  {
    var e := DropLeadingDot(Extname(bundle));
    if e == "" then "js" else e
  }

  /** `input.appVersion || null` and the like. */
  function Nonempty(o: Option<string>): (r: Option<string>)
    ensures r == (if Truthy(o) then o else None)
  {
    if Truthy(o) then o else None
  }

  /** The manifest of one section. */
  function BuildManifest(id: string, createdAt: int, input: PublishInput, launch: ManifestAsset, assets: seq<ManifestAsset>): Manifest {
    Manifest(id, createdAt, input.runtimeVersion, launch, assets,
             ManifestMetadata(Nonempty(input.message), Nonempty(input.appVersion), input.channel),
             ManifestExtra(Nonempty(input.appVersion), input.channel))
  }

  /** One section up to, not including, its insert: the launch bundle is
      stored, then its assets; a missing bundle or asset throws. */
  function PublishSection(entry: PlatformEntry, input: PublishInput, id: string, createdAt: int,
                          zip: Zip, store: BlobStore, x: Externals): (r: (Result<UpdateRow, PublishError>, BlobStore))
    ensures forall k :: k in store ==> k in r.1 && r.1[k] == store[k]
    ensures r.0.Failure? ==> r.0.error.LaunchBundleMissing? || r.0.error.AssetMissing?
    ensures r.0.Success? ==> r.0.value.id == id && r.0.value.platform == entry.platform
  {
    match ReadZipFile(zip, entry.bundle)
    case None => (Failure(LaunchBundleMissing(entry.bundle)), store)
    case Some(bytes) =>
      var ext := LaunchExtension(entry.bundle);
      var (launchStored, store1) := StoreImmutableAsset(store, bytes, Some(ext), x);
      var hash := x.sha256Base64Url(bytes);
      var launch := ManifestAsset(hash, "application/javascript", launchStored.relativeUrl, hash, Some("." + ext));
      var (assets, store2) := PublishAssets(entry.assets, zip, store1, x);
      match assets
      case Failure(e) => (Failure(e), store2)
      case Success(records) =>
        var manifest := BuildManifest(id, createdAt, input, launch, records);
        (Success(UpdateRow(id, entry.platform, input.channel, input.runtimeVersion, Nonempty(input.appVersion),
                           Nonempty(input.message), Some(manifest), createdAt, |records|)), store2)
  }

  /** The row a section yields: the request's channel, runtime version,
      app version and message, the fresh id, and a manifest whose launch
      asset is the stored bundle, keyed by its hash, typed as JavaScript. A
      missing bundle throws before anything is stored. */
  lemma PublishSectionRow(entry: PlatformEntry, input: PublishInput, id: string, createdAt: int,
                          zip: Zip, store: BlobStore, x: Externals)
    ensures var r := PublishSection(entry, input, id, createdAt, zip, store, x);
      ReadZipFile(zip, entry.bundle).None? ==> r == (Failure(LaunchBundleMissing(entry.bundle)), store)
    ensures var r := PublishSection(entry, input, id, createdAt, zip, store, x);
      r.0.Success? ==> var row := r.0.value;
      && row.channel == input.channel && row.runtimeVersion == input.runtimeVersion
      && row.appVersion == Nonempty(input.appVersion) && row.message == Nonempty(input.message)
      && row.createdAt == createdAt && row.manifest.Some?
      && row.manifest.value.id == id && row.manifest.value.createdAt == createdAt
      && row.manifest.value.runtimeVersion == input.runtimeVersion
      && row.manifest.value.metadata.channel == input.channel
      && row.assetsCount == |row.manifest.value.assets|
      && ReadZipFile(zip, entry.bundle).Some?
      && var launch := row.manifest.value.launchAsset;
         var bytes := ReadZipFile(zip, entry.bundle).value;
         && launch.key == x.sha256Base64Url(bytes) && launch.hash == launch.key
         && launch.contentType == "application/javascript"
         && launch.fileExtension == Some("." + LaunchExtension(entry.bundle))
         && AssetFileName(bytes, Some(LaunchExtension(entry.bundle)), x) in r.1
  {
    if ReadZipFile(zip, entry.bundle).Some? {
      var bytes := ReadZipFile(zip, entry.bundle).value;
      var (launchStored, store1) := StoreImmutableAsset(store, bytes, Some(LaunchExtension(entry.bundle)), x);
      assert launchStored.filename in store1;
      var (assets, store2) := PublishAssets(entry.assets, zip, store1, x);
    }
  }

  // ---------------------------------------------------------------------
  // The archive

  /** What publishing leaves behind, whether it succeeded or threw: the
      outcome, the update rows and the asset store. */
  datatype PublishOutcome = PublishOutcome(result: Result<seq<UpdateRow>, PublishError>, rows: seq<UpdateRow>, store: BlobStore)

  /** One section's work given its entry, fresh id and the current store. */
  type SectionStep = (PlatformEntry, string, BlobStore) -> (Result<UpdateRow, PublishError>, BlobStore)

  /** What the section loop relies on of a section's work: the store only
      grows, the only failures are missing files, and a row carries the
      section's platform and the id it was given. */
  ghost predicate SectionStepSound(step: SectionStep) {
    forall e, id, s ::
      && (forall f :: f in s ==> f in step(e, id, s).1 && step(e, id, s).1[f] == s[f])
      && (step(e, id, s).0.Failure? ==> step(e, id, s).0.error.LaunchBundleMissing? || step(e, id, s).0.error.AssetMissing?)
      && (step(e, id, s).0.Success? ==> step(e, id, s).0.value.id == id && step(e, id, s).0.value.platform == e.platform)
  }

  /** The work of one section of this archive and request. */
  function Section(input: PublishInput, createdAt: int, zip: Zip, x: Externals): (step: SectionStep)
    ensures SectionStepSound(step)
  {
    (e, id, s) => PublishSection(e, input, id, createdAt, zip, s, x)
  }

  /** The section loop from section `k` on. `ids(k)` is the fresh id of
      section `k`; `failInsertAt` is the section whose insert the database
      rejects, if any. */
  function PublishSections(entries: seq<PlatformEntry>, k: nat, step: SectionStep,
                           ids: nat -> string, failInsertAt: Option<nat>,
                           rows: seq<UpdateRow>, store: BlobStore): (r: PublishOutcome)
    requires k <= |entries| && SectionStepSound(step)
    ensures forall s :: s in store ==> s in r.store && r.store[s] == store[s]
    ensures |rows| <= |r.rows| && r.rows[..|rows|] == rows
    ensures |r.rows| - |rows| <= |entries| - k
    ensures r.result.Success? ==> r.result.value == r.rows[|rows|..] && |r.rows| - |rows| == |entries| - k
    ensures r.result.Failure? ==> r.result.error.LaunchBundleMissing? || r.result.error.AssetMissing? || r.result.error.PersistFailed?
    decreases |entries| - k
  {
    if k == |entries| then PublishOutcome(Success([]), rows, store)
    else
      var (row, store1) := step(entries[k], ids(k), store);
      match row
      case Failure(e) => PublishOutcome(Failure(e), rows, store1)
      case Success(row) =>
        if failInsertAt == Some(k) then PublishOutcome(Failure(PersistFailed), rows, store1)
        else
          var rest := PublishSections(entries, k + 1, step, ids, failInsertAt, rows + [row], store1);
          assert rest.rows[..|rows|] == (rows + [row])[..|rows|];
          match rest.result
          case Failure(e) => rest
          case Success(published) =>
            PrefixThenRest(rest.rows, rows, row);
            PublishOutcome(Success([row] + published), rest.rows, rest.store)
  }

  /** A sequence that starts with `p + [v]` is `p`, then `v`, then the
      rest. */
  lemma PrefixThenRest<T>(s: seq<T>, p: seq<T>, v: T)
    requires |p| + 1 <= |s| && s[..|p| + 1] == p + [v]
    ensures s[|p|..] == [v] + s[|p| + 1..]
    ensures s[|p|] == v
  {
    assert s[|p|] == s[..|p| + 1][|p|];
  }

  /** The row belongs to section `j` and carries its fresh id. */
  predicate RowOfSection(row: UpdateRow, entries: seq<PlatformEntry>, j: int, ids: nat -> string) {
    0 <= j < |entries| && row.platform == entries[j].platform && row.id == ids(j)
  }

  /** The row at index `i` added by the loop belongs to section
      `k + i - |rows|` and carries its fresh id. */
  lemma {:induction false} PublishSectionsRows(entries: seq<PlatformEntry>, k: nat, step: SectionStep,
                                              ids: nat -> string, failInsertAt: Option<nat>,
                                              rows: seq<UpdateRow>, store: BlobStore)
    requires k <= |entries| && SectionStepSound(step)
    ensures forall i :: |rows| <= i < |PublishSections(entries, k, step, ids, failInsertAt, rows, store).rows| ==>
      RowOfSection(PublishSections(entries, k, step, ids, failInsertAt, rows, store).rows[i], entries, k + i - |rows|, ids)
    decreases |entries| - k
  {
    var r := PublishSections(entries, k, step, ids, failInsertAt, rows, store);
    if k < |entries| {
      var (row, store1) := step(entries[k], ids(k), store);
      if row.Success? && failInsertAt != Some(k) {
        var rows1 := rows + [row.value];
        PublishSectionsRows(entries, k + 1, step, ids, failInsertAt, rows1, store1);
        var rest := PublishSections(entries, k + 1, step, ids, failInsertAt, rows1, store1);
        assert r.rows == rest.rows;
        PrefixThenRest(r.rows, rows, row.value);
        assert RowOfSection(row.value, entries, k, ids);
        SectionRowsShift(r.rows, rows, entries, k, ids);
      }
    }
  }

  /** Rows after `rows` that start with section `k`'s row and continue
      with the rows of sections `k + 1` onwards. */
  lemma SectionRowsShift(r: seq<UpdateRow>, rows: seq<UpdateRow>, entries: seq<PlatformEntry>, k: nat, ids: nat -> string)
    requires |rows| < |r| && RowOfSection(r[|rows|], entries, k, ids)
    requires forall i :: |rows| + 1 <= i < |r| ==> RowOfSection(r[i], entries, k + 1 + i - (|rows| + 1), ids)
    ensures forall i :: |rows| <= i < |r| ==> RowOfSection(r[i], entries, k + i - |rows|, ids)
  {
  }

  /** The archive's sections, or why publishing throws before storing
      anything: no metadata.json, JSON that does not parse, no
      `fileMetadata` object, or no section with a bundle. */
  function ArchiveSections(zip: Zip, parseJson: string -> MetadataJson, x: Externals): (r: Result<seq<PlatformEntry>, PublishError>)
    ensures MetadataFile(zip).None? ==> r == Failure(MetadataMissing)
    ensures r.Success? ==> |r.value| > 0
    ensures r.Failure? ==> r.error.MetadataMissing? || r.error.MetadataUnreadable? || r.error.FileMetadataMissing? || r.error.NoBundles?
  {
    match MetadataFile(zip)
    case None => Failure(MetadataMissing)
    case Some(file) =>
      match parseJson(x.utf8Decode(file))
      case Unparseable => Failure(MetadataUnreadable)
      case Parsed(None) => Failure(FileMetadataMissing)
      case Parsed(Some(sections)) =>
        var entries := SelectPlatforms(sections);
        if |entries| == 0 then Failure(NoBundles) else Success(entries)
  }

  /** `publishUpdateArchive`. */
  function PublishUpdateArchive(input: PublishInput, zip: Zip, parseJson: string -> MetadataJson, createdAt: int,
                                ids: nat -> string, failInsertAt: Option<nat>,
                                rows: seq<UpdateRow>, store: BlobStore, x: Externals): (r: PublishOutcome)
    ensures ArchiveSections(zip, parseJson, x).Failure? ==>
              r == PublishOutcome(Failure(ArchiveSections(zip, parseJson, x).error), rows, store)
    ensures forall s :: s in store ==> s in r.store && r.store[s] == store[s]
    ensures |rows| <= |r.rows| && r.rows[..|rows|] == rows
  {
    match ArchiveSections(zip, parseJson, x)
    case Failure(e) => PublishOutcome(Failure(e), rows, store)
    case Success(entries) => PublishSections(entries, 0, Section(input, createdAt, zip, x), ids, failInsertAt, rows, store)
  }

  /** Publishing records one row per section, in order, and on failure
      keeps the rows of the sections before the failing one: the rows added
      are those of a prefix of the sections, all of them on success, none
      when the archive is rejected. */
  lemma PublishRowsPerSection(input: PublishInput, zip: Zip, parseJson: string -> MetadataJson, createdAt: int,
                              ids: nat -> string, failInsertAt: Option<nat>,
                              rows: seq<UpdateRow>, store: BlobStore, x: Externals)
    ensures var r := PublishUpdateArchive(input, zip, parseJson, createdAt, ids, failInsertAt, rows, store, x);
      ArchiveSections(zip, parseJson, x).Success? ==>
        var entries := ArchiveSections(zip, parseJson, x).value;
        var added := r.rows[|rows|..];
        && |added| <= |entries|
        && (forall i :: 0 <= i < |added| ==> added[i].platform == entries[i].platform && added[i].id == ids(i))
        && (r.result.Success? ==> r.result.value == added && |added| == |entries|)
        && (r.result.Failure? ==> r.result.error.LaunchBundleMissing? || r.result.error.AssetMissing? || r.result.error.PersistFailed?)
    ensures var r := PublishUpdateArchive(input, zip, parseJson, createdAt, ids, failInsertAt, rows, store, x);
      ArchiveSections(zip, parseJson, x).Failure? ==> r.result.Failure? && r.rows == rows && r.store == store
  {
    if ArchiveSections(zip, parseJson, x).Success? {
      var entries := ArchiveSections(zip, parseJson, x).value;
      var step := Section(input, createdAt, zip, x);
      assert PublishUpdateArchive(input, zip, parseJson, createdAt, ids, failInsertAt, rows, store, x)
          == PublishSections(entries, 0, step, ids, failInsertAt, rows, store);
      SectionsAdded(entries, step, ids, failInsertAt, rows, store);
    }
  }

  /** The rows the whole section loop adds: section `i`'s row at position
      `i`, all of them on success. */
  lemma SectionsAdded(entries: seq<PlatformEntry>, step: SectionStep, ids: nat -> string, failInsertAt: Option<nat>,
                      rows: seq<UpdateRow>, store: BlobStore)
    requires SectionStepSound(step)
    ensures var r := PublishSections(entries, 0, step, ids, failInsertAt, rows, store);
      var added := r.rows[|rows|..];
      && |added| <= |entries|
      && (forall i :: 0 <= i < |added| ==> added[i].platform == entries[i].platform && added[i].id == ids(i))
      && (r.result.Success? ==> r.result.value == added && |added| == |entries|)
      && (r.result.Failure? ==> r.result.error.LaunchBundleMissing? || r.result.error.AssetMissing? || r.result.error.PersistFailed?)
  {
    var r := PublishSections(entries, 0, step, ids, failInsertAt, rows, store);
    var added := r.rows[|rows|..];
    PublishSectionsRows(entries, 0, step, ids, failInsertAt, rows, store);
    forall i | 0 <= i < |added| ensures added[i].platform == entries[i].platform && added[i].id == ids(i) {
      assert added[i] == r.rows[|rows| + i];
      assert RowOfSection(r.rows[|rows| + i], entries, i, ids);
    }
  }

  /** An insert failure at section `f` leaves exactly the rows of the
      sections before it. */
  lemma {:induction false} InsertFailureKeepsEarlierRows(entries: seq<PlatformEntry>, k: nat, step: SectionStep,
                                                        ids: nat -> string, f: nat, rows: seq<UpdateRow>, store: BlobStore)
    requires k <= f < |entries| && SectionStepSound(step)
    requires PublishSections(entries, k, step, ids, Some(f), rows, store).result == Failure(PersistFailed)
    ensures |PublishSections(entries, k, step, ids, Some(f), rows, store).rows| == |rows| + f - k
    decreases |entries| - k
  {
    var r := PublishSections(entries, k, step, ids, Some(f), rows, store);
    var (row, store1) := step(entries[k], ids(k), store);
    assert row.Success?;
    if k != f {
      var rest := PublishSections(entries, k + 1, step, ids, Some(f), rows + [row.value], store1);
      assert r == rest;
      InsertFailureKeepsEarlierRows(entries, k + 1, step, ids, f, rows + [row.value], store1);
    }
  }
}
