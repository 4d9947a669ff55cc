/** lib/storage.ts: content-addressed asset storage. The asset directory is
    a map from file name to bytes; a stored file is named by the hash of its
    bytes and a normalised extension, and is never rewritten. */
module Storage {
  import opened Wrappers
  import opened Text
  import opened Foreign
  import opened Utils

  /** The asset directory: file name to contents. */
  type BlobStore = map<string, Bytes>

  predicate IsAsciiAlnum(c: char) {
    'a' <= c <= 'z' || 'A' <= c <= 'Z' || '0' <= c <= '9'
  }

  predicate IsLowerAlnum(c: char) {
    'a' <= c <= 'z' || '0' <= c <= '9'
  }

  /** `.replace(/[^a-zA-Z0-9]/g, '')`. */
  function KeepAlnum(s: string): (r: string)
    ensures |r| <= |s|
    ensures forall i :: 0 <= i < |r| ==> IsAsciiAlnum(r[i])
    ensures (forall i :: 0 <= i < |s| ==> IsAsciiAlnum(s[i])) ==> r == s
    decreases |s|
  {
    if |s| == 0 then ""
    else
      var rest := KeepAlnum(s[1..]);
      assert (forall i :: 0 <= i < |s| ==> IsAsciiAlnum(s[i])) ==> forall i :: 0 <= i < |s[1..]| ==> IsAsciiAlnum(s[1..][i]);
      if IsAsciiAlnum(s[0]) then [s[0]] + rest else rest
  }

  /** The cleaned extension: one leading dot dropped, every character other
      than an ASCII letter or digit removed, lower-cased. */
  function CleanExtension(ext: string): (r: string)
    ensures forall i :: 0 <= i < |r| ==> IsLowerAlnum(r[i])
  {
    Lower(KeepAlnum(DropLeadingDot(ext)))
  }

  /** `normalizeExtension`: `''` for an absent or empty extension or one
      with nothing left after cleaning, otherwise `.` and the cleaned
      extension. */
  function NormalizeExtension(ext: Option<string>): (r: string)
    ensures !Truthy(ext) ==> r == ""
    ensures Truthy(ext) && CleanExtension(ext.value) != "" ==> r == "." + CleanExtension(ext.value)
    ensures Truthy(ext) && CleanExtension(ext.value) == "" ==> r == ""
  {
    if !Truthy(ext) then ""
    else
      var cleaned := CleanExtension(ext.value);
      if cleaned == "" then "" else "." + cleaned
  }

  /** A normalised extension is empty or a dot followed by lower-case
      letters and digits. */
  predicate WellFormedExtension(e: string) {
    e == "" || (e[0] == '.' && |e| > 1 && forall i :: 1 <= i < |e| ==> IsLowerAlnum(e[i]))
  }

  lemma NormalizeExtensionWellFormed(ext: Option<string>)
    ensures WellFormedExtension(NormalizeExtension(ext))
  {
    var r := NormalizeExtension(ext);
    if r != "" {
      var c := CleanExtension(ext.value);
      assert forall i :: 1 <= i < |r| ==> r[i] == c[i - 1];
    }
  }

  /** Cleaning a string of lower-case letters and digits changes nothing. */
  lemma CleanLowerAlnum(c: string)
    requires forall i :: 0 <= i < |c| ==> IsLowerAlnum(c[i])
    ensures CleanExtension(c) == c
  {
    assert KeepAlnum(c) == c;
    LowerOfLowerCase(c);
  }

  /** Normalisation is idempotent: a normalised extension normalises to
      itself. */
  lemma NormalizeExtensionIdempotent(ext: Option<string>)
    ensures NormalizeExtension(Some(NormalizeExtension(ext))) == NormalizeExtension(ext)
  {
    var r := NormalizeExtension(ext);
    if r != "" {
      var c := CleanExtension(ext.value);
      assert r[1..] == c;
      assert DropLeadingDot(r) == c;
      CleanLowerAlnum(c);
    }
  }

  /** The result of `storeImmutableAsset`. */
  datatype StoredAsset = StoredAsset(hash: string, filename: string, relativeUrl: string)

  /** The file name of some bytes: their hash and the normalised extension. */
  function AssetFileName(bytes: Bytes, ext: Option<string>, x: Externals): string {
    x.sha256Base64Url(bytes) + NormalizeExtension(ext)
  }

  /** `storeImmutableAsset`: the bytes are written under their file name
      unless a file of that name exists already; the URL serves the file
      through the assets route. */
  function StoreImmutableAsset(store: BlobStore, bytes: Bytes, ext: Option<string>, x: Externals): (r: (StoredAsset, BlobStore))
    ensures r.0.hash == x.sha256Base64Url(bytes)
    ensures r.0.filename == r.0.hash + NormalizeExtension(ext)
    ensures r.0.relativeUrl == "/api/assets?file=" + x.encodeUriComponent(r.0.filename)
    ensures r.0.filename in r.1
    ensures r.0.filename !in store ==> r.1[r.0.filename] == bytes
    ensures r.0.filename in store ==> r.1 == store
    ensures forall k :: k != r.0.filename ==> (k in r.1 <==> k in store)
    ensures forall k :: k in store && k != r.0.filename ==> r.1[k] == store[k]
  {
    var hash := x.sha256Base64Url(bytes);
    var filename := hash + NormalizeExtension(ext);
    var asset := StoredAsset(hash, filename, "/api/assets?file=" + x.encodeUriComponent(filename));
    if filename in store then (asset, store) else (asset, store[filename := bytes])
  }

  /** Storing the same bytes with the same extension again returns the same
      result and leaves the store as it is. */
  lemma StoreIdempotent(store: BlobStore, bytes: Bytes, ext: Option<string>, x: Externals)
    ensures var (a, s1) := StoreImmutableAsset(store, bytes, ext, x);
      StoreImmutableAsset(s1, bytes, ext, x) == (a, s1)
  {
  }

  /** Why a stored asset could not be read. */
  datatype ReadError = InvalidPath | NotFound

  /** `readStoredAsset`: the name is checked by `sanitizeFileName` before
      the store is consulted. */
  function ReadStoredAsset(store: BlobStore, filename: string): (r: Result<Bytes, ReadError>)
    ensures SanitizeFileName(filename).Failure? ==> r == Failure(InvalidPath)
    ensures SanitizeFileName(filename).Success? && filename !in store ==> r == Failure(NotFound)
    ensures r.Success? <==> SanitizeFileName(filename).Success? && filename in store
    ensures r.Success? ==> r.value == store[filename]
  {
    if SanitizeFileName(filename).Failure? then Failure(InvalidPath)
    else if filename !in store then Failure(NotFound)
    else Success(store[filename])
  }

  /** `deleteStoredAsset`: an unsafe name fails before the store is
      touched; otherwise the file is removed and the answer says whether it
      existed. */
  function DeleteStoredAsset(store: BlobStore, filename: string): (r: Result<(bool, BlobStore), string>)
    ensures SanitizeFileName(filename).Failure? ==> r == Failure("Invalid file path")
    ensures r.Success? <==> SanitizeFileName(filename).Success?
    ensures r.Success? ==> (r.value.0 <==> filename in store)
    ensures r.Success? ==> r.value.1 == store - {filename}
  {
    match SanitizeFileName(filename)
    case Failure(e) => Failure(e)
    case Success(name) => Success((name in store, store - {name}))
  }

  /** Deleting twice: the second deletion reports the file absent and
      changes nothing more. */
  lemma DeleteTwice(store: BlobStore, filename: string)
    requires DeleteStoredAsset(store, filename).Success?
    ensures var s1 := DeleteStoredAsset(store, filename).value.1;
      DeleteStoredAsset(s1, filename) == Success((false, s1))
  {
    var s1 := store - {filename};
    assert s1 - {filename} == s1;
  }

  /** The characters of the base64url alphabet (section 5 of RFC 4648). */
  predicate IsBase64UrlChar(c: char) {
    IsAsciiAlnum(c) || c == '-' || c == '_'
  }

  /** Stored names are safe: with a hash in the base64url alphabet the file
      name passes `sanitizeFileName`, so a stored asset can be read back,
      bytes unchanged when it was new. */
  lemma StoredAssetReadable(store: BlobStore, bytes: Bytes, ext: Option<string>, x: Externals)
    requires forall c :: c in x.sha256Base64Url(bytes) ==> IsBase64UrlChar(c)
    ensures var (a, s1) := StoreImmutableAsset(store, bytes, ext, x);
      ReadStoredAsset(s1, a.filename).Success?
      && (a.filename !in store ==> ReadStoredAsset(s1, a.filename) == Success(bytes))
  {
    var hash := x.sha256Base64Url(bytes);
    var e := NormalizeExtension(ext);
    NormalizeExtensionWellFormed(ext);
    var name := hash + e;
    forall i | 0 <= i < |name| ensures name[i] != '/' && name[i] != '\\' && (name[i] == '.' ==> i == |hash|) {
      if i < |hash| {
        assert name[i] == hash[i] && hash[i] in hash;
      } else {
        assert name[i] == e[i - |hash|];
      }
    }
    assert forall i :: 0 <= i < |name| - 1 ==> !(name[i] == '.' && name[i + 1] == '.');
    SafeCharsPass(name);
    var r := StoreImmutableAsset(store, bytes, ext, x);
    assert r.0.filename == name && name in r.1;
  }
}
