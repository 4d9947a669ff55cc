/** lib/services/updates-service.ts, part three: `resolveLatestUpdate`,
    the newest update for a platform, runtime version and channel, unless
    the client already runs it. */
module UpdatesResolve {
  import opened Wrappers
  import opened Text
  import opened Foreign
  import opened Updates

  datatype ResolveInput = ResolveInput(platform: string, runtimeVersion: string, channel: string,
                                       currentUpdateId: Option<string>, origin: string)

  /** The channel queried: the requested one, `production` when empty. */
  function QueryChannel(channel: string): (c: string)
    ensures c != ""
    ensures channel != "" ==> c == channel
  {
    if channel == "" then "production" else channel
  }

  predicate RowMatches(row: UpdateRow, p: Platform, runtime: string, channel: string) {
    row.platform == p && row.runtimeVersion == runtime && row.channel == channel
  }

  /** The index of the newest matching row (`order by created_at desc
      limit 1`). Rows with equal timestamps are in no particular order in the
      database; here the later one wins. */
  function NewestMatch(rows: seq<UpdateRow>, p: Platform, runtime: string, channel: string): (r: Option<nat>)
    ensures r.None? <==> forall j :: 0 <= j < |rows| ==> !RowMatches(rows[j], p, runtime, channel)
    ensures r.Some? ==> r.value < |rows| && RowMatches(rows[r.value], p, runtime, channel)
    ensures r.Some? ==> forall j :: 0 <= j < |rows| && RowMatches(rows[j], p, runtime, channel) ==>
                          rows[j].createdAt <= rows[r.value].createdAt
    decreases |rows|
  {
    if |rows| == 0 then None
    else
      var last := |rows| - 1;
      var prev := NewestMatch(rows[..last], p, runtime, channel);
      assert forall j :: 0 <= j < last ==> rows[..last][j] == rows[j];
      if RowMatches(rows[last], p, runtime, channel) && (prev.None? || rows[prev.value].createdAt <= rows[last].createdAt)
      then Some(last)
      else prev
  }

  /** `resolveLatestUpdate` over the update rows; `queryError` is the
      database's error, if the query fails. `Success(None)` is `null`. */
  function ResolveLatestUpdate(input: ResolveInput, rows: seq<UpdateRow>, queryError: Option<string>, x: Externals): (r: Result<Option<Manifest>, string>)
    ensures NormalizePlatform(input.platform).None? || input.runtimeVersion == "" ==> r == Success(None)
    ensures NormalizePlatform(input.platform).Some? && input.runtimeVersion != "" && queryError.Some? ==>
              r == Failure("Unable to resolve latest update: " + queryError.value)
    ensures NormalizePlatform(input.platform).Some? && input.runtimeVersion != "" && queryError.None? ==>
              var i := NewestMatch(rows, NormalizePlatform(input.platform).value, input.runtimeVersion, QueryChannel(input.channel));
              && (i.None? ==> r == Success(None))
              && (i.Some? && rows[i.value].manifest.None? ==> r == Success(None))
              && (i.Some? && rows[i.value].manifest.Some? ==>
                    var m := rows[i.value].manifest.value;
                    var current := NormalizeCurrentUpdateId(input.currentUpdateId);
                    var clone := CloneManifestWithOrigin(m, input.origin, x);
                    && (Truthy(current) && current.value == m.id ==> r == Success(None))
                    && (!(Truthy(current) && current.value == m.id) && clone.Some? ==> r == Success(Some(clone.value)))
                    && (!(Truthy(current) && current.value == m.id) && clone.None? ==> r == Failure("Invalid URL")))
    ensures r.Success? && r.value.Some? ==>
              && NormalizePlatform(input.platform).Some? && input.runtimeVersion != "" && queryError.None?
              && var i := NewestMatch(rows, NormalizePlatform(input.platform).value, input.runtimeVersion, QueryChannel(input.channel));
                 && i.Some? && rows[i.value].manifest.Some?
                 && CloneManifestWithOrigin(rows[i.value].manifest.value, input.origin, x) == Some(r.value.value)
  {
    match NormalizePlatform(input.platform)
    case None => Success(None)
    case Some(p) =>
      if input.runtimeVersion == "" then Success(None)
      else if queryError.Some? then Failure("Unable to resolve latest update: " + queryError.value)
      else
        match NewestMatch(rows, p, input.runtimeVersion, QueryChannel(input.channel))
        case None => Success(None)
        case Some(i) =>
          match rows[i].manifest
          case None => Success(None)
          case Some(m) =>
            var current := NormalizeCurrentUpdateId(input.currentUpdateId);
            if Truthy(current) && current.value == m.id then Success(None)
            else
              match CloneManifestWithOrigin(m, input.origin, x)
              case None => Failure("Invalid URL")
              case Some(c) => Success(Some(c))
  }

  /** A served manifest is the newest update of exactly the requested
      platform (in any letter case), runtime version and channel (empty
      meaning `production`), with its URLs made absolute and everything else
      as stored, and it is not the one the client reported running. */
  lemma ResolvedIsNewest(input: ResolveInput, rows: seq<UpdateRow>, queryError: Option<string>, x: Externals)
    requires ResolveLatestUpdate(input, rows, queryError, x).Success?
    requires ResolveLatestUpdate(input, rows, queryError, x).value.Some?
    ensures var m := ResolveLatestUpdate(input, rows, queryError, x).value.value;
      exists i :: 0 <= i < |rows|
        && NormalizePlatform(input.platform) == Some(rows[i].platform)
        && rows[i].runtimeVersion == input.runtimeVersion
        && rows[i].channel == QueryChannel(input.channel)
        && rows[i].manifest.Some? && rows[i].manifest.value.id == m.id
        && rows[i].manifest.value.metadata == m.metadata
        && |rows[i].manifest.value.assets| == |m.assets|
        && (forall j :: 0 <= j < |rows| && RowMatches(rows[j], rows[i].platform, input.runtimeVersion, QueryChannel(input.channel)) ==>
              rows[j].createdAt <= rows[i].createdAt)
    ensures var m := ResolveLatestUpdate(input, rows, queryError, x).value.value;
      var current := NormalizeCurrentUpdateId(input.currentUpdateId);
      !(Truthy(current) && current.value == m.id)
  {
    var p := NormalizePlatform(input.platform).value;
    var i := NewestMatch(rows, p, input.runtimeVersion, QueryChannel(input.channel)).value;
    var stored := rows[i].manifest.value;
    CloneChangesOnlyUrls(stored, input.origin, x);
  }

  /** A client that reports the id of the newest matching update, with or
      without surrounding quotes, gets no update. */
  lemma AlreadyCurrentGetsNothing(input: ResolveInput, rows: seq<UpdateRow>, x: Externals, i: nat)
    requires NormalizePlatform(input.platform).Some? && input.runtimeVersion != ""
    requires NewestMatch(rows, NormalizePlatform(input.platform).value, input.runtimeVersion, QueryChannel(input.channel)) == Some(i)
    requires rows[i].manifest.Some? && rows[i].manifest.value.id != ""
    requires input.currentUpdateId == Some(rows[i].manifest.value.id)
          || input.currentUpdateId == Some("\"" + rows[i].manifest.value.id + "\"")
    requires '"' !in rows[i].manifest.value.id
    ensures ResolveLatestUpdate(input, rows, None, x) == Success(None)
  {
    NormalizeCurrentUpdateIdQuotes(rows[i].manifest.value.id);
  }

  /** The platform is matched without regard to letter case. */
  lemma ResolveIgnoresPlatformCase(input: ResolveInput, rows: seq<UpdateRow>, queryError: Option<string>, x: Externals)
    ensures ResolveLatestUpdate(input, rows, queryError, x)
         == ResolveLatestUpdate(input.(platform := Lower(input.platform)), rows, queryError, x)
  {
    LowerIsLowerCase(input.platform);
    LowerOfLowerCase(Lower(input.platform));
  }
}
