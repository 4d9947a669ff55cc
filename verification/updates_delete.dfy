/** lib/services/updates-service.ts, part four: `deletePublishedUpdate`.
    The update row and its events are removed, then every asset file the
    update referenced that no remaining update references is deleted. */
module UpdatesDelete {
  import opened Wrappers
  import opened Sorting
  import opened Text
  import opened Foreign
  import opened Utils
  import opened Storage
  import opened Events
  import opened Updates

  /** `DeleteUpdateResult`. */
  datatype DeleteResult = DeleteResult(deleted: bool, updateId: string, assetsDeleted: nat, eventsDeleted: nat, warnings: seq<string>)

  /** The error message of each database call that fails, `None` when it
      succeeds: finding the row, deleting it, deleting its events, listing the
      remaining manifests. */
  datatype DeleteFaults = DeleteFaults(find: Option<string>, deleteUpdate: Option<string>,
                                       deleteEvents: Option<string>, remaining: Option<string>)

  /** The update rows, the event rows and the asset directory. */
  datatype StoreState = StoreState(rows: seq<UpdateRow>, events: seq<EventRow>, store: BlobStore)

  /** The outcome, thrown or returned, and the state left behind. */
  datatype DeleteOutcome = DeleteOutcome(result: Result<DeleteResult, string>, state: StoreState)

  /** The message a row without a manifest makes the name collection throw. */
  const NoManifestError: string := "Cannot read properties of null (reading 'launchAsset')"

  // ---------------------------------------------------------------------
  // Rows and events

  /** The first row with the id (`maybeSingle`; ids are unique). */
  function FindRow(rows: seq<UpdateRow>, id: string): (r: Option<nat>)
    ensures r.None? <==> forall i :: 0 <= i < |rows| ==> rows[i].id != id
    ensures r.Some? ==> r.value < |rows| && rows[r.value].id == id
    decreases |rows|
  {
    if |rows| == 0 then None
    else if rows[0].id == id then Some(0)
    else
      var r := FindRow(rows[1..], id);
      assert forall i :: 1 <= i < |rows| ==> rows[i] == rows[1..][i - 1];
      if r.None? then None else Some(r.value + 1)
  }

  /** The rows without the id, in order. */
  function WithoutRow(rows: seq<UpdateRow>, id: string): (r: seq<UpdateRow>)
    ensures forall row :: row in r <==> row in rows && row.id != id
    ensures |r| <= |rows|
    decreases |rows|
  {
    if |rows| == 0 then []
    else (if rows[0].id == id then [] else [rows[0]]) + WithoutRow(rows[1..], id)
  }

  /** The events of other updates, in order, and how many were dropped. */
  function WithoutEvents(events: seq<EventRow>, id: string): (r: (seq<EventRow>, nat))
    ensures forall e :: e in r.0 <==> e in events && e.updateId != Some(id)
    ensures |r.0| + r.1 == |events|
    decreases |events|
  {
    if |events| == 0 then ([], 0)
    else
      var rest := WithoutEvents(events[1..], id);
      if events[0].updateId == Some(id) then (rest.0, rest.1 + 1)
      else ([events[0]] + rest.0, rest.1)
  }

  // ---------------------------------------------------------------------
  // Referenced file names

  /** The names referenced by the manifests of the rows. */
  function ReferencedNames(rows: seq<UpdateRow>, x: Externals): (r: set<string>)
    decreases |rows|
  {
    if |rows| == 0 then {}
    else
      (if rows[0].manifest.Some? then (set n | n in CollectManifestAssetFilenames(rows[0].manifest.value, x)) else {})
      + ReferencedNames(rows[1..], x)
  }

  /** A name is referenced exactly when some row's manifest names it. */
  lemma {:induction false} ReferencedNamesSpec(rows: seq<UpdateRow>, x: Externals, n: string)
    ensures n in ReferencedNames(rows, x) <==>
            exists i :: 0 <= i < |rows| && rows[i].manifest.Some? && NameOfManifest(rows[i].manifest.value, x, n)
    decreases |rows|
  {
    if |rows| > 0 {
      ReferencedNamesSpec(rows[1..], x, n);
      if rows[0].manifest.Some? {
        CollectedNames(rows[0].manifest.value, x);
      }
      if exists i :: 0 <= i < |rows| && rows[i].manifest.Some? && NameOfManifest(rows[i].manifest.value, x, n) {
        var i :| 0 <= i < |rows| && rows[i].manifest.Some? && NameOfManifest(rows[i].manifest.value, x, n);
        if i > 0 {
          assert rows[1..][i - 1] == rows[i];
        }
      }
      if n in ReferencedNames(rows[1..], x) {
        var i :| 0 <= i < |rows[1..]| && rows[1..][i].manifest.Some? && NameOfManifest(rows[1..][i].manifest.value, x, n);
        assert rows[i + 1] == rows[1..][i];
      }
    }
  }

  /** The collected names have no repetitions. */
  lemma {:induction false} AddAssetNamesDistinct(names: seq<string>, assets: seq<ManifestAsset>, x: Externals)
    requires Distinct(names)
    ensures Distinct(AddAssetNames(names, assets, x))
    decreases |assets|
  {
    if |assets| > 0 {
      var f := ExtractFilename(Some(assets[0].url), x);
      var next := if Truthy(f) then AddName(names, f.value) else names;
      AddAssetNamesDistinct(next, assets[1..], x);
    }
  }

  lemma CollectedDistinct(m: Manifest, x: Externals)
    ensures Distinct(CollectManifestAssetFilenames(m, x))
  {
    var f := ExtractFilename(Some(m.launchAsset.url), x);
    AddAssetNamesDistinct(if Truthy(f) then [f.value] else [], m.assets, x);
  }

  // ---------------------------------------------------------------------
  // Removing the files

  /** The candidates the loop tries to delete: unreferenced ones that pass
      the file-name guard. */
  ghost function Removable(candidates: seq<string>, referenced: set<string>): set<string> {
    set f | f in candidates && f !in referenced && SanitizeFileName(f).Success?
  }

  /** The warning for a candidate that `deleteStoredAsset` refuses. */
  function RemoveWarning(f: string): string {
    "Could not remove asset " + f + ": Invalid file path"
  }

  /** The loop over the candidate names: a referenced name is skipped; any
      other is deleted, counted when it existed, and turned into a warning
      when its name is refused. The result is the count, the warnings and
      the directory. */
  function RemoveUnreferenced(candidates: seq<string>, referenced: set<string>, store: BlobStore): (r: (nat, seq<string>, BlobStore))
    ensures r.2 == store - Removable(candidates, referenced)
    ensures forall w :: w in r.1 <==>
              exists f :: f in candidates && f !in referenced && SanitizeFileName(f).Failure? && w == RemoveWarning(f)
    decreases |candidates|
  {
    if |candidates| == 0 then (0, [], store)
    else
      var f := candidates[0];
      var rest := candidates[1..];
      assert forall g :: g in candidates <==> g == f || g in rest;
      if f in referenced then
        var r := RemoveUnreferenced(rest, referenced, store);
        assert Removable(candidates, referenced) == Removable(rest, referenced);
        r
      else
        match DeleteStoredAsset(store, f)
        case Failure(e) =>
          var r := RemoveUnreferenced(rest, referenced, store);
          assert Removable(candidates, referenced) == Removable(rest, referenced);
          (r.0, [RemoveWarning(f)] + r.1, r.2)
        case Success((existed, store1)) =>
          var r := RemoveUnreferenced(rest, referenced, store1);
          assert Removable(candidates, referenced) == Removable(rest, referenced) + {f};
          assert store1 - Removable(rest, referenced) == store - Removable(candidates, referenced);
          ((if existed then 1 else 0) + r.0, r.1, r.2)
  }

  /** The count is the number of files actually removed: the removable
      candidates that existed. */
  lemma {:induction false} RemoveUnreferencedCount(candidates: seq<string>, referenced: set<string>, store: BlobStore)
    requires Distinct(candidates)
    ensures RemoveUnreferenced(candidates, referenced, store).0 == |Removable(candidates, referenced) * store.Keys|
    decreases |candidates|
  {
    if |candidates| > 0 {
      var f := candidates[0];
      var rest := candidates[1..];
      DistinctTail(candidates);
      if f in referenced || SanitizeFileName(f).Failure? {
        RemoveUnreferencedCount(rest, referenced, store);
        RemovableSkip(candidates, referenced);
      } else {
        RemoveUnreferencedCount(rest, referenced, store - {f});
        RemovableTake(candidates, referenced, store);
      }
    }
  }

  lemma RemovableSkip(candidates: seq<string>, referenced: set<string>)
    requires |candidates| > 0 && (candidates[0] in referenced || SanitizeFileName(candidates[0]).Failure?)
    ensures Removable(candidates, referenced) == Removable(candidates[1..], referenced)
  {
    assert forall g :: g in candidates <==> g == candidates[0] || g in candidates[1..];
  }

  /** Taking the first candidate adds one to the count when it existed. */
  lemma RemovableTake(candidates: seq<string>, referenced: set<string>, store: BlobStore)
    requires |candidates| > 0 && candidates[0] !in candidates[1..]
    requires candidates[0] !in referenced && SanitizeFileName(candidates[0]).Success?
    ensures var f := candidates[0];
      |Removable(candidates, referenced) * store.Keys|
        == (if f in store then 1 else 0) + |Removable(candidates[1..], referenced) * (store - {f}).Keys|
  {
    var f := candidates[0];
    var rest := candidates[1..];
    assert forall g :: g in candidates <==> g == f || g in rest;
    assert Removable(candidates, referenced) == Removable(rest, referenced) + {f};
    assert (store - {f}).Keys == store.Keys - {f};
    CountTaken(Removable(rest, referenced), f, store.Keys);
  }

  /** Counting the present members of `a + {f}`: `f` itself, if present,
      and the members of `a` among the rest. */
  lemma CountTaken(a: set<string>, f: string, present: set<string>)
    requires f !in a
    ensures |(a + {f}) * present| == (if f in present then 1 else 0) + |a * (present - {f})|
  {
    var now := a * (present - {f});
    assert a * present == now;
    if f in present {
      assert (a + {f}) * present == now + {f};
    } else {
      assert (a + {f}) * present == now;
    }
  }

  // ---------------------------------------------------------------------
  // The whole operation

  /** `deletePublishedUpdate` over the state, given which database calls
      fail. */
  function DeletePublishedUpdate(updateId: string, faults: DeleteFaults, s: StoreState, x: Externals): (r: DeleteOutcome)
    ensures Trim(updateId) == "" ==> r == DeleteOutcome(Failure("updateId is required."), s)
    ensures r.result.Failure? ==> r.state == s
    ensures r.result.Success? ==> r.result.value.updateId == Trim(updateId)
    ensures r.result.Success? && !r.result.value.deleted ==> r.state == s && r.result.value == DeleteResult(false, Trim(updateId), 0, 0, [])
    ensures r.result.Success? && r.result.value.deleted ==>
      && (forall row :: row in r.state.rows <==> row in s.rows && row.id != Trim(updateId))
      && (faults.deleteEvents.Some? ==> r.state.events == s.events && r.result.value.eventsDeleted == 0)
      && (faults.deleteEvents.None? ==>
            (forall e :: e in r.state.events <==> e in s.events && e.updateId != Some(Trim(updateId)))
            && r.result.value.eventsDeleted == |s.events| - |r.state.events|)
      && (faults.remaining.Some? ==> r.state.store == s.store && r.result.value.assetsDeleted == 0)
      && (faults.deleteEvents.Some? ==>
            |r.result.value.warnings| > 0 && r.result.value.warnings[0] == "Could not remove related events: " + faults.deleteEvents.value)
      && (faults.remaining.Some? ==>
            |r.result.value.warnings| > 0 && r.result.value.warnings[|r.result.value.warnings| - 1] == "Could not verify shared assets: " + faults.remaining.value)
  {
    var id := Trim(updateId);
    if id == "" then DeleteOutcome(Failure("updateId is required."), s)
    else if faults.find.Some? then DeleteOutcome(Failure("Unable to find update: " + faults.find.value), s)
    else
      match FindRow(s.rows, id)
      case None => DeleteOutcome(Success(DeleteResult(false, id, 0, 0, [])), s)
      case Some(i) =>
        match s.rows[i].manifest
        case None => DeleteOutcome(Failure(NoManifestError), s)
        case Some(manifest) =>
          var candidates := CollectManifestAssetFilenames(manifest, x);
          if faults.deleteUpdate.Some? then DeleteOutcome(Failure("Unable to delete update: " + faults.deleteUpdate.value), s)
          else
            var rows := WithoutRow(s.rows, id);
            var (events, eventsDeleted, eventWarnings) :=
              match faults.deleteEvents
              case Some(msg) => (s.events, 0, ["Could not remove related events: " + msg])
              case None =>
                var (kept, dropped) := WithoutEvents(s.events, id);
                (kept, dropped, []);
            match faults.remaining
            case Some(msg) =>
              DeleteOutcome(Success(DeleteResult(true, id, 0, eventsDeleted, eventWarnings + ["Could not verify shared assets: " + msg])),
                            StoreState(rows, events, s.store))
            case None =>
              var referenced := ReferencedNames(rows, x);
              var (assetsDeleted, assetWarnings, store) := RemoveUnreferenced(candidates, referenced, s.store);
              DeleteOutcome(Success(DeleteResult(true, id, assetsDeleted, eventsDeleted, eventWarnings + assetWarnings)),
                            StoreState(rows, events, store))
  }

  /** Deleting an id no row has changes nothing and reports nothing. */
  lemma DeleteUnknownId(updateId: string, faults: DeleteFaults, s: StoreState, x: Externals)
    requires Trim(updateId) != "" && faults.find.None?
    requires forall i :: 0 <= i < |s.rows| ==> s.rows[i].id != Trim(updateId)
    ensures DeletePublishedUpdate(updateId, faults, s, x) == DeleteOutcome(Success(DeleteResult(false, Trim(updateId), 0, 0, [])), s)
  {
  }

  /** The store after a delete whose queries succeed. */
  lemma DeleteStore(updateId: string, faults: DeleteFaults, s: StoreState, x: Externals, i: nat)
    requires Trim(updateId) != "" && faults.find.None? && faults.deleteUpdate.None? && faults.remaining.None?
    requires FindRow(s.rows, Trim(updateId)) == Some(i) && s.rows[i].manifest.Some?
    ensures var r := DeletePublishedUpdate(updateId, faults, s, x);
      var removed := Removable(CollectManifestAssetFilenames(s.rows[i].manifest.value, x), ReferencedNames(WithoutRow(s.rows, Trim(updateId)), x));
      && r.result.Success?
      && r.state.store == s.store - removed
      && r.result.value.assetsDeleted == RemoveUnreferenced(CollectManifestAssetFilenames(s.rows[i].manifest.value, x),
                                                            ReferencedNames(WithoutRow(s.rows, Trim(updateId)), x), s.store).0
  {
  }

  /** The garbage collection on delete: a file is removed exactly when the
      deleted update named it, no remaining update names it and its name is
      safe; no other file changes; and the asset count is the number of
      files that were actually there. */
  lemma DeleteCollectsGarbage(updateId: string, faults: DeleteFaults, s: StoreState, x: Externals, i: nat)
    requires Trim(updateId) != "" && faults.find.None? && faults.deleteUpdate.None? && faults.remaining.None?
    requires FindRow(s.rows, Trim(updateId)) == Some(i) && s.rows[i].manifest.Some?
    ensures var r := DeletePublishedUpdate(updateId, faults, s, x);
      var remaining := WithoutRow(s.rows, Trim(updateId));
      && (forall f :: f in r.state.store <==>
            f in s.store
            && !(NameOfManifest(s.rows[i].manifest.value, x, f)
                 && SanitizeFileName(f).Success?
                 && !exists j :: 0 <= j < |remaining| && remaining[j].manifest.Some? && NameOfManifest(remaining[j].manifest.value, x, f)))
      && (forall f :: f in r.state.store ==> r.state.store[f] == s.store[f])
      && r.result.value.assetsDeleted == |s.store.Keys - r.state.store.Keys|
  {
    var manifest := s.rows[i].manifest.value;
    var candidates := CollectManifestAssetFilenames(manifest, x);
    var remaining := WithoutRow(s.rows, Trim(updateId));
    var referenced := ReferencedNames(remaining, x);
    DeleteStore(updateId, faults, s, x, i);
    var r := DeletePublishedUpdate(updateId, faults, s, x);
    var removed := Removable(candidates, referenced);
    CollectedNames(manifest, x);
    forall f ensures f in referenced <==>
        exists j :: 0 <= j < |remaining| && remaining[j].manifest.Some? && NameOfManifest(remaining[j].manifest.value, x, f) {
      ReferencedNamesSpec(remaining, x, f);
    }
    CollectedDistinct(manifest, x);
    RemoveUnreferencedCount(candidates, referenced, s.store);
    assert s.store.Keys - r.state.store.Keys == removed * s.store.Keys;
  }
}
