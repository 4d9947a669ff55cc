/** lib/services/config-service.ts: the remote configuration the app
    fetches, kept in row 1 of `app_config`, with every change appended to
    `app_config_history`. lib/default-config.ts supplies the seed. */
module ConfigService {
  import opened Wrappers

  /** A JSON value. */
  datatype Json =
    | JNull
    | JBool(b: bool)
    | JNumber(n: real)
    | JString(s: string)
    | JArray(items: seq<Json>)
    | JObject(fields: map<string, Json>)

  /** `RemoteConfig`: a JSON object. */
  type RemoteConfig = map<string, Json>

  /** `defaultConfig`. */
  const DefaultConfig: RemoteConfig := map[
    "forceUpdate" := JObject(map["enabled" := JBool(false), "minVersionIOS" := JString("2.0.0"),
                                 "minVersionAndroid" := JString("2.0.0")]),
    "features" := JObject(map["reviewEmailSignInEnabled" := JBool(true)]),
    "lastUpdated" := JString("2026-01-22T12:00:00Z")]

  /** One `app_config_history` row. */
  datatype HistoryEntry = HistoryEntry(config: RemoteConfig, previousConfig: RemoteConfig, updatedBy: Option<string>, createdAt: string)

  /** Row 1 of `app_config` (its `config` column and `updated_at`; `None`
      when the row does not exist) and the history table. */
  datatype ConfigState = ConfigState(config: Option<Json>, updatedAt: Option<string>, history: seq<HistoryEntry>)

  /** The errors the database reports, if any, for each statement. */
  datatype ConfigFaults = ConfigFaults(load: Option<string>, seed: Option<string>, persist: Option<string>, history: Option<string>)

  datatype ConfigOutcome = ConfigOutcome(result: Result<RemoteConfig, string>, state: ConfigState)

  /** `withLastUpdated`: the configuration with `lastUpdated` set to the
      given ISO timestamp and every other member as it was. */
  function WithLastUpdated(config: RemoteConfig, stamp: string): (r: RemoteConfig)
    ensures r.Keys == config.Keys + {"lastUpdated"}
    ensures r["lastUpdated"] == JString(stamp)
    ensures forall k :: k in config && k != "lastUpdated" ==> r[k] == config[k]
  {
    config["lastUpdated" := JString(stamp)]
  }

  /** Stamping twice keeps only the later stamp. */
  lemma StampTwice(config: RemoteConfig, first: string, second: string)
    ensures WithLastUpdated(WithLastUpdated(config, first), second) == WithLastUpdated(config, second)
  {
    var a := WithLastUpdated(WithLastUpdated(config, first), second);
    var b := WithLastUpdated(config, second);
    assert a.Keys == b.Keys;
    forall k | k in a ensures a[k] == b[k] {}
  }

  /** `isRemoteConfig`: an object, not `null`, not an array. */
  predicate IsRemoteConfig(v: Json) {
    v.JObject?
  }

  /** `!data?.config || !isRemoteConfig(data.config)`: no row, or a stored
      value that is falsy or not an object. The falsy JSON values are none
      of them objects, so only an object is kept. */
  predicate NeedsSeed(stored: Option<Json>) {
    stored.None? || !IsRemoteConfig(stored.value)
  }

  /** `getRemoteConfig`; `stamp` is the clock's ISO time for the seeded
      configuration, `now` the one for `updated_at`. */
  function GetRemoteConfig(s: ConfigState, faults: ConfigFaults, stamp: string, now: string): (r: ConfigOutcome)
    ensures faults.load.Some? ==> r == ConfigOutcome(Failure("Unable to load config: " + faults.load.value), s)
    ensures faults.load.None? && !NeedsSeed(s.config) ==> r == ConfigOutcome(Success(s.config.value.fields), s)
    ensures faults.load.None? && NeedsSeed(s.config) && faults.seed.Some? ==>
              r == ConfigOutcome(Failure("Unable to seed config: " + faults.seed.value), s)
    ensures faults.load.None? && NeedsSeed(s.config) && faults.seed.None? ==>
              && r.result == Success(WithLastUpdated(DefaultConfig, stamp))
              && r.state == s.(config := Some(JObject(r.result.value)), updatedAt := Some(now))
    ensures r.state.history == s.history
  {
    if faults.load.Some? then ConfigOutcome(Failure("Unable to load config: " + faults.load.value), s)
    else if NeedsSeed(s.config) then
      var seeded := WithLastUpdated(DefaultConfig, stamp);
      if faults.seed.Some? then ConfigOutcome(Failure("Unable to seed config: " + faults.seed.value), s)
      else ConfigOutcome(Success(seeded), s.(config := Some(JObject(seeded)), updatedAt := Some(now)))
    else ConfigOutcome(Success(s.config.value.fields), s)
  }

  /** Reading after a seed returns the seeded configuration and writes
      nothing more. */
  lemma SeedThenRead(s: ConfigState, faults: ConfigFaults, stamp: string, now: string, stamp2: string, now2: string)
    requires faults.load.None? && faults.seed.None?
    ensures var first := GetRemoteConfig(s, faults, stamp, now);
      var second := GetRemoteConfig(first.state, faults, stamp2, now2);
      second.result == first.result && second.state == first.state
  {
  }

  /** `updateRemoteConfig`: reads the current configuration (seeding it if
      need be, with `seedStamp` and `seedNow`), stores the input stamped
      with `stamp`, then records the change in the history at `now`; a
      history failure is only logged. `JSON.parse(JSON.stringify(v))` is
      the identity on JSON values. */
  function UpdateRemoteConfig(next: RemoteConfig, actor: Option<string>, s: ConfigState, faults: ConfigFaults,
                              seedStamp: string, seedNow: string, stamp: string, now: string): (r: ConfigOutcome)
    ensures r.result.Success? ==> r.result.value == WithLastUpdated(next, stamp)
    ensures r.result.Success? ==> r.state.config == Some(JObject(r.result.value)) && r.state.updatedAt == Some(now)
    ensures r.result.Success? && faults.history.None? ==>
              && |r.state.history| == |s.history| + 1 && r.state.history[..|s.history|] == s.history
              && r.state.history[|s.history|].config == r.result.value
              && GetRemoteConfig(s, faults, seedStamp, seedNow).result.Success?
              && r.state.history[|s.history|].previousConfig == GetRemoteConfig(s, faults, seedStamp, seedNow).result.value
              && r.state.history[|s.history|].updatedBy == actor
    ensures r.result.Success? && faults.history.Some? ==> r.state.history == s.history
    ensures r.result.Failure? ==> r.state.history == s.history
    ensures faults.load.None? && faults.persist.Some? && !(NeedsSeed(s.config) && faults.seed.Some?) ==>
              r.result == Failure("Unable to persist config: " + faults.persist.value)
  {
    var current := GetRemoteConfig(s, faults, seedStamp, seedNow);
    match current.result
    case Failure(e) => ConfigOutcome(Failure(e), current.state)
    case Success(previous) =>
      var updated := WithLastUpdated(next, stamp);
      if faults.persist.Some? then ConfigOutcome(Failure("Unable to persist config: " + faults.persist.value), current.state)
      else
        var stored := current.state.(config := Some(JObject(updated)), updatedAt := Some(now));
        if faults.history.Some? then ConfigOutcome(Success(updated), stored)
        else ConfigOutcome(Success(updated), stored.(history := stored.history + [HistoryEntry(updated, previous, actor, now)]))
  }

  /** A successful update is what a following read returns. */
  lemma UpdateThenRead(next: RemoteConfig, actor: Option<string>, s: ConfigState, faults: ConfigFaults,
                       seedStamp: string, seedNow: string, stamp: string, now: string, stamp2: string, now2: string)
    requires UpdateRemoteConfig(next, actor, s, faults, seedStamp, seedNow, stamp, now).result.Success?
    requires faults.load.None?
    ensures var u := UpdateRemoteConfig(next, actor, s, faults, seedStamp, seedNow, stamp, now);
      GetRemoteConfig(u.state, faults, stamp2, now2) == ConfigOutcome(u.result, u.state)
  {
  }
}
