/** lib/services/stats-service.ts, part two: `getDashboardStats`, the
    dashboard's counts over the recent events and updates. The two queries
    (events since the start of the window, oldest first; the newest 200
    updates) are inputs; timestamps are milliseconds, and `dayKey` is the
    `yyyy-MM-dd` of a timestamp in the server's time zone. */
module StatsService {
  import opened Wrappers
  import opened Text
  import opened Sorting
  import opened Events
  import opened Updates
  import opened StatsLabels

  const DayMs: int := 24 * 60 * 60 * 1000

  datatype DayBucket = DayBucket(day: string, checks: nat, served: nat, configFetches: nat)

  /** An entry of `recentDevices`. */
  datatype RecentDevice = RecentDevice(device: string, platform: string, appVersion: string,
                                       runtimeVersion: string, os: string, lastSeen: int)

  datatype Summary = Summary(totalChecks30d: nat, checks24h: nat, updatesServed30d: nat,
                             configFetches30d: nat, uniqueDevices30d: nat, totalPublishedUpdates: nat)

  /** An entry of `latestUpdates`. */
  datatype LatestUpdate = LatestUpdate(id: string, platform: string, channel: string, runtimeVersion: string,
                                       appVersion: string, message: string, createdAt: int, assetsCount: nat)

  datatype DashboardStats = DashboardStats(
    summary: Summary,
    daily: seq<DayBucket>,
    platforms: seq<LabelCount>,
    versions: seq<LabelCount>,
    runtimes: seq<LabelCount>,
    channels: seq<LabelCount>,
    recentDevices: seq<RecentDevice>,
    latestUpdates: seq<LatestUpdate>)

  // ---------------------------------------------------------------------
  // Reference counts

  predicate IsCheck(e: EventRow) {
    e.eventType == UpdateCheck
  }

  /** The number of events of type `t`. */
  function TypeCount(events: seq<EventRow>, t: EventType): nat
    decreases |events|
  {
    if |events| == 0 then 0
    else TypeCount(events[..|events| - 1], t) + (if events[|events| - 1].eventType == t then 1 else 0)
  }

  /** The number of events of type `t` on `day`. */
  function CountOn(events: seq<EventRow>, t: EventType, day: string, dayKey: int -> string): nat
    decreases |events|
  {
    if |events| == 0 then 0
    else
      var e := events[|events| - 1];
      CountOn(events[..|events| - 1], t, day, dayKey) + (if e.eventType == t && dayKey(e.createdAt) == day then 1 else 0)
  }

  /** The number of checks strictly after `threshold`. */
  function ChecksAfter(events: seq<EventRow>, threshold: int): nat
    decreases |events|
  {
    if |events| == 0 then 0
    else
      var e := events[|events| - 1];
      ChecksAfter(events[..|events| - 1], threshold) + (if IsCheck(e) && e.createdAt > threshold then 1 else 0)
  }

  /** `event.device_id || event.ip_hash`, when truthy. */
  function Identity(e: EventRow): (r: Option<string>)
    ensures r.Some? ==> r.value != ""
    ensures Truthy(e.deviceId) ==> r == e.deviceId
  {
    if Truthy(e.deviceId) then e.deviceId else if Truthy(e.ipHash) then e.ipHash else None
  }

  /** A check by the device with identity `id`. */
  predicate IsCheckBy(e: EventRow, id: string) {
    IsCheck(e) && Identity(e) == Some(id)
  }

  /** `s.slice(0, n)`. */
  function Take<T>(s: seq<T>, n: nat): (r: seq<T>)
    ensures |r| == if |s| < n then |s| else n
    ensures r == s[..|r|]
  {
    if |s| < n then s else s[..n]
  }

  /** The device entry an event makes. */
  function DeviceEntry(e: EventRow): (d: RecentDevice)
    ensures d.lastSeen == e.createdAt
    ensures d.device != "" && d.platform != "" && d.appVersion != "" && d.runtimeVersion != "" && d.os != ""
    ensures Truthy(e.deviceId) ==> d.device == e.deviceId.value
  {
    var shortHash := if e.ipHash.Some? then Take(e.ipHash.value, 10) else "";
    var osParts := (if Truthy(e.osName) then [e.osName.value] else []) + (if Truthy(e.osVersion) then [e.osVersion.value] else []);
    var os := if |osParts| == 2 then osParts[0] + " " + osParts[1] else if |osParts| == 1 then osParts[0] else "";
    RecentDevice(
      if Truthy(e.deviceId) then e.deviceId.value else if shortHash != "" then shortHash else "Unknown",
      OrDefault(e.platform, "unknown"),
      OrDefault(e.appVersion, "unknown"),
      OrDefault(e.runtimeVersion, "unknown"),
      if os != "" then os else "unknown",
      e.createdAt)
  }

  // ---------------------------------------------------------------------
  // The loop

  /** The loop's state: the day buckets, the identities seen, the latest
      entry per identity, the identities in the order the map first
      received them, and the 24-hour count. */
  datatype Tally = Tally(buckets: map<string, DayBucket>, unique: set<string>, latest: map<string, RecentDevice>,
                         order: seq<string>, checks24h: nat)

  function Initial(dayKeys: seq<string>): Tally {
    Tally(map k | k in dayKeys :: DayBucket(k, 0, 0, 0), {}, map[], [], 0)
  }

  /** The bucket of the event's day, if the window has one, counts it. */
  function Bump(buckets: map<string, DayBucket>, day: string, t: EventType): (r: map<string, DayBucket>)
    ensures r.Keys == buckets.Keys
    ensures forall k :: k in buckets && k != day ==> r[k] == buckets[k]
    ensures day in buckets ==> r[day] == buckets[day].(checks := buckets[day].checks + (if t == UpdateCheck then 1 else 0),
                                                       served := buckets[day].served + (if t == UpdateServed then 1 else 0),
                                                       configFetches := buckets[day].configFetches + (if t == ConfigFetch then 1 else 0))
  {
    if day !in buckets then buckets
    else
      var b := buckets[day];
      buckets[day := b.(checks := b.checks + (if t == UpdateCheck then 1 else 0),
                        served := b.served + (if t == UpdateServed then 1 else 0),
                        configFetches := b.configFetches + (if t == ConfigFetch then 1 else 0))]
  }

  /** A check by a device: the identity is recorded, and the device entry
      replaced only by a strictly later event. */
  function SeeDevice(t: Tally, e: EventRow, id: string): (r: Tally)
    ensures r.buckets == t.buckets && r.checks24h == t.checks24h
    ensures r.unique == t.unique + {id} && r.latest.Keys == t.latest.Keys + {id}
    ensures forall k :: k in t.latest && k != id ==> r.latest[k] == t.latest[k]
    ensures r.latest[id] == if id !in t.latest || t.latest[id].lastSeen < e.createdAt then DeviceEntry(e) else t.latest[id]
    ensures r.order == if id in t.latest then t.order else t.order + [id]
  {
    var replace := id !in t.latest || t.latest[id].lastSeen < e.createdAt;
    t.(unique := t.unique + {id},
       latest := if replace then t.latest[id := DeviceEntry(e)] else t.latest,
       order := if id in t.latest then t.order else t.order + [id])
  }

  /** One iteration of the loop over the events. */
  function Step(t: Tally, e: EventRow, dayKey: int -> string, threshold: int): Tally {
    var counted := t.(buckets := Bump(t.buckets, dayKey(e.createdAt), e.eventType),
                      checks24h := t.checks24h + (if IsCheck(e) && e.createdAt > threshold then 1 else 0));
    if IsCheck(e) && Identity(e).Some? then SeeDevice(counted, e, Identity(e).value) else counted
  }

  /** The loop over the events, oldest first. Each day's bucket holds the
      number of checks, serves and config fetches on that day; the 24-hour
      count is the number of checks after the threshold; the identities
      seen are the keys of the device map, listed once each in `order`. */
  function Aggregate(events: seq<EventRow>, dayKeys: seq<string>, dayKey: int -> string, threshold: int): (t: Tally)
    ensures t.buckets.Keys == set k | k in dayKeys
    ensures forall k :: k in t.buckets ==>
              t.buckets[k] == DayBucket(k, CountOn(events, UpdateCheck, k, dayKey), CountOn(events, UpdateServed, k, dayKey),
                                        CountOn(events, ConfigFetch, k, dayKey))
    ensures t.checks24h == ChecksAfter(events, threshold)
    ensures t.unique == t.latest.Keys
    ensures forall i :: 0 <= i < |t.order| ==> t.order[i] in t.latest
    ensures forall id :: id in t.latest ==> id in t.order
    ensures forall i, j :: 0 <= i < j < |t.order| ==> t.order[i] != t.order[j]
    decreases |events|
  {
    if |events| == 0 then Initial(dayKeys)
    else
      var t0 := Aggregate(events[..|events| - 1], dayKeys, dayKey, threshold);
      StepKeepsDevices(t0, events[|events| - 1], dayKey, threshold);
      BumpCounts(t0.buckets, events, dayKey);
      Step(t0, events[|events| - 1], dayKey, threshold)
  }

  /** Bumping the buckets of the events before the last by the last event
      gives the buckets of all of them. */
  lemma BumpCounts(buckets: map<string, DayBucket>, events: seq<EventRow>, dayKey: int -> string)
    requires |events| > 0
    requires forall k :: k in buckets ==>
              var p := events[..|events| - 1];
              buckets[k] == DayBucket(k, CountOn(p, UpdateCheck, k, dayKey), CountOn(p, UpdateServed, k, dayKey),
                                      CountOn(p, ConfigFetch, k, dayKey))
    ensures var e := events[|events| - 1];
      var r := Bump(buckets, dayKey(e.createdAt), e.eventType);
      forall k :: k in r ==>
        r[k] == DayBucket(k, CountOn(events, UpdateCheck, k, dayKey), CountOn(events, UpdateServed, k, dayKey),
                          CountOn(events, ConfigFetch, k, dayKey))
  {
  }

  /** An iteration counts the event in its day's bucket and keeps the
      device map, its key set and the order of first sightings in step. */
  lemma StepKeepsDevices(t: Tally, e: EventRow, dayKey: int -> string, threshold: int)
    requires t.unique == t.latest.Keys
    requires forall i :: 0 <= i < |t.order| ==> t.order[i] in t.latest
    requires forall id :: id in t.latest ==> id in t.order
    requires forall i, j :: 0 <= i < j < |t.order| ==> t.order[i] != t.order[j]
    ensures var r := Step(t, e, dayKey, threshold);
      && r.buckets == Bump(t.buckets, dayKey(e.createdAt), e.eventType)
      && r.checks24h == t.checks24h + (if IsCheck(e) && e.createdAt > threshold then 1 else 0)
      && r.unique == r.latest.Keys
      && (forall i :: 0 <= i < |r.order| ==> r.order[i] in r.latest)
      && (forall id :: id in r.latest ==> id in r.order)
      && (forall i, j :: 0 <= i < j < |r.order| ==> r.order[i] != r.order[j])
  {
  }

  // ---------------------------------------------------------------------
  // The latest entry per device

  /** Event `j` is the device's latest check, and the first one at that
      time: earlier checks by it are strictly older, later ones no newer. */
  predicate LatestFor(events: seq<EventRow>, id: string, j: int) {
    && 0 <= j < |events| && IsCheckBy(events[j], id)
    && (forall i :: 0 <= i < j && IsCheckBy(events[i], id) ==> events[i].createdAt < events[j].createdAt)
    && (forall i :: j < i < |events| && IsCheckBy(events[i], id) ==> events[i].createdAt <= events[j].createdAt)
  }

  /** What one iteration does to the entry of `id`. */
  lemma StepLatest(t: Tally, e: EventRow, dayKey: int -> string, threshold: int, id: string)
    ensures var r := Step(t, e, dayKey, threshold);
      && (IsCheckBy(e, id) ==>
            id in r.latest && r.latest[id] == if id !in t.latest || t.latest[id].lastSeen < e.createdAt then DeviceEntry(e) else t.latest[id])
      && (!IsCheckBy(e, id) ==> (id in r.latest <==> id in t.latest) && (id in t.latest ==> r.latest[id] == t.latest[id]))
  {
  }

  /** The device map holds exactly the identities of the checks. */
  lemma {:induction false} DevicesSeen(events: seq<EventRow>, dayKeys: seq<string>, dayKey: int -> string,
                                       threshold: int, id: string)
    ensures id in Aggregate(events, dayKeys, dayKey, threshold).latest <==> exists i :: 0 <= i < |events| && IsCheckBy(events[i], id)
    decreases |events|
  {
    if |events| > 0 {
      var n := |events|;
      var p := events[..n - 1];
      var t0, e := Aggregate(p, dayKeys, dayKey, threshold), events[n - 1];
      var r := Aggregate(events, dayKeys, dayKey, threshold);
      assert r == Step(t0, e, dayKey, threshold);
      DevicesSeen(p, dayKeys, dayKey, threshold, id);
      StepLatest(t0, e, dayKey, threshold, id);
      assert forall i :: 0 <= i < n - 1 ==> p[i] == events[i];
      if id in r.latest {
        if IsCheckBy(e, id) {
          assert IsCheckBy(events[n - 1], id);
        } else {
          var i :| 0 <= i < |p| && IsCheckBy(p[i], id);
          assert IsCheckBy(events[i], id);
        }
      }
      if exists i :: 0 <= i < n && IsCheckBy(events[i], id) {
        var i :| 0 <= i < n && IsCheckBy(events[i], id);
        if i < n - 1 { assert IsCheckBy(p[i], id); }
      }
    }
  }

  /** The first check by a device is its latest so far. */
  lemma LatestForFirst(p: seq<EventRow>, e: EventRow, id: string)
    requires forall i :: 0 <= i < |p| ==> !IsCheckBy(p[i], id)
    requires IsCheckBy(e, id)
    ensures LatestFor(p + [e], id, |p|)
  {
    assert forall i :: 0 <= i < |p| ==> (p + [e])[i] == p[i];
  }

  /** One more event: a strictly later check by the device takes over,
      anything else leaves the latest check where it was. */
  lemma LatestForSnoc(p: seq<EventRow>, e: EventRow, id: string, j: int)
    requires LatestFor(p, id, j)
    ensures IsCheckBy(e, id) && p[j].createdAt < e.createdAt ==> LatestFor(p + [e], id, |p|)
    ensures !(IsCheckBy(e, id) && p[j].createdAt < e.createdAt) ==> LatestFor(p + [e], id, j)
  {
    var s := p + [e];
    assert forall i :: 0 <= i < |p| ==> s[i] == p[i];
    if IsCheckBy(e, id) && p[j].createdAt < e.createdAt {
      forall i | 0 <= i < |p| && IsCheckBy(s[i], id) ensures s[i].createdAt < e.createdAt {
        assert s[i].createdAt <= p[j].createdAt;
      }
    }
  }

  /** Each identity's entry is made from its latest check; of several
      checks at the same latest time, the first. */
  lemma {:induction false} LatestDeviceIsLatestCheck(events: seq<EventRow>, dayKeys: seq<string>, dayKey: int -> string,
                                                     threshold: int, id: string)
    requires |events| > 0 && id in Aggregate(events, dayKeys, dayKey, threshold).latest
    ensures exists j :: LatestFor(events, id, j) && Aggregate(events, dayKeys, dayKey, threshold).latest[id] == DeviceEntry(events[j])
    decreases |events|
  {
    var n := |events|;
    var p := events[..n - 1];
    var e := events[n - 1];
    assert events == p + [e];
    var tp := Aggregate(p, dayKeys, dayKey, threshold);
    StepLatest(tp, e, dayKey, threshold, id);
    if id !in tp.latest {
      DevicesSeen(p, dayKeys, dayKey, threshold, id);
      LatestForFirst(p, e, id);
    } else {
      assert |p| > 0;
      LatestDeviceIsLatestCheck(p, dayKeys, dayKey, threshold, id);
      var j :| LatestFor(p, id, j) && tp.latest[id] == DeviceEntry(p[j]);
      LatestForSnoc(p, e, id, j);
      assert events[j] == p[j];
    }
  }

  // ---------------------------------------------------------------------
  // Daily totals

  /** The checks of the days `keys`, added up. */
  function SumChecks(keys: seq<string>, events: seq<EventRow>, dayKey: int -> string): nat {
    if |keys| == 0 then 0 else CountOn(events, UpdateCheck, keys[0], dayKey) + SumChecks(keys[1..], events, dayKey)
  }

  lemma {:induction false} SumChecksSnoc(keys: seq<string>, events: seq<EventRow>, e: EventRow, dayKey: int -> string)
    ensures SumChecks(keys, events + [e], dayKey)
         == SumChecks(keys, events, dayKey) + (if IsCheck(e) then Hits(keys, dayKey(e.createdAt)) else 0)
    decreases |keys|
  {
    assert (events + [e])[..|events + [e]| - 1] == events;
    if |keys| > 0 {
      SumChecksSnoc(keys[1..], events, e, dayKey);
    }
  }

  lemma {:induction false} SumChecksNoEvents(keys: seq<string>, events: seq<EventRow>, dayKey: int -> string)
    requires |events| == 0
    ensures SumChecks(keys, events, dayKey) == 0
    decreases |keys|
  {
    if |keys| > 0 {
      SumChecksNoEvents(keys[1..], events, dayKey);
    }
  }

  /** Over distinct days, no check is counted twice: the days' checks add
      up to at most the number of checks. */
  lemma {:induction false} SumChecksBounded(keys: seq<string>, events: seq<EventRow>, dayKey: int -> string)
    requires forall i, j :: 0 <= i < j < |keys| ==> keys[i] != keys[j]
    ensures SumChecks(keys, events, dayKey) <= TypeCount(events, UpdateCheck)
    decreases |events|
  {
    if |events| > 0 {
      var p := events[..|events| - 1];
      var e := events[|events| - 1];
      assert events == p + [e];
      SumChecksBounded(keys, p, dayKey);
      SumChecksSnoc(keys, p, e, dayKey);
      HitsDistinct(keys, dayKey(e.createdAt));
      assert TypeCount(events, UpdateCheck) == TypeCount(p, UpdateCheck) + (if IsCheck(e) then 1 else 0);
    } else {
      SumChecksNoEvents(keys, events, dayKey);
    }
  }

  function TotalChecks(daily: seq<DayBucket>): nat {
    if |daily| == 0 then 0 else daily[0].checks + TotalChecks(daily[1..])
  }

  // ---------------------------------------------------------------------
  // The dashboard

  /** The checks among the events, in order. */
  function Checks(events: seq<EventRow>): (r: seq<EventRow>)
    ensures |r| == TypeCount(events, UpdateCheck)
    ensures forall e :: e in r ==> IsCheck(e) && e in events
    ensures forall e :: multiset(r)[e] == if IsCheck(e) then multiset(events)[e] else 0
    decreases |events|
  {
    if |events| == 0 then []
    else
      var p := events[..|events| - 1];
      var e := events[|events| - 1];
      assert events == p + [e];
      assert forall x :: x in p ==> x in events;
      Checks(p) + (if IsCheck(e) then [e] else [])
  }

  /** `new Date(b.lastSeen) - new Date(a.lastSeen)`: later first. */
  function SeenLater(): ((RecentDevice, RecentDevice) -> bool) {
    (a: RecentDevice, b: RecentDevice) => a.lastSeen > b.lastSeen
  }

  /** The message shown for an update without one, spelled as in the
      source: the UTF-8 bytes of `ó` read as two Latin-1 characters. */
  const NoMessage: string := "Sin descripci\U{00C3}\U{00B3}n"

  function ToLatestUpdate(u: UpdateRow): (v: LatestUpdate)
    ensures v.appVersion == OrDefault(u.appVersion, "N/A") && v.message == OrDefault(u.message, NoMessage)
    ensures v.id == u.id && v.platform == PlatformName(u.platform) && v.createdAt == u.createdAt && v.assetsCount == u.assetsCount
  {
    LatestUpdate(u.id, PlatformName(u.platform), u.channel, u.runtimeVersion,
                 OrDefault(u.appVersion, "N/A"), OrDefault(u.message, NoMessage), u.createdAt, u.assetsCount)
  }

  /** The field of every check, in order: `updateChecks.map(...)`. */
  function FieldValues(checks: seq<EventRow>, field: EventRow -> Option<string>): (vs: seq<Option<string>>)
    ensures |vs| == |checks| && forall i :: 0 <= i < |checks| ==> vs[i] == field(checks[i])
  {
    seq(|checks|, i requires 0 <= i < |checks| => field(checks[i]))
  }

  /** One dashboard breakdown, `countByLabel(...).slice(0, cap)`: at most
      `cap` distinct labels of the checks' field, each with the number of
      checks carrying it, most frequent first; a label left out is no more
      frequent than any label kept. */
  function Breakdown(checks: seq<EventRow>, field: EventRow -> Option<string>, fallback: string, cap: nat): (r: seq<LabelCount>)
    ensures var ls := Labels(FieldValues(checks, field), fallback);
      && |r| == (if |FirstAppearance(ls)| < cap then |FirstAppearance(ls)| else cap)
      && (forall e :: e in r ==> e.value == Occurrences(ls, e.name) && e.value > 0)
      && (forall i, j :: 0 <= i < j < |r| ==> r[i].name != r[j].name && r[i].value >= r[j].value)
      && (forall l, e :: l in ls && e in r && (forall d :: d in r ==> d.name != l) ==> Occurrences(ls, l) <= e.value)
  {
    var values := FieldValues(checks, field);
    var all := CountByLabel(values, fallback);
    CountByLabelSpec(values, fallback);
    TakeKeepsTop(all, Labels(values, fallback), cap);
    Take(all, cap)
  }

  /** The first `cap` entries of a most-frequent-first counting that covers
      every label keep the distinct names and the order, and no label outside
      them counts more than an entry inside. */
  lemma TakeKeepsTop(all: seq<LabelCount>, ls: seq<string>, cap: nat)
    requires forall l :: l in ls ==> exists e :: e in all && e.name == l
    requires forall e :: e in all ==> e.value == Occurrences(ls, e.name)
    requires forall i, j :: 0 <= i < j < |all| ==> all[i].name != all[j].name
    requires SortedBy(all, MoreFrequent())
    ensures var r := Take(all, cap);
      && (forall i, j :: 0 <= i < j < |r| ==> r[i].name != r[j].name && r[i].value >= r[j].value)
      && (forall l, e :: l in ls && e in r && (forall d :: d in r ==> d.name != l) ==> Occurrences(ls, l) <= e.value)
  {
    var r := Take(all, cap);
    forall i, j | 0 <= i < j < |r|
      ensures r[i].name != r[j].name && r[i].value >= r[j].value
    {
      assert r[i] == all[i] && r[j] == all[j];
      assert !MoreFrequent()(all[j], all[i]);
    }
    forall l, e | l in ls && e in r && (forall d :: d in r ==> d.name != l)
      ensures Occurrences(ls, l) <= e.value
    {
      var c :| c in all && c.name == l;
      var k :| 0 <= k < |all| && all[k] == c;
      var i :| 0 <= i < |r| && r[i] == e;
      assert all[i] == e;
      assert k >= |r|;
      assert !MoreFrequent()(all[k], all[i]);
    }
  }

  /** The device entries in map order. */
  function DeviceValues(t: Tally): (vs: seq<RecentDevice>)
    requires forall i :: 0 <= i < |t.order| ==> t.order[i] in t.latest
  {
    seq(|t.order|, i requires 0 <= i < |t.order| => t.latest[t.order[i]])
  }

  /** `getDashboardStats` over the two query results (`eventError`,
      `updateError`: the queries' errors, if they fail) at time `now`. */
  function GetDashboardStats(events: seq<EventRow>, updates: seq<UpdateRow>, eventError: Option<string>, updateError: Option<string>,
                             dayKeys: seq<string>, dayKey: int -> string, now: int): (r: Result<DashboardStats, string>)
    ensures eventError.Some? ==> r == Failure("Unable to load event data: " + eventError.value)
    ensures eventError.None? && updateError.Some? ==> r == Failure("Unable to load updates data: " + updateError.value)
    ensures r.Success? <==> eventError.None? && updateError.None?
    ensures r.Success? ==>
              var s := r.value.summary;
              && s.totalChecks30d == TypeCount(events, UpdateCheck)
              && s.checks24h == ChecksAfter(events, now - DayMs)
              && s.updatesServed30d == TypeCount(events, UpdateServed)
              && s.configFetches30d == TypeCount(events, ConfigFetch)
              && s.totalPublishedUpdates == |updates|
    ensures r.Success? ==>
              && |r.value.daily| == |dayKeys|
              && forall i :: 0 <= i < |dayKeys| ==>
                   r.value.daily[i] == DayBucket(dayKeys[i], CountOn(events, UpdateCheck, dayKeys[i], dayKey),
                                                 CountOn(events, UpdateServed, dayKeys[i], dayKey),
                                                 CountOn(events, ConfigFetch, dayKeys[i], dayKey))
    ensures r.Success? ==>
              && |r.value.platforms| <= 6 && |r.value.versions| <= 8 && |r.value.runtimes| <= 8 && |r.value.channels| <= 6
              && r.value.recentDevices == RecentDevices(Aggregate(events, dayKeys, dayKey, now - DayMs))
              && |r.value.latestUpdates| == (if |updates| < 12 then |updates| else 12)
              && forall i :: 0 <= i < |r.value.latestUpdates| ==> r.value.latestUpdates[i] == ToLatestUpdate(updates[i])
  {
    if eventError.Some? then Failure("Unable to load event data: " + eventError.value)
    else if updateError.Some? then Failure("Unable to load updates data: " + updateError.value)
    else
      var t := Aggregate(events, dayKeys, dayKey, now - DayMs);
      var checks := Checks(events);
      Success(DashboardStats(
        Summary(|checks|, t.checks24h, TypeCount(events, UpdateServed), TypeCount(events, ConfigFetch), |t.unique|, |updates|),
        DailyOf(t, events, dayKeys, dayKey, now - DayMs),
        Breakdown(checks, (e: EventRow) => e.platform, "unknown", 6),
        Breakdown(checks, (e: EventRow) => e.appVersion, "unknown", 8),
        Breakdown(checks, (e: EventRow) => e.runtimeVersion, "unknown", 8),
        Breakdown(checks, (e: EventRow) => e.channel, "production", 6),
        RecentDevices(t),
        LatestUpdates(updates)))
  }

  /** The daily series: one bucket per day key, in the order of the keys. */
  function DailyOf(t: Tally, events: seq<EventRow>, dayKeys: seq<string>, dayKey: int -> string, threshold: int): (d: seq<DayBucket>)
    requires t == Aggregate(events, dayKeys, dayKey, threshold)
    ensures |d| == |dayKeys|
    ensures forall i :: 0 <= i < |dayKeys| ==>
              d[i] == DayBucket(dayKeys[i], CountOn(events, UpdateCheck, dayKeys[i], dayKey),
                                CountOn(events, UpdateServed, dayKeys[i], dayKey),
                                CountOn(events, ConfigFetch, dayKeys[i], dayKey))
  {
    seq(|dayKeys|, i requires 0 <= i < |dayKeys| => t.buckets[dayKeys[i]])
  }

  /** The newest twelve updates, as listed. */
  function LatestUpdates(updates: seq<UpdateRow>): (l: seq<LatestUpdate>)
    ensures |l| == if |updates| < 12 then |updates| else 12
    ensures forall i :: 0 <= i < |l| ==> l[i] == ToLatestUpdate(updates[i])
  {
    var shown := Take(updates, 12);
    seq(|shown|, i requires 0 <= i < |shown| => ToLatestUpdate(shown[i]))
  }

  /** The identities of the checks (`uniqueDevices`). */
  function IdentitiesOf(events: seq<EventRow>): set<string> {
    set i | 0 <= i < |events| && IsCheck(events[i]) && Identity(events[i]).Some? :: Identity(events[i]).value
  }

  lemma {:induction false} TotalChecksOfDays(d: seq<DayBucket>, keys: seq<string>, events: seq<EventRow>, dayKey: int -> string)
    requires |d| == |keys|
    requires forall i :: 0 <= i < |keys| ==> d[i].checks == CountOn(events, UpdateCheck, keys[i], dayKey)
    ensures TotalChecks(d) == SumChecks(keys, events, dayKey)
    decreases |keys|
  {
    if |keys| > 0 {
      TotalChecksOfDays(d[1..], keys[1..], events, dayKey);
    }
  }

  /** Over distinct day keys, the daily checks add up to at most the
      30-day total: an event outside every bucket is counted only in the
      total. */
  lemma DailyChecksAtMostTotal(events: seq<EventRow>, updates: seq<UpdateRow>, dayKeys: seq<string>, dayKey: int -> string, now: int)
    requires forall i, j :: 0 <= i < j < |dayKeys| ==> dayKeys[i] != dayKeys[j]
    ensures var r := GetDashboardStats(events, updates, None, None, dayKeys, dayKey, now).value;
      TotalChecks(r.daily) <= r.summary.totalChecks30d
  {
    var r := GetDashboardStats(events, updates, None, None, dayKeys, dayKey, now).value;
    TotalChecksOfDays(r.daily, dayKeys, events, dayKey);
    SumChecksBounded(dayKeys, events, dayKey);
  }

  /** The entries `recentDevices` lists: the device map's values, newest
      first (ties in map order), at most ten. */
  function RecentDevices(t: Tally): (rd: seq<RecentDevice>)
    requires forall i :: 0 <= i < |t.order| ==> t.order[i] in t.latest
    ensures |rd| <= 10
    ensures forall d :: d in rd ==> exists k :: 0 <= k < |t.order| && d == t.latest[t.order[k]]
  {
    var values := DeviceValues(t);
    var sorted := SortBy(values, SeenLater());
    forall d | d in Take(sorted, 10) ensures exists k :: 0 <= k < |t.order| && d == t.latest[t.order[k]] {
      assert d in multiset(values);
      var k :| 0 <= k < |values| && values[k] == d;
    }
    Take(sorted, 10)
  }

  /** The unique-device count is the number of distinct identities among
      the checks. */
  lemma UniqueDevicesCount(events: seq<EventRow>, updates: seq<UpdateRow>, dayKeys: seq<string>, dayKey: int -> string, now: int)
    ensures GetDashboardStats(events, updates, None, None, dayKeys, dayKey, now).value.summary.uniqueDevices30d
         == |IdentitiesOf(events)|
  {
    var threshold := now - DayMs;
    var t := Aggregate(events, dayKeys, dayKey, threshold);
    forall id ensures id in t.unique <==> id in IdentitiesOf(events) {
      DevicesSeen(events, dayKeys, dayKey, threshold, id);
      if id in IdentitiesOf(events) {
        var i :| 0 <= i < |events| && IsCheck(events[i]) && Identity(events[i]).Some? && Identity(events[i]).value == id;
        assert IsCheckBy(events[i], id);
      }
    }
    assert t.unique == IdentitiesOf(events);
  }

  /** The recent devices are newest first, each the entry of some device's
      latest check, and they are the ten devices seen last: there are ten
      of them unless fewer devices were seen, and no device left out was
      seen later than one listed. */
  lemma RecentDevicesAreLatest(events: seq<EventRow>, dayKeys: seq<string>, dayKey: int -> string, threshold: int)
    ensures var t := Aggregate(events, dayKeys, dayKey, threshold);
      var rd := RecentDevices(t);
      && (forall i, j :: 0 <= i < j < |rd| ==> rd[i].lastSeen >= rd[j].lastSeen)
      && (forall d :: d in rd ==> exists id, j :: LatestFor(events, id, j) && d == DeviceEntry(events[j]))
      && |rd| == (if |t.order| < 10 then |t.order| else 10)
      && (forall e, d :: e in multiset(DeviceValues(t)) - multiset(rd) && d in rd ==> e.lastSeen <= d.lastSeen)
  {
    var t := Aggregate(events, dayKeys, dayKey, threshold);
    var rd := RecentDevices(t);
    RecentDevicesSelected(t);
    forall d | d in rd ensures exists id, j :: LatestFor(events, id, j) && d == DeviceEntry(events[j]) {
      var k :| 0 <= k < |t.order| && d == t.latest[t.order[k]];
      assert |events| > 0;
      LatestDeviceIsLatestCheck(events, dayKeys, dayKey, threshold, t.order[k]);
    }
  }

  /** The recent devices of a device map: newest first, ten of them unless
      fewer devices are known, and none left out seen later than one kept. */
  lemma RecentDevicesSelected(t: Tally)
    requires forall i :: 0 <= i < |t.order| ==> t.order[i] in t.latest
    ensures var rd := RecentDevices(t);
      && (forall i, j :: 0 <= i < j < |rd| ==> rd[i].lastSeen >= rd[j].lastSeen)
      && |rd| == (if |t.order| < 10 then |t.order| else 10)
      && (forall e, d :: e in multiset(DeviceValues(t)) - multiset(rd) && d in rd ==> e.lastSeen <= d.lastSeen)
  {
    var rd := RecentDevices(t);
    var sorted := SortBy(DeviceValues(t), SeenLater());
    var n := |rd|;
    assert rd == sorted[..n];
    SortBySorted(DeviceValues(t), SeenLater());
    forall i, j | 0 <= i < j < n ensures rd[i].lastSeen >= rd[j].lastSeen {
      assert !SeenLater()(sorted[j], sorted[i]);
    }
    SplitMultiset(sorted, n);
    SortedSplit(sorted, n, SeenLater());
    forall e, d | e in multiset(DeviceValues(t)) - multiset(rd) && d in rd ensures e.lastSeen <= d.lastSeen {
      assert e in multiset(sorted[n..]);
      assert !SeenLater()(e, d);
    }
  }
}
