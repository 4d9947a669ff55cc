/** lib/services/events-service.ts: the analytics events the routes record
    and the dashboard reads back (the `expo_events` table). */
module Events {
  import opened Wrappers

  /** `EventType`. */
  datatype EventType = UpdateCheck | UpdateServed | UpdateNone | AssetDownload | ConfigFetch | Custom

  function EventTypeName(t: EventType): string {
    match t
    case UpdateCheck => "update_check"
    case UpdateServed => "update_served"
    case UpdateNone => "update_none"
    case AssetDownload => "asset_download"
    case ConfigFetch => "config_fetch"
    case Custom => "custom"
  }

  /** The `details` object of the events the routes record. */
  datatype EventDetails =
    | NoDetails
    | CheckDetails(expectSignature: bool)
    | NoneDetails(reason: string)
    | ServedDetails(launchAsset: string, assetsCount: nat)
    | DownloadDetails(file: string, contentType: string, size: nat)

  /** One `expo_events` row; `createdAt` is a millisecond timestamp. */
  datatype EventRow = EventRow(
    eventType: EventType,
    platform: Option<string>,
    runtimeVersion: Option<string>,
    channel: Option<string>,
    appVersion: Option<string>,
    deviceId: Option<string>,
    ipHash: Option<string>,
    osName: Option<string>,
    osVersion: Option<string>,
    deviceModel: Option<string>,
    updateId: Option<string>,
    createdAt: int,
    details: EventDetails)

  /** An event carrying only a type, an IP hash and details. */
  function BareEvent(t: EventType, ipHash: Option<string>, createdAt: int, details: EventDetails): EventRow {
    EventRow(t, None, None, None, None, None, ipHash, None, None, None, None, createdAt, details)
  }
}
