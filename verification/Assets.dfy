// What every engine shares: references to assets, and severities.
module Assets {
  import opened JsText

  type Id = JsString

  datatype AssetType = HostAsset | ContainerAsset | ServiceAsset | NetworkAsset

  // The source keys its maps by the string `asset_type:asset_id`. Ids are
  // UUIDs and hold no colon, so the string and the pair carry the same information.
  datatype Asset = Asset(kind: AssetType, id: Id)

  datatype Severity = Low | Medium | High | Critical

  function Rank(s: Severity): nat {
    match s
    case Low => 0
    case Medium => 1
    case High => 2
    case Critical => 3
  }

  function Worse(a: Severity, b: Severity): Severity {
    if Rank(a) >= Rank(b) then a else b
  }
}
