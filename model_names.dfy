/**
 * `ModelNameHelper`: the friendly name shown for a radio's hardware model.
 * Four hardware ids are renamed; any other name is shown as it is, and a
 * missing name becomes "Unknown Unit".
 */
module ModelNameHelper {
  import opened KotlinText

  /** The renaming table, hardware id to friendly name. */
  const Renamed: map<string, string> := map[
    "LILYGO_TBEAM_S3_CORE" := "Defend_Dynamix_Soldier_Unit",
    "TBEAM" := "Standard Unit",
    "HELTEC_V3" := "Commander Radio",
    "RAK4631" := "Scout Unit"]

  const UnknownUnit: string := "Unknown Unit"

  /** `getFriendlyName`: the table's name for a listed id, the id itself
      otherwise; never a listed id, so never renamed twice. */
  function GetFriendlyName(rawName: Option<string>): (name: string)
    ensures rawName.None? ==> name == UnknownUnit
    ensures rawName.Some? && rawName.value in Renamed ==> name == Renamed[rawName.value]
    ensures rawName.Some? && rawName.value !in Renamed ==> name == rawName.value
    ensures name !in Renamed
  {
    match rawName
    case None => "Unknown Unit"
    case Some(raw) =>
      if raw == "LILYGO_TBEAM_S3_CORE" then "Defend_Dynamix_Soldier_Unit"
      else if raw == "TBEAM" then "Standard Unit"
      else if raw == "HELTEC_V3" then "Commander Radio"
      else if raw == "RAK4631" then "Scout Unit"
      else raw
  }

  /** Renaming an already friendly name changes nothing. */
  lemma FriendlyNameIdempotent(rawName: Option<string>)
    ensures GetFriendlyName(Some(GetFriendlyName(rawName))) == GetFriendlyName(rawName)
  {
  }

  /** Two different names are shown alike exactly when one of them is a
      listed id and the other is that id's friendly name: the table itself
      gives no two ids the same name. */
  lemma FriendlyNameCollisions(a: string, b: string)
    requires a != b
    ensures GetFriendlyName(Some(a)) == GetFriendlyName(Some(b)) <==>
      (a in Renamed && Renamed[a] == b) || (b in Renamed && Renamed[b] == a)
  {
  }
}
