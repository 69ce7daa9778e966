/**
 * The records the bridge serialises: the event wrapper and the two nested
 * zone payloads. JSON serialisation itself is not spelled out: a payload
 * that the source encodes with `json.encodeToString` is kept here as the
 * record it encodes.
 */
module TacticalModels {
  import opened KotlinNumbers

  /** `ZonePayload`: the nested object of a ZONE_ADD event (`label` is a
      reserved word in Dafny, hence `zoneLabel`). */
  datatype ZonePayload = ZonePayload(zoneType: string, radius: int32, zoneLabel: string)

  /** `ZoneDeletePayload`: the nested object of a ZONE_DELETE event. */
  datatype ZoneDeletePayload = ZoneDeletePayload(zoneId: string)

  /** The `payload` string of an event: either literal text, or the JSON
      encoding of one of the two nested records. */
  datatype Payload =
    | Literal(text: string)
    | ZoneJson(zone: ZonePayload)
    | DeleteJson(deletion: ZoneDeletePayload)

  /** `TacticalMessage`: one event as sent to the command-and-control listener. */
  datatype TacticalMessage = TacticalMessage(
    operationId: string,
    missionId: string,
    timestamp: string,
    category: string,
    sourceId: string,
    destinationId: string,
    latitude: real,
    longitude: real,
    payload: Payload)
}
