/**
 * The bridge that turns every incoming text into a `TacticalMessage` for
 * the local command-and-control listener: a case-insensitive prefix
 * classifier, the category-specific payload builders, and the guard, trim
 * and record construction of `onNewMessage`. Sending the record (JSON
 * encoding, the socket, the timestamp clock) is outside the model; the
 * method returns the record it would send.
 */
module Bridge {
  import opened KotlinText
  import opened KotlinNumbers
  import opened TacticalModels

  const Position: string := "POSITION"
  const ZoneAdd: string := "ZONE_ADD"
  const ZoneDelete: string := "ZONE_DELETE"
  const Chat: string := "CHAT"

  /** `getCategory`: case-insensitive prefix tests in a fixed order, TRK
      before ZONE before DELZONE, and CHAT for everything else. */
  function GetCategory(text: string): (category: string)
    ensures category == Position || category == ZoneAdd || category == ZoneDelete || category == Chat
    ensures category == Position <==> StartsWithIgnoreCase(text, "TRK")
    ensures category == ZoneAdd <==> !StartsWithIgnoreCase(text, "TRK") && StartsWithIgnoreCase(text, "ZONE")
    ensures category == ZoneDelete <==>
      !StartsWithIgnoreCase(text, "TRK") && !StartsWithIgnoreCase(text, "ZONE") && StartsWithIgnoreCase(text, "DELZONE")
  {
    if StartsWithIgnoreCase(text, "TRK") then Position
    else if StartsWithIgnoreCase(text, "ZONE") then ZoneAdd
    else if StartsWithIgnoreCase(text, "DELZONE") then ZoneDelete
    else if StartsWithIgnoreCase(text, "CHAT") then Chat
    else Chat
  }

  /** `parts.getOrElse(index) { default }`. */
  function FieldOr(parts: seq<string>, index: nat, default: string): (field: string)
    ensures index < |parts| ==> field == parts[index]
    ensures |parts| <= index ==> field == default
    ensures field in parts || field == default
  {
    if index < |parts| then parts[index] else default
  }

  /** `parseZonePayload`: a DANGER zone whatever the kind code, labelled
      with field 1 ("Unknown" when absent), its radius field 4 read as an
      `Int` (0 when absent); a field 4 that is not an `Int` gives `"{}"`. */
  function ParseZonePayload(text: string): (p: Payload)
    ensures p.ZoneJson? || p == Literal("{}")
    ensures p.ZoneJson? <==> ToInt(FieldOr(Split(text, '|'), 4, "0")).Some?
    ensures p.ZoneJson? ==>
      && p.zone.zoneType == "DANGER"
      && p.zone.zoneLabel == FieldOr(Split(text, '|'), 1, "Unknown")
      && ToInt(FieldOr(Split(text, '|'), 4, "0")) == Some(p.zone.radius)
    ensures |Split(text, '|')| <= 4 ==> p.ZoneJson? && p.zone.radius == 0
  {
    var parts := Split(text, '|');
    var zoneLabel := FieldOr(parts, 1, "Unknown");
    match ToInt(FieldOr(parts, 4, "0"))
    case Some(radius) => ZoneJson(ZonePayload("DANGER", radius, zoneLabel))
    case None => Literal("{}")
  }

  /** `parseZoneDeletePayload`: the zone id is field 1, "Unknown" when absent. */
  function ParseZoneDeletePayload(text: string): (p: Payload)
    ensures p.DeleteJson?
    ensures '|' !in p.deletion.zoneId
    ensures '|' !in text ==> p.deletion.zoneId == "Unknown"
  {
    assert '|' !in text ==> Split(text, '|') == [text] by {
      if '|' !in text { SplitNoSeparator(text, '|'); }
    }
    DeleteJson(ZoneDeletePayload(FieldOr(Split(text, '|'), 1, "Unknown")))
  }

  /** The zone id read back is exactly the field after the first `|`. */
  lemma DeletePayloadReadsSecondField(head: string, id: string, tail: string)
    requires '|' !in head && '|' !in id
    requires tail == [] || tail[0] == '|'
    ensures ParseZoneDeletePayload(head + "|" + id + tail).deletion.zoneId == id
  {
    SplitNoSeparator(head, '|');
    SplitNoSeparator(id, '|');
    if tail == [] {
      assert head + "|" + id + tail == head + "|" + id;
      SplitAppend(head, '|', id);
    } else {
      var rest := tail[1..];
      assert tail == "|" + rest;
      assert head + "|" + id + tail == head + "|" + (id + "|" + rest);
      SplitAppend(head, '|', id + "|" + rest);
      SplitAppend(id, '|', rest);
    }
  }

  /** The payload `when` of `onNewMessage`. The dispatch itself is the
      specification here; what each branch yields is stated by the
      contracts of `ParseZonePayload`, `ParseZoneDeletePayload` and
      `RemovePrefix`. */
  function BridgePayload(category: string, cleanText: string): (p: Payload)
    ensures category == ZoneAdd ==> p == ParseZonePayload(cleanText)
    ensures category == ZoneDelete ==> p == ParseZoneDeletePayload(cleanText)
    ensures category == Chat ==> p == Literal(RemovePrefix(cleanText, "CHAT|"))
    ensures category == Position ==> p == Literal(cleanText)
  {
    if category == ZoneAdd then ParseZonePayload(cleanText)
    else if category == ZoneDelete then ParseZoneDeletePayload(cleanText)
    else if category == Chat then Literal(RemovePrefix(cleanText, "CHAT|"))
    else Literal(cleanText)
  }

  /** The record `onNewMessage` builds from the trimmed text. */
  function ComposeMessage(
    cleanText: string, senderId: string, receiverId: string, latitude: real, longitude: real,
    operationId: string, missionId: string, timestamp: string): (m: TacticalMessage)
    ensures m.operationId == operationId && m.missionId == missionId && m.timestamp == timestamp
    ensures m.sourceId == senderId && m.destinationId == receiverId
    ensures m.latitude == latitude && m.longitude == longitude
    ensures m.category == GetCategory(cleanText)
    ensures m.category == ZoneAdd ==> m.payload.ZoneJson? || m.payload == Literal("{}")
    ensures m.category == ZoneDelete ==> m.payload.DeleteJson?
    ensures m.category == Chat ==> m.payload == Literal(RemovePrefix(cleanText, "CHAT|"))
    ensures m.category == Position ==> m.payload == Literal(cleanText)
  {
    var category := GetCategory(cleanText);
    TacticalMessage(operationId, missionId, timestamp, category, senderId, receiverId,
                    latitude, longitude, BridgePayload(category, cleanText))
  }

  /** Whitespace around the text changes nothing in the event built from it. */
  lemma PaddingIgnored(
    before: string, text: string, after: string, senderId: string, receiverId: string,
    latitude: real, longitude: real, operationId: string, missionId: string, timestamp: string)
    requires IsBlank(before) && IsBlank(after)
    ensures ComposeMessage(Trim(before + text + after), senderId, receiverId, latitude, longitude, operationId, missionId, timestamp)
         == ComposeMessage(Trim(text), senderId, receiverId, latitude, longitude, operationId, missionId, timestamp)
  {
    TrimPadding(before, text, after);
  }

  /** Every text the map's zone receiver accepts is classified ZONE_ADD here. */
  lemma ReceiverZonesAreZoneAdd(text: string)
    requires StartsWith(text, "ZONE|")
    ensures GetCategory(text) == ZoneAdd
  {
    assert text[..4] == "ZONE" by { assert text[..4] == text[..5][..4]; }
    assert text[0] == 'Z' by { assert text[0] == text[..5][0]; }
  }

  /** The singleton's switch, `isEnabled`, true at start. */
  class TacticalBridge {
    var isEnabled: bool

    constructor()
      ensures isEnabled
    {
      isEnabled := true;
    }

    /**
     * `onNewMessage`: nothing happens while the bridge is disabled or when
     * the text is null or empty. Otherwise the text is trimmed, classified
     * and turned into a payload, and the identifiers and coordinates are
     * copied into the record unchanged. `timestamp` is the clock reading
     * the source takes when it builds the record.
     */
    method OnNewMessage(
      payloadText: Option<string>, senderId: string, receiverId: string,
      latitude: real := 0.0, longitude: real := 0.0,
      operationId: string, missionId: string, timestamp: string)
      returns (message: Option<TacticalMessage>)
      ensures message.Some? <==> isEnabled && payloadText.Some? && payloadText.value != []
      ensures message.Some? ==>
        message.value == ComposeMessage(Trim(payloadText.value), senderId, receiverId, latitude, longitude,
                                        operationId, missionId, timestamp)
      ensures message.Some? ==>
        var m := message.value;
        var cleanText := Trim(payloadText.value);
        && m.operationId == operationId && m.missionId == missionId && m.timestamp == timestamp
        && m.sourceId == senderId && m.destinationId == receiverId
        && m.latitude == latitude && m.longitude == longitude
        && m.category == GetCategory(cleanText)
        && m.payload == BridgePayload(m.category, cleanText)
    {
      if !isEnabled || payloadText.None? || payloadText.value == [] {
        return None;
      }
      var cleanText := Trim(payloadText.value);
      message := Some(ComposeMessage(cleanText, senderId, receiverId, latitude, longitude, operationId, missionId, timestamp));
    }
  }
}
