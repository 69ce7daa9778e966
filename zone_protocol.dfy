/**
 * What the two readers of the same mesh text make of a zone: the map's
 * receiver (`MapZones`) and the command-and-control bridge (`Bridge`).
 * They split the same `ZONE|lat|lon|radius|kind` text but do not agree on
 * its layout or on the case of its prefix.
 */
module ZoneProtocol {
  import opened KotlinText
  import opened KotlinNumbers
  import opened TacticalModels
  import opened MapZones
  import opened Bridge

  /** The text `sendZone` broadcasts reaches the bridge as a ZONE_ADD event
      whose payload reads the latitude as the label and the kind code as
      the radius: the sent radius does not reach the bridge at all. */
  lemma SentZoneAtBridge(centerLat: real, centerLon: real, radius: real, colorInt: int32, ft: FloatText)
    requires PipeFree(ft)
    ensures var message := SendZoneMessage(centerLat, centerLon, radius, colorInt, ft);
      && Trim(message) == message
      && GetCategory(Trim(message)) == ZoneAdd
      && BridgePayload(ZoneAdd, Trim(message))
         == ZoneJson(ZonePayload("DANGER", KindOfColor(colorInt), ft.doubleToString(centerLat)))
  {
    SentZoneShape(centerLat, centerLon, radius, colorInt, ft);
    ZoneTextAtBridge(SendZoneMessage(centerLat, centerLon, radius, colorInt, ft), SentFields(centerLat, centerLon, radius, colorInt, ft));
  }

  /** The facts about a sent zone text that the bridge's reading depends on. */
  lemma SentZoneShape(centerLat: real, centerLon: real, radius: real, colorInt: int32, ft: FloatText)
    requires PipeFree(ft)
    ensures var message := SendZoneMessage(centerLat, centerLon, radius, colorInt, ft);
      var fields := SentFields(centerLat, centerLon, radius, colorInt, ft);
      && Trim(message) == message && StartsWith(message, ZonePrefix)
      && Split(message, '|') == fields && ToInt(fields[4]) == Some(KindOfColor(colorInt))
  {
    SentZoneTrimmed(centerLat, centerLon, radius, colorInt, ft);
    SentZoneSplits(centerLat, centerLon, radius, colorInt, ft);
    ToIntOfIntToString(KindOfColor(colorInt));
  }

  /** What the bridge makes of a trimmed `ZONE|` text with five fields. */
  lemma ZoneTextAtBridge(message: string, fields: seq<string>)
    requires Trim(message) == message && StartsWith(message, ZonePrefix)
    requires Split(message, '|') == fields && |fields| == 5 && ToInt(fields[4]).Some?
    ensures GetCategory(Trim(message)) == ZoneAdd
    ensures BridgePayload(ZoneAdd, Trim(message)) == ZoneJson(ZonePayload("DANGER", ToInt(fields[4]).value, fields[1]))
  {
    ReceiverZonesAreZoneAdd(message);
  }

  /** A sent zone text neither starts nor ends with whitespace. */
  lemma SentZoneTrimmed(centerLat: real, centerLon: real, radius: real, colorInt: int32, ft: FloatText)
    ensures Trim(SendZoneMessage(centerLat, centerLon, radius, colorInt, ft)) == SendZoneMessage(centerLat, centerLon, radius, colorInt, ft)
  {
    var message := SendZoneMessage(centerLat, centerLon, radius, colorInt, ft);
    var kindText := IntToString(KindOfColor(colorInt));
    assert message == "ZONE|" + ft.doubleToString(centerLat) + "|" + ft.doubleToString(centerLon) + "|"
      + IntToString(FloatToInt(radius)) + "|" + kindText;
    assert message[0] == 'Z';
    assert message[|message| - 1] == kindText[|kindText| - 1];
    TrimOfTrimmed(message);
  }

  /** A lower-case prefix is a zone for the bridge and nothing for the map:
      the bridge compares case-insensitively, the receiver exactly. */
  lemma LowerCasePrefixSplitsReaders(text: string)
    requires StartsWith(text, "zone|")
    ensures GetCategory(text) == ZoneAdd
    ensures !StartsWith(text, ZonePrefix)
  {
    assert text[0] == 'z' && text[1] == 'o' && text[2] == 'n' && text[3] == 'e' by {
      assert text[..5] == "zone|";
    }
    assert !StartsWithIgnoreCase(text, "TRK") by {
      assert !EqualsIgnoreCase(text[0], 'T');
    }
    assert StartsWithIgnoreCase(text, "ZONE") by {
      forall i | 0 <= i < 4 ensures EqualsIgnoreCase(text[i], "ZONE"[i]) { }
    }
  }
}
