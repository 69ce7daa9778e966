/**
 * The zone receiver and sender of the map screen's view model.
 *
 * A zone travels as the text `ZONE|lat|lon|radius|kind`, with the kind
 * coded 1 (red), 2 (yellow) or anything else (green). Every accepted
 * message appends a new zone with a fresh id to the list of incoming
 * zones; nothing is ever replaced or removed, and there is no zone id
 * on the wire.
 */
module MapZones {
  import opened KotlinText
  import opened KotlinNumbers

  /** `Portnums.PortNum.TEXT_MESSAGE_APP_VALUE`. */
  const TextMessageApp: int := 1

  /** The prefix the collector requires, case-sensitively. */
  const ZonePrefix: string := "ZONE|"

  /** `android.graphics.Color.argb`: the four channels packed into a signed 32-bit `Int`. */
  function Argb(alpha: int, red: int, green: int, blue: int): (color: int32)
    requires 0 <= alpha < 256 && 0 <= red < 256 && 0 <= green < 256 && 0 <= blue < 256
    ensures (color - (alpha * 0x100_0000 + red * 0x1_0000 + green * 0x100 + blue)) % 0x1_0000_0000 == 0
    ensures color < 0 <==> alpha >= 0x80
  {
    var packed := alpha * 0x100_0000 + red * 0x1_0000 + green * 0x100 + blue;
    if packed > IntMax then packed - 0x1_0000_0000 else packed
  }

  const Red: int32 := Argb(100, 255, 0, 0)
  const Yellow: int32 := Argb(100, 255, 255, 0)
  const Green: int32 := Argb(100, 0, 255, 0)

  predicate InPalette(color: int32) {
    color == Red || color == Yellow || color == Green
  }

  /** `GeoPoint(lat, lon)`. */
  datatype GeoPoint = GeoPoint(latitude: real, longitude: real)

  /** `MapZone`, without the polygon outline computed from centre and radius. */
  datatype MapZone = MapZone(id: nat, center: GeoPoint, radius: real, color: int32)

  /** What one `ZONE|` message carries: a zone without its id. */
  datatype ZoneFields = ZoneFields(center: GeoPoint, radius: real, color: int32)

  /** The receiver's `when (type)`: 1 is red, 2 is yellow, any other code green. */
  function ColorOfKind(kind: int32): (color: int32)
    ensures InPalette(color)
    ensures color == Red <==> kind == 1
    ensures color == Yellow <==> kind == 2
  {
    if kind == 1 then Red else if kind == 2 then Yellow else Green
  }

  /** The sender's `when (colorInt)`: red is 1, yellow 2, any other colour 3.
      Read back by `ColorOfKind` it gives the palette colour that was sent,
      and green for any colour outside the palette. */
  function KindOfColor(color: int32): (kind: int32)
    ensures 1 <= kind <= 3
    ensures InPalette(color) ==> ColorOfKind(kind) == color
    ensures !InPalette(color) ==> ColorOfKind(kind) == Green
  {
    if color == Red then 1 else if color == Yellow then 2 else 3
  }

  /** Kind codes 1, 2 and 3 survive the trip to a colour and back. */
  lemma KindRoundTrip(kind: int32)
    requires 1 <= kind <= 3
    ensures KindOfColor(ColorOfKind(kind)) == kind
  {
  }

  /** The parsing half of `parseAndAddZone`: split on `|`, require five
      fields, convert fields 1 to 4 and map the kind code to a colour. Any
      failed conversion yields no zone at all. */
  function ParseZoneFields(text: string, ft: FloatText): (r: Option<ZoneFields>)
    ensures |Split(text, '|')| < 5 ==> r == None
    ensures r.Some? <==>
      var parts := Split(text, '|');
      && |parts| >= 5
      && ft.toDouble(parts[1]).Some? && ft.toDouble(parts[2]).Some?
      && ft.toFloat(parts[3]).Some? && ToInt(parts[4]).Some?
    ensures r.Some? ==> InPalette(r.value.color)
    ensures r.Some? ==>
      var parts := Split(text, '|');
      r.value == ZoneFields(
        GeoPoint(ft.toDouble(parts[1]).value, ft.toDouble(parts[2]).value),
        ft.toFloat(parts[3]).value,
        ColorOfKind(ToInt(parts[4]).value))
  {
    var parts := Split(text, '|');
    if |parts| < 5 then None
    else
      match (ft.toDouble(parts[1]), ft.toDouble(parts[2]), ft.toFloat(parts[3]), ToInt(parts[4]))
      case (Some(lat), Some(lon), Some(rad), Some(kind)) =>
        Some(ZoneFields(GeoPoint(lat, lon), rad, ColorOfKind(kind)))
      case _ => None
  }

  /** The five fields of a sent zone, in wire order. */
  function SentFields(centerLat: real, centerLon: real, radius: real, colorInt: int32, ft: FloatText): seq<string> {
    ["ZONE", ft.doubleToString(centerLat), ft.doubleToString(centerLon),
     IntToString(FloatToInt(radius)), IntToString(KindOfColor(colorInt))]
  }

  /** The text `sendZone` broadcasts, `ZONE|lat|lon|radius.toInt()|type`:
      its five fields (the radius truncated) joined with `|`. */
  function SendZoneMessage(centerLat: real, centerLon: real, radius: real, colorInt: int32, ft: FloatText): (message: string)
    ensures message == Join(SentFields(centerLat, centerLon, radius, colorInt, ft), '|')
    ensures StartsWith(message, ZonePrefix)
  {
    var f := SentFields(centerLat, centerLon, radius, colorInt, ft);
    var message := "ZONE|" + ft.doubleToString(centerLat) + "|" + ft.doubleToString(centerLon) + "|"
      + IntToString(FloatToInt(radius)) + "|" + IntToString(KindOfColor(colorInt));
    assert Join(f, '|') == message by {
      assert Join(f[4..], '|') == f[4];
      assert Join(f[3..], '|') == f[3] + "|" + f[4];
      assert Join(f[2..], '|') == f[2] + "|" + (f[3] + "|" + f[4]);
      assert Join(f[1..], '|') == f[1] + "|" + (f[2] + "|" + (f[3] + "|" + f[4]));
      assert Join(f, '|') == f[0] + "|" + (f[1] + "|" + (f[2] + "|" + (f[3] + "|" + f[4])));
    }
    assert message[..5] == ZonePrefix;
    message
  }

  /** The sent text splits back into exactly the fields it was built from. */
  lemma SentZoneSplits(centerLat: real, centerLon: real, radius: real, colorInt: int32, ft: FloatText)
    requires PipeFree(ft)
    ensures Split(SendZoneMessage(centerLat, centerLon, radius, colorInt, ft), '|')
         == SentFields(centerLat, centerLon, radius, colorInt, ft)
  {
    var fields := SentFields(centerLat, centerLon, radius, colorInt, ft);
    assert '|' !in fields[0] && '|' !in fields[1] && '|' !in fields[2];
    SplitJoinFive(fields, '|');
  }

  /** Fields after the fifth are ignored: appending more of them changes nothing. */
  lemma ExtraFieldsIgnored(text: string, extra: string, ft: FloatText)
    requires |Split(text, '|')| >= 5
    ensures ParseZoneFields(text + "|" + extra, ft) == ParseZoneFields(text, ft)
  {
    SplitAppend(text, '|', extra);
    var parts := Split(text + "|" + extra, '|');
    assert parts[..5] == Split(text, '|')[..5];
  }

  /** A message built by `sendZone` has exactly five fields, passes the
      receiver's filter, and decodes to the centre that was sent, the
      `toFloat` reading of the truncated radius (that radius itself when it
      is at most 2^24 in magnitude, where every integer is an exact
      `Float`), and the colour that was sent (green for a colour outside
      the palette). */
  lemma SentZoneDecodes(centerLat: real, centerLon: real, radius: real, colorInt: int32, ft: FloatText)
    requires PipeFree(ft) && ParsesIntegers(ft)
    requires ReadsBack(ft, centerLat) && ReadsBack(ft, centerLon)
    ensures var message := SendZoneMessage(centerLat, centerLon, radius, colorInt, ft);
      && StartsWith(message, ZonePrefix)
      && |Split(message, '|')| == 5
      && ParseZoneFields(message, ft) == Some(ZoneFields(
           GeoPoint(centerLat, centerLon),
           ft.toFloat(IntToString(FloatToInt(radius))).value,
           if InPalette(colorInt) then colorInt else Green))
    ensures -FloatExactBound <= FloatToInt(radius) <= FloatExactBound ==>
      ParseZoneFields(SendZoneMessage(centerLat, centerLon, radius, colorInt, ft), ft).value.radius == FloatToInt(radius) as real
  {
    var fields := SentFields(centerLat, centerLon, radius, colorInt, ft);
    var message := SendZoneMessage(centerLat, centerLon, radius, colorInt, ft);
    SentZoneSplits(centerLat, centerLon, radius, colorInt, ft);
    ToIntOfIntToString(KindOfColor(colorInt));
    assert ft.toFloat(fields[3]).Some?;
  }

  /**
   * The view model's zone state: `_incomingZones`, and the supply of fresh
   * ids that `UUID.randomUUID()` stands for (the number of ids drawn so far;
   * the id drawn next is that number).
   */
  class MapViewModel {
    var incomingZones: seq<MapZone>
    var issuedIds: nat

    /** Every zone's id was drawn from the supply, in the order the zones were added. */
    ghost predicate Valid()
      reads this
    {
      && (forall i :: 0 <= i < |incomingZones| ==> incomingZones[i].id < issuedIds)
      && (forall i, j :: 0 <= i < j < |incomingZones| ==> incomingZones[i].id < incomingZones[j].id)
    }

    constructor()
      ensures Valid() && incomingZones == []
    {
      incomingZones := [];
      issuedIds := 0;
    }

    /** `UUID.randomUUID()`: an id never handed out before. */
    method RandomUuid() returns (id: nat)
      requires Valid()
      modifies this`issuedIds
      ensures Valid()
      ensures id == old(issuedIds) && issuedIds == id + 1
      ensures forall i :: 0 <= i < |incomingZones| ==> incomingZones[i].id < id
    {
      id := issuedIds;
      issuedIds := issuedIds + 1;
    }

    /** `parseAndAddZone`: on a well-formed message, exactly one zone with a
        fresh id is appended and every earlier zone stays where it was; on
        any other text the list is left as it is. */
    method ParseAndAddZone(text: string, ft: FloatText)
      requires Valid()
      modifies this
      ensures Valid()
      ensures match ParseZoneFields(text, ft)
        case None => incomingZones == old(incomingZones) && issuedIds == old(issuedIds)
        case Some(f) =>
          && incomingZones == old(incomingZones) + [MapZone(old(issuedIds), f.center, f.radius, f.color)]
          && issuedIds == old(issuedIds) + 1
    {
      var parsed := ParseZoneFields(text, ft);
      if parsed.Some? {
        var f := parsed.value;
        var id := RandomUuid();
        var currentList := incomingZones;
        currentList := currentList + [MapZone(id, f.center, f.radius, f.color)];
        incomingZones := currentList;
      }
    }

    /** The packet collector started in `init`: only text-message packets
        whose text starts with the exact, case-sensitive `ZONE|` reach the
        parser; anything else leaves the zones untouched. */
    method OnMeshPacket(portnum: int, text: string, ft: FloatText)
      requires Valid()
      modifies this
      ensures Valid()
      ensures !(portnum == TextMessageApp && StartsWith(text, ZonePrefix)) ==>
        incomingZones == old(incomingZones) && issuedIds == old(issuedIds)
      ensures portnum == TextMessageApp && StartsWith(text, ZonePrefix) ==>
        match ParseZoneFields(text, ft)
        case None => incomingZones == old(incomingZones) && issuedIds == old(issuedIds)
        case Some(f) =>
          && incomingZones == old(incomingZones) + [MapZone(old(issuedIds), f.center, f.radius, f.color)]
          && issuedIds == old(issuedIds) + 1
    {
      if portnum == TextMessageApp {
        if StartsWith(text, ZonePrefix) {
          ParseAndAddZone(text, ft);
        }
      }
    }
  }

  /** There is no de-duplication: the same text received twice adds two
      zones with the same fields and different ids. */
  method ReceiveTwice(vm: MapViewModel, text: string, ft: FloatText)
    requires vm.Valid()
    requires StartsWith(text, ZonePrefix) && ParseZoneFields(text, ft).Some?
    modifies vm
    ensures vm.Valid()
    ensures |vm.incomingZones| == |old(vm.incomingZones)| + 2
    ensures vm.incomingZones[..|old(vm.incomingZones)|] == old(vm.incomingZones)
    ensures var n := |old(vm.incomingZones)|; var first, second := vm.incomingZones[n], vm.incomingZones[n + 1];
      && ZoneFields(first.center, first.radius, first.color) == ParseZoneFields(text, ft).value
      && ZoneFields(second.center, second.radius, second.color) == ParseZoneFields(text, ft).value
      && first.id != second.id
  {
    vm.OnMeshPacket(TextMessageApp, text, ft);
    vm.OnMeshPacket(TextMessageApp, text, ft);
  }
}
