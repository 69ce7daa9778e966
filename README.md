# Tactical text protocol of the Meshtastic tactical overlay

This project models, in Dafny, the tactical text protocol that runs inside
this Meshtastic Android app. It covers four pieces:

- **Map zones** (`MapZones`, `map_view_model.dfy`). The map screen's view model
  sends and receives danger zones as mesh text messages of the form
  `ZONE|lat|lon|radius|kind`. A received text that starts with the exact
  prefix `ZONE|` is split on `|`, its fields are converted, its kind code is
  turned into one of three palette colours, and a new zone with a fresh id is
  appended to the list of incoming zones. The sender maps a palette colour
  back to a kind code and builds the five-field text.
- **The command-and-control bridge** (`Bridge`, `tactical_bridge.dfy`, with the
  records of `TacticalModels`, `tactical_models.dfy`). Every incoming text is
  trimmed, classified by a case-insensitive prefix test (TRK, ZONE, DELZONE,
  then CHAT for everything else), and turned into a category-specific payload
  and a `TacticalMessage` record for the local listener.
- **The long-name codec** (`TacticalIconManager`, `tactical_icons.dfy`). A
  node's long name carries `Name <unit code> (Op) {Mission}`. The unit-code
  emoji selects the map marker. The first parenthesised group is the operation
  id, and the first braced group is the mission id. The builder rebuilds a long
  name from a clean base name and new or existing values.
- **The hardware-name lookup** (`ModelNameHelper`, `model_names.dfy`). Four
  hardware ids are renamed, and every other name is shown as it is.

Two library modules spell out the Kotlin/JVM behaviour the core relies on:

- `KotlinText` (`kotlin_text.dfy`): `split` keeps empty fields, `trim`
  uses JVM whitespace, regex `\s` is ASCII only, and `startsWith(ignoreCase)`
  also matches the Kelvin sign.
- `KotlinNumbers` (`kotlin_numbers.dfy`): `Integer.parseInt`, `Int.toString`,
  and the truncating and saturating `Float.toInt`.

`ZoneProtocol` (`zone_protocol.dfy`) relates the two readers of the same zone
text.

Floating point is abstract. The text conversions `toDouble`, `toFloat` and
`Double.toString` are a record of functions (`FloatText`). Three predicates
state what the JVM guarantees about them, and each lemma assumes only the
ones it needs: `PipeFree` (a rendering holds no `|`), `ParsesIntegers` (the
decimal text of every `Int` parses as a `Float`) and `ReadsBack` (parsing
the rendering of a value gives that value back).
`KotlinNumbers.FloatTextAssumptionsMeetable` shows that the three can hold
together. Values are `real`. `UUID.randomUUID()` becomes a counter of ids
handed out so far. `json.encodeToString` is kept symbolic: a payload is
either literal text or the record it encodes.

Facts about the code that the model makes explicit:

- The zone text carries no zone id, and the receiver appends every accepted
  zone with a fresh id. Receiving the same text twice therefore gives two
  zones (`MapZones.ReceiveTwice`), and nothing replaces or deletes a zone.
- The map has no receiver for `DELZONE` or `TRK` texts: only texts starting
  with `ZONE|` reach its parser.
- The bridge does not read the zone layout the sender writes. It takes the
  label from field 1, which is the latitude, and the radius from field 4, which
  is the kind code (`ZoneProtocol.SentZoneAtBridge`).
- The bridge classifies case-insensitively. The map's receiver matches `ZONE|`
  exactly, so a text starting with `zone|` is a zone for the bridge only
  (`ZoneProtocol.LowerCasePrefixSplitsReaders`).
- The lazy groups `\(.*?\)` and `\{.*?\}` stop at the first closing bracket
  and do not cross a line terminator. An opening bracket that is never
  closed starts no group (`TacticalIconManager.UnclosedGroupExample`), and a
  nested group is cut at its first closing bracket
  (`TacticalIconManager.NestedGroupExample`).

## Model

| member | source | states |
|---|---|---|
| MapZones.ColorOfKind | feature/map/src/main/kotlin/org/meshtastic/feature/map/MapViewModel.kt:92-96 | kind 1 gives red and only 1 does; kind 2 gives yellow and only 2 does; every other code gives green, so the colour is always in the palette |
| MapZones.KindOfColor | feature/map/src/main/kotlin/org/meshtastic/feature/map/MapViewModel.kt:114-118 | the code is 1, 2 or 3; read back through the receiver's mapping it gives the palette colour that was sent, or green for any colour outside the palette |
| MapZones.KindRoundTrip | feature/map/src/main/kotlin/org/meshtastic/feature/map/MapViewModel.kt:92-96 | code to colour to code is the identity on the codes 1, 2 and 3 |
| MapZones.ParseZoneFields | feature/map/src/main/kotlin/org/meshtastic/feature/map/MapViewModel.kt:85-96 | fewer than five `\|` fields give no zone; a zone is produced exactly when fields 1 to 4 all convert; it is centred at fields 1 and 2, has field 3 as its radius and the colour of the kind code in field 4, which is always in the palette |
| MapZones.ExtraFieldsIgnored | feature/map/src/main/kotlin/org/meshtastic/feature/map/MapViewModel.kt:85-86 | fields after the fifth do not change what is parsed |
| MapZones.Argb | feature/map/src/main/kotlin/org/meshtastic/feature/map/MapViewModel.kt:93-95 | the colour is the four channels packed into 32 bits, reduced to a signed `Int`; it is negative exactly when alpha is at least 128 |
| MapZones.SendZoneMessage | feature/map/src/main/kotlin/org/meshtastic/feature/map/MapViewModel.kt:119 | the sent text is its five fields (`ZONE`, latitude, longitude, truncated radius, kind) joined with `\|`, and it starts with the exact `ZONE\|` prefix |
| MapZones.SentZoneSplits | feature/map/src/main/kotlin/org/meshtastic/feature/map/MapViewModel.kt:119 | splitting the sent text on `\|` gives back exactly those five fields |
| MapZones.SentZoneDecodes | feature/map/src/main/kotlin/org/meshtastic/feature/map/MapViewModel.kt:119 | a sent text passes the `ZONE\|` filter and has five fields; it decodes to the sent centre, the `toFloat` reading of the radius truncated by `toInt` (exactly that truncated radius when it is at most 2^24 in magnitude), and the sent colour (green when outside the palette) |
| MapZones.MapViewModel.constructor | feature/map/src/main/kotlin/org/meshtastic/feature/map/MapViewModel.kt:62 | the incoming-zone list starts empty |
| MapZones.MapViewModel.RandomUuid | feature/map/src/main/kotlin/org/meshtastic/feature/map/MapViewModel.kt:100 | the id handed out is the next one of the supply, larger than every id already in the zone list, and the zone list stays valid |
| MapZones.MapViewModel.ParseAndAddZone | feature/map/src/main/kotlin/org/meshtastic/feature/map/MapViewModel.kt:83-109 | a well-formed text appends exactly one zone with a fresh id at the end and keeps every earlier zone in order; any other text leaves the list and the id supply as they were; ids stay unique and increasing |
| MapZones.MapViewModel.OnMeshPacket | feature/map/src/main/kotlin/org/meshtastic/feature/map/MapViewModel.kt:70-74 | only text-message packets whose text starts with the exact, case-sensitive `ZONE\|` reach the parser; anything else changes nothing |
| MapZones.ReceiveTwice | feature/map/src/main/kotlin/org/meshtastic/feature/map/MapViewModel.kt:100-104 | the same text received twice adds two zones with equal fields and different ids |
| Bridge.GetCategory | app/src/main/java/com/geeksville/mesh/service/TacticalBridge.kt:73-81 | the category is one of four values; POSITION if and only if the text starts with TRK in any case; ZONE_ADD if and only if it starts with ZONE and not TRK; ZONE_DELETE if and only if it starts with DELZONE and neither of the others; CHAT otherwise |
| Bridge.ParseZonePayload | app/src/main/java/com/geeksville/mesh/service/TacticalBridge.kt:83-91 | a zone record exactly when field 4 (default "0") is an `Int`, otherwise `"{}"`; the zone type is always DANGER, the label is field 1 or "Unknown", and the radius is field 4's value; at most four fields give radius 0 |
| Bridge.ParseZoneDeletePayload | app/src/main/java/com/geeksville/mesh/service/TacticalBridge.kt:93-100 | always a delete record; its id holds no `\|`, and it is "Unknown" for a text without `\|` |
| Bridge.DeletePayloadReadsSecondField | app/src/main/java/com/geeksville/mesh/service/TacticalBridge.kt:94-96 | the zone id read is exactly the text between the first and the second `\|` |
| Bridge.BridgePayload | app/src/main/java/com/geeksville/mesh/service/TacticalBridge.kt:45-50 | ZONE_ADD and ZONE_DELETE use their builders; CHAT removes one leading case-sensitive `CHAT\|`; POSITION keeps the text verbatim |
| Bridge.FieldOr | app/src/main/java/com/geeksville/mesh/service/TacticalBridge.kt:86-87 | `getOrElse` gives the field at the index when there is one and the default otherwise |
| Bridge.ComposeMessage | app/src/main/java/com/geeksville/mesh/service/TacticalBridge.kt:52-62 | the record copies the ids, timestamp and coordinates it is given; its category is that of the text; a ZONE_ADD payload is a zone record or `"{}"`, a ZONE_DELETE payload a delete record, a CHAT payload the text without a leading `CHAT\|`, and a POSITION payload the text itself |
| Bridge.PaddingIgnored | app/src/main/java/com/geeksville/mesh/service/TacticalBridge.kt:37-38 | whitespace around the text changes nothing in the record built from it, because only the trimmed text is classified and parsed |
| Bridge.ReceiverZonesAreZoneAdd | app/src/main/java/com/geeksville/mesh/service/TacticalBridge.kt:76 | every text the map's receiver accepts is classified ZONE_ADD |
| Bridge.TacticalBridge.constructor | app/src/main/java/com/geeksville/mesh/service/TacticalBridge.kt:22 | the bridge starts enabled |
| Bridge.TacticalBridge.OnNewMessage | app/src/main/java/com/geeksville/mesh/service/TacticalBridge.kt:26-71 | a record is produced if and only if the bridge is enabled and the text is neither null nor empty; the ids, timestamp and coordinates are copied unchanged (coordinates default to 0.0); the record is the one `ComposeMessage` builds from the trimmed text, so `PaddingIgnored` applies to it |
| ZoneProtocol.SentZoneAtBridge | app/src/main/java/com/geeksville/mesh/service/TacticalBridge.kt:86-87 | a text built by `sendZone` is already trimmed and is ZONE_ADD at the bridge; its payload is a DANGER zone labelled with the latitude text whose radius is the kind code, not the sent radius |
| ZoneProtocol.SentZoneShape | feature/map/src/main/kotlin/org/meshtastic/feature/map/MapViewModel.kt:119 | a sent text is trimmed, starts with `ZONE\|`, splits into its five fields, and its kind field reads back as the kind code |
| ZoneProtocol.ZoneTextAtBridge | app/src/main/java/com/geeksville/mesh/service/TacticalBridge.kt:83-88 | any trimmed five-field `ZONE\|` text with an integer field 4 becomes a DANGER zone labelled with field 1 and sized by field 4 |
| ZoneProtocol.SentZoneTrimmed | feature/map/src/main/kotlin/org/meshtastic/feature/map/MapViewModel.kt:119 | a sent text neither starts nor ends with whitespace, so trimming it changes nothing |
| ZoneProtocol.LowerCasePrefixSplitsReaders | feature/map/src/main/kotlin/org/meshtastic/feature/map/MapViewModel.kt:72 | every text starting with `zone\|` is ZONE_ADD for the bridge and fails the map's case-sensitive `ZONE\|` filter |
| TacticalIconManager.GetTypeFromName | core/ui/src/main/kotlin/org/meshtastic/core/ui/TacticalIconManager.kt:32-40 | no name is a soldier; tank if and only if the tank code is present, heli if and only if the heli code is present and not the tank code, drone if and only if only the drone code is present |
| TacticalIconManager.GetMarkerDrawable | core/ui/src/main/kotlin/org/meshtastic/core/ui/TacticalIconManager.kt:22-30 | the marker is always the one for the unit type read from the same name, the soldier marker for no name |
| TacticalIconManager.GetEmojiForType | core/ui/src/main/kotlin/org/meshtastic/core/ui/TacticalIconManager.kt:42-49 | the code is empty exactly for a soldier |
| TacticalIconManager.EmojiRoundTrip | core/ui/src/main/kotlin/org/meshtastic/core/ui/TacticalIconManager.kt:32-49 | the type read from a type's code is that type, for all four types |
| TacticalIconManager.GroupClose | core/ui/src/main/kotlin/org/meshtastic/core/ui/TacticalIconManager.kt:82 | the lazy `.*?` stops at the first closing bracket, with no line terminator before it; when there is no such bracket, no position qualifies |
| TacticalIconManager.GroupCloseAt | core/ui/src/main/kotlin/org/meshtastic/core/ui/TacticalIconManager.kt:82 | whenever a position qualifies as the end of the lazy group, the scan returns exactly that position |
| TacticalIconManager.GroupCloseAppend | core/ui/src/main/kotlin/org/meshtastic/core/ui/TacticalIconManager.kt:82 | text without the closing bracket appended after the group does not change where it closes |
| TacticalIconManager.GroupValue | core/ui/src/main/kotlin/org/meshtastic/core/ui/TacticalIconManager.kt:82-83 | a text without the opening bracket or without the closing bracket gives ""; the group holds only characters of the text, never the closing bracket or a line terminator |
| TacticalIconManager.GroupValueNone | core/ui/src/main/kotlin/org/meshtastic/core/ui/TacticalIconManager.kt:82-83 | when no opening bracket is followed by a closed group, `find` returns null and the value is "" |
| TacticalIconManager.GroupValueLeftmost | core/ui/src/main/kotlin/org/meshtastic/core/ui/TacticalIconManager.kt:82-83 | the value is the text between the leftmost opening bracket whose group closes and its first closing bracket |
| TacticalIconManager.GroupAfterPlainPrefix | core/ui/src/main/kotlin/org/meshtastic/core/ui/TacticalIconManager.kt:82-83 | after a prefix without that bracket, a closed group with a plain value gives that value |
| TacticalIconManager.RemoveGroups | core/ui/src/main/kotlin/org/meshtastic/core/ui/TacticalIconManager.kt:67-70 | removing every matched group adds no character |
| TacticalIconManager.RemoveGroupsUntouched | core/ui/src/main/kotlin/org/meshtastic/core/ui/TacticalIconManager.kt:67-70 | a text without the opening bracket, or without the closing bracket, is unchanged |
| TacticalIconManager.RemoveGroupsNone | core/ui/src/main/kotlin/org/meshtastic/core/ui/TacticalIconManager.kt:67-70 | a text in which no group closes is unchanged |
| TacticalIconManager.RemoveGroupsLeftmost | core/ui/src/main/kotlin/org/meshtastic/core/ui/TacticalIconManager.kt:67-70 | the leftmost match is deleted, the text before it is kept, and removal resumes right after its closing bracket |
| TacticalIconManager.RemoveGroupsQuietPrefix | core/ui/src/main/kotlin/org/meshtastic/core/ui/TacticalIconManager.kt:67-70 | a prefix in which no match starts is kept as it is |
| TacticalIconManager.RemoveGroupsFront | core/ui/src/main/kotlin/org/meshtastic/core/ui/TacticalIconManager.kt:67-70 | a match at the front is deleted up to and including its closing bracket |
| TacticalIconManager.RemoveGroupsPlainPrefix | core/ui/src/main/kotlin/org/meshtastic/core/ui/TacticalIconManager.kt:67-70 | a prefix without the opening bracket is kept as it is |
| TacticalIconManager.RemoveGroupsHead | core/ui/src/main/kotlin/org/meshtastic/core/ui/TacticalIconManager.kt:67-70 | a bracketed group without line terminators at the front is deleted |
| TacticalIconManager.RemoveGroupsSuffix | core/ui/src/main/kotlin/org/meshtastic/core/ui/TacticalIconManager.kt:67-70 | a suffix with neither bracket is kept as it is |
| TacticalIconManager.GetOperationId | core/ui/src/main/kotlin/org/meshtastic/core/ui/TacticalIconManager.kt:79-84 | no name, a name without `(`, or a name without `)` gives ""; the id never holds `)` |
| TacticalIconManager.GetMissionId | core/ui/src/main/kotlin/org/meshtastic/core/ui/TacticalIconManager.kt:90-95 | no name, a name without `{`, or a name without `}` gives ""; the id never holds `}` |
| TacticalIconManager.OperationIdExample | core/ui/src/main/kotlin/org/meshtastic/core/ui/TacticalIconManager.kt:77 | "Viper (Alpha)" gives "Alpha" |
| TacticalIconManager.MissionIdExample | core/ui/src/main/kotlin/org/meshtastic/core/ui/TacticalIconManager.kt:88 | "Viper {Rescue}" gives "Rescue" |
| TacticalIconManager.UnclosedGroupExample | core/ui/src/main/kotlin/org/meshtastic/core/ui/TacticalIconManager.kt:82-83 | "Viper (Alpha" gives no operation id and "Viper {Rescue" no mission id |
| TacticalIconManager.NestedGroupExample | core/ui/src/main/kotlin/org/meshtastic/core/ui/TacticalIconManager.kt:82-83 | "(a(b)c)" gives the operation id "a(b": the lazy group ends at the first `)` |
| TacticalIconManager.StripCodes | core/ui/src/main/kotlin/org/meshtastic/core/ui/TacticalIconManager.kt:62-64 | deleting the codes adds no character |
| TacticalIconManager.StripCodesPrefix | core/ui/src/main/kotlin/org/meshtastic/core/ui/TacticalIconManager.kt:62-64 | a prefix without a code lead character is kept as it is |
| TacticalIconManager.StripCodesCode | core/ui/src/main/kotlin/org/meshtastic/core/ui/TacticalIconManager.kt:62-64 | the code of any unit type at the front is deleted |
| TacticalIconManager.StripCodesSuffix | core/ui/src/main/kotlin/org/meshtastic/core/ui/TacticalIconManager.kt:62-64 | a suffix without code characters or brackets is kept as it is |
| TacticalIconManager.CleanCore | core/ui/src/main/kotlin/org/meshtastic/core/ui/TacticalIconManager.kt:61-70 | the deletions add no character; for a name without `(` and `{` only the codes are deleted |
| TacticalIconManager.GetCleanName | core/ui/src/main/kotlin/org/meshtastic/core/ui/TacticalIconManager.kt:57-73 | no name gives "Unknown"; the result never starts or ends with whitespace; for a name without `(` and `{` it is the name with every code deleted, trimmed |
| TacticalIconManager.CleanPrefix | core/ui/src/main/kotlin/org/meshtastic/core/ui/TacticalIconManager.kt:61-70 | a prefix without brackets or code lead characters is kept by the deletions |
| TacticalIconManager.CleanSuffix | core/ui/src/main/kotlin/org/meshtastic/core/ui/TacticalIconManager.kt:61-70 | a blank suffix is kept by the deletions |
| TacticalIconManager.CleanCode | core/ui/src/main/kotlin/org/meshtastic/core/ui/TacticalIconManager.kt:61-70 | a unit code at the front is deleted |
| TacticalIconManager.CleanOpPart | core/ui/src/main/kotlin/org/meshtastic/core/ui/TacticalIconManager.kt:61-70 | the operation part the builder writes for a plain id is deleted |
| TacticalIconManager.CleanMissionPart | core/ui/src/main/kotlin/org/meshtastic/core/ui/TacticalIconManager.kt:61-70 | the mission part the builder writes for a plain id is deleted |
| TacticalIconManager.CleanOfTrimmed | core/ui/src/main/kotlin/org/meshtastic/core/ui/TacticalIconManager.kt:72 | trimming a name before the deletions does not change the trimmed clean name |
| TacticalIconManager.Assemble | core/ui/src/main/kotlin/org/meshtastic/core/ui/TacticalIconManager.kt:120-125 | the built name is trimmed, holds no two `\s` in a row, and adds no character but the space to the template |
| TacticalIconManager.AssembledLayout | core/ui/src/main/kotlin/org/meshtastic/core/ui/TacticalIconManager.kt:123-125 | for a one-word base name, a unit code and two written ids, the built name is `Name code (Op) {Mission}` with exactly one space between pieces |
| TacticalIconManager.PartShapes | core/ui/src/main/kotlin/org/meshtastic/core/ui/TacticalIconManager.kt:120-121 | each part is empty exactly when its id is blank, and otherwise is the id between its two brackets |
| TacticalIconManager.GenerateFullLongName | core/ui/src/main/kotlin/org/meshtastic/core/ui/TacticalIconManager.kt:102-126 | the result is trimmed and holds no run of two `\s` characters |
| TacticalIconManager.PlainIdBlank | core/ui/src/main/kotlin/org/meshtastic/core/ui/TacticalIconManager.kt:120-121 | a non-empty plain id is not blank, so the builder writes its group |
| TacticalIconManager.PieceSurvives | core/ui/src/main/kotlin/org/meshtastic/core/ui/TacticalIconManager.kt:125 | a piece without spaces passes the collapse and trim unchanged, between the collapsed text around it |
| TacticalIconManager.BracketedIdSurvives | core/ui/src/main/kotlin/org/meshtastic/core/ui/TacticalIconManager.kt:120-121 | a written `(id)` or `{id}` group for a plain id starts and ends with a non-whitespace bracket and holds no `\s`, so it meets the hypotheses of `PieceSurvives` |
| TacticalIconManager.GroupReadBack | core/ui/src/main/kotlin/org/meshtastic/core/ui/TacticalIconManager.kt:79-95 | a group written after a prefix without that bracket is read back by the extractor |
| TacticalIconManager.CodeReadBack | core/ui/src/main/kotlin/org/meshtastic/core/ui/TacticalIconManager.kt:117-125 | a unit code in the template is still contained in the built name |
| TacticalIconManager.CollapsedTail | core/ui/src/main/kotlin/org/meshtastic/core/ui/TacticalIconManager.kt:125 | after the base name the code and parts are kept, and each of the three template spaces becomes exactly one space unless it follows a `\s` run or an empty piece, where it is absorbed |
| TacticalIconManager.CollapsedTemplate | core/ui/src/main/kotlin/org/meshtastic/core/ui/TacticalIconManager.kt:123-125 | the collapsed template is the collapsed base name, then the code, operation part and mission part in order, each preceded by one space unless the base name ends in `\s`, the type is a soldier, or the operation id is blank |
| TacticalIconManager.CleanTemplateTail | core/ui/src/main/kotlin/org/meshtastic/core/ui/TacticalIconManager.kt:61-70 | deleting from what follows the base name in the collapsed template leaves only the kept template spaces |
| TacticalIconManager.CleanCollapsedTemplate | core/ui/src/main/kotlin/org/meshtastic/core/ui/TacticalIconManager.kt:61-70 | deleting from the collapsed template leaves the collapsed base name followed by blank text |
| TacticalIconManager.CleanNameOfAssembled | core/ui/src/main/kotlin/org/meshtastic/core/ui/TacticalIconManager.kt:57-73 | the clean name of a built long name is the base name it was built from, collapsed and trimmed |
| TacticalIconManager.CleanNameOfWord | core/ui/src/main/kotlin/org/meshtastic/core/ui/TacticalIconManager.kt:57-73 | a base name without whitespace, such as "Viper", is read back exactly from the long name built with any code and plain ids |
| TacticalIconManager.AbsentStaysAbsent | core/ui/src/main/kotlin/org/meshtastic/core/ui/TacticalIconManager.kt:125 | a character other than the space that is not in the template is not in the built name |
| TacticalIconManager.BlankOperationIdReadBack | core/ui/src/main/kotlin/org/meshtastic/core/ui/TacticalIconManager.kt:120 | an empty operation id is read back as "" |
| TacticalIconManager.WrittenOperationIdReadBack | core/ui/src/main/kotlin/org/meshtastic/core/ui/TacticalIconManager.kt:120 | a non-empty plain operation id is read back unchanged |
| TacticalIconManager.AssembledOperationId | core/ui/src/main/kotlin/org/meshtastic/core/ui/TacticalIconManager.kt:79-84 | the operation id the builder writes is the one `getOperationId` reads |
| TacticalIconManager.BlankMissionIdReadBack | core/ui/src/main/kotlin/org/meshtastic/core/ui/TacticalIconManager.kt:121 | an empty mission id is read back as "" |
| TacticalIconManager.WrittenMissionIdReadBack | core/ui/src/main/kotlin/org/meshtastic/core/ui/TacticalIconManager.kt:121 | a non-empty plain mission id is read back unchanged |
| TacticalIconManager.AssembledMissionId | core/ui/src/main/kotlin/org/meshtastic/core/ui/TacticalIconManager.kt:90-95 | the mission id the builder writes is the one `getMissionId` reads |
| TacticalIconManager.TemplateChars | core/ui/src/main/kotlin/org/meshtastic/core/ui/TacticalIconManager.kt:125 | every template character is a space, a bracket, or comes from the base name, the code or an id |
| TacticalIconManager.OnlyItsOwnCode | core/ui/src/main/kotlin/org/meshtastic/core/ui/TacticalIconManager.kt:117-125 | with a plain base name and ids, every code lead in the built name belongs to the written code |
| TacticalIconManager.CodeWritten | core/ui/src/main/kotlin/org/meshtastic/core/ui/TacticalIconManager.kt:117-125 | the code of a non-soldier type is contained in the built name |
| TacticalIconManager.TypeReadBack | core/ui/src/main/kotlin/org/meshtastic/core/ui/TacticalIconManager.kt:32-40 | a name holding the code of a type and no other code lead reads as that type |
| TacticalIconManager.AssembledUnitType | core/ui/src/main/kotlin/org/meshtastic/core/ui/TacticalIconManager.kt:115-125 | the unit type the builder writes is the one `getTypeFromName` reads |
| TacticalIconManager.GenerateRoundTrip | core/ui/src/main/kotlin/org/meshtastic/core/ui/TacticalIconManager.kt:102-126 | the operation id, mission id and unit type read from the generated name are the new values, or the current ones where no new value is given; its clean name is the current clean name, collapsed and trimmed |
| TacticalIconManager.BlankIdOmitted | core/ui/src/main/kotlin/org/meshtastic/core/ui/TacticalIconManager.kt:120-121 | a blank operation id leaves no `(` in the built name, and a blank mission id leaves no `{` |
| ModelNameHelper.GetFriendlyName | core/ui/src/main/kotlin/org/meshtastic/core/ui/ModelNameHelper.kt:4-19 | null gives "Unknown Unit"; the four listed ids give their names; any other name is returned unchanged; the result is never a listed id |
| ModelNameHelper.FriendlyNameIdempotent | core/ui/src/main/kotlin/org/meshtastic/core/ui/ModelNameHelper.kt:7-18 | applying the lookup to its own result changes nothing |
| ModelNameHelper.FriendlyNameCollisions | core/ui/src/main/kotlin/org/meshtastic/core/ui/ModelNameHelper.kt:9-17 | two different names are shown alike exactly when one is a listed id and the other is its friendly name |
| KotlinText.Split | feature/map/src/main/kotlin/org/meshtastic/feature/map/MapViewModel.kt:85 | `split("\|")` gives one more field than there are separators, no field holds the separator, and joining the fields gives the text back |
| KotlinText.SplitJoin | feature/map/src/main/kotlin/org/meshtastic/feature/map/MapViewModel.kt:85 | splitting joined fields without separators gives the fields back |
| KotlinText.SplitAppend | app/src/main/java/com/geeksville/mesh/service/TacticalBridge.kt:84 | splitting at one separator splits both sides independently |
| KotlinText.Trim | app/src/main/java/com/geeksville/mesh/service/TacticalBridge.kt:37 | `trim()` cuts only JVM whitespace from either end, and the result neither starts nor ends with whitespace |
| KotlinText.TrimIdempotent | core/ui/src/main/kotlin/org/meshtastic/core/ui/TacticalIconManager.kt:72 | trimming twice is trimming once |
| KotlinText.TrimPadding | app/src/main/java/com/geeksville/mesh/service/TacticalBridge.kt:37 | blank text around a string is removed by trimming |
| KotlinText.TrimBlankSuffix | core/ui/src/main/kotlin/org/meshtastic/core/ui/TacticalIconManager.kt:72 | a blank suffix makes no difference to `trim()` |
| KotlinText.TrimSplit | core/ui/src/main/kotlin/org/meshtastic/core/ui/TacticalIconManager.kt:72 | every text is its trimmed middle between two blank ends |
| KotlinText.BlankIffTrimsToEmpty | core/ui/src/main/kotlin/org/meshtastic/core/ui/TacticalIconManager.kt:120-121 | `isBlank()` holds exactly when trimming leaves nothing |
| KotlinText.RemovePrefix | app/src/main/java/com/geeksville/mesh/service/TacticalBridge.kt:48 | `removePrefix` drops the prefix exactly when the text starts with it, otherwise returns the text |
| KotlinText.StartsWithIgnoreCase | app/src/main/java/com/geeksville/mesh/service/TacticalBridge.kt:75-78 | an exact upper-case prefix and its lower-case form are both matched, and a match needs a text at least as long as the prefix |
| KotlinText.LowerAscii | app/src/main/java/com/geeksville/mesh/service/TacticalBridge.kt:75-78 | the lower-case form has the same length, and each letter is the upper-case one shifted by 32 |
| KotlinText.RemoveAll | core/ui/src/main/kotlin/org/meshtastic/core/ui/TacticalIconManager.kt:62-64 | `replace(code, "")` adds no character, never lengthens, shortens by at least the code when the code occurs, and leaves a text without the code unchanged |
| KotlinText.RemoveAllPlainPrefix | core/ui/src/main/kotlin/org/meshtastic/core/ui/TacticalIconManager.kt:62-64 | a prefix without the first character of the code is kept as it is |
| KotlinText.RemoveAllHead | core/ui/src/main/kotlin/org/meshtastic/core/ui/TacticalIconManager.kt:62-64 | an occurrence at the front is deleted |
| KotlinText.RemoveAllPlainSuffix | core/ui/src/main/kotlin/org/meshtastic/core/ui/TacticalIconManager.kt:62-64 | a suffix sharing no character with the code is kept as it is |
| KotlinText.ContainsIffOccurs | core/ui/src/main/kotlin/org/meshtastic/core/ui/TacticalIconManager.kt:35-37 | `contains` holds exactly when the code occurs at some index |
| KotlinText.CollapseSpaces | core/ui/src/main/kotlin/org/meshtastic/core/ui/TacticalIconManager.kt:125 | `replace("\\s+", " ")` leaves no two `\s` in a row and adds no character but the space |
| KotlinText.CollapseRun | core/ui/src/main/kotlin/org/meshtastic/core/ui/TacticalIconManager.kt:125 | a maximal run of `\s` between other characters, or at either end, becomes exactly one space, and each side is collapsed on its own |
| KotlinText.CollapseAround | core/ui/src/main/kotlin/org/meshtastic/core/ui/TacticalIconManager.kt:125 | collapsing a text around a piece without `\s` collapses each side and keeps the piece |
| KotlinText.TrimKeepsNoSpaceRun | core/ui/src/main/kotlin/org/meshtastic/core/ui/TacticalIconManager.kt:125 | trimming a text without runs of `\s` creates none |
| KotlinNumbers.ToInt | app/src/main/java/com/geeksville/mesh/service/TacticalBridge.kt:87 | `toInt` succeeds only on an optional sign and digits and gives a negative value only after `-`; for digits alone, after `+` or after `-`, it succeeds exactly when the value fits in an `Int`, and then gives that value with its sign |
| KotlinNumbers.IntToString | feature/map/src/main/kotlin/org/meshtastic/feature/map/MapViewModel.kt:119 | an `Int` renders as a non-empty text ending in a digit, without `\|`, with `-` exactly before the digits of a negative value |
| KotlinNumbers.ToIntOfIntToString | feature/map/src/main/kotlin/org/meshtastic/feature/map/MapViewModel.kt:90 | `toInt` reads back every value `Int.toString` writes |
| KotlinNumbers.FloatToInt | feature/map/src/main/kotlin/org/meshtastic/feature/map/MapViewModel.kt:119 | `Float.toInt` rounds toward zero and saturates at the ends of the `Int` range |
| KotlinNumbers.FloatTextAssumptionsMeetable | feature/map/src/main/kotlin/org/meshtastic/feature/map/MapViewModel.kt:87-89 | the assumptions made about `toDouble`, `toFloat` and `Double.toString` can all hold together for any two coordinates |

## Left out

- Sockets, coroutines and the clock: `sendViaSocket`, `CoroutineScope(...).launch` and `getCurrentIsoTimestamp` are not modelled. `OnNewMessage` returns the record it would send, and it takes the timestamp as a parameter.
- JSON text: `json.encodeToString` is kept as the record it encodes. The model does not state the encoded text.
- Floating point: `toDouble`, `toFloat` and `Double.toString` are abstract functions, constrained only by `PipeFree`, `ParsesIntegers` and `ReadsBack`. Values are `real`, so NaN, infinities, rounding and the difference between `Float` and `Double` are not modelled.
- The polygon outline `Polygon.pointsAsCircle` is not part of `MapZone` here, because it is computed from the centre and radius by the map library.
- `UUID.randomUUID()` is a counter: ids are serial numbers. The model states freshness, not randomness or the UUID format.
- `sendZone`'s packet send (`DataPacket`, `meshService.send`) is not modelled. `SendZoneMessage` is the text it sends.
- The collector's `payload.toStringUtf8()` decoding and its catch-all `try`/`catch` are not modelled: `OnMeshPacket` receives the decoded text, and a packet whose handling would throw is not distinguished from one that is ignored.
- The `Log.d` and `Log.e` calls of the bridge are diagnostics only and are not modelled.
- Kotlin strings are sequences of UTF-16 code units, while a Dafny `char` is a Unicode scalar value. Lone surrogates cannot be represented, and a code such as SHIELD is one `char` here where Kotlin sees two code units.
- The flows `ourNodeInfo`, `isConnected` and `nodesWithPosition` are UI state outside the zone protocol, and are not modelled.
- `android.graphics.Color.argb` is computed as the signed 32-bit packing of its four channels.
- The `R.drawable` integers are the four `Marker` values, and the unused `myCurrentEmoji` field is not modelled.
- MainActivity (the `TRK` sender), MapScreen, MapView and the circle-drawing overlay are UI, location and gesture code. They are not part of this model.
- KotlinNumbers.ToInt: accepts ASCII digits only. `Integer.parseInt` also accepts other Unicode decimal digits.
- KotlinText.StartsWithIgnoreCase: folds case for the ASCII letters of the prefixes used here, plus the Kelvin sign. Other non-ASCII characters that fold onto these letters are not covered.
- TacticalIconManager.GenerateFullLongName: the "no whitespace run" guarantee covers the ASCII class `\s` that the regular expression collapses. Two adjacent non-ASCII whitespace characters, such as two U+2003 inside an id, survive, because Kotlin's `replace("\\s+".toRegex(), " ")` does not touch them either.
- TacticalIconManager.GenerateRoundTrip: proved only for a clean base name without brackets or code leads and for ids without brackets, whitespace, line terminators or code leads. For other inputs the extractors can read a different group than the one written, and the source does not promise a round trip there.
- TacticalIconManager.GetCleanName: its own contract gives the result exactly only for names without `(` and `{`. For names with groups, the `RemoveGroups` lemmas state which groups are deleted, and `CleanNameOfAssembled` states the clean name of every built long name. A name whose groups nest or overlap across the two bracket kinds is not given a closed form.
