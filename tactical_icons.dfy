/**
 * The long-name codec of `TacticalIconManager`. A node's long name carries
 * its tactical identity as `Name <unit code> (Op) {Mission}`: a unit code
 * emoji selects the map marker, the first parenthesised group is the
 * operation id and the first braced group the mission id.
 *
 * The regular expressions `\(.*?\)` and `\{.*?\}` are modelled as a scan:
 * the leftmost opening bracket from which the closing bracket is reached
 * before any line terminator (which `.` does not match) starts the match,
 * and the match ends at the first closing bracket after it.
 */
module TacticalIconManager {
  import opened KotlinText

  /** The unit codes: SHIELD + VARIATION SELECTOR-16, HELICOPTER, and
      AIRPLANE + VARIATION SELECTOR-16. */
  const CodeTank: string := "\U{1F6E1}\U{FE0F}"
  const CodeHeli: string := "\U{1F681}"
  const CodeDrone: string := "\U{2708}\U{FE0F}"

  datatype UnitType = Soldier | Tank | Heli | Drone

  /** The four marker drawables; their resource integers are not modelled. */
  datatype Marker = MarkerSoldier | MarkerTank | MarkerHeli | MarkerDrone

  /** The marker drawn for each unit type. */
  function MarkerFor(t: UnitType): Marker {
    match t
    case Soldier => MarkerSoldier
    case Tank => MarkerTank
    case Heli => MarkerHeli
    case Drone => MarkerDrone
  }

  /** `getTypeFromName`: the first code found in the order tank, heli,
      drone decides; a name without a code, or no name, is a soldier. */
  function GetTypeFromName(longName: Option<string>): (t: UnitType)
    ensures longName.None? ==> t == Soldier
    ensures longName.Some? ==>
      var name := longName.value;
      && (t == Tank <==> Contains(name, CodeTank))
      && (t == Heli <==> !Contains(name, CodeTank) && Contains(name, CodeHeli))
      && (t == Drone <==> !Contains(name, CodeTank) && !Contains(name, CodeHeli) && Contains(name, CodeDrone))
  {
    match longName
    case None => Soldier
    case Some(name) =>
      if Contains(name, CodeTank) then Tank
      else if Contains(name, CodeHeli) then Heli
      else if Contains(name, CodeDrone) then Drone
      else Soldier
  }

  /** `getMarkerDrawable`: its own `when` over the codes, which always
      chooses the marker of the unit type `getTypeFromName` reads. */
  function GetMarkerDrawable(longName: Option<string>): (marker: Marker)
    ensures marker == MarkerFor(GetTypeFromName(longName))
  {
    match longName
    case None => MarkerSoldier
    case Some(name) =>
      if Contains(name, CodeTank) then MarkerTank
      else if Contains(name, CodeHeli) then MarkerHeli
      else if Contains(name, CodeDrone) then MarkerDrone
      else MarkerSoldier
  }

  /** `getEmojiForType`: a soldier has no code. */
  function GetEmojiForType(t: UnitType): (code: string)
    ensures code == [] <==> t == Soldier
  {
    match t
    case Soldier => ""
    case Tank => CodeTank
    case Heli => CodeHeli
    case Drone => CodeDrone
  }

  /** A name consisting of a type's code alone reads back as that type. */
  lemma EmojiRoundTrip(t: UnitType)
    ensures GetTypeFromName(Some(GetEmojiForType(t))) == t
  {
    var code := GetEmojiForType(t);
    assert code != [] ==> Contains(code, code) by {
      if code != [] { assert StartsWith(code, code); }
    }
    if Contains(code, CodeTank) { ContainsFirstChar(code, CodeTank); }
    if Contains(code, CodeHeli) { ContainsFirstChar(code, CodeHeli); }
    if Contains(code, CodeDrone) { ContainsFirstChar(code, CodeDrone); }
  }

  // ---------------------------------------------------------------------
  // The bracket groups
  // ---------------------------------------------------------------------

  /** In the text `t` after an opening bracket, position `j` holds the
      closing bracket `.*?` stops at: the first one, with no line
      terminator before it. */
  predicate Reaches(t: string, close: char, j: int) {
    && 0 <= j < |t|
    && t[j] == close
    && forall k :: 0 <= k < j ==> t[k] != close && !IsLineTerminator(t[k])
  }

  /** Where the lazy group after an opening bracket ends, if anywhere. */
  function GroupClose(t: string, close: char): (r: Option<nat>)
    ensures r.Some? ==> Reaches(t, close, r.value)
    ensures r.None? ==> forall j :: !Reaches(t, close, j)
    decreases |t|
  {
    if t == [] then None
    else if t[0] == close then Some(0)
    else if IsLineTerminator(t[0]) then None
    else
      match GroupClose(t[1..], close)
      case None =>
        assert forall j :: !Reaches(t, close, j) by {
          forall j | Reaches(t, close, j) ensures false {
            assert Reaches(t[1..], close, j - 1);
          }
        }
        None
      case Some(j) =>
        assert Reaches(t, close, j + 1) by {
          forall k | 0 <= k < j + 1 ensures t[k] != close && !IsLineTerminator(t[k]) {
            if k > 0 { assert t[k] == t[1..][k - 1]; }
          }
        }
        Some(j + 1)
  }

  /** `GroupClose` finds the one position `.*?` stops at, whenever there is one. */
  lemma GroupCloseAt(t: string, close: char, j: int)
    requires Reaches(t, close, j)
    ensures GroupClose(t, close) == Some(j)
  {
    var k := GroupClose(t, close).value;
    assert t[k] == close;
    assert t[j] == close;
  }

  /** A suffix without the closing bracket cannot end a group the text before it left open. */
  lemma GroupCloseAppend(t: string, w: string, close: char)
    requires close !in w
    ensures GroupClose(t + w, close) == GroupClose(t, close)
  {
    var s := t + w;
    forall k | |t| <= k < |s| ensures s[k] != close {
      assert s[k] == w[k - |t|];
    }
    forall j | Reaches(t, close, j) ensures Reaches(s, close, j) {
      assert forall k :: 0 <= k <= j ==> s[k] == t[k];
    }
    forall j | Reaches(s, close, j) ensures Reaches(t, close, j) {
      assert j < |t|;
      assert forall k :: 0 <= k <= j ==> s[k] == t[k];
    }
  }

  /** Position `k` holds an opening bracket whose group closes: a match starts there. */
  predicate OpensGroup(s: string, k: int, open: char, close: char) {
    0 <= k < |s| && s[k] == open && GroupClose(s[k + 1..], close).Some?
  }

  /** Dropping the first character moves every match one position left. */
  lemma OpensGroupShift(s: string, i: nat, open: char, close: char)
    requires s != []
    ensures OpensGroup(s[1..], i, open, close) <==> OpensGroup(s, i + 1, open, close)
  {
    if i < |s| - 1 {
      assert s[1..][i] == s[i + 1];
      assert s[1..][i + 1..] == s[i + 2..];
    }
  }

  /** Group 1 of the leftmost match, `""` when there is none: scanning from
      the front, the first opening bracket whose group closes. */
  function GroupValue(s: string, open: char, close: char): (v: string)
    ensures open !in s ==> v == []
    ensures close !in s ==> v == []
    ensures forall c :: c in v ==> c in s && c != close && !IsLineTerminator(c)
    decreases |s|
  {
    if s == [] then ""
    else if s[0] == open && GroupClose(s[1..], close).Some? then
      var j := GroupClose(s[1..], close).value;
      var v := s[1..][..j];
      assert s[1..][j] == close;
      assert forall c :: c in v ==> c in s && c != close && !IsLineTerminator(c) by {
        forall c | c in v ensures c in s && c != close && !IsLineTerminator(c) {
          var k :| 0 <= k < j && v[k] == c;
          assert s[1..][k] == c;
        }
      }
      v
    else
      var v := GroupValue(s[1..], open, close);
      assert forall c :: c in s[1..] ==> c in s;
      v
  }

  /** Without a match the value is empty: an opening bracket whose group
      never closes is not a group. */
  lemma {:induction false} GroupValueNone(s: string, open: char, close: char)
    requires forall k :: !OpensGroup(s, k, open, close)
    ensures GroupValue(s, open, close) == []
    decreases |s|
  {
    if s != [] {
      assert !OpensGroup(s, 0, open, close);
      assert s[0 + 1..] == s[1..];
      forall k | 0 <= k ensures !OpensGroup(s[1..], k, open, close) {
        OpensGroupShift(s, k, open, close);
      }
      GroupValueNone(s[1..], open, close);
    }
  }

  /** The value is the group of the leftmost match. */
  lemma {:induction false} GroupValueLeftmost(s: string, k: nat, open: char, close: char)
    requires OpensGroup(s, k, open, close)
    requires forall i :: 0 <= i < k ==> !OpensGroup(s, i, open, close)
    ensures var j := GroupClose(s[k + 1..], close).value;
      GroupValue(s, open, close) == s[k + 1..k + 1 + j]
    decreases k
  {
    var j := GroupClose(s[k + 1..], close).value;
    if k == 0 {
      assert s[0 + 1..] == s[1..];
      assert s[1..][..j] == s[1..1 + j];
    } else {
      assert !OpensGroup(s, 0, open, close);
      assert s[0 + 1..] == s[1..];
      OpensGroupShift(s, k - 1, open, close);
      forall i | 0 <= i < k - 1 ensures !OpensGroup(s[1..], i, open, close) {
        OpensGroupShift(s, i, open, close);
      }
      assert s[1..][k - 1 + 1..] == s[k + 1..];
      GroupValueLeftmost(s[1..], k - 1, open, close);
      assert s[1..][k..k + j] == s[k + 1..k + 1 + j];
    }
  }

  /** The group read at the front of a text that starts with one. */
  lemma GroupAtFront(v: string, y: string, open: char, close: char)
    requires close !in v && forall c :: c in v ==> !IsLineTerminator(c)
    ensures var s := [open] + v + [close] + y;
      && s[1..] == v + [close] + y
      && GroupClose(s[1..], close) == Some(|v|)
  {
    var s := [open] + v + [close] + y;
    var t := v + [close] + y;
    assert s[1..] == t;
    assert Reaches(t, close, |v|) by {
      forall k | 0 <= k < |v| ensures t[k] == v[k] { }
    }
    GroupCloseAt(t, close, |v|);
  }

  /** After a prefix without an opening bracket, a group whose contents hold
      no closing bracket and no line terminator is the one found. */
  lemma {:induction false} GroupAfterPlainPrefix(x: string, v: string, y: string, open: char, close: char)
    requires open !in x
    requires close !in v && forall c :: c in v ==> !IsLineTerminator(c)
    ensures GroupValue(x + ([open] + v + [close]) + y, open, close) == v
    decreases |x|
  {
    var s := x + ([open] + v + [close]) + y;
    if x == [] {
      assert s == [open] + v + [close] + y;
      GroupAtFront(v, y, open, close);
      assert (v + [close] + y)[..|v|] == v;
    } else {
      assert s[0] == x[0];
      assert s[1..] == x[1..] + ([open] + v + [close]) + y;
      GroupAfterPlainPrefix(x[1..], v, y, open, close);
    }
  }

  /** `replace(regex, "")`: every match, found left to right with each
      search resuming after the previous match, is deleted; scanning from
      the front, a match that starts here is dropped and the scan resumes
      after its closing bracket, and any other character is kept. */
  function RemoveGroups(s: string, open: char, close: char): (r: string)
    ensures forall c :: c in r ==> c in s
    decreases |s|
  {
    if s == [] then []
    else if s[0] == open && GroupClose(s[1..], close).Some? then
      var j := GroupClose(s[1..], close).value;
      assert s[1..][j] == close;
      var r := RemoveGroups(s[j + 2..], open, close);
      assert forall c :: c in s[j + 2..] ==> c in s;
      r
    else
      var r := [s[0]] + RemoveGroups(s[1..], open, close);
      assert forall c :: c in s[1..] ==> c in s;
      assert s == [s[0]] + s[1..];
      r
  }

  /** A text without the opening bracket, or without the closing bracket,
      holds no match and is kept as it is. */
  lemma {:induction false} RemoveGroupsUntouched(s: string, open: char, close: char)
    ensures open !in s ==> RemoveGroups(s, open, close) == s
    ensures close !in s ==> RemoveGroups(s, open, close) == s
    decreases |s|
  {
    if s != [] && (open !in s || close !in s) {
      RemoveGroupsUntouched(s[1..], open, close);
      assert [s[0]] + s[1..] == s;
    }
  }

  /** Without a match the text is kept as it is. */
  lemma {:induction false} RemoveGroupsNone(s: string, open: char, close: char)
    requires forall k :: !OpensGroup(s, k, open, close)
    ensures RemoveGroups(s, open, close) == s
    decreases |s|
  {
    if s != [] {
      assert !OpensGroup(s, 0, open, close);
      assert s[0 + 1..] == s[1..];
      forall k | 0 <= k ensures !OpensGroup(s[1..], k, open, close) {
        OpensGroupShift(s, k, open, close);
      }
      RemoveGroupsNone(s[1..], open, close);
      assert [s[0]] + s[1..] == s;
    }
  }

  /** The leftmost match is deleted, the text before it kept, and the scan
      resumes after its closing bracket. */
  lemma RemoveGroupsLeftmost(s: string, k: nat, j: nat, open: char, close: char)
    requires OpensGroup(s, k, open, close) && GroupClose(s[k + 1..], close) == Some(j)
    requires forall i :: 0 <= i < k ==> !OpensGroup(s, i, open, close)
    ensures k + 2 + j <= |s|
    ensures RemoveGroups(s, open, close) == s[..k] + RemoveGroups(s[k + 2 + j..], open, close)
  {
    var x, y := s[..k], s[k..];
    assert s == x + y;
    assert y[1..] == s[k + 1..];
    RemoveGroupsFront(y, j, open, close);
    assert y[j + 2..] == s[k + 2 + j..];
    RemoveGroupsQuietPrefix(x, y, open, close);
  }

  /** A prefix in which no match starts is kept as it is. */
  lemma {:induction false} RemoveGroupsQuietPrefix(x: string, y: string, open: char, close: char)
    requires forall i :: 0 <= i < |x| ==> !OpensGroup(x + y, i, open, close)
    ensures RemoveGroups(x + y, open, close) == x + RemoveGroups(y, open, close)
    decreases |x|
  {
    if x == [] {
      assert x + y == y;
    } else {
      var s := x + y;
      assert !OpensGroup(s, 0, open, close);
      assert s[0] == x[0];
      assert s[1..] == x[1..] + y;
      forall i | 0 <= i < |x| - 1 ensures !OpensGroup(x[1..] + y, i, open, close) {
        OpensGroupShift(s, i, open, close);
      }
      RemoveGroupsKeep(s, open, close);
      RemoveGroupsQuietPrefix(x[1..], y, open, close);
      ConsAppend(x, RemoveGroups(y, open, close));
    }
  }

  /** A match at the front is deleted. */
  lemma RemoveGroupsFront(s: string, j: nat, open: char, close: char)
    requires s != [] && s[0] == open && GroupClose(s[1..], close) == Some(j)
    ensures j + 2 <= |s|
    ensures RemoveGroups(s, open, close) == RemoveGroups(s[j + 2..], open, close)
  {
    assert j < |s[1..]| by { assert Reaches(s[1..], close, j); }
  }


  /** A first character that starts no match is kept. */
  lemma RemoveGroupsKeep(s: string, open: char, close: char)
    requires s != [] && !OpensGroup(s, 0, open, close)
    ensures RemoveGroups(s, open, close) == [s[0]] + RemoveGroups(s[1..], open, close)
  {
    assert s[0 + 1..] == s[1..];
  }

  /** A prefix without the opening bracket is kept as it is. */
  lemma {:induction false} RemoveGroupsPlainPrefix(x: string, y: string, open: char, close: char)
    requires open !in x
    ensures RemoveGroups(x + y, open, close) == x + RemoveGroups(y, open, close)
    decreases |x|
  {
    if x == [] {
      assert x + y == y;
    } else {
      var s := x + y;
      var ry := RemoveGroups(y, open, close);
      assert s[0] == x[0];
      assert s[1..] == x[1..] + y;
      RemoveGroupsKeep(s, open, close);
      RemoveGroupsPlainPrefix(x[1..], y, open, close);
      ConsAppend(x, ry);
    }
  }

  lemma ConsAppend(x: string, r: string)
    requires x != []
    ensures [x[0]] + (x[1..] + r) == x + r
  {
    assert [x[0]] + x[1..] == x;
  }

  /** A group at the front, closed before any line terminator, is deleted. */
  lemma RemoveGroupsHead(v: string, y: string, open: char, close: char)
    requires close !in v && forall c :: c in v ==> !IsLineTerminator(c)
    ensures RemoveGroups([open] + v + [close] + y, open, close) == RemoveGroups(y, open, close)
  {
    var s := [open] + v + [close] + y;
    GroupAtFront(v, y, open, close);
    assert s[|v| + 2..] == y;
  }

  /** A suffix with neither bracket is kept as it is. */
  lemma {:induction false} RemoveGroupsSuffix(y: string, w: string, open: char, close: char)
    requires open !in w && close !in w
    ensures RemoveGroups(y + w, open, close) == RemoveGroups(y, open, close) + w
    decreases |y|
  {
    var s := y + w;
    if y == [] {
      assert s == w;
      RemoveGroupsUntouched(w, open, close);
    } else {
      assert s[0] == y[0];
      assert s[1..] == y[1..] + w;
      GroupCloseAppend(y[1..], w, close);
      if y[0] == open && GroupClose(y[1..], close).Some? {
        var j := GroupClose(y[1..], close).value;
        assert s[j + 2..] == y[j + 2..] + w;
        RemoveGroupsSuffix(y[j + 2..], w, open, close);
      } else {
        RemoveGroupsSuffix(y[1..], w, open, close);
        assert [y[0]] + (RemoveGroups(y[1..], open, close) + w)
            == ([y[0]] + RemoveGroups(y[1..], open, close)) + w;
      }
    }
  }

  /** `getOperationId`: the contents of the first `( … )` group. */
  function GetOperationId(longName: Option<string>): (opId: string)
    ensures longName.None? ==> opId == ""
    ensures longName.Some? && '(' !in longName.value ==> opId == ""
    ensures longName.Some? && ')' !in longName.value ==> opId == ""
    ensures ')' !in opId
  {
    match longName
    case None => ""
    case Some(name) => GroupValue(name, '(', ')')
  }

  /** `getMissionId`: the contents of the first `{ … }` group. */
  function GetMissionId(longName: Option<string>): (missionId: string)
    ensures longName.None? ==> missionId == ""
    ensures longName.Some? && '{' !in longName.value ==> missionId == ""
    ensures longName.Some? && '}' !in longName.value ==> missionId == ""
    ensures '}' !in missionId
  {
    match longName
    case None => ""
    case Some(name) => GroupValue(name, '{', '}')
  }

  lemma OperationIdExample()
    ensures GetOperationId(Some("Viper (Alpha)")) == "Alpha"
  {
    ExampleTexts();
    GroupAfterPlainPrefix("Viper ", "Alpha", "", '(', ')');
  }

  /** A group that is never closed is not a group. */
  lemma UnclosedGroupExample()
    ensures GetOperationId(Some("Viper (Alpha")) == ""
    ensures GetMissionId(Some("Viper {Rescue")) == ""
  {
    assert ')' !in "Viper (Alpha";
    assert '}' !in "Viper {Rescue";
  }

  /** The lazy group ends at the first closing bracket. */
  lemma NestedGroupExample()
    ensures GetOperationId(Some("(a(b)c)")) == "a(b"
  {
    ExampleTexts();
    GroupAfterPlainPrefix("", "a(b", "c)", '(', ')');
  }

  lemma MissionIdExample()
    ensures GetMissionId(Some("Viper {Rescue}")) == "Rescue"
  {
    ExampleTexts();
    GroupAfterPlainPrefix("Viper ", "Rescue", "", '{', '}');
  }

  /** The example texts, split around their groups. */
  lemma ExampleTexts()
    ensures "Viper (Alpha)" == "Viper " + (['('] + "Alpha" + [')']) + ""
    ensures "Viper {Rescue}" == "Viper " + (['{'] + "Rescue" + ['}']) + ""
    ensures "(a(b)c)" == "" + (['('] + "a(b" + [')']) + "c)"
  {
  }

  // ---------------------------------------------------------------------
  // Clean name and the long-name builder
  // ---------------------------------------------------------------------

  /** The three `replace(code, "")` calls, tank first. */
  function StripCodes(name: string): (r: string)
    ensures forall c :: c in r ==> c in name
  {
    RemoveAll(RemoveAll(RemoveAll(name, CodeTank), CodeHeli), CodeDrone)
  }

  /** A prefix without a code lead character is kept as it is. */
  lemma StripCodesPrefix(x: string, y: string)
    requires forall c :: c in x ==> !IsCodeLead(c)
    ensures StripCodes(x + y) == x + StripCodes(y)
  {
    RemoveAllPlainPrefix(x, y, CodeTank);
    var y1 := RemoveAll(y, CodeTank);
    RemoveAllPlainPrefix(x, y1, CodeHeli);
    var y2 := RemoveAll(y1, CodeHeli);
    RemoveAllPlainPrefix(x, y2, CodeDrone);
  }

  /** A unit code at the front is deleted. */
  lemma StripCodesCode(t: UnitType, y: string)
    ensures StripCodes(GetEmojiForType(t) + y) == StripCodes(y)
  {
    var code := GetEmojiForType(t);
    match t
    case Soldier =>
      assert code + y == y;
    case Tank =>
      RemoveAllHead(y, CodeTank);
    case Heli =>
      RemoveAllPlainPrefix(code, y, CodeTank);
      RemoveAllHead(RemoveAll(y, CodeTank), CodeHeli);
    case Drone =>
      RemoveAllPlainPrefix(code, y, CodeTank);
      var y1 := RemoveAll(y, CodeTank);
      RemoveAllPlainPrefix(code, y1, CodeHeli);
      RemoveAllHead(RemoveAll(y1, CodeHeli), CodeDrone);
  }

  /** Whitespace is neither a code character nor a bracket. */
  predicate IsInert(c: char) {
    && c !in CodeTank && c !in CodeHeli && c !in CodeDrone
    && c != '(' && c != ')' && c != '{' && c != '}'
  }

  lemma BlankIsInert(w: string)
    requires IsBlank(w)
    ensures forall c :: c in w ==> IsInert(c) && !IsCodeLead(c)
  {
    forall c | c in w ensures IsInert(c) && !IsCodeLead(c) {
      var i :| 0 <= i < |w| && w[i] == c;
      assert IsWhitespace(w[i]);
    }
  }

  /** A suffix without code characters is kept as it is. */
  lemma StripCodesSuffix(y: string, w: string)
    requires forall c :: c in w ==> IsInert(c)
    ensures StripCodes(y + w) == StripCodes(y) + w
  {
    RemoveAllPlainSuffix(y, w, CodeTank);
    var y1 := RemoveAll(y, CodeTank);
    RemoveAllPlainSuffix(y1, w, CodeHeli);
    var y2 := RemoveAll(y1, CodeHeli);
    RemoveAllPlainSuffix(y2, w, CodeDrone);
  }

  /** What `getCleanName` deletes from a name before trimming: the codes,
      then the parenthesised groups, then the braced groups. */
  function CleanCore(name: string): (r: string)
    ensures forall c :: c in r ==> c in name
    ensures '(' !in name && '{' !in name ==> r == StripCodes(name)
  {
    var stripped := StripCodes(name);
    RemoveGroupsUntouched(stripped, '(', ')');
    var r := RemoveGroups(stripped, '(', ')');
    RemoveGroupsUntouched(r, '{', '}');
    RemoveGroups(r, '{', '}')
  }

  /** `getCleanName`: the deleted name trimmed; no name reads as `"Unknown"`. */
  function GetCleanName(longName: Option<string>): (baseName: string)
    ensures longName.None? ==> baseName == "Unknown"
    ensures IsTrimmed(baseName)
    ensures longName.Some? && '(' !in longName.value && '{' !in longName.value ==>
      baseName == Trim(StripCodes(longName.value))
  {
    match longName
    case None => "Unknown"
    case Some(name) => Trim(CleanCore(name))
  }

  /** A plain prefix is kept as it is. */
  lemma CleanPrefix(x: string, y: string)
    requires IsPlainBase(x)
    ensures CleanCore(x + y) == x + CleanCore(y)
  {
    StripCodesPrefix(x, y);
    var y1 := StripCodes(y);
    RemoveGroupsPlainPrefix(x, y1, '(', ')');
    RemoveGroupsPlainPrefix(x, RemoveGroups(y1, '(', ')'), '{', '}');
  }

  /** A blank suffix is kept as it is. */
  lemma CleanSuffix(y: string, w: string)
    requires IsBlank(w)
    ensures CleanCore(y + w) == CleanCore(y) + w
  {
    BlankIsInert(w);
    StripCodesSuffix(y, w);
    var y1 := StripCodes(y);
    RemoveGroupsSuffix(y1, w, '(', ')');
    RemoveGroupsSuffix(RemoveGroups(y1, '(', ')'), w, '{', '}');
  }

  /** A unit code at the front is deleted. */
  lemma CleanCode(t: UnitType, y: string)
    ensures CleanCore(GetEmojiForType(t) + y) == CleanCore(y)
  {
    StripCodesCode(t, y);
  }

  /** An operation part written by the builder is deleted. */
  lemma CleanOpPart(opId: string, y: string)
    requires IsPlainId(opId)
    ensures CleanCore(OpPart(opId) + y) == CleanCore(y)
  {
    if IsBlank(opId) {
      assert OpPart(opId) + y == y;
    } else {
      var p := ['('] + opId + [')'];
      assert OpPart(opId) == p;
      StripCodesPrefix(p, y);
      var y1 := StripCodes(y);
      RemoveGroupsHead(opId, y1, '(', ')');
    }
  }

  /** A mission part written by the builder is deleted. */
  lemma CleanMissionPart(missionId: string, y: string)
    requires IsPlainId(missionId)
    ensures CleanCore(MissionPart(missionId) + y) == CleanCore(y)
  {
    if IsBlank(missionId) {
      assert MissionPart(missionId) + y == y;
    } else {
      var p := ['{'] + missionId + ['}'];
      assert MissionPart(missionId) == p;
      StripCodesPrefix(p, y);
      var y1 := StripCodes(y);
      RemoveGroupsPlainPrefix(p, y1, '(', ')');
      var y2 := RemoveGroups(y1, '(', ')');
      RemoveGroupsHead(missionId, y2, '{', '}');
    }
  }

  /** `"($opId)"` when the id is not blank, nothing otherwise. */
  function OpPart(opId: string): string {
    if !IsBlank(opId) then "(" + opId + ")" else ""
  }

  /** `"{$missionId}"` when the id is not blank, nothing otherwise. */
  function MissionPart(missionId: string): string {
    if !IsBlank(missionId) then "{" + missionId + "}" else ""
  }

  /** A part is empty exactly when its id is blank, and otherwise is the id
      between its two brackets. */
  lemma PartShapes(opId: string, missionId: string)
    ensures var part := OpPart(opId);
      && (part == [] <==> IsBlank(opId))
      && (part != [] ==> part[0] == '(' && part[|part| - 1] == ')' && part[1..|part| - 1] == opId)
    ensures var part := MissionPart(missionId);
      && (part == [] <==> IsBlank(missionId))
      && (part != [] ==> part[0] == '{' && part[|part| - 1] == '}' && part[1..|part| - 1] == missionId)
  {
  }

  /** The template `"$baseName $emoji $opPart $missionPart"`. */
  function Template(baseName: string, t: UnitType, opId: string, missionId: string): string {
    baseName + " " + GetEmojiForType(t) + " " + OpPart(opId) + " " + MissionPart(missionId)
  }

  /** The template with every run of `\s` collapsed to one space, trimmed. */
  function Assemble(baseName: string, t: UnitType, opId: string, missionId: string): (r: string)
    ensures IsTrimmed(r) && NoSpaceRun(r)
    ensures forall c :: c in r ==> c in Template(baseName, t, opId, missionId) || c == ' '
  {
    var collapsed := CollapseSpaces(Template(baseName, t, opId, missionId));
    TrimKeepsNoSpaceRun(collapsed);
    TrimChars(collapsed);
    Trim(collapsed)
  }

  /** `generateFullLongName`: the clean base name, then the unit code, the
      operation part and the mission part; each new value that is absent is
      replaced by the one read from the current long name. The result never
      starts or ends with whitespace and holds no two `\s` in a row. */
  function GenerateFullLongName(
    currentLongName: string, newOpId: Option<string> := None,
    newMissionId: Option<string> := None, newUnitType: Option<UnitType> := None): (r: string)
    ensures IsTrimmed(r) && NoSpaceRun(r)
  {
    var baseName := GetCleanName(Some(currentLongName));
    var opId := newOpId.GetOr(GetOperationId(Some(currentLongName)));
    var missionId := newMissionId.GetOr(GetMissionId(Some(currentLongName)));
    var t := newUnitType.GetOr(GetTypeFromName(Some(currentLongName)));
    Assemble(baseName, t, opId, missionId)
  }

  /** The lead characters of the three codes. */
  predicate IsCodeLead(c: char) {
    c == CodeTank[0] || c == CodeHeli[0] || c == CodeDrone[0]
  }

  /** A base name the builder can put in front without disturbing what
      follows: no opening bracket and no code lead character. */
  predicate IsPlainBase(baseName: string) {
    forall c :: c in baseName ==> c != '(' && c != '{' && !IsCodeLead(c)
  }

  /** An id that survives the trip: no bracket, no whitespace, no line
      terminator and no code lead character. */
  predicate IsPlainId(id: string) {
    forall c :: c in id ==>
      && c != '(' && c != ')' && c != '{' && c != '}'
      && !IsWhitespace(c) && !IsLineTerminator(c) && !IsCodeLead(c)
  }

  lemma PlainIdBlank(id: string)
    requires IsPlainId(id)
    ensures IsBlank(id) <==> id == []
  {
    if id != [] { assert id[0] in id; }
  }

  /** A piece with no whitespace inside, enclosed in two non-whitespace
      characters, passes through collapse and trim unchanged. */
  lemma PieceSurvives(x: string, p: string, y: string)
    requires p != [] && !IsWhitespace(p[0]) && !IsWhitespace(p[|p| - 1])
    requires forall c :: c in p ==> !IsRegexSpace(c)
    ensures Trim(CollapseSpaces(x + p + y)) == TrimStart(CollapseSpaces(x)) + p + TrimEnd(CollapseSpaces(y))
    ensures forall c :: c in TrimStart(CollapseSpaces(x)) ==> c in x || c == ' '
  {
    forall i | 0 <= i < |p| ensures !IsRegexSpace(p[i]) {
      assert p[i] in p;
    }
    CollapseAround(x, p, y);
    TrimAround(CollapseSpaces(x), p, CollapseSpaces(y));
    TrimStartChars(CollapseSpaces(x));
  }

  lemma BracketedIdSurvives(open: char, id: string, close: char)
    requires IsPlainId(id)
    requires open == '(' || open == '{'
    requires close == ')' || close == '}'
    ensures var p := [open] + id + [close];
      && p != [] && !IsWhitespace(p[0]) && !IsWhitespace(p[|p| - 1])
      && forall c :: c in p ==> !IsRegexSpace(c)
  {
    forall c | c in id ensures !IsRegexSpace(c) {
      RegexSpaceIsWhitespace(c);
    }
  }

  /** A bracketed plain id after a prefix without the opening bracket is
      the group read back once the text is collapsed and trimmed. */
  lemma GroupReadBack(x: string, open: char, id: string, close: char, y: string)
    requires open == '(' || open == '{'
    requires close == ')' || close == '}'
    requires open !in x && IsPlainId(id)
    ensures GroupValue(Trim(CollapseSpaces(x + ([open] + id + [close]) + y)), open, close) == id
  {
    BracketedIdSurvives(open, id, close);
    PieceSurvives(x, [open] + id + [close], y);
    assert open !in TrimStart(CollapseSpaces(x));
    GroupAfterPlainPrefix(TrimStart(CollapseSpaces(x)), id, TrimEnd(CollapseSpaces(y)), open, close);
  }

  /** A non-empty code free of whitespace is still in the text after collapse and trim. */
  lemma CodeReadBack(x: string, code: string, y: string)
    requires code != [] && !IsWhitespace(code[0]) && !IsWhitespace(code[|code| - 1])
    requires forall c :: c in code ==> !IsRegexSpace(c)
    ensures Contains(Trim(CollapseSpaces(x + code + y)), code)
  {
    PieceSurvives(x, code, y);
    ContainsMiddle(TrimStart(CollapseSpaces(x)), code, TrimEnd(CollapseSpaces(y)));
  }

  /** After the base name, the collapse keeps the pieces and turns each of
      the three template spaces into one space, except that a space
      following a run (the base name's trailing `\s`, or the space before
      an empty piece) is absorbed into that run. */
  lemma CollapsedTail(code: string, o: string, m: string, afterSpace: bool) returns (h1: string, h2: string, h3: string)
    requires forall c :: c in code ==> !IsRegexSpace(c)
    requires forall c :: c in o ==> !IsRegexSpace(c)
    requires forall c :: c in m ==> !IsRegexSpace(c)
    ensures h1 == (if afterSpace then "" else " ")
    ensures h2 == (if code == [] then "" else " ")
    ensures h3 == (if o == [] then "" else " ")
    ensures IsBlank(h1) && IsBlank(h2) && IsBlank(h3)
    ensures CollapseFrom(" " + (code + (" " + (o + (" " + m)))), afterSpace) == h1 + (code + (h2 + (o + (h3 + m))))
  {
    var rest3 := " " + m;
    var rest2 := " " + (o + rest3);
    var rest1 := code + rest2;
    h1 := if afterSpace then "" else " ";
    CollapseSpaceStep(rest1, afterSpace);
    CollapsePieceStep(code, rest2);
    h2 := if code == [] then "" else " ";
    CollapseSpaceStep(o + rest3, code == []);
    CollapsePieceStep(o, rest3);
    h3 := if o == [] then "" else " ";
    CollapseSpaceStep(m, o == []);
    CollapsePieceStep(m, []);
    assert m + [] == m;
  }

  /** Trimming a name first makes no difference to its clean name. */
  lemma CleanOfTrimmed(s: string)
    ensures Trim(CleanCore(Trim(s))) == Trim(CleanCore(s))
  {
    var a := Trim(s);
    var before, after := TrimSplit(s);
    BlankIsPlain(before);
    CleanPrefix(before, a + after);
    CleanSuffix(a, after);
    TrimPadding(before, CleanCore(a), after);
  }

  lemma BlankIsPlain(w: string)
    requires IsBlank(w)
    ensures IsPlainBase(w)
  {
    BlankIsInert(w);
  }

  /** The collapsed base name is still a plain base name. */
  lemma CollapsedPlainBase(baseName: string)
    requires IsPlainBase(baseName)
    ensures IsPlainBase(CollapseSpaces(baseName))
  {
  }

  /** Deleting from what follows the base name in the collapsed template
      leaves only the template spaces. */
  lemma CleanTemplateTail(t: UnitType, opId: string, missionId: string, h1: string, h2: string, h3: string)
    requires IsBlank(h1) && IsBlank(h2) && IsBlank(h3)
    requires IsPlainId(opId) && IsPlainId(missionId)
    ensures var tail := h1 + (GetEmojiForType(t) + (h2 + (OpPart(opId) + (h3 + MissionPart(missionId)))));
      CleanCore(tail) == h1 + (h2 + h3)
  {
    var m := MissionPart(missionId);
    var r3 := h3 + m;
    var r2 := OpPart(opId) + r3;
    var r1 := h2 + r2;
    var r0 := GetEmojiForType(t) + r1;
    BlankIsPlain(h1);
    CleanPrefix(h1, r0);
    CleanCode(t, r1);
    BlankIsPlain(h2);
    CleanPrefix(h2, r2);
    CleanOpPart(opId, r3);
    BlankIsPlain(h3);
    CleanMissionEnd(missionId, h3);
  }

  /** The mission part at the end of the template, after its space, leaves the space. */
  lemma CleanMissionEnd(missionId: string, h: string)
    requires IsPlainId(missionId) && IsPlainBase(h)
    ensures CleanCore(h + MissionPart(missionId)) == h
  {
    var m := MissionPart(missionId);
    CleanPrefix(h, m);
    CleanMissionPart(missionId, []);
    assert m + [] == m;
  }

  /** Deleting from the collapsed template leaves the collapsed base name
      and at most the three template spaces. */
  lemma CleanCollapsedTemplate(baseName: string, t: UnitType, opId: string, missionId: string) returns (blank: string)
    requires IsPlainBase(baseName) && IsPlainId(opId) && IsPlainId(missionId)
    ensures IsBlank(blank)
    ensures CleanCore(CollapseSpaces(Template(baseName, t, opId, missionId))) == CollapseSpaces(baseName) + blank
  {
    var h1, h2, h3, rest := CollapsedTemplate(baseName, t, opId, missionId);
    var cb := CollapseSpaces(baseName);
    CollapsedPlainBase(baseName);
    CleanPrefix(cb, rest);
    CleanTemplateTail(t, opId, missionId, h1, h2, h3);
    blank := h1 + (h2 + h3);
    BlankConcat(h2, h3);
    BlankConcat(h1, h2 + h3);
  }

  lemma PartsHaveNoSpace(opId: string, missionId: string)
    requires IsPlainId(opId) && IsPlainId(missionId)
    ensures forall c :: c in OpPart(opId) ==> !IsRegexSpace(c)
    ensures forall c :: c in MissionPart(missionId) ==> !IsRegexSpace(c)
  {
    forall c | c in OpPart(opId) ensures !IsRegexSpace(c) {
      RegexSpaceIsWhitespace(c);
    }
    forall c | c in MissionPart(missionId) ensures !IsRegexSpace(c) {
      RegexSpaceIsWhitespace(c);
    }
  }

  /** The collapsed template: the collapsed base name, then the pieces, each
      template space one space unless it follows a base name ending in `\s`,
      a soldier's empty code or a blank operation id. */
  lemma CollapsedTemplate(baseName: string, t: UnitType, opId: string, missionId: string)
    returns (h1: string, h2: string, h3: string, rest: string)
    requires IsPlainId(opId) && IsPlainId(missionId)
    ensures h1 == (if baseName != [] && IsRegexSpace(baseName[|baseName| - 1]) then "" else " ")
    ensures h2 == (if t == Soldier then "" else " ")
    ensures h3 == (if IsBlank(opId) then "" else " ")
    ensures IsBlank(h1) && IsBlank(h2) && IsBlank(h3)
    ensures rest == h1 + (GetEmojiForType(t) + (h2 + (OpPart(opId) + (h3 + MissionPart(missionId)))))
    ensures CollapseSpaces(Template(baseName, t, opId, missionId)) == CollapseSpaces(baseName) + rest
  {
    var code := GetEmojiForType(t);
    var o := OpPart(opId);
    var m := MissionPart(missionId);
    var tail := " " + (code + (" " + (o + (" " + m))));
    LayoutNest(baseName, code, o, m);
    CollapseFromAppend(baseName, tail, false);
    PartsHaveNoSpace(opId, missionId);
    assert o == [] <==> IsBlank(opId);
    h1, h2, h3 := CollapsedTail(code, o, m, EndsAfterSpace(baseName, false));
    rest := h1 + (code + (h2 + (o + (h3 + m))));
  }

  /**
   * The layout `"Name 🛡️ (Op) {Mission}"`: for a base name that is one
   * word, a unit code and two written ids, the built name is the template
   * itself, each piece separated from the next by exactly one space.
   */
  lemma AssembledLayout(baseName: string, t: UnitType, opId: string, missionId: string)
    requires baseName != [] && forall c :: c in baseName ==> !IsWhitespace(c)
    requires t != Soldier && opId != [] && missionId != []
    requires IsPlainId(opId) && IsPlainId(missionId)
    ensures Assemble(baseName, t, opId, missionId)
         == baseName + " " + GetEmojiForType(t) + " " + ("(" + opId + ")") + " " + ("{" + missionId + "}")
  {
    var code := GetEmojiForType(t);
    var o := OpPart(opId);
    var m := MissionPart(missionId);
    PlainIdBlank(opId);
    PlainIdBlank(missionId);
    var h1, h2, h3, rest := CollapsedTemplate(baseName, t, opId, missionId);
    forall i | 0 <= i < |baseName| ensures !IsRegexSpace(baseName[i]) {
      assert baseName[i] in baseName;
      RegexSpaceIsWhitespace(baseName[i]);
    }
    CollapseNoSpaces(baseName);
    var r := baseName + rest;
    LayoutNest(baseName, code, o, m);
    assert r == Template(baseName, t, opId, missionId);
    assert r[0] == baseName[0] && baseName[0] in baseName;
    assert r[|r| - 1] == '}';
    TrimOfTrimmed(r);
  }

  lemma LayoutNest(baseName: string, code: string, o: string, m: string)
    ensures baseName + (" " + (code + (" " + (o + (" " + m))))) == baseName + " " + code + " " + o + " " + m
  {
  }

  /** The clean name of a built long name is the base name it was built
      from, collapsed and trimmed. */
  lemma CleanNameOfAssembled(baseName: string, t: UnitType, opId: string, missionId: string)
    requires IsPlainBase(baseName) && IsPlainId(opId) && IsPlainId(missionId)
    ensures GetCleanName(Some(Assemble(baseName, t, opId, missionId))) == Trim(CollapseSpaces(baseName))
  {
    var collapsed := CollapseSpaces(Template(baseName, t, opId, missionId));
    CleanOfTrimmed(collapsed);
    var blank := CleanCollapsedTemplate(baseName, t, opId, missionId);
    TrimBlankSuffix(CollapseSpaces(baseName), blank);
  }

  /** Collapse and trim add no character but the space. */
  lemma AbsentStaysAbsent(baseName: string, t: UnitType, opId: string, missionId: string, ch: char)
    requires ch != ' ' && ch !in Template(baseName, t, opId, missionId)
    ensures ch !in Assemble(baseName, t, opId, missionId)
  {
  }

  lemma BlankOperationIdReadBack(baseName: string, t: UnitType, opId: string, missionId: string)
    requires IsPlainBase(baseName) && IsPlainId(opId) && IsPlainId(missionId)
    requires opId == []
    ensures GetOperationId(Some(Assemble(baseName, t, opId, missionId))) == opId
  {
    assert '(' !in Template(baseName, t, opId, missionId);
    AbsentStaysAbsent(baseName, t, opId, missionId, '(');
  }

  lemma WrittenOperationIdReadBack(baseName: string, t: UnitType, opId: string, missionId: string)
    requires IsPlainBase(baseName) && IsPlainId(opId) && IsPlainId(missionId)
    requires opId != []
    ensures GetOperationId(Some(Assemble(baseName, t, opId, missionId))) == opId
  {
    PlainIdBlank(opId);
    var x := baseName + " " + GetEmojiForType(t) + " ";
    var y := " " + MissionPart(missionId);
    assert Template(baseName, t, opId, missionId) == x + (['('] + opId + [')']) + y;
    GroupReadBack(x, '(', opId, ')', y);
  }

  /** The operation id written by the builder is the one read back. */
  lemma AssembledOperationId(baseName: string, t: UnitType, opId: string, missionId: string)
    requires IsPlainBase(baseName) && IsPlainId(opId) && IsPlainId(missionId)
    ensures GetOperationId(Some(Assemble(baseName, t, opId, missionId))) == opId
  {
    if opId == [] {
      BlankOperationIdReadBack(baseName, t, opId, missionId);
    } else {
      WrittenOperationIdReadBack(baseName, t, opId, missionId);
    }
  }

  lemma BlankMissionIdReadBack(baseName: string, t: UnitType, opId: string, missionId: string)
    requires IsPlainBase(baseName) && IsPlainId(opId) && IsPlainId(missionId)
    requires missionId == []
    ensures GetMissionId(Some(Assemble(baseName, t, opId, missionId))) == missionId
  {
    assert '{' !in Template(baseName, t, opId, missionId);
    AbsentStaysAbsent(baseName, t, opId, missionId, '{');
  }

  lemma WrittenMissionIdReadBack(baseName: string, t: UnitType, opId: string, missionId: string)
    requires IsPlainBase(baseName) && IsPlainId(opId) && IsPlainId(missionId)
    requires missionId != []
    ensures GetMissionId(Some(Assemble(baseName, t, opId, missionId))) == missionId
  {
    PlainIdBlank(missionId);
    var x := baseName + " " + GetEmojiForType(t) + " " + OpPart(opId) + " ";
    assert Template(baseName, t, opId, missionId) == x + (['{'] + missionId + ['}']) + "";
    GroupReadBack(x, '{', missionId, '}', "");
  }

  /** The mission id written by the builder is the one read back. */
  lemma AssembledMissionId(baseName: string, t: UnitType, opId: string, missionId: string)
    requires IsPlainBase(baseName) && IsPlainId(opId) && IsPlainId(missionId)
    ensures GetMissionId(Some(Assemble(baseName, t, opId, missionId))) == missionId
  {
    if missionId == [] {
      BlankMissionIdReadBack(baseName, t, opId, missionId);
    } else {
      WrittenMissionIdReadBack(baseName, t, opId, missionId);
    }
  }

  /** Where each character of the template comes from. */
  lemma TemplateChars(baseName: string, t: UnitType, opId: string, missionId: string, c: char)
    requires c in Template(baseName, t, opId, missionId)
    ensures || c == ' ' || c == '(' || c == ')' || c == '{' || c == '}'
            || c in baseName || c in GetEmojiForType(t) || c in opId || c in missionId
  {
    var code := GetEmojiForType(t);
    var o := OpPart(opId);
    var m := MissionPart(missionId);
    assert Template(baseName, t, opId, missionId) == baseName + " " + code + " " + o + " " + m;
    assert c in o ==> c == '(' || c == ')' || c in opId;
    assert c in m ==> c == '{' || c == '}' || c in missionId;
  }

  /** Apart from the unit code itself, a built name holds no code lead character. */
  lemma OnlyItsOwnCode(baseName: string, t: UnitType, opId: string, missionId: string, c: char)
    requires IsPlainBase(baseName) && IsPlainId(opId) && IsPlainId(missionId)
    requires c in Assemble(baseName, t, opId, missionId) && IsCodeLead(c)
    ensures c in GetEmojiForType(t)
  {
    assert c in Template(baseName, t, opId, missionId);
    TemplateChars(baseName, t, opId, missionId, c);
  }

  /** The code written by the builder is in the built name. */
  lemma CodeWritten(baseName: string, t: UnitType, opId: string, missionId: string)
    requires t != Soldier
    ensures Contains(Assemble(baseName, t, opId, missionId), GetEmojiForType(t))
  {
    var code := GetEmojiForType(t);
    var x := baseName + " ";
    var y := " " + OpPart(opId) + " " + MissionPart(missionId);
    assert Template(baseName, t, opId, missionId) == x + code + y;
    CodeReadBack(x, code, y);
  }

  /** A name holding the code of `t` (none for a soldier) and no other code
      lead character reads as `t`. */
  lemma TypeReadBack(name: string, t: UnitType)
    requires t != Soldier ==> Contains(name, GetEmojiForType(t))
    requires forall lead :: IsCodeLead(lead) && lead in name ==> lead in GetEmojiForType(t)
    ensures GetTypeFromName(Some(name)) == t
  {
    if Contains(name, CodeTank) { ContainsFirstChar(name, CodeTank); }
    if Contains(name, CodeHeli) { ContainsFirstChar(name, CodeHeli); }
    if Contains(name, CodeDrone) { ContainsFirstChar(name, CodeDrone); }
  }

  /** The unit type written by the builder is the one read back. */
  lemma AssembledUnitType(baseName: string, t: UnitType, opId: string, missionId: string)
    requires IsPlainBase(baseName) && IsPlainId(opId) && IsPlainId(missionId)
    ensures GetTypeFromName(Some(Assemble(baseName, t, opId, missionId))) == t
  {
    var r := Assemble(baseName, t, opId, missionId);
    if t != Soldier {
      CodeWritten(baseName, t, opId, missionId);
    }
    forall lead | IsCodeLead(lead) && lead in r ensures lead in GetEmojiForType(t) {
      OnlyItsOwnCode(baseName, t, opId, missionId, lead);
    }
    TypeReadBack(r, t);
  }

  /**
   * Reading back a built long name gives the operation id, mission id and
   * unit type it was built from: the new ones where given, the current
   * name's own where not. The base name must hold no opening bracket and
   * no code lead character, and each id no bracket, whitespace, line
   * terminator or code lead character.
   */
  lemma GenerateRoundTrip(
    currentLongName: string, newOpId: Option<string>, newMissionId: Option<string>, newUnitType: Option<UnitType>)
    requires IsPlainBase(GetCleanName(Some(currentLongName)))
    requires IsPlainId(newOpId.GetOr(GetOperationId(Some(currentLongName))))
    requires IsPlainId(newMissionId.GetOr(GetMissionId(Some(currentLongName))))
    ensures var r := GenerateFullLongName(currentLongName, newOpId, newMissionId, newUnitType);
      && GetOperationId(Some(r)) == newOpId.GetOr(GetOperationId(Some(currentLongName)))
      && GetMissionId(Some(r)) == newMissionId.GetOr(GetMissionId(Some(currentLongName)))
      && GetTypeFromName(Some(r)) == newUnitType.GetOr(GetTypeFromName(Some(currentLongName)))
      && GetCleanName(Some(r)) == Trim(CollapseSpaces(GetCleanName(Some(currentLongName))))
  {
    var baseName := GetCleanName(Some(currentLongName));
    var opId := newOpId.GetOr(GetOperationId(Some(currentLongName)));
    var missionId := newMissionId.GetOr(GetMissionId(Some(currentLongName)));
    var t := newUnitType.GetOr(GetTypeFromName(Some(currentLongName)));
    AssembledOperationId(baseName, t, opId, missionId);
    AssembledMissionId(baseName, t, opId, missionId);
    AssembledUnitType(baseName, t, opId, missionId);
    CleanNameOfAssembled(baseName, t, opId, missionId);
  }

  /** A base name without whitespace, such as "Viper", is read back
      exactly, whatever code and ids are written after it. */
  lemma CleanNameOfWord(baseName: string, t: UnitType, opId: string, missionId: string)
    requires IsPlainBase(baseName) && IsPlainId(opId) && IsPlainId(missionId)
    requires forall c :: c in baseName ==> !IsWhitespace(c)
    ensures GetCleanName(Some(Assemble(baseName, t, opId, missionId))) == baseName
  {
    PlainWordSurvives(baseName);
    CleanNameOfAssembled(baseName, t, opId, missionId);
  }

  /** A word without whitespace is its own collapsed and trimmed form. */
  lemma PlainWordSurvives(w: string)
    requires forall c :: c in w ==> !IsWhitespace(c)
    ensures Trim(CollapseSpaces(w)) == w
  {
    forall i | 0 <= i < |w| ensures !IsRegexSpace(w[i]) {
      assert w[i] in w;
      RegexSpaceIsWhitespace(w[i]);
    }
    CollapseNoSpaces(w);
    if w != [] {
      assert w[0] in w && w[|w| - 1] in w;
    }
    TrimOfTrimmed(w);
  }

  /** A blank id leaves no bracket of its kind in the built name. */
  lemma BlankIdOmitted(baseName: string, t: UnitType, opId: string, missionId: string)
    requires IsPlainBase(baseName)
    requires forall c :: c in missionId ==> c != '(' && c != ')'
    requires forall c :: c in opId ==> c != '{' && c != '}'
    ensures IsBlank(opId) ==> '(' !in Assemble(baseName, t, opId, missionId)
    ensures IsBlank(missionId) ==> '{' !in Assemble(baseName, t, opId, missionId)
  {
    if IsBlank(opId) {
      assert '(' !in Template(baseName, t, opId, missionId);
      AbsentStaysAbsent(baseName, t, opId, missionId, '(');
    }
    if IsBlank(missionId) {
      assert '{' !in Template(baseName, t, opId, missionId);
      AbsentStaysAbsent(baseName, t, opId, missionId, '{');
    }
  }
}
