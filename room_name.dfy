/** The facility names the display and storage converters cut out of the
    room name. */
module RoomName {
  import opened Text

  const Building := "仙台合同庁舎"
  const Office := "／仙台地方振興事務所"

  /** `room.replace(Building, '').replace(Office, '')`: the building name
      goes first, then the office name. */
  function RemoveFacilityNames(room: string): string {
    Replace(Replace(room, Building, ""), Office, "")
  }

  /** A room naming neither facility is kept as it is. */
  lemma RemoveNothing(room: string)
    requires !Contains(room, Building) && !Contains(room, Office)
    ensures RemoveFacilityNames(room) == room
  {
    ReplaceAbsent(room, Building, "");
    ReplaceAbsent(room, Office, "");
  }

  /** A leading building name is dropped and the rest is cleaned the same way. */
  lemma RemoveLeadingBuilding(rest: string)
    ensures RemoveFacilityNames(Building + rest) == RemoveFacilityNames(rest)
  {
    ReplacePrefix(Building, rest, "");
    assert "" + Replace(rest, Building, "") == Replace(rest, Building, "");
  }

  /** Neither removal lengthens the room. */
  lemma RemoveShortensLabel(room: string)
    ensures |RemoveFacilityNames(room)| <= |room|
  {
    RemoveShortens(room, Building);
    RemoveShortens(Replace(room, Building, ""), Office);
  }

  lemma RemoveExample()
    ensures RemoveFacilityNames("仙台合同庁舎第1会議室") == "第1会議室"
  {
    assert "仙台合同庁舎第1会議室" == Building + "第1会議室";
    RemoveLeadingBuilding("第1会議室");
  }

  /** The order of the two removals matters: removing the building from
      this room name uncovers the office name, which the second removal then
      takes out; the other order would leave the office name behind. */
  lemma RemovalOrderMatters()
    ensures RemoveFacilityNames(Tangled) == ""
    ensures Replace(Replace(Tangled, Office, ""), Building, "") == Office
  {
    BuildingUncoversOffice();
    ReplacePrefix(Office, "", "");
    assert Office + "" == Office;
    OfficeAbsentFromTangled();
  }

  const Tangled := "／仙台" + Building + "地方振興事務所"

  /** `Tangled` holds the building name at offset 3 and nowhere before. */
  lemma TangledLayout()
    ensures Tangled == "／仙台" + (Building + "地方振興事務所")
    ensures forall i :: 0 <= i < |"／仙台"| ==> !MatchAt(Tangled, Building, i)
  {
    var s := Tangled;
    assert s == "／仙台" + (Building + "地方振興事務所");
    assert !MatchAt(s, Building, 0) by { assert s[0] != Building[0]; }
    assert !MatchAt(s, Building, 1) by { assert s[3] != Building[2]; }
    assert !MatchAt(s, Building, 2) by { assert s[2] != Building[0]; }
  }

  lemma BuildingUncoversOffice()
    ensures Replace(Tangled, Building, "") == Office
  {
    var pre, tail := "／仙台", "地方振興事務所";
    TangledLayout();
    ReplaceAfter(pre, Building + tail, Building, "");
    assert Replace(Tangled, Building, "") == pre + Replace(Building + tail, Building, "");
    ReplacePrefix(Building, tail, "");
    AbsentHead(tail, Building);
    ReplaceAbsent(tail, Building, "");
    assert Replace(Building + tail, Building, "") == tail;
    OfficeSplit();
  }

  /** The office name is `Tangled` with the building name taken out. */
  lemma OfficeSplit()
    ensures "／仙台" + "地方振興事務所" == Office
  {
  }

  lemma OfficeAbsentFromTangled()
    ensures Replace(Tangled, Office, "") == Tangled
  {
    var s := Tangled;
    assert !MatchAt(s, Office, 0) by { assert s[3] != Office[3]; }
    AbsentHead(s[1..], Office);
    ReplaceAfter([s[0]], s[1..], Office, "");
    ReplaceAbsent(s[1..], Office, "");
    assert [s[0]] + s[1..] == s;
  }
}
