/** Worked instances of the summary and of request resolution. */
module Scenarios {
  import opened Wrappers
  import opened Text
  import opened Decimal
  import opened Assessment
  import opened Normalize
  import opened Community

  lemma ThousandsOf500000()
    ensures Thousands(500000) == "500,000"
  {
    assert DigitsOf(500000) == "500000";
    assert "500000"[..3] == "500" && "500000"[3..] == "000";
    assert Chunks("500000") == ["500", "000"];
  }

  /** A record with only an overall value has exactly that one line. */
  lemma OnlyOverallValue(n: nat)
    ensures FormatAssessedValue(AssessedValues(Some(n), None, None, None)) == "Assessed Value: $" + Thousands(n)
  {
    var v := AssessedValues(Some(n), None, None, None);
    var line := Line(Overall, n);
    assert PresentLines(v) == [line] by {
      LinesFromSkip(v, 1, FieldCount);
      LinesFromPresent(v, 0);
    }
    assert JoinWith([line], LineBreak) == line;
    assert v != NoValues;
  }

  /** An overall value of 500000 and nothing else gives a single line. */
  lemma SingleOverallValue()
    ensures FormatAssessedValue(AssessedValues(Some(500000), None, None, None)) == "Assessed Value: $500,000"
  {
    OnlyOverallValue(500000);
    ThousandsOf500000();
    var target := "Assessed Value: $500,000";
    assert target[..17] == "Assessed Value: $" && target[17..] == "500,000";
    assert target == target[..17] + target[17..];
  }

  /**
   * With only the overall and farm-land values present, the summary is their
   * two lines in that order, with one separator between them.
   */
  lemma OverallAndFarmLandOnly(a: nat, b: nat)
    ensures FormatAssessedValue(AssessedValues(Some(a), None, None, Some(b)))
         == Line(Overall, a) + LineBreak + Line(FarmLand, b)
  {
    var v := AssessedValues(Some(a), None, None, Some(b));
    var first := Line(Overall, a);
    var last := Line(FarmLand, b);
    assert PresentLines(v) == [first, last] by {
      LinesFromSkip(v, 1, 3);
      LinesFromPresent(v, 0);
      LinesFromPresent(v, 3);
    }
    assert JoinWith([first, last], LineBreak) == first + LineBreak + last;
    assert v != NoValues;
  }

  function Parcel(code: string, name: string, address: string): Property
  {
    Property(code, name, address, "Residential", NoValues, NoInfo)
  }

  function SampleData(bs: seq<Boundary>): Datasets
  {
    var ps := [
      Parcel("HIL", "HILLHURST/SUNNYSIDE", "1 A ST NW"),
      Parcel("BOW", "BOWNESS", "2 B ST NW"),
      Parcel("HIL", "HILLHURST/SUNNYSIDE", "3 C ST NW"),
      Parcel("BOW", "BOWNESS", "4 D ST NW"),
      Parcel("HIL", "HILLHURST/SUNNYSIDE", "5 E ST NW")];
    Datasets(Some(ps), Some(bs), Some([Sector("CENTRE")]))
  }

  /**
   * Selecting HILLHURST yields exactly its three parcels, none of BOWNESS, and
   * the page title is the parcels' community name, not the boundary name.
   */
  lemma SelectHillhurst()
    ensures
      var d := SampleData([Boundary("HILLHURST", "HIL")]);
      var r := ShowMap(Some("HILLHURST"), d);
      && r.Found?
      && r.code == "HIL"
      && r.properties == [d.properties.value[0], d.properties.value[2], d.properties.value[4]]
      && r.displayName == "HILLHURST/SUNNYSIDE"
  {
    var d := SampleData([Boundary("HILLHURST", "HIL")]);
    var ps := d.properties.value;
    assert ps[0].commCode == "HIL" && ps[1].commCode != "HIL";
    assert FilterByCode(ps[4..], "HIL") == [ps[4]];
    assert ps[3..][1..] == ps[4..];
    assert FilterByCode(ps[3..], "HIL") == [ps[4]];
    assert ps[2..][1..] == ps[3..];
    assert FilterByCode(ps[2..], "HIL") == [ps[2], ps[4]];
    assert ps[1..][1..] == ps[2..];
    assert FilterByCode(ps[1..], "HIL") == [ps[2], ps[4]];
    assert FilterByCode(ps, "HIL") == [ps[0], ps[2], ps[4]];
  }

  /** A name no boundary carries is reported as not found, not as an empty map. */
  lemma SelectUnknownName()
    ensures ShowMap(Some("NOWHERE"), SampleData([Boundary("HILLHURST", "HIL")])).BoundaryNotFound?
  {
  }

  /** A boundary whose code no parcel carries is reported distinctly from a missing boundary. */
  lemma SelectCommunityWithoutParcels()
    ensures
      var r := ShowMap(Some("ALYTH/BONNYBROOK"),
                       SampleData([Boundary("HILLHURST", "HIL"), Boundary("ALYTH/BONNYBROOK", "AYB")]));
      r == NoProperties("ALYTH/BONNYBROOK", "AYB") && r.Status() == 404
  {
  }

  /** With the data unavailable every selection is a bad request. */
  lemma DataUnavailable(selection: Option<string>)
    ensures ShowMap(selection, LoadDatasets(None)) == BadRequest
  {
  }
}
