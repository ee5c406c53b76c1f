/** The official district codes (section 5 of the script): `district_mapping`
    and `gdf['district'].map(district_mapping)`. */
module Districts {
  import opened Sequences
  import opened Table

  /** `district_mapping`. */
  const DistrictCodes: map<string, string> := map[
    "Mitte" := "11001001", "Friedrichshain-Kreuzberg" := "11002002",
    "Pankow" := "11003003", "Charlottenburg-Wilmersdorf" := "11004004",
    "Spandau" := "11005005", "Steglitz-Zehlendorf" := "11006006",
    "Tempelhof-Schöneberg" := "11007007", "Neukölln" := "11008008",
    "Treptow-Köpenick" := "11009009", "Marzahn-Hellersdorf" := "11010010",
    "Lichtenberg" := "11011011", "Reinickendorf" := "11012012"]

  /** The twelve Berlin districts in the order of their official numbers. */
  const DistrictNames: seq<string> := [
    "Mitte", "Friedrichshain-Kreuzberg", "Pankow", "Charlottenburg-Wilmersdorf",
    "Spandau", "Steglitz-Zehlendorf", "Tempelhof-Schöneberg", "Neukölln",
    "Treptow-Köpenick", "Marzahn-Hellersdorf", "Lichtenberg", "Reinickendorf"]

  /** `n` as three decimal digits with leading zeros. */
  function Block(n: nat): string
    requires n < 1000
  {
    [DigitChar(n / 100), DigitChar(n / 10 % 10), DigitChar(n % 10)]
  }

  /** The code of district number `n`: the state prefix "11" followed by the
      district number written twice as a three-digit block. */
  function OfficialCode(n: nat): string
    requires n < 1000
  {
    "11" + Block(n) + Block(n)
  }

  /** District k of the list (counting from 0) has code OfficialCode(k + 1):
      the first six districts. */
  lemma DistrictCodeAtLow(k: nat)
    requires k < 6
    ensures DistrictNames[k] in DistrictCodes
    ensures DistrictCodes[DistrictNames[k]] == OfficialCode(k + 1)
  {
    match k
    case 0 => assert Block(1) == "001";
    case 1 => assert Block(2) == "002";
    case 2 => assert Block(3) == "003";
    case 3 => assert Block(4) == "004";
    case 4 => assert Block(5) == "005";
    case 5 => assert Block(6) == "006";
  }

  /** The same for the last six districts. */
  lemma DistrictCodeAtHigh(k: nat)
    requires 6 <= k < 12
    ensures DistrictNames[k] in DistrictCodes
    ensures DistrictCodes[DistrictNames[k]] == OfficialCode(k + 1)
  {
    match k
    case 6 => assert Block(7) == "007";
    case 7 => assert Block(8) == "008";
    case 8 => assert Block(9) == "009";
    case 9 => assert Block(10) == "010";
    case 10 => assert Block(11) == "011";
    case 11 => assert Block(12) == "012";
  }

  /** The literal table is exactly the official numbering of the twelve
      districts: district k (counting from 1) has code OfficialCode(k). */
  lemma DistrictTableFollowsNumbering()
    ensures |DistrictNames| == 12
    ensures DistrictCodes.Keys == Labels(DistrictNames)
    ensures forall k :: 0 <= k < 12 ==> DistrictCodes[DistrictNames[k]] == OfficialCode(k + 1)
  {
    forall k | 0 <= k < 12
      ensures DistrictNames[k] in DistrictCodes
      ensures DistrictCodes[DistrictNames[k]] == OfficialCode(k + 1)
    {
      if k < 6 { DistrictCodeAtLow(k); } else { DistrictCodeAtHigh(k); }
    }
  }

  lemma {:induction false} BlockInjective(m: nat, n: nat)
    requires m < 1000 && n < 1000 && Block(m) == Block(n)
    ensures m == n
  {
    assert Block(m)[0] == Block(n)[0] && Block(m)[1] == Block(n)[1] && Block(m)[2] == Block(n)[2];
    assert m / 100 == n / 100 && m / 10 % 10 == n / 10 % 10 && m % 10 == n % 10;
  }

  /** No two districts share a code. */
  lemma DistrictCodesDistinct()
    ensures forall a, b :: a in DistrictCodes && b in DistrictCodes && a != b ==>
      DistrictCodes[a] != DistrictCodes[b]
  {
    DistrictTableFollowsNumbering();
    forall a, b | a in DistrictCodes && b in DistrictCodes && a != b
      ensures DistrictCodes[a] != DistrictCodes[b]
    {
      var k :| 0 <= k < 12 && DistrictNames[k] == a;
      var l :| 0 <= l < 12 && DistrictNames[l] == b;
      if DistrictCodes[a] == DistrictCodes[b] {
        assert OfficialCode(k + 1)[2..5] == Block(k + 1);
        assert OfficialCode(l + 1)[2..5] == Block(l + 1);
        BlockInjective(k + 1, l + 1);
      }
    }
  }

  /** Every code is eight digits: "11", then one three-digit block twice. */
  lemma DistrictCodeShape()
    ensures forall d :: d in DistrictCodes ==>
      var code := DistrictCodes[d];
      && |code| == 8 && code[..2] == "11" && code[2..5] == code[5..8]
      && forall i :: 0 <= i < 8 ==> '0' <= code[i] <= '9'
  {
    DistrictTableFollowsNumbering();
    forall d | d in DistrictCodes
      ensures var code := DistrictCodes[d];
        && |code| == 8 && code[..2] == "11" && code[2..5] == code[5..8]
        && forall i :: 0 <= i < 8 ==> '0' <= code[i] <= '9'
    {
      var k :| 0 <= k < 12 && DistrictNames[k] == d;
      var b := Block(k + 1);
      assert DistrictCodes[d] == "11" + b + b;
    }
  }

  /** One cell of `gdf['district'].map(district_mapping)`: the code of a listed
      district name, missing for any other value and for a missing district. */
  function DistrictId(district: Cell): (id: Cell)
    ensures id.Some? <==> exists k :: 0 <= k < |DistrictNames| && district == Some(Text(DistrictNames[k]))
    ensures forall k :: 0 <= k < |DistrictNames| && district == Some(Text(DistrictNames[k])) ==>
      id == Some(Text(OfficialCode(k + 1)))
  {
    DistrictTableFollowsNumbering();
    match district
    case Some(Text(d)) => if d in DistrictCodes then Some(Text(DistrictCodes[d])) else None
    case _ => None
  }

  /** The lookup is injective: a code determines the district it came from. */
  lemma DistrictIdInjective(a: Cell, b: Cell)
    requires DistrictId(a).Some? && DistrictId(a) == DistrictId(b)
    ensures a == b
  {
    DistrictCodesDistinct();
  }

  /** `gdf['district_id'] = gdf['district'].map(district_mapping)`. The
      `district` column must exist: without it pandas raises a KeyError. */
  function AddDistrictIds(t: Table): (r: Table)
    requires WellFormed(t) && "district" in t.columns
    ensures WellFormed(r)
    ensures r.columns == WithColumn(t.columns, "district_id") && |r.rows| == |t.rows|
    ensures GeometryColumnTyped(t) ==> GeometryColumnTyped(r)
    ensures forall i :: 0 <= i < |r.rows| ==> r.rows[i]["district_id"] == DistrictId(t.rows[i]["district"])
    ensures forall i, d :: 0 <= i < |r.rows| && d in t.rows[i] && d != "district_id" ==>
      r.rows[i][d] == t.rows[i][d]
  {
    SetColumn(t, "district_id", row requires "district" in row => DistrictId(row["district"]))
  }
}
