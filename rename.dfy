/** Column renaming (section 5 of the script): `gdf.rename(columns=rename_dict)`. */
module Renaming {
  import opened Sequences
  import opened Table

  /** `rename_dict`. */
  const RenameTable: map<Name, Name> := map[
    "name" := "center_name",
    "BEZIRK" := "district",
    "OTEIL" := "neighborhood",
    "spatial_name" := "neighborhood_id"]

  /** The label a column has after renaming: listed labels are replaced,
      every other label is kept. */
  function Renamed(c: Name): Name {
    if c in RenameTable then RenameTable[c] else c
  }

  /** Renaming changes exactly the four listed labels, to the listed targets. */
  lemma RenamedChangesExactlyFour(c: Name)
    ensures Renamed(c) != c <==> c in {"name", "BEZIRK", "OTEIL", "spatial_name"}
    ensures c == "name" ==> Renamed(c) == "center_name"
    ensures c == "BEZIRK" ==> Renamed(c) == "district"
    ensures c == "OTEIL" ==> Renamed(c) == "neighborhood"
    ensures c == "spatial_name" ==> Renamed(c) == "neighborhood_id"
  {
  }

  /** The columns the script computes itself keep their labels. */
  lemma ComputedColumnsKeepLabels()
    ensures Renamed("id") == "id" && Renamed("latitude") == "latitude"
    ensures Renamed("longitude") == "longitude" && Renamed("geometry") == "geometry"
    ensures Renamed("district_id") == "district_id"
  {
  }

  /** Only `BEZIRK` and `district` itself end up labelled `district`. */
  lemma RenamedToDistrict(c: Name)
    ensures Renamed(c) == "district" <==> c == "BEZIRK" || c == "district"
  {
  }

  /** No target of the table is itself renamed, so renaming twice is renaming once. */
  lemma RenamedIdempotent(c: Name)
    ensures Renamed(Renamed(c)) == Renamed(c)
  {
  }

  /** No two distinct labels of a frame end up with the same label. pandas
      would produce duplicate column labels otherwise; the model excludes that. */
  predicate RenameCollisionFree(labels: set<Name>) {
    forall a, b :: a in labels && b in labels && Renamed(a) == Renamed(b) ==> a == b
  }

  /** A frame can be renamed without collision exactly when it does not hold
      both a listed label and its target. */
  lemma RenameCollisionFreeIff(labels: set<Name>)
    ensures RenameCollisionFree(labels) <==>
      && !("name" in labels && "center_name" in labels)
      && !("BEZIRK" in labels && "district" in labels)
      && !("OTEIL" in labels && "neighborhood" in labels)
      && !("spatial_name" in labels && "neighborhood_id" in labels)
  {
    if !RenameCollisionFree(labels) {
      var a, b :| a in labels && b in labels && Renamed(a) == Renamed(b) && a != b;
      RenamedChangesExactlyFour(a);
      RenamedChangesExactlyFour(b);
    } else {
      assert Renamed("name") == Renamed("center_name");
      assert Renamed("BEZIRK") == Renamed("district");
      assert Renamed("OTEIL") == Renamed("neighborhood");
      assert Renamed("spatial_name") == Renamed("neighborhood_id");
    }
  }

  /** The column list after renaming: each label replaced where it stands. */
  function RenameColumns(columns: seq<Name>): (r: seq<Name>)
    requires RenameCollisionFree(Labels(columns))
    ensures |r| == |columns| && forall i :: 0 <= i < |r| ==> r[i] == Renamed(columns[i])
    ensures forall c :: c in columns ==> Renamed(c) in r
    ensures NoDuplicates(columns) ==> NoDuplicates(r)
    ensures Labels(r) == set c | c in columns :: Renamed(c)
  {
    seq(|columns|, i requires 0 <= i < |columns| => Renamed(columns[i]))
  }

  /** One row after renaming: the same cells under the new labels. */
  function RenameRow(row: Row): (r: Row)
    requires RenameCollisionFree(row.Keys)
    ensures r.Keys == set c | c in row :: Renamed(c)
    ensures forall c :: c in row ==> r[Renamed(c)] == row[c]
  {
    map c | c in row :: Renamed(c) := row[c]
  }

  /** A renamed row has a cell for each renamed column. */
  lemma RenameRowKeys(row: Row, columns: seq<Name>)
    requires row.Keys == Labels(columns) && RenameCollisionFree(Labels(columns))
    ensures RenameRow(row).Keys == Labels(RenameColumns(columns))
  {
    assert Labels(RenameColumns(columns)) == set c | c in columns :: Renamed(c);
  }

  /** No label is renamed to `geometry`, so the geometry cell of a renamed row
      is the row's own geometry cell. */
  lemma RenameRowGeometry(row: Row)
    requires RenameCollisionFree(row.Keys)
    ensures "geometry" in RenameRow(row) ==> "geometry" in row && RenameRow(row)["geometry"] == row["geometry"]
  {
    if "geometry" in RenameRow(row) {
      var c :| c in row && Renamed(c) == "geometry";
    }
  }

  /** The frame after renaming: the same rows, in the same order, with every
      cell moved to its column's new label and no value changed. */
  function Rename(t: Table): (r: Table)
    requires WellFormed(t) && RenameCollisionFree(Labels(t.columns))
    ensures WellFormed(r)
    ensures r.columns == RenameColumns(t.columns) && |r.rows| == |t.rows|
    ensures GeometryColumnTyped(t) ==> GeometryColumnTyped(r)
    ensures forall i, c :: 0 <= i < |t.rows| && c in t.rows[i] ==>
      Renamed(c) in r.rows[i] && r.rows[i][Renamed(c)] == t.rows[i][c]
  {
    var r := Table(RenameColumns(t.columns),
                   seq(|t.rows|, i requires 0 <= i < |t.rows| => RenameRow(t.rows[i])));
    assert forall i :: 0 <= i < |r.rows| ==> r.rows[i].Keys == Labels(r.columns) by {
      forall i | 0 <= i < |r.rows|
        ensures r.rows[i].Keys == Labels(r.columns)
      {
        RenameRowKeys(t.rows[i], t.columns);
      }
    }
    assert GeometryColumnTyped(t) ==> GeometryColumnTyped(r) by {
      forall i | 0 <= i < |r.rows|
        ensures "geometry" in r.rows[i] ==> "geometry" in t.rows[i] && r.rows[i]["geometry"] == t.rows[i]["geometry"]
      {
        RenameRowGeometry(t.rows[i]);
      }
    }
    r
  }
}
