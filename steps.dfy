/** The row-wise steps of the script that are not renaming, district lookup or
    export: the missing-geometry filter, the centroid coordinates, the stable
    identifiers, the optional spatial join and the conversion of geometry to
    Well-Known Text. Each is a function from the frame before the step to the
    frame after it. */
module Steps {
  import opened Sequences
  import opened Table
  import opened StableIds

  /** Whether a row's geometry is present. */
  predicate HasGeometry(row: Row) {
    "geometry" in row && row["geometry"].Some?
  }

  // ---- Section 2: dropna(subset=['geometry']) ----

  /** `gdf.dropna(subset=['geometry'])`; the column must exist (pandas raises a
      KeyError otherwise). */
  function DropMissingGeometry(t: Table): (r: Table)
    requires WellFormed(t) && "geometry" in t.columns
    ensures WellFormed(r) && r.columns == t.columns && |r.rows| <= |t.rows|
    ensures forall i :: 0 <= i < |r.rows| ==> HasGeometry(r.rows[i])
    ensures GeometryColumnTyped(t) ==> GeometryColumnTyped(r)
  {
    var kept := Filter(t.rows, HasGeometry);
    FilterMembers(t.rows, HasGeometry);
    assert forall i :: 0 <= i < |kept| ==> kept[i].Keys == Labels(t.columns) by {
      forall i | 0 <= i < |kept| ensures kept[i].Keys == Labels(t.columns) {
        assert kept[i] in t.rows;
        var j :| 0 <= j < |t.rows| && t.rows[j] == kept[i];
      }
    }
    Table(t.columns, kept)
  }

  /** The filter removes exactly the rows whose geometry is missing and keeps
      every other row, unchanged and in its original order: the k-th remaining
      row is the input row at the k-th of an ascending list of positions, and a
      position is listed exactly when its row has a geometry. */
  lemma DropMissingGeometryKeepsOrder(t: Table)
    requires WellFormed(t) && "geometry" in t.columns
    ensures var idx := KeptPositions(t.rows, HasGeometry);
      var r := DropMissingGeometry(t);
      && |idx| == |r.rows|
      && StrictlyIncreasing(idx)
      && (forall k :: 0 <= k < |idx| ==> idx[k] < |t.rows| && r.rows[k] == t.rows[idx[k]])
      && (forall i :: 0 <= i < |t.rows| ==> (i in idx <==> HasGeometry(t.rows[i])))
  {
    FilterKeepsOrder(t.rows, HasGeometry);
  }

  /** A frame in which every geometry is present passes the filter unchanged,
      so filtering twice is filtering once. */
  lemma DropMissingGeometryIdempotent(t: Table)
    requires WellFormed(t) && "geometry" in t.columns
    ensures DropMissingGeometry(DropMissingGeometry(t)) == DropMissingGeometry(t)
  {
    var r := DropMissingGeometry(t);
    FilterKeepsAllPassing(r.rows, HasGeometry);
  }

  // ---- Section 3: coordinates and stable identifiers ----

  /** A coordinate of the centroid of the row's geometry, through `centroid`;
      missing when the geometry is. */
  function CentroidCell(geometry: Cell, centroid: Geometry -> Cell): Cell {
    match geometry
    case Some(Shape(g)) => centroid(g)
    case _ => None
  }

  /** `gdf['latitude'] = gdf.geometry.centroid.y` and
      `gdf['longitude'] = gdf.geometry.centroid.x`. */
  function AddCoordinates(t: Table, lib: Library): (r: Table)
    requires WellFormed(t) && "geometry" in t.columns
    ensures WellFormed(r) && |r.rows| == |t.rows|
    ensures r.columns == WithColumn(WithColumn(t.columns, "latitude"), "longitude")
    ensures GeometryColumnTyped(t) ==> GeometryColumnTyped(r)
    ensures forall i :: 0 <= i < |r.rows| ==>
      && r.rows[i]["latitude"] == CentroidCell(t.rows[i]["geometry"], lib.centroidY)
      && r.rows[i]["longitude"] == CentroidCell(t.rows[i]["geometry"], lib.centroidX)
    ensures forall i, c :: 0 <= i < |r.rows| && c in t.rows[i] && c != "latitude" && c != "longitude" ==>
      r.rows[i][c] == t.rows[i][c]
  {
    var withLatitude := SetColumn(t, "latitude",
      row requires "geometry" in row => CentroidCell(row["geometry"], lib.centroidY));
    SetColumn(withLatitude, "longitude",
      row requires "geometry" in row => CentroidCell(row["geometry"], lib.centroidX))
  }

  /** `gdf['id'] = gdf.apply(lambda row: ..., axis=1)`. */
  function AddIds(t: Table, lib: Library): (r: Table)
    requires WellFormed(t) && "latitude" in t.columns && "longitude" in t.columns
    ensures WellFormed(r) && |r.rows| == |t.rows|
    ensures r.columns == WithColumn(t.columns, "id")
    ensures GeometryColumnTyped(t) ==> GeometryColumnTyped(r)
    ensures forall i :: 0 <= i < |r.rows| ==> r.rows[i]["id"] == Some(Int(StableId(t.rows[i], lib)))
    ensures forall i, c :: 0 <= i < |r.rows| && c in t.rows[i] && c != "id" ==> r.rows[i][c] == t.rows[i][c]
  {
    SetColumn(t, "id",
      row requires "latitude" in row && "longitude" in row => Some(Int(StableId(row, lib))))
  }

  /** Every identifier is an integer in [0, 10^10), and two rows with the same
      name entry, latitude and longitude get the same identifier. */
  lemma AddIdsRangeAndDeterminism(t: Table, lib: Library)
    requires WellFormed(t) && "latitude" in t.columns && "longitude" in t.columns
    ensures var r := AddIds(t, lib);
      && (forall i :: 0 <= i < |r.rows| ==>
            r.rows[i]["id"].Some? && r.rows[i]["id"].value.Int?
            && 0 <= r.rows[i]["id"].value.number < IdModulus)
      && (forall i, j :: 0 <= i < |r.rows| && 0 <= j < |r.rows| && SameKeyFields(t.rows[i], t.rows[j]) ==>
            r.rows[i]["id"] == r.rows[j]["id"])
  {
    var r := AddIds(t, lib);
    forall i, j | 0 <= i < |r.rows| && 0 <= j < |r.rows| && SameKeyFields(t.rows[i], t.rows[j])
      ensures r.rows[i]["id"] == r.rows[j]["id"]
    {
      CellExists(t, i, "latitude");
      CellExists(t, i, "longitude");
      CellExists(t, j, "latitude");
      CellExists(t, j, "longitude");
      StableIdDeterministic(t.rows[i], t.rows[j], lib);
    }
  }

  /** Two rows agree on what the identifier key is built from. */
  predicate SameKeyFields(a: Row, b: Row) {
    && ("name" in a <==> "name" in b) && ("name" in a ==> a["name"] == b["name"])
    && "latitude" in a && "latitude" in b && a["latitude"] == b["latitude"]
    && "longitude" in a && "longitude" in b && a["longitude"] == b["longitude"]
  }

  // ---- Section 4: the spatial join ----

  /** The boundary file, as far as the join uses it: the columns the join adds
      and, for a geometry, the attributes of the boundary polygon it lies
      within, if there is one. */
  datatype Boundaries = Boundaries(columns: seq<Name>, containing: Geometry -> Option<Row>)

  /** Cell `c` that the left join gives a row: the attribute of the polygon
      containing the row's geometry, missing when no polygon contains it. */
  function JoinedCell(geometry: Cell, b: Boundaries, c: Name): Cell {
    match geometry
    case Some(Shape(g)) =>
      (match b.containing(g)
       case Some(attributes) => if c in attributes then attributes[c] else None
       case None => None)
    case _ => None
  }

  /** `gpd.sjoin(gdf, lor, how='left', predicate='within')`: every row is kept,
      in order, with the boundary's columns appended. */
  function SpatialJoin(t: Table, b: Boundaries): (r: Table)
    requires WellFormed(t) && "geometry" in t.columns
    requires NoDuplicates(b.columns) && Labels(b.columns) !! Labels(t.columns)
    ensures WellFormed(r) && |r.rows| == |t.rows|
    ensures r.columns == t.columns + b.columns
    ensures GeometryColumnTyped(t) ==> GeometryColumnTyped(r)
    ensures forall i, c :: 0 <= i < |r.rows| && c in t.rows[i] ==> r.rows[i][c] == t.rows[i][c]
    ensures forall i, c :: 0 <= i < |r.rows| && c in b.columns ==>
      c in r.rows[i] && r.rows[i][c] == JoinedCell(t.rows[i]["geometry"], b, c)
  {
    var cols := t.columns + b.columns;
    assert NoDuplicates(cols) by {
      forall i, j | 0 <= i < j < |cols| ensures cols[i] != cols[j] {
        if j >= |t.columns| && i < |t.columns| {
          assert cols[i] in Labels(t.columns) && cols[j] in Labels(b.columns);
        }
      }
    }
    Table(cols, seq(|t.rows|, i requires 0 <= i < |t.rows| =>
      t.rows[i] + map c | c in b.columns :: JoinedCell(t.rows[i]["geometry"], b, c)))
  }

  // ---- Section 6: geometry to Well-Known Text ----

  /** `x.wkt if x is not None else None` for one cell of the geometry column. */
  function WktCell(geometry: Cell, lib: Library): (r: Cell)
    requires geometry.Some? ==> geometry.value.Shape?
    ensures r.None? <==> geometry.None?
    ensures r.Some? ==> r.value.Text?
  {
    match geometry
    case None => None
    case Some(Shape(g)) => Some(Text(lib.wkt(g)))
  }

  /** `gdf['geometry'] = gdf['geometry'].apply(...)`: the geometry column is
      replaced in place by its text, nothing else changes. */
  function GeometryToText(t: Table, lib: Library): (r: Table)
    requires WellFormed(t) && "geometry" in t.columns && GeometryColumnTyped(t)
    ensures WellFormed(r) && r.columns == t.columns && |r.rows| == |t.rows|
    ensures forall i :: 0 <= i < |r.rows| ==> r.rows[i]["geometry"] == WktCell(t.rows[i]["geometry"], lib)
    ensures forall i, c :: 0 <= i < |r.rows| && c in t.rows[i] && c != "geometry" ==> r.rows[i][c] == t.rows[i][c]
  {
    SetColumn(t, "geometry",
      (row: Row) requires "geometry" in row && (row["geometry"].Some? ==> row["geometry"].value.Shape?) =>
        WktCell(row["geometry"], lib))
  }
}
