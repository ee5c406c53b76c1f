/** What the whole pass guarantees about `df_final`, stated against the fetched
    features: which rows survive and in what order, which columns are written
    and what each written cell holds. Each stage of the script is followed by
    one lemma, and the end-to-end lemmas chain them. */
module Pipeline {
  import opened Sequences
  import opened Table
  import opened StableIds
  import Steps
  import Renaming
  import Districts
  import Export
  import opened Jobcenters

  /** A fetched feature with the centroid coordinates of its geometry set, as
      lines 24-25 set them. */
  function Located(feature: Row, lib: Library): Row
    requires "geometry" in feature
  {
    feature["latitude" := Steps.CentroidCell(feature["geometry"], lib.centroidY)]
           ["longitude" := Steps.CentroidCell(feature["geometry"], lib.centroidX)]
  }

  /** The identifier the script computes for a fetched feature: the stable
      identifier of the feature once its centroid coordinates are set. */
  function FeatureId(feature: Row, lib: Library): (id: nat)
    requires "geometry" in feature
    ensures id < IdModulus
  {
    StableId(Located(feature, lib), lib)
  }

  /** Sections 2 and 3: the k-th prepared row comes from the k-th fetched
      feature that has a geometry; it keeps that geometry and gains the
      centroid coordinates and the feature's identifier. */
  lemma PreparedRows(raw: Table, lib: Library)
    requires WellFormed(raw) && "geometry" in raw.columns
    ensures var p := Prepare(raw, lib);
      var idx := KeptPositions(raw.rows, Steps.HasGeometry);
      && |p.rows| == |idx|
      && forall k :: 0 <= k < |idx| ==>
        && idx[k] < |raw.rows| && Steps.HasGeometry(raw.rows[idx[k]])
        && "geometry" in p.rows[k] && p.rows[k]["geometry"] == raw.rows[idx[k]]["geometry"]
        && "latitude" in p.rows[k]
        && p.rows[k]["latitude"] == Steps.CentroidCell(raw.rows[idx[k]]["geometry"], lib.centroidY)
        && "longitude" in p.rows[k]
        && p.rows[k]["longitude"] == Steps.CentroidCell(raw.rows[idx[k]]["geometry"], lib.centroidX)
        && "id" in p.rows[k] && p.rows[k]["id"] == Some(Int(FeatureId(raw.rows[idx[k]], lib)))
  {
    var idx := KeptPositions(raw.rows, Steps.HasGeometry);
    var d := Steps.DropMissingGeometry(raw);
    var a := Steps.AddCoordinates(d, lib);
    var p := Steps.AddIds(a, lib);
    assert p == Prepare(raw, lib);
    Steps.DropMissingGeometryKeepsOrder(raw);
    forall k | 0 <= k < |idx|
      ensures && idx[k] < |raw.rows| && Steps.HasGeometry(raw.rows[idx[k]])
        && "geometry" in p.rows[k] && p.rows[k]["geometry"] == raw.rows[idx[k]]["geometry"]
        && "latitude" in p.rows[k]
        && p.rows[k]["latitude"] == Steps.CentroidCell(raw.rows[idx[k]]["geometry"], lib.centroidY)
        && "longitude" in p.rows[k]
        && p.rows[k]["longitude"] == Steps.CentroidCell(raw.rows[idx[k]]["geometry"], lib.centroidX)
        && "id" in p.rows[k] && p.rows[k]["id"] == Some(Int(FeatureId(raw.rows[idx[k]], lib)))
    {
      var feature := raw.rows[idx[k]];
      assert d.rows[k] == feature;
      CellExists(d, k, "geometry");
      CellExists(a, k, "geometry");
      CellExists(p, k, "geometry");
      CellExists(p, k, "latitude");
      CellExists(p, k, "longitude");
      CellExists(p, k, "id");
      assert a.rows[k]["geometry"] == feature["geometry"];
      assert "name" in a.rows[k] <==> "name" in feature by {
        assert a.rows[k].Keys == Labels(a.columns);
        assert feature.Keys == Labels(d.columns);
      }
      if "name" in feature {
        assert a.rows[k]["name"] == feature["name"];
      }
      StableIdDeterministic(a.rows[k], Located(feature, lib), lib);
    }
  }

  /** Sections 2 and 3 keep every cell of a fetched feature that is not
      one of the computed columns. */
  lemma PreparedKeepsFeatureCells(raw: Table, lib: Library)
    requires WellFormed(raw) && "geometry" in raw.columns
    ensures var p := Prepare(raw, lib);
      var idx := KeptPositions(raw.rows, Steps.HasGeometry);
      && |p.rows| == |idx|
      && forall k, c :: 0 <= k < |idx| && c in raw.columns && c != "latitude" && c != "longitude" && c != "id" ==>
        idx[k] < |raw.rows| && c in p.rows[k] && p.rows[k][c] == raw.rows[idx[k]][c]
  {
    var idx := KeptPositions(raw.rows, Steps.HasGeometry);
    var d := Steps.DropMissingGeometry(raw);
    var a := Steps.AddCoordinates(d, lib);
    var p := Steps.AddIds(a, lib);
    assert p == Prepare(raw, lib);
    Steps.DropMissingGeometryKeepsOrder(raw);
    forall k, c | 0 <= k < |idx| && c in raw.columns && c != "latitude" && c != "longitude" && c != "id"
      ensures idx[k] < |raw.rows| && c in p.rows[k] && p.rows[k][c] == raw.rows[idx[k]][c]
    {
      assert d.rows[k] == raw.rows[idx[k]];
      CellExists(d, k, c);
      CellExists(a, k, c);
      CellExists(p, k, c);
    }
  }

  /** Section 4: the join, when there is one, keeps every row in order and
      every cell of it; without the boundary file the frame is a copy. */
  lemma MappedKeepsCells(raw: Table, boundaries: Option<Steps.Boundaries>, lib: Library)
    requires WellFormed(raw) && "geometry" in raw.columns && Joinable(raw.columns, boundaries)
    ensures var p := Prepare(raw, lib);
      var m := Mapped(raw, boundaries, lib);
      && |m.rows| == |p.rows|
      && (forall k, c :: 0 <= k < |p.rows| && c in p.rows[k] ==> c in m.rows[k] && m.rows[k][c] == p.rows[k][c])
      && (boundaries.Some? ==>
            forall k, c :: 0 <= k < |p.rows| && c in boundaries.value.columns && "geometry" in p.rows[k] ==>
              c in m.rows[k] && m.rows[k][c] == Steps.JoinedCell(p.rows[k]["geometry"], boundaries.value, c))
  {
    var p := Prepare(raw, lib);
    var m := Mapped(raw, boundaries, lib);
    forall k, c | 0 <= k < |p.rows| && c in p.rows[k]
      ensures c in m.rows[k] && m.rows[k][c] == p.rows[k][c]
    {
      assert c in Labels(p.columns);
      CellExists(m, k, c);
    }
  }

  /** Sections 5 and 6: the geometry becomes its Well-Known Text, every row
      gets the official code of its district, and every column that renaming
      leaves alone keeps its cells. */
  lemma CleanRows(t: Table, lib: Library)
    requires Cleanable(t)
    ensures var r := Clean(t, lib);
      && |r.rows| == |t.rows|
      && forall k :: 0 <= k < |t.rows| ==>
        && "geometry" in t.rows[k] && "geometry" in r.rows[k]
        && (t.rows[k]["geometry"].Some? ==> t.rows[k]["geometry"].value.Shape?)
        && r.rows[k]["geometry"] == Steps.WktCell(t.rows[k]["geometry"], lib)
        && "district" in r.rows[k] && "district_id" in r.rows[k]
        && r.rows[k]["district_id"] == Districts.DistrictId(r.rows[k]["district"])
        && (forall s :: s in t.rows[k] && Renaming.Renamed(s) == "district" ==> r.rows[k]["district"] == t.rows[k][s])
        && forall c :: c in t.rows[k] && Renaming.Renamed(c) == c && c != "geometry" && c != "district_id" ==>
          c in r.rows[k] && r.rows[k][c] == t.rows[k][c]
  {
    var renamed := Renaming.Rename(t);
    assert "geometry" in renamed.columns by {
      assert Renaming.Renamed("geometry") == "geometry";
    }
    var coded := Districts.AddDistrictIds(renamed);
    var r := Steps.GeometryToText(coded, lib);
    assert r == Clean(t, lib);
    forall k | 0 <= k < |t.rows|
      ensures && "geometry" in t.rows[k] && "geometry" in r.rows[k]
        && (t.rows[k]["geometry"].Some? ==> t.rows[k]["geometry"].value.Shape?)
        && r.rows[k]["geometry"] == Steps.WktCell(t.rows[k]["geometry"], lib)
        && "district" in r.rows[k] && "district_id" in r.rows[k]
        && r.rows[k]["district_id"] == Districts.DistrictId(r.rows[k]["district"])
        && (forall s :: s in t.rows[k] && Renaming.Renamed(s) == "district" ==> r.rows[k]["district"] == t.rows[k][s])
        && forall c :: c in t.rows[k] && Renaming.Renamed(c) == c && c != "geometry" && c != "district_id" ==>
          c in r.rows[k] && r.rows[k][c] == t.rows[k][c]
    {
      CellExists(t, k, "geometry");
      CellExists(renamed, k, "geometry");
      CellExists(renamed, k, "district");
      CellExists(coded, k, "geometry");
      CellExists(r, k, "geometry");
      CellExists(r, k, "district");
      CellExists(r, k, "district_id");
      assert coded.rows[k]["geometry"] == renamed.rows[k]["geometry"] == t.rows[k]["geometry"];
      assert r.rows[k]["district"] == coded.rows[k]["district"] == renamed.rows[k]["district"];
      forall c | c in t.rows[k] && Renaming.Renamed(c) == c && c != "geometry" && c != "district_id"
        ensures c in r.rows[k] && r.rows[k][c] == t.rows[k][c]
      {
        assert c in renamed.rows[k];
        assert c in Labels(renamed.columns);
        CellExists(r, k, c);
      }
    }
  }

  /** The columns of the cleaned frame that the export relies on. */
  lemma CleanedHasColumns(raw: Table, boundaries: Option<Steps.Boundaries>, lib: Library)
    requires Runnable(raw, boundaries)
    ensures var cols := Cleaned(raw, boundaries, lib).columns;
      && "id" in cols && "district_id" in cols && "latitude" in cols
      && "longitude" in cols && "geometry" in cols && "district" in cols
  {
    var mapped := MappedColumns(raw.columns, boundaries);
    assert "id" in mapped && "latitude" in mapped && "longitude" in mapped && "geometry" in mapped;
    Renaming.ComputedColumnsKeepLabels();
  }

  /** Section 7: the output has `id` first and `data_source` last, no label
      twice, and holds the identifier, district code, coordinates, geometry
      and district columns. */
  lemma OutputColumns(raw: Table, boundaries: Option<Steps.Boundaries>, lib: Library)
    requires Runnable(raw, boundaries)
    ensures var cols := Output(raw, boundaries, lib).columns;
      && cols == Export.SelectedColumns(Cleaned(raw, boundaries, lib).columns) + [Export.AuditColumn]
      && NoDuplicates(cols) && cols[0] == "id" && cols[|cols| - 1] == "data_source"
      && "id" in cols && "district_id" in cols && "latitude" in cols
      && "longitude" in cols && "geometry" in cols && "district" in cols
  {
    var cleaned := Cleaned(raw, boundaries, lib).columns;
    CleanedHasColumns(raw, boundaries, lib);
    Export.OutputColumnsEndWithAudit(Cleaned(raw, boundaries, lib));
    Export.SelectedColumnsExactly(cleaned);
    Export.ComputedColumnsAreFinal();
    Export.SelectionStartsWithId(cleaned);
  }

  /** The cell the `district` column holds for a fetched feature: the
      feature's own `BEZIRK` or `district` cell when the features have that
      column, otherwise the `BEZIRK` or `district` attribute of the boundary
      polygon containing its geometry. */
  function DistrictCell(feature: Row, boundaries: Option<Steps.Boundaries>): Cell
    requires "geometry" in feature
  {
    if "BEZIRK" in feature then feature["BEZIRK"]
    else if "district" in feature then feature["district"]
    else match boundaries
      case Some(b) =>
        Steps.JoinedCell(feature["geometry"], b, if "BEZIRK" in b.columns then "BEZIRK" else "district")
      case None => None
  }

  /** The `district` cell of row k before the export is that of the k-th
      fetched feature with a geometry. */
  lemma {:induction false} DistrictRowAt(raw: Table, boundaries: Option<Steps.Boundaries>, lib: Library, k: nat)
    requires Runnable(raw, boundaries)
    requires k < |KeptPositions(raw.rows, Steps.HasGeometry)|
    ensures var idx := KeptPositions(raw.rows, Steps.HasGeometry);
      var c := Cleaned(raw, boundaries, lib);
      && idx[k] < |raw.rows| && "geometry" in raw.rows[idx[k]] && k < |c.rows|
      && "district" in c.rows[k] && c.rows[k]["district"] == DistrictCell(raw.rows[idx[k]], boundaries)
  {
    var m := Mapped(raw, boundaries, lib);
    CleanedIsCleanOfMapped(raw, boundaries, lib);
    var s := MappedDistrictAt(raw, boundaries, lib, k);
    CleanRows(m, lib);
  }

  /** Before renaming, row k holds the district of the k-th kept feature
      under the label that renaming turns into `district`. */
  lemma {:induction false} MappedDistrictAt(raw: Table, boundaries: Option<Steps.Boundaries>, lib: Library, k: nat)
    returns (s: Name)
    requires Runnable(raw, boundaries)
    requires k < |KeptPositions(raw.rows, Steps.HasGeometry)|
    ensures var idx := KeptPositions(raw.rows, Steps.HasGeometry);
      var m := Mapped(raw, boundaries, lib);
      && idx[k] < |raw.rows| && "geometry" in raw.rows[idx[k]] && k < |m.rows|
      && s in m.rows[k] && Renaming.Renamed(s) == "district"
      && m.rows[k][s] == DistrictCell(raw.rows[idx[k]], boundaries)
  {
    var idx := KeptPositions(raw.rows, Steps.HasGeometry);
    var p := Prepare(raw, lib);
    var m := Mapped(raw, boundaries, lib);
    assert idx[k] < |raw.rows| && k < |p.rows| && k < |m.rows| by {
      PreparedRows(raw, lib);
      MappedKeepsCells(raw, boundaries, lib);
    }
    var feature := raw.rows[idx[k]];
    assert feature.Keys == Labels(raw.columns);
    s := DistrictLabel(raw.columns, boundaries);
    CellExists(m, k, s);
    if s in raw.columns {
      assert m.rows[k][s] == feature[s] by {
        PreparedKeepsFeatureCells(raw, lib);
        MappedKeepsCells(raw, boundaries, lib);
      }
      DistrictCellOwn(feature, boundaries, s);
    } else {
      assert m.rows[k][s] == Steps.JoinedCell(feature["geometry"], boundaries.value, s) by {
        PreparedRows(raw, lib);
        MappedKeepsCells(raw, boundaries, lib);
      }
      DistrictCellJoined(feature, boundaries.value, s);
    }
  }

  /** The label that renaming turns into `district`: `BEZIRK` or `district`,
      from the features or the boundary file, and the only one of the two
      the frame holds. */
  lemma {:induction false} DistrictLabel(columns: seq<Name>, boundaries: Option<Steps.Boundaries>) returns (s: Name)
    requires Joinable(columns, boundaries)
    requires Renaming.RenameCollisionFree(Labels(MappedColumns(columns, boundaries)))
    requires "district" in Renaming.RenameColumns(MappedColumns(columns, boundaries))
    ensures s in MappedColumns(columns, boundaries) && (s == "BEZIRK" || s == "district")
    ensures Renaming.Renamed(s) == "district"
    ensures s != "latitude" && s != "longitude" && s != "id"
    ensures !("BEZIRK" in MappedColumns(columns, boundaries) && "district" in MappedColumns(columns, boundaries))
    ensures s in columns || (boundaries.Some? && s in boundaries.value.columns)
    ensures s !in columns ==> "BEZIRK" !in columns && "district" !in columns
  {
    var mc := MappedColumns(columns, boundaries);
    var renamed := Renaming.RenameColumns(mc);
    var i :| 0 <= i < |renamed| && renamed[i] == "district";
    s := mc[i];
    Renaming.RenamedToDistrict(s);
    Renaming.RenameCollisionFreeIff(Labels(mc));
    var extra: seq<Name> := if boundaries.Some? then boundaries.value.columns else [];
    assert mc == PreparedColumns(columns) + extra;
    assert s != "latitude" && s != "longitude" && s != "id" by {
      assert s[0] == 'B' || s[0] == 'd';
    }
    if s !in columns {
      assert s in extra;
      assert s in Labels(boundaries.value.columns);
    }
  }

  /** When the feature has the label itself, `DistrictCell` is its own cell. */
  lemma DistrictCellOwn(feature: Row, boundaries: Option<Steps.Boundaries>, s: Name)
    requires "geometry" in feature && s in feature && (s == "BEZIRK" || s == "district")
    requires !("BEZIRK" in feature && "district" in feature)
    ensures DistrictCell(feature, boundaries) == feature[s]
  {
    if s == "district" {
      assert "BEZIRK" !in feature;
    }
  }

  /** When only the boundary file has the label, `DistrictCell` is the joined
      attribute. */
  lemma DistrictCellJoined(feature: Row, b: Steps.Boundaries, s: Name)
    requires "geometry" in feature && "BEZIRK" !in feature && "district" !in feature
    requires s in b.columns && (s == "BEZIRK" || s == "district")
    requires !("BEZIRK" in b.columns && "district" in b.columns)
    ensures DistrictCell(feature, Some(b)) == Steps.JoinedCell(feature["geometry"], b, s)
  {
  }

  /** A cleaned row and the fetched feature it comes from: the feature has
      a geometry; the row holds the feature's identifier, the centroid
      coordinates, the geometry as Well-Known Text, the feature's district
      and the official code of that district. */
  ghost predicate CleanedFrom(row: Row, feature: Row, boundaries: Option<Steps.Boundaries>, lib: Library) {
    && "geometry" in feature && feature["geometry"].Some? && feature["geometry"].value.Shape?
    && "id" in row && row["id"] == Some(Int(FeatureId(feature, lib)))
    && "latitude" in row && row["latitude"] == Steps.CentroidCell(feature["geometry"], lib.centroidY)
    && "longitude" in row && row["longitude"] == Steps.CentroidCell(feature["geometry"], lib.centroidX)
    && "geometry" in row && row["geometry"] == Some(Text(lib.wkt(feature["geometry"].value.geometry)))
    && "district" in row && row["district"] == DistrictCell(feature, boundaries)
    && "district_id" in row && row["district_id"] == Districts.DistrictId(DistrictCell(feature, boundaries))
  }

  /** An exported row: a cleaned row that also carries the audit tag. */
  ghost predicate ExportedFrom(row: Row, feature: Row, boundaries: Option<Steps.Boundaries>, lib: Library) {
    && CleanedFrom(row, feature, boundaries, lib)
    && Export.AuditColumn in row && row[Export.AuditColumn] == Some(Text(Export.AuditTag))
  }

  /** The cleaned frame is `Clean` applied to the mapped frame. */
  lemma CleanedIsCleanOfMapped(raw: Table, boundaries: Option<Steps.Boundaries>, lib: Library)
    requires Runnable(raw, boundaries)
    ensures Cleanable(Mapped(raw, boundaries, lib))
    ensures Cleaned(raw, boundaries, lib) == Clean(Mapped(raw, boundaries, lib), lib)
  {
    assert "geometry" in Mapped(raw, boundaries, lib).columns;
  }

  /** Row k of the cleaned frame, traced back to its feature through sections
      2 to 6. */
  lemma {:induction false} CleanedRowAt(raw: Table, boundaries: Option<Steps.Boundaries>, lib: Library, k: nat)
    requires Runnable(raw, boundaries)
    requires k < |KeptPositions(raw.rows, Steps.HasGeometry)|
    ensures var idx := KeptPositions(raw.rows, Steps.HasGeometry);
      var c := Cleaned(raw, boundaries, lib);
      && idx[k] < |raw.rows| && k < |c.rows|
      && CleanedFrom(c.rows[k], raw.rows[idx[k]], boundaries, lib)
  {
    var idx := KeptPositions(raw.rows, Steps.HasGeometry);
    var p := Prepare(raw, lib);
    var m := Mapped(raw, boundaries, lib);
    CleanedIsCleanOfMapped(raw, boundaries, lib);
    var c := Cleaned(raw, boundaries, lib);
    PreparedRows(raw, lib);
    MappedKeepsCells(raw, boundaries, lib);
    CleanRows(m, lib);
    Renaming.ComputedColumnsKeepLabels();
    assert c.rows[k]["geometry"] == Steps.WktCell(p.rows[k]["geometry"], lib);
    assert GeometryColumnTyped(raw);
    DistrictRowAt(raw, boundaries, lib, k);
  }

  /** The export copies a cleaned row's computed cells and adds the tag. */
  lemma {:induction false} ExportedRowAt(c: Table, feature: Row, boundaries: Option<Steps.Boundaries>, lib: Library, k: nat)
    requires WellFormed(c) && k < |c.rows| && CleanedFrom(c.rows[k], feature, boundaries, lib)
    requires var cols := Export.FinalFrame(c).columns;
      && "id" in cols && "district_id" in cols && "latitude" in cols
      && "longitude" in cols && "geometry" in cols && "district" in cols
    ensures k < |Export.FinalFrame(c).rows| && ExportedFrom(Export.FinalFrame(c).rows[k], feature, boundaries, lib)
  {
    Export.FinalFrameCopiesCells(c);
    Export.FinalFrameTagsEveryRow(c);
    Export.ComputedColumnsAreFinal();
    Export.AuditColumnNotFinal();
  }

  /** The whole pass: `df_final` has one row per fetched feature with a
      geometry, in the order of the features, each exported from its feature. */
  lemma OutputRows(raw: Table, boundaries: Option<Steps.Boundaries>, lib: Library)
    requires Runnable(raw, boundaries)
    ensures var idx := KeptPositions(raw.rows, Steps.HasGeometry);
      var out := Output(raw, boundaries, lib);
      && |out.rows| == |idx| && StrictlyIncreasing(idx)
      && (forall i :: 0 <= i < |raw.rows| ==> (i in idx <==> Steps.HasGeometry(raw.rows[i])))
      && forall k :: 0 <= k < |idx| ==> idx[k] < |raw.rows| && ExportedFrom(out.rows[k], raw.rows[idx[k]], boundaries, lib)
  {
    var idx := KeptPositions(raw.rows, Steps.HasGeometry);
    var c := Cleaned(raw, boundaries, lib);
    PreparedRows(raw, lib);
    MappedKeepsCells(raw, boundaries, lib);
    CleanedIsCleanOfMapped(raw, boundaries, lib);
    CleanRows(Mapped(raw, boundaries, lib), lib);
    Steps.DropMissingGeometryKeepsOrder(raw);
    OutputColumns(raw, boundaries, lib);
    forall k | 0 <= k < |idx|
      ensures idx[k] < |raw.rows| && ExportedFrom(Output(raw, boundaries, lib).rows[k], raw.rows[idx[k]], boundaries, lib)
    {
      CleanedRowAt(raw, boundaries, lib, k);
      ExportedRowAt(c, raw.rows[idx[k]], boundaries, lib, k);
    }
  }

  /** A `district` label after renaming was `BEZIRK` or `district` before,
      and the script adds neither itself. */
  lemma {:induction false} DistrictColumnSource(columns: seq<Name>, boundaries: Option<Steps.Boundaries>)
    requires Renaming.RenameCollisionFree(Labels(MappedColumns(columns, boundaries)))
    requires "district" in Renaming.RenameColumns(MappedColumns(columns, boundaries))
    ensures || "BEZIRK" in columns || "district" in columns
      || (boundaries.Some? && ("BEZIRK" in boundaries.value.columns || "district" in boundaries.value.columns))
  {
    var mapped := MappedColumns(columns, boundaries);
    var renamed := Renaming.RenameColumns(mapped);
    var extra: seq<Name> := if boundaries.Some? then boundaries.value.columns else [];
    assert mapped == PreparedColumns(columns) + extra;
    var i :| 0 <= i < |renamed| && renamed[i] == "district";
    var c := mapped[i];
    Renaming.RenamedToDistrict(c);
    assert c != "latitude" && c != "longitude" && c != "id" by {
      assert c[0] == 'B' || c[0] == 'd';
    }
    assert c in PreparedColumns(columns) || c in extra;
  }

  /** Line 62 reads the `district` column unconditionally. It exists exactly
      when the features or the boundary file bring a `BEZIRK` or `district`
      column; without the boundary file, only the features can. */
  lemma {:induction false} DistrictColumnPresentIff(columns: seq<Name>, boundaries: Option<Steps.Boundaries>)
    requires Renaming.RenameCollisionFree(Labels(MappedColumns(columns, boundaries)))
    ensures "district" in Renaming.RenameColumns(MappedColumns(columns, boundaries)) <==>
      || "BEZIRK" in columns || "district" in columns
      || (boundaries.Some? && ("BEZIRK" in boundaries.value.columns || "district" in boundaries.value.columns))
  {
    var mapped := MappedColumns(columns, boundaries);
    if "district" in Renaming.RenameColumns(mapped) {
      DistrictColumnSource(columns, boundaries);
    }
    assert "BEZIRK" in columns || "district" in columns ==> "BEZIRK" in mapped || "district" in mapped;
    if "BEZIRK" in mapped {
      Renaming.RenamedToDistrict("BEZIRK");
    }
    if "district" in mapped {
      Renaming.RenamedToDistrict("district");
    }
  }
}
