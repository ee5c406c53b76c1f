/** The script body of transform_jobcenters_data.py: the frame it updates step
    by step (`gdf_raw`, `gdf_mapped`, `df_final`), the whole pass from the
    fetched features to the exported table, and what that pass guarantees. */
module Jobcenters {
  import opened Sequences
  import opened Table
  import opened StableIds
  import Steps
  import Renaming
  import Districts
  import Export

  /** The columns after the coordinates and the identifier are added. */
  function PreparedColumns(columns: seq<Name>): (r: seq<Name>)
    ensures forall c :: c in r <==> c in columns || c == "latitude" || c == "longitude" || c == "id"
    ensures columns <= r
  {
    WithColumn(WithColumn(WithColumn(columns, "latitude"), "longitude"), "id")
  }

  /** Sections 2 and 3: drop rows without geometry, add the centroid
      coordinates and the stable identifier. */
  function Prepare(raw: Table, lib: Library): (r: Table)
    requires WellFormed(raw) && "geometry" in raw.columns
    ensures WellFormed(r) && r.columns == PreparedColumns(raw.columns)
    ensures GeometryColumnTyped(raw) ==> GeometryColumnTyped(r)
  {
    var kept := Steps.DropMissingGeometry(raw);
    var located := Steps.AddCoordinates(kept, lib);
    Steps.AddIds(located, lib)
  }

  /** The column list of `gdf_mapped` on either branch of the boundary-file check. */
  function MappedColumns(columns: seq<Name>, boundaries: Option<Steps.Boundaries>): seq<Name> {
    PreparedColumns(columns) + if boundaries.Some? then boundaries.value.columns else []
  }

  /** The joined columns are new: geopandas would suffix clashing names. */
  predicate Joinable(columns: seq<Name>, boundaries: Option<Steps.Boundaries>) {
    boundaries.Some? ==>
      && NoDuplicates(boundaries.value.columns)
      && Labels(boundaries.value.columns) !! Labels(PreparedColumns(columns))
  }

  /** Section 4: `gdf_mapped`, the spatial join when the boundary file exists
      and a copy of `gdf_raw` when it does not. */
  function Mapped(raw: Table, boundaries: Option<Steps.Boundaries>, lib: Library): (r: Table)
    requires WellFormed(raw) && "geometry" in raw.columns && Joinable(raw.columns, boundaries)
    ensures WellFormed(r) && r.columns == MappedColumns(raw.columns, boundaries)
    ensures GeometryColumnTyped(raw) ==> GeometryColumnTyped(r)
  {
    var prepared := Prepare(raw, lib);
    match boundaries
    case Some(b) => Steps.SpatialJoin(prepared, b)
    case None => prepared
  }

  /** What the pass needs of its input to reach the export: the fetched
      features have a geometry column of geometries, the join adds new
      columns, renaming creates no duplicate label, and some column is named
      `district` after renaming (line 62 reads it unconditionally). */
  ghost predicate Runnable(raw: Table, boundaries: Option<Steps.Boundaries>) {
    && WellFormed(raw) && "geometry" in raw.columns && GeometryColumnTyped(raw)
    && Joinable(raw.columns, boundaries)
    && Renaming.RenameCollisionFree(Labels(MappedColumns(raw.columns, boundaries)))
    && "district" in Renaming.RenameColumns(MappedColumns(raw.columns, boundaries))
  }

  /** What sections 5 and 6 need of `gdf_mapped`: a geometry column of
      geometries, renaming without duplicate labels, and a `district` column
      after renaming. */
  ghost predicate Cleanable(t: Table) {
    && WellFormed(t) && "geometry" in t.columns && GeometryColumnTyped(t)
    && Renaming.RenameCollisionFree(Labels(t.columns))
    && "district" in Renaming.RenameColumns(t.columns)
  }

  /** Sections 5 and 6 on `gdf_mapped`: renaming, district codes and geometry
      as text. */
  function Clean(t: Table, lib: Library): (r: Table)
    requires Cleanable(t)
    ensures WellFormed(r)
    ensures r.columns == WithColumn(Renaming.RenameColumns(t.columns), "district_id")
  {
    var renamed := Renaming.Rename(t);
    assert "geometry" in renamed.columns by {
      assert Renaming.Renamed("geometry") == "geometry";
    }
    var coded := Districts.AddDistrictIds(renamed);
    Steps.GeometryToText(coded, lib)
  }

  /** The frame after sections 2 to 6. */
  function Cleaned(raw: Table, boundaries: Option<Steps.Boundaries>, lib: Library): (r: Table)
    requires Runnable(raw, boundaries)
    ensures WellFormed(r)
    ensures r.columns == WithColumn(Renaming.RenameColumns(MappedColumns(raw.columns, boundaries)), "district_id")
  {
    var mapped := Mapped(raw, boundaries, lib);
    assert "geometry" in mapped.columns;
    Clean(mapped, lib)
  }

  /** The whole pass: `df_final` as written to the CSV file. */
  function Output(raw: Table, boundaries: Option<Steps.Boundaries>, lib: Library): (r: Table)
    requires Runnable(raw, boundaries)
    ensures WellFormed(r)
  {
    Export.FinalFrame(Cleaned(raw, boundaries, lib))
  }

  /** The frame the script updates in place. */
  class Frame {
    var columns: seq<Name>
    var rows: seq<Row>

    function Snapshot(): Table
      reads this
    {
      Table(columns, rows)
    }

    ghost predicate Valid()
      reads this
    {
      WellFormed(Snapshot())
    }

    constructor (t: Table)
      requires WellFormed(t)
      ensures Valid() && Snapshot() == t
    {
      columns := t.columns;
      rows := t.rows;
    }

    /** `gdf_raw = gdf_raw.dropna(subset=['geometry']).copy()` */
    method DropMissingGeometry()
      requires Valid() && "geometry" in columns
      modifies this
      ensures Valid() && Snapshot() == Steps.DropMissingGeometry(old(Snapshot()))
    {
      var t := Steps.DropMissingGeometry(Snapshot());
      columns, rows := t.columns, t.rows;
    }

    /** `gdf_raw['latitude'] = ...` and `gdf_raw['longitude'] = ...` */
    method AddCoordinates(lib: Library)
      requires Valid() && "geometry" in columns
      modifies this
      ensures Valid() && Snapshot() == Steps.AddCoordinates(old(Snapshot()), lib)
    {
      var t := Steps.AddCoordinates(Snapshot(), lib);
      columns, rows := t.columns, t.rows;
    }

    /** `gdf_raw['id'] = gdf_raw.apply(...)` */
    method AddIds(lib: Library)
      requires Valid() && "latitude" in columns && "longitude" in columns
      modifies this
      ensures Valid() && Snapshot() == Steps.AddIds(old(Snapshot()), lib)
    {
      var t := Steps.AddIds(Snapshot(), lib);
      columns, rows := t.columns, t.rows;
    }

    /** `gdf_raw.copy()` */
    method Copy() returns (f: Frame)
      requires Valid()
      ensures fresh(f) && f.Valid() && f.Snapshot() == Snapshot()
    {
      f := new Frame(Snapshot());
    }

    /** `gpd.sjoin(gdf_raw, lor_gdf, how='left', predicate='within')` */
    method SpatialJoin(b: Steps.Boundaries) returns (f: Frame)
      requires Valid() && "geometry" in columns
      requires NoDuplicates(b.columns) && Labels(b.columns) !! Labels(columns)
      ensures fresh(f) && f.Valid() && f.Snapshot() == Steps.SpatialJoin(Snapshot(), b)
    {
      f := new Frame(Steps.SpatialJoin(Snapshot(), b));
    }

    /** `gdf_mapped = gdf_mapped.rename(columns=rename_dict)` */
    method RenameColumns()
      requires Valid() && Renaming.RenameCollisionFree(Labels(columns))
      modifies this
      ensures Valid() && Snapshot() == Renaming.Rename(old(Snapshot()))
    {
      var t := Renaming.Rename(Snapshot());
      columns, rows := t.columns, t.rows;
    }

    /** `gdf_mapped['district_id'] = gdf_mapped['district'].map(district_mapping)` */
    method AddDistrictIds()
      requires Valid() && "district" in columns
      modifies this
      ensures Valid() && Snapshot() == Districts.AddDistrictIds(old(Snapshot()))
    {
      var t := Districts.AddDistrictIds(Snapshot());
      columns, rows := t.columns, t.rows;
    }

    /** `gdf_mapped['geometry'] = gdf_mapped['geometry'].apply(...)` */
    method GeometryToText(lib: Library)
      requires Valid() && "geometry" in columns && GeometryColumnTyped(Snapshot())
      modifies this
      ensures Valid() && Snapshot() == Steps.GeometryToText(old(Snapshot()), lib)
    {
      var t := Steps.GeometryToText(Snapshot(), lib);
      columns, rows := t.columns, t.rows;
    }

    /** `gdf_mapped[cols].copy()` */
    method Select(cols: seq<Name>) returns (f: Frame)
      requires Valid() && NoDuplicates(cols) && Labels(cols) <= Labels(columns)
      ensures fresh(f) && f.Valid() && f.Snapshot() == Export.Project(Snapshot(), cols)
    {
      f := new Frame(Export.Project(Snapshot(), cols));
    }

    /** `df_final['data_source'] = 'OSM_LOR'` */
    method AddAuditTag()
      requires Valid() && Export.AuditColumn !in columns
      modifies this
      ensures Valid() && Snapshot() == Export.Tagged(old(Snapshot()))
    {
      var t := Export.Tagged(Snapshot());
      columns, rows := t.columns, t.rows;
    }

    /** Sections 5 and 6 in script order. */
    method CleanUp(lib: Library)
      requires Valid() && Cleanable(Snapshot())
      modifies this
      ensures Valid() && Snapshot() == Clean(old(Snapshot()), lib)
    {
      RenameColumns();
      assert "geometry" in columns by {
        assert Renaming.Renamed("geometry") == "geometry";
      }
      AddDistrictIds();
      GeometryToText(lib);
    }

    /** Section 7: the selected columns and the audit tag, as a new frame. */
    method SelectForExport() returns (f: Frame)
      requires Valid()
      ensures fresh(f) && f.Valid() && f.Snapshot() == Export.FinalFrame(Snapshot())
    {
      var cols := Export.SelectedColumns(columns);
      assert Labels(cols) <= Labels(columns);
      f := Select(cols);
      f.AddAuditTag();
    }
  }

  /** The script body from the fetched features `gdf_raw` to `df_final`;
      `boundaries` is the boundary file when it exists. */
  method Transform(raw: Frame, boundaries: Option<Steps.Boundaries>, lib: Library) returns (final: Frame)
    requires raw.Valid() && Runnable(raw.Snapshot(), boundaries)
    modifies raw
    ensures fresh(final) && final.Valid()
    ensures final.Snapshot() == Output(old(raw.Snapshot()), boundaries, lib)
    ensures raw.Valid() && raw.Snapshot() == Prepare(old(raw.Snapshot()), lib)
  {
    ghost var input := raw.Snapshot();
    raw.DropMissingGeometry();
    raw.AddCoordinates(lib);
    raw.AddIds(lib);
    ghost var prepared := raw.Snapshot();
    assert prepared == Prepare(input, lib);
    var mapped: Frame;
    if boundaries.Some? {
      mapped := raw.SpatialJoin(boundaries.value);
    } else {
      mapped := raw.Copy();
    }
    assert mapped.Snapshot() == Mapped(input, boundaries, lib);
    // The copy (or the join's new frame) keeps the cleanup off `gdf_raw`.
    assert mapped != raw;
    mapped.CleanUp(lib);
    final := mapped.SelectForExport();
    assert raw.Snapshot() == prepared;
  }
}
