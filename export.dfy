/** The final export (section 7 of the script): the columns of `final_cols`
    that exist, in that order, followed by the `data_source` audit tag. */
module Export {
  import opened Sequences
  import opened Table

  /** `final_cols`: the column order the database expects. */
  const FinalColumns: seq<Name> := [
    "id", "district_id", "center_name", "address", "postal_code",
    "latitude", "longitude", "geometry", "neighborhood", "district", "neighborhood_id"]

  const AuditColumn: Name := "data_source"
  const AuditTag: string := "OSM_LOR"

  /** The final column names are pairwise distinct. */
  lemma FinalColumnsDistinct()
    ensures NoDuplicates(FinalColumns)
  {
    forall i, j | 0 <= i < j < |FinalColumns|
      ensures FinalColumns[i] != FinalColumns[j]
    {
      assert |FinalColumns[i]| != |FinalColumns[j]| || FinalColumns[i][0] != FinalColumns[j][0];
    }
  }

  /** The audit column is not one of the final columns. */
  lemma AuditColumnNotFinal()
    ensures AuditColumn !in FinalColumns
  {
    forall i | 0 <= i < |FinalColumns|
      ensures FinalColumns[i] != AuditColumn
    {
      assert |FinalColumns[i]| != |AuditColumn| || FinalColumns[i][1] != AuditColumn[1];
    }
  }

  /** The test of the list comprehension: `c in gdf.columns`. */
  function PresentIn(columns: seq<Name>): Name -> bool {
    c => c in columns
  }

  /** `[c for c in final_cols if c in gdf.columns]`. */
  function SelectedColumns(columns: seq<Name>): (r: seq<Name>)
    ensures forall c :: c in r ==> c in columns
    ensures NoDuplicates(r)
    ensures AuditColumn !in r
  {
    var r := Filter(FinalColumns, PresentIn(columns));
    assert NoDuplicates(r) by {
      FinalColumnsDistinct();
      FilterNoDuplicates(FinalColumns, PresentIn(columns));
    }
    assert forall c :: c in r ==> c in columns by {
      FilterMembers(FinalColumns, PresentIn(columns));
    }
    assert AuditColumn !in r by {
      AuditColumnNotFinal();
      FilterMembers(FinalColumns, PresentIn(columns));
    }
    r
  }

  /** Exactly the final columns that exist are selected. */
  lemma SelectedColumnsExactly(columns: seq<Name>)
    ensures forall c :: c in SelectedColumns(columns) <==> c in FinalColumns && c in columns
  {
    FilterMembers(FinalColumns, PresentIn(columns));
  }

  /** The selected columns keep the order of `final_cols`: the k-th selected
      column is the final column at the k-th of an ascending list of positions,
      and exactly the positions whose column exists are listed. */
  lemma SelectedColumnsInFinalOrder(columns: seq<Name>)
    ensures var idx := KeptPositions(FinalColumns, PresentIn(columns));
      && |idx| == |SelectedColumns(columns)|
      && StrictlyIncreasing(idx)
      && (forall k :: 0 <= k < |idx| ==> idx[k] < |FinalColumns| && SelectedColumns(columns)[k] == FinalColumns[idx[k]])
      && (forall i :: 0 <= i < |FinalColumns| ==> (i in idx <==> FinalColumns[i] in columns))
  {
    FilterKeepsOrder(FinalColumns, PresentIn(columns));
  }

  /** `id` leads the selection whenever it exists. */
  lemma SelectionStartsWithId(columns: seq<Name>)
    requires "id" in columns
    ensures |SelectedColumns(columns)| > 0 && SelectedColumns(columns)[0] == "id"
  {
    var keep := PresentIn(columns);
    assert FinalColumns[0] == "id" && keep(FinalColumns[0]);
    assert SelectedColumns(columns) == [FinalColumns[0]] + Filter(FinalColumns[1..], keep);
  }

  /** The computed columns are among the final columns. */
  lemma ComputedColumnsAreFinal()
    ensures "id" in FinalColumns && "district_id" in FinalColumns && "latitude" in FinalColumns
    ensures "longitude" in FinalColumns && "geometry" in FinalColumns && "district" in FinalColumns
  {
    assert FinalColumns[0] == "id" && FinalColumns[1] == "district_id";
    assert FinalColumns[5] == "latitude" && FinalColumns[6] == "longitude";
    assert FinalColumns[7] == "geometry" && FinalColumns[9] == "district";
  }

  /** `gdf[cols]`: the listed columns, in the listed order, with their cells
      copied unchanged. */
  function Project(t: Table, cols: seq<Name>): (r: Table)
    requires WellFormed(t) && NoDuplicates(cols) && Labels(cols) <= Labels(t.columns)
    ensures WellFormed(r) && r.columns == cols && |r.rows| == |t.rows|
    ensures forall i, c :: 0 <= i < |r.rows| && c in cols ==> r.rows[i][c] == t.rows[i][c]
  {
    Table(cols, seq(|t.rows|, i requires 0 <= i < |t.rows| => map c | c in cols :: t.rows[i][c]))
  }

  /** `df['data_source'] = 'OSM_LOR'`: the audit column, the same in every row. */
  function Tagged(t: Table): (r: Table)
    requires WellFormed(t) && AuditColumn !in t.columns
    ensures WellFormed(r) && |r.rows| == |t.rows| && r.columns == t.columns + [AuditColumn]
    ensures forall i, c :: 0 <= i < |r.rows| && c in t.columns ==> r.rows[i][c] == t.rows[i][c]
    ensures forall i :: 0 <= i < |r.rows| ==> r.rows[i][AuditColumn] == Some(Text(AuditTag))
  {
    SetColumn(t, AuditColumn, row => Some(Text(AuditTag)))
  }

  function FinalFrame(t: Table): (r: Table)
    requires WellFormed(t)
    ensures WellFormed(r) && |r.rows| == |t.rows|
    ensures r.columns == SelectedColumns(t.columns) + [AuditColumn]
  {
    var cols := SelectedColumns(t.columns);
    assert Labels(cols) <= Labels(t.columns);
    Tagged(Project(t, cols))
  }

  /** Projecting onto `cols` and tagging copies every cell of `cols`. */
  lemma ProjectThenTagCopies(t: Table, cols: seq<Name>)
    requires WellFormed(t) && NoDuplicates(cols) && Labels(cols) <= Labels(t.columns)
    requires AuditColumn !in cols
    ensures var r := Tagged(Project(t, cols));
      forall i, c :: 0 <= i < |r.rows| && c in r.columns && c != AuditColumn ==>
        c in t.rows[i] && r.rows[i][c] == t.rows[i][c]
  {
    var r := Tagged(Project(t, cols));
    forall i, c | 0 <= i < |r.rows| && c in r.columns && c != AuditColumn
      ensures c in t.rows[i] && r.rows[i][c] == t.rows[i][c]
    {
      assert c in cols;
      assert c in Labels(cols);
    }
  }

  /** Every selected cell of the output is the input's cell, unchanged. */
  lemma FinalFrameCopiesCells(t: Table)
    requires WellFormed(t)
    ensures var r := FinalFrame(t);
      forall i, c :: 0 <= i < |r.rows| && c in r.columns && c != AuditColumn ==>
        c in t.rows[i] && r.rows[i][c] == t.rows[i][c]
  {
    var cols := SelectedColumns(t.columns);
    assert Labels(cols) <= Labels(t.columns);
    ProjectThenTagCopies(t, cols);
  }

  /** Every output row carries the audit tag. */
  lemma FinalFrameTagsEveryRow(t: Table)
    requires WellFormed(t)
    ensures var r := FinalFrame(t);
      forall i :: 0 <= i < |r.rows| ==>
        AuditColumn in r.rows[i] && r.rows[i][AuditColumn] == Some(Text(AuditTag))
  {
    var cols := SelectedColumns(t.columns);
    assert Labels(cols) <= Labels(t.columns);
    var r := Tagged(Project(t, cols));
    assert FinalFrame(t) == r;
    forall i | 0 <= i < |r.rows|
      ensures AuditColumn in r.rows[i] && r.rows[i][AuditColumn] == Some(Text(AuditTag))
    {
      CellExists(r, i, AuditColumn);
    }
  }

  /** The output columns are unique and `data_source` is the last of them. */
  lemma OutputColumnsEndWithAudit(t: Table)
    requires WellFormed(t)
    ensures var cols := FinalFrame(t).columns;
      NoDuplicates(cols) && cols[|cols| - 1] == AuditColumn && |cols| <= |FinalColumns| + 1
  {
    var sel := SelectedColumns(t.columns);
    assert |sel| <= |FinalColumns|;
  }
}
