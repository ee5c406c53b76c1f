# Berlin job centres: the table transformation of `transform_jobcenters_data.py`

The script fetches the job centres of Berlin from OpenStreetMap as a
GeoDataFrame. It then reshapes that table into the CSV a database import
expects, in these steps:

1. It drops the features without a geometry.
2. It adds the centroid latitude and longitude.
3. It gives every row a stable identifier: SHA-256 of `name_latitude_longitude`, modulo 10^10.
4. When the boundary file `lor_ortsteile.geojson` exists, it joins the LOR locality (Ortsteil)
   boundaries spatially; each polygon carries its `BEZIRK` and `OTEIL`.
5. It renames four columns.
6. It looks up the official eight-digit district code.
7. It turns the geometry into Well-Known Text.
8. It exports the existing columns of a fixed list, in that list's order, followed by a `data_source` audit tag.

This project models those table rules and proves what they guarantee.

- **The frame.** A `Table` holds an ordered list of unique column labels and
  a sequence of rows (`table.dfy`). A row maps every label to a cell, and a
  cell is either missing (pandas' `None`/`NaN`) or holds a value.
- **The library routines are parameters.** Geometries and floats are
  uninterpreted. SHA-256, `str()` of a float, `.wkt` and the centroid
  coordinates are the fields of a `Library` value. The boundary file is a
  `Boundaries` value: its columns, plus a function from a geometry to the
  attributes of the polygon containing it.
- **One function per step.** Each step of the script is a function from the
  frame before it to the frame after it (`steps.dfy`, `rename.dfy`,
  `districts.dfy`, `export.dfy`). The per-row lambdas, the `.map` lookup and
  the column-selection comprehension are pure functions.
- **The script body updates frames in place.** It is modelled as the class
  `Jobcenters.Frame` (`jobcenters.dfy`), whose fields `columns` and `rows`
  its methods reassign. `Jobcenters.Transform` runs those methods in script
  order and is proved to produce `Jobcenters.Output`, the composition of the
  step functions.
- **End-to-end guarantees.** `pipeline.dfy` traces every exported row back
  to the fetched feature it came from.

`df[c] = ...` is modelled as pandas does it: an existing column is
overwritten where it stands, and a new column is appended (`Table.WithColumn`,
`Table.SetColumn`). `row.get('name', 'Unknown')` on a pandas row gives
`'Unknown'` only when the frame has no `name` column. A missing name is NaN
and is rendered as `nan` in the key (`StableIds.NameText`, `StableIds.Render`).

The script itself suggests it is meant to finish without the boundary
file: the else branch at lines 40-42 prints an error and carries on with an
unjoined copy of the frame. It does not finish, though: line 62 reads
`gdf_mapped['district']` unconditionally, and without the join only a
`BEZIRK` or `district` column of the fetched features can supply it. The model follows the code. The
district lookup requires the column (`Districts.AddDistrictIds`), the whole
pass requires it (`Jobcenters.Runnable`), and
`Pipeline.DistrictColumnPresentIff` states exactly when the column is there.

## Model

| member | source | states |
|---|---|---|
| Table.WithColumn | transform_jobcenters_data.py:24-28 | `df[c] = ...` (also lines 62, 67 and 92) keeps an existing label where it stands and appends a new one: the label set gains exactly `c`, the old labels stay a prefix, and no duplicate appears |
| Table.SetColumn | transform_jobcenters_data.py:24-28 | `df[c] = values` (also lines 62, 67 and 92) keeps the frame well formed and its row count, gives every row `c` = `values` of that row, and changes no other cell |
| Steps.DropMissingGeometry | transform_jobcenters_data.py:19 | the result is well formed, has the same columns and no more rows, and every remaining row has a geometry |
| Steps.DropMissingGeometryKeepsOrder | transform_jobcenters_data.py:19 | the k-th remaining row is the input row at the k-th of an ascending list of positions, and a position is listed exactly when its row has a geometry: rows without geometry go, all others stay unchanged and in order |
| Steps.DropMissingGeometryIdempotent | transform_jobcenters_data.py:19 | dropping missing geometries twice gives the same frame as once |
| Sequences.FilterKeepsOrder | transform_jobcenters_data.py:19 | the order-preserving filter behind row selection keeps exactly the passing positions, ascending, with their elements unchanged |
| Sequences.FilterMembers | transform_jobcenters_data.py:89 | an element is kept exactly when it occurs in the input and passes the test |
| Sequences.FilterNoDuplicates | transform_jobcenters_data.py:89 | filtering a duplicate-free list gives a duplicate-free list |
| Sequences.FilterKeepsAllPassing | transform_jobcenters_data.py:19 | when every element passes, the filter returns its input unchanged |
| Steps.AddCoordinates | transform_jobcenters_data.py:24-25 | latitude and longitude are the centroid's y and x (missing when the geometry is), the columns are added in pandas order, and every other cell is unchanged |
| StableIds.Render | transform_jobcenters_data.py:29 | `str()` of one cell inside the f-string: a missing cell is `nan`, text is itself, an integer its digits, a float and a geometry their library rendering (definition, no ensures) |
| StableIds.NameText | transform_jobcenters_data.py:29 | `row.get('name', 'Unknown')` rendered: the name cell when the frame has a `name` column, otherwise `Unknown` (definition, no ensures) |
| StableIds.IdKey | transform_jobcenters_data.py:29 | the f-string `name_latitude_longitude` that is hashed (definition, no ensures) |
| StableIds.StableId | transform_jobcenters_data.py:28-31 | the identifier of a row lies in [0, 10^10) |
| StableIds.StableIdDeterministic | transform_jobcenters_data.py:29 | two rows with the same name entry (or both without one), latitude and longitude get the same identifier |
| StableIds.StableIdIgnoresOtherColumns | transform_jobcenters_data.py:29 | changing any column other than name, latitude and longitude leaves the identifier unchanged |
| StableIds.AbsentNameCollidesWithUnknown | transform_jobcenters_data.py:29 | a row without a `name` entry gets the same identifier as one named "Unknown" at the same coordinates |
| StableIds.MissingNameCollidesWithNan | transform_jobcenters_data.py:29 | a missing name hashes like the literal name "nan" |
| Steps.AddIds | transform_jobcenters_data.py:28-31 | every row's `id` is the stable identifier of that row, the column is appended, and no other cell changes |
| Steps.AddIdsRangeAndDeterminism | transform_jobcenters_data.py:28-31 | every `id` is an integer in [0, 10^10), and rows with equal name, latitude and longitude get equal identifiers |
| Pipeline.FeatureId | transform_jobcenters_data.py:24-31 | the identifier of a fetched feature is the stable identifier of the feature with its centroid coordinates set, and lies in [0, 10^10) |
| Steps.JoinedCell | transform_jobcenters_data.py:39 | one cell of the left join: the attribute of the polygon containing the row's geometry, missing when there is no geometry, no such polygon or no such attribute (definition, no ensures) |
| Steps.SpatialJoin | transform_jobcenters_data.py:39 | the left join keeps every row in order with all its cells, appends the boundary columns, and fills them from the polygon containing the row's geometry, or leaves them missing |
| Renaming.Renamed | transform_jobcenters_data.py:45-51 | one `rename_dict` lookup: a listed label becomes its target, every other label stays (definition, no ensures) |
| Renaming.RenamedChangesExactlyFour | transform_jobcenters_data.py:45-50 | a label changes exactly when it is one of the four listed, and each changes to its listed target |
| Renaming.ComputedColumnsKeepLabels | transform_jobcenters_data.py:45-51 | id, latitude, longitude, geometry and district_id keep their labels |
| Renaming.RenamedToDistrict | transform_jobcenters_data.py:47 | a label becomes `district` exactly when it is `BEZIRK` or already `district` |
| Renaming.RenamedIdempotent | transform_jobcenters_data.py:45-50 | renaming a renamed label changes nothing |
| Renaming.RenameCollisionFreeIff | transform_jobcenters_data.py:45-51 | renaming creates no duplicate label exactly when the frame never holds both a listed label and its target |
| Renaming.RenameColumns | transform_jobcenters_data.py:51 | each label is renamed where it stands, the result has no duplicates, and its label set is the image of the old one |
| Renaming.RenameRow | transform_jobcenters_data.py:51 | a row keeps every cell, under the renamed label |
| Renaming.RenameRowKeys | transform_jobcenters_data.py:51 | a renamed row has a cell for exactly the renamed columns |
| Renaming.RenameRowGeometry | transform_jobcenters_data.py:51 | the geometry cell of a renamed row is the row's own geometry cell |
| Renaming.Rename | transform_jobcenters_data.py:51 | the frame stays well formed, keeps its rows in order, and moves every cell unchanged to its column's new label; the geometry column keeps its type |
| Districts.DistrictCodeAtLow | transform_jobcenters_data.py:55-57 | each of the first six districts is listed with code "11" + NNN + NNN, NNN being its number |
| Districts.DistrictCodeAtHigh | transform_jobcenters_data.py:58-60 | the same for the last six districts |
| Districts.DistrictTableFollowsNumbering | transform_jobcenters_data.py:54-61 | the table has exactly the twelve districts as keys, and district k has code OfficialCode(k) |
| Districts.BlockInjective | transform_jobcenters_data.py:55-60 | distinct district numbers have distinct three-digit blocks |
| Districts.DistrictCodesDistinct | transform_jobcenters_data.py:54-61 | no two districts share a code |
| Districts.DistrictCodeShape | transform_jobcenters_data.py:55-60 | every code is eight digits: "11" followed by two equal three-digit blocks |
| Districts.DistrictId | transform_jobcenters_data.py:62 | the lookup gives a code exactly when the cell is one of the twelve names, and then the official code of that district; any other value, and a missing one, gives a missing code |
| Districts.DistrictIdInjective | transform_jobcenters_data.py:54-62 | equal looked-up codes come from equal district cells |
| Districts.AddDistrictIds | transform_jobcenters_data.py:62 | every row's `district_id` is the lookup of its `district` cell and no other cell changes; it requires the `district` column |
| Steps.WktCell | transform_jobcenters_data.py:68 | a missing geometry stays missing and a present one becomes text |
| Steps.GeometryToText | transform_jobcenters_data.py:67-69 | the geometry column is replaced where it stands by its text; no other cell, column or row count changes |
| Export.FinalColumnsDistinct | transform_jobcenters_data.py:74-86 | the final column names are pairwise distinct |
| Export.AuditColumnNotFinal | transform_jobcenters_data.py:74-92 | `data_source` is not among the final columns |
| Export.SelectedColumns | transform_jobcenters_data.py:89 | the selection holds only existing columns, no duplicates and not the audit column |
| Export.SelectedColumnsExactly | transform_jobcenters_data.py:89 | a column is selected exactly when it is a final column and it exists |
| Export.SelectedColumnsInFinalOrder | transform_jobcenters_data.py:89 | the selection is `final_cols` with the missing columns removed and nothing reordered |
| Export.SelectionStartsWithId | transform_jobcenters_data.py:74-89 | when `id` exists it is the first selected column |
| Export.ComputedColumnsAreFinal | transform_jobcenters_data.py:74-86 | id, district_id, latitude, longitude, geometry and district are final columns |
| Export.Project | transform_jobcenters_data.py:89 | `gdf[cols]` has exactly the listed columns, in order, with their cells copied |
| Export.Tagged | transform_jobcenters_data.py:92 | the audit column is appended, every row holds 'OSM_LOR' there, and the other cells are unchanged |
| Export.FinalFrame | transform_jobcenters_data.py:89-92 | the output is well formed with one row per input row, and its columns are the selection followed by `data_source` |
| Export.ProjectThenTagCopies | transform_jobcenters_data.py:89-92 | projecting then tagging copies every non-audit cell unchanged |
| Export.FinalFrameCopiesCells | transform_jobcenters_data.py:89 | every output cell other than the tag is the input's cell, unchanged |
| Export.FinalFrameTagsEveryRow | transform_jobcenters_data.py:92 | every output row has `data_source` = 'OSM_LOR' |
| Export.OutputColumnsEndWithAudit | transform_jobcenters_data.py:89-92 | the output columns are unique, `data_source` is last, and there are at most twelve of them |
| Jobcenters.Runnable | transform_jobcenters_data.py:19-62 | what lines 19-62 need of the fetched frame: well formed, a geometry column of geometries, boundary columns disjoint from the prepared ones, a collision-free rename, and a `district` column for line 62 (definition, no ensures) |
| Jobcenters.PreparedColumns | transform_jobcenters_data.py:24-28 | the prepared columns are the fetched ones plus latitude, longitude and id, with the fetched ones first |
| Jobcenters.Prepare | transform_jobcenters_data.py:19-31 | sections 2 and 3 keep the frame well formed, with the prepared columns |
| Jobcenters.Mapped | transform_jobcenters_data.py:34-42 | on both branches of the boundary-file check the frame is well formed, with the boundary columns appended when joined |
| Jobcenters.Clean | transform_jobcenters_data.py:51-69 | renaming, the district lookup and the WKT conversion give a well-formed frame whose columns are the renamed ones plus `district_id` |
| Jobcenters.Cleaned | transform_jobcenters_data.py:19-69 | the frame before the export is well formed, with the renamed mapped columns plus `district_id` |
| Jobcenters.Output | transform_jobcenters_data.py:19-92 | `df_final` is well formed |
| Jobcenters.Frame.DropMissingGeometry | transform_jobcenters_data.py:19 | the frame becomes the filtered frame |
| Jobcenters.Frame.AddCoordinates | transform_jobcenters_data.py:24-25 | the frame gains the centroid columns in place |
| Jobcenters.Frame.AddIds | transform_jobcenters_data.py:28-31 | the frame gains the identifier column in place |
| Jobcenters.Frame.Copy | transform_jobcenters_data.py:42 | a fresh frame with the same contents |
| Jobcenters.Frame.SpatialJoin | transform_jobcenters_data.py:39 | a fresh frame holding the join |
| Jobcenters.Frame.RenameColumns | transform_jobcenters_data.py:51 | the frame is renamed |
| Jobcenters.Frame.AddDistrictIds | transform_jobcenters_data.py:62 | the frame gains `district_id` in place |
| Jobcenters.Frame.GeometryToText | transform_jobcenters_data.py:67-69 | the geometry column is overwritten with its text in place |
| Jobcenters.Frame.Select | transform_jobcenters_data.py:89 | a fresh frame holding the projection |
| Jobcenters.Frame.AddAuditTag | transform_jobcenters_data.py:92 | the frame gains the audit tag in place |
| Jobcenters.Frame.CleanUp | transform_jobcenters_data.py:51-69 | sections 5 and 6 in script order give `Clean` of the frame |
| Jobcenters.Frame.SelectForExport | transform_jobcenters_data.py:89-92 | a fresh frame holding the export |
| Jobcenters.Transform | transform_jobcenters_data.py:19-92 | running the script body on the fetched frame yields exactly `Output` of it, and leaves `gdf_raw` holding the prepared frame of lines 19-31: the copy or the join's new frame at lines 39-42 keeps the later in-place steps off it |
| Pipeline.PreparedRows | transform_jobcenters_data.py:19-31 | the k-th prepared row comes from the k-th fetched feature with a geometry, keeps its geometry, and holds its centroid coordinates and its identifier |
| Pipeline.PreparedKeepsFeatureCells | transform_jobcenters_data.py:19-31 | the k-th prepared row keeps every cell of the k-th fetched feature with a geometry, except the computed latitude, longitude and id |
| Pipeline.MappedKeepsCells | transform_jobcenters_data.py:34-42 | the join or the copy keeps every row in order and every cell of it, and each joined column holds the attribute of the polygon containing the row's geometry |
| Pipeline.CleanRows | transform_jobcenters_data.py:51-69 | the geometry becomes its text, the `district` cell is the cell of the label renamed into it, every row's `district_id` is the lookup of its `district`, and every column renaming leaves alone keeps its cells |
| Pipeline.CleanedIsCleanOfMapped | transform_jobcenters_data.py:45-69 | the frame after the join or copy meets what lines 45-69 need, and the cleaned frame is the cleanup of it |
| Pipeline.CleanedHasColumns | transform_jobcenters_data.py:24-62 | after section 6 the frame has id, district_id, latitude, longitude, geometry and district columns |
| Pipeline.OutputColumns | transform_jobcenters_data.py:74-92 | the output columns are the selection plus `data_source`, unique, with `id` first and `data_source` last, and include the six computed columns |
| Pipeline.DistrictCell | transform_jobcenters_data.py:39-62 | the district a feature ends up with: its own `BEZIRK` cell, else its own `district` cell, else the boundary file's `BEZIRK` (or `district`) attribute of the polygon containing it, else missing (definition, no ensures) |
| Pipeline.DistrictLabel | transform_jobcenters_data.py:39-51 | the label renamed into `district` is `BEZIRK` or `district`, comes from the features or the boundary file, and is the only one of the two the frame holds |
| Pipeline.DistrictCellOwn | transform_jobcenters_data.py:47-51 | when the features bring the label, the district cell is the feature's own cell |
| Pipeline.DistrictCellJoined | transform_jobcenters_data.py:39-51 | when only the boundary file brings the label, the district cell is the attribute of the polygon containing the feature's geometry |
| Pipeline.MappedDistrictAt | transform_jobcenters_data.py:19-51 | before renaming, row k holds the district of the k-th fetched feature with a geometry under the label renaming turns into `district` |
| Pipeline.DistrictRowAt | transform_jobcenters_data.py:19-62 | the `district` cell of row k before the export is the district of the k-th fetched feature with a geometry: its own `BEZIRK`/`district` cell, or the joined polygon's |
| Pipeline.CleanedRowAt | transform_jobcenters_data.py:19-69 | row k before the export holds the identifier, coordinates, geometry text, district and district code of the k-th fetched feature with a geometry |
| Pipeline.ExportedRowAt | transform_jobcenters_data.py:89-92 | the export copies those cells and adds the audit tag |
| Pipeline.OutputRows | transform_jobcenters_data.py:19-92 | `df_final` has one row per fetched feature with a geometry, in feature order, each holding that feature's identifier, centroid, geometry text, district (its own `BEZIRK`/`district` cell or the joined polygon's), the official code of that district, and the audit tag |
| Pipeline.DistrictColumnSource | transform_jobcenters_data.py:42-62 | a `district` column after renaming was `BEZIRK` or `district` in the features or the boundary file |
| Pipeline.DistrictColumnPresentIff | transform_jobcenters_data.py:39-62 | line 62 has its column exactly when the features or the joined boundary file bring `BEZIRK` or `district`; without the boundary file only the features can |

## Left out

- The OpenStreetMap fetch and the reprojection to EPSG:4326 (lines 15-16) are network and library calls. The model starts from the fetched frame.
- Steps.AddCoordinates: the centroid is a floating-point computation by shapely. It is the `centroidX`/`centroidY` parameter, and its values are opaque.
- StableIds.StableId: SHA-256 and the hexadecimal-to-integer conversion are the `sha256` parameter. The float formatting of the key is the `floatText` parameter. Only the reduction modulo 10^10 and the key layout are modelled.
- Steps.WktCell: shapely's `.wkt` text is the `wkt` parameter.
- Steps.SpatialJoin: the point-in-polygon test is the `containing` parameter, and it yields at most one polygon per row. A left join over overlapping polygons, which would duplicate rows, is not modelled. The `index_right` column geopandas adds is not modelled either.
- Jobcenters.Joinable: boundary columns that clash with the frame's columns would get `_left`/`_right` suffixes. The model requires the joined columns to be new.
- Renaming.RenameCollisionFree: when a frame holds both a listed label and its target, pandas renames into duplicate labels. The model requires that this does not happen, and `Renaming.RenameCollisionFreeIff` states exactly when it does not.
- Steps.DropMissingGeometry: pandas raises a KeyError when there is no `geometry` column. The model requires the column.
- Python's representation of a float NaN in a latitude or longitude is not modelled separately. Every missing cell renders as "nan".
- The file-existence check (line 34), the working-directory message (line 41), the output directory and CSV writing (lines 95-96) and the progress prints are I/O. The model has no file system. The boundary file is an optional parameter, and the CSV is the final frame.
- Jobcenters.Frame methods: their contracts state the new frame exactly, through `old`. What they guarantee is proved about the functions they are tied to.
