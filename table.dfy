/** The data model of the script's (Geo)DataFrame: an ordered list of column
    labels and a sequence of rows, each row a map from label to a cell that is
    either missing (pandas' None/NaN) or holds a value. Geometries, floats and
    the library routines that inspect them are left uninterpreted. */
module Table {
  import opened Sequences

  /** A column label. */
  type Name = string

  /** A shapely geometry; its structure is not modelled. */
  type Geometry(==, !new)

  /** A Python float (latitude, longitude); its arithmetic is not modelled. */
  type Float(==, !new)

  datatype Value =
    | Text(text: string)
    | Int(number: int)
    | Number(float: Float)
    | Shape(geometry: Geometry)

  datatype Option<+T> = None | Some(value: T)

  /** A cell of the table: `None` stands for pandas' missing value. */
  type Cell = Option<Value>

  type Row = map<Name, Cell>

  datatype Table = Table(columns: seq<Name>, rows: seq<Row>)

  /** The library routines the script calls on single values. */
  datatype Library = Library(
    sha256: string -> nat,        // int(hashlib.sha256(key.encode()).hexdigest(), 16)
    floatText: Float -> string,   // str() of a float inside an f-string
    wkt: Geometry -> string,      // shapely's `.wkt`
    centroidX: Geometry -> Cell,  // `.centroid.x`
    centroidY: Geometry -> Cell)  // `.centroid.y`

  function Labels(columns: seq<Name>): set<Name> {
    set c | c in columns
  }

  /** The representation invariant of a frame: column labels are unique and
      every row has a cell for exactly the frame's columns. */
  ghost predicate WellFormed(t: Table) {
    && NoDuplicates(t.columns)
    && forall i :: 0 <= i < |t.rows| ==> t.rows[i].Keys == Labels(t.columns)
  }

  /** The geometry column of a GeoDataFrame holds geometries or missing values. */
  ghost predicate GeometryColumnTyped(t: Table) {
    forall i :: 0 <= i < |t.rows| && "geometry" in t.rows[i] && t.rows[i]["geometry"].Some? ==>
      t.rows[i]["geometry"].value.Shape?
  }

  /** A row of a well-formed table has a cell for every column. */
  lemma CellExists(t: Table, i: nat, c: Name)
    requires WellFormed(t) && i < |t.rows| && c in t.columns
    ensures c in t.rows[i]
  {
    assert c in Labels(t.columns);
  }

  /** The column list after `df[c] = ...`: an existing column is overwritten
      where it stands, a new one is appended at the end. */
  function WithColumn(columns: seq<Name>, c: Name): (r: seq<Name>)
    ensures Labels(r) == Labels(columns) + {c}
    ensures forall d :: d in r <==> d in columns || d == c
    ensures columns <= r && |r| <= |columns| + 1
    ensures NoDuplicates(columns) ==> NoDuplicates(r)
  {
    if c in columns then columns else columns + [c]
  }

  /** `df[c] = values` where `values` is computed row by row: column `c` of
      every row is replaced or created, nothing else changes. */
  function SetColumn(t: Table, c: Name, values: Row --> Cell): (r: Table)
    requires WellFormed(t)
    requires forall i :: 0 <= i < |t.rows| ==> values.requires(t.rows[i])
    ensures WellFormed(r)
    ensures r.columns == WithColumn(t.columns, c) && |r.rows| == |t.rows|
    ensures forall i :: 0 <= i < |r.rows| ==> r.rows[i][c] == values(t.rows[i])
    ensures forall i, d :: 0 <= i < |r.rows| && d in t.rows[i] && d != c ==> r.rows[i][d] == t.rows[i][d]
  {
    Table(WithColumn(t.columns, c),
          seq(|t.rows|, i requires 0 <= i < |t.rows| => t.rows[i][c := values(t.rows[i])]))
  }

  /** The decimal digit `d` as a character. */
  function DigitChar(d: nat): (ch: char)
    requires d < 10
    ensures '0' <= ch <= '9' && ch as int - '0' as int == d
  {
    "0123456789"[d]
  }

  /** Python's `str()` of a non-negative integer: its decimal digits. It only
      serves `StableIds.Render` of an integer cell in the identifier key, and
      its ensures states that such a cell renders without the `_` separator. */
  function NaturalText(n: nat): (s: string)
    ensures 1 <= |s| && forall i :: 0 <= i < |s| ==> '0' <= s[i] <= '9'
    decreases n
  {
    if n < 10 then [DigitChar(n)] else NaturalText(n / 10) + [DigitChar(n % 10)]
  }

  /** Python's `str()` of an integer. */
  function IntText(n: int): string {
    if n < 0 then "-" + NaturalText(-n) else NaturalText(n)
  }
}
