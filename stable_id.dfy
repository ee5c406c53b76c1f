/** The stable identifier of a job centre (section 3 of the script): the
    SHA-256 digest of the key `name_latitude_longitude`, read as a hexadecimal
    integer and reduced modulo 10^10. */
module StableIds {
  import opened Table

  /** 10**10: identifiers have at most ten decimal digits. */
  const IdModulus: nat := 10_000_000_000

  /** What `row.get('name', 'Unknown')` yields when the frame has no `name` column. */
  const UnknownName: string := "Unknown"

  /** How the f-string renders a cell, i.e. Python's `str()` of it; a missing
      value is pandas' NaN and renders as "nan". */
  function Render(c: Cell, lib: Library): string {
    match c
    case None => "nan"
    case Some(Text(s)) => s
    case Some(Int(n)) => IntText(n)
    case Some(Number(x)) => lib.floatText(x)
    case Some(Shape(g)) => lib.wkt(g)
  }

  /** The first part of the key: the `name` cell, or "Unknown" when the row
      has no `name` entry at all. */
  function NameText(row: Row, lib: Library): string {
    if "name" in row then Render(row["name"], lib) else UnknownName
  }

  /** The string that is hashed. */
  function IdKey(row: Row, lib: Library): string
    requires "latitude" in row && "longitude" in row
  {
    NameText(row, lib) + "_" + Render(row["latitude"], lib) + "_" + Render(row["longitude"], lib)
  }

  /** The identifier of one row. */
  function StableId(row: Row, lib: Library): (id: nat)
    requires "latitude" in row && "longitude" in row
    ensures id < IdModulus
  {
    lib.sha256(IdKey(row, lib)) % IdModulus
  }

  /** Two rows with the same name entry (or both without one), the same
      latitude and the same longitude get the same identifier, whatever else
      they hold. */
  lemma StableIdDeterministic(a: Row, b: Row, lib: Library)
    requires "latitude" in a && "longitude" in a && "latitude" in b && "longitude" in b
    requires ("name" in a <==> "name" in b) && ("name" in a ==> a["name"] == b["name"])
    requires a["latitude"] == b["latitude"] && a["longitude"] == b["longitude"]
    ensures StableId(a, lib) == StableId(b, lib)
  {
  }

  /** Changing or adding any other column leaves the identifier unchanged. */
  lemma StableIdIgnoresOtherColumns(row: Row, c: Name, v: Cell, lib: Library)
    requires "latitude" in row && "longitude" in row
    requires c != "name" && c != "latitude" && c != "longitude"
    ensures StableId(row[c := v], lib) == StableId(row, lib)
  {
    assert IdKey(row[c := v], lib) == IdKey(row, lib);
  }

  /** Identifiers are only best-effort unique: a frame without a `name`
      column and a row literally named "Unknown" at the same coordinates hash
      the same key. */
  lemma AbsentNameCollidesWithUnknown(row: Row, lib: Library)
    requires "latitude" in row && "longitude" in row && "name" !in row
    ensures StableId(row, lib) == StableId(row["name" := Some(Text(UnknownName))], lib)
  {
    assert IdKey(row, lib) == IdKey(row["name" := Some(Text(UnknownName))], lib);
  }

  /** Likewise a missing name renders as "nan", the same as the name "nan". */
  lemma MissingNameCollidesWithNan(row: Row, lib: Library)
    requires "latitude" in row && "longitude" in row
    ensures StableId(row["name" := None], lib) == StableId(row["name" := Some(Text("nan"))], lib)
  {
    assert IdKey(row["name" := None], lib) == IdKey(row["name" := Some(Text("nan"))], lib);
  }
}
