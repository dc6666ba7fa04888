/**
 * The geographic filter of the georeference table: a row is kept when the point built from
 * its coordinates lies in one of the boundary geometries. Geometries are a type parameter
 * and containment a given predicate.
 */
module Geo {
  import opened Outcomes
  import opened Tables

  /** A planar point: x is the longitude, y the latitude. */
  datatype Point = Point(x: Value, y: Value)

  const LatitudeColumn: string := "Latitude"
  const LongitudeColumn: string := "Longitude"

  /** Whether any geometry of the boundary contains the point, scanning the geometries in order. */
  function AnyContains<G>(boundary: seq<G>, p: Point, contains: (G, Point) -> bool): (inside: bool)
    ensures inside <==> exists i :: 0 <= i < |boundary| && contains(boundary[i], p)
  {
    if boundary == [] then false
    else if contains(boundary[0], p) then true
    else
      assert forall i | 1 <= i < |boundary| :: boundary[i] == boundary[1..][i - 1];
      AnyContains(boundary[1..], p, contains)
  }

  /** row_inside: the point (longitude, latitude) of the row lies in some boundary geometry. */
  function RowInside<G>(row: Row, lat: nat, lon: nat, boundary: seq<G>, contains: (G, Point) -> bool): (inside: bool)
    requires lat < |row| && lon < |row|
    ensures inside <==> exists g :: g in boundary && contains(g, Point(row[lon], row[lat]))
  {
    AnyContains(boundary, Point(row[lon], row[lat]), contains)
  }

  /** The mask of clean_georefs. */
  function InsideMask<G>(lat: nat, lon: nat, boundary: seq<G>, contains: (G, Point) -> bool): (keep: Row -> bool)
    ensures forall r | lat < |r| && lon < |r| :: keep(r) <==> exists g :: g in boundary && contains(g, Point(r[lon], r[lat]))
    ensures forall r | |r| <= lat || |r| <= lon :: !keep(r)
  {
    r => lat < |r| && lon < |r| && RowInside(r, lat, lon, boundary, contains)
  }

  /**
   * clean_georefs on a table: an empty table fails (its first row is read), as does one
   * without a Latitude or Longitude column; otherwise the rows inside the boundary, in order.
   */
  function InsideBoundary<G>(t: Table, path: Path, boundary: seq<G>, contains: (G, Point) -> bool): (r: Outcome<Table>)
    ensures r.Ok? <==> t.rows != [] && ColumnIndex(t.header, LatitudeColumn).Ok? && ColumnIndex(t.header, LongitudeColumn).Ok?
    ensures r.Err? ==> r.error in {NoRows(path), MissingColumn(LatitudeColumn), DuplicateColumn(LatitudeColumn),
                                   MissingColumn(LongitudeColumn), DuplicateColumn(LongitudeColumn)}
    ensures r.Ok? ==> r.value.header == t.header && |r.value.rows| <= |t.rows|
  {
    if t.rows == [] then Err(NoRows(path))
    else match ColumnIndex(t.header, LatitudeColumn)
      case Err(e) => Err(e)
      case Ok(lat) =>
        match ColumnIndex(t.header, LongitudeColumn)
        case Err(e) => Err(e)
        case Ok(lon) => Ok(Table(t.header, Filter(t.rows, InsideMask(lat, lon, boundary, contains))))
  }

  /**
   * What clean_georefs writes: the same header and, of a well-formed table, exactly the rows
   * whose (longitude, latitude) point some boundary geometry contains, in their original order
   * and each as often as in the table read.
   * It fails on an empty table and on a missing coordinate column, latitude looked up first.
   */
  lemma InsideBoundarySpec<G>(t: Table, path: Path, boundary: seq<G>, contains: (G, Point) -> bool)
    ensures t.rows == [] ==> InsideBoundary(t, path, boundary, contains) == Err(NoRows(path))
    ensures t.rows != [] && LatitudeColumn !in t.header ==>
      InsideBoundary(t, path, boundary, contains) == Err(MissingColumn(LatitudeColumn))
    ensures t.rows != [] && ColumnIndex(t.header, LatitudeColumn).Ok? && LongitudeColumn !in t.header ==>
      InsideBoundary(t, path, boundary, contains) == Err(MissingColumn(LongitudeColumn))
    ensures InsideBoundary(t, path, boundary, contains).Ok? ==>
      var written := InsideBoundary(t, path, boundary, contains).value;
      var lat := ColumnIndex(t.header, LatitudeColumn).value;
      var lon := ColumnIndex(t.header, LongitudeColumn).value;
      && written.header == t.header
      && IsSubsequence(written.rows, t.rows)
      && (WellFormed(t) ==> WellFormed(written))
      && (WellFormed(t) ==> forall r | r in t.rows ::
            r in written.rows <==> exists g :: g in boundary && contains(g, Point(r[lon], r[lat])))
      && (forall r :: multiset(written.rows)[r] ==
            if InsideMask(lat, lon, boundary, contains)(r) then multiset(t.rows)[r] else 0)
  {
    if InsideBoundary(t, path, boundary, contains).Ok? {
      var lat := ColumnIndex(t.header, LatitudeColumn).value;
      var lon := ColumnIndex(t.header, LongitudeColumn).value;
      var keep := InsideMask(lat, lon, boundary, contains);
      FilterIsSubsequence(t.rows, keep);
      FilterMultiset(t.rows, keep);
      forall r | r in t.rows && keep(r)
        ensures r in Filter(t.rows, keep)
      {
        FilterKeepsAll(t.rows, keep, r);
      }
    }
  }

  /** Filtering an already filtered table again keeps it, as long as some row survived the first pass. */
  lemma InsideBoundaryIdempotent<G>(t: Table, path: Path, boundary: seq<G>, contains: (G, Point) -> bool)
    requires InsideBoundary(t, path, boundary, contains).Ok?
    requires InsideBoundary(t, path, boundary, contains).value.rows != []
    ensures var written := InsideBoundary(t, path, boundary, contains).value;
      InsideBoundary(written, path, boundary, contains) == Ok(written)
  {
    var lat := ColumnIndex(t.header, LatitudeColumn).value;
    var lon := ColumnIndex(t.header, LongitudeColumn).value;
    FilterIdempotent(t.rows, InsideMask(lat, lon, boundary, contains));
  }

  /** The boundary filter keeps a table with a row and the coordinate columns whose rows all lie inside. */
  lemma InsideBoundaryKeepsInside<G>(t: Table, path: Path, boundary: seq<G>, contains: (G, Point) -> bool)
    requires t.rows != [] && ColumnIndex(t.header, LatitudeColumn).Ok? && ColumnIndex(t.header, LongitudeColumn).Ok?
    requires forall r | r in t.rows :: InsideMask(ColumnIndex(t.header, LatitudeColumn).value,
                                                  ColumnIndex(t.header, LongitudeColumn).value, boundary, contains)(r)
    ensures InsideBoundary(t, path, boundary, contains) == Ok(t)
  {
    FilterKeepsEvery(t.rows, InsideMask(ColumnIndex(t.header, LatitudeColumn).value,
                                        ColumnIndex(t.header, LongitudeColumn).value, boundary, contains));
  }

  /**
   * Rows kept from a filtered table by any mask all lie inside, so the filter keeps such a
   * table whole once it has a row.
   */
  lemma InsideBoundaryOfKept<G>(t: Table, path: Path, boundary: seq<G>, contains: (G, Point) -> bool, keep: Row -> bool)
    requires InsideBoundary(t, path, boundary, contains).Ok?
    requires Filter(InsideBoundary(t, path, boundary, contains).value.rows, keep) != []
    ensures var written := InsideBoundary(t, path, boundary, contains).value;
      var kept := Table(written.header, Filter(written.rows, keep));
      InsideBoundary(kept, path, boundary, contains) == Ok(kept)
  {
    var written := InsideBoundary(t, path, boundary, contains).value;
    var kept := Table(written.header, Filter(written.rows, keep));
    InsideBoundaryKeepsInside(kept, path, boundary, contains);
  }

  /** A second run on a table none of whose rows lies inside the boundary fails on the emptied table. */
  lemma SecondRunOnEmptiedTableFails<G>(t: Table, path: Path, boundary: seq<G>, contains: (G, Point) -> bool)
    requires InsideBoundary(t, path, boundary, contains).Ok?
    requires forall r | r in t.rows :: !InsideMask(ColumnIndex(t.header, LatitudeColumn).value,
                                                   ColumnIndex(t.header, LongitudeColumn).value, boundary, contains)(r)
    ensures var written := InsideBoundary(t, path, boundary, contains).value;
      InsideBoundary(written, path, boundary, contains) == Err(NoRows(path))
  {
    var written := InsideBoundary(t, path, boundary, contains).value;
    assert forall r | r in written.rows :: false;
  }
}
