/**
 The Locations table: the distinct values of the Location column in order of
 first appearance (pandas' `unique`), numbered 1, 2, ... in that order.
 */
module LocationEnumerator {
  import opened Rows
  import opened Sequences

  /** The Location column of the source. */
  function LocationColumn(rows: seq<SourceRow>): (c: seq<LocationName>)
    ensures |c| == |rows|
    ensures forall i :: 0 <= i < |rows| ==> c[i] == rows[i].location
  {
    seq(|rows|, i requires 0 <= i < |rows| => rows[i].location)
  }

  /** The join key of a source row against Locations. */
  function RowLocation(r: SourceRow): LocationName {
    r.location
  }

  /** The join key of a Locations row. */
  function LocationKey(l: Location): LocationName {
    l.name
  }

  /** The names of a Locations table, in row order. */
  function LocationNames(locs: seq<Location>): (names: seq<LocationName>)
    ensures |names| == |locs|
    ensures forall k :: 0 <= k < |locs| ==> names[k] == locs[k].name
  {
    seq(|locs|, k requires 0 <= k < |locs| => locs[k].name)
  }

  /** Row k of a table carries surrogate key k + 1, so the keys are 1..N in row order. */
  ghost predicate DenseLocationIds(locs: seq<Location>) {
    forall k :: 0 <= k < |locs| ==> locs[k].id == k + 1
  }

  /** Numbers `names` densely from 1, in order. */
  function NumberLocations(names: seq<LocationName>): (locs: seq<Location>)
    ensures LocationNames(locs) == names
    ensures DenseLocationIds(locs)
  {
    var locs := seq(|names|, k requires 0 <= k < |names| => Location(names[k], k + 1));
    assert LocationNames(locs) == names;
    locs
  }

  /**
   The Locations table. Its names are pairwise distinct, every source location
   has a row and every row names a source location, the rows follow the order
   of first appearance, and row k has id k + 1, so that the ids are exactly
   1..N for N the number of distinct names.
   */
  function Locations(rows: seq<SourceRow>): (locs: seq<Location>)
    ensures Distinct(LocationNames(locs))
    ensures forall i :: 0 <= i < |rows| ==> rows[i].location in LocationNames(locs)
    ensures forall k :: 0 <= k < |locs| ==> locs[k].name in LocationColumn(rows)
    ensures InFirstOccurrenceOrder(LocationNames(locs), LocationColumn(rows))
    ensures DenseLocationIds(locs)
    ensures |locs| == |Elems(LocationColumn(rows))|
  {
    var column := LocationColumn(rows);
    var names := Dedup(column);
    var locs := NumberLocations(names);
    DistinctCardinality(names);
    SameValuesSameElems(names, column);
    locs
  }

  /**
   The Locations table is the only table with those properties: any listing of
   the distinct source locations, in first-appearance order and numbered from
   1, is Locations(rows).
   */
  lemma LocationsUnique(rows: seq<SourceRow>, locs: seq<Location>)
    requires Distinct(LocationNames(locs))
    requires SameValues(LocationNames(locs), LocationColumn(rows))
    requires InFirstOccurrenceOrder(LocationNames(locs), LocationColumn(rows))
    requires DenseLocationIds(locs)
    ensures locs == Locations(rows)
  {
    var names := LocationNames(locs);
    DedupUnique(LocationColumn(rows), names);
    var expected := Locations(rows);
    assert LocationNames(expected) == names by {
      DedupUnique(LocationColumn(rows), LocationNames(expected));
    }
    assert |expected| == |locs|;
    forall k | 0 <= k < |locs|
      ensures locs[k] == expected[k]
    {
      assert locs[k].name == names[k] == expected[k].name;
    }
  }
}
