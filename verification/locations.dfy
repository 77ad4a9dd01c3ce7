/**
 * Geographic locations and the two lexicographic comparators the k-d tree
 * cuts with (hw5/kdtree_helpers.c).  Coordinates are only ever compared, so
 * `real` stands in for C's `double`.
 */
module Locations {

  datatype Loc = Loc(lat: real, lon: real)

  /** Number of cutting dimensions (hw5/kdtree_helpers.h). */
  const K: nat := 2

  /** Cutting dimension at a given depth of a k-d tree. */
  function Dim(depth: nat): nat {
    depth % K
  }

  /** Strict lexicographic order on (lat, lon). */
  predicate LatBefore(a: Loc, b: Loc) {
    a.lat < b.lat || (a.lat == b.lat && a.lon < b.lon)
  }

  /** Strict lexicographic order on (lon, lat). */
  predicate LonBefore(a: Loc, b: Loc) {
    a.lon < b.lon || (a.lon == b.lon && a.lat < b.lat)
  }

  /**
   * compare_latitude: negative, zero or positive as `a` comes before, equals
   * or comes after `b` in the (lat, lon) order.
   */
  function CompareLatitude(a: Loc, b: Loc): (r: int)
    ensures r == 0 <==> a == b
    ensures r < 0 <==> LatBefore(a, b)
    ensures r > 0 <==> LatBefore(b, a)
    ensures -1 <= r <= 1
  {
    if a.lat < b.lat then -1
    else if a.lat > b.lat then 1
    else if a.lon < b.lon then -1
    else if a.lon > b.lon then 1
    else 0
  }

  /** compare_longitude: the same, in the (lon, lat) order. */
  function CompareLongitude(a: Loc, b: Loc): (r: int)
    ensures r == 0 <==> a == b
    ensures r < 0 <==> LonBefore(a, b)
    ensures r > 0 <==> LonBefore(b, a)
    ensures -1 <= r <= 1
  {
    if a.lon < b.lon then -1
    else if a.lon > b.lon then 1
    else if a.lat < b.lat then -1
    else if a.lat > b.lat then 1
    else 0
  }

  /** The comparator of cutting dimension `dim`: latitude for 0, longitude otherwise. */
  function Compare(dim: nat, a: Loc, b: Loc): int {
    if dim == 0 then CompareLatitude(a, b) else CompareLongitude(a, b)
  }

  /** The raw coordinate a cutting dimension looks at first. */
  function Coord(dim: nat, a: Loc): real {
    if dim == 0 then a.lat else a.lon
  }

  /** Swapping the arguments negates the comparison (both dimensions). */
  lemma CompareAntisymmetric(dim: nat, a: Loc, b: Loc)
    ensures Compare(dim, a, b) == -Compare(dim, b, a)
  {
  }

  /** Each comparator is transitive on `<`. */
  lemma CompareTransitive(dim: nat, a: Loc, b: Loc, c: Loc)
    requires Compare(dim, a, b) < 0 && Compare(dim, b, c) < 0
    ensures Compare(dim, a, c) < 0
  {
  }

  /** Each comparator is transitive on `<=`. */
  lemma CompareTransitiveLe(dim: nat, a: Loc, b: Loc, c: Loc)
    requires Compare(dim, a, b) <= 0 && Compare(dim, b, c) <= 0
    ensures Compare(dim, a, c) <= 0
  {
  }

  /** Each comparator refines the order of its raw coordinate. */
  lemma CompareCoord(dim: nat, a: Loc, b: Loc)
    ensures Compare(dim, a, b) < 0 ==> Coord(dim, a) <= Coord(dim, b)
    ensures Compare(dim, a, b) > 0 ==> Coord(dim, a) >= Coord(dim, b)
    ensures Coord(dim, a) < Coord(dim, b) ==> Compare(dim, a, b) < 0
  {
  }
}
