/**
 * The tour array operations of hw2/hw2.c.  A tour is the sequence of city
 * pointers visited in order, closing back to its first city; the C code
 * compares pointers, which here is equality of City values (each city has
 * its own index, so distinct cities are distinct values).  Locations and
 * distances belong to the floating-point heuristics and are left out.
 */
module Tour {

  datatype City = City(name: string, index: int)

  lemma ModWrap(x: int, n: int)
    requires 0 < n && 0 <= x < 2 * n
    ensures x % n == if x < n then x else x - n
  {
  }

  /**
   * insert: shifts tour[insertIndex .. tourLength-1] one place right and
   * writes `newCity` at insertIndex.  The array has room for one more city.
   */
  method Insert(tour: seq<City>, newCity: City, tourLength: int, insertIndex: int) returns (r: seq<City>)
    requires 0 <= insertIndex <= tourLength < |tour|
    ensures |r| == |tour|
    ensures r[..tourLength + 1] == tour[..insertIndex] + [newCity] + tour[insertIndex..tourLength]
    ensures r[tourLength + 1..] == tour[tourLength + 1..]
  {
    r := tour;
    var i := tourLength;
    while i > insertIndex
      invariant insertIndex <= i <= tourLength && |r| == |tour|
      invariant forall j | 0 <= j <= i :: r[j] == tour[j]
      invariant forall j | i < j <= tourLength :: r[j] == tour[j - 1]
      invariant forall j | tourLength < j < |r| :: r[j] == tour[j]
    {
      r := r[i := r[i - 1]];
      i := i - 1;
    }
    r := r[insertIndex := newCity];
    assert r[tourLength + 1..] == tour[tourLength + 1..];
  }

  /** The tour after an insert holds the cities it held before, plus the new one. */
  lemma InsertAddsCity(tour: seq<City>, r: seq<City>, newCity: City, tourLength: int, insertIndex: int)
    requires 0 <= insertIndex <= tourLength < |tour| && |r| == |tour|
    requires r[..tourLength + 1] == tour[..insertIndex] + [newCity] + tour[insertIndex..tourLength]
    ensures multiset(r[..tourLength + 1]) == multiset(tour[..tourLength]) + multiset{newCity}
  {
    assert tour[..tourLength] == tour[..insertIndex] + tour[insertIndex..tourLength];
  }

  /** The tour read from position k on, wrapping round to the start. */
  function Rotate(s: seq<City>, k: int): (r: seq<City>)
    requires 0 <= k < |s|
    ensures |r| == |s| && r[0] == s[k]
    ensures forall i | 0 <= i < |s| :: r[i] == s[(i + k) % |s|]
  {
    var r := s[k..] + s[..k];
    forall i | 0 <= i < |s| ensures r[i] == s[(i + k) % |s|] {
      ModWrap(i + k, |s|);
    }
    r
  }

  /** Positions in reverse order. */
  function Rev(s: seq<City>): (r: seq<City>)
    ensures |r| == |s|
  {
    if s == [] then [] else Rev(s[1..]) + [s[0]]
  }

  lemma {:induction false} RevAt(s: seq<City>, i: int)
    requires 0 <= i < |s|
    ensures Rev(s)[i] == s[|s| - 1 - i]
    decreases |s|
  {
    if i < |s| - 1 {
      RevAt(s[1..], i);
    }
  }

  lemma {:induction false} RevMultiset(s: seq<City>)
    ensures multiset(Rev(s)) == multiset(s)
    decreases |s|
  {
    if s != [] {
      RevMultiset(s[1..]);
      assert s == [s[0]] + s[1..];
    }
  }

  /** The first city kept in place and the rest of the tour reversed: the same cycle run backwards. */
  function Reflect(s: seq<City>): (r: seq<City>)
    requires |s| >= 1
    ensures |r| == |s| && r[0] == s[0]
    ensures forall i | 1 <= i < |s| :: r[i] == s[|s| - i]
  {
    var r := [s[0]] + Rev(s[1..]);
    forall i | 1 <= i < |s| ensures r[i] == s[|s| - i] {
      RevAt(s[1..], i - 1);
    }
    r
  }

  lemma RotateMultiset(s: seq<City>, k: int)
    requires 0 <= k < |s|
    ensures multiset(Rotate(s, k)) == multiset(s)
  {
    assert s == s[..k] + s[k..];
    assert Rotate(s, k) == s[k..] + s[..k];
  }

  lemma ReflectMultiset(s: seq<City>)
    requires |s| >= 1
    ensures multiset(Reflect(s)) == multiset(s)
  {
    RevMultiset(s[1..]);
    assert s == [s[0]] + s[1..];
    assert Reflect(s) == [s[0]] + Rev(s[1..]);
  }

  /** order_tour's reading of the tour: rotated to `first`, reflected when tour[1] has the larger index. */
  predicate Ordered(tour: seq<City>, first: City, r: seq<City>) {
    exists k | 0 <= k < |tour| :: tour[k] == first && (r == Rotate(tour, k) || r == Reflect(Rotate(tour, k)))
  }

  /**
   * order_tour: the tour rotated so that `first` (initial_cities[0]) comes
   * first, then positions 1 .. n-1 reversed when the city after `first` has
   * a larger index than the city before it.  The last position holding
   * `first` is the one used, as the C loop does not stop at a match.
   */
  method OrderTour(tour: seq<City>, first: City, nCity: int) returns (r: seq<City>)
    requires nCity == |tour| && nCity >= 2 && first in tour
    ensures |r| == |tour| && r[0] == first
    ensures r[1].index <= r[nCity - 1].index
    ensures multiset(r) == multiset(tour)
    ensures Ordered(tour, first, r)
  {
    var iFirstCity := -1;
    var i := 0;
    while i < nCity
      invariant 0 <= i <= nCity
      invariant iFirstCity == -1 ==> first !in tour[..i]
      invariant iFirstCity != -1 ==> 0 <= iFirstCity < i && tour[iFirstCity] == first
    {
      if tour[i] == first {
        iFirstCity := i;
      }
      i := i + 1;
    }
    assert tour[..nCity] == tour;
    var temp := tour;
    i := 0;
    while i < nCity
      invariant 0 <= i <= nCity && |temp| == nCity
      invariant forall j | 0 <= j < i :: temp[j] == tour[(j + iFirstCity) % nCity]
    {
      temp := temp[i := tour[(i + iFirstCity) % nCity]];
      i := i + 1;
    }
    ghost var rotated := Rotate(tour, iFirstCity);
    assert temp == rotated;
    RotateMultiset(tour, iFirstCity);
    if temp[1].index > temp[nCity - 1].index {
      var temp2 := temp;
      i := 1;
      while i < nCity
        invariant 1 <= i <= nCity && |temp| == nCity
        invariant temp[0] == temp2[0]
        invariant forall j | 1 <= j < i :: temp[j] == temp2[nCity - j]
        invariant forall j | i <= j < nCity :: temp[j] == temp2[j]
      {
        temp := temp[i := temp2[nCity - i]];
        i := i + 1;
      }
      assert temp == Reflect(rotated);
      ReflectMultiset(rotated);
    }
    r := temp;
  }

  /** Index of the position after i, wrapping round to 0. */
  function Next(n: int, i: int): int
    requires 0 <= i < n
  {
    if i + 1 < n then i + 1 else 0
  }

  /** Positions i and i+1 (cyclically) hold a and b, in either order. */
  predicate LinkAt(s: seq<City>, i: int, a: City, b: City)
    requires 0 <= i < |s|
  {
    (s[i] == a && s[Next(|s|, i)] == b) || (s[i] == b && s[Next(|s|, i)] == a)
  }

  /** a and b are neighbours on the closed tour. */
  predicate Adjacent(s: seq<City>, a: City, b: City) {
    exists i | 0 <= i < |s| :: LinkAt(s, i, a, b)
  }

  lemma RotateLink(s: seq<City>, k: int, i: int, a: City, b: City)
    requires 0 <= k < |s| && 0 <= i < |s|
    ensures var j := if i + k < |s| then i + k else i + k - |s|;
            0 <= j < |s| && (LinkAt(Rotate(s, k), i, a, b) <==> LinkAt(s, j, a, b))
  {
    var n := |s|;
    var r := Rotate(s, k);
    ModWrap(i + k, n);
    ModWrap(Next(n, i) + k, n);
  }

  /** Rotating a tour keeps the same pairs of neighbours. */
  lemma RotateAdjacent(s: seq<City>, k: int, a: City, b: City)
    requires 0 <= k < |s|
    ensures Adjacent(Rotate(s, k), a, b) <==> Adjacent(s, a, b)
  {
    var n := |s|;
    if Adjacent(Rotate(s, k), a, b) {
      var i :| 0 <= i < n && LinkAt(Rotate(s, k), i, a, b);
      RotateLink(s, k, i, a, b);
    }
    if Adjacent(s, a, b) {
      var j :| 0 <= j < n && LinkAt(s, j, a, b);
      var i := if j >= k then j - k else j - k + n;
      RotateLink(s, k, i, a, b);
    }
  }

  lemma ReflectLink(s: seq<City>, i: int, a: City, b: City)
    requires |s| >= 1 && 0 <= i < |s|
    ensures LinkAt(Reflect(s), i, a, b) <==> LinkAt(s, |s| - 1 - i, a, b)
  {
  }

  /** Running a tour backwards keeps the same pairs of neighbours. */
  lemma ReflectAdjacent(s: seq<City>, a: City, b: City)
    requires |s| >= 1
    ensures Adjacent(Reflect(s), a, b) <==> Adjacent(s, a, b)
  {
    var n := |s|;
    if Adjacent(Reflect(s), a, b) {
      var i :| 0 <= i < n && LinkAt(Reflect(s), i, a, b);
      ReflectLink(s, i, a, b);
    }
    if Adjacent(s, a, b) {
      var j :| 0 <= j < n && LinkAt(s, j, a, b);
      ReflectLink(s, n - 1 - j, a, b);
    }
  }

  /** order_tour leaves every pair of neighbours on the closed tour as it was. */
  lemma OrderedAdjacent(tour: seq<City>, first: City, r: seq<City>, a: City, b: City)
    requires Ordered(tour, first, r)
    ensures Adjacent(r, a, b) <==> Adjacent(tour, a, b)
  {
    var k :| 0 <= k < |tour| && tour[k] == first && (r == Rotate(tour, k) || r == Reflect(Rotate(tour, k)));
    RotateAdjacent(tour, k, a, b);
    if r != Rotate(tour, k) {
      ReflectAdjacent(Rotate(tour, k), a, b);
    }
  }

  /**
   * With at least three cities of distinct indices, order_tour leaves the
   * city after the first with a strictly smaller index than the last city.
   */
  lemma OrderedDirection(tour: seq<City>, first: City, r: seq<City>)
    requires |tour| >= 3 && Ordered(tour, first, r) && r[1].index <= r[|r| - 1].index
    requires forall i, j | 0 <= i < j < |tour| :: tour[i].index != tour[j].index
    ensures r[1].index < r[|r| - 1].index
  {
    var k :| 0 <= k < |tour| && tour[k] == first && (r == Rotate(tour, k) || r == Reflect(Rotate(tour, k)));
    RotatedEndsDiffer(tour, k);
    EndsOf(tour, k, r);
  }

  /** The ends of a tour read from k, forwards or backwards, are the cities beside tour[k]. */
  lemma EndsOf(tour: seq<City>, k: int, r: seq<City>)
    requires |tour| >= 3 && 0 <= k < |tour|
    requires r == Rotate(tour, k) || r == Reflect(Rotate(tour, k))
    ensures var rot := Rotate(tour, k);
            (r[1] == rot[1] && r[|r| - 1] == rot[|tour| - 1]) || (r[1] == rot[|tour| - 1] && r[|r| - 1] == rot[1])
  {
  }

  /** The cities on either side of the start of a rotated tour differ in index. */
  lemma RotatedEndsDiffer(tour: seq<City>, k: int)
    requires |tour| >= 3 && 0 <= k < |tour|
    requires forall i, j | 0 <= i < j < |tour| :: tour[i].index != tour[j].index
    ensures Rotate(tour, k)[1].index != Rotate(tour, k)[|tour| - 1].index
  {
    var n := |tour|;
    ModWrap(1 + k, n);
    ModWrap(n - 1 + k, n);
    var p, q := (1 + k) % n, (n - 1 + k) % n;
    assert Rotate(tour, k)[1] == tour[p] && Rotate(tour, k)[n - 1] == tour[q];
    if p < q {
      assert tour[p].index != tour[q].index;
    } else {
      assert p != q;
      assert tour[q].index != tour[p].index;
    }
  }
}
