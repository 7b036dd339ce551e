/** The neighbourhood analyser: the neighbourhood of each city of a road
    sorted by position, and the left-to-right scans for the smallest one.
    The source computes in double; every value is an integer halved and at
    most 10^6, so double holds it exactly, and `real` models it. */
module Neighbourhoods {
  import opened Roads

  /** Half the gap to each neighbour, with the road's ends standing in for
      the missing neighbour of the first and of the last city. */
  function Neighbourhood(length: int, cs: seq<City>, i: int): real
    requires 2 <= |cs| && 0 <= i < |cs|
  {
    if i == 0 then
      (cs[1].position - cs[0].position) as real / 2.0 + cs[0].position as real
    else if i == |cs| - 1 then
      (cs[i].position - cs[i - 1].position) as real / 2.0 + (length - cs[i].position) as real
    else
      (cs[i].position - cs[i - 1].position) as real / 2.0 + (cs[i + 1].position - cs[i].position) as real / 2.0
  }

  /** The sum of the first n neighbourhoods. */
  function Total(length: int, cs: seq<City>, n: int): real
    requires 2 <= |cs| && 0 <= n <= |cs|
  {
    if n == 0 then 0.0 else Total(length, cs, n - 1) + Neighbourhood(length, cs, n - 1)
  }

  /** A sorted road the analyser can work on: at least two cities, in
      ascending order, at distinct positions strictly inside the road. */
  predicate Analysable(length: int, cs: seq<City>) {
    2 <= |cs| && Sorted(cs) && DistinctPositions(cs) && InsideRoad(length, cs)
  }

  /** m is the smallest neighbourhood of the road. */
  predicate IsSmallest(length: int, cs: seq<City>, m: real) {
    && 2 <= |cs|
    && (exists i :: 0 <= i < |cs| && Neighbourhood(length, cs, i) == m)
    && (forall i :: 0 <= i < |cs| ==> m <= Neighbourhood(length, cs, i))
  }

  /** k is the first (leftmost) city whose neighbourhood is the smallest. */
  predicate IsFirstSmallest(length: int, cs: seq<City>, k: int) {
    && 2 <= |cs| && 0 <= k < |cs|
    && (forall i :: 0 <= i < |cs| ==> Neighbourhood(length, cs, k) <= Neighbourhood(length, cs, i))
    && (forall i :: 0 <= i < k ==> Neighbourhood(length, cs, k) < Neighbourhood(length, cs, i))
  }

  /** The first n neighbourhoods reach from the start of the road to the
      midpoint between city n - 1 and city n. */
  lemma {:induction false} PrefixTotal(length: int, cs: seq<City>, n: int)
    requires 2 <= |cs| && 1 <= n < |cs|
    ensures Total(length, cs, n) == (cs[n - 1].position + cs[n].position) as real / 2.0
  {
    if n > 1 {
      PrefixTotal(length, cs, n - 1);
    }
  }

  /** The neighbourhoods tile the road: together they add up to its length. */
  lemma NeighbourhoodsCoverRoad(length: int, cs: seq<City>)
    requires 2 <= |cs|
    ensures Total(length, cs, |cs|) == length as real
  {
    PrefixTotal(length, cs, |cs| - 1);
  }

  /** On an analysable road every neighbourhood is positive and shorter than
      the road, so the sentinel T is beaten by every city. */
  lemma NeighbourhoodBounds(length: int, cs: seq<City>, i: int)
    requires Analysable(length, cs) && 0 <= i < |cs|
    ensures 0.0 < Neighbourhood(length, cs, i) < length as real
  {
    if 0 < i < |cs| - 1 {
      assert cs[i - 1].position < cs[i + 1].position by {
        assert cs[i - 1].position <= cs[i + 1].position;
        assert cs[i - 1].position != cs[i + 1].position;
      }
    }
  }

  lemma {:induction false} TotalAtLeast(length: int, cs: seq<City>, m: real, n: int)
    requires IsSmallest(length, cs, m) && 0 <= n <= |cs|
    ensures (n as real) * m <= Total(length, cs, n)
  {
    if n > 0 {
      TotalAtLeast(length, cs, m, n - 1);
      assert m <= Neighbourhood(length, cs, n - 1);
    }
  }

  /** The smallest neighbourhood is at most the road length over the number
      of cities. */
  lemma SmallestAtMostAverage(length: int, cs: seq<City>, m: real)
    requires IsSmallest(length, cs, m)
    ensures (|cs| as real) * m <= length as real
  {
    TotalAtLeast(length, cs, m, |cs|);
    NeighbourhoodsCoverRoad(length, cs);
  }

  /** The scan of calcularMenorVizinhanca: starting from the sentinel T, keep
      every neighbourhood strictly smaller than the best so far. The result
      is the least of T and all the neighbourhoods. */
  method ScanSmallest(length: int, cities: array<City>) returns (smallest: real)
    requires 2 <= cities.Length
    ensures smallest <= length as real
    ensures forall i :: 0 <= i < cities.Length ==> smallest <= Neighbourhood(length, cities[..], i)
    ensures smallest == length as real || exists i :: 0 <= i < cities.Length && smallest == Neighbourhood(length, cities[..], i)
  {
    smallest := length as real;
    for i := 0 to cities.Length
      invariant smallest <= length as real
      invariant forall k :: 0 <= k < i ==> smallest <= Neighbourhood(length, cities[..], k)
      invariant smallest == length as real || exists k :: 0 <= k < i && smallest == Neighbourhood(length, cities[..], k)
    {
      var neighbourhood := Neighbourhood(length, cities[..], i);
      if neighbourhood < smallest {
        smallest := neighbourhood;
      }
    }
  }

  /** The scan of cidadeMenorVizinhanca: the same scan, also remembering the
      index of the best city, -1 while the sentinel is unbeaten. Because the
      comparison is strict, a tie keeps the earlier city. */
  method ScanSmallestIndex(length: int, cities: array<City>) returns (index: int)
    requires 2 <= cities.Length
    ensures index == -1 <==> forall i :: 0 <= i < cities.Length ==> length as real <= Neighbourhood(length, cities[..], i)
    ensures index != -1 ==>
      IsFirstSmallest(length, cities[..], index) && Neighbourhood(length, cities[..], index) < length as real
  {
    var smallest := length as real;
    index := -1;
    for i := 0 to cities.Length
      invariant index == -1 ==> smallest == length as real
      invariant index != -1 ==>
        0 <= index < i && smallest == Neighbourhood(length, cities[..], index) && smallest < length as real
      invariant forall k :: 0 <= k < i ==> smallest <= Neighbourhood(length, cities[..], k)
      invariant forall k :: 0 <= k < index ==> smallest < Neighbourhood(length, cities[..], k)
    {
      var neighbourhood := Neighbourhood(length, cities[..], i);
      if neighbourhood < smallest {
        smallest := neighbourhood;
        index := i;
      }
    }
  }

  /** Two cities at 3 and 7 on a road of 10: both neighbourhoods are 5, and
      the tie goes to the first city. */
  lemma TwoCityExample()
    ensures var cs := [City(3, "A"), City(7, "B")];
      && Neighbourhood(10, cs, 0) == 5.0 && Neighbourhood(10, cs, 1) == 5.0
      && IsFirstSmallest(10, cs, 0)
  {
  }

  /** Three cities at 2, 10 and 18 on a road of 20: neighbourhoods 6, 8 and
      6, the smallest is 6 and the first city holds it. */
  lemma ThreeCityExample()
    ensures var cs := [City(2, "A"), City(10, "B"), City(18, "C")];
      && Neighbourhood(20, cs, 0) == 6.0 && Neighbourhood(20, cs, 1) == 8.0 && Neighbourhood(20, cs, 2) == 6.0
      && IsSmallest(20, cs, 6.0) && IsFirstSmallest(20, cs, 0)
  {
    var cs := [City(2, "A"), City(10, "B"), City(18, "C")];
    assert Neighbourhood(20, cs, 0) == 6.0;
  }
}

