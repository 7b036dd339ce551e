/** The two public queries, calcularMenorVizinhanca and
    cidadeMenorVizinhanca. Each loads the road afresh from the input, sorts
    its cities in place and scans them; neither shares state with the other. */
module Queries {
  import opened Roads
  import opened Loader
  import opened Sorter
  import opened Neighbourhoods

  /** Any sorted arrangement of a road the loader accepted can be analysed. */
  lemma SortedRoadIsAnalysable(road: RoadData, s: seq<City>)
    requires ValidRoad(road) && IsSortingOf(s, road.cities)
    ensures Analysable(road.length, s)
  {
    assert |s| == |multiset(s)| == |multiset(road.cities)| == |road.cities|;
    DistinctUnderPermutation(road.cities, s);
    forall i | 0 <= i < |s| ensures 0 < s[i].position < road.length {
      assert s[i] in multiset(road.cities);
      var j :| 0 <= j < |road.cities| && road.cities[j] == s[i];
    }
  }

  /** Loads the road and sorts its city array in place; on success the array
      holds a sorted arrangement of the cities the loader read. */
  method LoadSorted(tokens: seq<Token>) returns (r: Result<Road>)
    ensures r.Err? ==> Load(tokens) == Err(r.error)
    ensures r.Ok? ==>
      && fresh(r.value.cities) && Load(tokens).Ok?
      && r.value.length == Load(tokens).value.length
      && IsSortingOf(r.value.cities[..], Load(tokens).value.cities)
      && Analysable(r.value.length, r.value.cities[..])
  {
    r := GetRoad(tokens);
    if r.Ok? {
      var road := r.value;
      LoadMeaning(tokens);
      Quicksort(road.cities, 0, road.cities.Length - 1);
      assert road.cities[..] == road.cities[0..road.cities.Length];
      SortedRoadIsAnalysable(Load(tokens).value, road.cities[..]);
    }
  }

  /** calcularMenorVizinhanca: the smallest neighbourhood of the road, or
      None (the source's -1.0) when the loader rejects the input. */
  method SmallestNeighbourhood(tokens: seq<Token>) returns (r: Option<real>)
    ensures r.None? <==> Load(tokens).Err?
    ensures r.Some? ==>
      && Load(tokens).Ok?
      && exists s :: IsSortingOf(s, Load(tokens).value.cities) && IsSmallest(Load(tokens).value.length, s, r.value)
  {
    var loaded := LoadSorted(tokens);
    match loaded {
      case Err(_) =>
        return None;
      case Ok(road) =>
        var smallest := ScanSmallest(road.length, road.cities);
        NeighbourhoodBounds(road.length, road.cities[..], 0);
        assert IsSmallest(road.length, road.cities[..], smallest);
        return Some(smallest);
    }
  }

  /** cidadeMenorVizinhanca: the name of the first city with the smallest
      neighbourhood, or None (the source's NULL) when the loader rejects the
      input. The index the scan returns is never -1 here, because every
      neighbourhood of a loaded road is shorter than the sentinel T. */
  method CityWithSmallestNeighbourhood(tokens: seq<Token>) returns (r: Option<string>)
    ensures r.None? <==> Load(tokens).Err?
    ensures r.Some? ==>
      && Load(tokens).Ok?
      && exists s: seq<City>, k: int :: && 0 <= k < |s|
                        && IsSortingOf(s, Load(tokens).value.cities)
                        && IsFirstSmallest(Load(tokens).value.length, s, k)
                        && r.value == s[k].name
  {
    var loaded := LoadSorted(tokens);
    match loaded {
      case Err(_) =>
        return None;
      case Ok(road) =>
        var index := ScanSmallestIndex(road.length, road.cities);
        NeighbourhoodBounds(road.length, road.cities[..], 0);
        assert index != -1;
        return Some(road.cities[index].name);
    }
  }

  /** The two queries agree: whatever sorted arrangements they work on, the
      city the second names has exactly the neighbourhood the first returns,
      and both see the same arrangement. */
  lemma QueriesAgree(road: RoadData, s: seq<City>, t: seq<City>, m: real, k: int)
    requires ValidRoad(road)
    requires IsSortingOf(s, road.cities) && IsSmallest(road.length, s, m)
    requires IsSortingOf(t, road.cities) && IsFirstSmallest(road.length, t, k)
    ensures s == t && Neighbourhood(road.length, t, k) == m
  {
    DistinctUnderPermutation(road.cities, s);
    SortingIsUnique(s, t);
  }

  /** Repeating a query on the same input gives the same answer: the
      smallest value and the named city are determined by the road alone. */
  lemma AnswersAreDetermined(road: RoadData, s: seq<City>, t: seq<City>, m1: real, m2: real, k1: int, k2: int)
    requires ValidRoad(road)
    requires IsSortingOf(s, road.cities) && IsSortingOf(t, road.cities)
    requires IsSmallest(road.length, s, m1) && IsSmallest(road.length, t, m2)
    requires IsFirstSmallest(road.length, s, k1) && IsFirstSmallest(road.length, t, k2)
    ensures m1 == m2 && k1 == k2 && s[k1] == t[k2]
  {
    DistinctUnderPermutation(road.cities, s);
    SortingIsUnique(s, t);
    assert Neighbourhood(road.length, s, k1) == Neighbourhood(road.length, s, k2);
  }
}
