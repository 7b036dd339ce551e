/** The data model of the road program: a road (Estrada) of length T holding
    N cities (Cidade), each a position (Posicao) and a name (Nome). */
module Roads {

  datatype Option<T> = None | Some(value: T)

  /** Bounds the loader enforces on the road length T and the city count N. */
  const MinLength := 3
  const MaxLength := 1000000
  const MinCities := 2
  const MaxCities := 10000

  /** One city record: its position along the road and its name. */
  datatype City = City(position: int, name: string)

  /** A road as a value: its length T and its cities in array order. */
  datatype RoadData = RoadData(length: int, cities: seq<City>)

  function Positions(cs: seq<City>): seq<int> {
    seq(|cs|, i requires 0 <= i < |cs| => cs[i].position)
  }

  /** Ascending by position, ties allowed (what the sorter promises). */
  predicate Sorted(cs: seq<City>) {
    forall i, j :: 0 <= i < j < |cs| ==> cs[i].position <= cs[j].position
  }

  /** No two cities share a position. */
  predicate DistinctPositions(cs: seq<City>) {
    forall i, j :: 0 <= i < j < |cs| ==> cs[i].position != cs[j].position
  }

  /** Every city lies strictly inside the road. */
  predicate InsideRoad(length: int, cs: seq<City>) {
    forall i :: 0 <= i < |cs| ==> 0 < cs[i].position < length
  }

  /** Everything the loader guarantees about a road it accepts. */
  predicate ValidRoad(r: RoadData) {
    && MinLength <= r.length <= MaxLength
    && MinCities <= |r.cities| <= MaxCities
    && InsideRoad(r.length, r.cities)
    && DistinctPositions(r.cities)
    && forall i :: 0 <= i < |r.cities| ==> r.cities[i].name != ""
  }

  /** The heap object the loader builds: the length T and the array C,
      whose length is the city count N. The sorter reorders C in place. */
  class Road {
    const length: int
    const cities: array<City>

    constructor (length: int, cities: array<City>)
      ensures this.length == length && this.cities == cities
    {
      this.length := length;
      this.cities := cities;
    }
  }
}
