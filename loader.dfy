/** The loader (getEstrada): reads T, N and N (position, name) records from
    the input and either builds the whole road or rejects the input. The file
    is abstracted as the sequence of tokens its fscanf calls consume, one
    token per call: T, N, then position and name of each record in turn. */
module Loader {
  import opened Roads

  /** One lexeme of the input: its text, and its value when it reads as an
      integer under "%d". A name is the text of the token in name position. */
  datatype Token = Token(text: string, number: Option<int>)

  /** Why an input is rejected (the source signals every one as NULL). */
  datatype LoadError = BadFormat | OutOfRange | DuplicatePosition

  datatype Result<T> = Ok(value: T) | Err(error: LoadError)

  /** The integer read by "%d" at token k, if there is one. */
  function IntAt(tokens: seq<Token>, k: nat): Option<int> {
    if k < |tokens| then tokens[k].number else None
  }

  /** The name read by " %[^\n]" at token k; it fails only at end of input. */
  function NameAt(tokens: seq<Token>, k: nat): Option<string> {
    if k < |tokens| && tokens[k].text != "" then Some(tokens[k].text) else None
  }

  function PositionToken(tokens: seq<Token>, i: nat): Option<int> {
    IntAt(tokens, 2 + 2 * i)
  }

  function NameToken(tokens: seq<Token>, i: nat): Option<string> {
    NameAt(tokens, 3 + 2 * i)
  }

  /** Reading record i, given the records read before it: range check, then
      the duplicate check against every earlier position, then the name. */
  function ReadCity(tokens: seq<Token>, length: int, i: nat, earlier: seq<City>): Result<City> {
    match PositionToken(tokens, i)
    case None => Err(BadFormat)
    case Some(p) =>
      if p <= 0 || p >= length then Err(OutOfRange)
      else if p in Positions(earlier) then Err(DuplicatePosition)
      else
        match NameToken(tokens, i)
        case None => Err(BadFormat)
        case Some(name) => Ok(City(p, name))
  }

  /** The first n records, or the first failure among them. */
  function ReadCities(tokens: seq<Token>, length: int, n: nat): Result<seq<City>> {
    if n == 0 then Ok([])
    else
      match ReadCities(tokens, length, n - 1)
      case Err(e) => Err(e)
      case Ok(earlier) =>
        match ReadCity(tokens, length, n - 1, earlier)
        case Err(e) => Err(e)
        case Ok(c) => Ok(earlier + [c])
  }

  /** The whole loader as a function of the token sequence. */
  function Load(tokens: seq<Token>): Result<RoadData> {
    match IntAt(tokens, 0)
    case None => Err(BadFormat)
    case Some(t) =>
      if t < MinLength || t > MaxLength then Err(OutOfRange)
      else
        match IntAt(tokens, 1)
        case None => Err(BadFormat)
        case Some(n) =>
          if n < MinCities || n > MaxCities then Err(OutOfRange)
          else
            match ReadCities(tokens, t, n)
            case Err(e) => Err(e)
            case Ok(cs) => Ok(RoadData(t, cs))
  }

  // An independent, declarative description of the inputs the loader accepts.

  predicate WellFormedRecord(tokens: seq<Token>, length: int, i: nat) {
    && PositionToken(tokens, i).Some?
    && 0 < PositionToken(tokens, i).value < length
    && NameToken(tokens, i).Some?
  }

  predicate RecordsAcceptable(tokens: seq<Token>, length: int, n: nat) {
    && (forall i :: 0 <= i < n ==> WellFormedRecord(tokens, length, i))
    && (forall i, j :: 0 <= j < i < n ==> PositionToken(tokens, j) != PositionToken(tokens, i))
  }

  predicate Acceptable(tokens: seq<Token>) {
    && IntAt(tokens, 0).Some? && MinLength <= IntAt(tokens, 0).value <= MaxLength
    && IntAt(tokens, 1).Some? && MinCities <= IntAt(tokens, 1).value <= MaxCities
    && RecordsAcceptable(tokens, IntAt(tokens, 0).value, IntAt(tokens, 1).value)
  }

  /** The records read are exactly those of the tokens. */
  predicate RecordsMatch(tokens: seq<Token>, cs: seq<City>) {
    forall i :: 0 <= i < |cs| ==>
      Some(cs[i].position) == PositionToken(tokens, i) && Some(cs[i].name) == NameToken(tokens, i)
  }

  /** Reading n records succeeds exactly when each is well formed and no
      position repeats an earlier one, and then yields those n records. */
  lemma {:induction false} ReadCitiesMeaning(tokens: seq<Token>, length: int, n: nat)
    ensures ReadCities(tokens, length, n).Ok? <==> RecordsAcceptable(tokens, length, n)
    ensures ReadCities(tokens, length, n).Ok? ==>
      |ReadCities(tokens, length, n).value| == n && RecordsMatch(tokens, ReadCities(tokens, length, n).value)
  {
    if n > 0 {
      ReadCitiesMeaning(tokens, length, n - 1);
      var prev := ReadCities(tokens, length, n - 1);
      if RecordsAcceptable(tokens, length, n) {
        assert RecordsAcceptable(tokens, length, n - 1);
      }
      if prev.Ok? {
        var earlier := prev.value;
        var p := PositionToken(tokens, n - 1);
        var unseen := true;
        if p.Some? {
          var ps := Positions(earlier);
          if p.value in ps {
            var j :| 0 <= j < |ps| && ps[j] == p.value;
            assert PositionToken(tokens, j) == p;
            unseen := false;
          } else {
            forall j | 0 <= j < n - 1
              ensures PositionToken(tokens, j) != p
            {
              assert ps[j] == earlier[j].position;
            }
          }
        }
        if ReadCities(tokens, length, n).Ok? {
          var cs := ReadCities(tokens, length, n).value;
          assert cs == earlier + [ReadCity(tokens, length, n - 1, earlier).value];
          assert forall i :: 0 <= i < n - 1 ==> cs[i] == earlier[i];
          assert WellFormedRecord(tokens, length, n - 1);
        } else if WellFormedRecord(tokens, length, n - 1) {
          assert !unseen;
          assert !RecordsAcceptable(tokens, length, n);
        }
      }
    }
  }

  /** Once a record fails, reading more records returns that same failure. */
  lemma {:induction false} FailureIsFinal(tokens: seq<Token>, length: int, k: nat, n: nat)
    requires k <= n && ReadCities(tokens, length, k).Err?
    ensures ReadCities(tokens, length, n) == ReadCities(tokens, length, k)
    decreases n - k
  {
    if k < n {
      FailureIsFinal(tokens, length, k, n - 1);
    }
  }

  /** The loader accepts exactly the acceptable inputs, and what it accepts
      is a valid road whose length and cities are those of the tokens. */
  lemma LoadMeaning(tokens: seq<Token>)
    ensures Load(tokens).Ok? <==> Acceptable(tokens)
    ensures Load(tokens).Ok? ==>
      && ValidRoad(Load(tokens).value)
      && IntAt(tokens, 0) == Some(Load(tokens).value.length)
      && IntAt(tokens, 1) == Some(|Load(tokens).value.cities|)
      && RecordsMatch(tokens, Load(tokens).value.cities)
  {
    if IntAt(tokens, 0).Some? && IntAt(tokens, 1).Some? {
      var t, n := IntAt(tokens, 0).value, IntAt(tokens, 1).value;
      if n >= 0 {
        ReadCitiesMeaning(tokens, t, n);
        if Load(tokens).Ok? {
          var cs := Load(tokens).value.cities;
          forall i, j | 0 <= i < j < |cs|
            ensures cs[i].position != cs[j].position
          {
            assert PositionToken(tokens, i) != PositionToken(tokens, j);
          }
          forall i | 0 <= i < |cs|
            ensures 0 < cs[i].position < t && cs[i].name != ""
          {
            assert WellFormedRecord(tokens, t, i);
          }
        }
      }
    }
  }

  /** What each kind of failure says about the first n records. */
  predicate RecordFault(tokens: seq<Token>, length: int, n: nat, e: LoadError) {
    match e
    case BadFormat =>
      exists i :: 0 <= i < n && (PositionToken(tokens, i).None? || NameToken(tokens, i).None?)
    case OutOfRange =>
      exists i :: 0 <= i < n && PositionToken(tokens, i).Some? && !(0 < PositionToken(tokens, i).value < length)
    case DuplicatePosition =>
      exists i, j :: 0 <= j < i < n && PositionToken(tokens, i).Some? && PositionToken(tokens, j) == PositionToken(tokens, i)
  }

  /** Every failure reading the records is explained by a record of its kind. */
  lemma {:induction false} ReadCitiesFault(tokens: seq<Token>, length: int, n: nat)
    requires ReadCities(tokens, length, n).Err?
    ensures RecordFault(tokens, length, n, ReadCities(tokens, length, n).error)
  {
    var e := ReadCities(tokens, length, n).error;
    var prev := ReadCities(tokens, length, n - 1);
    if prev.Err? {
      ReadCitiesFault(tokens, length, n - 1);
      match e
      case BadFormat =>
        var i :| 0 <= i < n - 1 && (PositionToken(tokens, i).None? || NameToken(tokens, i).None?);
        assert 0 <= i < n;
      case OutOfRange =>
        var i :| 0 <= i < n - 1 && PositionToken(tokens, i).Some? && !(0 < PositionToken(tokens, i).value < length);
        assert 0 <= i < n;
      case DuplicatePosition =>
        var i, j :| 0 <= j < i < n - 1 && PositionToken(tokens, i).Some? && PositionToken(tokens, j) == PositionToken(tokens, i);
        assert 0 <= j < i < n;
    } else {
      var earlier := prev.value;
      ReadCitiesMeaning(tokens, length, n - 1);
      if e == DuplicatePosition {
        var p := PositionToken(tokens, n - 1).value;
        var ps := Positions(earlier);
        var j :| 0 <= j < |ps| && ps[j] == p;
        assert PositionToken(tokens, j) == PositionToken(tokens, n - 1);
      }
    }
  }

  /** Why the loader rejects an input: a missing or non-integer token, a
      value outside its bounds, or a position that repeats an earlier one. */
  predicate LoadFault(tokens: seq<Token>, e: LoadError) {
    || (e == BadFormat && (IntAt(tokens, 0).None? || IntAt(tokens, 1).None?))
    || (e == OutOfRange && IntAt(tokens, 0).Some? && !(MinLength <= IntAt(tokens, 0).value <= MaxLength))
    || (e == OutOfRange && IntAt(tokens, 1).Some? && !(MinCities <= IntAt(tokens, 1).value <= MaxCities))
    || (&& IntAt(tokens, 0).Some? && IntAt(tokens, 1).Some? && 0 <= IntAt(tokens, 1).value
        && RecordFault(tokens, IntAt(tokens, 0).value, IntAt(tokens, 1).value, e))
  }

  /** The error the loader reports names a real defect of the input. */
  lemma LoadErrorIsExplained(tokens: seq<Token>)
    requires Load(tokens).Err?
    ensures LoadFault(tokens, Load(tokens).error)
  {
    if && IntAt(tokens, 0).Some? && MinLength <= IntAt(tokens, 0).value <= MaxLength
       && IntAt(tokens, 1).Some? && MinCities <= IntAt(tokens, 1).value <= MaxCities
    {
      ReadCitiesFault(tokens, IntAt(tokens, 0).value, IntAt(tokens, 1).value);
    }
  }

  /** getEstrada: fills the city array and the array of positions seen so
      far record by record, and returns the road only if every record is
      accepted. */
  method GetRoad(tokens: seq<Token>) returns (r: Result<Road>)
    ensures r.Err? ==> Load(tokens) == Err(r.error)
    ensures r.Ok? ==>
      && fresh(r.value) && fresh(r.value.cities)
      && Load(tokens) == Ok(RoadData(r.value.length, r.value.cities[..]))
  {
    var length: int;
    match IntAt(tokens, 0) {
      case None => return Err(BadFormat);
      case Some(t) => length := t;
    }
    if length < MinLength || length > MaxLength {
      return Err(OutOfRange);
    }
    var n: int;
    match IntAt(tokens, 1) {
      case None => return Err(BadFormat);
      case Some(k) => n := k;
    }
    if n < MinCities || n > MaxCities {
      return Err(OutOfRange);
    }

    var cities := new City[n];
    var positions := new int[n];
    for i := 0 to n
      invariant ReadCities(tokens, length, i) == Ok(cities[..i])
      invariant positions[..i] == Positions(cities[..i])
    {
      var p: int;
      match PositionToken(tokens, i) {
        case None =>
          FailureIsFinal(tokens, length, i + 1, n);
          return Err(BadFormat);
        case Some(q) => p := q;
      }
      if p <= 0 || p >= length {
        FailureIsFinal(tokens, length, i + 1, n);
        return Err(OutOfRange);
      }
      for j := 0 to i
        invariant forall k :: 0 <= k < j ==> positions[k] != p
      {
        if positions[j] == p {
          assert Positions(cities[..i])[j] == p;
          FailureIsFinal(tokens, length, i + 1, n);
          return Err(DuplicatePosition);
        }
      }
      assert p !in Positions(cities[..i]);
      positions[i] := p;
      match NameToken(tokens, i) {
        case None =>
          FailureIsFinal(tokens, length, i + 1, n);
          return Err(BadFormat);
        case Some(name) =>
          cities[i] := City(p, name);
      }
      assert cities[..i + 1] == cities[..i] + [cities[i]];
    }
    assert cities[..] == cities[..n];
    var road := new Road(length, cities);
    return Ok(road);
  }

  /** Rejections of small inputs, one per kind: a road of length 2, a
      repeated position, and a last record without a name. */
  lemma RejectionExamples()
    ensures Load([Token("2", Some(2)), Token("2", Some(2))]) == Err(OutOfRange)
    ensures Load([Token("10", Some(10)), Token("2", Some(2)),
                  Token("3", Some(3)), Token("A", None), Token("3", Some(3)), Token("B", None)])
            == Err(DuplicatePosition)
    ensures Load([Token("10", Some(10)), Token("2", Some(2)),
                  Token("3", Some(3)), Token("A", None), Token("7", Some(7))])
            == Err(BadFormat)
  {
    var repeated := [Token("10", Some(10)), Token("2", Some(2)),
                     Token("3", Some(3)), Token("A", None), Token("3", Some(3)), Token("B", None)];
    assert Positions([]) == [];
    assert ReadCities(repeated, 10, 0) == Ok([]);
    assert ReadCity(repeated, 10, 0, []) == Ok(City(3, "A"));
    var one: nat := 1;
    assert ReadCities(repeated, 10, one) == Ok([] + [City(3, "A")]);
    assert [] + [City(3, "A")] == [City(3, "A")];
    assert Positions([City(3, "A")]) == [3];
    assert ReadCity(repeated, 10, 1, [City(3, "A")]) == Err(DuplicatePosition);
  }
}

