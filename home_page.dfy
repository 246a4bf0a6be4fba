/**
 * The `Home` page's state: the car last found, the comparison list (at most
 * four cars, no two with the same make, model and year), the loading flag,
 * the error banner and which of the two views is shown, with the handlers
 * that update them. The `/api/car-specs` request is an abstract outcome.
 */
module HomePage {
  import opened Wrappers
  import opened CarTypes
  import CarComparison

  datatype ViewMode = Search | Comparison

  /** The comparison list never holds more cars than this. */
  const MaxComparisonCars: nat := 4

  const DefaultFailureMessage: string := "Failed to fetch car specifications"
  const NetworkErrorMessage: string := "Network error. Please try again."

  // ---------------------------------------------------------------------------
  // The comparison list
  // ---------------------------------------------------------------------------

  /** Two records describe the same car when make, model and year agree. */
  predicate SameCar(a: CarSpec, b: CarSpec) {
    a.make == b.make && a.model == b.model && a.year == b.year
  }

  /** `comparisonCars.some(car => SameCar(car, c))` */
  predicate IsAlreadyAdded(cars: seq<CarSpec>, c: CarSpec) {
    exists i :: 0 <= i < |cars| && SameCar(cars[i], c)
  }

  /** No two entries describe the same car. */
  predicate DistinctCars(cars: seq<CarSpec>) {
    forall i, j :: 0 <= i < j < |cars| ==> !SameCar(cars[i], cars[j])
  }

  /** The invariant of the comparison list. */
  predicate ValidList(cars: seq<CarSpec>) {
    |cars| <= MaxComparisonCars && DistinctCars(cars)
  }

  /**
   * The list `addToComparison` leaves: `current` appended when there is a
   * current car, room for it and no entry for the same car; otherwise the
   * list unchanged. It keeps the list's invariant.
   */
  function AddedList(cars: seq<CarSpec>, current: Option<CarSpec>): (r: seq<CarSpec>)
    ensures r == cars || (current.Some? && r == cars + [current.value])
    ensures r != cars <==> current.Some? && |cars| < MaxComparisonCars && !IsAlreadyAdded(cars, current.value)
    ensures ValidList(cars) ==> ValidList(r)
  {
    if current.Some? && |cars| < MaxComparisonCars then
      var c := current.value;
      if !IsAlreadyAdded(cars, c) then
        var r := cars + [c];
        assert forall i :: 0 <= i < |cars| ==> r[i] == cars[i];
        assert |r| != |cars|;
        r
      else cars
    else cars
  }

  /** `cars.filter((_, i) => i !== index)`, scanning from position `offset`. */
  function FilterIndex(cars: seq<CarSpec>, index: int, offset: int): (r: seq<CarSpec>)
    decreases |cars|
  {
    if cars == [] then []
    else (if offset == index then [] else [cars[0]]) + FilterIndex(cars[1..], index, offset + 1)
  }

  /** The filter keeps `cars` whole when `index` names no position of it. */
  lemma {:induction false} FilterIndexMisses(cars: seq<CarSpec>, index: int, offset: int)
    requires index < offset || offset + |cars| <= index
    ensures FilterIndex(cars, index, offset) == cars
    decreases |cars|
  {
    if cars != [] {
      FilterIndexMisses(cars[1..], index, offset + 1);
    }
  }

  /** The filter drops exactly the entry at position `index - offset`. */
  lemma {:induction false} FilterIndexHits(cars: seq<CarSpec>, index: int, offset: int)
    requires offset <= index < offset + |cars|
    ensures FilterIndex(cars, index, offset) == cars[..index - offset] + cars[index - offset + 1..]
    decreases |cars|
  {
    if offset == index {
      FilterIndexMisses(cars[1..], index, offset + 1);
    } else {
      FilterIndexHits(cars[1..], index, offset + 1);
      assert cars[1..][..index - offset - 1] == cars[1..index - offset];
      assert cars[1..][index - offset..] == cars[index - offset + 1..];
      assert [cars[0]] + cars[1..index - offset] == cars[..index - offset];
    }
  }

  /**
   * The list `removeFromComparison(index)` leaves: the entry at `index`
   * removed and the others kept in order, or the list unchanged when
   * `index` is out of range.
   */
  function RemovedAt(cars: seq<CarSpec>, index: int): (r: seq<CarSpec>)
    ensures 0 <= index < |cars| ==> r == cars[..index] + cars[index + 1..]
    ensures !(0 <= index < |cars|) ==> r == cars
  {
    if 0 <= index < |cars| then
      FilterIndexHits(cars, index, 0);
      FilterIndex(cars, index, 0)
    else
      FilterIndexMisses(cars, index, 0);
      FilterIndex(cars, index, 0)
  }

  /** `showCompareButton={comparisonCars.length < 4}`: the current car's card offers "compare" while the list has room. */
  predicate ShowsCompareButton(cars: seq<CarSpec>) {
    |cars| < MaxComparisonCars
  }

  /** Removing an entry keeps the list's invariant. */
  lemma RemovalKeepsValid(cars: seq<CarSpec>, index: int)
    requires ValidList(cars)
    ensures ValidList(RemovedAt(cars, index))
  {
    if 0 <= index < |cars| {
      var r := RemovedAt(cars, index);
      forall i, j | 0 <= i < j < |r|
        ensures !SameCar(r[i], r[j])
      {
        var i' := if i < index then i else i + 1;
        var j' := if j < index then j else j + 1;
        assert r[i] == cars[i'] && r[j] == cars[j'];
      }
    }
  }

  /**
   * The remove action of the card at position `i` of the comparison view
   * takes out exactly the car that card shows.
   */
  lemma CardRemovesItsOwnCar(cars: seq<CarSpec>, i: int)
    requires 0 <= i < |cars|
    ensures var v := CarComparison.Render(cars);
            && v.Grid?
            && v.cards[i].car == cars[i]
            && RemovedAt(cars, v.cards[i].removeIndex) == cars[..i] + cars[i + 1..]
  {
  }

  // ---------------------------------------------------------------------------
  // The search outcome
  // ---------------------------------------------------------------------------

  /** What `fetch` plus `response.json()` deliver: a result body, or a thrown error. */
  datatype ApiResponse = Delivered(result: CarSearchResult) | NetworkError

  /** `result.error || 'Failed to fetch car specifications'`: an empty error counts as none. */
  function FailureMessage(result: CarSearchResult): (msg: string)
    ensures msg != []
    ensures result.error.Some? && result.error.value != [] ==> msg == result.error.value
    ensures result.error.None? || result.error.value == [] ==> msg == DefaultFailureMessage
  {
    if result.error.Some? && result.error.value != [] then result.error.value else DefaultFailureMessage
  }

  /** The car shown and the error banner after `searchCar` has settled. */
  datatype SearchOutcome = SearchOutcome(car: Option<CarSpec>, error: Option<string>)

  /**
   * A delivered success with data shows that car and no error; every other
   * outcome shows no car and a non-empty error: the result's own message,
   * the generic failure message, or the network message.
   */
  function Settle(response: ApiResponse): (o: SearchOutcome)
    ensures o.car.Some? <==> o.error.None?
    ensures o.error.Some? ==> o.error.value != []
    ensures o.car.Some? <==> response.Delivered? && response.result.success && response.result.data.Some?
    ensures o.car.Some? ==> o.car == response.result.data
    ensures response.NetworkError? ==> o.error == Some(NetworkErrorMessage)
    ensures response.Delivered? && o.error.Some? ==> o.error == Some(FailureMessage(response.result))
  {
    match response
    case Delivered(result) =>
      if result.success && result.data.Some? then SearchOutcome(result.data, None)
      else SearchOutcome(None, Some(FailureMessage(result)))
    case NetworkError =>
      SearchOutcome(None, Some(NetworkErrorMessage))
  }

  // ---------------------------------------------------------------------------
  // The page
  // ---------------------------------------------------------------------------

  class Home {
    var currentCar: Option<CarSpec>
    var comparisonCars: seq<CarSpec>
    var isLoading: bool
    var error: Option<string>
    var viewMode: ViewMode

    /** At most four cars to compare, no two of them the same car. */
    ghost predicate Valid()
      reads this
    {
      ValidList(comparisonCars)
    }

    /** The first render: nothing found, nothing to compare, the search view. */
    constructor ()
      ensures Valid()
      ensures currentCar == None && comparisonCars == [] && !isLoading && error == None
      ensures viewMode == Search
    {
      currentCar := None;
      comparisonCars := [];
      isLoading := false;
      error := None;
      viewMode := Search;
    }

    /**
     * `searchCar`: raise the loading flag and clear the error, then settle on
     * the response's outcome and lower the flag again. The comparison list
     * and the view are left alone.
     */
    method SearchCar(response: ApiResponse)
      requires Valid()
      modifies this
      ensures Valid()
      ensures !isLoading
      ensures SearchOutcome(currentCar, error) == Settle(response)
      ensures comparisonCars == old(comparisonCars) && viewMode == old(viewMode)
    {
      isLoading := true;
      error := None;
      match response {
        case Delivered(result) =>
          if result.success && result.data.Some? {
            currentCar := result.data;
          } else {
            error := Some(FailureMessage(result));
            currentCar := None;
          }
        case NetworkError =>
          error := Some(NetworkErrorMessage);
          currentCar := None;
      }
      isLoading := false;
    }

    /** `addToComparison`: append the current car when there is room and it is not listed yet. */
    method AddToComparison()
      requires Valid()
      modifies this
      ensures Valid()
      ensures comparisonCars == AddedList(old(comparisonCars), currentCar)
      ensures currentCar == old(currentCar) && isLoading == old(isLoading)
      ensures error == old(error) && viewMode == old(viewMode)
    {
      if currentCar.Some? && |comparisonCars| < MaxComparisonCars {
        var isAlreadyAdded := IsAlreadyAdded(comparisonCars, currentCar.value);
        if !isAlreadyAdded {
          comparisonCars := comparisonCars + [currentCar.value];
        }
      }
    }

    /** `removeFromComparison(index)`: drop the entry at `index`, if there is one. */
    method RemoveFromComparison(index: int)
      requires Valid()
      modifies this
      ensures Valid()
      ensures comparisonCars == RemovedAt(old(comparisonCars), index)
      ensures currentCar == old(currentCar) && isLoading == old(isLoading)
      ensures error == old(error) && viewMode == old(viewMode)
    {
      RemovalKeepsValid(comparisonCars, index);
      comparisonCars := RemovedAt(comparisonCars, index);
    }

    method SwitchToComparison()
      modifies this
      ensures viewMode == Comparison
      ensures currentCar == old(currentCar) && comparisonCars == old(comparisonCars)
      ensures isLoading == old(isLoading) && error == old(error)
    {
      viewMode := Comparison;
    }

    method SwitchToSearch()
      modifies this
      ensures viewMode == Search
      ensures currentCar == old(currentCar) && comparisonCars == old(comparisonCars)
      ensures isLoading == old(isLoading) && error == old(error)
    {
      viewMode := Search;
    }
  }

  /**
   * While a car is shown that is not in the list yet, the compare button is
   * offered exactly when pressing it adds that car at the end.
   */
  lemma CompareButtonMeansAdd(cars: seq<CarSpec>, c: CarSpec)
    requires !IsAlreadyAdded(cars, c)
    ensures ShowsCompareButton(cars) <==> AddedList(cars, Some(c)) == cars + [c]
  {
    if AddedList(cars, Some(c)) == cars + [c] {
      assert |cars + [c]| != |cars|;
    }
  }

  /** Adding the same car twice in a row changes the list at most once. */
  lemma AddTwiceIsAddOnce(cars: seq<CarSpec>, current: Option<CarSpec>)
    ensures AddedList(AddedList(cars, current), current) == AddedList(cars, current)
  {
    var once := AddedList(cars, current);
    if once != cars {
      assert SameCar(once[|cars|], current.value);
    }
  }

  /** Removing a car just added restores the list it was added to. */
  lemma RemoveUndoesAdd(cars: seq<CarSpec>, c: CarSpec)
    requires AddedList(cars, Some(c)) != cars
    ensures RemovedAt(AddedList(cars, Some(c)), |cars|) == cars
  {
    var r := cars + [c];
    assert r[..|cars|] == cars;
  }
}
