/**
 * The comparison view (`CarComparison`): which of its three layouts is shown
 * for a list of cars, the card each car gets, and the "Most Powerful" and
 * "Newest" picks of the quick comparison, which are `reduce` folds with a
 * strict `>` shown next to the `Math.max` of the same figure.
 */
module CarComparison {
  import opened Wrappers
  import opened CarTypes

  /** The two integer figures the quick comparison ranks cars by. */
  datatype Metric = Horsepower | Year

  function MetricOf(car: CarSpec, m: Metric): int {
    match m
    case Horsepower => car.horsepower
    case Year => car.year
  }

  // ---------------------------------------------------------------------------
  // The reduce fold and Math.max
  // ---------------------------------------------------------------------------

  /**
   * `cars.reduce((prev, current) => prev.m > current.m ? prev : current)`:
   * a left fold from the first car, keeping the running pick only while it
   * is strictly ahead. The result is one of the cars and ranks at least as
   * high as every car.
   */
  function ReduceByMetric(cars: seq<CarSpec>, m: Metric): (best: CarSpec)
    requires cars != []
    ensures best in cars
    ensures forall i :: 0 <= i < |cars| ==> MetricOf(cars[i], m) <= MetricOf(best, m)
  {
    if |cars| == 1 then cars[0]
    else
      var prev := ReduceByMetric(cars[..|cars| - 1], m);
      var current := cars[|cars| - 1];
      assert forall i :: 0 <= i < |cars| - 1 ==> cars[i] == cars[..|cars| - 1][i];
      if MetricOf(prev, m) > MetricOf(current, m) then prev else current
  }

  /** `Math.max(...xs)` for a non-empty list: an element no smaller than any other. */
  function MaxOf(xs: seq<int>): (r: int)
    requires xs != []
    ensures r in xs
    ensures forall i :: 0 <= i < |xs| ==> xs[i] <= r
  {
    if |xs| == 1 then xs[0]
    else
      var rest := MaxOf(xs[1..]);
      assert forall i :: 1 <= i < |xs| ==> xs[i] == xs[1..][i - 1];
      if xs[0] > rest then xs[0] else rest
  }

  /** `cars.map(car => car.m)` */
  function Metrics(cars: seq<CarSpec>, m: Metric): (xs: seq<int>)
    ensures |xs| == |cars|
    ensures forall i :: 0 <= i < |cars| ==> xs[i] == MetricOf(cars[i], m)
  {
    seq(|cars|, i requires 0 <= i < |cars| => MetricOf(cars[i], m))
  }

  /** The car the fold picks carries exactly the figure `Math.max` shows. */
  lemma ReduceAttainsMax(cars: seq<CarSpec>, m: Metric)
    requires cars != []
    ensures MetricOf(ReduceByMetric(cars, m), m) == MaxOf(Metrics(cars, m))
  {
    var best := ReduceByMetric(cars, m);
    var xs := Metrics(cars, m);
    var k :| 0 <= k < |cars| && cars[k] == best;
    assert xs[k] == MetricOf(best, m);
    var j :| 0 <= j < |xs| && xs[j] == MaxOf(xs);
    assert MetricOf(cars[j], m) <= MetricOf(best, m);
  }

  /** Position `k` holds a top-ranked car and every car after it ranks strictly lower. */
  ghost predicate IsLastMaximal(cars: seq<CarSpec>, m: Metric, k: int) {
    && 0 <= k < |cars|
    && (forall i :: 0 <= i < |cars| ==> MetricOf(cars[i], m) <= MetricOf(cars[k], m))
    && (forall j :: k < j < |cars| ==> MetricOf(cars[j], m) < MetricOf(cars[k], m))
  }

  /** A last maximal car strictly ahead of a newly appended car stays the last maximal one. */
  lemma KeepsLastMaximal(init: seq<CarSpec>, current: CarSpec, m: Metric, k: int)
    requires IsLastMaximal(init, m, k)
    requires MetricOf(init[k], m) > MetricOf(current, m)
    ensures IsLastMaximal(init + [current], m, k)
  {
    var cars := init + [current];
    assert forall i :: 0 <= i < |init| ==> cars[i] == init[i];
    assert cars[|init|] == current;
  }

  /** A newly appended car not behind the last maximal car becomes the last maximal one. */
  lemma TakesOverLastMaximal(init: seq<CarSpec>, current: CarSpec, m: Metric, k: int)
    requires IsLastMaximal(init, m, k)
    requires MetricOf(init[k], m) <= MetricOf(current, m)
    ensures IsLastMaximal(init + [current], m, |init|)
  {
    var cars := init + [current];
    assert forall i :: 0 <= i < |init| ==> cars[i] == init[i];
    assert cars[|init|] == current;
  }

  /**
   * Ties go to the later car: the fold returns the car at the last position
   * whose figure equals the maximum.
   */
  lemma {:induction false} ReducePicksLastMaximal(cars: seq<CarSpec>, m: Metric)
    requires cars != []
    ensures exists k :: IsLastMaximal(cars, m, k) && ReduceByMetric(cars, m) == cars[k]
  {
    if |cars| == 1 {
      assert IsLastMaximal(cars, m, 0);
    } else {
      var init := cars[..|cars| - 1];
      var current := cars[|cars| - 1];
      assert cars == init + [current];
      ReducePicksLastMaximal(init, m);
      var k :| IsLastMaximal(init, m, k) && ReduceByMetric(init, m) == init[k];
      assert ReduceByMetric(cars, m) ==
        if MetricOf(init[k], m) > MetricOf(current, m) then init[k] else current;
      if MetricOf(init[k], m) > MetricOf(current, m) {
        KeepsLastMaximal(init, current, m, k);
        assert cars[k] == init[k];
      } else {
        TakesOverLastMaximal(init, current, m, k);
      }
    }
  }

  /** Of two equally ranked cars the second is picked, though it is not ahead. */
  lemma TieKeepsCurrent(prev: CarSpec, current: CarSpec, m: Metric)
    requires MetricOf(prev, m) == MetricOf(current, m)
    ensures ReduceByMetric([prev, current], m) == current
  {
    assert [prev, current][..1] == [prev];
  }

  // ---------------------------------------------------------------------------
  // The rendered layout
  // ---------------------------------------------------------------------------

  /** A car's card and the index its remove action hands to `onRemoveCar`. */
  datatype Card = Card(car: CarSpec, removeIndex: int)

  /** The quick-comparison panel. */
  datatype QuickComparison = QuickComparison(
    mostPowerful: CarSpec,
    maxHorsepower: int,
    newest: CarSpec,
    maxYear: int,
    totalCars: nat)

  datatype ComparisonView =
    | NoCarsSelected
    | Grid(cards: seq<Card>, addAnotherPrompt: bool, quick: Option<QuickComparison>)

  /** `cars.map((car, index) => <CarSpecCard onRemove={() => onRemoveCar(index)} />)` */
  function Cards(cars: seq<CarSpec>): (cards: seq<Card>)
    ensures |cards| == |cars|
    ensures forall i :: 0 <= i < |cars| ==> cards[i] == Card(cars[i], i)
  {
    seq(|cars|, i requires 0 <= i < |cars| => Card(cars[i], i))
  }

  /**
   * What `CarComparison` shows for `cars`: the "No cars selected" view alone
   * for an empty list; otherwise one card per car, the "Add another car"
   * prompt for exactly one car, and the quick comparison from two cars on.
   */
  function Render(cars: seq<CarSpec>): (v: ComparisonView)
    ensures v.NoCarsSelected? <==> cars == []
    ensures v.Grid? ==> |v.cards| == |cars|
    ensures v.Grid? ==> forall i :: 0 <= i < |cars| ==> v.cards[i].car == cars[i] && v.cards[i].removeIndex == i
    ensures v.Grid? ==> (v.addAnotherPrompt <==> |cars| == 1)
    ensures v.Grid? ==> (v.quick.Some? <==> |cars| >= 2)
    ensures v.Grid? && v.quick.Some? ==>
      var q := v.quick.value;
      && q.mostPowerful in cars && q.newest in cars
      && q.maxHorsepower == MaxOf(Metrics(cars, Horsepower))
      && q.maxYear == MaxOf(Metrics(cars, Year))
      && q.mostPowerful.horsepower == q.maxHorsepower
      && q.newest.year == q.maxYear
      && q.totalCars == |cars|
  {
    if cars == [] then NoCarsSelected
    else
      var quick :=
        if |cars| >= 2 then
          ReduceAttainsMax(cars, Horsepower);
          ReduceAttainsMax(cars, Year);
          Some(QuickComparison(
            ReduceByMetric(cars, Horsepower), MaxOf(Metrics(cars, Horsepower)),
            ReduceByMetric(cars, Year), MaxOf(Metrics(cars, Year)),
            |cars|))
        else None;
      Grid(Cards(cars), |cars| == 1, quick)
  }

  /** The panel's picks are the last most powerful and the last newest car of the list. */
  lemma QuickComparisonPicksLastMaximal(cars: seq<CarSpec>)
    requires |cars| >= 2
    ensures var q := Render(cars).quick.value;
            && (exists k :: IsLastMaximal(cars, Horsepower, k) && q.mostPowerful == cars[k])
            && (exists k :: IsLastMaximal(cars, Year, k) && q.newest == cars[k])
  {
    ReducePicksLastMaximal(cars, Horsepower);
    ReducePicksLastMaximal(cars, Year);
  }
}
