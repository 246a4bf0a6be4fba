/** The records exchanged between the extractor, the HTTP route and the page (src/types/car.ts). */
module CarTypes {
  import opened Wrappers

  /** One car's specification. `mpg`, `transmission` and `drivetrain` are optional in the source. */
  datatype CarSpec = CarSpec(
    make: string,
    model: string,
    year: int,
    engineType: string,
    horsepower: nat,
    zeroToSixty: string,
    fuelType: string,
    imageUrl: string,
    mpg: Option<string>,
    transmission: Option<string>,
    drivetrain: Option<string>)

  /** The JSON envelope the route answers with: `success`, optional `data`, optional `error`. */
  datatype CarSearchResult = CarSearchResult(success: bool, data: Option<CarSpec>, error: Option<string>)

  /** A present optional string field is not blank. */
  predicate FilledIfPresent(f: Option<string>) {
    f.None? || f.value != ""
  }

  /** Every required string field is non-empty and every present optional field is non-empty. */
  predicate Complete(c: CarSpec) {
    && c.make != ""
    && c.model != ""
    && c.engineType != ""
    && c.zeroToSixty != ""
    && c.fuelType != ""
    && c.imageUrl != ""
    && FilledIfPresent(c.mpg)
    && FilledIfPresent(c.transmission)
    && FilledIfPresent(c.drivetrain)
  }
}
