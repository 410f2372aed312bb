/** The records exchanged with the backend (src/api.ts:1-29, 135-153).
    Optional JSON fields are `Option`s; a JavaScript number that the logic
    only prints or compares is an `int`. */
module Model {
  import opened Wrappers

  /** One parking citation. */
  datatype Fine = Fine(
    number: Option<string>,
    amount: Option<real>,
    priceDisplay: Option<string>,
    date: Option<string>,
    time: Option<string>,
    location: Option<string>,
    comments: Option<string>)

  /** The outcome of checking one municipality. The status is kept as the
      string the server sent: the views compare it with string literals and
      fall back for values outside the three documented ones. */
  datatype MunicipalityResult = MunicipalityResult(
    name: string,
    status: string,
    count: Option<int>,
    amount: Option<string>,
    personName: Option<string>,
    fines: Option<seq<Fine>>,
    error: Option<string>,
    paymentUrl: Option<string>)

  const StatusClean := "clean"
  const StatusFine := "fine"
  const StatusFailed := "failed"

  /** Counts of municipalities per status, as tallied by the server. */
  datatype Summary = Summary(clean: int, fine: int, failed: int)

  datatype CheckResponse = CheckResponse(results: seq<MunicipalityResult>, summary: Summary)

  /** The part of the vehicle-registry record the page state holds; the
      state only stores and clears it. */
  datatype VehicleInfo = VehicleInfo(
    found: bool,
    carNumber: Option<int>,
    manufacturer: Option<string>,
    model: Option<string>,
    year: Option<int>,
    testExpiry: Option<string>)
}
