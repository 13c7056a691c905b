/**
 * The nested payload classes `PolicyPurchase`, `Policyholder` and `Vehicle`, as Jackson fills them:
 * a property absent from the JSON leaves its field `null`, written `None` here.
 */
module PolicyModel {

  import opened Wrappers

  datatype Policyholder = Policyholder(firstName: Option<string>, lastName: Option<string>)

  datatype Vehicle = Vehicle(vehicleType: Option<string>, vin: Option<string>)

  datatype PolicyPurchase = PolicyPurchase(
    quoteId: Option<string>,
    policyholder: Option<Policyholder>,
    vehicle: Option<Vehicle>)

  /** A thrown Java exception: its class and what `getMessage()` returns (`None` for `null`). */
  datatype Exception = Exception(className: string, message: Option<string>)

  /** Dereferencing a `null` field; the model gives it no detail message. */
  const NullPointerException: Exception := Exception("java.lang.NullPointerException", None)

  /** What string concatenation makes of `getMessage()`: a `null` message reads "null". */
  function MessageText(e: Exception): string
  {
    match e.message
    case Some(m) => m
    case None => "null"
  }
}
