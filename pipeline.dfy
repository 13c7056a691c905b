/**
 * The parse, filter and encode chain both handlers run on one JSON payload, with the
 * foreign collaborators they are built with.
 */
module Pipeline {

  import opened Wrappers
  import opened PolicyModel
  import opened Eligibility
  import opened XmlEncoding

  /**
   * The handlers' cold-start collaborators: Jackson's `objectMapper.readValue(json, PolicyPurchase.class)`
   * and the DOM `transformer.transform`, both opaque; either may throw. Jackson reads the JSON
   * literal `null` as a `null` purchase, `Success(None)`.
   */
  datatype Codecs = Codecs(
    readValue: string -> Result<Option<PolicyPurchase>, Exception>,
    transform: Node -> Result<string, Exception>)

  /** How far one payload gets. */
  datatype Stage = Encoded(xml: string) | Ineligible | Failed(cause: Exception)

  /**
   * Parse, then `isPrivatePassengerVehicle`, then `transformToXml`; the first exception thrown
   * ends the chain.
   */
  function Run(codecs: Codecs, json: string): (r: Stage)
    ensures r.Encoded?
        <==> && codecs.readValue(json).Success?
             && IsPrivatePassengerVehicle(codecs.readValue(json).value) == Success(true)
             && Encode(codecs.transform, codecs.readValue(json).value.value).Success?
    ensures r.Encoded? ==> Success(r.xml) == Encode(codecs.transform, codecs.readValue(json).value.value)
    ensures r.Ineligible?
        <==> && codecs.readValue(json).Success?
             && IsPrivatePassengerVehicle(codecs.readValue(json).value) == Success(false)
    ensures codecs.readValue(json).Failure? ==> r == Failed(codecs.readValue(json).error)
    ensures codecs.readValue(json).Success?
            && (codecs.readValue(json).value.None? || codecs.readValue(json).value.value.vehicle.None?)
        ==> r == Failed(NullPointerException)
    ensures && codecs.readValue(json).Success?
            && IsPrivatePassengerVehicle(codecs.readValue(json).value) == Success(true)
            && Encode(codecs.transform, codecs.readValue(json).value.value).Failure?
        ==> r == Failed(Encode(codecs.transform, codecs.readValue(json).value.value).error)
  {
    match codecs.readValue(json)
    case Failure(e) => Failed(e)
    case Success(parsed) =>
      match IsPrivatePassengerVehicle(parsed)
      case Failure(e) => Failed(e)
      case Success(false) => Ineligible
      case Success(true) =>
        match Encode(codecs.transform, parsed.value)
        case Failure(e) => Failed(e)
        case Success(xml) => Encoded(xml)
  }
}
