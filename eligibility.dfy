/** `isPrivatePassengerVehicle`: the case-insensitive vehicle-type allow-list. */
module Eligibility {

  import opened Wrappers
  import opened JavaText
  import opened PolicyModel

  /** The literals compared against, in the order the source tries them. */
  const AllowList: seq<string> := ["sedan", "coupe", "compact", "suv", "minivan", "small truck"]

  /** The `||` chain of `equalsIgnoreCase` calls on `getVehicle().getType()`. */
  predicate IsPrivatePassengerType(vehicleType: Option<string>)
  {
    EqualsIgnoreCase("sedan", vehicleType)
    || EqualsIgnoreCase("coupe", vehicleType)
    || EqualsIgnoreCase("compact", vehicleType)
    || EqualsIgnoreCase("suv", vehicleType)
    || EqualsIgnoreCase("minivan", vehicleType)
    || EqualsIgnoreCase("small truck", vehicleType)
  }

  /**
   * `isPrivatePassengerVehicle(purchase)`. A `null` purchase or a missing vehicle is dereferenced
   * and throws; a missing type only fails every comparison.
   */
  function IsPrivatePassengerVehicle(purchase: Option<PolicyPurchase>): (r: Result<bool, Exception>)
    ensures purchase.None? || purchase.value.vehicle.None? <==> r == Failure(NullPointerException)
    ensures r.Failure? ==> r.error == NullPointerException
    ensures purchase.Some? && purchase.value.vehicle.Some? && purchase.value.vehicle.value.vehicleType.None?
        ==> r == Success(false)
  {
    match purchase
    case None => Failure(NullPointerException)
    case Some(p) =>
      match p.vehicle
      case None => Failure(NullPointerException)
      case Some(v) => Success(IsPrivatePassengerType(v.vehicleType))
  }

  lemma AllowListIsFolded()
    ensures forall w :: w in AllowList ==> FoldCase(w) == w
  {
  }

  /** A type is eligible exactly when it is present and folds to one of the six allow-list entries. */
  lemma PrivatePassengerTypeIff(vehicleType: Option<string>)
    ensures IsPrivatePassengerType(vehicleType)
        <==> vehicleType.Some? && FoldCase(vehicleType.value) in AllowList
  {
    if vehicleType.Some? {
      var t := vehicleType.value;
      AllowListIsFolded();
      forall w | w in AllowList ensures EqualsIgnoreCase(w, vehicleType) <==> FoldCase(t) == w {
        EqualsIgnoreCaseIffSameFold(w, t);
      }
    }
  }

  /** For a purchase with a vehicle: eligible iff the type folds into the allow-list. */
  lemma EligibleIff(purchase: PolicyPurchase)
    requires purchase.vehicle.Some?
    ensures IsPrivatePassengerVehicle(Some(purchase))
        == Success(purchase.vehicle.value.vehicleType.Some?
                   && FoldCase(purchase.vehicle.value.vehicleType.value) in AllowList)
  {
    PrivatePassengerTypeIff(purchase.vehicle.value.vehicleType);
  }

  /** Any letter case of an allow-list entry is eligible, e.g. "SUV" and "Small Truck". */
  lemma UpperCaseEligible()
    ensures IsPrivatePassengerType(Some("SUV"))
    ensures IsPrivatePassengerType(Some("Small Truck"))
    ensures !IsPrivatePassengerType(Some("motorcycle"))
    ensures !IsPrivatePassengerType(Some(""))
  {
  }

  /** Java folds the Kelvin sign to 'k' and the long s to 's', so these non-ASCII spellings are eligible. */
  lemma NonAsciiFoldsEligible()
    ensures IsPrivatePassengerType(Some("small truc" + [KelvinSign]))
    ensures IsPrivatePassengerType(Some([LongS] + "edan"))
  {
  }
}
