/**
 * The records the enrollment rules read and write: insurees and their
 * families, products of the product catalog, policies of the policy store,
 * the four configured product codes, and the errors the rules can raise.
 */
module Domain {
  import opened Calendar

  type Code = string

  datatype Option<T> = None | Some(value: T)

  /** An error the enrollment pipeline raises instead of returning. */
  datatype Error =
    | ProductNotFound(code: Code)          // no live product has the code
    | MultipleProducts(code: Code)         // more than one live product has the code
    | MultiplePolicies(familyId: nat, productId: nat)  // the find-or-create key is ambiguous
    | MissingFamily                        // neither the caller nor the insuree names a family

  datatype Result<T> = Success(value: T) | Failure(error: Error)

  datatype Outcome = Pass | Fail(error: Error)

  datatype Family = Family(id: nat, poverty: bool)

  /** An insuree as the rules see it. `age` is the insuree's own age
      computation; `isPregnant` is `None` on installations whose insuree
      record has no pregnancy attribute. */
  datatype Insuree = Insuree(
    id: nat,
    dob: Date,
    age: int,
    isPregnant: Option<bool>,
    family: Option<Family>)

  /** A product is live while `validityTo` is unset. */
  datatype Product = Product(
    id: nat,
    code: Code,
    insurancePeriod: int,
    validityTo: Option<Date>)

  datatype Stage = New | Renewed

  datatype Status = Idle | Active | Suspended | Expired | Ready

  /** A policy row; `validityTo` is set once the row has been superseded. */
  datatype Policy = Policy(
    id: nat,
    familyId: nat,
    productId: nat,
    stage: Stage,
    status: Status,
    value: real,
    enrollDate: Date,
    startDate: Date,
    effectiveDate: Date,
    expiryDate: Date,
    validityTo: Option<Date>,
    auditUserId: int)

  /** The product code configured for each eligibility category. */
  datatype Config = Config(
    minors: Code,
    elderly: Code,
    indigents: Code,
    pregnantWomen: Code)
  {
    function Codes(): set<Code> {
      {minors, elderly, indigents, pregnantWomen}
    }
  }

  /** The audit user recorded for rows the system writes on its own. */
  const SystemUser: int := -1

  /** One call of the household policy-aggregate refresh, with the policy it
      was given and the audit user it was given. */
  datatype Refresh = Refresh(policyId: nat, user: int)
}
