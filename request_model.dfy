/** The donation request document and its creation defaults. */
module RequestModel {

  import opened Wrappers
  import opened Interface

  /** The text `additionalInformation` takes when a request omits it. */
  const DefaultAdditionalInformation := "Please ensure you are hydrated and have eaten before the appointment."

  /**
   * A request: a join between exactly one addressed donor (`sentTo`) and one
   * sending facility (`sentBy`), with a snapshot of the facility's name and
   * address taken at creation.
   */
  datatype Request = Request(
    sentTo: Id,
    sentBy: Id,
    organizationName: string,
    organizationAddress: string,
    appointmentDate: Option<string>,
    appointmentTime: Option<string>,
    status: Status,
    respondedAt: Option<Time>,
    rejectionReason: Option<string>,
    additionalInformation: string,
    bloodGroupRequired: string,
    bloodCollectionType: string,
    createdAt: Time)

  /** The fields a `Request.create` call passes; absent ones are `None`. */
  datatype RequestInput = RequestInput(
    sentTo: Id,
    sentBy: Id,
    organizationName: Option<string>,
    organizationAddress: Option<string>,
    appointmentDate: Option<string>,
    appointmentTime: Option<string>,
    additionalInformation: Option<string>,
    bloodGroupRequired: Option<string>,
    bloodCollectionType: Option<string>)

  /** Mongoose's `required` check on a string path: present and not the empty string. */
  predicate Present(v: Option<string>) {
    v.Some? && v.value != ""
  }

  /** The required paths of the request schema all hold a value. */
  predicate WellFormed(r: Request) {
    r.organizationName != "" && r.organizationAddress != ""
    && r.bloodGroupRequired != "" && r.bloodCollectionType != ""
  }

  /**
   * `Request.create(input)`: `None` when a required path is missing (the
   * schema's validation error), otherwise the new document with status
   * Pending, no response time, a null rejection reason, the default
   * additional information when none is given, and `createdAt` equal to
   * `loadTime`, the single `Date.now()` computed when the schema was defined.
   */
  function Create(input: RequestInput, loadTime: Time): (r: Option<Request>)
    ensures r.Some? <==>
      Present(input.organizationName) && Present(input.organizationAddress)
      && Present(input.bloodGroupRequired) && Present(input.bloodCollectionType)
    ensures r.Some? ==> WellFormed(r.value)
    ensures r.Some? ==> r.value.status == Pending && r.value.respondedAt.None? && r.value.rejectionReason.None?
    ensures r.Some? ==> r.value.createdAt == loadTime
    ensures r.Some? ==> r.value.additionalInformation == input.additionalInformation.GetOr(DefaultAdditionalInformation)
    ensures r.Some? ==>
      && r.value.sentTo == input.sentTo && r.value.sentBy == input.sentBy
      && Some(r.value.organizationName) == input.organizationName
      && Some(r.value.organizationAddress) == input.organizationAddress
      && r.value.appointmentDate == input.appointmentDate
      && r.value.appointmentTime == input.appointmentTime
      && Some(r.value.bloodGroupRequired) == input.bloodGroupRequired
      && Some(r.value.bloodCollectionType) == input.bloodCollectionType
  {
    if Present(input.organizationName) && Present(input.organizationAddress)
       && Present(input.bloodGroupRequired) && Present(input.bloodCollectionType)
    then
      Some(Request(
        sentTo := input.sentTo,
        sentBy := input.sentBy,
        organizationName := input.organizationName.value,
        organizationAddress := input.organizationAddress.value,
        appointmentDate := input.appointmentDate,
        appointmentTime := input.appointmentTime,
        status := Pending,
        respondedAt := None,
        rejectionReason := None,
        additionalInformation := input.additionalInformation.GetOr(DefaultAdditionalInformation),
        bloodGroupRequired := input.bloodGroupRequired.value,
        bloodCollectionType := input.bloodCollectionType.value,
        createdAt := loadTime))
    else None
  }

  /** Two requests created from inputs that omit `createdAt` share one creation time. */
  lemma SharedCreatedAt(a: RequestInput, b: RequestInput, loadTime: Time)
    requires Create(a, loadTime).Some? && Create(b, loadTime).Some?
    ensures Create(a, loadTime).value.createdAt == Create(b, loadTime).value.createdAt
  {
  }
}
