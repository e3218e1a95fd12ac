/**
 * The mails the controllers send, as events appended to an outbox: the
 * recipient and the values handed to the template. Rendering and delivery
 * are not part of this model.
 */
module Notifications {

  import opened Wrappers
  import opened UserModel

  /** One call of a `send…Mail` function. Absent values are `None` (they render as "undefined"). */
  datatype Event =
    | VerificationMail(to: string)
    | RequestMail(to: string, firstName: Option<string>, organizationName: Option<string>)
    | AcceptanceMail(to: string, facilityName: string, donorName: string, appointmentDate: Option<string>)
    | AppointmentMail(to: string, donorName: string, facilityName: string, appointmentDate: Option<string>,
                      appointmentTime: Option<string>, facilityAddress: string, facilityPhone: Option<string>)
    | DeclineMail(to: string, facilityName: string, donorName: string, reason: string)
    | ProfileVerifiedMail(to: string, organizationName: Option<string>)
    | ProfileDeclineMail(to: string, organizationName: Option<string>, reason: string)

  /** The address an event is sent to. */
  function Recipient(e: Event): string {
    e.to
  }

  /** How a template literal renders an optional string: a missing one reads "undefined". */
  function Display(v: Option<string>): (r: string)
    ensures v.Some? ==> r == v.value
    ensures v.None? ==> r == "undefined"
  {
    match v
    case Some(s) => s
    case None => "undefined"
  }

  /** `${user.firstName} ${user.lastName}`. */
  function DonorFullName(u: User): string {
    Display(u.firstName) + " " + Display(u.lastName)
  }
}
