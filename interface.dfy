/**
 * The enumerations and shared identifiers of the system: account roles,
 * request statuses, document ids and timestamps.
 */
module Interface {

  import opened Wrappers

  /** A document id. Each store is a sequence and a record's id is its position. */
  type Id = nat

  /** A timestamp in milliseconds, as `Date.now()` returns it. */
  type Time = int

  /** The three account roles. */
  datatype UserType = Donor | Facility | Admin

  /** The three statuses of a donation request. */
  datatype Status = Pending | Accepted | Rejected

  /** The string a role is stored and compared as. */
  function RoleName(t: UserType): string {
    match t
    case Donor => "Donor"
    case Facility => "Facility"
    case Admin => "Admin"
  }

  /** The string a status is stored and queried as. */
  function StatusName(s: Status): string {
    match s
    case Pending => "Pending"
    case Accepted => "Accepted"
    case Rejected => "Rejected"
  }

  /** The role a stored string denotes, if any. */
  function ParseRole(name: string): (t: Option<UserType>)
    ensures t.Some? <==> name in {"Donor", "Facility", "Admin"}
    ensures t.Some? ==> RoleName(t.value) == name
  {
    if name == "Donor" then Some(Donor)
    else if name == "Facility" then Some(Facility)
    else if name == "Admin" then Some(Admin)
    else None
  }

  /** The status a query string denotes, if any. */
  function ParseStatus(name: string): (s: Option<Status>)
    ensures s.Some? <==> name in {"Pending", "Accepted", "Rejected"}
    ensures s.Some? ==> StatusName(s.value) == name
  {
    if name == "Pending" then Some(Pending)
    else if name == "Accepted" then Some(Accepted)
    else if name == "Rejected" then Some(Rejected)
    else None
  }

  /** Role names are distinct, so comparing names is comparing roles. */
  lemma RoleNameInjective(a: UserType, b: UserType)
    ensures RoleName(a) == RoleName(b) <==> a == b
  {
  }

  /** Every role survives the trip to its stored name and back. */
  lemma RoleRoundTrip(t: UserType)
    ensures ParseRole(RoleName(t)) == Some(t)
  {
  }

  /** Every status survives the trip to its stored name and back. */
  lemma StatusRoundTrip(s: Status)
    ensures ParseStatus(StatusName(s)) == Some(s)
  {
  }
}
