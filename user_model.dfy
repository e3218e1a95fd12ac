/**
 * The user document: identity, flags, role and the role-specific fields the
 * modelled operations read or write, with the schema's defaults and setters.
 */
module UserModel {

  import opened Wrappers
  import opened Interface
  import Text

  /** The donor's answers at registration (`eligibilityCriteria`). `age` and `weight` are trimmed on save. */
  datatype Eligibility = Eligibility(age: Option<string>, weight: Option<string>, pregnancyStatus: string)

  /** The value `pregnancyStatus` takes when none is given. */
  const DefaultPregnancyStatus := "not-pregnant"

  /**
   * A user document. Role-specific sub-documents are flattened to the fields the
   * core reads: `organizationName` is `facilityInformation.organizationName`.
   * `password` holds the hash; it is `None` in a record read without `+password`.
   * The four flags are independent booleans.
   */
  datatype User = User(
    emailAddress: string,
    password: Option<string>,
    phoneNumber: Option<string>,
    firstName: Option<string>,
    middleName: Option<string>,
    lastName: Option<string>,
    gender: Option<string>,
    bloodGroup: Option<string>,
    city: Option<string>,
    state: Option<string>,
    streetAddress: Option<string>,
    userType: UserType,
    isEmailVerified: bool,
    isProfileVerified: bool,
    isAccountSuspended: bool,
    isProfileComplete: bool,
    eligibility: Eligibility,
    organizationName: Option<string>,
    // Written by the admin's rejection; the schema declares no such path, so
    // Mongoose's strict mode may drop it. The model keeps what the code writes.
    profileDeclineVerificationReason: Option<string>)

  /** The `trim: true` setter applied to an optional string path. */
  function TrimPath(v: Option<string>): (r: Option<string>)
    ensures r.Some? <==> v.Some?
    ensures r.Some? ==> r.value == Text.Trim(v.value)
  {
    match v
    case None => None
    case Some(s) => Some(Text.Trim(s))
  }

  /** None of the four flags is set: the state every new account starts in. */
  predicate FlagsCleared(u: User) {
    !u.isEmailVerified && !u.isProfileVerified && !u.isAccountSuspended && !u.isProfileComplete
  }

  /**
   * `User.create` with the schema defaults: the flags false, the role Donor
   * unless given, eligibility age and weight trimmed, pregnancy status
   * "not-pregnant" unless given, names trimmed, the e-mail address trimmed and
   * lower-cased.
   */
  function NewUser(
    email: string, phone: string, passwordHash: string,
    firstName: Option<string>, lastName: Option<string>,
    role: Option<UserType>, eligibility: Option<Eligibility>, organizationName: Option<string>): (u: User)
    ensures FlagsCleared(u)
    ensures u.emailAddress == Text.Normalize(email)
    ensures u.userType == role.GetOr(Donor)
    ensures u.password == Some(passwordHash) && u.phoneNumber == Some(phone)
    ensures u.organizationName == organizationName
    ensures eligibility.None? ==> u.eligibility == Eligibility(None, None, DefaultPregnancyStatus)
    ensures eligibility.Some? ==>
      u.eligibility == Eligibility(TrimPath(eligibility.value.age), TrimPath(eligibility.value.weight),
                                   eligibility.value.pregnancyStatus)
    ensures u.streetAddress.None? && u.profileDeclineVerificationReason.None?
  {
    User(
      emailAddress := Text.Normalize(email),
      password := Some(passwordHash),
      phoneNumber := Some(phone),
      firstName := TrimPath(firstName),
      middleName := None,
      lastName := TrimPath(lastName),
      gender := None, bloodGroup := None, city := None, state := None, streetAddress := None,
      userType := role.GetOr(Donor),
      isEmailVerified := false, isProfileVerified := false,
      isAccountSuspended := false, isProfileComplete := false,
      eligibility := match eligibility
        case None => Eligibility(None, None, DefaultPregnancyStatus)
        case Some(e) => Eligibility(TrimPath(e.age), TrimPath(e.weight), e.pregnancyStatus),
      organizationName := organizationName,
      profileDeclineVerificationReason := None)
  }

  /** A normal read (`findById`, `find`): the `select: false` password is left out. */
  function ReadUser(u: User): (r: User)
    ensures r.password.None?
    ensures r.(password := u.password) == u
  {
    u.(password := None)
  }

  /** Stored addresses are unique across all roles (the unique index). */
  predicate EmailsUnique(users: seq<User>) {
    forall i, j :: 0 <= i < j < |users| ==> users[i].emailAddress != users[j].emailAddress
  }

  /** The id of the user whose stored address is `email` after normalization, if any. */
  function FindByEmail(users: seq<User>, email: string): (r: Option<Id>)
    ensures r.Some? ==> r.value < |users| && users[r.value].emailAddress == Text.Normalize(email)
    ensures r.None? <==> forall i :: 0 <= i < |users| ==> users[i].emailAddress != Text.Normalize(email)
  {
    FindAddress(users, Text.Normalize(email), 0)
  }

  /** The first id at or after `from` whose stored address is exactly `address`. */
  function FindAddress(users: seq<User>, address: string, from: nat): (r: Option<Id>)
    requires from <= |users|
    ensures r.Some? ==> from <= r.value < |users| && users[r.value].emailAddress == address
    ensures r.None? <==> forall i :: from <= i < |users| ==> users[i].emailAddress != address
    decreases |users| - from
  {
    if from == |users| then None
    else if users[from].emailAddress == address then Some(from)
    else FindAddress(users, address, from + 1)
  }

  /** Appending a user whose normalized address is not taken keeps addresses unique. */
  lemma {:induction false} AppendKeepsEmailsUnique(users: seq<User>, u: User)
    requires EmailsUnique(users)
    requires Text.Normalize(u.emailAddress) == u.emailAddress
    requires FindByEmail(users, u.emailAddress).None?
    ensures EmailsUnique(users + [u])
  {
    var all := users + [u];
    forall i, j | 0 <= i < j < |all| ensures all[i].emailAddress != all[j].emailAddress {
      if j == |users| {
        assert all[i] == users[i];
        assert users[i].emailAddress != Text.Normalize(u.emailAddress);
      }
    }
  }

  /** Changing any field but the address of one stored user keeps addresses unique. */
  lemma UpdateKeepsEmailsUnique(users: seq<User>, id: Id, u: User)
    requires EmailsUnique(users) && id < |users|
    requires u.emailAddress == users[id].emailAddress
    ensures EmailsUnique(users[id := u])
  {
  }
}
