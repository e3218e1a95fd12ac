/**
 * Registration and profile completion: the e-mail look-up, donor and facility
 * registration with their eligibility gate and verification mail, and the two
 * profile completions that set the flags the profile gate reads.
 */
module AuthController {

  import opened Wrappers
  import opened Interface
  import opened UserModel
  import opened Notifications
  import opened Http
  import opened Joi
  import AuthValidation
  import opened Database
  import opened AuthMiddleware
  import opened ValidateMiddleware
  import Text

  /** The generic answer of every handler's catch block, including a refused `User.create`. */
  const InternalError := Reply(InternalServerError, "An internal server error occurred")

  const AddressTaken := Reply(BadRequest, "Email address is associated with another user")
  const AddressFree := Reply(Ok, "Email address is not associated with another user")
  const NotEligible := Reply(BadRequest, "Donor does not meet criteria")
  const DonorRegistered := Reply(Created, "Donor registered successfully. Check your email to verify your account.")
  const FacilityRegistered := Reply(Created, "Facility registered successfully. Check your email to verify your account.")
  const UserNotFound := Reply(NotFound, "User not found")
  const DonorProfileSaved := Reply(Ok, "Profile updated successfully")
  const FacilityProfileSaved := Reply(Ok, "Profile completed successfully")

  /**
   * `lookUpMail`: 422 for a refused body; otherwise 400 when some user's
   * stored address equals the trimmed address once lower-cased (the schema's
   * `lowercase` setter also runs on the query value), 200 when none does.
   */
  function LookUpMail(users: seq<User>, body: Body, isEmail: string -> bool): (r: Reply)
    ensures AuthValidation.LookUpMail(body, isEmail).Invalid? ==>
      r == Reply(UnprocessableEntity, AuthValidation.LookUpMail(body, isEmail).detail)
    ensures AuthValidation.LookUpMail(body, isEmail).Valid? ==>
      var address := Text.Normalize(AuthValidation.LookUpMail(body, isEmail).value);
      && (r == AddressTaken <==> exists i :: 0 <= i < |users| && users[i].emailAddress == address)
      && (r == AddressFree <==> forall i :: 0 <= i < |users| ==> users[i].emailAddress != address)
  {
    match AuthValidation.LookUpMail(body, isEmail)
    case Invalid(d) => Reply(UnprocessableEntity, d)
    case Valid(email) => if FindByEmail(users, email).Some? then AddressTaken else AddressFree
  }

  /**
   * An address the look-up reports free is one `User.create` accepts: it
   * normalizes to a non-empty address no stored user has.
   */
  lemma FreeAddressCanRegister(users: seq<User>, body: Body, isEmail: string -> bool, u: User)
    requires LookUpMail(users, body, isEmail) == AddressFree
    requires AuthValidation.LookUpMail(body, isEmail).Valid?
    requires u.emailAddress == Text.Normalize(AuthValidation.LookUpMail(body, isEmail).value)
    ensures Text.Normalize(u.emailAddress) == u.emailAddress
    ensures u.emailAddress != "" && FindByEmail(users, u.emailAddress).None?
  {
    var e := AuthValidation.LookUpMail(body, isEmail).value;
    Text.NormalizeIdempotent(e);
    assert !Text.IsSpace(e[0]);
  }

  /** The eligibility gate of `registerDonor`: exact comparison of the converted age and weight; pregnancy is not consulted. */
  predicate IsIneligible(v: AuthValidation.DonorOnboarding) {
    v.age == "under 18" || v.weight == "below 50kg"
  }

  /** The document `registerDonor` creates: no role given (so Donor), the eligibility answers as converted. */
  function RegisteredDonor(v: AuthValidation.DonorOnboarding, hash: string -> string): User {
    NewUser(v.email, v.phoneNumber, hash(v.password), None, None, None,
            Some(Eligibility(Some(v.age), Some(v.weight), v.pregnancyStatus)), None)
  }

  /** "UNDER 18" lower-cases to the refused answer. */
  lemma UpperCaseUnderEighteen()
    ensures Text.Lower("UNDER 18") == "under 18"
  {
    var a := Text.Lower("UNDER 18");
    forall k | 0 <= k < 8 ensures a[k] == "under 18"[k] {
      assert a[k] == Text.LowerChar("UNDER 18"[k]);
    }
  }

  /**
   * Answers in any letter case are refused too: the schema lower-cases age
   * before the comparison, so every age that lower-cases to "under 18" (such
   * as "UNDER 18", by UpperCaseUnderEighteen) is refused.
   */
  lemma UpperCaseAgeRefused(body: Body, isEmail: string -> bool)
    requires AuthValidation.OnboardDonor(body, isEmail).Valid?
    requires Text.Lower(body["age"].s) == "under 18"
    ensures IsIneligible(AuthValidation.OnboardDonor(body, isEmail).value)
  {
  }

  /**
   * A padded answer passes the gate: the schema does not trim age, so
   * "under 18" with white space around it differs from "under 18" and the
   * donor is registered; the user schema's `trim` setter then stores the age
   * as "under 18".
   */
  lemma PaddedAgePassesGate(body: Body, isEmail: string -> bool, hash: string -> string, p: string, q: string)
    requires AuthValidation.OnboardDonor(body, isEmail).Valid?
    requires p + q != []
    requires forall k :: 0 <= k < |p| ==> Text.IsSpace(p[k])
    requires forall k :: 0 <= k < |q| ==> Text.IsSpace(q[k])
    requires body["age"].s == p + "under 18" + q
    requires Text.Lower(body["weight"].s) != "below 50kg"
    ensures !IsIneligible(AuthValidation.OnboardDonor(body, isEmail).value)
    ensures RegisteredDonor(AuthValidation.OnboardDonor(body, isEmail).value, hash).eligibility.age == Some("under 18")
  {
    UnderEighteenPlain();
    Text.LowerPadded(p, "under 18", q);
    Text.TrimPadded(p, "under 18", q);
  }

  /** "under 18" has no capital and no white space at its ends. */
  lemma UnderEighteenPlain()
    ensures forall k :: 0 <= k < |"under 18"| ==> !('A' <= "under 18"[k] <= 'Z')
    ensures !Text.IsSpace("under 18"[0]) && !Text.IsSpace("under 18"[7])
  {
  }

  /**
   * `registerDonor`. A refused body is 422 and an ineligible donor 400, both
   * with nothing written. Otherwise the donor document is created; a refused
   * create (the address is taken) is 500 with nothing sent; a created donor
   * gets one verification mail at the address as validated, and the answer is 201.
   */
  method RegisterDonor(db: Db, body: Body, isEmail: string -> bool, hash: string -> string) returns (reply: Reply)
    requires db.Valid()
    modifies db
    ensures db.Valid()
    ensures db.requests == old(db.requests)
    ensures AuthValidation.OnboardDonor(body, isEmail).Invalid? ==>
      reply == Reply(UnprocessableEntity, AuthValidation.OnboardDonor(body, isEmail).detail)
      && db.users == old(db.users) && db.outbox == old(db.outbox)
    ensures AuthValidation.OnboardDonor(body, isEmail).Valid? && IsIneligible(AuthValidation.OnboardDonor(body, isEmail).value) ==>
      reply == NotEligible && db.users == old(db.users) && db.outbox == old(db.outbox)
    ensures AuthValidation.OnboardDonor(body, isEmail).Valid? && !IsIneligible(AuthValidation.OnboardDonor(body, isEmail).value) ==>
      var v := AuthValidation.OnboardDonor(body, isEmail).value;
      var u := RegisteredDonor(v, hash);
      if FindByEmail(old(db.users), v.email).None? then
        && reply == DonorRegistered
        && db.users == old(db.users) + [u]
        && db.outbox == old(db.outbox) + [VerificationMail(v.email)]
      else
        reply == InternalError && db.users == old(db.users) && db.outbox == old(db.outbox)
  {
    match AuthValidation.OnboardDonor(body, isEmail)
    case Invalid(d) =>
      return Reply(UnprocessableEntity, d);
    case Valid(v) =>
      if IsIneligible(v) {
        return NotEligible;
      }
      var u := RegisteredDonor(v, hash);
      Text.NormalizeIdempotent(v.email);
      assert !Text.IsSpace(v.email[0]);
      var ok := db.InsertUser(u);
      if !ok {
        return InternalError;
      }
      db.Send([VerificationMail(v.email)]);
      return DonorRegistered;
  }

  /** The converted fields of a facility registration body. */
  datatype FacilityRegistration = FacilityRegistration(
    email: string, firstName: string, lastName: string, phoneNumber: string, password: string, organizationName: string)

  /** The document `registerFacility` creates: the Facility role, names and organisation name as given. */
  function RegisteredFacility(v: FacilityRegistration, hash: string -> string): User {
    NewUser(v.email, v.phoneNumber, hash(v.password), Some(v.firstName), Some(v.lastName), Some(Facility),
            None, Some(v.organizationName))
  }

  /**
   * `registerFacility`, given the verdict of its body schema. A refused body is
   * 422 with nothing written. Otherwise the facility document is created; a
   * refused create (empty or taken address) is 500 with nothing sent; a created
   * facility gets one verification mail, and the answer is 201.
   */
  method RegisterFacility(db: Db, verdict: Validated<FacilityRegistration>, hash: string -> string) returns (reply: Reply)
    requires db.Valid()
    modifies db
    ensures db.Valid()
    ensures db.requests == old(db.requests)
    ensures verdict.Invalid? ==>
      reply == Reply(UnprocessableEntity, verdict.detail) && db.users == old(db.users) && db.outbox == old(db.outbox)
    ensures verdict.Valid? ==>
      var u := RegisteredFacility(verdict.value, hash);
      if u.emailAddress != "" && FindByEmail(old(db.users), verdict.value.email).None? then
        && reply == FacilityRegistered
        && db.users == old(db.users) + [u]
        && db.outbox == old(db.outbox) + [VerificationMail(verdict.value.email)]
      else
        reply == InternalError && db.users == old(db.users) && db.outbox == old(db.outbox)
  {
    match verdict
    case Invalid(d) =>
      return Reply(UnprocessableEntity, d);
    case Valid(v) =>
      var u := RegisteredFacility(v, hash);
      Text.NormalizeIdempotent(v.email);
      var ok := db.InsertUser(u);
      if !ok {
        return InternalError;
      }
      db.Send([VerificationMail(v.email)]);
      return FacilityRegistered;
  }

  /** One `$set` path: a value left undefined is stripped from the update, so the stored value stays. */
  function Overwrite(current: Option<string>, given: Option<string>): (r: Option<string>)
    ensures given.None? ==> r == current
    ensures given.Some? ==> r == given
  {
    if given.Some? then given else current
  }

  /** The profile fields of `completeDonorProfile` the model keeps, each possibly absent from the body. */
  datatype DonorProfile = DonorProfile(
    firstName: Option<string>, middleName: Option<string>, lastName: Option<string>, gender: Option<string>,
    bloodGroup: Option<string>, city: Option<string>, state: Option<string>, streetAddress: Option<string>)

  /**
   * The update `completeDonorProfile` writes: the given fields (names and
   * gender through their `trim` setter) and the verified flag. The completed
   * flag is not part of the update.
   */
  function ApplyDonorProfile(u: User, p: DonorProfile): (r: User)
    ensures r.isProfileVerified && r.isProfileComplete == u.isProfileComplete
    ensures r.emailAddress == u.emailAddress && r.userType == u.userType && r.password == u.password
    ensures r.isEmailVerified == u.isEmailVerified && r.isAccountSuspended == u.isAccountSuspended
    ensures r.eligibility == u.eligibility && r.organizationName == u.organizationName
    ensures r.profileDeclineVerificationReason == u.profileDeclineVerificationReason
    ensures p.firstName.Some? ==> r.firstName == Some(Text.Trim(p.firstName.value))
    ensures p.firstName.None? ==> r.firstName == u.firstName
    ensures p.middleName.Some? ==> r.middleName == Some(Text.Trim(p.middleName.value))
    ensures p.middleName.None? ==> r.middleName == u.middleName
    ensures p.lastName.Some? ==> r.lastName == Some(Text.Trim(p.lastName.value))
    ensures p.lastName.None? ==> r.lastName == u.lastName
    ensures p.gender.Some? ==> r.gender == Some(Text.Trim(p.gender.value))
    ensures p.gender.None? ==> r.gender == u.gender
    ensures p.bloodGroup.Some? ==> r.bloodGroup == p.bloodGroup
    ensures p.bloodGroup.None? ==> r.bloodGroup == u.bloodGroup
    ensures p.city.Some? ==> r.city == p.city
    ensures p.city.None? ==> r.city == u.city
    ensures p.state.Some? ==> r.state == p.state
    ensures p.state.None? ==> r.state == u.state
    ensures p.streetAddress.Some? ==> r.streetAddress == p.streetAddress
    ensures p.streetAddress.None? ==> r.streetAddress == u.streetAddress
    ensures r.phoneNumber == u.phoneNumber
  {
    u.(firstName := Overwrite(u.firstName, TrimPath(p.firstName)),
       middleName := Overwrite(u.middleName, TrimPath(p.middleName)),
       lastName := Overwrite(u.lastName, TrimPath(p.lastName)),
       gender := Overwrite(u.gender, TrimPath(p.gender)),
       bloodGroup := Overwrite(u.bloodGroup, p.bloodGroup),
       city := Overwrite(u.city, p.city),
       state := Overwrite(u.state, p.state),
       streetAddress := Overwrite(u.streetAddress, p.streetAddress),
       isProfileVerified := true)
  }

  /** The profile fields of `completeFacilityProfile` the model keeps. */
  datatype FacilityProfile = FacilityProfile(organizationName: Option<string>)

  /** The update `completeFacilityProfile` writes: the organisation name when given, and the completed flag. */
  function ApplyFacilityProfile(u: User, p: FacilityProfile): (r: User)
    ensures r.isProfileComplete && r.isProfileVerified == u.isProfileVerified
    ensures r.organizationName == Overwrite(u.organizationName, p.organizationName)
    ensures r.(organizationName := u.organizationName, isProfileComplete := u.isProfileComplete) == u
  {
    u.(organizationName := Overwrite(u.organizationName, p.organizationName), isProfileComplete := true)
  }

  /** Sending the same profile twice stores the same document as sending it once. */
  lemma {:induction false} CompletionsIdempotent(u: User, p: DonorProfile, f: FacilityProfile)
    ensures ApplyDonorProfile(ApplyDonorProfile(u, p), p) == ApplyDonorProfile(u, p)
    ensures ApplyFacilityProfile(ApplyFacilityProfile(u, f), f) == ApplyFacilityProfile(u, f)
  {
    forall s | s in [p.firstName, p.middleName, p.lastName, p.gender] && s.Some?
      ensures Text.Trim(Text.Trim(s.value)) == Text.Trim(s.value)
    {
      Text.TrimIdempotent(s.value);
    }
  }

  /** The two completions write disjoint fields, so their order does not matter. */
  lemma CompletionsCommute(u: User, p: DonorProfile, f: FacilityProfile)
    ensures ApplyFacilityProfile(ApplyDonorProfile(u, p), f) == ApplyDonorProfile(ApplyFacilityProfile(u, f), p)
  {
  }

  /** A newly registered account of either role is stopped by the profile gate as not completed. */
  lemma NewAccountNotCompleted(v: AuthValidation.DonorOnboarding, r: FacilityRegistration, hash: string -> string)
    ensures ProfileGate(RegisteredDonor(v, hash)) == Stop(Reply(Unauthorized, "Profile not completed"))
    ensures ProfileGate(RegisteredFacility(r, hash)) == Stop(Reply(Unauthorized, "Profile not completed"))
  {
  }

  /**
   * The donor completion alone never opens the profile gate, since it sets
   * only the verified flag: a donor who has only completed the donor profile
   * is still stopped as not completed.
   */
  lemma DonorCompletionAloneStopped(u: User, p: DonorProfile)
    requires !u.isProfileComplete
    ensures ProfileGate(ApplyDonorProfile(u, p)) == Stop(Reply(Unauthorized, "Profile not completed"))
  {
  }

  /**
   * Both completions, in either order, open the profile gate. A facility can
   * reach both routes (each has only the authentication middleware), so it
   * passes both the facility gate and the profile gate without any admin
   * verification.
   */
  lemma FacilitySelfVerifies(u: User, p: DonorProfile, f: FacilityProfile)
    requires u.userType == Facility
    ensures ProfileGate(ApplyFacilityProfile(ApplyDonorProfile(u, p), f)) == Next
    ensures ProfileGate(ApplyDonorProfile(ApplyFacilityProfile(u, f), p)) == Next
    ensures AuthorizeFacility(Some(ApplyFacilityProfile(ApplyDonorProfile(u, p), f))) == Next
  {
  }

  /**
   * `completeDonorProfile`, given the verdict of its body schema. A refused
   * body is 422; no caller id, or an id no user has, is 404; both with
   * nothing written. Otherwise the caller's document gets the update and the
   * answer is 200. Nothing is sent.
   */
  method CompleteDonorProfile(db: Db, caller: Option<Caller>, verdict: Validated<DonorProfile>) returns (reply: Reply)
    requires db.Valid()
    modifies db
    ensures db.Valid()
    ensures db.requests == old(db.requests) && db.outbox == old(db.outbox)
    ensures verdict.Invalid? ==> reply == Reply(UnprocessableEntity, verdict.detail) && db.users == old(db.users)
    ensures verdict.Valid? && (caller.None? || caller.value.id >= |old(db.users)|) ==>
      reply == UserNotFound && db.users == old(db.users)
    ensures verdict.Valid? && caller.Some? && caller.value.id < |old(db.users)| ==>
      var id := caller.value.id;
      reply == DonorProfileSaved && db.users == old(db.users)[id := ApplyDonorProfile(old(db.users)[id], verdict.value)]
  {
    match verdict
    case Invalid(d) =>
      return Reply(UnprocessableEntity, d);
    case Valid(p) =>
      if caller.None? || caller.value.id >= |db.users| {
        return UserNotFound;
      }
      var id := caller.value.id;
      db.SetUser(id, ApplyDonorProfile(db.users[id], p));
      return DonorProfileSaved;
  }

  /**
   * `completeFacilityProfile`, given the verdict of its body schema: as the
   * donor completion, with the facility update and its own success message.
   */
  method CompleteFacilityProfile(db: Db, caller: Option<Caller>, verdict: Validated<FacilityProfile>) returns (reply: Reply)
    requires db.Valid()
    modifies db
    ensures db.Valid()
    ensures db.requests == old(db.requests) && db.outbox == old(db.outbox)
    ensures verdict.Invalid? ==> reply == Reply(UnprocessableEntity, verdict.detail) && db.users == old(db.users)
    ensures verdict.Valid? && (caller.None? || caller.value.id >= |old(db.users)|) ==>
      reply == UserNotFound && db.users == old(db.users)
    ensures verdict.Valid? && caller.Some? && caller.value.id < |old(db.users)| ==>
      var id := caller.value.id;
      reply == FacilityProfileSaved && db.users == old(db.users)[id := ApplyFacilityProfile(old(db.users)[id], verdict.value)]
  {
    match verdict
    case Invalid(d) =>
      return Reply(UnprocessableEntity, d);
    case Valid(p) =>
      if caller.None? || caller.value.id >= |db.users| {
        return UserNotFound;
      }
      var id := caller.value.id;
      db.SetUser(id, ApplyFacilityProfile(db.users[id], p));
      return FacilityProfileSaved;
  }
}
