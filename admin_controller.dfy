/** The admin's operations: login, the list of facilities awaiting verification, verifying and rejecting one. */
module AdminController {

  import opened Wrappers
  import opened Interface
  import opened UserModel
  import opened Notifications
  import opened Http
  import opened Query
  import opened Joi
  import opened AuthValidation
  import opened Database

  /** The answer of the admin handlers' catch blocks. */
  const InternalError := Reply(InternalServerError, "Internal server error")

  /** The answer for an unknown address and for a wrong password alike. */
  const BadCredentials := Reply(BadRequest, "Invalid email or password")

  /** The answer for a known address whose user is not an Admin. */
  const NotAdmin := Reply(Forbidden, "Admin permission required")

  /** The outcome of a login: a token carrying the user's id (200 "Admin Login successful"), or a refusal. */
  datatype LoginResult = Token(id: Id) | Denied(reply: Reply)

  /**
   * `loginAdmin`, `passwordMatches` standing for `bcrypt.compare`. In order:
   * a refused body is 422; an address no user has (after the schema's
   * normalization) is 400; a user who is not an Admin is 403, whatever the
   * password; an Admin without a stored hash makes the comparison throw, 500;
   * a wrong password is 400 with the same message as an unknown address;
   * otherwise a token for that Admin.
   */
  function LoginAdmin(users: seq<User>, body: Body, isEmail: string -> bool,
                      passwordMatches: (string, string) -> bool): (r: LoginResult)
    ensures AdminLogin(body, isEmail).Invalid? ==>
      r == Denied(Reply(UnprocessableEntity, AdminLogin(body, isEmail).detail))
    ensures AdminLogin(body, isEmail).Valid? ==>
      var (email, password) := AdminLogin(body, isEmail).value;
      var found := FindByEmail(users, email);
      && (found.None? ==> r == Denied(BadCredentials))
      && (found.Some? && users[found.value].userType != Admin ==> r == Denied(NotAdmin))
      && (found.Some? && users[found.value].userType == Admin && users[found.value].password.None? ==> r == Denied(InternalError))
      && (found.Some? && users[found.value].userType == Admin && users[found.value].password.Some? ==>
            r == if passwordMatches(password, users[found.value].password.value) then Token(found.value)
                 else Denied(BadCredentials))
    ensures r.Token? ==> r.id < |users| && users[r.id].userType == Admin
  {
    match AdminLogin(body, isEmail)
    case Invalid(d) => Denied(Reply(UnprocessableEntity, d))
    case Valid((email, password)) =>
      match FindByEmail(users, email)
      case None => Denied(BadCredentials)
      case Some(id) =>
        var u := users[id];
        RoleNameInjective(u.userType, Admin);
        if RoleName(u.userType) != "Admin" then Denied(NotAdmin)
        else if u.password.None? then Denied(InternalError)
        else if !passwordMatches(password, u.password.value) then Denied(BadCredentials)
        else Token(id)
  }

  /** The role is checked before the password: a known non-Admin address gets 403 whatever password is sent. */
  lemma RoleCheckedBeforePassword(users: seq<User>, body: Body, isEmail: string -> bool,
                                  m1: (string, string) -> bool, m2: (string, string) -> bool)
    requires AdminLogin(body, isEmail).Valid?
    requires var found := FindByEmail(users, AdminLogin(body, isEmail).value.0);
             found.Some? && users[found.value].userType != Admin
    ensures LoginAdmin(users, body, isEmail, m1) == LoginAdmin(users, body, isEmail, m2)
    ensures LoginAdmin(users, body, isEmail, m1) == Denied(NotAdmin)
  {
  }

  /** `getUnverifiedFacilities`: the ids of exactly the Facility users whose profile is not verified, in store order. */
  function GetUnverifiedFacilities(users: seq<User>): (ids: seq<Id>)
    ensures forall k :: 0 <= k < |ids| ==>
      ids[k] < |users| && users[ids[k]].userType == Facility && !users[ids[k]].isProfileVerified
    ensures forall i :: 0 <= i < |users| && users[i].userType == Facility && !users[i].isProfileVerified ==> i in ids
    ensures forall j, k :: 0 <= j < k < |ids| ==> ids[j] < ids[k]
  {
    Select(users, (u: User) => RoleName(u.userType) == "Facility" && !u.isProfileVerified)
  }

  /** The change `verifyFacility` writes. */
  function Verify(u: User): User {
    u.(isProfileVerified := true)
  }

  /** The change `rejectFacility` writes. */
  function Decline(u: User, reason: string): User {
    u.(isProfileVerified := false, profileDeclineVerificationReason := Some(reason))
  }

  /** A verified user leaves the list of unverified facilities. */
  lemma VerifiedLeavesList(users: seq<User>, id: Id)
    requires id < |users|
    ensures id !in GetUnverifiedFacilities(users[id := Verify(users[id])])
  {
  }

  /** A declined facility is on the list again, with the new reason; repeating a decline only replaces the reason. */
  lemma DeclinedFacilityListed(users: seq<User>, id: Id, reason: string, again: string)
    requires id < |users| && users[id].userType == Facility
    ensures id in GetUnverifiedFacilities(users[id := Decline(users[id], reason)])
    ensures Decline(Decline(users[id], reason), again) == Decline(users[id], again)
  {
    var after := users[id := Decline(users[id], reason)];
    assert after[id].userType == Facility && !after[id].isProfileVerified;
  }

  /**
   * `verifyFacility`. An unknown id is 404 with nothing written. Otherwise
   * only the verified flag is set (again, if it already was, and whatever
   * the user's role), one mail goes to the user with its organisation name,
   * and the answer is 200.
   */
  method VerifyFacility(db: Db, facilityId: Id) returns (reply: Reply)
    requires db.Valid()
    modifies db
    ensures db.Valid()
    ensures db.requests == old(db.requests)
    ensures facilityId >= |old(db.users)| ==>
      reply == Reply(NotFound, "Facility not found") && db.users == old(db.users) && db.outbox == old(db.outbox)
    ensures facilityId < |old(db.users)| ==>
      var u := old(db.users)[facilityId];
      && reply == Reply(Ok, "Facility verified successfully")
      && db.users == old(db.users)[facilityId := Verify(u)]
      && db.outbox == old(db.outbox) + [ProfileVerifiedMail(u.emailAddress, u.organizationName)]
  {
    if facilityId >= |db.users| {
      return Reply(NotFound, "Facility not found");
    }
    var u := db.users[facilityId];
    db.SetUser(facilityId, Verify(u));
    db.Send([ProfileVerifiedMail(u.emailAddress, u.organizationName)]);
    return Reply(Ok, "Facility verified successfully");
  }

  /**
   * `rejectFacility`. The body is validated first: a refused body is 422
   * before any look-up. The user is the one named by the path's
   * `facilityId`; the body's `facilityId` is required but not used. An
   * unknown id is 404 with nothing written. Otherwise the verified flag is
   * cleared and the reason recorded, one mail with the reason goes to the
   * user, and the answer is 200.
   */
  method RejectFacility(db: Db, facilityId: Id, body: Body) returns (reply: Reply)
    requires db.Valid()
    modifies db
    ensures db.Valid()
    ensures db.requests == old(db.requests)
    ensures AuthValidation.RejectFacility(body).Invalid? ==>
      reply == Reply(UnprocessableEntity, AuthValidation.RejectFacility(body).detail)
      && db.users == old(db.users) && db.outbox == old(db.outbox)
    ensures AuthValidation.RejectFacility(body).Valid? && facilityId >= |old(db.users)| ==>
      reply == Reply(NotFound, "Facility not found") && db.users == old(db.users) && db.outbox == old(db.outbox)
    ensures AuthValidation.RejectFacility(body).Valid? && facilityId < |old(db.users)| ==>
      var u := old(db.users)[facilityId];
      var reason := AuthValidation.RejectFacility(body).value;
      && reply == Reply(Ok, "Facility verification rejected")
      && db.users == old(db.users)[facilityId := Decline(u, reason)]
      && db.outbox == old(db.outbox) + [ProfileDeclineMail(u.emailAddress, u.organizationName, reason)]
  {
    match AuthValidation.RejectFacility(body)
    case Invalid(d) =>
      return Reply(UnprocessableEntity, d);
    case Valid(reason) =>
      if facilityId >= |db.users| {
        return Reply(NotFound, "Facility not found");
      }
      var u := db.users[facilityId];
      db.SetUser(facilityId, Decline(u, reason));
      db.Send([ProfileDeclineMail(u.emailAddress, u.organizationName, reason)]);
      return Reply(Ok, "Facility verification rejected");
  }
}
