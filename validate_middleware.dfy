/** The facility role gate and the ordered profile gate. */
module ValidateMiddleware {

  import opened Wrappers
  import opened Interface
  import opened UserModel
  import opened Http

  /** One entry of the profile check list: when `condition` holds, the request is answered with `message`. */
  datatype Check = Check(condition: bool, message: string)

  /** The check list of `profileCheck`, in order: completion first, then verification. */
  function ProfileChecks(u: User): seq<Check> {
    [Check(!u.isProfileComplete, "Profile not completed"), Check(!u.isProfileVerified, "Profile not verified")]
  }

  /** The message of the first check whose condition holds, if any. */
  function FirstFailure(checks: seq<Check>): (r: Option<string>)
    ensures r.None? <==> forall i :: 0 <= i < |checks| ==> !checks[i].condition
    ensures r.Some? ==> exists i :: 0 <= i < |checks| && checks[i].condition && checks[i].message == r.value
                                    && forall j :: 0 <= j < i ==> !checks[j].condition
  {
    if checks == [] then None
    else if checks[0].condition then Some(checks[0].message)
    else
      var rest := FirstFailure(checks[1..]);
      assert forall i :: 1 <= i < |checks| ==> checks[1..][i - 1] == checks[i];
      rest
  }

  /**
   * What `profileCheck` decides: 401 "Profile not completed" whenever the
   * profile is incomplete, whatever the verified flag; 401 "Profile not
   * verified" when it is complete but unverified; on only when both flags hold.
   */
  function ProfileGate(u: User): (g: Gate)
    ensures !u.isProfileComplete ==> g == Stop(Reply(Unauthorized, "Profile not completed"))
    ensures u.isProfileComplete && !u.isProfileVerified ==> g == Stop(Reply(Unauthorized, "Profile not verified"))
    ensures g.Next? <==> u.isProfileComplete && u.isProfileVerified
  {
    var checks := ProfileChecks(u);
    assert checks[0] == Check(!u.isProfileComplete, "Profile not completed");
    assert checks[1] == Check(!u.isProfileVerified, "Profile not verified");
    match FirstFailure(checks)
    case None => Next
    case Some(m) => Stop(Reply(Unauthorized, m))
  }

  /** `profileCheck`: walks the check list and answers at the first failing check. */
  method ProfileCheck(u: User) returns (g: Gate)
    ensures g == ProfileGate(u)
  {
    var checks := ProfileChecks(u);
    for i := 0 to |checks|
      invariant forall j :: 0 <= j < i ==> !checks[j].condition
    {
      if checks[i].condition {
        return Stop(Reply(Unauthorized, checks[i].message));
      }
    }
    return Next;
  }

  /**
   * `authorizeFacility`: on only for a Facility; 403 for any other role; 401
   * when no user is attached (reading its role throws and the handler answers).
   */
  function AuthorizeFacility(user: Option<User>): (g: Gate)
    ensures g.Next? <==> user.Some? && user.value.userType == Facility
    ensures user.Some? && user.value.userType != Facility ==> g == Stop(Reply(Forbidden, "Facility authorization required"))
    ensures user.None? ==> g == Stop(Reply(Unauthorized, "An unexpected error has occurred"))
  {
    match user
    case None => Stop(Reply(Unauthorized, "An unexpected error has occurred"))
    case Some(u) =>
      if RoleName(u.userType) != "Facility" then Stop(Reply(Forbidden, "Facility authorization required")) else Next
  }
}
