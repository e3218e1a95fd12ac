/**
 * `authMiddleware`: from the Authorization header to an attached user or a
 * 401/404 answer, with the token verifier as a parameter; and the admin role
 * gate.
 */
module AuthMiddleware {

  import opened Wrappers
  import opened Interface
  import opened UserModel
  import opened Http
  import Text

  /** What `jwt.verify` makes of a token: the id it carries, an expiry error, or any other failure. */
  datatype TokenVerdict = Verified(id: Id) | Expired | Malformed

  /** The user a request carries once authenticated: its id and the document as read (no password). */
  datatype Caller = Caller(id: Id, user: User)

  /** The outcome of `authMiddleware`. */
  datatype AuthResult = Authenticated(caller: Caller) | Refused(reply: Reply)

  /** `req.header("Authorization")?.replace("Bearer ", "")`. */
  function ExtractToken(header: Option<string>): (t: Option<string>)
    ensures t.Some? <==> header.Some?
    ensures t.Some? ==> t.value == Text.ReplaceFirst(header.value, "Bearer ", "")
  {
    match header
    case None => None
    case Some(h) => Some(Text.ReplaceFirst(h, "Bearer ", ""))
  }

  /**
   * The answer for a header: 401 "No token provided" for a missing header or
   * an empty token; else by the verifier's verdict: an id naming a stored
   * user attaches that user as read, an id naming none is 404 "User not
   * found", an expired token is 401 "Token expired" and any other failure
   * 401 "Invalid token".
   */
  function Authenticate(header: Option<string>, verify: string -> TokenVerdict, users: seq<User>): (r: AuthResult)
    ensures ExtractToken(header) in {None, Some("")} ==> r == Refused(Reply(Unauthorized, "No token provided"))
    ensures r.Authenticated? ==>
      && ExtractToken(header).Some? && ExtractToken(header).value != ""
      && verify(ExtractToken(header).value) == Verified(r.caller.id)
      && r.caller.id < |users| && r.caller.user == ReadUser(users[r.caller.id])
    ensures ExtractToken(header).Some? && ExtractToken(header).value != "" ==>
      var v := verify(ExtractToken(header).value);
      && (v.Verified? && v.id < |users| ==> r == Authenticated(Caller(v.id, ReadUser(users[v.id]))))
      && (v.Verified? && v.id >= |users| ==> r == Refused(Reply(NotFound, "User not found")))
      && (v.Expired? ==> r == Refused(Reply(Unauthorized, "Token expired")))
      && (v.Malformed? ==> r == Refused(Reply(Unauthorized, "Invalid token")))
  {
    var token := ExtractToken(header);
    if token.None? || token.value == "" then Refused(Reply(Unauthorized, "No token provided"))
    else
      match verify(token.value)
      case Verified(id) =>
        if id < |users| then Authenticated(Caller(id, ReadUser(users[id])))
        else Refused(Reply(NotFound, "User not found"))
      case Expired => Refused(Reply(Unauthorized, "Token expired"))
      case Malformed => Refused(Reply(Unauthorized, "Invalid token"))
  }

  /** A "Bearer " header yields the rest of the header as the token. */
  lemma {:induction false} BearerStripped(t: string)
    ensures ExtractToken(Some("Bearer " + t)) == Some(t)
  {
    var h := "Bearer " + t;
    assert h[0..|"Bearer "|] == "Bearer ";
    assert Text.OccursAt(h, "Bearer ", 0);
    assert h[..0] + "" + h[|"Bearer "|..] == t;
  }

  /** A header without "Bearer " in it is used whole as the token. */
  lemma NoBearerKept(h: string)
    requires forall i: nat :: !Text.OccursAt(h, "Bearer ", i)
    ensures ExtractToken(Some(h)) == Some(h)
  {
  }

  /** The header "Bearer " alone carries an empty token and is refused as missing. */
  lemma BareBearerRefused(verify: string -> TokenVerdict, users: seq<User>)
    ensures Authenticate(Some("Bearer "), verify, users) == Refused(Reply(Unauthorized, "No token provided"))
  {
    BearerStripped("");
  }

  /**
   * `authorizeAdmin`: on only for an Admin; 403 for any other role; 401 when
   * no user is attached.
   */
  function AuthorizeAdmin(user: Option<User>): (g: Gate)
    ensures g.Next? <==> user.Some? && user.value.userType == Admin
    ensures user.Some? && user.value.userType != Admin ==> g == Stop(Reply(Forbidden, "Admin authorization needed"))
    ensures user.None? ==> g == Stop(Reply(Unauthorized, "An unexpected error has occurred"))
  {
    match user
    case None => Stop(Reply(Unauthorized, "An unexpected error has occurred"))
    case Some(u) =>
      if RoleName(u.userType) != "Admin" then Stop(Reply(Forbidden, "Admin authorization needed")) else Next
  }
}
