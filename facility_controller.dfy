/**
 * The facility's side: the donor search with its paging arithmetic, sending
 * a request to a donor, and listing the requests the caller sent.
 */
module FacilityController {

  import opened Wrappers
  import opened Interface
  import opened UserModel
  import opened RequestModel
  import opened Lifecycle
  import opened Notifications
  import opened Http
  import opened Query
  import opened Joi
  import opened FacilityValidation
  import opened Database
  import opened AuthMiddleware
  import Text

  /** The message of a created request. */
  const RequestSent := "Request has been sent successfully, You will be notified via email for Donors response"

  /** The generic answer of every handler's catch block. */
  const InternalError := Reply(InternalServerError, "An internal server error occurred")

  // ---------------------------------------------------------------- donor search

  /** The optional query-string filters of `getDonors`. */
  datatype DonorFilter = DonorFilter(gender: Option<string>, bloodGroup: Option<string>,
                                     city: Option<string>, state: Option<string>)

  /** A query-string value that JavaScript treats as true: present and not empty. */
  predicate Given(v: Option<string>) {
    v.Some? && v.value != ""
  }

  /**
   * The query `getDonors` builds, as a test on a user: always `userType =
   * "Donor"`, and each filter only when given. `gender` has a `trim` setter,
   * which Mongoose also applies to the query value.
   */
  predicate MatchesDonorQuery(u: User, f: DonorFilter) {
    && RoleName(u.userType) == "Donor"
    && (Given(f.gender) ==> u.gender == Some(Text.Trim(f.gender.value)))
    && (Given(f.bloodGroup) ==> u.bloodGroup == f.bloodGroup)
    && (Given(f.city) ==> u.city == f.city)
    && (Given(f.state) ==> u.state == f.state)
  }

  /** Without filters the search matches exactly the donors. */
  lemma UnfilteredMatchesDonors(u: User, f: DonorFilter)
    requires !Given(f.gender) && !Given(f.bloodGroup) && !Given(f.city) && !Given(f.state)
    ensures MatchesDonorQuery(u, f) <==> u.userType == Donor
  {
    RoleNameInjective(u.userType, Donor);
  }

  /** Giving one more filter can only narrow the search. */
  lemma FilterNarrows(u: User, f: DonorFilter, city: string)
    requires !Given(f.city)
    ensures MatchesDonorQuery(u, f.(city := Some(city))) ==> MatchesDonorQuery(u, f)
  {
  }

  /** The ids of the users the search matches, in store order. */
  function DonorIds(users: seq<User>, f: DonorFilter): (ids: seq<Id>)
    ensures forall k :: 0 <= k < |ids| ==> ids[k] < |users| && MatchesDonorQuery(users[ids[k]], f)
    ensures forall i :: 0 <= i < |users| && MatchesDonorQuery(users[i], f) ==> i in ids
    ensures forall j, k :: 0 <= j < k < |ids| ==> ids[j] < ids[k]
  {
    Select(users, (u: User) => MatchesDonorQuery(u, f))
  }

  // ---------------------------------------------------------------- paging

  /** A JavaScript number as the paging code can produce it. */
  datatype JsNumber = Finite(n: int) | Infinity | NaN

  /** `(page - 1) * limit`: not negative for a page from 1 on and a limit not negative. */
  function Skip(page: int, limit: int): (s: int)
    ensures page >= 1 && limit >= 0 ==> s >= 0
    ensures page == 1 ==> s == 0
  {
    (page - 1) * limit
  }

  /**
   * `Math.ceil(totalDonors / limit)`: for a positive limit the least page
   * count whose pages hold every donor; for a negative limit the ceiling of a
   * negative quotient; for limit 0, `Infinity` (or `NaN` when there are no
   * donors).
   */
  function TotalPages(total: nat, limit: int): (t: JsNumber)
    ensures limit > 0 ==> t.Finite? && (t.n - 1) * limit < total <= t.n * limit
    ensures limit < 0 ==> t.Finite? && t.n * limit <= total < (t.n - 1) * limit
    ensures limit == 0 ==> t == if total == 0 then NaN else Infinity
  {
    if limit > 0 then
      var q := (total + limit - 1) / limit;
      assert (q - 1) * limit == q * limit - limit;
      Finite(q)
    else if limit < 0 then
      var d := total / -limit;
      assert -d * limit == d * -limit;
      assert (-d - 1) * limit == d * -limit + -limit;
      Finite(-d)
    else if total == 0 then NaN
    else Infinity
  }

  /** `currentPage < totalPages ? currentPage + 1 : false`, with JavaScript's comparison against `Infinity` and `NaN`. */
  function NextPage(page: int, totalPages: JsNumber): (r: Option<int>)
    ensures r.Some? ==> r.value == page + 1
    ensures totalPages.Finite? ==> (r.Some? <==> page < totalPages.n)
    ensures totalPages.NaN? ==> r.None?
    ensures totalPages.Infinity? ==> r.Some?
  {
    match totalPages
    case Finite(n) => if page < n then Some(page + 1) else None
    case Infinity => Some(page + 1)
    case NaN => None
  }

  /** `currentPage > 1 ? currentPage - 1 : false`. */
  function PreviousPage(page: int): (r: Option<int>)
    ensures r.Some? <==> page > 1
    ensures r.Some? ==> r.value == page - 1
  {
    if page > 1 then Some(page - 1) else None
  }

  /** With a positive limit there is a next page exactly when donors remain beyond the current one. */
  lemma NextIffMoreDonors(page: int, total: nat, limit: int)
    requires limit > 0
    ensures NextPage(page, TotalPages(total, limit)).Some? <==> page * limit < total
  {
    var n := TotalPages(total, limit).n;
    if page < n {
      assert page <= n - 1;
      assert page * limit <= (n - 1) * limit;
    } else {
      assert page * limit >= n * limit;
    }
  }

  /** With limit 0 every page of a non-empty result has a next page. */
  lemma ZeroLimitNeverEnds(page: int, total: nat)
    requires total > 0
    ensures NextPage(page, TotalPages(total, 0)) == Some(page + 1)
  {
  }

  /** Going forward then back returns to the page one started on. */
  lemma PreviousOfNext(page: int, totalPages: JsNumber)
    requires page >= 1 && NextPage(page, totalPages).Some?
    ensures PreviousPage(NextPage(page, totalPages).value) == Some(page)
  {
  }

  /**
   * Mongo's `.skip(skip).limit(limit)` on a result: the documents from
   * position `skip` on, at most `|limit|` of them (a negative limit counts
   * as its absolute value, 0 as no limit).
   */
  function Window<T>(xs: seq<T>, skip: nat, limit: int): (w: seq<T>)
    ensures skip + |w| <= |xs| || w == []
    ensures forall k :: 0 <= k < |w| ==> w[k] == xs[skip + k]
    ensures limit != 0 ==> |w| <= if limit < 0 then -limit else limit
    ensures skip < |xs| && skip + |w| < |xs| ==> limit != 0 && |w| == if limit < 0 then -limit else limit
  {
    if skip >= |xs| then []
    else
      var room := |xs| - skip;
      var n := if limit == 0 then room
               else if limit < 0 then (if -limit < room then -limit else room)
               else (if limit < room then limit else room);
      xs[skip..skip + n]
  }

  /** With a positive limit the donor at position `j` of the result is on page `j / limit + 1`. */
  lemma PageOf<T>(xs: seq<T>, j: nat, limit: int)
    requires j < |xs| && limit > 0
    ensures Skip(j / limit + 1, limit) >= 0
    ensures var w := Window(xs, Skip(j / limit + 1, limit), limit);
            j % limit < |w| && w[j % limit] == xs[j]
  {
    var s := Skip(j / limit + 1, limit);
    assert s == (j / limit) * limit;
    assert j == s + j % limit;
  }

  /** The matching donors on the page starting at `skip`, as read (no password). */
  function DonorsOnPage(users: seq<User>, f: DonorFilter, skip: nat, limit: int): (ds: seq<User>)
    ensures forall k :: 0 <= k < |ds| ==> MatchesDonorQuery(ds[k], f) && ds[k].password.None?
    ensures limit != 0 ==> |ds| <= if limit < 0 then -limit else limit
    ensures var w := Window(DonorIds(users, f), skip, limit);
            |ds| == |w| && forall k :: 0 <= k < |w| ==> w[k] < |users| && ds[k] == ReadUser(users[w[k]])
  {
    var ids := DonorIds(users, f);
    var shown := Window(ids, skip, limit);
    assert forall k :: 0 <= k < |shown| ==> shown[k] == ids[skip + k];
    ReadKeepsMatches(users, shown, f);
    seq(|shown|, k requires 0 <= k < |shown| => ReadUser(users[shown[k]]))
  }

  /** Leaving the password out of a read does not change whether the search matches. */
  lemma ReadKeepsMatches(users: seq<User>, shown: seq<Id>, f: DonorFilter)
    requires forall k :: 0 <= k < |shown| ==> shown[k] < |users| && MatchesDonorQuery(users[shown[k]], f)
    ensures forall k :: 0 <= k < |shown| ==> MatchesDonorQuery(ReadUser(users[shown[k]]), f)
  {
  }

  /** The body of `getDonors`' answer. */
  datatype DonorPage = DonorPage(donors: seq<User>, totalDonors: nat, currentPage: int,
                                 next: Option<int>, previous: Option<int>)

  /**
   * `getDonors` on the parsed `page` and `limit` (1 and 10 when absent). A
   * negative skip makes the query fail: 500. Otherwise 200 with the page of
   * matching donors, their total, and the neighbouring pages.
   */
  function GetDonors(users: seq<User>, f: DonorFilter, page: Option<int>, limit: Option<int>): (r: (Reply, Option<DonorPage>))
    ensures r.1.None? <==> Skip(page.GetOr(1), limit.GetOr(10)) < 0
    ensures r.1.None? ==> r.0 == InternalError
    ensures r.1.Some? ==>
      var p := r.1.value;
      && r.0 == Reply(Ok, "Available donors fetched successfully")
      && p.currentPage == page.GetOr(1)
      && p.totalDonors == |DonorIds(users, f)|
      && (forall k :: 0 <= k < |p.donors| ==> MatchesDonorQuery(p.donors[k], f) && p.donors[k].password.None?)
      && (limit.GetOr(10) != 0 ==> |p.donors| <= if limit.GetOr(10) < 0 then -limit.GetOr(10) else limit.GetOr(10))
      && (var w := Window(DonorIds(users, f), Skip(page.GetOr(1), limit.GetOr(10)), limit.GetOr(10));
          |p.donors| == |w| && forall k :: 0 <= k < |w| ==> w[k] < |users| && p.donors[k] == ReadUser(users[w[k]]))
      && p.next == NextPage(page.GetOr(1), TotalPages(|DonorIds(users, f)|, limit.GetOr(10)))
      && p.previous == PreviousPage(page.GetOr(1))
  {
    var pg := page.GetOr(1);
    var lim := limit.GetOr(10);
    var skip := Skip(pg, lim);
    if skip < 0 then (InternalError, None)
    else
      var ids := DonorIds(users, f);
      var donors := DonorsOnPage(users, f, skip, lim);
      (Reply(Ok, "Available donors fetched successfully"),
       Some(DonorPage(donors, |ids|, pg, NextPage(pg, TotalPages(|ids|, lim)), PreviousPage(pg))))
  }

  /** With a positive limit, the donor at position `j` of the search is listed on page `j / limit + 1`. */
  lemma DonorListedOnItsPage(users: seq<User>, f: DonorFilter, j: nat, limit: int)
    requires j < |DonorIds(users, f)| && limit > 0
    ensures var r := GetDonors(users, f, Some(j / limit + 1), Some(limit));
            r.1.Some? && j % limit < |r.1.value.donors|
            && r.1.value.donors[j % limit] == ReadUser(users[DonorIds(users, f)[j]])
  {
    var ids := DonorIds(users, f);
    PageOf(ids, j, limit);
    PageEntry(users, f, j / limit + 1, limit, j % limit);
  }

  /** Entry `k` of a page's window is the `k`-th donor that page lists. */
  lemma PageEntry(users: seq<User>, f: DonorFilter, pg: int, limit: int, k: nat)
    requires Skip(pg, limit) >= 0 && k < |Window(DonorIds(users, f), Skip(pg, limit), limit)|
    ensures var r := GetDonors(users, f, Some(pg), Some(limit));
            var w := Window(DonorIds(users, f), Skip(pg, limit), limit);
            r.1.Some? && k < |r.1.value.donors| && w[k] < |users| && r.1.value.donors[k] == ReadUser(users[w[k]])
  {
  }

  // ---------------------------------------------------------------- sending a request

  /**
   * The fields `requestDonor` passes to `Request.create`: the facility's
   * organisation name and street address as the snapshot, the validated
   * date, information, collection type and blood group, the donor as
   * `sentTo` and the caller as `sentBy`. The validated `appointmentTime` is
   * not among them.
   */
  function RequestInputOf(c: Caller, donorId: Id, v: DonorRequestBody): RequestInput {
    RequestInput(
      sentTo := donorId,
      sentBy := c.id,
      organizationName := c.user.organizationName,
      organizationAddress := c.user.streetAddress,
      appointmentDate := Some(v.appointmentDate),
      appointmentTime := None,
      additionalInformation := v.additionalInformation,
      bloodGroupRequired := Some(v.bloodGroupRequired),
      bloodCollectionType := Some(v.bloodCollectionType))
  }

  /**
   * A request created from a valid body snapshots the facility's name and
   * address, links the donor and the caller, and carries no appointment time
   * even though the body had to supply one.
   */
  lemma CreatedRequestSnapshot(c: Caller, donorId: Id, body: Body, loadTime: Time)
    requires ValidateRequestDonor(body).Valid?
    requires Create(RequestInputOf(c, donorId, ValidateRequestDonor(body).value), loadTime).Some?
    ensures var r := Create(RequestInputOf(c, donorId, ValidateRequestDonor(body).value), loadTime).value;
      && Some(r.organizationName) == c.user.organizationName && Some(r.organizationAddress) == c.user.streetAddress
      && r.sentTo == donorId && r.sentBy == c.id && r.status == Pending
      && HasString(body, "appointmentTime") && Text.Trim(body["appointmentTime"].s) != ""
      && r.appointmentTime.None?
  {
  }

  /** The facility's request is created exactly when it has a non-empty organisation name and street address. */
  lemma CreateNeedsSnapshot(c: Caller, donorId: Id, body: Body, loadTime: Time)
    requires ValidateRequestDonor(body).Valid?
    ensures Create(RequestInputOf(c, donorId, ValidateRequestDonor(body).value), loadTime).Some? <==>
      Present(c.user.organizationName) && Present(c.user.streetAddress)
  {
  }

  /**
   * `requestDonor`. In order: no attached user is 404 "User not found"; an
   * unknown donor id is 404 "Donor not found" (the donor's role is not
   * looked at); a refused body is 422 with the first failure; a facility
   * without organisation name or street address fails the request schema,
   * 500. Otherwise the request is added, one mail goes to the donor, and the
   * answer is 201. Nothing is written on any failure.
   */
  method RequestDonor(db: Db, caller: Option<Caller>, donorId: Id, body: Body) returns (reply: Reply)
    requires db.Valid()
    modifies db
    ensures db.Valid()
    ensures db.users == old(db.users)
    ensures reply.code != Created ==> db.requests == old(db.requests) && db.outbox == old(db.outbox)
    ensures caller.None? ==> reply == Reply(NotFound, "User not found")
    ensures caller.Some? && donorId >= |db.users| ==> reply == Reply(NotFound, "Donor not found")
    ensures caller.Some? && donorId < |db.users| && ValidateRequestDonor(body).Invalid? ==>
      reply == Reply(UnprocessableEntity, ValidateRequestDonor(body).detail)
    ensures caller.Some? && donorId < |db.users| && ValidateRequestDonor(body).Valid? ==>
      var made := Create(RequestInputOf(caller.value, donorId, ValidateRequestDonor(body).value), db.loadTime);
      && (made.None? ==> reply == InternalError)
      && (made.Some? ==>
            && reply == Reply(Created, RequestSent)
            && db.requests == old(db.requests) + [made.value]
            && db.outbox == old(db.outbox) + [RequestMail(db.users[donorId].emailAddress, db.users[donorId].firstName,
                                                          caller.value.user.organizationName)])
  {
    if caller.None? {
      return Reply(NotFound, "User not found");
    }
    if donorId >= |db.users| {
      return Reply(NotFound, "Donor not found");
    }
    var verdict := ValidateRequestDonor(body);
    if verdict.Invalid? {
      return Reply(UnprocessableEntity, verdict.detail);
    }
    reply := SendRequest(db, caller.value, donorId, verdict.value);
  }

  /** The part of `requestDonor` after validation: create the request, then mail the donor. */
  method SendRequest(db: Db, c: Caller, donorId: Id, v: DonorRequestBody) returns (reply: Reply)
    requires db.Valid() && donorId < |db.users|
    modifies db
    ensures db.Valid()
    ensures db.users == old(db.users)
    ensures var made := Create(RequestInputOf(c, donorId, v), db.loadTime);
      && (made.None? ==> reply == InternalError && db.requests == old(db.requests) && db.outbox == old(db.outbox))
      && (made.Some? ==>
            && reply == Reply(Created, RequestSent)
            && db.requests == old(db.requests) + [made.value]
            && db.outbox == old(db.outbox) + [RequestMail(db.users[donorId].emailAddress, db.users[donorId].firstName,
                                                          c.user.organizationName)])
  {
    var donor := db.users[donorId];
    var input := RequestInputOf(c, donorId, v);
    var made := Create(input, db.loadTime);
    if made.None? {
      return InternalError;
    }
    CreatedIsConsistent(input, db.loadTime);
    db.InsertRequest(made.value);
    db.Send([RequestMail(donor.emailAddress, donor.firstName, c.user.organizationName)]);
    return Reply(Created, RequestSent);
  }

  // ---------------------------------------------------------------- listing sent requests

  /** The query of `getRequests`: sent by `facility`, and with the given status name when one is given. */
  predicate MatchesSent(r: Request, facility: Id, status: Option<string>) {
    r.sentBy == facility && (Given(status) ==> StatusName(r.status) == status.value)
  }

  /** The ids of the requests the query matches, in store order. */
  function SentIds(requests: seq<Request>, facility: Id, status: Option<string>): (ids: seq<Id>)
    ensures forall k :: 0 <= k < |ids| ==> ids[k] < |requests| && MatchesSent(requests[ids[k]], facility, status)
    ensures forall i :: 0 <= i < |requests| && MatchesSent(requests[i], facility, status) ==> i in ids
    ensures forall j, k :: 0 <= j < k < |ids| ==> ids[j] < ids[k]
  {
    Select(requests, (r: Request) => MatchesSent(r, facility, status))
  }

  /** The body of `getRequests`' answer. */
  datatype SentRequests = SentRequests(requests: seq<Request>, totalRequests: nat)

  /**
   * `getRequests`: 404 without an attached user; otherwise 200 with the
   * requests the caller sent, narrowed to one status when a status is given,
   * and their count.
   */
  function GetRequests(requests: seq<Request>, caller: Option<Caller>, status: Option<string>): (r: (Reply, Option<SentRequests>))
    ensures caller.None? ==> r == (Reply(NotFound, "User not found"), None)
    ensures caller.Some? ==> r.0 == Reply(Ok, "Requests fetched successfully") && r.1.Some?
    ensures caller.Some? ==>
      var out := r.1.value;
      && out.totalRequests == |out.requests|
      && (forall k :: 0 <= k < |out.requests| ==> MatchesSent(out.requests[k], caller.value.id, status))
      && (forall i :: 0 <= i < |requests| && MatchesSent(requests[i], caller.value.id, status) ==>
            requests[i] in out.requests)
    ensures caller.Some? ==>
      var out, ids := r.1.value, SentIds(requests, caller.value.id, status);
      && |out.requests| == |ids| && out.totalRequests == |ids|
      && forall k :: 0 <= k < |ids| ==> out.requests[k] == requests[ids[k]]
  {
    match caller
    case None => (Reply(NotFound, "User not found"), None)
    case Some(c) =>
      var ids := SentIds(requests, c.id, status);
      var found := Pick(requests, ids);
      assert forall i :: 0 <= i < |requests| && MatchesSent(requests[i], c.id, status) ==> requests[i] in found by {
        forall i | 0 <= i < |requests| && MatchesSent(requests[i], c.id, status) ensures requests[i] in found {
          var k :| 0 <= k < |ids| && ids[k] == i;
          assert found[k] == requests[i];
        }
      }
      (Reply(Ok, "Requests fetched successfully"), Some(SentRequests(found, |found|)))
  }

  /** A status that names none of the three matches no request. */
  lemma UnknownStatusMatchesNothing(requests: seq<Request>, caller: Caller, status: string)
    requires status != "" && ParseStatus(status).None?
    ensures GetRequests(requests, Some(caller), Some(status)).1.value.requests == []
  {
    forall i | 0 <= i < |requests| ensures !MatchesSent(requests[i], caller.id, Some(status)) {
      StatusRoundTrip(requests[i].status);
    }
    SelectNone(requests, (r: Request) => MatchesSent(r, caller.id, Some(status)));
  }
}
