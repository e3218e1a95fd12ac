/**
 * The donor's side of a request: listing the requests addressed to the
 * caller, accepting one and rejecting one. No operation compares the caller
 * with the request's `sentTo`: the ownership check is commented out.
 */
module DonorController {

  import opened Wrappers
  import opened Interface
  import opened UserModel
  import opened RequestModel
  import opened Lifecycle
  import opened Notifications
  import opened Http
  import opened Query
  import opened Database
  import opened AuthMiddleware

  /** The generic answer of every handler's catch block. */
  const InternalError := Reply(InternalServerError, "An internal server error occurred")

  /** A request with its `sentBy` populated: the sender's document as read, or `None` when it is gone. */
  datatype Populated = Populated(request: Request, sender: Option<User>)

  /** `User.findById` as a normal read. */
  function FindUser(users: seq<User>, id: Id): (r: Option<User>)
    ensures r.Some? <==> id < |users|
    ensures r.Some? ==> r.value == ReadUser(users[id])
  {
    if id < |users| then Some(ReadUser(users[id])) else None
  }

  /** The requests with the given ids, each with its sender. */
  function Populate(requests: seq<Request>, users: seq<User>, ids: seq<Id>): (r: seq<Populated>)
    requires forall k :: 0 <= k < |ids| ==> ids[k] < |requests|
    ensures |r| == |ids|
    ensures forall k :: 0 <= k < |ids| ==>
      r[k].request == requests[ids[k]] && r[k].sender == FindUser(users, requests[ids[k]].sentBy)
  {
    seq(|ids|, k requires 0 <= k < |ids| => Populated(requests[ids[k]], FindUser(users, requests[ids[k]].sentBy)))
  }

  /** The ids of the requests addressed to `donor`. */
  function AddressedTo(requests: seq<Request>, donor: Id): (ids: seq<Id>)
    ensures forall k :: 0 <= k < |ids| ==> ids[k] < |requests| && requests[ids[k]].sentTo == donor
    ensures forall i :: 0 <= i < |requests| && requests[i].sentTo == donor ==> i in ids
    ensures forall j, k :: 0 <= j < k < |ids| ==> ids[j] < ids[k]
  {
    Select(requests, (q: Request) => q.sentTo == donor)
  }

  /** Every request addressed to `donor` is among those populated from `AddressedTo`. */
  lemma PopulateComplete(requests: seq<Request>, users: seq<User>, ids: seq<Id>, donor: Id)
    requires ids == AddressedTo(requests, donor)
    ensures forall i :: 0 <= i < |requests| && requests[i].sentTo == donor ==>
      exists k :: 0 <= k < |ids| && Populate(requests, users, ids)[k].request == requests[i]
  {
    var found := Populate(requests, users, ids);
    forall i | 0 <= i < |requests| && requests[i].sentTo == donor
      ensures exists k :: 0 <= k < |ids| && found[k].request == requests[i]
    {
      var k :| 0 <= k < |ids| && ids[k] == i;
      assert found[k].request == requests[i];
    }
  }

  /**
   * `fetchRequests`: every request whose `sentTo` is the caller, whatever its
   * status, in store order, each with its sender; 500 when no user is attached.
   */
  function FetchRequests(requests: seq<Request>, users: seq<User>, caller: Option<Caller>): (r: (Reply, seq<Populated>))
    ensures caller.None? ==> r == (InternalError, [])
    ensures caller.Some? ==> r.0 == Reply(Ok, "Requests fetched successfully")
    ensures caller.Some? ==> forall k :: 0 <= k < |r.1| ==>
      r.1[k].request.sentTo == caller.value.id && r.1[k].sender == FindUser(users, r.1[k].request.sentBy)
    ensures caller.Some? ==> forall i :: 0 <= i < |requests| && requests[i].sentTo == caller.value.id ==>
      exists k :: 0 <= k < |r.1| && r.1[k].request == requests[i]
    ensures caller.Some? ==>
      var ids := AddressedTo(requests, caller.value.id);
      |r.1| == |ids| && forall k :: 0 <= k < |ids| ==> r.1[k].request == requests[ids[k]]
  {
    match caller
    case None => (InternalError, [])
    case Some(c) =>
      var ids := AddressedTo(requests, c.id);
      var found := Populate(requests, users, ids);
      PopulateComplete(requests, users, ids, c.id);
      (Reply(Ok, "Requests fetched successfully"), found)
  }

  /**
   * The two mails of an acceptance: to the facility, then the appointment to
   * the caller. The appointment goes to the caller's address, which is the
   * addressed donor's only when the caller is that donor.
   */
  function AcceptMails(r: Request, donor: User, facility: User): (m: seq<Event>)
    ensures |m| == 2
    ensures m[0] == AcceptanceMail(facility.emailAddress, r.organizationName, DonorFullName(donor), r.appointmentDate)
    ensures m[1] == AppointmentMail(donor.emailAddress, DonorFullName(donor), r.organizationName,
                                    r.appointmentDate, r.appointmentTime, r.organizationAddress, facility.phoneNumber)
  {
    var name := DonorFullName(donor);
    [AcceptanceMail(facility.emailAddress, r.organizationName, name, r.appointmentDate),
     AppointmentMail(donor.emailAddress, name, r.organizationName, r.appointmentDate, r.appointmentTime,
                     r.organizationAddress, facility.phoneNumber)]
  }

  /**
   * `acceptRequest`. An unknown id is 404 and an Accepted request 409, with
   * nothing written. Otherwise (Pending or Rejected) status and response time
   * are written, the rejection reason is kept, and then: with no user attached
   * or no stored sender the handler fails with 500 after the write and sends
   * nothing; else the two acceptance mails are sent and the answer is 200.
   */
  method AcceptRequest(db: Db, caller: Option<Caller>, requestId: Id, now: Time) returns (reply: Reply)
    requires db.Valid()
    modifies db
    ensures db.Valid()
    ensures db.users == old(db.users)
    ensures requestId >= |old(db.requests)| ==>
      reply == Reply(NotFound, "Invalid request") && db.requests == old(db.requests) && db.outbox == old(db.outbox)
    ensures requestId < |old(db.requests)| && old(db.requests)[requestId].status == Accepted ==>
      reply == Reply(Conflict, "This request is has been accepted initially")
      && db.requests == old(db.requests) && db.outbox == old(db.outbox)
    ensures requestId < |old(db.requests)| && old(db.requests)[requestId].status != Accepted ==>
      var r := old(db.requests)[requestId];
      && db.requests == old(db.requests)[requestId := r.(status := Accepted, respondedAt := Some(now))]
      && (caller.Some? && r.sentBy < |db.users| ==>
            reply == Reply(Ok, "Request accepted successfully")
            && db.outbox == old(db.outbox) + AcceptMails(r, caller.value.user, db.users[r.sentBy]))
      && (caller.None? || r.sentBy >= |db.users| ==> reply == InternalError && db.outbox == old(db.outbox))
  {
    if requestId >= |db.requests| {
      return Reply(NotFound, "Invalid request");
    }
    var r := db.requests[requestId];
    match Respond(r, Accept, now)
    case None =>
      return Reply(Conflict, "This request is has been accepted initially");
    case Some(updated) =>
      RespondKeepsConsistent(r, Accept, now);
      db.SetRequest(requestId, updated);
      if caller.None? || r.sentBy >= |db.users| {
        return InternalError;
      }
      var facility := db.users[r.sentBy];
      db.Send(AcceptMails(r, caller.value.user, facility));
      return Reply(Ok, "Request accepted successfully");
  }

  /**
   * `rejectRequest`. `reason` is the verdict of `rejectRequestSchema` on the
   * body; a refused body ends in 500 (the handler has no validation branch)
   * before any look-up. An unknown id is 404 and a Rejected request 409, with
   * nothing written. Otherwise (Pending or Accepted) status, response time and
   * reason are written, and then: with no user attached or no stored sender
   * the handler fails with 500 after the write; else the decline mail, with
   * the reason, goes to the sender and the answer is 200.
   */
  method RejectRequest(db: Db, caller: Option<Caller>, requestId: Id, reason: Option<string>, now: Time)
    returns (reply: Reply)
    requires db.Valid()
    modifies db
    ensures db.Valid()
    ensures db.users == old(db.users)
    ensures reason.None? ==>
      reply == InternalError && db.requests == old(db.requests) && db.outbox == old(db.outbox)
    ensures reason.Some? && requestId >= |old(db.requests)| ==>
      reply == Reply(NotFound, "Invalid request") && db.requests == old(db.requests) && db.outbox == old(db.outbox)
    ensures reason.Some? && requestId < |old(db.requests)| && old(db.requests)[requestId].status == Rejected ==>
      reply == Reply(Conflict, "This request is has been rejected initially")
      && db.requests == old(db.requests) && db.outbox == old(db.outbox)
    ensures reason.Some? && requestId < |old(db.requests)| && old(db.requests)[requestId].status != Rejected ==>
      var r := old(db.requests)[requestId];
      && db.requests == old(db.requests)[requestId :=
           r.(status := Rejected, respondedAt := Some(now), rejectionReason := Some(reason.value))]
      && (caller.Some? && r.sentBy < |db.users| ==>
            reply == Reply(Ok, "Request decline successfully")
            && db.outbox == old(db.outbox) + [DeclineMail(db.users[r.sentBy].emailAddress, r.organizationName,
                                                          DonorFullName(caller.value.user), reason.value)])
      && (caller.None? || r.sentBy >= |db.users| ==> reply == InternalError && db.outbox == old(db.outbox))
  {
    if reason.None? {
      return InternalError;
    }
    if requestId >= |db.requests| {
      return Reply(NotFound, "Invalid request");
    }
    var r := db.requests[requestId];
    match Respond(r, Reject(reason.value), now)
    case None =>
      return Reply(Conflict, "This request is has been rejected initially");
    case Some(updated) =>
      RespondKeepsConsistent(r, Reject(reason.value), now);
      db.SetRequest(requestId, updated);
      if caller.None? || r.sentBy >= |db.users| {
        return InternalError;
      }
      var facility := db.users[r.sentBy];
      db.Send([DeclineMail(facility.emailAddress, r.organizationName, DonorFullName(caller.value.user), reason.value)]);
      return Reply(Ok, "Request decline successfully");
  }
}
