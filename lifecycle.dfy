/**
 * The request state machine as the donor controller implements it. The
 * guards are the ones written in the code: accepting refuses only a request
 * that is already Accepted, rejecting refuses only one already Rejected, and
 * no guard looks at who responds. So a Rejected request can still be
 * accepted and an Accepted one rejected.
 */
module Lifecycle {

  import opened Wrappers
  import opened Interface
  import opened RequestModel

  /** A donor's response to a request. */
  datatype Decision = Accept | Reject(reason: string)

  /** The status a decision writes. */
  function Target(d: Decision): Status {
    if d.Accept? then Accepted else Rejected
  }

  /** The conflict guard: a decision is refused exactly when the request already has its target status. */
  predicate Conflicts(r: Request, d: Decision) {
    r.status == Target(d)
  }

  /** What a response writes: status and response time, and for a rejection the reason. */
  function Write(r: Request, d: Decision, now: Time): Request {
    match d
    case Accept => r.(status := Accepted, respondedAt := Some(now))
    case Reject(reason) => r.(status := Rejected, respondedAt := Some(now), rejectionReason := Some(reason))
  }

  /**
   * One response: `None` is the 409 conflict (nothing written), otherwise the
   * updated request.
   */
  function Respond(r: Request, d: Decision, now: Time): (r': Option<Request>)
    ensures r'.None? <==> (d.Accept? && r.status == Accepted) || (d.Reject? && r.status == Rejected)
    ensures r'.Some? ==> r'.value.status == Target(d) && r'.value.respondedAt == Some(now)
    ensures r'.Some? && d.Reject? ==> r'.value.rejectionReason == Some(d.reason)
    ensures r'.Some? && d.Accept? ==> r'.value.rejectionReason == r.rejectionReason
    ensures r'.Some? ==> SameSnapshot(r, r'.value)
  {
    if Conflicts(r, d) then None else Some(Write(r, d, now))
  }

  /** Everything a response does not write is the same in both requests. */
  predicate SameSnapshot(a: Request, b: Request) {
    a.sentTo == b.sentTo && a.sentBy == b.sentBy
    && a.organizationName == b.organizationName && a.organizationAddress == b.organizationAddress
    && a.appointmentDate == b.appointmentDate && a.appointmentTime == b.appointmentTime
    && a.additionalInformation == b.additionalInformation
    && a.bloodGroupRequired == b.bloodGroupRequired && a.bloodCollectionType == b.bloodCollectionType
    && a.createdAt == b.createdAt
  }

  /**
   * The invariant every stored request keeps: it has a response time exactly
   * when it is no longer Pending, a Rejected request carries a reason, and the
   * required paths are filled.
   */
  predicate Consistent(r: Request) {
    WellFormed(r)
    && (r.respondedAt.Some? <==> r.status != Pending)
    && (r.status == Rejected ==> r.rejectionReason.Some?)
  }

  /** A freshly created request is consistent. */
  lemma CreatedIsConsistent(input: RequestInput, loadTime: Time)
    requires Create(input, loadTime).Some?
    ensures Consistent(Create(input, loadTime).value)
  {
  }

  /** A single response keeps the invariant. */
  lemma RespondKeepsConsistent(r: Request, d: Decision, now: Time)
    requires Consistent(r) && Respond(r, d, now).Some?
    ensures Consistent(Respond(r, d, now).value)
  {
  }

  /** A sequence of responses, each at its own time; a conflicting one changes nothing. */
  function Run(r: Request, ds: seq<(Decision, Time)>): Request
    decreases |ds|
  {
    if ds == [] then r
    else
      var next := Respond(r, ds[0].0, ds[0].1);
      Run(next.GetOr(r), ds[1..])
  }

  /** Every sequence of responses keeps the invariant and the snapshot. */
  lemma {:induction false} RunKeepsConsistent(r: Request, ds: seq<(Decision, Time)>)
    requires Consistent(r)
    ensures Consistent(Run(r, ds)) && SameSnapshot(r, Run(r, ds))
    decreases |ds|
  {
    if ds != [] {
      var next := Respond(r, ds[0].0, ds[0].1);
      if next.Some? { RespondKeepsConsistent(r, ds[0].0, ds[0].1); }
      RunKeepsConsistent(next.GetOr(r), ds[1..]);
    }
  }

  /** After at least one response the status is the target of the LAST decision, whatever came before. */
  lemma {:induction false} RunEndsInLastTarget(r: Request, ds: seq<(Decision, Time)>)
    requires ds != []
    ensures Run(r, ds).status == Target(ds[|ds| - 1].0)
    decreases |ds|
  {
    if |ds| > 1 {
      var next := Respond(r, ds[0].0, ds[0].1);
      RunEndsInLastTarget(next.GetOr(r), ds[1..]);
      assert ds[1..][|ds[1..]| - 1] == ds[|ds| - 1];
    }
  }

  /** A request returns to Pending never: it is Pending after a run only if it was and the run was empty. */
  lemma {:induction false} PendingOnlyBeforeResponses(r: Request, ds: seq<(Decision, Time)>)
    ensures Run(r, ds).status == Pending <==> r.status == Pending && ds == []
  {
    if ds != [] { RunEndsInLastTarget(r, ds); }
  }

  /** Accepting is refused only for an Accepted request; a Rejected one can be accepted. */
  lemma AcceptAfterReject(r: Request, now: Time)
    requires r.status == Rejected
    ensures Respond(r, Accept, now).Some?
    ensures Respond(r, Accept, now).value.status == Accepted
    ensures Respond(r, Accept, now).value.rejectionReason == r.rejectionReason
  {
  }

  /** Rejecting is refused only for a Rejected request; an Accepted one can be rejected. */
  lemma RejectAfterAccept(r: Request, reason: string, now: Time)
    requires r.status == Accepted
    ensures Respond(r, Reject(reason), now) == Some(r.(status := Rejected, respondedAt := Some(now), rejectionReason := Some(reason)))
  {
  }

  /** A rejection followed by an acceptance leaves an Accepted request that still carries the old reason. */
  lemma StaleReasonAfterReaccept(r: Request, reason: string, t1: Time, t2: Time)
    requires r.status == Pending
    ensures Run(r, [(Reject(reason), t1), (Accept, t2)]).status == Accepted
    ensures Run(r, [(Reject(reason), t1), (Accept, t2)]).rejectionReason == Some(reason)
    ensures Run(r, [(Reject(reason), t1), (Accept, t2)]).respondedAt == Some(t2)
  {
    var ds := [(Reject(reason), t1), (Accept, t2)];
    var r1 := Respond(r, Reject(reason), t1).value;
    assert ds[1..] == [(Accept, t2)];
    assert Run(r, ds) == Run(r1, [(Accept, t2)]);
    var r2 := Respond(r1, Accept, t2).value;
    assert [(Accept, t2)][1..] == [];
    assert Run(r1, [(Accept, t2)]) == Run(r2, []) == r2;
  }

  /** Repeating a decision yields a conflict and leaves the request as it was. */
  lemma RepeatConflicts(r: Request, d: Decision, t1: Time, t2: Time)
    requires Respond(r, d, t1).Some?
    ensures Respond(Respond(r, d, t1).value, d, t2).None?
  {
  }
}
