/**
 * The store: the user collection, the request collection and the outbox of
 * mails sent, with the writes the controllers perform. A document's id is
 * its position in its collection.
 */
module Database {

  import opened Wrappers
  import opened Interface
  import opened UserModel
  import opened RequestModel
  import opened Lifecycle
  import opened Notifications
  import Text

  class Db {
    var users: seq<User>
    var requests: seq<Request>
    var outbox: seq<Event>
    /** The time the request schema was defined: the default `createdAt` of every request. */
    const loadTime: Time

    /** The unique index on `emailAddress`, and the request invariant of every stored request. */
    predicate Valid()
      reads this
    {
      EmailsUnique(users) && forall i :: 0 <= i < |requests| ==> Consistent(requests[i])
    }

    /** An empty store whose request schema was defined at `loadTime`. */
    constructor (loadTime: Time)
      ensures users == [] && requests == [] && outbox == [] && this.loadTime == loadTime
      ensures Valid()
    {
      users := [];
      requests := [];
      outbox := [];
      this.loadTime := loadTime;
    }

    /**
     * `User.create(u)` for a document whose setters have run: refused (a
     * validation error or the duplicate-key error E11000) when the address is
     * empty or already taken, otherwise appended.
     */
    method InsertUser(u: User) returns (ok: bool)
      requires Valid() && Text.Normalize(u.emailAddress) == u.emailAddress
      modifies this
      ensures Valid()
      ensures ok <==> u.emailAddress != "" && FindByEmail(old(users), u.emailAddress).None?
      ensures users == if ok then old(users) + [u] else old(users)
      ensures requests == old(requests) && outbox == old(outbox)
    {
      ok := u.emailAddress != "" && FindByEmail(users, u.emailAddress).None?;
      if ok {
        AppendKeepsEmailsUnique(users, u);
        users := users + [u];
      }
    }

    /** `User.findByIdAndUpdate(id, …)` with a change that leaves the address alone. */
    method SetUser(id: Id, u: User)
      requires Valid() && id < |users| && u.emailAddress == users[id].emailAddress
      modifies this
      ensures Valid()
      ensures users == old(users)[id := u]
      ensures requests == old(requests) && outbox == old(outbox)
    {
      UpdateKeepsEmailsUnique(users, id, u);
      users := users[id := u];
    }

    /** `Request.create` once the document exists: appended with the next id. */
    method InsertRequest(r: Request)
      requires Valid() && Consistent(r)
      modifies this
      ensures Valid()
      ensures requests == old(requests) + [r]
      ensures users == old(users) && outbox == old(outbox)
    {
      requests := requests + [r];
    }

    /** `Request.findByIdAndUpdate(id, …)`. */
    method SetRequest(id: Id, r: Request)
      requires Valid() && id < |requests| && Consistent(r)
      modifies this
      ensures Valid()
      ensures requests == old(requests)[id := r]
      ensures users == old(users) && outbox == old(outbox)
    {
      requests := requests[id := r];
    }

    /** Mails sent, in order. */
    method Send(es: seq<Event>)
      requires Valid()
      modifies this
      ensures Valid()
      ensures outbox == old(outbox) + es
      ensures users == old(users) && requests == old(requests)
    {
      outbox := outbox + es;
    }
  }
}
