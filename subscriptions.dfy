/** The newsletter router (backend/src/routes/subscriptions.js): subscribe is
    find-or-create on the email, and the authenticated listing is newest
    first. */
module Subscriptions {
  import opened Wrappers
  import opened Http
  import Listing
  import Keyed

  /** A stored subscription. */
  datatype Subscription = Subscription(id: nat, email: string, createdAt: int)

  /** The JSON bodies this router sends. */
  datatype SubscriptionReply =
    | Unauthorized
    | ValidationErrors(errors: seq<FieldError>)
    | SubscriptionJson(subscription: Subscription)
    | SubscriptionList(subscriptions: seq<Subscription>)

  /** A subscription's `email` field, the key of the lookup. */
  function Email(s: Subscription): string {
    s.email
  }

  /** `Subscription.findOne({email})`: the first stored subscription for it. */
  function FindByEmail(rows: seq<Subscription>, email: string): Option<Subscription> {
    Keyed.FindFirst(rows, Email, email)
  }

  /** How many stored subscriptions have `email`. */
  function Count(rows: seq<Subscription>, email: string): nat {
    Keyed.Count(rows, Email, email)
  }

  /** A table after a subscribe request, and the response. */
  datatype Outcome = Outcome(rows: seq<Subscription>, response: Response<SubscriptionReply>)

  /** `POST /`: 400 for an invalid email and the table unchanged; 200 with a
      stored record for that email and the table unchanged; or 201 with a new
      record for it (id `newId`, created at `now`), appended to a table that
      had none. */
  function SubscribeOutcome(rows: seq<Subscription>, email: Option<string>, isEmail: string -> bool,
                            newId: nat, now: int): (o: Outcome)
    ensures o.response.status in {200, 201, 400}
    ensures o.response.status == 400 <==> !ValidEmail(email, isEmail)
    ensures o.response.status == 400 ==>
              o.rows == rows && o.response.body == ValidationErrors([FieldError("email")])
    ensures o.response.status == 200 ==>
              o.rows == rows && o.response.body.SubscriptionJson? &&
              o.response.body.subscription in rows &&
              o.response.body.subscription.email == email.value
    ensures o.response.status == 201 <==>
              ValidEmail(email, isEmail) && forall s :: s in rows ==> s.email != email.value
    ensures o.response.status == 201 ==>
              var s := Subscription(newId, email.value, now);
              o.rows == rows + [s] && o.response.body == SubscriptionJson(s)
  {
    if !ValidEmail(email, isEmail) then
      Outcome(rows, Response(400, ValidationErrors([FieldError("email")])))
    else
      match FindByEmail(rows, email.value)
      case Some(existing) => Outcome(rows, Response(200, SubscriptionJson(existing)))
      case None =>
        var s := Subscription(newId, email.value, now);
        Outcome(rows + [s], Response(201, SubscriptionJson(s)))
  }

  /** The subscription table. */
  class SubscriptionTable {
    var rows: seq<Subscription>

    constructor ()
      ensures rows == []
    {
      rows := [];
    }

    /** `POST /`: finds the email and creates a record only when it is absent. */
    method Subscribe(email: Option<string>, isEmail: string -> bool, newId: nat, now: int)
      returns (resp: Response<SubscriptionReply>)
      modifies this
      ensures Outcome(rows, resp) == SubscribeOutcome(old(rows), email, isEmail, newId, now)
    {
      if !ValidEmail(email, isEmail) {
        return Response(400, ValidationErrors([FieldError("email")]));
      }
      var existing := FindByEmail(rows, email.value);
      if existing.Some? {
        return Response(200, SubscriptionJson(existing.value));
      }
      var subscription := Subscription(newId, email.value, now);
      rows := rows + [subscription];
      resp := Response(201, SubscriptionJson(subscription));
    }

    /** `GET /` behind the authentication middleware: every subscription,
        newest first. */
    function List(authorized: bool): (r: Response<SubscriptionReply>)
      reads this
      ensures !authorized ==> r == Response(401, Unauthorized)
      ensures authorized ==>
                r.status == 200 && r.body.SubscriptionList? &&
                Listing.NewestFirst(r.body.subscriptions, (s: Subscription) => s.createdAt) &&
                multiset(r.body.subscriptions) == multiset(rows)
    {
      if !authorized then Response(401, Unauthorized)
      else Response(200, SubscriptionList(Listing.SortNewestFirst(rows, (s: Subscription) => s.createdAt)))
    }
  }

  // ---------------------------------------------------------------------------
  // Properties

  /** Subscribing adds at most one record, and only for a new valid email;
      afterwards that email has a record. */
  lemma SubscribeAddsAtMostOne(rows: seq<Subscription>, email: string, isEmail: string -> bool,
                               newId: nat, now: int)
    requires isEmail(email)
    ensures var after := SubscribeOutcome(rows, Some(email), isEmail, newId, now).rows;
      Count(after, email) == (if Count(rows, email) == 0 then 1 else Count(rows, email)) &&
      (forall e :: e != email ==> Count(after, e) == Count(rows, e))
  {
    Keyed.CountZeroIffAbsent(rows, Email, email);
    var s := Subscription(newId, email, now);
    forall e | true
      ensures Count(rows + [s], e) == Count(rows, e) + (if e == email then 1 else 0)
    {
      Keyed.CountAppend(rows, s, Email, e);
    }
  }

  /** Subscribing the same email twice leaves the table as one subscription
      does, with exactly one record for it when there was none before. */
  lemma SubscribeTwice(rows: seq<Subscription>, email: string, isEmail: string -> bool,
                       id1: nat, now1: int, id2: nat, now2: int)
    requires isEmail(email) && Count(rows, email) == 0
    ensures var once := SubscribeOutcome(rows, Some(email), isEmail, id1, now1);
      var twice := SubscribeOutcome(once.rows, Some(email), isEmail, id2, now2);
      twice.rows == once.rows && Count(twice.rows, email) == 1 &&
      twice.response == Response(200, once.response.body)
  {
    var once := SubscribeOutcome(rows, Some(email), isEmail, id1, now1);
    SubscribeAddsAtMostOne(rows, email, isEmail, id1, now1);
    Keyed.CountZeroIffAbsent(rows, Email, email);
    Keyed.FirstOfAppended(rows, Subscription(id1, email, now1), Email);
  }
}
