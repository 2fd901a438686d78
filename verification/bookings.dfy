/** The booking routes: create, the administrative status update with its
    notification fan-out, the owner-only edit and delete, and the list
    queries. E-mail is not sent: the status update returns the addresses it
    would write to, in sending order. */
module Bookings {
  import opened Common
  import opened Store
  import opened Models

  const ServerError := "Server Error"
  const NotFound := "Booking not found"
  const NotAuthorized := "User not authorized"
  const OnlyPending := "Only pending bookings can be edited"

  /** A route's response together with the bookings collection after it. */
  datatype Step<T> = Step(resp: Response<T>, bookings: Table<Booking>)

  // ------------------------------------------------------------------ create

  /** `POST /api/bookings`: the authenticated caller becomes the owner; any
      validation or duplicate-key error is a 500 and stores nothing. */
  function Create(bs: Table<Booking>, newId: Id, caller: Id, d: BookingDraft, now: Time): (r: Step<Booking>)
    ensures r.resp.Ok? <==> NewBooking(caller, d, now).Some? && !Has(bs, newId)
    ensures r.resp.Ok? ==>
      && r.bookings == bs + [Doc(newId, r.resp.body)]
      && r.resp.body.userId == caller
      && r.resp.body.status == "pending"
      && r.resp.body.requestedAt == now
    ensures r.resp.Ok? ==>
      && r.resp.body == NewBooking(caller, d, now).value
      && r.resp.body.placeId == d.placeId
      && r.resp.body.eventTitle == d.eventTitle
      && r.resp.body.description == d.description
      && d.eventStartTime == Some(r.resp.body.eventStartTime)
      && d.eventEndTime == Some(r.resp.body.eventEndTime)
    ensures r.resp.Fail? ==> r.resp == Fail(500, ServerError) && r.bookings == bs
  {
    var nb := NewBooking(caller, d, now);
    if nb.None? || Has(bs, newId) then Step(Fail(500, ServerError), bs)
    else Step(Ok(nb.value), bs + [Doc(newId, nb.value)])
  }

  /** A created booking is found under its new id, nothing else moves, and
      the store's invariants still hold. */
  lemma CreateThenGet(bs: Table<Booking>, newId: Id, caller: Id, d: BookingDraft, now: Time, x: Id)
    requires UniqueIds(bs)
    requires Create(bs, newId, caller, d, now).resp.Ok?
    ensures var r := Create(bs, newId, caller, d, now);
      && Get(r.bookings, newId) == Some(r.resp.body)
      && (x != newId ==> Get(r.bookings, x) == Get(bs, x))
      && UniqueIds(r.bookings)
      && BookingValid(r.resp.body)
  {
    var r := Create(bs, newId, caller, d, now);
    GetAppend(bs, newId, r.resp.body, newId);
    GetAppend(bs, newId, r.resp.body, x);
    AppendUnique(bs, newId, r.resp.body);
  }

  // ----------------------------------------------------------- status update

  /** The addresses of the requested facilities that have a (truthy) e-mail, in list order. */
  function FacilityEmails(fs: seq<RequestedFacility>): (r: seq<string>)
    ensures |r| <= |fs|
    ensures forall e :: e in r <==> Required(e) && exists i :: 0 <= i < |fs| && fs[i].email == e
    ensures (forall i :: 0 <= i < |fs| ==> FacilityValid(fs[i])) ==>
      |r| == |fs| && forall i :: 0 <= i < |fs| ==> r[i] == fs[i].email
  {
    if |fs| == 0 then []
    else
      var rest := FacilityEmails(fs[1..]);
      assert forall i :: 1 <= i < |fs| ==> fs[1..][i - 1] == fs[i];
      if Required(fs[0].email) then [fs[0].email] + rest else rest
  }

  /** Who is written to after a status change: on 'approved' the owner and then
      every facility contact; on 'rejected' the owner only; otherwise nobody. */
  function Recipients(status: string, ownerEmail: string, fs: seq<RequestedFacility>): (r: seq<string>)
    ensures status == "approved" ==> |r| >= 1 && r[0] == ownerEmail && r[1..] == FacilityEmails(fs)
    ensures status == "rejected" ==> r == [ownerEmail]
    ensures status != "approved" && status != "rejected" ==> r == []
  {
    if status == "approved" then [ownerEmail] + FacilityEmails(fs)
    else if status == "rejected" then [ownerEmail]
    else []
  }

  datatype StatusStep = StatusStep(resp: Response<Booking>, db: Db, recipients: seq<string>)

  /** `PUT /api/bookings/:id/status`. There is no role check and no check of the
      current status. The write is committed before the owner and place are
      dereferenced, so a booking whose user or place no longer exists gets a
      500 with its status already changed and no mail sent. */
  function UpdateStatus(db: Db, id: Id, status: string, reason: Option<string>): (r: StatusStep)
    ensures Get(db.bookings, id).None? ==> r == StatusStep(Fail(404, NotFound), db, [])
    ensures r.db.users == db.users && r.db.places == db.places
    ensures forall x :: x != id ==> Get(r.db.bookings, x) == Get(db.bookings, x)
    ensures r.recipients != [] ==> r.resp.Ok?
    ensures Get(db.bookings, id).Some? && BookingValid(Get(db.bookings, id).value) ==>
      var b := Get(db.bookings, id).value;
      var nb := Get(r.db.bookings, id);
      && nb.Some?
      && nb.value.status == status
      && nb.value.reason == (if status == "rejected" then reason else b.reason)
      && nb.value.(status := b.status, reason := b.reason) == b
    ensures r.resp.Ok? ==>
      var b := Get(db.bookings, id).value;
      && Get(db.users, b.userId).Some?
      && r.recipients == Recipients(status, Get(db.users, b.userId).value.email, b.requestedFacilities)
      && Get(r.db.bookings, id) == Some(r.resp.body)
  {
    var found := Get(db.bookings, id);
    if found.None? then StatusStep(Fail(404, NotFound), db, [])
    else
      var b := found.value;
      var nb := b.(status := status, reason := if status == "rejected" then reason else b.reason);
      if !BookingValid(nb) then StatusStep(Fail(500, ServerError), db, [])
      else
        var db' := db.(bookings := Put(db.bookings, id, nb));
        assert forall x :: Get(db'.bookings, x) == if x == id then Some(nb) else Get(db.bookings, x) by {
          forall x ensures Get(db'.bookings, x) == if x == id then Some(nb) else Get(db.bookings, x) {
            GetPut(db.bookings, id, nb, x);
          }
        }
        var owner := Get(db.users, b.userId);
        var place := if b.placeId.Some? then Get(db.places, b.placeId.value) else None;
        if owner.None? || place.None? then StatusStep(Fail(500, ServerError), db', [])
        else StatusStep(Ok(nb), db', Recipients(status, owner.value.email, nb.requestedFacilities))
  }

  /** On a consistent database, approving or rejecting a booking whose owner and
      place exist succeeds and notifies the owner plus, on approval, exactly one
      contact per requested facility; the database stays consistent. */
  lemma UpdateStatusNotifies(db: Db, id: Id, status: string, reason: Option<string>)
    requires DbValid(db)
    requires Get(db.bookings, id).Some?
    requires var b := Get(db.bookings, id).value;
      Get(db.users, b.userId).Some? && b.placeId.Some? && Get(db.places, b.placeId.value).Some?
    ensures var r := UpdateStatus(db, id, status, reason);
      var b := Get(db.bookings, id).value;
      && r.resp.Ok?
      && |r.recipients| == (if status == "approved" then 1 + |b.requestedFacilities|
                            else if status == "rejected" then 1 else 0)
      && (status == "approved" ==>
            forall i :: 0 <= i < |b.requestedFacilities| ==> r.recipients[i + 1] == b.requestedFacilities[i].email)
      && DbValid(r.db)
  {
    var b := Get(db.bookings, id).value;
    var k :| 0 <= k < |db.bookings| && db.bookings[k] == Doc(id, b);
    assert BookingValid(b);
    var r := UpdateStatus(db, id, status, reason);
    var nb := b.(status := status, reason := if status == "rejected" then reason else b.reason);
    assert r.db.bookings == Put(db.bookings, id, nb);
    forall i | 0 <= i < |r.db.bookings| ensures BookingValid(r.db.bookings[i].val) {
      assert BookingValid(db.bookings[i].val);
    }
  }

  /** Deleting a place does not cascade, and a later status update on one of its
      bookings commits the new status yet answers 500 and notifies nobody. */
  lemma DanglingPlaceFailsAfterCommit(db: Db, id: Id, status: string, reason: Option<string>)
    requires Get(db.bookings, id).Some?
    requires BookingValid(Get(db.bookings, id).value)
    requires var b := Get(db.bookings, id).value; b.placeId.Some? && !Has(db.places, b.placeId.value)
    ensures var r := UpdateStatus(db, id, status, reason);
      && r.resp == Fail(500, ServerError)
      && r.recipients == []
      && Get(r.db.bookings, id).value.status == status
  {
  }

  // -------------------------------------------------------------------- edit

  /** A `PUT /api/bookings/:id` body. Absent and empty strings are both "" or
      `None`; a time is `None` when absent or empty. */
  datatype EditRequest = EditRequest(
    eventTitle: string,
    description: Option<string>,
    eventStartTime: Option<Time>,
    eventEndTime: Option<Time>,
    placeId: Option<Id>,
    requestedFacilities: Option<seq<RequestedFacility>>)

  /** `field = supplied || current`, field by field. */
  function Merge(b: Booking, e: EditRequest): (nb: Booking)
    ensures nb.eventTitle == (if Truthy(e.eventTitle) then e.eventTitle else b.eventTitle)
    ensures TruthyOpt(e.description) ==> nb.description == e.description
    ensures !TruthyOpt(e.description) ==> nb.description == b.description
    ensures nb.eventStartTime == (if e.eventStartTime.Some? then e.eventStartTime.value else b.eventStartTime)
    ensures nb.eventEndTime == (if e.eventEndTime.Some? then e.eventEndTime.value else b.eventEndTime)
    ensures TruthyOpt(e.placeId) ==> nb.placeId == e.placeId
    ensures !TruthyOpt(e.placeId) ==> nb.placeId == b.placeId
    ensures nb.requestedFacilities == (if e.requestedFacilities.Some? then e.requestedFacilities.value else b.requestedFacilities)
    ensures nb.status == b.status && nb.userId == b.userId && nb.reason == b.reason && nb.requestedAt == b.requestedAt
  {
    b.(eventTitle := if Truthy(e.eventTitle) then e.eventTitle else b.eventTitle,
       description := OrElse(e.description, b.description),
       eventStartTime := if e.eventStartTime.Some? then e.eventStartTime.value else b.eventStartTime,
       eventEndTime := if e.eventEndTime.Some? then e.eventEndTime.value else b.eventEndTime,
       placeId := OrElse(e.placeId, b.placeId),
       requestedFacilities := if e.requestedFacilities.Some? then e.requestedFacilities.value else b.requestedFacilities)
  }

  /** An edit that supplies nothing truthy changes nothing. */
  lemma MergeEmptyIsIdentity(b: Booking)
    ensures Merge(b, EditRequest("", None, None, None, None, None)) == b
  {
  }

  /** `PUT /api/bookings/:id`: 404 if missing, then 401 unless the caller owns
      it, then 400 unless it is pending; the merged booking is validated on save. */
  function Edit(bs: Table<Booking>, id: Id, caller: Id, e: EditRequest): (r: Step<Booking>)
    ensures r.resp.Fail? ==> r.bookings == bs
    ensures Get(bs, id).None? <==> r.resp == Fail(404, NotFound)
    ensures Get(bs, id).Some? && Get(bs, id).value.userId != caller <==> r.resp == Fail(401, NotAuthorized)
    ensures Get(bs, id).Some? && Get(bs, id).value.userId == caller && Get(bs, id).value.status != "pending"
            <==> r.resp == Fail(400, OnlyPending)
    ensures Get(bs, id).Some? && Get(bs, id).value.userId == caller && Get(bs, id).value.status == "pending" ==>
      (r.resp.Ok? <==> BookingValid(Merge(Get(bs, id).value, e)))
    ensures r.resp.Ok? ==>
      && Get(bs, id).Some?
      && Get(bs, id).value.userId == caller && Get(bs, id).value.status == "pending"
      && r.resp.body == Merge(Get(bs, id).value, e)
      && BookingValid(r.resp.body)
      && Get(r.bookings, id) == Some(r.resp.body)
      && forall x :: x != id ==> Get(r.bookings, x) == Get(bs, x)
  {
    var found := Get(bs, id);
    if found.None? then Step(Fail(404, NotFound), bs)
    else if found.value.userId != caller then Step(Fail(401, NotAuthorized), bs)
    else if found.value.status != "pending" then Step(Fail(400, OnlyPending), bs)
    else
      var nb := Merge(found.value, e);
      if !BookingValid(nb) then Step(Fail(500, ServerError), bs)
      else
        var bs' := Put(bs, id, nb);
        assert forall x :: Get(bs', x) == if x == id then Some(nb) else Get(bs, x) by {
          forall x ensures Get(bs', x) == if x == id then Some(nb) else Get(bs, x) {
            GetPut(bs, id, nb, x);
          }
        }
        Step(Ok(nb), bs')
  }

  /** Once a booking has left 'pending', no edit by anyone changes it. */
  lemma EditFrozenAfterDecision(bs: Table<Booking>, id: Id, caller: Id, e: EditRequest)
    requires Get(bs, id).Some? && Get(bs, id).value.status != "pending"
    ensures Edit(bs, id, caller, e).bookings == bs
    ensures Edit(bs, id, caller, e).resp.Fail?
  {
  }

  // ------------------------------------------------------------------ delete

  /** `DELETE /api/bookings/:id`: 404 if missing, 401 unless the caller owns it;
      otherwise that booking goes, whatever its status. */
  function Delete(bs: Table<Booking>, id: Id, caller: Id): (r: Step<string>)
    ensures Get(bs, id).None? ==> r == Step(Fail(404, NotFound), bs)
    ensures Get(bs, id).Some? && Get(bs, id).value.userId != caller ==> r == Step(Fail(401, NotAuthorized), bs)
    ensures Get(bs, id).Some? && Get(bs, id).value.userId == caller ==>
      && r.resp == Ok("Booking removed")
      && Get(r.bookings, id).None?
      && forall x :: x != id ==> Get(r.bookings, x) == Get(bs, x)
  {
    var found := Get(bs, id);
    if found.None? then Step(Fail(404, NotFound), bs)
    else if found.value.userId != caller then Step(Fail(401, NotAuthorized), bs)
    else
      var bs' := Remove(bs, id);
      assert forall x :: Get(bs', x) == if x == id then None else Get(bs, x) by {
        forall x ensures Get(bs', x) == if x == id then None else Get(bs, x) {
          GetRemove(bs, id, x);
        }
      }
      Step(Ok("Booking removed"), bs')
  }

  /** A successful delete under a unique index removes exactly one document,
      leaves the others in order, and keeps the index unique. */
  lemma DeleteRemovesOne(bs: Table<Booking>, id: Id, caller: Id)
    requires UniqueIds(bs)
    requires Get(bs, id).Some? && Get(bs, id).value.userId == caller
    ensures var r := Delete(bs, id, caller);
      var k := IndexOf(bs, id).value;
      && r.bookings == bs[..k] + bs[k + 1..]
      && |r.bookings| == |bs| - 1
      && UniqueIds(r.bookings)
  {
    RemoveExact(bs, id);
    RemoveUnique(bs, id);
  }

  // ----------------------------------------------------------------- queries

  /** `GET /api/bookings/my-bookings`: exactly the caller's bookings. */
  function MyBookings(bs: Table<Booking>, caller: Id): (r: Table<Booking>)
    ensures forall d :: d in r <==> d in bs && d.val.userId == caller
    ensures |r| == Count(bs, OwnedBy(caller))
  {
    Filter(bs, OwnedBy(caller))
  }

  function RequestedAt(d: Doc<Booking>): int { d.val.requestedAt }

  function StartTime(d: Doc<Booking>): int { d.val.eventStartTime }

  /** `GET /api/bookings/recent`: the caller's five most recently requested
      bookings, newest first. */
  function Recent(bs: Table<Booking>, caller: Id): (r: Table<Booking>)
    ensures |r| == Min(5, Count(bs, OwnedBy(caller)))
    ensures forall d :: d in r ==> d in bs && d.val.userId == caller
    ensures multiset(r) <= multiset(MyBookings(bs, caller))
    ensures SortedDesc(r, RequestedAt)
    ensures forall d, x :: d in bs && d.val.userId == caller && d !in r && x in r ==> x.val.requestedAt >= d.val.requestedAt
  {
    var mine := MyBookings(bs, caller);
    var sorted := SortDesc(mine, RequestedAt);
    var r := sorted[..Min(5, |sorted|)];
    PrefixSorted(sorted, RequestedAt, Min(5, |sorted|));
    forall d | d in r ensures d in bs && d.val.userId == caller {
      assert d in multiset(sorted);
      assert d in mine;
    }
    forall d, x | d in bs && d.val.userId == caller && d !in r && x in r
      ensures x.val.requestedAt >= d.val.requestedAt
    {
      assert d in mine;
      assert d in multiset(mine);
      assert d in sorted;
      TopOfSorted(sorted, RequestedAt, 5, d);
    }
    r
  }

  /** `GET /api/bookings/pending`: exactly the pending bookings. */
  function Pending(bs: Table<Booking>): (r: Table<Booking>)
    ensures forall d :: d in r <==> d in bs && d.val.status == "pending"
    ensures |r| == Count(bs, HasStatus("pending"))
  {
    Filter(bs, HasStatus("pending"))
  }

  /** `GET /api/bookings/approved`: exactly the approved bookings, latest event first. */
  function Approved(bs: Table<Booking>): (r: Table<Booking>)
    ensures forall d :: d in r <==> d in bs && d.val.status == "approved"
    ensures |r| == Count(bs, HasStatus("approved"))
    ensures SortedDesc(r, StartTime)
  {
    var approved := Filter(bs, HasStatus("approved"));
    var r := SortDesc(approved, StartTime);
    assert forall d :: d in r <==> d in multiset(r);
    assert forall d :: d in approved <==> d in multiset(approved);
    r
  }

  /** After an approval the booking is listed by the approved query. */
  lemma ApprovedAfterUpdate(db: Db, id: Id, reason: Option<string>)
    requires UniqueIds(db.bookings)
    requires Get(db.bookings, id).Some? && BookingValid(Get(db.bookings, id).value)
    ensures var r := UpdateStatus(db, id, "approved", reason);
      Doc(id, Get(r.db.bookings, id).value) in Approved(r.db.bookings)
  {
    var r := UpdateStatus(db, id, "approved", reason);
    var nb := Get(r.db.bookings, id).value;
    var k :| 0 <= k < |r.db.bookings| && r.db.bookings[k] == Doc(id, nb);
  }
}
