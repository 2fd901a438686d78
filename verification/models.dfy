/** The three document schemas (users, places, bookings): their fields, the
    `required` rules Mongoose checks on every save, the defaults it fills in
    when a document is built, and the unique index on user e-mail. */
module Models {
  import opened Common
  import opened Store

  /** Mongoose's `required` check on a String path rejects `undefined` and the
      empty string alike; request strings therefore use "" for "absent". */
  predicate Required(s: string) {
    s != ""
  }

  // ---------------------------------------------------------------- bookings

  /** A facility requested on a booking; both fields are required. */
  datatype RequestedFacility = RequestedFacility(name: string, email: string)

  datatype Booking = Booking(
    userId: Id,
    placeId: Option<Id>,
    eventTitle: string,
    reason: Option<string>,
    description: Option<string>,
    eventStartTime: Time,
    eventEndTime: Time,
    status: string,
    requestedFacilities: seq<RequestedFacility>,
    requestedAt: Time)

  predicate FacilityValid(f: RequestedFacility) {
    Required(f.name) && Required(f.email)
  }

  /** Query filters `{userId}` and `{status}`. */
  function OwnedBy(user: Id): Booking -> bool {
    (b: Booking) => b.userId == user
  }

  function HasStatus(s: string): Booking -> bool {
    (b: Booking) => b.status == s
  }

  /** The booking schema's validators. `status` is a free string and nothing
      relates the start and end times. */
  predicate BookingValid(b: Booking) {
    && Required(b.eventTitle)
    && forall i :: 0 <= i < |b.requestedFacilities| ==> FacilityValid(b.requestedFacilities[i])
  }

  /** The fields a client may supply when a booking document is built. */
  datatype BookingDraft = BookingDraft(
    placeId: Option<Id>,
    eventTitle: string,
    description: Option<string>,
    eventStartTime: Option<Time>,
    eventEndTime: Option<Time>,
    requestedFacilities: Option<seq<RequestedFacility>>)

  /** `new Booking({...}).validate()`: applies the schema defaults (status
      'pending', no reason, `requestedAt` = now, an empty facility list) and
      fails exactly when a required path is missing. */
  function NewBooking(userId: Id, d: BookingDraft, now: Time): (r: Option<Booking>)
    ensures r.Some? <==>
      && Required(d.eventTitle)
      && d.eventStartTime.Some? && d.eventEndTime.Some?
      && (d.requestedFacilities.Some? ==>
            forall i :: 0 <= i < |d.requestedFacilities.value| ==> FacilityValid(d.requestedFacilities.value[i]))
    ensures r.Some? ==> BookingValid(r.value)
    ensures r.Some? ==>
      && r.value.status == "pending"
      && r.value.reason == None
      && r.value.requestedAt == now
      && r.value.userId == userId
      && r.value.placeId == d.placeId
      && r.value.eventTitle == d.eventTitle
      && r.value.description == d.description
      && Some(r.value.eventStartTime) == d.eventStartTime
      && Some(r.value.eventEndTime) == d.eventEndTime
      && r.value.requestedFacilities == (if d.requestedFacilities.Some? then d.requestedFacilities.value else [])
  {
    if d.eventStartTime.None? || d.eventEndTime.None? then None
    else
      var b := Booking(userId, d.placeId, d.eventTitle, None, d.description,
                       d.eventStartTime.value, d.eventEndTime.value, "pending",
                       if d.requestedFacilities.Some? then d.requestedFacilities.value else [],
                       now);
      if BookingValid(b) then Some(b) else None
  }

  /** The schema puts no order on the event times: a booking that ends before it
      starts passes validation. */
  lemma EndBeforeStartIsValid()
    ensures exists b :: BookingValid(b) && b.eventEndTime < b.eventStartTime
  {
    var b := Booking("u", None, "t", None, None, 10, 5, "pending", [], 0);
    assert BookingValid(b);
  }

  /** The status path has no enum: any string keeps a valid booking valid. */
  lemma AnyStatusIsValid(b: Booking, s: string)
    requires BookingValid(b)
    ensures BookingValid(b.(status := s))
  {
  }

  // ------------------------------------------------------------------ places

  /** A facility of a place; name, contact e-mail and message are all required. */
  datatype PlaceFacility = PlaceFacility(name: string, email: string, message: string)

  datatype Place = Place(
    name: string,
    capacity: int,
    details: Option<string>,
    location: Option<string>,
    status: string,
    facilities: seq<PlaceFacility>,
    createdAt: Time,
    updatedAt: Time)

  predicate PlaceFacilityValid(f: PlaceFacility) {
    Required(f.name) && Required(f.email) && Required(f.message)
  }

  predicate PlaceValid(p: Place) {
    && Required(p.name)
    && forall i :: 0 <= i < |p.facilities| ==> PlaceFacilityValid(p.facilities[i])
  }

  /** A place request body; `None` is an absent key. A capacity that is absent
      or cannot be cast to a number is `None`. */
  datatype PlaceDraft = PlaceDraft(
    name: string,
    capacity: Option<int>,
    details: Option<string>,
    location: Option<string>,
    status: Option<string>,
    facilities: Option<seq<PlaceFacility>>,
    createdAt: Option<Time>,
    updatedAt: Option<Time>)

  /** `new Place(body).validate()`: status defaults to 'available', facilities to
      the empty list, both timestamps to now; name and capacity are required. */
  function NewPlace(d: PlaceDraft, now: Time): (r: Option<Place>)
    ensures r.Some? <==>
      && Required(d.name) && d.capacity.Some?
      && (d.facilities.Some? ==>
            forall i :: 0 <= i < |d.facilities.value| ==> PlaceFacilityValid(d.facilities.value[i]))
    ensures r.Some? ==> PlaceValid(r.value)
    ensures r.Some? ==>
      && r.value.name == d.name
      && Some(r.value.capacity) == d.capacity
      && r.value.details == d.details
      && r.value.location == d.location
      && r.value.status == (if d.status.Some? then d.status.value else "available")
      && r.value.facilities == (if d.facilities.Some? then d.facilities.value else [])
      && r.value.createdAt == (if d.createdAt.Some? then d.createdAt.value else now)
      && r.value.updatedAt == (if d.updatedAt.Some? then d.updatedAt.value else now)
  {
    if d.capacity.None? then None
    else
      var p := Place(d.name, d.capacity.value, d.details, d.location,
                     if d.status.Some? then d.status.value else "available",
                     if d.facilities.Some? then d.facilities.value else [],
                     if d.createdAt.Some? then d.createdAt.value else now,
                     if d.updatedAt.Some? then d.updatedAt.value else now);
      if PlaceValid(p) then Some(p) else None
  }

  // ------------------------------------------------------------------- users

  datatype User = User(
    name: string,
    email: string,
    password: string,
    phone: Option<string>,
    role: string,
    date: Time,
    resetPasswordOtp: Option<string>,
    resetPasswordOtpExpires: Option<Time>)

  predicate UserValid(u: User) {
    Required(u.name) && Required(u.email) && Required(u.password)
  }

  /** `new User({...}).validate()`: role defaults to 'user' when absent, `date`
      to now, and no reset OTP is pending. */
  function NewUser(name: string, email: string, password: string, phone: Option<string>,
                   role: Option<string>, now: Time): (r: Option<User>)
    ensures r.Some? <==> Required(name) && Required(email) && Required(password)
    ensures r.Some? ==> UserValid(r.value)
    ensures r.Some? ==>
      && r.value.name == name && r.value.email == email && r.value.password == password
      && r.value.phone == phone
      && r.value.role == (if role.Some? then role.value else "user")
      && r.value.date == now
      && r.value.resetPasswordOtp == None && r.value.resetPasswordOtpExpires == None
  {
    var u := User(name, email, password, phone, if role.Some? then role.value else "user", now, None, None);
    if UserValid(u) then Some(u) else None
  }

  /** The unique index on `email`. */
  predicate UniqueEmails(users: Table<User>) {
    forall i, j :: 0 <= i < j < |users| ==> users[i].val.email != users[j].val.email
  }

  /** `User.findOne({email})`: the position of the first user with that e-mail. */
  function FindByEmail(users: Table<User>, email: string): (r: Option<nat>)
    ensures r.Some? ==> r.value < |users| && users[r.value].val.email == email
    ensures r.None? <==> forall i :: 0 <= i < |users| ==> users[i].val.email != email
  {
    if |users| == 0 then None
    else if users[0].val.email == email then Some(0)
    else
      var rest := FindByEmail(users[1..], email);
      if rest.None? then None else Some(rest.value + 1)
  }

  /** Under the unique index, `findOne` finds the one user with that e-mail. */
  lemma FindByEmailUnique(users: Table<User>, i: nat)
    requires UniqueEmails(users)
    requires i < |users|
    ensures FindByEmail(users, users[i].val.email) == Some(i)
  {
  }

  /** Inserting a user document: the `_id` and `email` indexes both reject a duplicate. */
  function InsertUser(users: Table<User>, id: Id, u: User): (r: Option<Table<User>>)
    ensures r.Some? <==> !Has(users, id) && FindByEmail(users, u.email).None?
    ensures r.Some? ==> r.value == users + [Doc(id, u)]
    ensures r.Some? && UniqueEmails(users) ==> UniqueEmails(r.value)
    ensures r.Some? && UniqueIds(users) ==> UniqueIds(r.value)
  {
    if Has(users, id) || FindByEmail(users, u.email).Some? then None
    else Some(users + [Doc(id, u)])
  }

  // -------------------------------------------------------------- database

  datatype Db = Db(users: Table<User>, places: Table<Place>, bookings: Table<Booking>)

  /** What the indexes and validators guarantee of every stored document. */
  predicate DbValid(db: Db) {
    && UniqueIds(db.users) && UniqueIds(db.places) && UniqueIds(db.bookings)
    && UniqueEmails(db.users)
    && (forall i :: 0 <= i < |db.users| ==> UserValid(db.users[i].val))
    && (forall i :: 0 <= i < |db.bookings| ==> BookingValid(db.bookings[i].val))
  }
}
