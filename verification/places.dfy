/** The place routes: create, `$set` update, delete without cascade, get by id,
    and the "popular" aggregation (group bookings by place, count, sort by count
    descending, keep five, then join with the places collection). */
module Places {
  import opened Common
  import opened Store
  import opened Models

  const ServerError := "Server Error"
  const PlaceNotFound := "Place not found"

  /** A route's response together with the places collection after it. */
  datatype PlaceStep<T> = PlaceStep(resp: Response<T>, places: Table<Place>)

  // ------------------------------------------------------------------ create

  /** `POST /api/places`: the body becomes a document with the schema defaults;
      a validation or duplicate-key error is a 500 and stores nothing. */
  function CreatePlace(ps: Table<Place>, newId: Id, d: PlaceDraft, now: Time): (r: PlaceStep<Place>)
    ensures r.resp.Ok? <==> NewPlace(d, now).Some? && !Has(ps, newId)
    ensures r.resp.Ok? ==> r.places == ps + [Doc(newId, r.resp.body)] && PlaceValid(r.resp.body)
    ensures r.resp.Fail? ==> r == PlaceStep(Fail(500, ServerError), ps)
  {
    var p := NewPlace(d, now);
    if p.None? || Has(ps, newId) then PlaceStep(Fail(500, ServerError), ps)
    else PlaceStep(Ok(p.value), ps + [Doc(newId, p.value)])
  }

  /** A created place is found under its new id with the defaults applied, and
      the other places are untouched. */
  lemma CreatePlaceThenGet(ps: Table<Place>, newId: Id, d: PlaceDraft, now: Time, x: Id)
    requires UniqueIds(ps)
    requires CreatePlace(ps, newId, d, now).resp.Ok?
    ensures var r := CreatePlace(ps, newId, d, now);
      && Get(r.places, newId) == Some(r.resp.body)
      && r.resp.body.status == (if d.status.Some? then d.status.value else "available")
      && r.resp.body.createdAt == (if d.createdAt.Some? then d.createdAt.value else now)
      && (x != newId ==> Get(r.places, x) == Get(ps, x))
      && UniqueIds(r.places)
  {
    var r := CreatePlace(ps, newId, d, now);
    GetAppend(ps, newId, r.resp.body, newId);
    GetAppend(ps, newId, r.resp.body, x);
    AppendUnique(ps, newId, r.resp.body);
  }

  // ------------------------------------------------------------------ update

  /** A `$set` body: `None` is a key the request leaves out. A capacity that
      cannot be cast to a number is `Some(None)`. */
  datatype PlacePatch = PlacePatch(
    name: Option<string>,
    capacity: Option<Option<int>>,
    details: Option<string>,
    location: Option<string>,
    status: Option<string>,
    facilities: Option<seq<PlaceFacility>>,
    createdAt: Option<Time>,
    updatedAt: Option<Time>)

  /** Mongoose casts every `$set` value before writing; a failed cast throws. */
  predicate Castable(patch: PlacePatch) {
    patch.capacity != Some(None)
  }

  /** The supplied value when the key is present, the current one otherwise. */
  function Pick<T>(supplied: Option<T>, current: T): T {
    if supplied.Some? then supplied.value else current
  }

  /** `$set`: each supplied key overwrites its field, including with an empty
      string; the others keep their value. `updatedAt` is not refreshed. */
  function ApplyPatch(p: Place, patch: PlacePatch): (q: Place)
    requires Castable(patch)
    ensures patch.name.Some? ==> q.name == patch.name.value
    ensures patch.name.None? ==> q.name == p.name
    ensures patch.capacity.Some? ==> q.capacity == patch.capacity.value.value
    ensures patch.capacity.None? ==> q.capacity == p.capacity
    ensures q.details == (if patch.details.Some? then patch.details else p.details)
    ensures q.location == (if patch.location.Some? then patch.location else p.location)
    ensures q.status == Pick(patch.status, p.status)
    ensures q.facilities == Pick(patch.facilities, p.facilities)
    ensures q.createdAt == Pick(patch.createdAt, p.createdAt)
    ensures q.updatedAt == Pick(patch.updatedAt, p.updatedAt)
  {
    Place(Pick(patch.name, p.name),
          if patch.capacity.Some? then patch.capacity.value.value else p.capacity,
          if patch.details.Some? then patch.details else p.details,
          if patch.location.Some? then patch.location else p.location,
          Pick(patch.status, p.status),
          Pick(patch.facilities, p.facilities),
          Pick(patch.createdAt, p.createdAt),
          Pick(patch.updatedAt, p.updatedAt))
  }

  /** The patch that supplies no key. */
  const EmptyPatch := PlacePatch(None, None, None, None, None, None, None, None)

  /** An empty `$set` changes nothing, and applying a patch twice is applying it once. */
  lemma PatchLaws(p: Place, patch: PlacePatch)
    requires Castable(patch)
    ensures ApplyPatch(p, EmptyPatch) == p
    ensures ApplyPatch(ApplyPatch(p, patch), patch) == ApplyPatch(p, patch)
  {
  }

  /** `findByIdAndUpdate` runs no validators: a valid place can be emptied of its
      required name. */
  lemma UpdateSkipsValidation(p: Place)
    requires PlaceValid(p)
    ensures !PlaceValid(ApplyPatch(p, EmptyPatch.(name := Some(""))))
  {
  }

  /** `PUT /api/places/:id`: 404 when missing; a cast failure is a 500; otherwise
      the patch is written to that place only and the updated place returned. */
  function UpdatePlace(ps: Table<Place>, id: Id, patch: PlacePatch): (r: PlaceStep<Place>)
    ensures Get(ps, id).None? ==> r == PlaceStep(Fail(404, PlaceNotFound), ps)
    ensures Get(ps, id).Some? && !Castable(patch) ==> r == PlaceStep(Fail(500, ServerError), ps)
    ensures r.resp.Fail? ==> r.places == ps
    ensures r.resp.Ok? <==> Get(ps, id).Some? && Castable(patch)
    ensures r.resp.Ok? ==>
      && r.resp.body == ApplyPatch(Get(ps, id).value, patch)
      && Get(r.places, id) == Some(r.resp.body)
      && forall x :: x != id ==> Get(r.places, x) == Get(ps, x)
  {
    var found := Get(ps, id);
    if found.None? then PlaceStep(Fail(404, PlaceNotFound), ps)
    else if !Castable(patch) then PlaceStep(Fail(500, ServerError), ps)
    else
      var q := ApplyPatch(found.value, patch);
      var ps' := Put(ps, id, q);
      assert forall x :: Get(ps', x) == if x == id then Some(q) else Get(ps, x) by {
        forall x ensures Get(ps', x) == if x == id then Some(q) else Get(ps, x) {
          GetPut(ps, id, q, x);
        }
      }
      PlaceStep(Ok(q), ps')
  }

  // ------------------------------------------------------------------ delete

  datatype DbStep = DbStep(resp: Response<string>, db: Db)

  /** `DELETE /api/places/:id`: 404 when missing; otherwise only the place goes.
      Bookings that reference it are kept. */
  function DeletePlace(db: Db, id: Id): (r: DbStep)
    ensures Get(db.places, id).None? <==> r == DbStep(Fail(404, PlaceNotFound), db)
    ensures r.db.users == db.users && r.db.bookings == db.bookings
    ensures r.resp.Ok? ==>
      && r.resp.body == "Place removed"
      && Get(r.db.places, id).None?
      && forall x :: x != id ==> Get(r.db.places, x) == Get(db.places, x)
  {
    if Get(db.places, id).None? then DbStep(Fail(404, PlaceNotFound), db)
    else
      var ps' := Remove(db.places, id);
      assert forall x :: Get(ps', x) == if x == id then None else Get(db.places, x) by {
        forall x ensures Get(ps', x) == if x == id then None else Get(db.places, x) {
          GetRemove(db.places, id, x);
        }
      }
      DbStep(Ok("Place removed"), db.(places := ps'))
  }

  /** Deleting a place leaves every booking that pointed at it in place, now
      pointing at nothing, and keeps the database consistent. */
  lemma DeletePlaceLeavesDangling(db: Db, id: Id, i: int)
    requires DbValid(db)
    requires Get(db.places, id).Some?
    requires 0 <= i < |db.bookings| && db.bookings[i].val.placeId == Some(id)
    ensures var r := DeletePlace(db, id);
      && r.db.bookings[i] == db.bookings[i]
      && !Has(r.db.places, id)
      && DbValid(r.db)
  {
    RemoveUnique(db.places, id);
  }

  // --------------------------------------------------------------- get by id

  /** `GET /api/places/:id`. */
  function GetPlace(ps: Table<Place>, id: Id): (r: Response<Place>)
    ensures r.Ok? <==> Has(ps, id)
    ensures r.Fail? ==> r == Fail(404, PlaceNotFound)
    ensures r.Ok? ==> Doc(id, r.body) in ps
  {
    var found := Get(ps, id);
    if found.None? then Fail(404, PlaceNotFound) else Ok(found.value)
  }

  /** Reading back an update returns exactly what the update answered. */
  lemma UpdateThenGet(ps: Table<Place>, id: Id, patch: PlacePatch)
    requires UpdatePlace(ps, id, patch).resp.Ok?
    ensures GetPlace(UpdatePlace(ps, id, patch).places, id) == UpdatePlace(ps, id, patch).resp
  {
  }

  // ----------------------------------------------------------------- popular

  /** A `$group` bucket: a `placeId` value (absent ones form one bucket) and how
      many bookings carry it. */
  datatype Group = Group(key: Option<Id>, bookings: nat)

  /** A `$project`ed result row. */
  datatype PopularEntry = PopularEntry(id: Id, name: string, bookings: nat, capacity: int)

  function RefersTo(key: Option<Id>): Booking -> bool {
    (b: Booking) => b.placeId == key
  }

  predicate Occurs(bs: Table<Booking>, key: Option<Id>) {
    exists i :: 0 <= i < |bs| && bs[i].val.placeId == key
  }

  /** The distinct `placeId` values of the bookings. */
  function Keys(bs: Table<Booking>): (ks: seq<Option<Id>>)
    ensures forall k :: k in ks <==> Occurs(bs, k)
    ensures forall i, j :: 0 <= i < j < |ks| ==> ks[i] != ks[j]
  {
    if |bs| == 0 then []
    else
      var rest := Keys(bs[1..]);
      assert forall k :: Occurs(bs[1..], k) ==> Occurs(bs, k) by {
        forall k | Occurs(bs[1..], k) ensures Occurs(bs, k) {
          var i :| 0 <= i < |bs[1..]| && bs[1..][i].val.placeId == k;
          assert bs[i + 1].val.placeId == k;
        }
      }
      assert forall k :: Occurs(bs, k) ==> k == bs[0].val.placeId || Occurs(bs[1..], k) by {
        forall k | Occurs(bs, k) && k != bs[0].val.placeId ensures Occurs(bs[1..], k) {
          var i :| 0 <= i < |bs| && bs[i].val.placeId == k;
          assert bs[1..][i - 1].val.placeId == k;
        }
      }
      if bs[0].val.placeId in rest then rest else [bs[0].val.placeId] + rest
  }

  /** A bucket holds the number of bookings that carry its key. */
  predicate Counted(bs: Table<Booking>, g: Group) {
    g.bookings == Count(bs, RefersTo(g.key))
  }

  function MakeGroup(bs: Table<Booking>, k: Option<Id>): (g: Group)
    ensures g.key == k && Counted(bs, g)
  {
    Group(k, Count(bs, RefersTo(k)))
  }

  /** `$group: {_id: '$placeId', bookings: {$sum: 1}}`, one bucket per distinct key. */
  function Groups(bs: Table<Booking>): (gs: seq<Group>)
    ensures |gs| == |Keys(bs)|
    ensures forall i :: 0 <= i < |gs| ==> gs[i] == MakeGroup(bs, Keys(bs)[i])
  {
    var ks := Keys(bs);
    seq(|ks|, i requires 0 <= i < |ks| => MakeGroup(bs, ks[i]))
  }

  /** Every bucket counts the bookings with its key, and that key occurs, so the
      count is at least one. */
  lemma GroupSound(bs: Table<Booking>, g: Group)
    requires g in Groups(bs)
    ensures Counted(bs, g) && Occurs(bs, g.key) && g.bookings >= 1
  {
    var gs := Groups(bs);
    var i :| 0 <= i < |gs| && gs[i] == g;
    assert Keys(bs)[i] in Keys(bs);
    var j :| 0 <= j < |bs| && bs[j].val.placeId == g.key;
    assert RefersTo(g.key)(bs[j].val);
  }

  /** Every key a booking carries has its bucket. */
  lemma GroupComplete(bs: Table<Booking>, k: Option<Id>)
    requires Occurs(bs, k)
    ensures MakeGroup(bs, k) in Groups(bs)
  {
    var ks := Keys(bs);
    var i :| 0 <= i < |ks| && ks[i] == k;
    assert Groups(bs)[i] == MakeGroup(bs, k);
  }

  function GroupCount(g: Group): int { g.bookings }

  function EntryCount(e: PopularEntry): int { e.bookings }

  /** The row `$lookup` + `$unwind` + `$project` make of a bucket whose key is an
      existing place. */
  predicate JoinsTo(g: Group, ps: Table<Place>, e: PopularEntry) {
    && g.key == Some(e.id)
    && g.bookings == e.bookings
    && Get(ps, e.id).Some?
    && e.name == Get(ps, e.id).value.name
    && e.capacity == Get(ps, e.id).value.capacity
  }

  /** A bucket survives the inner join when its key is the id of an existing place. */
  predicate Resolves(g: Group, ps: Table<Place>) {
    g.key.Some? && Has(ps, g.key.value)
  }

  /** `$lookup` + `$unwind` + `$project`: an inner join that keeps bucket order
      and drops buckets with no matching place. */
  function Join(top: seq<Group>, ps: Table<Place>): (r: seq<PopularEntry>)
    ensures |r| <= |top|
    ensures |r| == |top| <==> forall i :: 0 <= i < |top| ==> Resolves(top[i], ps)
  {
    if |top| == 0 then []
    else
      var rest := Join(top[1..], ps);
      assert forall j :: 1 <= j < |top| ==> top[1..][j - 1] == top[j];
      if Resolves(top[0], ps) then
        var p := Get(ps, top[0].key.value).value;
        [PopularEntry(top[0].key.value, p.name, top[0].bookings, p.capacity)] + rest
      else rest
  }

  /** Every row comes from a bucket of `top` and the place with that bucket's id. */
  lemma {:induction false} JoinSound(top: seq<Group>, ps: Table<Place>, e: PopularEntry)
    requires e in Join(top, ps)
    ensures exists j :: 0 <= j < |top| && JoinsTo(top[j], ps, e)
  {
    var rest := Join(top[1..], ps);
    if Resolves(top[0], ps) && e == Join(top, ps)[0] {
      assert JoinsTo(top[0], ps, e);
    } else {
      assert e in rest;
      JoinSound(top[1..], ps, e);
      var j :| 0 <= j < |top[1..]| && JoinsTo(top[1..][j], ps, e);
      assert top[1..][j] == top[j + 1];
    }
  }

  /** Every bucket of `top` that names an existing place yields a row. */
  lemma {:induction false} JoinComplete(top: seq<Group>, ps: Table<Place>, j: int)
    requires 0 <= j < |top| && Resolves(top[j], ps)
    ensures exists e :: e in Join(top, ps) && JoinsTo(top[j], ps, e)
  {
    if j == 0 {
      assert JoinsTo(top[0], ps, Join(top, ps)[0]);
    } else {
      assert top[1..][j - 1] == top[j];
      JoinComplete(top[1..], ps, j - 1);
      var e :| e in Join(top[1..], ps) && JoinsTo(top[j], ps, e);
      assert e in Join(top, ps);
    }
  }

  /** The join keeps the buckets' descending order. */
  lemma {:induction false} JoinSorted(top: seq<Group>, ps: Table<Place>)
    requires SortedDesc(top, GroupCount)
    ensures SortedDesc(Join(top, ps), EntryCount)
  {
    if |top| > 0 {
      var rest := Join(top[1..], ps);
      assert SortedDesc(top[1..], GroupCount);
      JoinSorted(top[1..], ps);
      if Resolves(top[0], ps) {
        var r := Join(top, ps);
        forall i | 1 <= i < |r| ensures r[0].bookings >= r[i].bookings {
          assert r[i] == rest[i - 1];
          JoinSound(top[1..], ps, rest[i - 1]);
          var j :| 0 <= j < |top[1..]| && JoinsTo(top[1..][j], ps, rest[i - 1]);
          assert top[1..][j] == top[j + 1];
        }
      }
    }
  }

  /** The first five buckets of a descending sort of the groups. */
  function Top(bs: Table<Booking>): (top: seq<Group>)
    ensures |top| <= 5
    ensures SortedDesc(top, GroupCount)
    ensures forall g :: g in top ==> g in Groups(bs)
  {
    var sorted := SortDesc(Groups(bs), GroupCount);
    var top := sorted[..Min(5, |sorted|)];
    assert forall i :: 0 <= i < |top| ==> top[i] == sorted[i];
    assert forall g :: g in top ==> g in multiset(sorted);
    top
  }

  /** `GET /api/places/popular`: group, sort by count descending, keep five, join. */
  function Popular(bs: Table<Booking>, ps: Table<Place>): (r: seq<PopularEntry>)
    ensures |r| <= 5
    ensures SortedDesc(r, EntryCount)
  {
    JoinSorted(Top(bs), ps);
    Join(Top(bs), ps)
  }

  /** Each row carries the name and capacity of the existing place with its id,
      and the number of bookings that reference that place, at least one. */
  lemma PopularRow(bs: Table<Booking>, ps: Table<Place>, e: PopularEntry)
    requires e in Popular(bs, ps)
    ensures Get(ps, e.id).Some?
    ensures e.name == Get(ps, e.id).value.name && e.capacity == Get(ps, e.id).value.capacity
    ensures e.bookings == Count(bs, RefersTo(Some(e.id))) && e.bookings >= 1
  {
    JoinSound(Top(bs), ps, e);
    var j :| 0 <= j < |Top(bs)| && JoinsTo(Top(bs)[j], ps, e);
    assert Top(bs)[j] in Top(bs);
    GroupSound(bs, Top(bs)[j]);
  }

  /** Whatever place the list leaves out has no more bookings than any place it
      shows, under every tie order of the sort. */
  lemma PopularIsTop(bs: Table<Booking>, ps: Table<Place>, order: seq<Group>, id: Id, e: PopularEntry)
    requires multiset(order) == multiset(Groups(bs))
    requires SortedDesc(order, GroupCount)
    requires Has(ps, id) && Occurs(bs, Some(id))
    requires forall x :: x in Join(order[..Min(5, |order|)], ps) ==> x.id != id
    requires e in Join(order[..Min(5, |order|)], ps)
    ensures e.bookings >= Count(bs, RefersTo(Some(id)))
  {
    var top := order[..Min(5, |order|)];
    var g := MakeGroup(bs, Some(id));
    GroupComplete(bs, Some(id));
    assert g in multiset(order);
    if g in top {
      var j :| 0 <= j < |top| && top[j] == g;
      JoinComplete(top, ps, j);
    }
    TopOfSorted(order, GroupCount, 5, g);
    JoinSound(top, ps, e);
    var j :| 0 <= j < |top| && JoinsTo(top[j], ps, e);
    assert top[j] in top;
  }

  /** The limit comes before the join: when a bucket among the first five names
      no existing place (a deleted place, or bookings without one), fewer than
      five rows come back, however many other places have bookings. */
  lemma LimitBeforeJoin(ps: Table<Place>, order: seq<Group>, j: int)
    requires |order| >= 5
    requires 0 <= j < 5 && !Resolves(order[j], ps)
    ensures |Join(order[..5], ps)| < 5
  {
    assert order[..5][j] == order[j];
  }

  /** Popular is `Join` of the first five buckets of a descending sort of the
      groups, so the two lemmas above apply to it. */
  lemma PopularIsJoinOfTop(bs: Table<Booking>, ps: Table<Place>)
    ensures var sorted := SortDesc(Groups(bs), GroupCount);
      && multiset(sorted) == multiset(Groups(bs))
      && SortedDesc(sorted, GroupCount)
      && Popular(bs, ps) == Join(sorted[..Min(5, |sorted|)], ps)
  {
  }
}
