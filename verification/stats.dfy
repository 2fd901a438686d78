/** The admin dashboard figures: three counts from the collections and four
    placeholders that never depend on the data. */
module Stats {
  import opened Common
  import opened Store
  import opened Models
  import Bookings

  /** A figure's value is a count or a display string such as '0%'. */
  datatype StatValue = Num(n: int) | Text(s: string)

  datatype Stat = Stat(value: StatValue, change: string)

  datatype Dashboard = Dashboard(
    totalPlaces: Stat,
    activeBookings: Stat,
    pendingApprovals: Stat,
    todayBookings: Stat,
    monthlyGrowth: Stat,
    utilizationRate: Stat,
    issuesReported: Stat)

  /** The four figures that are constants, with every `change` empty. */
  predicate Placeholders(r: Dashboard) {
    && r.todayBookings == Stat(Num(0), "")
    && r.monthlyGrowth == Stat(Text("0%"), "")
    && r.utilizationRate == Stat(Text("0%"), "")
    && r.issuesReported == Stat(Num(0), "")
  }

  /** `GET /api/stats`. "Active" means approved; nothing looks at event times. */
  function DashboardStats(db: Db): (r: Dashboard)
    ensures r.totalPlaces == Stat(Num(|db.places|), "")
    ensures r.activeBookings.change == "" && r.pendingApprovals.change == ""
    ensures r.activeBookings.value.Num? && r.pendingApprovals.value.Num?
    ensures r.activeBookings.value.n == |Bookings.Approved(db.bookings)|
    ensures r.pendingApprovals.value.n == |Bookings.Pending(db.bookings)|
    ensures Placeholders(r)
  {
    Dashboard(
      Stat(Num(|db.places|), ""),
      Stat(Num(Count(db.bookings, HasStatus("approved"))), ""),
      Stat(Num(Count(db.bookings, HasStatus("pending"))), ""),
      Stat(Num(0), ""),
      Stat(Text("0%"), ""),
      Stat(Text("0%"), ""),
      Stat(Num(0), ""))
  }

  /** Approved and pending bookings together never outnumber the bookings. */
  lemma CountsBounded(db: Db)
    ensures var r := DashboardStats(db);
      r.activeBookings.value.n + r.pendingApprovals.value.n <= |db.bookings|
  {
    CountDisjoint(db.bookings, HasStatus("approved"), HasStatus("pending"));
  }

  /** On a valid database, approval writes the booking back with only its status changed. */
  lemma ApprovalWrites(db: Db, id: Id, reason: Option<string>)
    requires DbValid(db)
    requires Get(db.bookings, id).Some?
    ensures Bookings.UpdateStatus(db, id, "approved", reason).db.bookings
         == Put(db.bookings, id, Get(db.bookings, id).value.(status := "approved"))
  {
    var b := Get(db.bookings, id).value;
    var k :| 0 <= k < |db.bookings| && db.bookings[k] == Doc(id, b);
    assert BookingValid(b);
  }

  /** Approving a pending booking moves one from the pending figure to the active
      one and leaves the place count alone, whether or not the route then fails
      on a missing owner or place. */
  lemma ApprovalMovesOne(db: Db, id: Id, reason: Option<string>)
    requires DbValid(db)
    requires Get(db.bookings, id).Some? && Get(db.bookings, id).value.status == "pending"
    ensures var before := DashboardStats(db);
      var after := DashboardStats(Bookings.UpdateStatus(db, id, "approved", reason).db);
      && after.activeBookings.value.n == before.activeBookings.value.n + 1
      && after.pendingApprovals.value.n == before.pendingApprovals.value.n - 1
      && after.totalPlaces == before.totalPlaces
  {
    var b := Get(db.bookings, id).value;
    var nb := b.(status := "approved");
    ApprovalWrites(db, id, reason);
    PutIsUpdate(db.bookings, id, nb);
    var j := IndexOf(db.bookings, id).value;
    GetAt(db.bookings, j);
    CountUpdate(db.bookings, j, Doc(id, nb), HasStatus("approved"));
    CountUpdate(db.bookings, j, Doc(id, nb), HasStatus("pending"));
  }
}
