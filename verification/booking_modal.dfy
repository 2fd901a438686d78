/** The booking form's client logic: opening it for a new booking, narrowing the
    facility selection when the place changes, the facility toggle, and the
    submit-time check that the end comes after the start. */
module BookingModal {
  import opened Common
  import opened Store
  import opened Models

  const EndBeforeStart := "End time must be after start time."

  /** The form fields; a time is `None` while its input is empty (or does not
      parse), which JavaScript turns into an invalid date. */
  datatype BookingForm = BookingForm(
    placeId: string,
    eventTitle: string,
    description: string,
    eventStartTime: Option<Time>,
    eventEndTime: Option<Time>)

  datatype ModalState = ModalState(
    details: BookingForm,
    selected: seq<PlaceFacility>,
    available: seq<PlaceFacility>,
    error: Option<string>)

  // --------------------------------------------------------------- selection

  /** Some facility in `s` carries the name `n`; selection is keyed by name. */
  predicate NamedIn(s: seq<PlaceFacility>, n: string) {
    exists i :: 0 <= i < |s| && s[i].name == n
  }

  /** `s.filter(f => f.name !== n)`. */
  function WithoutName(s: seq<PlaceFacility>, n: string): (r: seq<PlaceFacility>)
    ensures forall f :: f in r <==> f in s && f.name != n
    ensures !NamedIn(r, n)
    ensures |r| <= |s|
    ensures |s| == 1 ==> r == (if s[0].name == n then [] else s)
  {
    if |s| == 0 then []
    else if s[0].name == n then WithoutName(s[1..], n)
    else [s[0]] + WithoutName(s[1..], n)
  }

  /** The filter works entry by entry and keeps the order of the rest:
      filtering a concatenation concatenates the filtered parts. */
  lemma {:induction false} WithoutNameAppend(a: seq<PlaceFacility>, b: seq<PlaceFacility>, n: string)
    ensures WithoutName(a + b, n) == WithoutName(a, n) + WithoutName(b, n)
  {
    if |a| > 0 {
      var ab := a + b;
      assert ab[0] == a[0] && ab[1..] == a[1..] + b;
      WithoutNameAppend(a[1..], b, n);
      if a[0].name == n {
        assert WithoutName(ab, n) == WithoutName(a[1..] + b, n);
        assert WithoutName(a, n) == WithoutName(a[1..], n);
      } else {
        assert WithoutName(ab, n) == [a[0]] + WithoutName(a[1..] + b, n);
        assert WithoutName(a, n) == [a[0]] + WithoutName(a[1..], n);
      }
    } else {
      assert a + b == b;
    }
  }

  lemma {:induction false} WithoutAbsentName(s: seq<PlaceFacility>, n: string)
    requires !NamedIn(s, n)
    ensures WithoutName(s, n) == s
  {
    if |s| > 0 {
      assert !NamedIn(s[1..], n) by {
        assert forall i :: 0 <= i < |s[1..]| ==> s[1..][i] == s[i + 1];
      }
      WithoutAbsentName(s[1..], n);
      assert [s[0]] + s[1..] == s;
    }
  }

  /** `handleFacilityChange`: a selected name is dropped (every entry with it);
      an unselected facility is appended at the end. */
  function Toggle(prev: seq<PlaceFacility>, f: PlaceFacility): (r: seq<PlaceFacility>)
    ensures NamedIn(r, f.name) <==> !NamedIn(prev, f.name)
    ensures forall x: PlaceFacility :: x.name != f.name ==> (x in r <==> x in prev)
    ensures !NamedIn(prev, f.name) ==> r == prev + [f]
    ensures NamedIn(prev, f.name) ==> r == WithoutName(prev, f.name)
  {
    if NamedIn(prev, f.name) then WithoutName(prev, f.name)
    else
      var r := prev + [f];
      assert r[|prev|] == f;
      r
  }

  /** Toggling an unselected facility twice gives back the original selection. */
  lemma ToggleTwice(prev: seq<PlaceFacility>, f: PlaceFacility)
    requires !NamedIn(prev, f.name)
    ensures Toggle(Toggle(prev, f), f) == prev
  {
    WithoutNameAppend(prev, [f], f.name);
    WithoutAbsentName(prev, f.name);
  }

  /** The selected facilities whose name the offered list also has, in order. */
  function KeepOffered(sel: seq<PlaceFacility>, offered: seq<PlaceFacility>): (r: seq<PlaceFacility>)
    ensures forall x :: x in r <==> x in sel && NamedIn(offered, x.name)
    ensures |r| <= |sel|
    ensures offered == [] ==> r == []
    ensures |sel| == 1 ==> r == (if NamedIn(offered, sel[0].name) then sel else [])
  {
    if |sel| == 0 then []
    else if NamedIn(offered, sel[0].name) then [sel[0]] + KeepOffered(sel[1..], offered)
    else KeepOffered(sel[1..], offered)
  }

  /** The filter works entry by entry and keeps the order: filtering a
      concatenation concatenates the filtered parts. */
  lemma {:induction false} KeepOfferedAppend(a: seq<PlaceFacility>, b: seq<PlaceFacility>, offered: seq<PlaceFacility>)
    ensures KeepOffered(a + b, offered) == KeepOffered(a, offered) + KeepOffered(b, offered)
  {
    if |a| > 0 {
      assert (a + b)[0] == a[0] && (a + b)[1..] == a[1..] + b;
      KeepOfferedAppend(a[1..], b, offered);
    } else {
      assert a + b == b;
    }
  }

  /** A selection whose names are all on offer passes through unchanged. */
  lemma {:induction false} KeepOfferedAll(sel: seq<PlaceFacility>, offered: seq<PlaceFacility>)
    requires forall i :: 0 <= i < |sel| ==> NamedIn(offered, sel[i].name)
    ensures KeepOffered(sel, offered) == sel
  {
    if |sel| > 0 {
      assert forall i :: 0 <= i < |sel[1..]| ==> sel[1..][i] == sel[i + 1];
      KeepOfferedAll(sel[1..], offered);
      assert sel == [sel[0]] + sel[1..];
      KeepOfferedAppend([sel[0]], sel[1..], offered);
    }
  }

  /** The facilities the place with that id offers; an unknown id offers none. */
  function Offered(places: Table<Place>, placeId: string): (r: seq<PlaceFacility>)
    ensures Get(places, placeId).None? ==> r == []
    ensures Get(places, placeId).Some? ==> r == Get(places, placeId).value.facilities
  {
    var p := Get(places, placeId);
    if p.None? then [] else p.value.facilities
  }

  /** The effect that runs when the place changes: with a (truthy) place id the
      offered list becomes that place's facilities and the selection keeps only
      names it offers; an unknown place clears the selection. */
  function PlaceChanged(st: ModalState, places: Table<Place>): (r: ModalState)
    ensures st.details.placeId == "" ==> r == st
    ensures r.details == st.details && r.error == st.error
    ensures st.details.placeId != "" ==>
      && r.available == Offered(places, st.details.placeId)
      && (forall x :: x in r.selected <==> x in st.selected && NamedIn(r.available, x.name))
      && r.selected == KeepOffered(st.selected, r.available)
    ensures st.details.placeId != "" && Get(places, st.details.placeId).None? ==> r.selected == []
  {
    if st.details.placeId == "" then st
    else
      var offered := Offered(places, st.details.placeId);
      st.(available := offered, selected := KeepOffered(st.selected, offered))
  }

  /** The effect is idempotent: running it again changes nothing. */
  lemma PlaceChangedIdempotent(st: ModalState, places: Table<Place>)
    ensures PlaceChanged(PlaceChanged(st, places), places) == PlaceChanged(st, places)
  {
    var r := PlaceChanged(st, places);
    if st.details.placeId != "" {
      KeepOfferedAll(r.selected, r.available);
    }
  }

  // -------------------------------------------------------------------- open

  /** Opening the form for a new booking: the first place is preselected (or
      none when there are no places), the fields are blank and nothing is
      selected. */
  function OpenNew(st: ModalState, places: Table<Place>): (r: ModalState)
    ensures r.details.placeId == (if |places| > 0 then places[0].id else "")
    ensures r.details.eventTitle == "" && r.details.description == ""
    ensures r.details.eventStartTime.None? && r.details.eventEndTime.None?
    ensures r.selected == []
    ensures r.available == st.available && r.error == st.error
  {
    var first := if |places| > 0 then places[0].id else "";
    st.(details := BookingForm(first, "", "", None, None), selected := [])
  }

  /** With unique ids, the preselected place's facilities are offered right after opening. */
  lemma OpenNewOffersFirstPlace(st: ModalState, places: Table<Place>)
    requires UniqueIds(places) && |places| > 0 && places[0].id != ""
    ensures PlaceChanged(OpenNew(st, places), places).available == places[0].val.facilities
    ensures PlaceChanged(OpenNew(st, places), places).selected == []
  {
    GetAt(places, 0);
  }

  // ------------------------------------------------------------------ submit

  /** `new Date(end) <= new Date(start)`: false as soon as either date is invalid. */
  predicate EndNotAfterStart(d: BookingForm) {
    d.eventStartTime.Some? && d.eventEndTime.Some? && d.eventEndTime.value <= d.eventStartTime.value
  }

  /** What `onBookingSubmit` receives. */
  datatype Payload = Payload(details: BookingForm, requestedFacilities: seq<PlaceFacility>)

  datatype Submitted = Submitted(st: ModalState, sent: Option<Payload>, closed: bool)

  /** `handleSubmit`. `callError` is the message `onBookingSubmit` throws, if it does. */
  function Submit(st: ModalState, callError: Option<string>): (r: Submitted)
    ensures r.sent.Some? <==> !EndNotAfterStart(st.details)
    ensures r.sent.None? ==> r.st.error == Some(EndBeforeStart) && !r.closed
    ensures r.sent.Some? ==> r.sent.value == Payload(st.details, st.selected)
    ensures r.closed <==> r.sent.Some? && callError.None?
    ensures r.sent.Some? ==> r.st.error == callError
    ensures r.st.details == st.details && r.st.selected == st.selected
  {
    var cleared := st.(error := None);
    if EndNotAfterStart(st.details) then Submitted(cleared.(error := Some(EndBeforeStart)), None, false)
    else if callError.Some? then Submitted(cleared.(error := callError), Some(Payload(st.details, st.selected)), false)
    else Submitted(cleared, Some(Payload(st.details, st.selected)), true)
  }

  /** When both times are filled in, only a booking that ends after it starts is sent. */
  lemma SubmitOrdersTimes(st: ModalState, callError: Option<string>)
    requires st.details.eventStartTime.Some? && st.details.eventEndTime.Some?
    ensures Submit(st, callError).sent.Some? <==>
            st.details.eventStartTime.value < st.details.eventEndTime.value
  {
  }

  /** `handleSubmit` on its own lets an empty end time through: the comparison
      with an invalid date is false. The browser's check of the inputs'
      `required` attributes, which runs before the handler, is not part of this
      model. */
  lemma EmptyEndIsSent(st: ModalState)
    requires st.details.eventEndTime.None?
    ensures Submit(st, None).sent.Some? && Submit(st, None).closed
  {
  }
}
