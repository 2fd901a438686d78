/** The venue form's client logic: initialisation for a new or an existing
    venue, the top-level field handler, and the facility list editors. The form
    is a JavaScript object, modelled as a map from key to value. */
module VenueModal {
  import opened Models

  /** A form value: text typed into an input, a number copied from a stored
      venue, or the facility list. */
  datatype FormValue = Str(s: string) | Num(n: int) | Facs(list: seq<PlaceFacility>)

  type Form = map<string, FormValue>

  const BlankFacility := PlaceFacility("", "", "")

  /** The form holds a facility list, which every facility editor relies on. */
  predicate HasFacilityList(form: Form) {
    "facilities" in form && form["facilities"].Facs?
  }

  function FacilitiesOf(form: Form): seq<PlaceFacility>
    requires HasFacilityList(form)
  {
    form["facilities"].list
  }

  /** The form for a new venue. */
  function InitNew(): (form: Form)
    ensures form.Keys == {"name", "capacity", "details", "location", "status", "facilities"}
    ensures form["status"] == Str("available")
    ensures HasFacilityList(form) && FacilitiesOf(form) == []
    ensures forall k :: k in form && k != "status" && k != "facilities" ==> form[k] == Str("")
  {
    map["name" := Str(""), "capacity" := Str(""), "details" := Str(""), "location" := Str(""),
        "status" := Str("available"), "facilities" := Facs([])]
  }

  /** `{...venue, facilities: venue.facilities || []}`: a copy of the venue with
      an empty facility list when it has none. */
  function InitEdit(venue: Form): (form: Form)
    ensures form.Keys == venue.Keys + {"facilities"}
    ensures forall k :: k in venue && k != "facilities" ==> form[k] == venue[k]
    ensures "facilities" in venue ==> form["facilities"] == venue["facilities"]
    ensures "facilities" !in venue ==> HasFacilityList(form) && FacilitiesOf(form) == []
  {
    if "facilities" in venue then venue else venue["facilities" := Facs([])]
  }

  /** `handleChange`: sets one top-level field to the typed text. */
  function HandleChange(form: Form, name: string, value: string): (r: Form)
    ensures r.Keys == form.Keys + {name}
    ensures r[name] == Str(value)
    ensures forall k :: k in form && k != name ==> r[k] == form[k]
  {
    form[name := Str(value)]
  }

  /** Changes to two different fields commute; a second change of the same
      field overrides the first. */
  lemma HandleChangeLaws(form: Form, a: string, b: string, va: string, vb: string)
    ensures a != b ==> HandleChange(HandleChange(form, a, va), b, vb) == HandleChange(HandleChange(form, b, vb), a, va)
    ensures HandleChange(HandleChange(form, a, va), a, vb) == HandleChange(form, a, vb)
  {
  }

  /** Replaces the facility list and nothing else. An editor called without a
      list throws before it can update the state, so the form stays as it is. */
  function WithFacilities(form: Form, fs: seq<PlaceFacility>): (r: Form)
    ensures r.Keys == form.Keys + {"facilities"}
    ensures HasFacilityList(r) && FacilitiesOf(r) == fs
    ensures forall k :: k in form && k != "facilities" ==> r[k] == form[k]
  {
    form["facilities" := Facs(fs)]
  }

  /** `addFacility`: one blank entry at the end. */
  function AddFacility(form: Form): (r: Form)
    ensures !HasFacilityList(form) ==> r == form
    ensures HasFacilityList(form) ==>
      && HasFacilityList(r)
      && |FacilitiesOf(r)| == |FacilitiesOf(form)| + 1
      && FacilitiesOf(r)[..|FacilitiesOf(form)|] == FacilitiesOf(form)
      && FacilitiesOf(r)[|FacilitiesOf(form)|] == BlankFacility
      && r.Keys == form.Keys
      && forall k :: k in form && k != "facilities" ==> r[k] == form[k]
  {
    if !HasFacilityList(form) then form
    else
      var fs := FacilitiesOf(form) + [BlankFacility];
      assert fs[..|FacilitiesOf(form)|] == FacilitiesOf(form);
      WithFacilities(form, fs)
  }

  /** `fs.filter((_, i) => i !== index)`. */
  function DropIndex(fs: seq<PlaceFacility>, index: int): (r: seq<PlaceFacility>)
    ensures 0 <= index < |fs| ==> r == fs[..index] + fs[index + 1..]
    ensures !(0 <= index < |fs|) ==> r == fs
  {
    if |fs| == 0 then []
    else
      var init := fs[..|fs| - 1];
      var rest := DropIndex(init, index);
      if index == |fs| - 1 then
        assert fs[..index] == init;
        rest
      else
        assert fs == init + [fs[|fs| - 1]];
        assert 0 <= index < |init| ==> init[index + 1..] + [fs[|fs| - 1]] == fs[index + 1..];
        rest + [fs[|fs| - 1]]
  }

  /** `removeFacility(index)`: exactly that entry goes, the rest keep their
      order; an index outside the list changes nothing. */
  function RemoveFacility(form: Form, index: int): (r: Form)
    ensures !HasFacilityList(form) ==> r == form
    ensures HasFacilityList(form) ==>
      && HasFacilityList(r)
      && r.Keys == form.Keys
      && (0 <= index < |FacilitiesOf(form)| ==>
            && |FacilitiesOf(r)| == |FacilitiesOf(form)| - 1
            && (forall j :: 0 <= j < index ==> FacilitiesOf(r)[j] == FacilitiesOf(form)[j])
            && (forall j :: index <= j < |FacilitiesOf(r)| ==> FacilitiesOf(r)[j] == FacilitiesOf(form)[j + 1]))
      && (!(0 <= index < |FacilitiesOf(form)|) ==> r == form)
      && forall k :: k in form && k != "facilities" ==> r[k] == form[k]
  {
    if !HasFacilityList(form) then form
    else
      var fs := FacilitiesOf(form);
      if 0 <= index < |fs| then WithFacilities(form, DropIndex(fs, index))
      else form
  }

  /** Removing the entry just added gives back the form. */
  lemma RemoveUndoesAdd(form: Form)
    requires HasFacilityList(form)
    ensures RemoveFacility(AddFacility(form), |FacilitiesOf(form)|) == form
  {
    var fs := FacilitiesOf(form);
    var added := AddFacility(form);
    assert FacilitiesOf(added)[..|fs|] == fs;
    assert RemoveFacility(added, |fs|) == form["facilities" := Facs(fs)];
  }

  datatype FacilityField = NameField | EmailField | MessageField

  function SetField(f: PlaceFacility, field: FacilityField, value: string): (g: PlaceFacility)
    ensures field == NameField ==> g == f.(name := value)
    ensures field == EmailField ==> g == f.(email := value)
    ensures field == MessageField ==> g == f.(message := value)
  {
    match field
    case NameField => f.(name := value)
    case EmailField => f.(email := value)
    case MessageField => f.(message := value)
  }

  function FieldOf(f: PlaceFacility, field: FacilityField): string {
    match field
    case NameField => f.name
    case EmailField => f.email
    case MessageField => f.message
  }

  /** `handleFacilityChange(index, field, value)`: one field of one entry. With
      no entry at `index` the assignment throws and the form stays as it is. */
  function HandleFacilityChange(form: Form, index: int, field: FacilityField, value: string): (r: Form)
    ensures !HasFacilityList(form) || !(0 <= index < |FacilitiesOf(form)|) ==> r == form
    ensures HasFacilityList(form) && 0 <= index < |FacilitiesOf(form)| ==>
      && HasFacilityList(r)
      && r.Keys == form.Keys
      && |FacilitiesOf(r)| == |FacilitiesOf(form)|
      && FieldOf(FacilitiesOf(r)[index], field) == value
      && (forall g :: g != field ==> FieldOf(FacilitiesOf(r)[index], g) == FieldOf(FacilitiesOf(form)[index], g))
      && (forall j :: 0 <= j < |FacilitiesOf(form)| && j != index ==> FacilitiesOf(r)[j] == FacilitiesOf(form)[j])
      && forall k :: k in form && k != "facilities" ==> r[k] == form[k]
  {
    if !HasFacilityList(form) then form
    else
      var fs := FacilitiesOf(form);
      if 0 <= index < |fs| then WithFacilities(form, fs[index := SetField(fs[index], field, value)])
      else form
  }

  /** Writing back a field's previous value restores the form. */
  lemma FacilityChangeUndo(form: Form, index: int, field: FacilityField, value: string)
    requires HasFacilityList(form) && 0 <= index < |FacilitiesOf(form)|
    ensures var previous := FieldOf(FacilitiesOf(form)[index], field);
      HandleFacilityChange(HandleFacilityChange(form, index, field, value), index, field, previous) == form
  {
    var fs := FacilitiesOf(form);
    var r := HandleFacilityChange(HandleFacilityChange(form, index, field, value), index, field, FieldOf(fs[index], field));
    assert FacilitiesOf(r) == fs;
  }
}
