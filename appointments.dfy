/** The appointment record and the pure operations on the list of records that
    `handleFormSubmit`, `deleteAppointment` and the dashboard's edit button use. */
module Appointments {
  import opened Wrappers
  import opened Lists

  /** One stored appointment: the seven form fields, the generated `id` and the
      `createdAt` stamp. Dates are `YYYY-MM-DD` text and times `HH:MM` text, as the
      form's inputs deliver them. */
  datatype Appointment = Appointment(
    id: string,
    patientName: string,
    doctorName: string,
    hospitalName: string,
    specialty: string,
    date: string,
    time: string,
    reason: string,
    createdAt: string)

  /** The values read from the form (`formData` in `handleFormSubmit`). */
  datatype FormData = FormData(
    patientName: string,
    doctorName: string,
    hospitalName: string,
    specialty: string,
    date: string,
    time: string,
    reason: string)

  /** The form fields of a record, as `openEditModal` puts them back into the form. */
  function FormOf(a: Appointment): FormData {
    FormData(a.patientName, a.doctorName, a.hospitalName, a.specialty, a.date, a.time, a.reason)
  }

  /** `{ id, ...formData, createdAt }`: a new record holding the form's values. */
  function NewAppointment(id: string, f: FormData, createdAt: string): (r: Appointment)
    ensures r.id == id && r.createdAt == createdAt && FormOf(r) == f
  {
    Appointment(id, f.patientName, f.doctorName, f.hospitalName, f.specialty,
                f.date, f.time, f.reason, createdAt)
  }

  /** `{ ...a, ...formData }`: the form's seven values overwrite the record's, while
      `id` and `createdAt`, which the form does not carry, are kept. */
  function Merge(a: Appointment, f: FormData): (r: Appointment)
    ensures r.id == a.id && r.createdAt == a.createdAt && FormOf(r) == f
  {
    a.(patientName := f.patientName, doctorName := f.doctorName,
       hospitalName := f.hospitalName, specialty := f.specialty,
       date := f.date, time := f.time, reason := f.reason)
  }

  /** Saving the edit form unchanged leaves the record as it was; changing one field in
      it changes only that field; a second edit replaces the first. */
  lemma MergeProperties(a: Appointment, f: FormData, g: FormData, name: string)
    ensures Merge(a, FormOf(a)) == a
    ensures Merge(a, FormOf(a).(patientName := name)) == a.(patientName := name)
    ensures Merge(Merge(a, f), g) == Merge(a, g)
  {
  }

  /** `s.findIndex(apt => apt.id === id)`: the first position holding the id, or -1. */
  function FindIndex(s: seq<Appointment>, id: string): (r: int)
    ensures -1 <= r < |s|
    ensures r == -1 <==> forall k :: 0 <= k < |s| ==> s[k].id != id
    ensures r >= 0 ==> s[r].id == id && forall k :: 0 <= k < r ==> s[k].id != id
  {
    if s == [] then -1
    else if s[0].id == id then 0
    else
      var k := FindIndex(s[1..], id);
      if k == -1 then -1 else k + 1
  }

  /** `appointments.find(a => a.id === id)`: the first record holding the id. */
  function FindById(s: seq<Appointment>, id: string): (r: Option<Appointment>)
    ensures r.None? <==> forall k :: 0 <= k < |s| ==> s[k].id != id
    ensures r.Some? ==> r.value in s && r.value.id == id
    ensures r.Some? ==> exists i :: 0 <= i < |s| && s[i] == r.value && forall k :: 0 <= k < i ==> s[k].id != id
  {
    var i := FindIndex(s, id);
    if i == -1 then None else Some(s[i])
  }

  /** `s.filter(apt => apt.id !== id)`. */
  function Without(s: seq<Appointment>, id: string): seq<Appointment> {
    Keep(s, (a: Appointment) => a.id != id)
  }

  /** Deleting keeps every record with another id, in order, and only those. */
  lemma WithoutSpec(s: seq<Appointment>, id: string)
    ensures IsSublist(Without(s, id), s)
    ensures forall a :: a in Without(s, id) <==> a in s && a.id != id
    ensures (forall k :: 0 <= k < |s| ==> s[k].id != id) ==> Without(s, id) == s
    ensures forall a :: multiset(Without(s, id))[a] == if a.id != id then multiset(s)[a] else 0
  {
    KeepCount(s, (a: Appointment) => a.id != id);
    KeepMembership(s, (a: Appointment) => a.id != id);
    KeepSublist(s, (a: Appointment) => a.id != id);
    if forall k :: 0 <= k < |s| ==> s[k].id != id {
      KeepAll(s, (a: Appointment) => a.id != id);
    }
  }

  /** Deleting the same id twice gives the list that deleting it once gives. */
  lemma WithoutIdempotent(s: seq<Appointment>, id: string)
    ensures Without(Without(s, id), id) == Without(s, id)
  {
    KeepIdempotent(s, (a: Appointment) => a.id != id);
  }

  /** No two records share an id. The page never checks this: `generateId` draws
      seven random base-36 characters. */
  predicate IdsDistinct(s: seq<Appointment>) {
    Pairwise(s, (a: Appointment, b: Appointment) => a.id != b.id)
  }

  /** Deleting keeps distinct ids distinct. */
  lemma WithoutKeepsIdsDistinct(s: seq<Appointment>, id: string)
    requires IdsDistinct(s)
    ensures IdsDistinct(Without(s, id))
  {
    KeepPairwise(s, (a: Appointment) => a.id != id, (a: Appointment, b: Appointment) => a.id != b.id);
  }

  /** The list after the update branch of `handleFormSubmit`: the first record holding
      the id, if any, takes the form's values; every other record stays. */
  predicate IsUpdateOf(after: seq<Appointment>, before: seq<Appointment>, id: string, form: FormData) {
    var i := FindIndex(before, id);
    if i == -1 then after == before else after == before[i := Merge(before[i], form)]
  }

  /** An update keeps the length, touches at most the first record with the id, and
      there replaces the seven form fields while keeping id and creation stamp; the ids
      of the list, and so their distinctness, do not change. */
  lemma UpdateSpec(after: seq<Appointment>, before: seq<Appointment>, id: string, form: FormData)
    requires IsUpdateOf(after, before, id, form)
    ensures |after| == |before|
    ensures forall k :: 0 <= k < |before| ==> after[k].id == before[k].id && after[k].createdAt == before[k].createdAt
    ensures forall k :: 0 <= k < |before| && (before[k].id != id || exists j :: 0 <= j < k && before[j].id == id) ==>
              after[k] == before[k]
    ensures forall k :: 0 <= k < |before| && before[k].id == id && (forall j :: 0 <= j < k ==> before[j].id != id) ==>
              FormOf(after[k]) == form
    ensures IdsDistinct(before) ==> IdsDistinct(after)
  {
    var i := FindIndex(before, id);
    if i >= 0 {
      forall k | 0 <= k < |before| && before[k].id == id && (forall j :: 0 <= j < k ==> before[j].id != id)
        ensures k == i
      {
      }
    }
  }

  /** Appending a record whose id is new keeps ids distinct. */
  lemma CreateKeepsIdsDistinct(s: seq<Appointment>, a: Appointment)
    requires IdsDistinct(s) && FindIndex(s, a.id) == -1
    ensures IdsDistinct(s + [a])
  {
  }
}
