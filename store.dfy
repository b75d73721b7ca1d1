/** The page's global `appointments` array and the handlers that change it:
    `loadAppointments`, the two branches of `handleFormSubmit`, and `deleteAppointment`. */
module Store {
  import opened Wrappers
  import opened Lists
  import opened Appointments
  import opened Validation

  /** What `localStorage.getItem` returns, together with what `JSON.parse` makes of
      the text (`None` when it throws). The parser itself is not modelled. */
  datatype StoredSlot = Missing | Stored(text: string, parsed: Option<seq<Appointment>>)

  /** The six required fields of a record are filled in. */
  predicate IsComplete(a: Appointment) {
    forall field :: !IsMissing(FormOf(a), field)
  }

  predicate AllComplete(s: seq<Appointment>) {
    forall k :: 0 <= k < |s| ==> IsComplete(s[k])
  }

  /** Committing only validated forms keeps every stored record complete; deleting
      keeps it too. */
  lemma CompletePreserved(s: seq<Appointment>, form: FormData, id: string, createdAt: string, after: seq<Appointment>)
    requires AllComplete(s) && MissingFields(form) == []
    ensures AllComplete(s + [NewAppointment(id, form, createdAt)])
    ensures IsUpdateOf(after, s, id, form) ==> AllComplete(after)
    ensures AllComplete(Without(s, id))
  {
    MissingFieldsSpec(form);
    KeepSubset(s, (a: Appointment) => a.id != id);
    var w := Without(s, id);
    forall k | 0 <= k < |w| ensures IsComplete(w[k]) {
      assert w[k] in s;
    }
  }

  class AppointmentStore {
    /** The global `appointments` array, in insertion order. */
    var appointments: seq<Appointment>

    constructor ()
      ensures appointments == []
    {
      appointments := [];
    }

    /** `loadAppointments`: a missing or empty stored text leaves the list as it is, a
        text that does not parse empties it, otherwise the parsed list replaces it. */
    method Load(slot: StoredSlot)
      modifies this
      ensures slot.Missing? ==> appointments == old(appointments)
      ensures slot.Stored? && slot.text == "" ==> appointments == old(appointments)
      ensures slot.Stored? && slot.text != "" && slot.parsed.None? ==> appointments == []
      ensures slot.Stored? && slot.text != "" && slot.parsed.Some? ==> appointments == slot.parsed.value
    {
      if slot.Stored? && slot.text != "" {
        match slot.parsed
        case Some(list) => appointments := list;
        case None => appointments := [];
      }
    }

    /** The create branch: `appointments.push({ id, ...formData, createdAt })`. */
    method Create(id: string, form: FormData, createdAt: string)
      modifies this
      ensures appointments == old(appointments) + [NewAppointment(id, form, createdAt)]
      ensures IdsDistinct(old(appointments)) && FindIndex(old(appointments), id) == -1 ==>
                IdsDistinct(appointments)
    {
      var created := NewAppointment(id, form, createdAt);
      if IdsDistinct(appointments) && FindIndex(appointments, id) == -1 {
        CreateKeepsIdsDistinct(appointments, created);
      }
      appointments := appointments + [created];
    }

    /** The update branch: find the first record with the id and, if there is one,
        overwrite it with `{ ...appointments[index], ...formData }`. */
    method Update(id: string, form: FormData)
      modifies this
      ensures IsUpdateOf(appointments, old(appointments), id, form)
      ensures |appointments| == |old(appointments)|
      ensures FindIndex(old(appointments), id) == -1 ==> appointments == old(appointments)
      ensures IdsDistinct(old(appointments)) ==> IdsDistinct(appointments)
    {
      var index := FindIndex(appointments, id);
      if index != -1 {
        appointments := appointments[index := Merge(appointments[index], form)];
      }
      UpdateSpec(appointments, old(appointments), id, form);
    }

    /** `deleteAppointment` once the user has confirmed: keep the records with other ids. */
    method Delete(id: string)
      modifies this
      ensures appointments == Without(old(appointments), id)
      ensures IdsDistinct(old(appointments)) ==> IdsDistinct(appointments)
    {
      if IdsDistinct(appointments) {
        WithoutKeepsIdsDistinct(appointments, id);
      }
      appointments := Without(appointments, id);
    }

    /** `handleFormSubmit`: validate; on failure change nothing; otherwise update the
        record being edited (a non-empty editing id) or append a new one. `newId` and
        `createdAt` stand for `generateId()` and the clock. */
    method Submit(form: FormData, editingId: Option<string>, newId: string, createdAt: string)
      returns (isValid: bool, errors: seq<Field>)
      modifies this
      ensures errors == MissingFields(form) && (isValid <==> errors == [])
      ensures !isValid ==> appointments == old(appointments)
      ensures isValid && editingId.Some? && editingId.value != "" ==>
                IsUpdateOf(appointments, old(appointments), editingId.value, form)
      ensures isValid && !(editingId.Some? && editingId.value != "") ==>
                appointments == old(appointments) + [NewAppointment(newId, form, createdAt)]
      ensures AllComplete(old(appointments)) ==> AllComplete(appointments)
    {
      isValid, errors := ValidateForm(form);
      if !isValid {
        return;
      }
      ghost var before := appointments;
      if editingId.Some? && editingId.value != "" {
        Update(editingId.value, form);
        if AllComplete(before) {
          CompletePreserved(before, form, editingId.value, createdAt, appointments);
        }
      } else {
        Create(newId, form, createdAt);
        if AllComplete(before) {
          CompletePreserved(before, form, newId, createdAt, appointments);
        }
      }
    }
  }
}
