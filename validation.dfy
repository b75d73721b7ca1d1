/** `validateForm`: a presence check on the six required inputs of the booking form. */
module Validation {
  import opened Lists
  import opened Appointments

  /** The six required inputs, in the order the page checks them. */
  datatype Field = PatientName | DoctorName | HospitalName | Specialty | AppointmentDate | AppointmentTime
  {
    /** The id of the input element. */
    function InputId(): string {
      match this
      case PatientName => "patientName"
      case DoctorName => "doctorNameInput"
      case HospitalName => "hospitalName"
      case Specialty => "specialty"
      case AppointmentDate => "appointmentDate"
      case AppointmentTime => "appointmentTime"
    }

    /** The id of the element that shows the field's error. */
    function ErrorId(): string {
      match this
      case PatientName => "patientNameError"
      case DoctorName => "doctorNameError"
      case HospitalName => "hospitalNameError"
      case Specialty => "specialtyError"
      case AppointmentDate => "dateError"
      case AppointmentTime => "timeError"
    }

    /** The error text shown for an empty field. */
    function Message(): string {
      match this
      case PatientName => "Patient name is required"
      case DoctorName => "Doctor name is required"
      case HospitalName => "Hospital is required"
      case Specialty => "Specialty is required"
      case AppointmentDate => "Date is required"
      case AppointmentTime => "Time is required"
    }
  }

  const RequiredFields: seq<Field> :=
    [PatientName, DoctorName, HospitalName, Specialty, AppointmentDate, AppointmentTime]

  /** The value of one required input. The reason input is not one of them. */
  function ValueOf(form: FormData, field: Field): string {
    match field
    case PatientName => form.patientName
    case DoctorName => form.doctorName
    case HospitalName => form.hospitalName
    case Specialty => form.specialty
    case AppointmentDate => form.date
    case AppointmentTime => form.time
  }

  predicate IsMissing(form: FormData, field: Field) {
    ValueOf(form, field) == ""
  }

  /** The fields that get an error, in checking order. */
  function MissingFields(form: FormData): seq<Field> {
    Keep(RequiredFields, (field: Field) => IsMissing(form, field))
  }

  lemma RequiredFieldsAll(field: Field)
    ensures field in RequiredFields
  {
  }

  lemma RequiredFieldsDistinct()
    ensures NoDuplicates(RequiredFields)
  {
  }

  /** Every empty required field is reported, each once and in checking order, and
      nothing else is. */
  lemma MissingFieldsSpec(form: FormData)
    ensures forall field :: field in MissingFields(form) <==> IsMissing(form, field)
    ensures NoDuplicates(MissingFields(form))
    ensures IsSublist(MissingFields(form), RequiredFields)
  {
    KeepMembership(RequiredFields, (field: Field) => IsMissing(form, field));
    KeepSublist(RequiredFields, (field: Field) => IsMissing(form, field));
    forall field ensures field in MissingFields(form) <==> IsMissing(form, field) {
      RequiredFieldsAll(field);
    }
    RequiredFieldsDistinct();
    KeepNoDuplicates(RequiredFields, (field: Field) => IsMissing(form, field));
  }

  /** Only presence matters: two forms whose required inputs are empty in the same
      places get the same errors, whatever their text and whatever their reason. */
  lemma MissingFieldsPresenceOnly(f: FormData, g: FormData)
    requires forall field :: IsMissing(f, field) == IsMissing(g, field)
    ensures MissingFields(f) == MissingFields(g)
  {
    KeepCongruent(RequiredFields, (field: Field) => IsMissing(f, field),
                  (field: Field) => IsMissing(g, field));
  }

  /** A form missing only the patient name and the time reports exactly those two. */
  lemma TwoMissingFields(form: FormData)
    requires form.patientName == "" && form.time == ""
    requires form.doctorName != "" && form.hospitalName != "" && form.specialty != "" && form.date != ""
    ensures MissingFields(form) == [PatientName, AppointmentTime]
  {
  }

  /** What the page shows for one missing field: the error class on the input with
      `inputId`, and `message` as the text of the element with `errorId`. */
  datatype ShownError = ShownError(inputId: string, errorId: string, message: string)

  function Shown(field: Field): ShownError {
    ShownError(field.InputId(), field.ErrorId(), field.Message())
  }

  /** The errors shown for a list of fields, one per field, in the list's order. */
  function ShownAll(fields: seq<Field>): (r: seq<ShownError>)
    ensures |r| == |fields|
  {
    seq(|fields|, i requires 0 <= i < |fields| => Shown(fields[i]))
  }

  /** The errors the page shows for a form: those of its missing fields. */
  function ShownErrors(form: FormData): seq<ShownError> {
    ShownAll(MissingFields(form))
  }

  /** Different fields have different input ids, error ids and messages. */
  lemma FieldTextsDistinct(f: Field, g: Field)
    requires f != g
    ensures f.InputId() != g.InputId() && f.ErrorId() != g.ErrorId() && f.Message() != g.Message()
  {
    assert f.InputId()[..4] != g.InputId()[..4] || f.InputId()[4..] != g.InputId()[4..];
  }

  /** A field's error is among those shown for a list exactly when the field is in the
      list, and a list without repeats writes no error element twice. */
  lemma ShownAllSpec(fields: seq<Field>)
    ensures forall field :: Shown(field) in ShownAll(fields) <==> field in fields
    ensures forall e :: e in ShownAll(fields) ==> exists field :: field in fields && e == Shown(field)
    ensures NoDuplicates(fields) ==>
      forall i, j :: 0 <= i < j < |fields| ==> ShownAll(fields)[i].errorId != ShownAll(fields)[j].errorId
  {
    var r := ShownAll(fields);
    forall field | Shown(field) in r ensures field in fields {
      var i :| 0 <= i < |r| && r[i] == Shown(field);
      if fields[i] != field {
        FieldTextsDistinct(fields[i], field);
      }
    }
    forall field | field in fields ensures Shown(field) in r {
      var i :| 0 <= i < |fields| && fields[i] == field;
      assert r[i] == Shown(field);
    }
    forall e | e in r ensures exists field :: field in fields && e == Shown(field) {
      var i :| 0 <= i < |r| && r[i] == e;
      assert fields[i] in fields;
    }
    if NoDuplicates(fields) {
      forall i, j | 0 <= i < j < |fields| ensures r[i].errorId != r[j].errorId {
        FieldTextsDistinct(fields[i], fields[j]);
      }
    }
  }

  /** A field's error is shown, with its own input, error element and message, exactly
      when the field is empty; every shown error is one of those; no error element is
      written twice. */
  lemma ShownErrorsSpec(form: FormData)
    ensures forall field :: Shown(field) in ShownErrors(form) <==> IsMissing(form, field)
    ensures forall e :: e in ShownErrors(form) ==> exists field :: IsMissing(form, field) && e == Shown(field)
    ensures forall i, j :: 0 <= i < j < |ShownErrors(form)| ==> ShownErrors(form)[i].errorId != ShownErrors(form)[j].errorId
  {
    MissingFieldsSpec(form);
    ShownAllSpec(MissingFields(form));
  }

  /** `validateForm`: visits the six fields in order, records an error for each empty
      one and clears the result flag, so the form is valid exactly when no required
      field is empty. */
  method ValidateForm(form: FormData) returns (isValid: bool, errors: seq<Field>)
    ensures errors == MissingFields(form)
    ensures isValid <==> forall field :: !IsMissing(form, field)
    ensures isValid <==> errors == []
  {
    isValid := true;
    errors := [];
    var i := 0;
    while i < |RequiredFields|
      invariant 0 <= i <= |RequiredFields|
      invariant errors == Keep(RequiredFields[..i], (field: Field) => IsMissing(form, field))
      invariant isValid <==> forall k :: 0 <= k < i ==> !IsMissing(form, RequiredFields[k])
    {
      var field := RequiredFields[i];
      KeepAppend(RequiredFields[..i], [field], (field: Field) => IsMissing(form, field));
      assert RequiredFields[..i + 1] == RequiredFields[..i] + [field];
      if ValueOf(form, field) == "" {
        errors := errors + [field];
        isValid := false;
      }
      i := i + 1;
    }
    assert RequiredFields[..i] == RequiredFields;
    MissingFieldsSpec(form);
    forall field ensures field in RequiredFields { RequiredFieldsAll(field); }
  }
}
