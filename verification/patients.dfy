/** `resolvePatientId`: get-or-create a patient by email. */
module Patients {
  import opened Values
  import opened Tables
  import opened Schema

  datatype Resolved = Resolved(id: nat, patients: Table<Patient>)

  /** `if (patient_id)`: a supplied id counts only when it is truthy (non-zero). */
  predicate IdGiven(patientId: Option<nat>)
  {
    patientId.Some? && patientId.value != 0
  }

  /** `WHERE email = ?` for a non-null email. */
  function EmailIs(email: string): Row<Patient> -> bool
  {
    (r: Row<Patient>) => r.data.email == Some(email)
  }

  /** Some stored patient has this email. */
  predicate KnownEmail(rows: seq<Row<Patient>>, email: string)
  {
    exists i :: 0 <= i < |rows| && rows[i].data.email == Some(email)
  }

  /** The minimal profile created for an unknown email. */
  function Placeholder(name: Option<string>, email: string): Patient
  {
    Patient(Some(OrElse(name, "Unknown")), Some(email), Some(""), "2000-01-01", "Other", "Not Provided")
  }

  function ResolvePatientId(patients: Table<Patient>, patientId: Option<nat>, email: Option<string>, name: Option<string>): (r: Result<Resolved>)
    ensures r.Ok? ==> |patients.rows| <= |r.value.patients.rows| <= |patients.rows| + 1
    ensures r.Ok? ==> r.value.patients.rows[..|patients.rows|] == patients.rows
    ensures r.Error? ==> !IdGiven(patientId) && !Present(email)
  {
    if IdGiven(patientId) then Ok(Resolved(patientId.value, patients))
    else if !Present(email) then Error("patient_email required")
    else
      var k := FirstIndex(patients.rows, EmailIs(email.value));
      if k < |patients.rows| then Ok(Resolved(patients.rows[k].id, patients))
      else
        var ins := Insert(patients, Placeholder(name, email.value));
        Ok(Resolved(ins.id, ins.table))
  }

  /** A truthy `patient_id` is returned unchanged and the store is not touched;
      without one, a missing or empty email is the error "patient_email required". */
  lemma ResolveGivenOrMissing(patients: Table<Patient>, patientId: Option<nat>, email: Option<string>, name: Option<string>)
    ensures IdGiven(patientId) ==> ResolvePatientId(patients, patientId, email, name) == Ok(Resolved(patientId.value, patients))
    ensures !IdGiven(patientId) && !Present(email) ==> ResolvePatientId(patients, patientId, email, name) == Error("patient_email required")
  {
  }

  /** A known email resolves to the first patient stored with it, and nothing
      is inserted. */
  lemma ResolveKnownEmail(patients: Table<Patient>, patientId: Option<nat>, email: string, name: Option<string>)
    requires !IdGiven(patientId) && email != "" && KnownEmail(patients.rows, email)
    ensures var r := ResolvePatientId(patients, patientId, Some(email), name);
      && r.Ok?
      && r.value.patients == patients
      && exists k :: 0 <= k < |patients.rows| && patients.rows[k].data.email == Some(email)
           && patients.rows[k].id == r.value.id
           && forall j :: 0 <= j < k ==> patients.rows[j].data.email != Some(email)
  {
    var i :| 0 <= i < |patients.rows| && patients.rows[i].data.email == Some(email);
    assert EmailIs(email)(patients.rows[i]);
    var k := FirstIndex(patients.rows, EmailIs(email));
    assert k < |patients.rows|;
    assert EmailIs(email)(patients.rows[k]);
    forall j | 0 <= j < k ensures patients.rows[j].data.email != Some(email) {
      assert !EmailIs(email)(patients.rows[j]);
    }
  }

  /** An unknown email inserts exactly one placeholder patient, named after
      `patient_name` or "Unknown", and resolves to its fresh key. */
  lemma ResolveNewEmail(patients: Table<Patient>, patientId: Option<nat>, email: string, name: Option<string>)
    requires !IdGiven(patientId) && email != "" && !KnownEmail(patients.rows, email)
    ensures var r := ResolvePatientId(patients, patientId, Some(email), name);
      && r.Ok?
      && r.value.patients.rows == patients.rows + [Row(r.value.id, Placeholder(name, email))]
      && r.value.patients.rows[|patients.rows|].data.name == Some(if name.Some? && name.value != "" then name.value else "Unknown")
      && (Valid(patients) ==>
            && Valid(r.value.patients)
            && r.value.id >= 1
            && forall j :: 0 <= j < |patients.rows| ==> patients.rows[j].id != r.value.id)
  {
    var ins := Insert(patients, Placeholder(name, email));
    assert ins.table.rows == patients.rows + [Row(ins.id, Placeholder(name, email))];
  }

  /** Resolving the same email twice in a row gives the same patient and the
      second call inserts nothing. */
  lemma ResolveTwiceSamePatient(patients: Table<Patient>, email: string, name1: Option<string>, name2: Option<string>)
    requires email != ""
    ensures var r1 := ResolvePatientId(patients, None, Some(email), name1);
      r1.Ok? &&
      var r2 := ResolvePatientId(r1.value.patients, None, Some(email), name2);
      r2 == Ok(Resolved(r1.value.id, r1.value.patients))
  {
    var r1 := ResolvePatientId(patients, None, Some(email), name1);
    if KnownEmail(patients.rows, email) {
      ResolveKnownEmail(patients, None, email, name1);
      var k :| 0 <= k < |patients.rows| && patients.rows[k].data.email == Some(email)
           && patients.rows[k].id == r1.value.id
           && forall j :: 0 <= j < k ==> patients.rows[j].data.email != Some(email);
      var k2 := FirstIndex(patients.rows, EmailIs(email));
      assert EmailIs(email)(patients.rows[k]);
      assert k2 <= k;
    } else {
      ResolveNewEmail(patients, None, email, name1);
      var rows1 := r1.value.patients.rows;
      assert rows1[|patients.rows|].data.email == Some(email);
      var k2 := FirstIndex(rows1, EmailIs(email));
      assert EmailIs(email)(rows1[|patients.rows|]);
      forall j | 0 <= j < |patients.rows| ensures !EmailIs(email)(rows1[j]) {
        assert rows1[j] == patients.rows[j];
      }
    }
  }
}
