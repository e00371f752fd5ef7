/** POST /api/medical-records: the required-field guard and the stored row. */
module MedicalRecords {
  import opened Values
  import opened Tables
  import opened Schema

  datatype RecordRequest = RecordRequest(
    patientId: Option<string>,
    doctorId: Option<string>,
    diagnosis: Option<string>,
    prescription: Option<string>,
    notes: Option<string>,
    visitDate: Option<string>)

  predicate RecordFieldsPresent(req: RecordRequest)
  {
    Present(req.patientId) && Present(req.doctorId) && Present(req.diagnosis) && Present(req.visitDate)
  }

  function AddRecord(db: Db, req: RecordRequest): (h: Handled)
    ensures h.db.users == db.users && h.db.doctors == db.doctors && h.db.patients == db.patients
    ensures h.db.appointments == db.appointments
    ensures |h.db.records.rows| == |db.records.rows| + (if h.response.status == 201 then 1 else 0)
    ensures h.db.records.rows[..|db.records.rows|] == db.records.rows
  {
    if !Present(req.patientId) || !Present(req.doctorId) || !Present(req.diagnosis) || !Present(req.visitDate) then
      Handled(Response(400, "Missing fields", None), db)
    else
      var ins := Insert(db.records, MedicalRecord(req.patientId.value, req.doctorId.value, req.diagnosis.value,
        OrElse(req.prescription, ""), OrElse(req.notes, ""), req.visitDate.value));
      Handled(Response(201, "Record added", Some(ins.id)), db.(records := ins.table))
  }

  /** 400 exactly when one of patient, doctor, diagnosis or visit date is
      missing or empty, with no change; otherwise one record is appended with
      those four fields as given and an absent prescription or notes stored as
      the empty string, and nothing else changes. */
  lemma AddRecordContract(db: Db, req: RecordRequest)
    ensures var h := AddRecord(db, req);
      && (h.response.status == 400 <==> !RecordFieldsPresent(req))
      && (h.response.status == 400 ==> h.db == db)
      && (h.response.status != 400 ==>
            && h.response == Response(201, "Record added", Some(db.records.nextId))
            && h.db == db.(records := h.db.records)
            && |h.db.records.rows| == |db.records.rows| + 1
            && h.db.records.rows[..|db.records.rows|] == db.records.rows
            && (var rec := h.db.records.rows[|db.records.rows|].data;
               && rec.patientId == req.patientId.value && rec.doctorId == req.doctorId.value
               && rec.diagnosis == req.diagnosis.value && rec.visitDate == req.visitDate.value
               && (rec.prescription == if req.prescription.Some? then req.prescription.value else "")
               && (rec.notes == if req.notes.Some? then req.notes.value else ""))
            && (Valid(db.records) ==> Valid(h.db.records)))
  {
  }
}
