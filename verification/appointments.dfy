/** The appointment handlers of server.js: the slot-availability query, the
    booking decision, and the status update. */
module Appointments {
  import opened Values
  import opened Tables
  import opened SlotGrid
  import opened Availability
  import opened Schema
  import opened Patients

  // ---------------------------------------------------------------------
  // GET /api/appointments/slots
  // ---------------------------------------------------------------------

  datatype SlotsReply =
    | SlotsRejected(status: nat, error: string)
    | SlotsListed(allSlots: seq<string>, takenSlots: seq<string>, availableSlots: seq<string>)

  /** `WHERE doctor_id=? AND appointment_date=?` */
  function OnDay(doctor: string, date: string): Row<Appointment> -> bool
  {
    (r: Row<Appointment>) => r.data.doctorId == doctor && r.data.date == date
  }

  /** `rows.map((r) => r.time)` for the `TIME_FORMAT(appointment_time, "%H:%i")`
      projection of that doctor's appointments on that date. */
  function TakenSlots(appts: seq<Row<Appointment>>, doctor: string, date: string): seq<string>
  {
    Map(Filter(appts, OnDay(doctor, date)), StoredSlot)
  }

  /** An appointment's time as the slots query reads it back. */
  function StoredSlot(r: Row<Appointment>): string
  {
    TimeFormatHM(r.data.time)
  }

  function Slots(db: Db, doctorId: Option<string>, date: Option<string>): SlotsReply
  {
    if !Present(doctorId) || !Present(date) then SlotsRejected(400, "doctor_id and date required")
    else
      var taken := TakenSlots(db.appointments.rows, doctorId.value, date.value);
      var allSlots := Grid();
      SlotsListed(allSlots, taken, Available(allSlots, taken))
  }

  /** Some appointment of `doctor` on `date` reads back as `slot`. */
  predicate SlotTaken(appts: seq<Row<Appointment>>, doctor: string, date: string, slot: string)
  {
    exists i :: 0 <= i < |appts| && appts[i].data.doctorId == doctor && appts[i].data.date == date
      && TimeFormatHM(appts[i].data.time) == slot
  }

  lemma TakenSlotsMembers(appts: seq<Row<Appointment>>, doctor: string, date: string, slot: string)
    ensures slot in TakenSlots(appts, doctor, date) <==> SlotTaken(appts, doctor, date, slot)
  {
    var day := Filter(appts, OnDay(doctor, date));
    MapMembers(day, StoredSlot, slot);
    if slot in TakenSlots(appts, doctor, date) {
      var k :| 0 <= k < |day| && StoredSlot(day[k]) == slot;
      assert day[k] in appts && OnDay(doctor, date)(day[k]);
      var i :| 0 <= i < |appts| && appts[i] == day[k];
    }
    if SlotTaken(appts, doctor, date, slot) {
      var i :| 0 <= i < |appts| && appts[i].data.doctorId == doctor && appts[i].data.date == date
        && TimeFormatHM(appts[i].data.time) == slot;
      assert OnDay(doctor, date)(appts[i]);
      var k :| 0 <= k < |day| && day[k] == appts[i];
      assert StoredSlot(day[k]) == slot;
    }
  }

  /** How many appointments of `doctor` on `date` read back as `slot`: the
      number of times the slots query lists it. */
  function Occurrences(appts: seq<Row<Appointment>>, doctor: string, date: string, slot: string): nat
    decreases |appts|
  {
    if |appts| == 0 then 0
    else
      var here := appts[0].data.doctorId == doctor && appts[0].data.date == date
        && TimeFormatHM(appts[0].data.time) == slot;
      (if here then 1 else 0) + Occurrences(appts[1..], doctor, date, slot)
  }

  /** `taken_slots` lists each time once per appointment of that doctor and
      date that reads back as it: repeats are kept and nothing is dropped. */
  lemma {:induction false} TakenSlotsCounts(appts: seq<Row<Appointment>>, doctor: string, date: string, slot: string)
    ensures multiset(TakenSlots(appts, doctor, date))[slot] == Occurrences(appts, doctor, date, slot)
    decreases |appts|
  {
    if |appts| > 0 {
      TakenSlotsCounts(appts[1..], doctor, date, slot);
      var p := OnDay(doctor, date);
      var rest := Filter(appts[1..], p);
      if p(appts[0]) {
        assert Filter(appts, p) == [appts[0]] + rest;
        MapConcat([appts[0]], rest, StoredSlot);
        assert TakenSlots(appts, doctor, date) == [StoredSlot(appts[0])] + Map(rest, StoredSlot);
      } else {
        assert Filter(appts, p) == rest;
      }
    }
  }

  /** The slots answer: 400 without a doctor or a date; otherwise the full grid,
      the times taken for that doctor and date as stored (each as often as it
      is booked), and the grid slots not taken, in grid order. */
  lemma SlotsContract(db: Db, doctorId: Option<string>, date: Option<string>)
    ensures Slots(db, doctorId, date).SlotsRejected? <==> !Present(doctorId) || !Present(date)
    ensures Slots(db, doctorId, date).SlotsRejected? ==> Slots(db, doctorId, date).status == 400
    ensures Slots(db, doctorId, date).SlotsListed? ==>
      var reply := Slots(db, doctorId, date);
      && reply.allSlots == Grid()
      && (forall s :: s in reply.takenSlots <==> SlotTaken(db.appointments.rows, doctorId.value, date.value, s))
      && (forall s :: multiset(reply.takenSlots)[s] == Occurrences(db.appointments.rows, doctorId.value, date.value, s))
      && IsSubsequence(reply.availableSlots, reply.allSlots)
      && Ascending(reply.availableSlots)
      && (forall s :: s in reply.availableSlots <==> s in Grid() && s !in reply.takenSlots)
  {
    if Present(doctorId) && Present(date) {
      var reply := Slots(db, doctorId, date);
      forall s ensures s in reply.takenSlots <==> SlotTaken(db.appointments.rows, doctorId.value, date.value, s) {
        TakenSlotsMembers(db.appointments.rows, doctorId.value, date.value, s);
      }
      forall s ensures multiset(reply.takenSlots)[s] == Occurrences(db.appointments.rows, doctorId.value, date.value, s) {
        TakenSlotsCounts(db.appointments.rows, doctorId.value, date.value, s);
      }
      AvailableAscending(reply.takenSlots);
    }
  }

  // ---------------------------------------------------------------------
  // POST /api/appointments
  // ---------------------------------------------------------------------

  datatype BookingRequest = BookingRequest(
    patientName: Option<string>,
    patientEmail: Option<string>,
    doctorId: Option<string>,
    date: Option<string>,
    time: Option<string>,
    reason: Option<string>)

  /** `WHERE doctor_id=? AND appointment_date=? AND appointment_time=?` */
  function AtSlot(doctor: string, date: string, time: string): Row<Appointment> -> bool
  {
    (r: Row<Appointment>) => r.data.doctorId == doctor && r.data.date == date && r.data.time == time
  }

  /** Some stored appointment occupies exactly (doctor, date, stored time). */
  predicate Booked(appts: seq<Row<Appointment>>, doctor: string, date: string, time: string)
  {
    exists i :: 0 <= i < |appts| && appts[i].data.doctorId == doctor && appts[i].data.date == date
      && appts[i].data.time == time
  }

  /** All four required fields are truthy. */
  predicate FieldsPresent(req: BookingRequest)
  {
    Present(req.patientEmail) && Present(req.doctorId) && Present(req.date) && Present(req.time)
  }

  /** The request passes both 400 guards, stated without the grid itself: its
      first five characters are a well-formed time on the 30-minute grid of
      the working day. */
  predicate Admissible(req: BookingRequest)
  {
    FieldsPresent(req) && |req.time.value| >= 5 && IsGridTime(req.time.value[..5])
  }

  /** The grid slot an admissible request asks for. */
  function RequestedSlot(req: BookingRequest): string
    requires Admissible(req)
  {
    req.time.value[..5]
  }

  const BOOKED_MAIL_SENT := "Appointment created and email sent"
  const BOOKED_MAIL_FAILED := "Appointment created (Email failed)"

  /** The booking handler. `mailDelivered` is the outcome of `sendMail`, which
      is only attempted after the appointment row is inserted. */
  function Book(db: Db, req: BookingRequest, mailDelivered: bool): (h: Handled)
    ensures h.db.users == db.users && h.db.doctors == db.doctors && h.db.records == db.records
    ensures h.response.status in {201, 400, 409}
    ensures h.response.id.Some? <==> h.response.status == 201
    ensures |h.db.appointments.rows| == |db.appointments.rows| + (if h.response.status == 201 then 1 else 0)
    ensures h.db.appointments.rows[..|db.appointments.rows|] == db.appointments.rows
    ensures |db.patients.rows| <= |h.db.patients.rows| <= |db.patients.rows| + 1
    ensures h.db.patients.rows[..|db.patients.rows|] == db.patients.rows
  {
    if !Present(req.patientEmail) || !Present(req.doctorId) || !Present(req.date) || !Present(req.time) then
      Handled(Response(400, "Missing fields", None), db)
    else
      var normalized := SlotPrefix(req.time.value);
      if normalized !in Grid() then
        Handled(Response(400, "Invalid time slot", None), db)
      else
        // The email is present, so resolution cannot fail here.
        var resolved := ResolvePatientId(db.patients, None, req.patientEmail, req.patientName).value;
        var withPatient := db.(patients := resolved.patients);
        var stored := (GridMembership(normalized); ToMySQLTime(Some(normalized)).value);
        if |Filter(db.appointments.rows, AtSlot(req.doctorId.value, req.date.value, stored))| > 0 then
          Handled(Response(409, "Slot already booked", None), withPatient)
        else
          var ins := Insert(db.appointments, Appointment(resolved.id, req.patientName, req.patientEmail.value,
            req.doctorId.value, req.date.value, stored, req.reason, "Scheduled"));
          var message := if mailDelivered then BOOKED_MAIL_SENT else BOOKED_MAIL_FAILED;
          Handled(Response(201, message, Some(ins.id)), withPatient.(appointments := ins.table))
  }

  /** The stored time the booking writes is `toMySQLTime` of the normalized slot. */
  lemma StoredTimeIsMySQLTime(req: BookingRequest)
    requires Admissible(req)
    ensures ToMySQLTime(Some(SlotPrefix(req.time.value))) == Some(RequestedSlot(req) + ":00")
  {
    GridMembership(RequestedSlot(req));
    StoredSlotReadsBack(RequestedSlot(req));
  }

  /** Requests that miss a field or ask for an off-grid time are answered 400
      and change nothing; every other request gets past both guards. */
  lemma BookRejects(db: Db, req: BookingRequest, mailDelivered: bool)
    ensures Book(db, req, mailDelivered).response.status == 400 <==> !Admissible(req)
    ensures !Admissible(req) ==> Book(db, req, mailDelivered).db == db
    ensures !FieldsPresent(req) ==> Book(db, req, mailDelivered).response.message == "Missing fields"
  {
    if FieldsPresent(req) {
      SlotPrefixInGrid(req.time.value);
    }
  }

  /** An admissible request whose exact (doctor, date, time) is already stored
      is answered 409; the appointments are untouched, though the patient
      resolution that ran before the conflict query stays. */
  lemma BookConflict(db: Db, req: BookingRequest, mailDelivered: bool)
    requires Admissible(req)
    requires Booked(db.appointments.rows, req.doctorId.value, req.date.value, RequestedSlot(req) + ":00")
    ensures var h := Book(db, req, mailDelivered);
      && h.response.status == 409
      && h.db.appointments == db.appointments
      && h.db == db.(patients := ResolvePatientId(db.patients, None, req.patientEmail, req.patientName).value.patients)
  {
    SlotPrefixInGrid(req.time.value);
    StoredTimeIsMySQLTime(req);
    var stored := RequestedSlot(req) + ":00";
    FilterNonEmpty(db.appointments.rows, AtSlot(req.doctorId.value, req.date.value, stored));
    var i :| 0 <= i < |db.appointments.rows| && db.appointments.rows[i].data.doctorId == req.doctorId.value
      && db.appointments.rows[i].data.date == req.date.value && db.appointments.rows[i].data.time == stored;
    assert AtSlot(req.doctorId.value, req.date.value, stored)(db.appointments.rows[i]);
  }

  /** An admissible request for a free slot appends exactly one appointment:
      status "Scheduled", the normalized time with seconds, the requested
      doctor, date, email, name and reason, and the patient that resolution by
      email yields; the answer is 201 with the new key. */
  lemma BookInserts(db: Db, req: BookingRequest, mailDelivered: bool)
    requires Admissible(req)
    requires !Booked(db.appointments.rows, req.doctorId.value, req.date.value, RequestedSlot(req) + ":00")
    ensures var h := Book(db, req, mailDelivered);
      var resolved := ResolvePatientId(db.patients, None, req.patientEmail, req.patientName).value;
      && h.response.status == 201
      && h.response.id.Some?
      && h.db.patients == resolved.patients
      && h.db.appointments.rows == db.appointments.rows + [Row(h.response.id.value,
           Appointment(resolved.id, req.patientName, req.patientEmail.value, req.doctorId.value,
             req.date.value, RequestedSlot(req) + ":00", req.reason, "Scheduled"))]
      && (Valid(db.appointments) ==>
            && Valid(h.db.appointments)
            && forall j :: 0 <= j < |db.appointments.rows| ==> db.appointments.rows[j].id != h.response.id.value)
  {
    SlotPrefixInGrid(req.time.value);
    StoredTimeIsMySQLTime(req);
    var stored := RequestedSlot(req) + ":00";
    FilterNonEmpty(db.appointments.rows, AtSlot(req.doctorId.value, req.date.value, stored));
  }

  /** Whether the confirmation email is delivered changes only the message:
      the status, the returned key and the database are the same. */
  lemma MailOutcomeIrrelevant(db: Db, req: BookingRequest)
    ensures Book(db, req, true).response.status == Book(db, req, false).response.status
    ensures Book(db, req, true).response.id == Book(db, req, false).response.id
    ensures Book(db, req, true).db == Book(db, req, false).db
    ensures Book(db, req, true).response.status == 201 ==>
      Book(db, req, true).response.message == BOOKED_MAIL_SENT
      && Book(db, req, false).response.message == BOOKED_MAIL_FAILED
  {
  }

  // ---------------------------------------------------------------------
  // PUT /api/appointments/:id
  // ---------------------------------------------------------------------

  /** `UPDATE appointments SET status = ? WHERE id = ?` */
  function SetStatus(rows: seq<Row<Appointment>>, id: nat, status: string): seq<Row<Appointment>>
  {
    seq(|rows|, i requires 0 <= i < |rows| =>
      if rows[i].id == id then Row(rows[i].id, rows[i].data.(status := status)) else rows[i])
  }

  function HasId(id: nat): Row<Appointment> -> bool
  {
    (r: Row<Appointment>) => r.id == id
  }

  /** The status update: 400 on a falsy status, otherwise the UPDATE runs and
      its affected-row count decides between 404 and 200. */
  function UpdateStatus(db: Db, id: nat, status: Option<string>): (h: Handled)
    ensures h.response.status in {200, 400, 404}
    ensures h.db.users == db.users && h.db.doctors == db.doctors && h.db.patients == db.patients
    ensures h.db.records == db.records && h.db.appointments.nextId == db.appointments.nextId
    ensures |h.db.appointments.rows| == |db.appointments.rows|
    ensures forall i :: 0 <= i < |db.appointments.rows| ==>
      && h.db.appointments.rows[i].id == db.appointments.rows[i].id
      && h.db.appointments.rows[i].data == db.appointments.rows[i].data.(status := h.db.appointments.rows[i].data.status)
  {
    if !Present(status) then Handled(Response(400, "Status is required", None), db)
    else
      var updated := db.(appointments := db.appointments.(rows := SetStatus(db.appointments.rows, id, status.value)));
      var affected := |Filter(db.appointments.rows, HasId(id))|;
      if affected == 0 then Handled(Response(404, "Appointment not found", None), updated)
      else Handled(Response(200, "Appointment updated successfully", None), updated)
  }

  /** Some stored appointment has this key. */
  predicate HasAppointment(db: Db, id: nat)
  {
    exists i :: 0 <= i < |db.appointments.rows| && db.appointments.rows[i].id == id
  }

  /** An UPDATE whose key matches no row leaves every row as it was. */
  lemma SetStatusUnknownId(rows: seq<Row<Appointment>>, id: nat, status: string)
    requires forall i :: 0 <= i < |rows| ==> rows[i].id != id
    ensures SetStatus(rows, id, status) == rows
  {
  }

  /** 400 on an empty or missing status and 404 on an unknown key, both with no
      change; otherwise 200, and only the status of the row with that key changes. */
  lemma UpdateStatusContract(db: Db, id: nat, status: Option<string>)
    ensures var h := UpdateStatus(db, id, status);
      && (h.response.status == 400 <==> !Present(status))
      && (h.response.status == 404 <==> Present(status) && !HasAppointment(db, id))
      && (h.response.status != 200 ==> h.db == db)
      && (h.response.status == 200 ==>
            && h.db.users == db.users && h.db.doctors == db.doctors && h.db.patients == db.patients
            && h.db.records == db.records && h.db.appointments.nextId == db.appointments.nextId
            && |h.db.appointments.rows| == |db.appointments.rows|
            && forall i :: 0 <= i < |db.appointments.rows| ==>
                 h.db.appointments.rows[i] ==
                   (if db.appointments.rows[i].id == id
                    then Row(id, db.appointments.rows[i].data.(status := status.value))
                    else db.appointments.rows[i]))
  {
    var h := UpdateStatus(db, id, status);
    if Present(status) {
      var rows := db.appointments.rows;
      FilterNonEmpty(rows, HasId(id));
      if !HasAppointment(db, id) {
        assert h.response.status == 404;
        SetStatusUnknownId(rows, id, status.value);
        assert db.appointments.(rows := rows) == db.appointments;
      } else {
        var i :| 0 <= i < |rows| && rows[i].id == id;
        assert HasId(id)(rows[i]);
        assert h.response.status == 200;
      }
    }
  }
}
