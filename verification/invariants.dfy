/** Properties that hold across handlers: what every handler keeps true of the
    database, how the slots answer and the booking decision agree, and what a
    second request sees after a first one. */
module Invariants {
  import opened Values
  import opened Tables
  import opened SlotGrid
  import opened Availability
  import opened Schema
  import opened Patients
  import opened Appointments
  import opened Auth
  import opened MedicalRecords

  /** No two appointments share doctor, date and stored time. */
  predicate NoDoubleBooking(appts: seq<Row<Appointment>>)
  {
    forall i, j :: 0 <= i < j < |appts| ==>
      !(appts[i].data.doctorId == appts[j].data.doctorId && appts[i].data.date == appts[j].data.date
        && appts[i].data.time == appts[j].data.time)
  }

  /** Every stored time is a grid slot followed by ":00". */
  predicate CanonicalTimes(appts: seq<Row<Appointment>>)
  {
    forall i :: 0 <= i < |appts| ==>
      |appts[i].data.time| == 8 && appts[i].data.time[5..] == ":00" && appts[i].data.time[..5] in Grid()
  }

  /** The database invariant every handler preserves. */
  ghost predicate Good(db: Db)
  {
    ValidDb(db) && NoDoubleBooking(db.appointments.rows) && CanonicalTimes(db.appointments.rows)
  }

  lemma EmptyDbGood()
    ensures Good(Db(Empty(), Empty(), Empty(), Empty(), Empty()))
  {
  }

  /** Resolving a patient keeps the patients table well formed. */
  lemma ResolveKeepsValid(patients: Table<Patient>, email: string, name: Option<string>)
    requires Valid(patients) && email != ""
    ensures ResolvePatientId(patients, None, Some(email), name).Ok?
    ensures Valid(ResolvePatientId(patients, None, Some(email), name).value.patients)
  {
    if KnownEmail(patients.rows, email) {
      ResolveKnownEmail(patients, None, email, name);
    } else {
      ResolveNewEmail(patients, None, email, name);
    }
  }

  /** The booking outcome once both 400 guards pass: 409 when the slot is
      stored for that doctor and date, 201 otherwise. */
  lemma BookOutcome(db: Db, req: BookingRequest, mailDelivered: bool)
    requires Admissible(req)
    ensures Book(db, req, mailDelivered).response.status ==
      if Booked(db.appointments.rows, req.doctorId.value, req.date.value, RequestedSlot(req) + ":00") then 409 else 201
  {
    if Booked(db.appointments.rows, req.doctorId.value, req.date.value, RequestedSlot(req) + ":00") {
      BookConflict(db, req, mailDelivered);
    } else {
      BookInserts(db, req, mailDelivered);
    }
  }

  /** Booking preserves the invariant: the conflict check is what keeps a slot
      from being stored twice. */
  lemma BookPreservesGood(db: Db, req: BookingRequest, mailDelivered: bool)
    requires Good(db)
    ensures Good(Book(db, req, mailDelivered).db)
  {
    BookRejects(db, req, mailDelivered);
    if Admissible(req) {
      ResolveKeepsValid(db.patients, req.patientEmail.value, req.patientName);
      var slot := RequestedSlot(req) + ":00";
      if Booked(db.appointments.rows, req.doctorId.value, req.date.value, slot) {
        BookConflict(db, req, mailDelivered);
      } else {
        BookInserts(db, req, mailDelivered);
        GridMembership(RequestedSlot(req));
        var rows := Book(db, req, mailDelivered).db.appointments.rows;
        var n := |db.appointments.rows|;
        assert rows[..n] == db.appointments.rows;
        forall i, j | 0 <= i < j < |rows|
          ensures !(rows[i].data.doctorId == rows[j].data.doctorId && rows[i].data.date == rows[j].data.date
                    && rows[i].data.time == rows[j].data.time)
        {
          assert rows[i] == db.appointments.rows[i];
          if j < n {
            assert rows[j] == db.appointments.rows[j];
          }
        }
        forall i | 0 <= i < |rows|
          ensures |rows[i].data.time| == 8 && rows[i].data.time[5..] == ":00" && rows[i].data.time[..5] in Grid()
        {
          if i < n {
            assert rows[i] == db.appointments.rows[i];
          } else {
            assert rows[i].data.time == RequestedSlot(req) + ":00";
            assert rows[i].data.time[..5] == RequestedSlot(req);
          }
        }
      }
    }
  }

  /** A status update changes no key, doctor, date or time. */
  lemma UpdateStatusPreservesGood(db: Db, id: nat, status: Option<string>)
    requires Good(db)
    ensures Good(UpdateStatus(db, id, status).db)
  {
    UpdateStatusContract(db, id, status);
    var rows := db.appointments.rows;
    var rows' := UpdateStatus(db, id, status).db.appointments.rows;
    assert forall i :: 0 <= i < |rows| ==>
      rows'[i].id == rows[i].id && rows'[i].data.doctorId == rows[i].data.doctorId
      && rows'[i].data.date == rows[i].data.date && rows'[i].data.time == rows[i].data.time;
  }

  lemma RegisterPreservesGood(db: Db, req: RegisterRequest)
    requires Good(db)
    ensures Good(Register(db, req).db)
  {
    RegisterRefusals(db, req);
    if Register(db, req).response.status == 201 {
      RegisterCreates(db, req);
    }
  }

  lemma AddRecordPreservesGood(db: Db, req: RecordRequest)
    requires Good(db)
    ensures Good(AddRecord(db, req).db)
  {
    AddRecordContract(db, req);
  }

  /** Under canonical stored times, a slot appears among the taken slots of a
      doctor's day exactly when its stored form is booked. */
  lemma TakenIffBooked(appts: seq<Row<Appointment>>, doctor: string, date: string, slot: string)
    requires CanonicalTimes(appts) && slot in Grid()
    ensures slot in TakenSlots(appts, doctor, date) <==> Booked(appts, doctor, date, slot + ":00")
  {
    TakenSlotsMembers(appts, doctor, date, slot);
    StoredSlotReadsBack(slot);
    if SlotTaken(appts, doctor, date, slot) {
      var i :| 0 <= i < |appts| && appts[i].data.doctorId == doctor && appts[i].data.date == date
        && TimeFormatHM(appts[i].data.time) == slot;
      var t := appts[i].data.time;
      assert t == t[..5] + t[5..];
    }
    if Booked(appts, doctor, date, slot + ":00") {
      var i :| 0 <= i < |appts| && appts[i].data.doctorId == doctor && appts[i].data.date == date
        && appts[i].data.time == slot + ":00";
      assert TimeFormatHM(appts[i].data.time) == slot;
    }
  }

  /** A positive count has a witness: some appointment of that doctor and date
      reads back as the slot. */
  lemma {:induction false} OccurrenceWitness(appts: seq<Row<Appointment>>, doctor: string, date: string, slot: string)
    requires Occurrences(appts, doctor, date, slot) > 0
    ensures exists j :: (0 <= j < |appts| && appts[j].data.doctorId == doctor && appts[j].data.date == date
                         && TimeFormatHM(appts[j].data.time) == slot)
    decreases |appts|
  {
    if !(appts[0].data.doctorId == doctor && appts[0].data.date == date && TimeFormatHM(appts[0].data.time) == slot) {
      OccurrenceWitness(appts[1..], doctor, date, slot);
      var j :| 0 <= j < |appts[1..]| && appts[1..][j].data.doctorId == doctor && appts[1..][j].data.date == date
        && TimeFormatHM(appts[1..][j].data.time) == slot;
      assert appts[j + 1] == appts[1..][j];
    }
  }

  /** Without double bookings and with canonical times, at most one appointment
      of a doctor's day reads back as any given slot. */
  lemma {:induction false} OccursAtMostOnce(appts: seq<Row<Appointment>>, doctor: string, date: string, slot: string)
    requires NoDoubleBooking(appts) && CanonicalTimes(appts)
    ensures Occurrences(appts, doctor, date, slot) <= 1
    decreases |appts|
  {
    if |appts| > 0 {
      var tail := appts[1..];
      assert NoDoubleBooking(tail) by {
        forall i, j | 0 <= i < j < |tail|
          ensures !(tail[i].data.doctorId == tail[j].data.doctorId && tail[i].data.date == tail[j].data.date
                    && tail[i].data.time == tail[j].data.time)
        {
          assert tail[i] == appts[i + 1] && tail[j] == appts[j + 1];
        }
      }
      assert CanonicalTimes(tail) by {
        forall i | 0 <= i < |tail|
          ensures |tail[i].data.time| == 8 && tail[i].data.time[5..] == ":00" && tail[i].data.time[..5] in Grid()
        {
          assert tail[i] == appts[i + 1];
        }
      }
      OccursAtMostOnce(tail, doctor, date, slot);
      var t0 := appts[0].data.time;
      if appts[0].data.doctorId == doctor && appts[0].data.date == date && TimeFormatHM(t0) == slot
         && Occurrences(tail, doctor, date, slot) > 0
      {
        // the witness in the tail and the head would be the same booking twice
        OccurrenceWitness(tail, doctor, date, slot);
        assert false;
      }
    }
  }

  /** On a database that satisfies the invariant, the slots query lists no
      time twice. */
  lemma TakenSlotsOnce(db: Db, doctorId: Option<string>, date: Option<string>)
    requires NoDoubleBooking(db.appointments.rows) && CanonicalTimes(db.appointments.rows)
    ensures Slots(db, doctorId, date).SlotsListed? ==>
      forall s :: multiset(Slots(db, doctorId, date).takenSlots)[s] <= 1
  {
    if Present(doctorId) && Present(date) {
      forall s ensures multiset(Slots(db, doctorId, date).takenSlots)[s] <= 1 {
        TakenSlotsCounts(db.appointments.rows, doctorId.value, date.value, s);
        OccursAtMostOnce(db.appointments.rows, doctorId.value, date.value, s);
      }
    }
  }

  /** The slots answer predicts the booking outcome: an admissible request is
      refused with 409 exactly when its slot is listed as taken, and accepted
      with 201 exactly when it is listed as available. */
  lemma SlotsPredictBooking(db: Db, req: BookingRequest, mailDelivered: bool)
    requires Admissible(req) && CanonicalTimes(db.appointments.rows)
    ensures var reply := Slots(db, req.doctorId, req.date);
      && reply.SlotsListed?
      && (Book(db, req, mailDelivered).response.status == 409 <==> RequestedSlot(req) in reply.takenSlots)
      && (Book(db, req, mailDelivered).response.status == 201 <==> RequestedSlot(req) in reply.availableSlots)
  {
    GridMembership(RequestedSlot(req));
    BookOutcome(db, req, mailDelivered);
    TakenIffBooked(db.appointments.rows, req.doctorId.value, req.date.value, RequestedSlot(req));
    SlotsContract(db, req.doctorId, req.date);
  }

  /** Once a slot is booked, any admissible request for the same doctor, date
      and slot is refused with 409. */
  lemma NoSecondBooking(db: Db, first: BookingRequest, second: BookingRequest, m1: bool, m2: bool)
    requires Admissible(first) && Admissible(second)
    requires Book(db, first, m1).response.status == 201
    requires second.doctorId == first.doctorId && second.date == first.date
    requires RequestedSlot(second) == RequestedSlot(first)
    ensures Book(Book(db, first, m1).db, second, m2).response.status == 409
  {
    BookOutcome(db, first, m1);
    BookInserts(db, first, m1);
    var rows := Book(db, first, m1).db.appointments.rows;
    var n := |db.appointments.rows|;
    assert rows[n].data.doctorId == second.doctorId.value && rows[n].data.date == second.date.value
      && rows[n].data.time == RequestedSlot(second) + ":00";
    BookOutcome(Book(db, first, m1).db, second, m2);
  }

  /** Two bookings with the same email are made for the same patient: the
      second adds no patient row, and when both succeed the two appointments
      carry the same patient key. */
  lemma SameEmailSamePatient(db: Db, first: BookingRequest, second: BookingRequest, m1: bool, m2: bool)
    requires Admissible(first) && Admissible(second)
    requires second.patientEmail == first.patientEmail
    ensures var db1 := Book(db, first, m1).db;
      var db2 := Book(db1, second, m2).db;
      && db2.patients == db1.patients
      && (Book(db, first, m1).response.status == 201 && Book(db1, second, m2).response.status == 201 ==>
            db2.appointments.rows[|db1.appointments.rows|].data.patientId
              == db1.appointments.rows[|db.appointments.rows|].data.patientId)
  {
    var db1 := Book(db, first, m1).db;
    ResolveTwiceSamePatient(db.patients, first.patientEmail.value, first.patientName, second.patientName);
    BookOutcome(db, first, m1);
    BookOutcome(db1, second, m2);
    if Book(db, first, m1).response.status == 201 {
      BookInserts(db, first, m1);
    } else {
      BookConflict(db, first, m1);
    }
    if Book(db1, second, m2).response.status == 201 {
      BookInserts(db1, second, m2);
    } else {
      BookConflict(db1, second, m2);
    }
  }

  /** A patient who registered is the patient a booking with that email is
      made for, provided no earlier patient row had the email. */
  lemma RegisteredPatientIsBooked(db: Db, reg: RegisterRequest, req: BookingRequest, m: bool)
    requires reg.role == Some("patient") && Register(db, reg).response.status == 201
    requires Admissible(req) && req.patientEmail == reg.email
    requires !KnownEmail(db.patients.rows, req.patientEmail.value)
    ensures var db1 := Register(db, reg).db;
      && Book(db1, req, m).db.patients == db1.patients
      && (Book(db1, req, m).response.status == 201 ==>
            Book(db1, req, m).db.appointments.rows[|db1.appointments.rows|].data.patientId
              == db1.patients.rows[|db.patients.rows|].id)
  {
    var db1 := Register(db, reg).db;
    RegisterRefusals(db, reg);
    RegisterCreates(db, reg);
    var email := req.patientEmail.value;
    var n := |db.patients.rows|;
    assert db1.patients.rows[n].data.email == Some(email);
    assert KnownEmail(db1.patients.rows, email);
    ResolveKnownEmail(db1.patients, None, email, req.patientName);
    var k :| 0 <= k < |db1.patients.rows| && db1.patients.rows[k].data.email == Some(email)
      && ResolvePatientId(db1.patients, None, Some(email), req.patientName).value.id == db1.patients.rows[k].id
      && forall j :: 0 <= j < k ==> db1.patients.rows[j].data.email != Some(email);
    BookOutcome(db1, req, m);
    if Book(db1, req, m).response.status == 201 {
      BookInserts(db1, req, m);
    } else {
      BookConflict(db1, req, m);
    }
  }

  /** One step of `SetStatus`: the first row is updated on its own and the rest
      as a shorter sequence, and the update keeps doctor, date and time. */
  lemma SetStatusStep(rows: seq<Row<Appointment>>, id: nat, status: string)
    requires |rows| > 0
    ensures SetStatus(rows, id, status)[1..] == SetStatus(rows[1..], id, status)
    ensures var r := SetStatus(rows, id, status)[0];
      r.data.doctorId == rows[0].data.doctorId && r.data.date == rows[0].data.date && r.data.time == rows[0].data.time
  {
  }

  /** A status update never frees or takes a slot: the times listed as taken
      for every doctor and date are the same before and after. */
  lemma {:induction false} StatusKeepsTaken(rows: seq<Row<Appointment>>, id: nat, status: string, doctor: string, date: string)
    ensures TakenSlots(SetStatus(rows, id, status), doctor, date) == TakenSlots(rows, doctor, date)
    decreases |rows|
  {
    if |rows| > 0 {
      var rows' := SetStatus(rows, id, status);
      var p := OnDay(doctor, date);
      StatusKeepsTaken(rows[1..], id, status, doctor, date);
      SetStatusStep(rows, id, status);
      var head := if p(rows[0]) then [rows[0]] else [];
      var head' := if p(rows'[0]) then [rows'[0]] else [];
      assert Filter(rows, p) == head + Filter(rows[1..], p);
      assert Filter(rows', p) == head' + Filter(rows'[1..], p);
      MapConcat(head, Filter(rows[1..], p), StoredSlot);
      MapConcat(head', Filter(rows'[1..], p), StoredSlot);
      assert Map(head, StoredSlot) == Map(head', StoredSlot);
      assert TakenSlots(rows, doctor, date) == Map(Filter(rows, p), StoredSlot);
      assert TakenSlots(rows', doctor, date) == Map(Filter(rows', p), StoredSlot);
    }
  }

  lemma UpdateStatusKeepsSlots(db: Db, id: nat, status: Option<string>, doctorId: Option<string>, date: Option<string>)
    ensures Slots(UpdateStatus(db, id, status).db, doctorId, date) == Slots(db, doctorId, date)
  {
    if Present(status) && Present(doctorId) && Present(date) {
      StatusKeepsTaken(db.appointments.rows, id, status.value, doctorId.value, date.value);
    }
  }
}
