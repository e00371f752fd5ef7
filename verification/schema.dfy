/** The five tables of the clinic database and the shape of a handler's
    answer. Columns a request may leave undefined are `Option`s (SQL NULL). */
module Schema {
  import opened Values
  import opened Tables

  datatype User = User(
    name: Option<string>,
    email: Option<string>,
    password: Option<string>,
    phone: Option<string>,
    role: Option<string>)

  datatype Doctor = Doctor(
    name: Option<string>,
    specialization: string,
    email: Option<string>,
    phone: Option<string>,
    experience: int)

  datatype Patient = Patient(
    name: Option<string>,
    email: Option<string>,
    phone: Option<string>,
    dob: string,
    gender: string,
    address: string)

  /** `time` holds the value written by the booking handler (`HH:MM:SS`). */
  datatype Appointment = Appointment(
    patientId: nat,
    patientName: Option<string>,
    patientEmail: string,
    doctorId: string,
    date: string,
    time: string,
    reason: Option<string>,
    status: string)

  datatype MedicalRecord = MedicalRecord(
    patientId: string,
    doctorId: string,
    diagnosis: string,
    prescription: string,
    notes: string,
    visitDate: string)

  datatype Db = Db(
    users: Table<User>,
    doctors: Table<Doctor>,
    patients: Table<Patient>,
    appointments: Table<Appointment>,
    records: Table<MedicalRecord>)

  /** Every table has well-formed AUTO_INCREMENT keys. */
  ghost predicate ValidDb(db: Db)
  {
    Valid(db.users) && Valid(db.doctors) && Valid(db.patients) && Valid(db.appointments) && Valid(db.records)
  }

  /** An HTTP status, the `message`/`error` text and, for inserts, the `id`. */
  datatype Response = Response(status: nat, message: string, id: Option<nat>)

  /** What a handler answers and the database it leaves behind. */
  datatype Handled = Handled(response: Response, db: Db)
}
