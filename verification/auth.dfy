/** POST /api/auth/register: the admin guard, the duplicate-email guard and the
    profile row created alongside a doctor or patient account. */
module Auth {
  import opened Values
  import opened Tables
  import opened Schema

  datatype RegisterRequest = RegisterRequest(
    name: Option<string>,
    email: Option<string>,
    password: Option<string>,
    phone: Option<string>,
    role: Option<string>)

  /** `SELECT id FROM users WHERE email = ?` finds a row. A missing email is
      bound as NULL, and `email = NULL` matches no row. */
  predicate EmailTaken(users: seq<Row<User>>, email: Option<string>)
  {
    email.Some? && exists i :: 0 <= i < |users| && users[i].data.email == email
  }

  function AsUser(req: RegisterRequest): User
  {
    User(req.name, req.email, req.password, req.phone, req.role)
  }

  /** The profile a doctor account starts with. */
  function DoctorProfile(req: RegisterRequest): Doctor
  {
    Doctor(req.name, "General Medicine", req.email, req.phone, 0)
  }

  /** The profile a patient account starts with. */
  function PatientProfile(req: RegisterRequest): Patient
  {
    Patient(req.name, req.email, req.phone, "2000-01-01", "Other", "Not Provided")
  }

  function Register(db: Db, req: RegisterRequest): (h: Handled)
    ensures h.response.status in {201, 400, 403}
    ensures h.db.appointments == db.appointments && h.db.records == db.records
    ensures |h.db.users.rows| == |db.users.rows| + (if h.response.status == 201 then 1 else 0)
    ensures h.db.users.rows[..|db.users.rows|] == db.users.rows
    ensures h.response.id.Some? <==> h.response.status == 201
    ensures h.response.status == 201 ==> h.db.users.rows[|db.users.rows|] == Row(h.response.id.value, AsUser(req))
  {
    if req.role == Some("admin") then Handled(Response(403, "Cannot register as admin", None), db)
    else if EmailTaken(db.users.rows, req.email) then Handled(Response(400, "User already exists", None), db)
    else
      var user := Insert(db.users, AsUser(req));
      var doctors := if req.role == Some("doctor") then Insert(db.doctors, DoctorProfile(req)).table else db.doctors;
      var patients := if req.role == Some("patient") then Insert(db.patients, PatientProfile(req)).table else db.patients;
      Handled(Response(201, "Registered", Some(user.id)), db.(users := user.table, doctors := doctors, patients := patients))
  }

  /** The two refusals: 403 for the admin role, checked before anything else,
      and 400 for an email some user already has; neither changes anything. */
  lemma RegisterRefusals(db: Db, req: RegisterRequest)
    ensures var h := Register(db, req);
      && (h.response.status == 403 <==> req.role == Some("admin"))
      && (h.response.status == 400 <==> req.role != Some("admin") && EmailTaken(db.users.rows, req.email))
      && (h.response.status != 201 ==> h.db == db)
  {
  }

  /** A successful registration appends exactly the submitted user and answers
      its key; a doctor or patient role appends one profile row with the
      defaults, any other role none; appointments and records are untouched. */
  lemma RegisterCreates(db: Db, req: RegisterRequest)
    requires req.role != Some("admin") && !EmailTaken(db.users.rows, req.email)
    ensures var h := Register(db, req);
      && h.response == Response(201, "Registered", Some(db.users.nextId))
      && h.db.users.rows == db.users.rows + [Row(db.users.nextId, AsUser(req))]
      && h.db.doctors.rows == db.doctors.rows +
           (if req.role == Some("doctor") then [Row(db.doctors.nextId, DoctorProfile(req))] else [])
      && h.db.patients.rows == db.patients.rows +
           (if req.role == Some("patient") then [Row(db.patients.nextId, PatientProfile(req))] else [])
      && h.db.appointments == db.appointments
      && h.db.records == db.records
      && (ValidDb(db) ==> ValidDb(h.db))
  {
  }

  /** Once an email has registered, registering it again is refused with 400
      (unless the second request asks for the admin role, refused with 403). */
  lemma RegisterTwice(db: Db, first: RegisterRequest, second: RegisterRequest)
    requires Register(db, first).response.status == 201
    requires first.email.Some? && second.email == first.email
    ensures Register(Register(db, first).db, second).response.status ==
      (if second.role == Some("admin") then 403 else 400)
  {
    var users := Register(db, first).db.users.rows;
    assert users[|users| - 1].data.email == first.email;
    assert EmailTaken(users, second.email);
  }
}
