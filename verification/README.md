# Clinic appointment scheduling core, modelled in Dafny

This project models the scheduling core of a clinic back end (`server.js`, an
Express server over MySQL). It covers these parts:

- the fixed daily grid of 30-minute slots, 09:00 to 16:30;
- how a requested time is normalised and how it is stored (`HH:MM` in, `HH:MM:SS` stored);
- the slots query, which lists all slots, the taken ones and the available ones for a doctor and date;
- the booking handler, which checks the request, resolves or creates the patient by email, refuses a taken slot with 409 and otherwise inserts a "Scheduled" appointment;
- the appointment status update;
- registration with its admin and duplicate-email guards and its automatic doctor or patient profile;
- creation of a medical record.

The model is functional. The five tables are sequences of rows with an
AUTO_INCREMENT counter (`Tables`, `Schema`). Each handler is a pure function
from the database and the request fields to a `Handled(response, db)`.
A request field is `Option<string>`. JavaScript truthiness (`!field`) becomes
`Present`: a field counts only if it is there and not `""`.

Modules, in dependency order:

- `Values`: optional values, results and truthiness.
- `Tables`: rows, INSERT, and the WHERE, `LIMIT 1` and `map` query shapes.
- `SlotGrid`: `generateSlots`, the `HH:MM` format, `substring(0, 5)`, `toMySQLTime` and `TIME_FORMAT`.
- `Availability`: the `available_slots` filter.
- `Schema`: the tables and the response shape.
- `Patients`: `resolvePatientId`.
- `Appointments`: the slots query, booking and the status update.
- `Auth`: registration.
- `MedicalRecords`: adding a record.
- `Invariants`: properties that span handlers. They cover:
  - the database invariant: well-formed keys, no slot booked twice, and every stored time canonical;
  - that every handler preserves that invariant;
  - that the slots answer predicts the booking outcome;
  - what a second request sees after a first.

The email sent after a booking is a boolean parameter, `mailDelivered`. A
database error is not modelled (see "Left out").

## Model

| member | source | states |
|---|---|---|
| SlotGrid.GenerateSlots | server.js:51-63 | The loop from 09:00 while `t <= END_MIN - SLOT_MINUTES` yields exactly the 16 strings of the grid; the i-th one reads back as the time 540 + 30·i minutes. |
| SlotGrid.GridSize | server.js:51-57 | The constants give 16 slots. |
| SlotGrid.GridEnds | server.js:51-63 | The first slot is "09:00" and the last is "16:30". |
| SlotGrid.GridSpacing | server.js:57-61 | The slots are strictly ascending, and consecutive slots are exactly 30 minutes apart. |
| SlotGrid.GridMembership | server.js:55-63 | A string is a slot if and only if it is a two-digit hour, a colon and a two-digit minute below 60, between 09:00 and 16:30, on a 30-minute boundary. |
| SlotGrid.Grid | server.js:51-63 | The grid in closed form, entry i being the `HH:MM` of 540 + 30·i minutes. Its properties are carried by `GenerateSlots` (the source's loop yields exactly this list), `GridSize`, `GridEnds`, `GridSpacing` and `GridMembership`. |
| SlotGrid.DecimalStringValue | server.js:58-59 | `String(n)` is a non-empty string of decimal digits, without a leading zero, that reads back as n. |
| SlotGrid.DecimalString | server.js:58-59 | `String(n)` for a natural number; `DecimalStringValue` states that it is the unique leading-zero-free digit string denoting n. |
| SlotGrid.PadStartShape | server.js:58-59 | `padStart(2, "0")` keeps the string as its suffix and fills up to the width with the fill character. |
| SlotGrid.PadStart | server.js:58-59 | `padStart(width, fill)`; `PadStartShape` states its length, kept suffix and fill prefix. |
| SlotGrid.Pad2Digits | server.js:58-59 | Below 100, the padded number is exactly its tens digit followed by its units digit. |
| SlotGrid.FormatThenParse | server.js:58-60 | Formatting any minute count below 6000 as `HH:MM` gives a well-formed time that parses back to the same count. |
| SlotGrid.ParseThenFormat | server.js:58-60 | Every well-formed `HH:MM` string is the formatting of the minute count it denotes, so the format is a bijection. |
| SlotGrid.ParseInjective | server.js:58-60 | Two well-formed times that denote the same minute are the same string. |
| SlotGrid.FormatSlot | server.js:58-60 | The `${hh}:${mm}` template; `FormatThenParse` and `ParseThenFormat` state that it and the independent decoder `ParseHHMM` are mutually inverse on well-formed times. |
| SlotGrid.SlotPrefix | server.js:264 | `substring(0, 5)` is the prefix of length min(5, length) of the requested time. |
| SlotGrid.SlotPrefixInGrid | server.js:264-266 | A requested time passes the grid check if and only if it has at least five characters and its first five form a grid time. Seconds and any other suffix are ignored. |
| SlotGrid.SlotPrefixExamples | server.js:264-266 | "09:30:00" is accepted. "09:17", "18:00", "16:45" and "9:00" are refused. |
| SlotGrid.ToMySQLTime | server.js:65-68 | Absent or empty input gives null. A five-character time gets ":00" appended. Any other string passes through unchanged. |
| SlotGrid.ToMySQLTimeIdempotent | server.js:65-68 | Applying `toMySQLTime` a second time changes nothing. |
| SlotGrid.StoredSlotReadsBack | server.js:233 | A slot is stored as slot + ":00", and `TIME_FORMAT(…, "%H:%i")` reads that back as the slot. |
| SlotGrid.TimeFormatHM | server.js:233 | `TIME_FORMAT(appointment_time, "%H:%i")` on a stored `HH:MM:SS` value; `StoredSlotReadsBack` states that it undoes the ":00" that `toMySQLTime` adds to a slot. |
| Tables.Insert | server.js:86-95 | An INSERT appends exactly one row and keeps every earlier row. In a well-formed table the assigned `insertId` is positive and new. |
| Tables.Filter | server.js:244 | A WHERE/`filter` result is a subsequence of its input (order kept), contains only rows that satisfy the condition, and misses none that do. |
| Tables.FilterCount | server.js:244 | For any one value: the filtered list holds it as often as the input does when it satisfies the condition, and not at all otherwise. |
| Tables.FilterCounts | server.js:244 | Every copy of a satisfying value is kept and no copy of another: the result holds each value exactly as often as the input when it satisfies the condition, and never otherwise. |
| Tables.FirstIndex | server.js:79-84 | The row `LIMIT 1` is taken to return: the first satisfying row in insertion order, or none when no row satisfies the condition. SQL leaves the order open without ORDER BY (see Left out). |
| Tables.MapMembers | server.js:239 | A value occurs in `rows.map(f)` exactly when f yields it for some row. |
| Tables.FilterNonEmpty | server.js:84 | `rows.length` is non-zero if and only if some row satisfies the condition, which is also when `LIMIT 1` finds one. |
| Availability.Available | server.js:244 | Available slots are a subsequence of all slots holding exactly the slots not taken, each as many times as it occurs in all slots. |
| Availability.NothingTakenAllAvailable | server.js:244 | With nothing taken, the available list is the whole list. |
| Availability.AvailableAscending | server.js:239-244 | The available slots of any day are strictly ascending in time. |
| Patients.ResolveGivenOrMissing | server.js:73-76 | A truthy `patient_id` is returned as given and inserts nothing. Without one, a missing or empty email is the error "patient_email required". |
| Patients.ResolveKnownEmail | server.js:78-84 | When the email is known, the first patient row with that email is the answer, and the table is unchanged. |
| Patients.ResolveNewEmail | server.js:86-95 | When the email is unknown, exactly one placeholder patient is appended and its fresh key is returned. The placeholder has the given name (or "Unknown"), that email, an empty phone and the default dob, gender and address. |
| Patients.ResolveTwiceSamePatient | server.js:73-98 | Resolving the same email twice in a row gives the same patient, and the second call inserts nothing. |
| Patients.ResolvePatientId | server.js:73-98 | Never removes or alters a stored patient and adds at most one; it fails only when neither a truthy `patient_id` nor an email is given. The three outcomes are stated by `ResolveGivenOrMissing`, `ResolveKnownEmail` and `ResolveNewEmail`. |
| Appointments.TakenSlotsMembers | server.js:232-239 | A string is in `taken_slots` if and only if some appointment of that doctor on that date reads back as it through `TIME_FORMAT`. |
| Appointments.TakenSlotsCounts | server.js:232-239 | `rows.map` keeps repeats: `taken_slots` lists a time exactly as many times as there are appointments of that doctor and date that read back as it. |
| Appointments.SlotsContract | server.js:226-248 | A missing `doctor_id` or `date` gives 400. Otherwise the answer holds: `all_slots` equal to the grid; the taken times exactly as stored, each listed once for every appointment of that doctor and date that reads back as it; and `available_slots`, an ascending subsequence of the grid holding exactly the grid slots not taken. |
| Appointments.Slots | server.js:226-248 | The slots handler; `SlotsContract` states its answer and `TakenSlotsMembers` what `taken_slots` holds. |
| Appointments.StoredTimeIsMySQLTime | server.js:275 | For an admissible request, `toMySQLTime(normalized)` is the requested slot followed by ":00". |
| Appointments.BookRejects | server.js:262-266 | A booking gets 400 if and only if a required field is missing or the time is off the grid. A 400 changes nothing, and a missing field gives "Missing fields". |
| Appointments.BookConflict | server.js:270-280 | If the exact doctor, date and stored time already exist, the booking gets 409. The appointments are unchanged, but the patient that resolution created before the conflict query is kept. |
| Appointments.BookInserts | server.js:282-299 | A booking of a free slot appends exactly one appointment and answers 201 with its fresh key. The new appointment has status "Scheduled", the normalised time with ":00", the given doctor, date, email, name and reason, and the resolved patient. |
| Appointments.MailOutcomeIrrelevant | server.js:319-333 | Whether the email is delivered changes only the message: the status, the key and the database are the same either way. |
| Appointments.Book | server.js:251-341 | Answers 201, 400 or 409, with a key exactly on 201. It leaves users, doctors and records untouched, only ever appends appointments (exactly one, on 201) and appends at most one patient. The outcomes are stated by `BookRejects`, `BookConflict`, `BookInserts` and `MailOutcomeIrrelevant`. |
| Appointments.UpdateStatusContract | server.js:430-449 | A falsy status gives 400. An unknown key gives 404. Neither changes anything. Otherwise the answer is 200, and only the status of the row with that key changes. |
| Appointments.UpdateStatus | server.js:430-450 | Answers 200, 400 or 404 and can change nothing but the `status` of appointments: keys, row count, every other column and every other table are kept. `UpdateStatusContract` states which row changes and when. |
| Auth.RegisterRefusals | server.js:105-116 | `role` "admin" gives 403 before anything else. An email some user already has gives 400. Neither changes anything. |
| Auth.RegisterCreates | server.js:117-141 | A successful registration appends exactly the submitted user and answers 201 with its key. A doctor also gets one profile (specialization "General Medicine", experience 0), and a patient one profile with the default dob, gender and address. Other tables are unchanged, and keys stay well formed. |
| Auth.RegisterTwice | server.js:111-116 | After a registration with an email, registering that email again is refused: 400, or 403 for the admin role. |
| Auth.Register | server.js:105-145 | Answers 201, 400 or 403, with a key exactly on 201, leaves appointments and records untouched, and appends exactly one user, the submitted one under the returned key, exactly on 201. `RegisterRefusals` and `RegisterCreates` state the outcomes. |
| MedicalRecords.AddRecordContract | server.js:379-395 | A missing patient, doctor, diagnosis or visit date gives 400 with no change. Otherwise exactly one record is appended, with a missing prescription or notes stored as "", and the answer is 201 "Record added" with its key. |
| MedicalRecords.AddRecord | server.js:379-395 | Changes only the records table and appends exactly one record exactly when it answers 201; `AddRecordContract` states when and with which columns. |
| Invariants.EmptyDbGood | server.js:270-299 | An empty database satisfies the invariant: well-formed keys, no doubly booked slot, and only canonical stored times. |
| Invariants.ResolveKeepsValid | server.js:78-95 | Resolving by a non-empty email always succeeds and keeps the patients' keys well formed. |
| Invariants.BookOutcome | server.js:270-299 | Once both 400 guards pass, the booking answers 409 exactly when the stored slot exists for that doctor and date, and 201 otherwise. |
| Invariants.BookPreservesGood | server.js:270-299 | Booking preserves the invariant. In particular, the conflict check ensures no (doctor, date, time) is ever stored twice. |
| Invariants.UpdateStatusPreservesGood | server.js:437-440 | A status update preserves the invariant. |
| Invariants.RegisterPreservesGood | server.js:117-139 | Registration preserves the invariant. |
| Invariants.AddRecordPreservesGood | server.js:386-390 | Adding a record preserves the invariant. |
| Invariants.OccurrenceWitness | server.js:232-239 | If a time is counted at all, some appointment of that doctor and date reads back as it. |
| Invariants.OccursAtMostOnce | server.js:270-299 | With no doubly booked slot and canonical stored times, at most one appointment of a doctor's day reads back as any given time. |
| Invariants.TakenSlotsOnce | server.js:226-248 | On a database that satisfies the invariant, `taken_slots` lists no time twice. |
| Invariants.TakenIffBooked | server.js:232-276 | With canonical stored times, a slot is listed as taken exactly when the booking's conflict query would find it. |
| Invariants.SlotsPredictBooking | server.js:226-285 | For an admissible request, the booking answers 409 exactly when its slot is in `taken_slots`, and 201 exactly when it is in `available_slots`. |
| Invariants.NoSecondBooking | server.js:270-280 | After a 201 booking, any admissible request for the same doctor, date and slot gets 409. |
| Invariants.SameEmailSamePatient | server.js:268-299 | After an admissible booking, a second admissible booking with the same email adds no patient row, whatever either outcome. When both bookings succeed, the two appointments carry the same patient key. |
| Invariants.RegisteredPatientIsBooked | server.js:73-141 | A booking whose email a patient account registered (with no earlier patient row for it) is made for that registered patient, and creates no new patient. |
| Invariants.StatusKeepsTaken | server.js:437-440 | A status update leaves the times taken for every doctor and date unchanged, including after a cancellation. |
| Invariants.UpdateStatusKeepsSlots | server.js:430-449 | The slots answer for any doctor and date is the same before and after a status update. |

## Left out

- Express plumbing: routing, JSON parsing, CORS, the listen call, dotenv and the root endpoint are not modelled. Each handler is a function of its request fields.
- Connection setup and database errors: every `if (err) return res.status(500)` path is left out, because the model's queries cannot fail. `resolvePatientId` keeps its "patient_email required" error. Booking has already checked the email, so there resolution always succeeds (its contract says it fails only without an id and an email), and booking has no 500 answer.
- Login, profile lookup, patient-by-email lookup, GET of one appointment, the listing endpoints with ORDER BY and JOIN, and the medical-record queries: these read data and involve no scheduling decision.
- SQL TIME semantics: `TIME_FORMAT(appointment_time, "%H:%i")` is modelled as the first five characters of the stored string. This matches MySQL on the `HH:MM:SS` values that booking stores.
- The email itself: nodemailer and the message text are replaced by the `mailDelivered` flag. The flag changes only the 201 message.
- Concurrency: the model runs handlers one at a time. Three read-then-write races of the source are therefore not represented:
  - two bookings racing between the conflict query and the INSERT (server.js:272-299) can both succeed, so `NoDoubleBooking` holds only for sequential requests;
  - two requests resolving the same new email at once (server.js:78-95) can each insert a placeholder patient, so `ResolveTwiceSamePatient` and `SameEmailSamePatient` hold only for sequential requests;
  - the doctor and patient profile INSERTs at registration (server.js:126-138) are not awaited and their errors are ignored; the model performs them before answering and lets them always succeed, as `RegisterCreates` states.
- JSON values: `doctor_id`, dates, times and the medical-record ids are strings, so a JSON number there (including a falsy 0) is not represented. `patient_id` in `resolvePatientId` is an optional natural number with 0 falsy, so the truthy JSON string "0" is not represented; booking never passes a `patient_id` (server.js:268). MySQL's coercion of numeric strings to keys is not modelled. The status update's `:id` is a natural number.
- Table constraints: foreign keys, column types, NOT NULL and a possible UNIQUE index on emails are not modelled. Only the checks the handlers make are.
- User columns other than name, email, password, phone and role: the registration INSERT writes only these five, and any other column keeps its database default.
- `affectedRows` is taken to be the number of matched rows, as the connection flag mysql2 uses by default reports it. An update that writes the status a row already has therefore still answers 200.
- The user's `SELECT id FROM users WHERE email = ?` with no email binds NULL, which matches no row. Accounts without an email are therefore never reported as duplicates.
- Tables.FirstIndex: the model takes `LIMIT 1` without ORDER BY to return the first matching row in insertion order, which SQL does not promise. It matters only when several patients share an email; `ResolveKnownEmail` then names that first row.
- Patients.ResolveNewEmail: `WHERE email = ?` is modelled as exact string equality. Under MySQL's usual case-insensitive collations an email differing from a stored one only in letter case (or trailing spaces) is found, so the source returns the stored patient where the model appends a placeholder.
- Auth.RegisterRefusals: the duplicate-email check uses the same exact equality, so an email differing from a registered one only in letter case is accepted with 201 by the model but refused with 400 under a case-insensitive collation.
- Appointments.BookInserts: `doctor_id` and `appointment_date` are compared as strings. MySQL compares against the column types, so "2025-3-4" matches a stored 2025-03-04 and "07" matches doctor 7; there the source answers 409 where the model answers 201.
- Appointments.TakenSlotsMembers: the slots query's `doctor_id=? AND appointment_date=?` uses the same string equality, so such differently written dates or ids list no taken slots in the model.
- SlotGrid.SlotPrefix: Dafny strings count Unicode scalar values, while JavaScript's `length` and `substring` count UTF-16 code units. The two differ only on characters outside the Basic Multilingual Plane; no such string is a grid time either way, so which requests pass the grid check is the same.
- SlotGrid.ToMySQLTime: the five-character test counts Unicode scalar values, where JavaScript's `t.length === 5` counts UTF-16 code units. A string such as "a😀bc" has length 5 in JavaScript and 4 here, so the source appends ":00" and the model does not. The handlers only pass grid slots to it, so the stored times are the same.
