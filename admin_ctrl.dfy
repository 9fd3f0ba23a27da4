/** The administrator's controller: login, dashboard counts, paginated
    listings, report selection, and the checked create / update / cancel of
    appointments. */
module AdminCtrl {
  import opened Tables

  // The messages of the controller's error replies.
  const CredentialsRequired := "Usuario y contraseña requeridos"
  const InvalidCredentials := "Credenciales inválidas"
  const InvalidReport := "Tipo de reporte no válido"
  const MissingFields := "Patient ID, Doctor ID y fecha son obligatorios"
  const PatientNotFound := "Paciente no encontrado o inactivo"
  const DoctorNotFound := "Doctor no encontrado"
  const DoctorBusy := "El doctor ya tiene una cita programada en esa fecha y hora"
  const AppointmentNotFound := "Cita no encontrada"
  const DoctorBusyOther := "El doctor ya tiene otra cita programada en esa fecha y hora"
  const NothingToUpdate := "No hay campos para actualizar"

  /** The outcome of a controller's checks, before anything is written. */
  datatype Verdict = Accept | Reject(code: nat, error: string)

  // ---------------------------------------------------------------------
  // Login

  /** A row of the `admins` table, keyed by its unique username. */
  datatype AdminAccount = AdminAccount(
    id: nat, password: string, fullName: string, email: string, role: string, active: bool)

  /** What a successful login sends back: the account without its password. */
  datatype AdminProfile = AdminProfile(
    id: nat, username: string, fullName: string, email: string, role: string)

  /** The login decision: both fields are required (400); the username must
      name an active account whose stored password equals the given one, and
      an unknown user and a wrong password get the same 401 reply. */
  function LoginAdmin(admins: map<string, AdminAccount>, username: string, password: string)
    : (r: Reply<AdminProfile>)
    ensures r.Success? <==>
      username != "" && password != "" && username in admins &&
      admins[username].active && admins[username].password == password
    ensures r.Success? ==>
      var a := admins[username];
      r.value == AdminProfile(a.id, username, a.fullName, a.email, a.role)
    ensures (username == "" || password == "") ==> r == Failure(400, CredentialsRequired)
    ensures username != "" && password != "" && r.Failure? ==> r == Failure(401, InvalidCredentials)
  {
    if username == "" || password == "" then
      Failure(400, CredentialsRequired)
    else if username !in admins || !admins[username].active then
      Failure(401, InvalidCredentials)
    else
      var a := admins[username];
      if password != a.password then Failure(401, InvalidCredentials)
      else Success(AdminProfile(a.id, username, a.fullName, a.email, a.role))
  }

  // ---------------------------------------------------------------------
  // Dashboard counts

  datatype Stats = Stats(
    totalPatients: nat,
    totalDoctors: nat,
    totalAppointments: nat,
    todayAppointments: nat,
    pendingAppointments: nat)

  function ActivePatients(patients: map<nat, bool>): set<nat>
  {
    set k | k in patients && patients[k]
  }

  function PendingIds(t: AppointmentTable): set<nat>
  {
    set k | k in t && t[k].status == Pendiente
  }

  /** The non-cancelled rows whose timestamp falls on the current day; the
      calendar test DATE(appointment_date) = CURDATE() is the parameter. */
  function TodayIds(t: AppointmentTable, isToday: int -> bool): set<nat>
  {
    set k | k in t && t[k].status != Cancelada && isToday(t[k].date)
  }

  lemma SubsetCard(a: set<nat>, b: set<nat>)
    requires a <= b
    ensures |a| <= |b|
  {
    assert b == a + (b - a);
  }

  /** The five counters of the dashboard. Cancelled rows are left out of the
      total and of today's count, so both are bounded by the table and
      today's and the pending count never exceed the total. */
  function DashboardStats(patients: map<nat, bool>, doctors: set<nat>, t: AppointmentTable,
                          isToday: int -> bool): (s: Stats)
    ensures s.totalPatients <= |patients|
    ensures s.todayAppointments <= s.totalAppointments <= |t|
    ensures s.pendingAppointments <= s.totalAppointments
  {
    SubsetCard(ActivePatients(patients), patients.Keys);
    SubsetCard(Live(t), t.Keys);
    SubsetCard(TodayIds(t, isToday), Live(t));
    SubsetCard(PendingIds(t), Live(t));
    Stats(|ActivePatients(patients)|, |doctors|, |Live(t)|, |TodayIds(t, isToday)|,
          |PendingIds(t)|)
  }

  // ---------------------------------------------------------------------
  // Pagination of the three listings

  /** OFFSET of a page: (page - 1) * limit. With a positive limit it skips
      exactly the whole pages before `page`; the first page starts at 0. */
  function Offset(page: int, limit: int): (o: int)
    ensures page == 1 ==> o == 0
    ensures page >= 1 && limit >= 0 ==> o >= 0
    ensures limit > 0 ==> o % limit == 0 && o / limit == page - 1
  {
    if limit > 0 then ExactQuotient(page - 1, limit); (page - 1) * limit
    else (page - 1) * limit
  }

  /** Division undoes multiplication by a positive divisor. */
  lemma ExactQuotient(q: int, d: int)
    requires d > 0
    ensures (q * d) % d == 0 && (q * d) / d == q
  {
    var o := q * d;
    var q', r := o / d, o % d;
    assert (q - q') * d == r by {
      assert o == q' * d + r;
      assert q * d - q' * d == (q - q') * d;
    }
    if q' < q {
      MulAtLeast(q - q', d);
      assert false;
    } else if q < q' {
      assert (q' - q) * d == -r;
      MulAtLeast(q' - q, d);
      assert false;
    }
  }

  lemma MulAtLeast(k: int, d: int)
    requires k >= 1 && d > 0
    ensures k * d >= d
  {
  }

  /** Math.ceil(total / limit). A zero limit gives a non-finite quotient,
      which is None. For any other limit the result r is the ceiling:
      r - 1 < total / limit <= r, written without division. */
  function TotalPages(total: nat, limit: int): (r: Option<int>)
    ensures r.None? <==> limit == 0
    ensures limit > 0 ==> r.Some? && (r.value - 1) * limit < total <= r.value * limit
    ensures limit < 0 ==> r.Some? && r.value * limit <= total < (r.value - 1) * limit
  {
    if limit == 0 then None
    else if limit > 0 then
      var q := (total + limit - 1) / limit;
      assert (total + limit - 1) == q * limit + (total + limit - 1) % limit;
      Some(q)
    else
      var m := -limit;
      var q := total / m;
      assert total == q * m + total % m;
      assert (-q) * limit == q * m;
      assert (-q - 1) * limit == q * m + m;
      Some(-q)
  }

  /** With a positive limit, a page (counted from 1) starts inside the
      result set exactly when its number is at most totalPages. */
  lemma PageStartsInside(total: nat, limit: int, page: int)
    requires limit > 0 && page >= 1
    ensures TotalPages(total, limit).Some?
    ensures Offset(page, limit) < total <==> page <= TotalPages(total, limit).value
  {
  }

  // ---------------------------------------------------------------------
  // Report selection

  datatype ReportType = AppointmentsBySpecialty | PatientActivity | DoctorPerformance

  function ReportKey(k: ReportType): string
  {
    match k
    case AppointmentsBySpecialty => "appointments_by_specialty"
    case PatientActivity => "patient_activity"
    case DoctorPerformance => "doctor_performance"
  }

  /** The `switch (report_type)` of the reports endpoint: one of the three
      known keys selects its report, anything else is a 400. */
  function ParseReportType(s: string): (r: Reply<ReportType>)
    ensures r.Success? ==> ReportKey(r.value) == s
    ensures r.Failure? ==> r == Failure(400, InvalidReport) && forall k :: ReportKey(k) != s
  {
    if s == "appointments_by_specialty" then Success(AppointmentsBySpecialty)
    else if s == "patient_activity" then Success(PatientActivity)
    else if s == "doctor_performance" then Success(DoctorPerformance)
    else Failure(400, InvalidReport)
  }

  // ---------------------------------------------------------------------
  // Create (admin)

  /** The body of the create request. A field is None when it is missing or
      falsy in the JSON body. */
  datatype CreateRequest = CreateRequest(
    patientId: Option<nat>, doctorId: Option<nat>, date: Option<int>, reason: Option<string>)

  predicate Complete(req: CreateRequest)
  {
    req.patientId.Some? && req.doctorId.Some? && req.date.Some?
  }

  predicate ActivePatient(patients: map<nat, bool>, id: nat)
  {
    id in patients && patients[id]
  }

  /** The checks of the admin create, in their order: required fields (400),
      active patient (404), existing doctor (404), free slot (400). The first
      failing one gives the reply; the request is accepted exactly when all
      of them pass. */
  function CreateCheck(patients: map<nat, bool>, doctors: set<nat>, t: AppointmentTable,
                       req: CreateRequest): (v: Verdict)
    ensures v == Accept <==>
      Complete(req) && ActivePatient(patients, req.patientId.value) &&
      req.doctorId.value in doctors && !SlotTaken(t, req.doctorId.value, req.date.value, None)
    ensures !Complete(req) ==> v == Reject(400, MissingFields)
    ensures Complete(req) && !ActivePatient(patients, req.patientId.value) ==>
      v == Reject(404, PatientNotFound)
    ensures (Complete(req) && ActivePatient(patients, req.patientId.value) &&
             req.doctorId.value !in doctors) ==> v == Reject(404, DoctorNotFound)
    ensures (Complete(req) && ActivePatient(patients, req.patientId.value) &&
             req.doctorId.value in doctors &&
             SlotTaken(t, req.doctorId.value, req.date.value, None)) ==>
      v == Reject(400, DoctorBusy)
  {
    if !Complete(req) then Reject(400, MissingFields)
    else if !ActivePatient(patients, req.patientId.value) then Reject(404, PatientNotFound)
    else if req.doctorId.value !in doctors then Reject(404, DoctorNotFound)
    else if SlotTaken(t, req.doctorId.value, req.date.value, None) then Reject(400, DoctorBusy)
    else Accept
  }

  /** The inserted row: status 'pendiente', reason `reason || ''`. */
  function NewRow(req: CreateRequest): Appointment
    requires Complete(req)
  {
    Appointment(req.patientId.value, req.doctorId.value, req.date.value,
                if req.reason.Some? then req.reason.value else "", Pendiente)
  }

  method CreateAppointmentAdmin(db: Database, req: CreateRequest) returns (reply: Reply<Row>)
    requires db.Valid()
    modifies db
    ensures db.Valid()
    ensures db.patients == old(db.patients) && db.doctors == old(db.doctors)
    ensures var v := CreateCheck(old(db.patients), old(db.doctors), old(db.appointments), req);
      if v.Reject? then
        reply == Failure(v.code, v.error) &&
        db.appointments == old(db.appointments) && db.nextId == old(db.nextId)
      else
        old(db.nextId) !in old(db.appointments) &&
        reply == Success(Row(old(db.nextId), NewRow(req))) &&
        db.appointments == old(db.appointments)[old(db.nextId) := NewRow(req)] &&
        db.nextId == old(db.nextId) + 1
  {
    if req.patientId.None? || req.doctorId.None? || req.date.None? {
      return Failure(400, MissingFields);
    }
    var patientId, doctorId, date := req.patientId.value, req.doctorId.value, req.date.value;
    if !(patientId in db.patients && db.patients[patientId]) {
      return Failure(404, PatientNotFound);
    }
    if doctorId !in db.doctors {
      return Failure(404, DoctorNotFound);
    }
    if SlotTaken(db.appointments, doctorId, date, None) {
      return Failure(400, DoctorBusy);
    }
    var id := db.nextId;
    var row := Appointment(patientId, doctorId, date,
                           if req.reason.Some? then req.reason.value else "", Pendiente);
    db.appointments := db.appointments[id := row];
    db.nextId := db.nextId + 1;
    reply := Success(Row(id, row));
  }

  /** An accepted create keeps the table free of double bookings. */
  lemma CreateKeepsExclusive(patients: map<nat, bool>, doctors: set<nat>, t: AppointmentTable,
                             req: CreateRequest, id: nat)
    requires Exclusive(t) && id !in t
    requires CreateCheck(patients, doctors, t, req) == Accept
    ensures Exclusive(t[id := NewRow(req)])
  {
  }

  /** Sending the same accepted request again is refused: the slot is now
      held by the row the first call inserted. */
  lemma RepeatedCreateIsRefused(patients: map<nat, bool>, doctors: set<nat>, t: AppointmentTable,
                                req: CreateRequest, id: nat)
    requires id !in t
    requires CreateCheck(patients, doctors, t, req) == Accept
    ensures CreateCheck(patients, doctors, t[id := NewRow(req)], req) == Reject(400, DoctorBusy)
  {
  }

  // ---------------------------------------------------------------------
  // Update (admin)

  /** The body of the update request: `doctor_id`, `appointment_date` and
      `status` are None when falsy, `reason` only when undefined.
      `doctorAsText` says that `doctor_id` came as a JSON string, as the
      administrator's form sends it, rather than as a JSON number. */
  datatype UpdateRequest = UpdateRequest(
    doctorId: Option<nat>, date: Option<int>, reason: Option<string>, status: Option<Status>,
    doctorAsText: bool)

  /** `x || current`: the supplied value, else the stored one. */
  function Pick<T>(supplied: Option<T>, current: T): T
  {
    if supplied.Some? then supplied.value else current
  }

  /** The test `(doctor_id && doctor_id !== current.doctor_id) ||
      (appointment_date && appointment_date !== current.appointment_date)`.
      The stored doctor is a number and the stored timestamp a Date object,
      so strict inequality holds for a doctor sent as text, for a numeric
      doctor other than the stored one, and for every supplied timestamp. */
  predicate Reschedules(current: Appointment, req: UpdateRequest)
  {
    (req.doctorId.Some? && (req.doctorAsText || req.doctorId.value != current.doctorId)) ||
    req.date.Some?
  }

  predicate HasFields(req: UpdateRequest)
  {
    req.doctorId.Some? || req.date.Some? || req.reason.Some? || req.status.Some?
  }

  /** The checks of the admin update, in their order: the appointment exists
      (404); when it is rescheduled, no other non-cancelled row holds the
      target slot (400); some field is supplied (400). */
  function UpdateCheck(t: AppointmentTable, id: nat, req: UpdateRequest): (v: Verdict)
    ensures v == Accept <==>
      id in t && HasFields(req) &&
      (Reschedules(t[id], req) ==>
        !SlotTaken(t, Pick(req.doctorId, t[id].doctorId), Pick(req.date, t[id].date), Some(id)))
    ensures id !in t ==> v == Reject(404, AppointmentNotFound)
    ensures (id in t && Reschedules(t[id], req) &&
             SlotTaken(t, Pick(req.doctorId, t[id].doctorId), Pick(req.date, t[id].date), Some(id))) ==>
      v == Reject(400, DoctorBusyOther)
    ensures id in t && !HasFields(req) ==> v == Reject(400, NothingToUpdate)
  {
    if id !in t then Reject(404, AppointmentNotFound)
    else if Reschedules(t[id], req) &&
      SlotTaken(t, Pick(req.doctorId, t[id].doctorId), Pick(req.date, t[id].date), Some(id))
    then Reject(400, DoctorBusyOther)
    else if !HasFields(req) then Reject(400, NothingToUpdate)
    else Accept
  }

  /** The row after `UPDATE ... SET <supplied fields>`: every supplied field
      takes its new value, every other column keeps its value, and the
      patient is never written. */
  function ApplyUpdate(current: Appointment, req: UpdateRequest): (a: Appointment)
    ensures a.patientId == current.patientId
    ensures req.doctorId.None? ==> a.doctorId == current.doctorId
    ensures req.doctorId.Some? ==> a.doctorId == req.doctorId.value
    ensures req.date.None? ==> a.date == current.date
    ensures req.date.Some? ==> a.date == req.date.value
    ensures req.reason.None? ==> a.reason == current.reason
    ensures req.reason.Some? ==> a.reason == req.reason.value
    ensures req.status.None? ==> a.status == current.status
    ensures req.status.Some? ==> a.status == req.status.value
  {
    current.(doctorId := Pick(req.doctorId, current.doctorId),
             date := Pick(req.date, current.date),
             reason := Pick(req.reason, current.reason),
             status := Pick(req.status, current.status))
  }

  method UpdateAppointmentAdmin(db: Database, id: nat, req: UpdateRequest)
    returns (reply: Reply<Row>)
    requires db.Valid()
    modifies db
    ensures db.Valid()
    ensures db.patients == old(db.patients) && db.doctors == old(db.doctors)
    ensures db.nextId == old(db.nextId)
    ensures var v := UpdateCheck(old(db.appointments), id, req);
      if v.Reject? then
        reply == Failure(v.code, v.error) && db.appointments == old(db.appointments)
      else
        var a := ApplyUpdate(old(db.appointments)[id], req);
        reply == Success(Row(id, a)) && db.appointments == old(db.appointments)[id := a]
  {
    if id !in db.appointments {
      return Failure(404, AppointmentNotFound);
    }
    var current := db.appointments[id];
    if (req.doctorId.Some? && (req.doctorAsText || req.doctorId.value != current.doctorId)) ||
       req.date.Some?
    {
      var finalDoctor := if req.doctorId.Some? then req.doctorId.value else current.doctorId;
      var finalDate := if req.date.Some? then req.date.value else current.date;
      if SlotTaken(db.appointments, finalDoctor, finalDate, Some(id)) {
        return Failure(400, DoctorBusyOther);
      }
    }
    // The SET list, one column per supplied field.
    var updated := current;
    var written := 0;
    if req.doctorId.Some? {
      updated := updated.(doctorId := req.doctorId.value);
      written := written + 1;
    }
    if req.date.Some? {
      updated := updated.(date := req.date.value);
      written := written + 1;
    }
    if req.reason.Some? {
      updated := updated.(reason := req.reason.value);
      written := written + 1;
    }
    if req.status.Some? {
      updated := updated.(status := req.status.value);
      written := written + 1;
    }
    if written == 0 {
      return Failure(400, NothingToUpdate);
    }
    db.appointments := db.appointments[id := updated];
    reply := Success(Row(id, updated));
  }

  /** An update that sends no timestamp, and either no doctor or the stored
      doctor as a JSON number, skips the conflict check: with at least one
      field it is accepted. */
  lemma SameSlotUpdateAccepted(t: AppointmentTable, id: nat, req: UpdateRequest)
    requires id in t && HasFields(req)
    requires req.doctorId.None? || (!req.doctorAsText && req.doctorId.value == t[id].doctorId)
    requires req.date.None?
    ensures UpdateCheck(t, id, req) == Accept
  {
  }

  /** A supplied timestamp always goes through the conflict check, even when
      it is the stored one: if another live row holds the target slot, the
      update is refused. */
  lemma SuppliedDateIsChecked(t: AppointmentTable, id: nat, req: UpdateRequest)
    requires id in t && req.date.Some?
    requires SlotTaken(t, Pick(req.doctorId, t[id].doctorId), req.date.value, Some(id))
    ensures UpdateCheck(t, id, req) == Reject(400, DoctorBusyOther)
  {
  }

  /** An accepted update keeps the table free of double bookings, unless it
      turns a cancelled row back into a live one without passing the
      conflict check. */
  lemma UpdateKeepsExclusive(t: AppointmentTable, id: nat, req: UpdateRequest)
    requires Exclusive(t)
    requires UpdateCheck(t, id, req) == Accept
    requires t[id].status == Cancelada && ApplyUpdate(t[id], req).status != Cancelada ==>
      Reschedules(t[id], req)
    ensures Exclusive(t[id := ApplyUpdate(t[id], req)])
  {
  }

  /** The exception in UpdateKeepsExclusive is real: a status-only update
      revives a cancelled row without any conflict check, even when another
      live row holds the same doctor and timestamp. */
  lemma ReactivationDoubleBooks()
    ensures var t := map[1 := Appointment(1, 7, 100, "", Cancelada),
                         2 := Appointment(2, 7, 100, "", Pendiente)];
            var req := UpdateRequest(None, None, None, Some(Pendiente), false);
            Exclusive(t) && UpdateCheck(t, 1, req) == Accept &&
            !Exclusive(t[1 := ApplyUpdate(t[1], req)])
  {
    var t := map[1 := Appointment(1, 7, 100, "", Cancelada),
                 2 := Appointment(2, 7, 100, "", Pendiente)];
    var req := UpdateRequest(None, None, None, Some(Pendiente), false);
    var t' := t[1 := ApplyUpdate(t[1], req)];
    assert Blocks(t'[2], t'[1].doctorId, t'[1].date);
  }

  // ---------------------------------------------------------------------
  // Cancel (admin)

  /** The table after `UPDATE appointments SET status = "cancelada"`: the
      same ids, the row keeps its patient, doctor, timestamp and reason and
      becomes cancelled, every other row is untouched. */
  function CancelRow(t: AppointmentTable, id: nat): (r: AppointmentTable)
    requires id in t
    ensures r.Keys == t.Keys
    ensures r[id].status == Cancelada
    ensures r[id].patientId == t[id].patientId && r[id].doctorId == t[id].doctorId
    ensures r[id].date == t[id].date && r[id].reason == t[id].reason
    ensures forall k :: k in t && k != id ==> r[k] == t[k]
  {
    t[id := t[id].(status := Cancelada)]
  }

  method DeleteAppointmentAdmin(db: Database, id: nat) returns (reply: Reply<()>)
    requires db.Valid()
    modifies db
    ensures db.Valid()
    ensures db.patients == old(db.patients) && db.doctors == old(db.doctors)
    ensures db.nextId == old(db.nextId)
    ensures id !in old(db.appointments) ==>
      reply == Failure(404, AppointmentNotFound) && db.appointments == old(db.appointments)
    ensures id in old(db.appointments) ==>
      reply == Success(()) && db.appointments == CancelRow(old(db.appointments), id)
  {
    if id !in db.appointments {
      return Failure(404, AppointmentNotFound);
    }
    db.appointments := db.appointments[id := db.appointments[id].(status := Cancelada)];
    reply := Success(());
  }

  /** Cancelling twice is cancelling once. */
  lemma CancelIdempotent(t: AppointmentTable, id: nat)
    requires id in t
    ensures CancelRow(CancelRow(t, id), id) == CancelRow(t, id)
  {
  }

  /** A cancelled row never blocks its slot: if nothing but row `id` held it,
      the same patient and doctor can book that slot again. */
  lemma CancelFreesSlot(patients: map<nat, bool>, doctors: set<nat>, t: AppointmentTable,
                        id: nat, req: CreateRequest)
    requires id in t && Complete(req)
    requires ActivePatient(patients, req.patientId.value) && req.doctorId.value in doctors
    requires !SlotTaken(t, req.doctorId.value, req.date.value, Some(id))
    ensures CreateCheck(patients, doctors, CancelRow(t, id), req) == Accept
  {
  }

  /** Cancelling keeps the table free of double bookings. */
  lemma CancelKeepsExclusive(t: AppointmentTable, id: nat)
    requires Exclusive(t) && id in t
    ensures Exclusive(CancelRow(t, id))
  {
  }

  // ---------------------------------------------------------------------
  // How the writes move the dashboard counters

  /** An accepted create adds one to the total and to the pending count. */
  lemma CreateCountsOne(t: AppointmentTable, id: nat, req: CreateRequest)
    requires id !in t && Complete(req)
    ensures |Live(t[id := NewRow(req)])| == |Live(t)| + 1
    ensures |PendingIds(t[id := NewRow(req)])| == |PendingIds(t)| + 1
  {
    var t' := t[id := NewRow(req)];
    assert Live(t') == Live(t) + {id};
    assert PendingIds(t') == PendingIds(t) + {id};
  }

  /** Cancelling a live row takes one off the total; cancelling a row that is
      already cancelled changes nothing. */
  lemma CancelCountsOne(t: AppointmentTable, id: nat)
    requires id in t
    ensures |Live(CancelRow(t, id))| ==
      if t[id].status != Cancelada then |Live(t)| - 1 else |Live(t)|
  {
    var c := CancelRow(t, id);
    if t[id].status != Cancelada {
      assert Live(t) == Live(c) + {id};
    } else {
      assert Live(c) == Live(t);
    }
  }
}
