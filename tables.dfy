/** The relational tables the controllers read and write, kept in memory.

    `appointments` maps an appointment id to its row, `patients` maps a
    patient id to whether its status is "active", and `doctors` is the set of
    doctor ids. Timestamps are opaque integers: no calendar, no time zone. */
module Tables {

  datatype Option<T> = None | Some(value: T)

  /** The reply a controller sends: a JSON body with `success: true`, or an
      HTTP error status with the `error` message of the body. */
  datatype Reply<T> = Success(value: T) | Failure(code: nat, error: string)

  /** The four values of `appointments.status`. */
  datatype Status = Pendiente | Confirmada | Completada | Cancelada

  /** The text stored in the column and sent to the browser. */
  function StatusName(s: Status): (name: string)
  {
    match s
    case Pendiente => "pendiente"
    case Confirmada => "confirmada"
    case Completada => "completada"
    case Cancelada => "cancelada"
  }

  datatype Appointment = Appointment(
    patientId: nat,
    doctorId: nat,
    date: int,
    reason: string,
    status: Status)

  /** One row of a listing: the id column beside the other columns. */
  datatype Row = Row(id: nat, appt: Appointment)

  type AppointmentTable = map<nat, Appointment>

  /** Row `a` occupies the slot of `doctor` at `date`: the WHERE clause of the
      availability queries `doctor_id = ? AND appointment_date = ? AND
      status != "cancelada"`. */
  predicate Blocks(a: Appointment, doctor: nat, date: int)
  {
    a.doctorId == doctor && a.date == date && a.status != Cancelada
  }

  /** Some row, other than the one with id `except`, occupies the slot. */
  predicate SlotTaken(t: AppointmentTable, doctor: nat, date: int, except: Option<nat>)
  {
    exists k :: k in t && Some(k) != except && Blocks(t[k], doctor, date)
  }

  /** No doctor holds two non-cancelled appointments at the same timestamp. */
  ghost predicate Exclusive(t: AppointmentTable)
  {
    forall i, j :: i in t && j in t && i != j && t[i].status != Cancelada ==>
      !Blocks(t[j], t[i].doctorId, t[i].date)
  }

  /** The ids of the rows that are not cancelled. */
  function Live(t: AppointmentTable): (ids: set<nat>)
    ensures ids <= t.Keys
    ensures forall k :: k in ids <==> k in t && t[k].status != Cancelada
  {
    set k | k in t && t[k].status != Cancelada
  }

  /** The database the controllers share. */
  class Database {
    /** patients.id -> (patients.status == "active") */
    var patients: map<nat, bool>
    /** doctors.id */
    var doctors: set<nat>
    var appointments: AppointmentTable
    /** The AUTO_INCREMENT counter of `appointments`. */
    var nextId: nat

    /** Every stored id was handed out by the counter, so the next one is
        fresh. */
    ghost predicate Valid()
      reads this
    {
      forall k :: k in appointments ==> k < nextId
    }

    constructor (patients: map<nat, bool>, doctors: set<nat>)
      ensures Valid()
      ensures this.patients == patients && this.doctors == doctors
      ensures appointments == map[] && nextId == 1
    {
      this.patients := patients;
      this.doctors := doctors;
      appointments := map[];
      nextId := 1;
    }
  }
}
