/** The plain appointment controller: an unchecked insert, the listing by
    date, a full overwrite and a hard delete on the same table the
    administrator's controller guards. */
module AppointmentsCtrl {
  import opened Tables

  /** `INSERT INTO appointments (...) VALUES (...)` with no existence or
      availability check. The status column takes its default, 'pendiente'.
      The reply carries the new AUTO_INCREMENT id. */
  method CreateAppointment(db: Database, patientId: nat, doctorId: nat, date: int, reason: string)
    returns (id: nat)
    requires db.Valid()
    modifies db
    ensures db.Valid()
    ensures db.patients == old(db.patients) && db.doctors == old(db.doctors)
    ensures id == old(db.nextId) && id !in old(db.appointments)
    ensures db.appointments ==
      old(db.appointments)[id := Appointment(patientId, doctorId, date, reason, Pendiente)]
    ensures db.nextId == old(db.nextId) + 1
  {
    id := db.nextId;
    db.appointments := db.appointments[id := Appointment(patientId, doctorId, date, reason, Pendiente)];
    db.nextId := db.nextId + 1;
  }

  /** Without the availability check the insert can double-book a doctor. */
  lemma UncheckedInsertDoubleBooks()
    ensures var t := map[1 := Appointment(1, 7, 100, "", Pendiente)];
            Exclusive(t) && !Exclusive(t[2 := Appointment(2, 7, 100, "", Pendiente)])
  {
    var t' := map[1 := Appointment(1, 7, 100, "", Pendiente)][2 := Appointment(2, 7, 100, "", Pendiente)];
    assert Blocks(t'[2], t'[1].doctorId, t'[1].date);
  }

  // ---------------------------------------------------------------------
  // Listing: ORDER BY appointment_date DESC

  predicate SortedByDateDesc(rows: seq<Row>)
  {
    forall i, j :: 0 <= i < j < |rows| ==> rows[i].appt.date >= rows[j].appt.date
  }

  /** Where a row dated `date` goes in a listing sorted by date, newest
      first: after every row at least as recent, before every older one. */
  function InsertionPoint(rows: seq<Row>, date: int): (k: nat)
    requires SortedByDateDesc(rows)
    ensures k <= |rows|
    ensures forall i :: 0 <= i < k ==> rows[i].appt.date >= date
    ensures forall i :: k <= i < |rows| ==> rows[i].appt.date < date
  {
    if rows == [] || rows[0].appt.date < date then 0
    else 1 + InsertionPoint(rows[1..], date)
  }

  /** `rows` with `r` placed at position `p`. */
  function InsertAt(rows: seq<Row>, p: nat, r: Row): (s: seq<Row>)
    requires p <= |rows|
    ensures |s| == |rows| + 1 && s[p] == r
    ensures forall i :: 0 <= i < p ==> s[i] == rows[i]
    ensures forall i :: p < i < |s| ==> s[i] == rows[i - 1]
  {
    rows[..p] + [r] + rows[p..]
  }

  /** Inserting at the insertion point keeps the listing sorted. */
  lemma InsertKeepsSorted(rows: seq<Row>, r: Row)
    requires SortedByDateDesc(rows)
    ensures SortedByDateDesc(InsertAt(rows, InsertionPoint(rows, r.appt.date), r))
  {
  }

  /** `rows` lists exactly the rows of `t` whose ids are in `ids`, each
      once and with its stored columns. */
  ghost predicate Lists(rows: seq<Row>, t: AppointmentTable, ids: set<nat>)
  {
    && (forall i :: 0 <= i < |rows| ==>
          rows[i].id in ids && rows[i].id in t && t[rows[i].id] == rows[i].appt)
    && (forall i, j :: 0 <= i < j < |rows| ==> rows[i].id != rows[j].id)
    && (forall k :: k in ids ==> exists i :: 0 <= i < |rows| && rows[i].id == k)
  }

  /** One step of the listing: inserting the row of a new id, anywhere,
      lists one more id. */
  lemma {:induction false} InsertStep(rows: seq<Row>, t: AppointmentTable, ids: set<nat>, k: nat, p: nat)
    requires Lists(rows, t, ids) && p <= |rows|
    requires k in t && k !in ids
    ensures Lists(InsertAt(rows, p, Row(k, t[k])), t, ids + {k})
  {
    var next := InsertAt(rows, p, Row(k, t[k]));
    forall i, j | 0 <= i < j < |next| ensures next[i].id != next[j].id {
      var i' := if i < p then i else i - 1;
      var j' := if j < p then j else j - 1;
      if i != p && j != p {
        assert next[i] == rows[i'] && next[j] == rows[j'];
      } else if i == p {
        assert next[j] == rows[j'];
      } else {
        assert next[i] == rows[i'];
      }
    }
    forall q | q in ids + {k}
      ensures exists i :: 0 <= i < |next| && next[i].id == q
    {
      if q == k {
        assert next[p].id == q;
      } else {
        var i :| 0 <= i < |rows| && rows[i].id == q;
        if i < p {
          assert next[i].id == q;
        } else {
          assert next[i + 1].id == q;
        }
      }
    }
  }

  /** `SELECT ... FROM appointments ORDER BY appointment_date DESC`: every
      row once, with its stored columns, newest first. Rows with equal
      timestamps may come in any order. */
  method GetAppointments(db: Database) returns (rows: seq<Row>)
    ensures SortedByDateDesc(rows)
    ensures |rows| == |db.appointments|
    ensures forall i :: 0 <= i < |rows| ==>
      rows[i].id in db.appointments && db.appointments[rows[i].id] == rows[i].appt
    ensures forall i, j :: 0 <= i < j < |rows| ==> rows[i].id != rows[j].id
    ensures forall k :: k in db.appointments ==> exists i :: 0 <= i < |rows| && rows[i].id == k
  {
    var t := db.appointments;
    var pending, done := t.Keys, {};
    rows := [];
    while pending != {}
      invariant pending !! done && pending + done == t.Keys
      invariant |rows| + |pending| == |t.Keys|
      invariant SortedByDateDesc(rows) && Lists(rows, t, done)
      decreases |pending|
    {
      var k :| k in pending;
      var r := Row(k, t[k]);
      var p := InsertionPoint(rows, r.appt.date);
      InsertKeepsSorted(rows, r);
      InsertStep(rows, t, done, k, p);
      rows := InsertAt(rows, p, r);
      pending, done := pending - {k}, done + {k};
    }
  }

  // ---------------------------------------------------------------------
  // Overwrite and delete

  /** `UPDATE appointments SET patient_id=?, doctor_id=?, appointment_date=?,
      reason=?, status=? WHERE id=?`: row `id`, if there is one, takes all
      five supplied columns; no other row changes. The reply is the same
      whether or not the row existed. */
  method UpdateAppointment(db: Database, id: nat, patientId: nat, doctorId: nat, date: int,
                           reason: string, status: Status)
    requires db.Valid()
    modifies db
    ensures db.Valid()
    ensures db.patients == old(db.patients) && db.doctors == old(db.doctors)
    ensures db.nextId == old(db.nextId)
    ensures db.appointments.Keys == old(db.appointments).Keys
    ensures id in db.appointments ==>
      db.appointments[id] == Appointment(patientId, doctorId, date, reason, status)
    ensures forall k :: k in old(db.appointments) && k != id ==>
      db.appointments[k] == old(db.appointments)[k]
  {
    if id in db.appointments {
      db.appointments := db.appointments[id := Appointment(patientId, doctorId, date, reason, status)];
    }
  }

  /** `DELETE FROM appointments WHERE id=?`: the row is gone, unlike the
      administrator's cancel which keeps it; no other row changes and the
      counter is not rewound. */
  method DeleteAppointment(db: Database, id: nat)
    requires db.Valid()
    modifies db
    ensures db.Valid()
    ensures db.patients == old(db.patients) && db.doctors == old(db.doctors)
    ensures db.nextId == old(db.nextId)
    ensures id !in db.appointments
    ensures db.appointments == old(db.appointments) - {id}
  {
    db.appointments := db.appointments - {id};
  }

  /** Removing rows never creates a double booking. */
  lemma DeleteKeepsExclusive(t: AppointmentTable, id: nat)
    requires Exclusive(t)
    ensures Exclusive(t - {id})
  {
  }
}
