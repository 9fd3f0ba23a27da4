# Clinic appointments: the admin rules over the appointment table

This project models the decision logic of a clinic appointment web
application. It proves properties of that model in Dafny. The model has
three in-memory tables:

- `appointments`: a map from appointment id to a row with `patient_id`,
  `doctor_id`, `appointment_date` (an opaque integer timestamp), `reason` and
  `status` (`pendiente`, `confirmada`, `completada` or `cancelada`);
- `patients`: a map from patient id to its "active" flag;
- `doctors`: the set of doctor ids.

It also holds the AUTO_INCREMENT counter of `appointments`. All of this sits
in the class `Tables.Database`. Its invariant `Valid()` says that every stored
id is below the counter, so each insert gets a fresh id.

The modules follow the source files:

- `Tables` (`tables.dfy`): rows, statuses, replies, the occupancy predicates
  `Blocks` / `SlotTaken`, and the invariant `Exclusive`. `Exclusive` says no
  doctor holds two non-cancelled appointments at the same timestamp.
- `AdminCtrl` (`admin_ctrl.dfy`): the admin controller. It covers the login
  decision, the dashboard counters, pagination arithmetic and the report-type
  switch. It also covers the checked create, update and cancel of
  appointments. Each of those three is a method on the `Database`. Its
  contract ties the reply and the new table to a pure verdict function
  (`CreateCheck`, `UpdateCheck`) and a row builder (`NewRow`, `ApplyUpdate`,
  `CancelRow`). Lemmas about those functions state what the operations
  guarantee across calls.
- `AppointmentsCtrl` (`appointments_ctrl.dfy`): the plain controller on the
  same table. It has an unchecked insert, the listing ordered by date, a
  full overwrite and a hard delete.
- `AdminView` (`admin_view.dfy`): the admin page's helpers. These are the
  status badge, the selection buttons, the pagination bar, report titles,
  column headings and table cells.

The only availability check in the code is this one. The admin create and
update refuse a doctor and timestamp that another non-cancelled row already
holds. On update, the row being updated is excluded from the check, and the
check runs only under the condition described below. The plain controller
makes no check at all. The controllers have no
business-hours, past-date, patient double-booking or time-window rule. Exact
equality of doctor and timestamp among non-cancelled rows is the only
conflict test.

Request fields whose value is falsy in JavaScript (missing, `null`, `0`, `''`)
are `None`. The one exception is `reason` in the admin update: the code tests
it with `!== undefined`, so there it is `None` only when undefined.

The admin update decides whether to run the conflict check with a strict
`!==` against the stored row. The stored doctor is a number and the stored
timestamp a Date object. So the check runs for every supplied timestamp,
for a doctor sent as a JSON string (the admin form sends one), and for a
numeric doctor other than the stored one. The request carries a flag saying
whether the doctor came as a string.

## Model

| member | source | states |
|---|---|---|
| `AdminCtrl.LoginAdmin` | backend/controllers/adminCtrl.js:15-47 | login succeeds iff both fields are non-empty and the username names an active account whose password equals the given one; it returns that account's id, username, name, email and role (never the password); an empty field gives 400; an unknown user and a wrong password give the same 401 reply |
| `AdminCtrl.DashboardStats` | backend/controllers/adminCtrl.js:95-99 | the totals count active patients, all doctors, and non-cancelled appointments; today's count (non-cancelled, on the current day) and the pending count never exceed the total, and the total never exceeds the table |
| `AdminCtrl.TotalPages` | backend/controllers/adminCtrl.js:183 | `Math.ceil(total / limit)`: for a positive limit r satisfies (r-1)·limit < total ≤ r·limit; the inequalities flip for a negative limit; a zero limit (non-finite quotient) gives None |
| `AdminCtrl.Offset` | backend/controllers/adminCtrl.js:136-139 | the OFFSET (page-1)·limit is 0 on the first page, never negative for page ≥ 1 and a non-negative limit, and with a positive limit skips exactly page-1 whole pages |
| `AdminCtrl.PageStartsInside` | backend/controllers/adminCtrl.js:136-139 | with offset (page-1)·limit, a positive limit and page ≥ 1, the page's offset is inside the result set iff page ≤ totalPages |
| `AdminCtrl.ParseReportType` | backend/controllers/adminCtrl.js:348-398 | the three known report keys select their report; any other value gives 400 'Tipo de reporte no válido' and matches no key |
| `AdminCtrl.CreateCheck` | backend/controllers/adminCtrl.js:422-472 | a create is accepted iff all three required fields are present, the patient exists and is active, the doctor exists, and no non-cancelled row has the same doctor and timestamp; otherwise the first failing check gives the reply, in the order 400 / 404 patient / 404 doctor / 400 conflict |
| `AdminCtrl.CreateAppointmentAdmin` | backend/controllers/adminCtrl.js:418-494 | a rejected create changes no table; an accepted one inserts exactly one row under the fresh id with status 'pendiente' and reason `reason \|\| ''`, returns that id and row, and leaves every other row, the patients and the doctors unchanged |
| `AdminCtrl.CreateKeepsExclusive` | backend/controllers/adminCtrl.js:461-479 | an accepted create keeps the table free of double bookings |
| `AdminCtrl.RepeatedCreateIsRefused` | backend/controllers/adminCtrl.js:461-472 | repeating an accepted request against the table it produced is refused with 400 'El doctor ya tiene una cita programada en esa fecha y hora' |
| `AdminCtrl.UpdateCheck` | backend/controllers/adminCtrl.js:521-587 | an update is accepted iff the id exists, some writable field is supplied, and, when the strict-inequality test fires (any supplied timestamp, a doctor sent as text, or a different numeric doctor), no other non-cancelled row holds the slot of the supplied doctor (else the current one) at the supplied date (else the current one); a missing id gives 404; a conflict gives 400 before the empty-update check; an update with no fields gives 400 |
| `AdminCtrl.ApplyUpdate` | backend/controllers/adminCtrl.js:557-579 | each supplied field takes its new value, every other column keeps its stored value, and `patient_id` is never written |
| `AdminCtrl.UpdateAppointmentAdmin` | backend/controllers/adminCtrl.js:506-615 | a rejected update changes nothing; an accepted one rewrites row `id` only, as ApplyUpdate says, and returns the updated row |
| `AdminCtrl.SameSlotUpdateAccepted` | backend/controllers/adminCtrl.js:536-555 | an update with no timestamp, and either no doctor or the stored doctor as a JSON number, skips the conflict check, so it is accepted whenever it supplies a field |
| `AdminCtrl.SuppliedDateIsChecked` | backend/controllers/adminCtrl.js:536-552 | a supplied timestamp always runs the conflict check, even when it equals the stored one: if another live row holds the target slot, the reply is 400 'El doctor ya tiene otra cita programada en esa fecha y hora' |
| `AdminCtrl.UpdateKeepsExclusive` | backend/controllers/adminCtrl.js:536-593 | an accepted update keeps the table free of double bookings, unless it revives a cancelled row without passing the conflict check (a revival that sends a timestamp or a doctor as text is checked, so it cannot double-book) |
| `AdminCtrl.ReactivationDoubleBooks` | backend/controllers/adminCtrl.js:576-579 | a status-only update can revive a cancelled row while another live row holds the same slot: the update is accepted and the table is then double-booked |
| `AdminCtrl.CancelRow` | backend/controllers/adminCtrl.js:654-658 | cancelling keeps every id; the row keeps its patient, doctor, date and reason and gets status 'cancelada'; all other rows are untouched |
| `AdminCtrl.DeleteAppointmentAdmin` | backend/controllers/adminCtrl.js:627-665 | a missing id gives 404 'Cita no encontrada' and changes nothing; an existing id is soft-deleted as CancelRow says and the row stays in the table |
| `AdminCtrl.CancelIdempotent` | backend/controllers/adminCtrl.js:655-658 | cancelling twice gives the same table as cancelling once |
| `AdminCtrl.CancelFreesSlot` | backend/controllers/adminCtrl.js:461-464 | a cancelled row never blocks its slot: if nothing but that row held it, a create for that doctor and timestamp is accepted after the cancel |
| `AdminCtrl.CancelKeepsExclusive` | backend/controllers/adminCtrl.js:655-658 | cancelling keeps the table free of double bookings |
| `AdminCtrl.CreateCountsOne` | backend/controllers/adminCtrl.js:97-99 | an inserted 'pendiente' row raises the dashboard's total and pending counts by exactly one |
| `AdminCtrl.CancelCountsOne` | backend/controllers/adminCtrl.js:97 | cancelling a live row lowers the non-cancelled total by one; cancelling a cancelled row leaves it unchanged |
| `AppointmentsCtrl.CreateAppointment` | backend/controllers/appointmentsCtrl.js:5-14 | inserts exactly one row with no existence or availability check, under a fresh id that it returns; other rows are unchanged |
| `AppointmentsCtrl.UncheckedInsertDoubleBooks` | backend/controllers/appointmentsCtrl.js:9-12 | without the check, the plain insert can double-book a doctor |
| `AppointmentsCtrl.GetAppointments` | backend/controllers/appointmentsCtrl.js:21-32 | returns every row of the table exactly once with its stored columns, ordered by `appointment_date`, newest first |
| `AppointmentsCtrl.UpdateAppointment` | backend/controllers/appointmentsCtrl.js:39-49 | row `id`, if present, gets all five supplied columns; no other row changes and no row is added |
| `AppointmentsCtrl.DeleteAppointment` | backend/controllers/appointmentsCtrl.js:56-62 | physically removes row `id`, so afterwards no row has that id; every other row is unchanged |
| `AppointmentsCtrl.DeleteKeepsExclusive` | backend/controllers/appointmentsCtrl.js:60 | removing a row never creates a double booking |
| `AdminView.StatusBadge` | frontend/js/admin.js:334-342 | the badge is 'bg-secondary' exactly for strings that are not one of the four statuses |
| `AdminView.BadgeOfStatus` | frontend/js/admin.js:334-342 | pendiente/confirmada/completada/cancelada map to warning/primary/success/danger, and no two statuses share a badge |
| `AdminView.UpdateSelectionButtons` | frontend/js/admin.js:380-391 | a present edit button is enabled iff exactly one appointment is selected; a present delete button is enabled iff at least one is |
| `AdminView.RenderPagination` | frontend/js/admin.js:540-572 | the bar starts with 'Anterior' (to page-1) iff page > 1, ends with 'Siguiente' (to page+1) iff page < totalPages, and has one button per page 1..totalPages in order; only the current page is active, and only the active button lacks an onclick |
| `AdminView.ReportTypeName` | frontend/js/admin.js:636-643 | a title differs from its type exactly for the three known types, and is then one of their three Spanish names |
| `AdminView.ReportTitles` | frontend/js/admin.js:637-642 | appointments_by_specialty, patient_activity and doctor_performance get 'Citas por Especialidad', 'Actividad de Pacientes' and 'Rendimiento de Doctores', and no two report types share a title |
| `AdminView.ReportTypeNameMatchesServer` | frontend/js/admin.js:636-643 | the page gives its own title to exactly the report types the server accepts, and echoes every other type unchanged |
| `AdminView.Humanize` | frontend/js/admin.js:655 | same length as the key; underscores become spaces and lower-case letters become capitals, so the result has neither |
| `AdminView.FormatHeader` | frontend/js/admin.js:645-656 | known keys get their fixed label; any other key is humanized character by character |
| `AdminView.FormatCell` | frontend/js/admin.js:658-670 | 'N/A' exactly for a missing value; date formatting for 'last_appointment' and every key containing "date"; minutes for 'avg_booking_time'; a date or minutes only for those columns; for any other column the value itself, unchanged |

## Left out

- SQL text, the MySQL connection, Express routing and the 500 replies for exceptions: these are I/O. The model keeps only their effect on the tables.
- A controller's checks and its write run as one step in the model. The source runs them as separate queries with no transaction, so two concurrent creates can both pass the check. Concurrency, including the `Promise.all` of the dashboard, is not modelled.
- `getDashboardStats` recent list: it returns the five most recent non-cancelled appointments joined with patients and doctors. It is not modelled beyond the ordering `GetAppointments` states. The calendar test for "today" is a parameter.
- `getReports`: the report queries (AVG, TIMESTAMPDIFF, grouping, date range) are not modelled. They are floating-point aggregations in SQL. Only the report-type switch is modelled.
- Listing filters (`LIKE` search, specialty, status and date filters), the rows a listing returns, and the joins are SQL. Only the offset and totalPages arithmetic is modelled.
- `parseInt` of a non-numeric page or limit gives NaN, and `limit` reaches `Math.ceil` as a string. Page and limit are integers in the model. If a query leaves them out, they default to 1 and 10 (backend/controllers/adminCtrl.js:136, 200, 267); those defaults are not modelled.
- AdminCtrl.TotalPages: the negative-limit branch models `Math.ceil` alone. In the source, a negative limit or a page below 1 reaches MySQL as a negative LIMIT or OFFSET, which MySQL rejects. The reply is then 500 before `Math.ceil` runs.
- The `!id` guard of update and cancel is not modelled: the route always supplies a non-empty id.
- AdminCtrl.UpdateCheck: a timestamp string is never `!==`-equal to the stored Date object, and the model takes this as given. The string's format and time zone are not modelled; timestamps are integers.
- The update's status is one of the four statuses. A status string outside the column's enumeration depends on the database schema, which is not part of this model. The update does not check that a new doctor exists, and neither does the model.
- AdminCtrl.UpdateAppointmentAdmin: replies with the updated row. The source replies with a row joined with patient and doctor, which is undefined if either is missing.
- AdminCtrl.LoginAdmin: the `last_login` timestamp update is left out (it needs a clock). Usernames are taken to be unique. Only the plaintext password equality is modelled.
- AdminCtrl.LoginAdmin: looks the username up by exact match. In the source, `username = ?` uses the database collation, which is usually case-insensitive; collations are not modelled.
- AppointmentsCtrl.CreateAppointment: takes all four values as given. The source's driver rejects undefined values, and then the route replies 500. The status column's default is taken to be 'pendiente'; the schema is not part of this model.
- AppointmentsCtrl.GetAppointments: the LEFT JOIN name columns are not modelled, and rows with equal timestamps may come in any order. The database does the sort in the source; the model builds the listing by insertion.
- AdminView.StatusBadge: the source looks the status up in an object literal, so a name inherited from `Object.prototype` (such as "constructor") yields that inherited member, not 'bg-secondary'. The model excludes inherited names. Only a status outside the enumeration can reach this.
- AdminView.ReportTypeNameMatchesServer: for an inherited name such as "toString", the page's lookup returns a function while the server replies 400. The model excludes inherited names, as for AdminView.ReportTypeName.
- AdminView.ReportTypeName: inherited property names are not modelled; they are treated as unknown types.
- AdminView.FormatHeader: for an inherited name such as "constructor", the source returns a function instead of the humanized key. Inherited property names are not modelled.
- AdminView.Humanize: upper-cases only ASCII letters. JavaScript's `toUpperCase` also maps other letters, sometimes to two characters.
- AdminView.FormatCell: date formatting (`toLocaleDateString`) and `Math.round` are tags (`AsDate`, `AsMinutes`), not strings.
- AdminView.RenderPagination: builds buttons, not HTML. The caption "Página X de Y - Total: Z registros" and the load function's name are left out. A zero limit makes totalPages non-finite, which the JSON reply sends as `null`. In the page, `i <= null` and `page < null` are then false for every page from 1 up, so the bar has no page buttons and no "Siguiente". That is what `RenderPagination(page, 0)` gives, so a `None` from `TotalPages` renders as 0.
- AdminView.UpdateSelectionButtons: the DOM lookup of the two buttons and of the checked boxes is replaced by parameters.
- DOM, fetch, localStorage, alert/confirm, date and time formatting in the page scripts. In `frontend/js/admin.js`, the later definitions of `editAppointment` and `deleteAppointment` (lines 916 and 921) shadow the earlier ones; this is not modelled.
- The patient and doctor controllers (plain CRUD), the Mongo log model, and the unexported `registerPatient` / `loginPatient` in the MySQL config are not part of this model.
