/** The administrator's page in the browser: status badges, the selection
    buttons, the pagination bar and the formatting of report tables. */
module AdminView {
  import opened Tables
  import AdminCtrl

  // ---------------------------------------------------------------------
  // Status badge

  /** The CSS class of a status badge: one colour per known status, and
      'bg-secondary' for exactly the strings that are not a status. */
  function StatusBadge(status: string): (cls: string)
    ensures cls == "bg-secondary" <==> forall s :: StatusName(s) != status
  {
    if status == "pendiente" then assert StatusName(Pendiente) == status; "bg-warning"
    else if status == "confirmada" then assert StatusName(Confirmada) == status; "bg-primary"
    else if status == "completada" then assert StatusName(Completada) == status; "bg-success"
    else if status == "cancelada" then assert StatusName(Cancelada) == status; "bg-danger"
    else "bg-secondary"
  }

  /** The colour of each status, and two statuses never share a colour. */
  lemma BadgeOfStatus(s: Status, s': Status)
    ensures StatusBadge(StatusName(s)) ==
      match s
      case Pendiente => "bg-warning"
      case Confirmada => "bg-primary"
      case Completada => "bg-success"
      case Cancelada => "bg-danger"
    ensures StatusBadge(StatusName(s)) == StatusBadge(StatusName(s')) ==> s == s'
  {
  }

  // ---------------------------------------------------------------------
  // Selection buttons

  class Button {
    var disabled: bool

    constructor (disabled: bool)
      ensures this.disabled == disabled
    {
      this.disabled := disabled;
    }
  }

  /** Each button that is on the page is enabled or disabled from the number
      of selected appointments: "edit" exactly when one is selected, "delete"
      when at least one is. */
  method UpdateSelectionButtons(selected: seq<string>, editBtn: Button?, deleteBtn: Button?)
    modifies editBtn, deleteBtn
    ensures editBtn != null && editBtn != deleteBtn ==> (!editBtn.disabled <==> |selected| == 1)
    ensures deleteBtn != null ==> (!deleteBtn.disabled <==> |selected| > 0)
  {
    if editBtn != null {
      editBtn.disabled := |selected| != 1;
    }
    if deleteBtn != null {
      deleteBtn.disabled := |selected| == 0;
    }
  }

  // ---------------------------------------------------------------------
  // Pagination bar

  datatype Label = Previous | Page(number: int) | Following

  /** A button of the bar: its caption, whether it carries the 'active' class
      and the page its onclick loads, if it has one. */
  datatype PageButton = PageButton(caption: Label, active: bool, onclick: Option<int>)

  /** The button for page `n` when `page` is shown. */
  function NumberButton(n: int, page: int): PageButton
  {
    if n == page then PageButton(Page(n), true, None) else PageButton(Page(n), false, Some(n))
  }

  /** 1 when the bar starts with "‹ Anterior". */
  function Lead(page: int): nat
  {
    if page > 1 then 1 else 0
  }

  function PageCount(totalPages: int): nat
  {
    if totalPages > 0 then totalPages else 0
  }

  /** The buttons of the pagination bar, in order: "‹ Anterior" exactly when
      page > 1, then one button per page 1..totalPages of which only the
      current page is active and has no onclick, then "Siguiente ›" exactly
      when page < totalPages. */
  method RenderPagination(page: int, totalPages: int) returns (buttons: seq<PageButton>)
    ensures |buttons| == Lead(page) + PageCount(totalPages) + (if page < totalPages then 1 else 0)
    ensures page > 1 <==> |buttons| > 0 && buttons[0].caption == Previous
    ensures page > 1 ==> buttons[0] == PageButton(Previous, false, Some(page - 1))
    ensures forall i :: Lead(page) <= i < Lead(page) + PageCount(totalPages) ==>
      buttons[i] == NumberButton(i - Lead(page) + 1, page)
    ensures page < totalPages <==> |buttons| > 0 && buttons[|buttons| - 1].caption == Following
    ensures page < totalPages ==>
      buttons[|buttons| - 1] == PageButton(Following, false, Some(page + 1))
    ensures forall i :: 0 <= i < |buttons| ==>
      (buttons[i].active <==> buttons[i].caption == Page(page)) &&
      (buttons[i].onclick.None? <==> buttons[i].active)
  {
    buttons := [];
    if page > 1 {
      buttons := buttons + [PageButton(Previous, false, Some(page - 1))];
    }
    var n := 1;
    while n <= totalPages
      invariant 1 <= n <= PageCount(totalPages) + 1
      invariant |buttons| == Lead(page) + n - 1
      invariant page > 1 ==> buttons[0] == PageButton(Previous, false, Some(page - 1))
      invariant page <= 1 ==> forall i :: 0 <= i < |buttons| ==> buttons[i].caption.Page?
      invariant forall i :: Lead(page) <= i < |buttons| ==>
        buttons[i] == NumberButton(i - Lead(page) + 1, page)
    {
      if n == page {
        buttons := buttons + [PageButton(Page(n), true, None)];
      } else {
        buttons := buttons + [PageButton(Page(n), false, Some(n))];
      }
      n := n + 1;
    }
    if page < totalPages {
      buttons := buttons + [PageButton(Following, false, Some(page + 1))];
    }
  }

  // ---------------------------------------------------------------------
  // Report tables

  const ReportNames: map<string, string> := map[
    "appointments_by_specialty" := "Citas por Especialidad",
    "patient_activity" := "Actividad de Pacientes",
    "doctor_performance" := "Rendimiento de Doctores"]

  /** The title of a report: the Spanish name of a known type, or the type
      itself, so a title differs from its type exactly for the known ones. */
  function ReportTypeName(reportType: string): (name: string)
    ensures name != reportType <==> reportType in ReportNames
    ensures name in ReportNames.Values || name == reportType
  {
    if reportType in ReportNames then ReportNames[reportType] else reportType
  }

  /** Each report the server accepts gets its own title, and two reports
      never share one. */
  lemma ReportTitles(k: AdminCtrl.ReportType, k': AdminCtrl.ReportType)
    ensures ReportTypeName(AdminCtrl.ReportKey(k)) ==
      match k
      case AppointmentsBySpecialty => "Citas por Especialidad"
      case PatientActivity => "Actividad de Pacientes"
      case DoctorPerformance => "Rendimiento de Doctores"
    ensures ReportTypeName(AdminCtrl.ReportKey(k)) == ReportTypeName(AdminCtrl.ReportKey(k')) ==> k == k'
  {
  }

  /** The page names every report the server accepts, and echoes exactly the
      types the server refuses. */
  lemma ReportTypeNameMatchesServer(reportType: string)
    ensures ReportTypeName(reportType) != reportType <==>
      AdminCtrl.ParseReportType(reportType).Success?
  {
  }

  const HeaderLabels: map<string, string> := map[
    "specialty" := "Especialidad",
    "total_citas" := "Total Citas",
    "avg_booking_time" := "Tiempo Promedio (min)",
    "first_name" := "Nombre",
    "last_name" := "Apellido",
    "last_appointment" := "Última Cita",
    "citas_completadas" := "Citas Completadas"]

  function UpperAscii(c: char): char
  {
    if 'a' <= c <= 'z' then (c as int - 32) as char else c
  }

  /** `key.replace(/_/g, ' ').toUpperCase()`: character by character, an
      underscore becomes a space and a lower-case letter its capital, so
      the result has no underscore and no lower-case letter. */
  function Humanize(key: string): (r: string)
    ensures |r| == |key|
    ensures forall i :: 0 <= i < |key| ==> r[i] == UpperAscii(if key[i] == '_' then ' ' else key[i])
    ensures forall i :: 0 <= i < |r| ==> r[i] != '_' && !('a' <= r[i] <= 'z')
  {
    if key == [] then []
    else [UpperAscii(if key[0] == '_' then ' ' else key[0])] + Humanize(key[1..])
  }

  /** The column heading: the fixed label of a known key, otherwise the key
      humanized. */
  function FormatHeader(key: string): (r: string)
    ensures key in HeaderLabels ==> r == HeaderLabels[key]
    ensures key !in HeaderLabels ==> |r| == |key| && forall i :: 0 <= i < |r| ==>
      r[i] == UpperAscii(if key[i] == '_' then ' ' else key[i])
  {
    if key in HeaderLabels then HeaderLabels[key] else Humanize(key)
  }

  /** A value of a report row. */
  datatype Value = Text(text: string) | Number(n: int)

  /** What a cell shows: 'N/A', the value as a date, the value as minutes
      (`Math.round(value) + ' min'`), or the value itself. */
  datatype Cell = NotAvailable | AsDate(value: Value) | AsMinutes(value: Value) | AsIs(value: Value)

  predicate Contains(s: string, part: string)
  {
    exists i :: 0 <= i <= |s| - |part| && part <= s[i..]
  }

  /** The one column formatted as minutes is not also a date column. */
  lemma NoDateInAvgBookingTime()
    ensures !Contains("avg_booking_time", "date")
  {
    var s := "avg_booking_time";
    forall i | 0 <= i <= |s| - 4 ensures !("date" <= s[i..]) {
      assert s[i] != 'd';
    }
  }

  /** The cell of a report table: 'N/A' for exactly the missing values; a
      date for the 'last_appointment' column and every column whose key
      contains "date"; minutes for 'avg_booking_time'; otherwise the value
      unchanged. */
  function FormatCell(value: Option<Value>, key: string): (c: Cell)
    ensures c == NotAvailable <==> value.None?
    ensures value.Some? && (key == "last_appointment" || Contains(key, "date")) ==>
      c == AsDate(value.value)
    ensures value.Some? && key == "avg_booking_time" ==> c == AsMinutes(value.value)
    ensures c.AsMinutes? ==> key == "avg_booking_time"
    ensures c.AsDate? ==> key == "last_appointment" || Contains(key, "date")
    ensures (value.Some? && key != "last_appointment" && !Contains(key, "date") &&
             key != "avg_booking_time") ==> c == AsIs(value.value)
    ensures value.Some? && c.AsIs? ==>
      c.value == value.value && key != "avg_booking_time" && !Contains(key, "date")
  {
    NoDateInAvgBookingTime();
    if value.None? then NotAvailable
    else if key == "last_appointment" || Contains(key, "date") then AsDate(value.value)
    else if key == "avg_booking_time" then AsMinutes(value.value)
    else AsIs(value.value)
  }
}
