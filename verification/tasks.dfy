/**
 The background jobs of apps/employees/tasks.py as pure functions over a store
 value: the two lookup-by-id jobs, the two periodic department reports and the
 employee export. The current time is a parameter; logging is not modelled.
 */
module Tasks {

  import opened Wrappers
  import Text
  import opened Models
  import opened Store
  import opened Aggregates

  const NotFoundPrefix: string := "Error: Employee with id "
  const NotFoundSuffix: string := " not found"

  /**
   The message both lookup jobs return when no employee has the id: the fixed
   prefix and suffix around the id, which can be read back from between them.
   */
  function NotFoundMessage(id: int): (m: string)
    ensures |m| > |NotFoundPrefix| + |NotFoundSuffix|
    ensures m[..|NotFoundPrefix|] == NotFoundPrefix
    ensures m[|m| - |NotFoundSuffix|..] == NotFoundSuffix
    ensures Text.ParseInt(m[|NotFoundPrefix|..|m| - |NotFoundSuffix|]) == Some(id)
  {
    var digits := Text.IntToString(id);
    var m := NotFoundPrefix + digits + NotFoundSuffix;
    assert m[|NotFoundPrefix|..|m| - |NotFoundSuffix|] == digits;
    Text.IntToStringRoundTrip(id);
    m
  }

  /** The not-found message names the id it was asked for: distinct ids give distinct messages. */
  lemma NotFoundMessageNamesId(a: int, b: int)
    requires NotFoundMessage(a) == NotFoundMessage(b)
    ensures a == b
  {
    var m := NotFoundMessage(a);
    assert Text.ParseInt(m[|NotFoundPrefix|..|m| - |NotFoundSuffix|]) == Some(b);
  }

  /** `send_welcome_email`: reads the store, changes nothing, reports the address written to. */
  function SendWelcomeEmail(s: Store, id: int): (msg: string)
    ensures FindEmployee(s.employees, id).None? ==> msg == NotFoundMessage(id)
    ensures FindEmployee(s.employees, id).Some? ==>
              var k := FindEmployee(s.employees, id).value;
              s.employees[k].id == id && msg == "Welcome email sent to " + s.employees[k].email
  {
    match FindEmployee(s.employees, id)
    case None => NotFoundMessage(id)
    case Some(k) => "Welcome email sent to " + s.employees[k].email
  }

  /**
   `generate_employee_report`: for a missing id the store is untouched and the
   not-found message returned; otherwise exactly the one employee with the id
   is stamped with `now` and named in the confirmation.
   */
  function GenerateEmployeeReport(s: Store, id: int, now: Instant): (r: (Store, string))
    ensures FindEmployee(s.employees, id).None? ==> r.0 == s && r.1 == NotFoundMessage(id)
    ensures FindEmployee(s.employees, id).Some? ==>
              var k := FindEmployee(s.employees, id).value;
              && r.0.departments == s.departments
              && |r.0.employees| == |s.employees|
              && var before, after := s.employees[k], r.0.employees[k];
              && (forall j :: 0 <= j < |s.employees| && j != k ==> r.0.employees[j] == s.employees[j])
              && after.id == id
              && after.lastReportGenerated == Some(now)
              && after.updatedAt == now
              && SameExceptStamp(before, after)
              && r.1 == "Report generated for " + before.firstName + " " + before.lastName
  {
    match FindEmployee(s.employees, id)
    case None => (s, NotFoundMessage(id))
    case Some(k) =>
      var e := s.employees[k];
      (SetEmployee(s, k, Stamp(e, now)), "Report generated for " + e.firstName + " " + e.lastName)
  }

  /** In a valid store the report job touches the one record whose id was asked for. */
  lemma GenerateEmployeeReportTouchesOnlyId(s: Store, id: int, now: Instant, j: nat)
    requires Valid(s)
    requires j < |s.employees| && s.employees[j].id != id
    ensures GenerateEmployeeReport(s, id, now).0.employees[j] == s.employees[j]
  {
  }

  lemma GenerateEmployeeReportPreservesValid(s: Store, id: int, now: Instant)
    requires Valid(s)
    ensures Valid(GenerateEmployeeReport(s, id, now).0)
  {
    var r := GenerateEmployeeReport(s, id, now).0;
    if FindEmployee(s.employees, id).Some? {
      var k := FindEmployee(s.employees, id).value;
      assert forall j :: 0 <= j < |s.employees| ==> SameExceptStamp(s.employees[j], r.employees[j]);
    }
  }

  /**
   The job and the model method agree: the job leaves the record exactly as
   `generate_performance_report` would, and its message names the employee as
   `str(employee)` does.
   */
  lemma GenerateEmployeeReportIsPerformanceReport(s: Store, id: int, now: Instant)
    requires FindEmployee(s.employees, id).Some?
    ensures
      var k := FindEmployee(s.employees, id).value;
      var r := GenerateEmployeeReport(s, id, now);
      && r.0.employees[k] == PerformanceReport(s.employees[k], now).0
      && r.1 == "Report generated for " + EmployeeStr(s.employees[k])
  {
  }

  // ---------------------------------------------------------------- daily report

  datatype DailyEntry = DailyEntry(
    department: string,
    activeEmployees: nat,
    onLeaveEmployees: nat,
    totalEmployees: nat)

  /** One department's line of the daily report. */
  function DailyEntryFor(d: Department, es: seq<Employee>): (r: DailyEntry)
    ensures r.department == DepartmentStr(d)
    ensures r.activeEmployees == |Members(es, d.id, Active)|
    ensures r.onLeaveEmployees == |Members(es, d.id, OnLeave)|
    ensures r.totalEmployees == r.activeEmployees + r.onLeaveEmployees
  {
    var active := CountStatus(es, d.id, Active);
    var onLeave := CountStatus(es, d.id, OnLeave);
    DailyEntry(d.name, active, onLeave, active + onLeave)
  }

  function DailyEntries(ds: seq<Department>, es: seq<Employee>): (r: seq<DailyEntry>)
    ensures |r| == |ds|
    ensures forall i :: 0 <= i < |ds| ==> r[i] == DailyEntryFor(ds[i], es)
  {
    if |ds| == 0 then [] else [DailyEntryFor(ds[0], es)] + DailyEntries(ds[1..], es)
  }

  /**
   `daily_department_report`: one entry per department in table order, with
   the department's name, its active and on-leave head counts and their sum.
   */
  function DailyDepartmentReport(s: Store): (r: seq<DailyEntry>)
    ensures |r| == |s.departments|
    ensures forall i :: 0 <= i < |r| ==>
              var d := s.departments[i];
              && r[i].department == d.name
              && r[i].activeEmployees == |Members(s.employees, d.id, Active)|
              && r[i].onLeaveEmployees == |Members(s.employees, d.id, OnLeave)|
              && r[i].totalEmployees == r[i].activeEmployees + r[i].onLeaveEmployees
  {
    DailyEntries(s.departments, s.employees)
  }

  // ---------------------------------------------------------------- weekly report

  /** Salaries are in cents; the average is the exact quotient. */
  datatype WeeklyEntry = WeeklyEntry(
    department: string,
    totalSalaryCents: int,
    averageSalaryCents: real,
    employeeCount: nat)

  /** `average` is the mean of `count` values summing to `total`, and 0 when there are none. */
  predicate IsMean(average: real, total: int, count: nat) {
    && (count == 0 ==> average == 0.0)
    && (count > 0 ==> average * (count as real) == total as real)
  }

  /** The average salary, guarded against an empty department. */
  function Average(total: int, count: nat): (a: real)
    ensures IsMean(a, total, count)
  {
    if count > 0 then (total as real) / (count as real) else 0.0
  }

  /** One department's line of the weekly salary report. */
  function WeeklyEntryFor(d: Department, es: seq<Employee>): (r: WeeklyEntry)
    ensures r.department == DepartmentStr(d)
    ensures r.employeeCount == |Members(es, d.id, Active)|
    ensures r.totalSalaryCents == ActiveSalaryTotal(es, d.id)
    ensures r.employeeCount == 0 ==> r.totalSalaryCents == 0
    ensures IsMean(r.averageSalaryCents, r.totalSalaryCents, r.employeeCount)
  {
    var count := CountStatus(es, d.id, Active);
    var total := ActiveSalaryTotal(es, d.id);
    WeeklyEntry(d.name, total, Average(total, count), count)
  }

  function WeeklyEntries(ds: seq<Department>, es: seq<Employee>): (r: seq<WeeklyEntry>)
    ensures |r| == |ds|
    ensures forall i :: 0 <= i < |ds| ==> r[i] == WeeklyEntryFor(ds[i], es)
  {
    if |ds| == 0 then [] else [WeeklyEntryFor(ds[0], es)] + WeeklyEntries(ds[1..], es)
  }

  /**
   `weekly_salary_report`: one entry per department in table order, over the
   department's active employees only.
   */
  function WeeklySalaryReport(s: Store): (r: seq<WeeklyEntry>)
    ensures |r| == |s.departments|
    ensures forall i :: 0 <= i < |r| ==>
              var d := s.departments[i];
              && r[i].department == d.name
              && r[i].employeeCount == |Members(s.employees, d.id, Active)|
              && r[i].totalSalaryCents == ActiveSalaryTotal(s.employees, d.id)
              && IsMean(r[i].averageSalaryCents, r[i].totalSalaryCents, r[i].employeeCount)
  {
    WeeklyEntries(s.departments, s.employees)
  }

  /** In a valid store every total and average stays within what the salary column can hold. */
  lemma WeeklyAverageInRange(s: Store, i: nat)
    requires Valid(s)
    requires i < |s.departments|
    ensures
      var w := WeeklySalaryReport(s)[i];
      && Abs(w.totalSalaryCents) <= w.employeeCount * (CentsBound - 1)
      && -(CentsBound as real) < w.averageSalaryCents < CentsBound as real
  {
    var es := s.employees;
    var dept := s.departments[i].id;
    var w := WeeklySalaryReport(s)[i];
    assert w == WeeklyEntryFor(s.departments[i], es);
    assert AllSalariesInRange(es) by {
      assert RowsWellFormed(s);
    }
    var count := CountStatus(es, dept, Active);
    assert w.employeeCount == count;
    assert Abs(w.totalSalaryCents) <= count * (CentsBound - 1);
    if count > 0 {
      AverageBound(w.totalSalaryCents, count, w.averageSalaryCents);
    }
  }

  lemma AverageBound(total: int, count: nat, average: real)
    requires count > 0
    requires Abs(total) <= count * (CentsBound - 1)
    requires IsMean(average, total, count)
    ensures -(CentsBound as real) < average < CentsBound as real
  {
    var c := count as real;
    var b := CentsBound as real;
    assert (total as real) < c * b && -(c * b) < total as real;
    if average >= b {
      ScaleMonotone(b, average, c);
    }
    if average <= -b {
      ScaleMonotone(average, -b, c);
    }
  }

  lemma ScaleMonotone(x: real, y: real, c: real)
    requires x <= y && c > 0.0
    ensures x * c <= y * c
  {
  }

  // ---------------------------------------------------------------- export

  /**
   One field of an exported row. Text fields are written as they are; the
   hire date and the salary keep their values, their textual rendering is not
   modelled.
   */
  datatype Cell = Text(text: string) | DateCell(date: Date) | DecimalCell(cents: int)

  type Row = seq<Cell>

  const Header: Row := [
    Text("ID"), Text("First Name"), Text("Last Name"), Text("Email"), Text("Department"),
    Text("Position"), Text("Hire Date"), Text("Status"), Text("Salary")]

  /** The department column: the referenced department's name, or blank when the reference is null. */
  function DepartmentColumn(ds: seq<Department>, ref: Option<nat>): (name: string)
    requires ref.Some? ==> HasDepartment(ds, ref.value)
    ensures ref.None? ==> name == ""
    ensures ref.Some? ==> name == DepartmentStr(ds[FindDepartment(ds, ref.value).value])
  {
    match ref
    case None => ""
    case Some(id) => ds[FindDepartment(ds, id).value].name
  }

  /** One employee's row, its fields in header order. */
  function ExportRow(ds: seq<Department>, e: Employee): (row: Row)
    requires e.department.Some? ==> HasDepartment(ds, e.department.value)
    ensures |row| == |Header|
    ensures row[0] == Text(Text.IntToString(e.id))
    ensures row[1] == Text(e.firstName) && row[2] == Text(e.lastName) && row[3] == Text(e.email)
    ensures e.department.None? ==> row[4] == Text("")
    ensures e.department.Some? ==>
              row[4] == Text(DepartmentStr(ds[FindDepartment(ds, e.department.value).value]))
    ensures row[5] == Text(e.position) && row[6] == DateCell(e.hireDate)
    ensures row[7] == Text(StatusCode(e.status)) && row[8] == DecimalCell(e.salaryCents)
  {
    [Text(Text.IntToString(e.id)), Text(e.firstName), Text(e.lastName), Text(e.email),
     Text(DepartmentColumn(ds, e.department)), Text(e.position), DateCell(e.hireDate),
     Text(StatusCode(e.status)), DecimalCell(e.salaryCents)]
  }

  function ExportRows(ds: seq<Department>, es: seq<Employee>): (rows: seq<Row>)
    requires RefsValid(ds, es)
    ensures |rows| == |es|
    ensures forall i :: 0 <= i < |es| ==> rows[i] == ExportRow(ds, es[i])
  {
    if |es| == 0 then []
    else
      assert RefsValid(ds, es[1..]) by {
        forall i | 0 <= i < |es[1..]| ensures es[1..][i] == es[i + 1] { }
      }
      [ExportRow(ds, es[0])] + ExportRows(ds, es[1..])
  }

  /**
   `export_employees_csv`: the header, then one row per employee in table
   order (the row contents are stated by `ExportRow`).
   */
  function ExportEmployeesCsv(s: Store): (rows: seq<Row>)
    requires RefsValid(s.departments, s.employees)
    ensures |rows| == |s.employees| + 1
    ensures rows[0] == Header
    ensures forall i :: 0 < i < |rows| ==> rows[i] == ExportRow(s.departments, s.employees[i - 1])
  {
    [Header] + ExportRows(s.departments, s.employees)
  }

  /** What one exported row says about an employee, read back from its fields. */
  datatype ExportedEmployee = ExportedEmployee(
    id: int,
    firstName: string,
    lastName: string,
    email: string,
    departmentName: string,
    position: string,
    hireDate: Date,
    status: Status,
    salaryCents: int)

  /** Reads a row back: nine fields of the kinds the header announces, a numeric id and a known status. */
  function DecodeRow(row: Row): Option<ExportedEmployee> {
    if |row| != |Header| then None
    else if !(row[0].Text? && row[1].Text? && row[2].Text? && row[3].Text? && row[4].Text?
              && row[5].Text? && row[6].DateCell? && row[7].Text? && row[8].DecimalCell?) then None
    else
      match (Text.ParseInt(row[0].text), ParseStatus(row[7].text))
      case (Some(id), Some(st)) =>
        Some(ExportedEmployee(id, row[1].text, row[2].text, row[3].text, row[4].text, row[5].text,
                              row[6].date, st, row[8].cents))
      case _ => None
  }

  /** What the export should say about an employee. */
  function Exported(ds: seq<Department>, e: Employee): ExportedEmployee
    requires e.department.Some? ==> HasDepartment(ds, e.department.value)
  {
    ExportedEmployee(e.id, e.firstName, e.lastName, e.email, DepartmentColumn(ds, e.department),
                     e.position, e.hireDate, e.status, e.salaryCents)
  }

  /** Reads back every row after the header; refuses a table without the header. */
  function DecodeExport(rows: seq<Row>): Option<seq<ExportedEmployee>> {
    if |rows| == 0 || rows[0] != Header then None else DecodeRows(rows[1..])
  }

  function DecodeRows(rows: seq<Row>): Option<seq<ExportedEmployee>> {
    if |rows| == 0 then Some([])
    else
      match (DecodeRow(rows[0]), DecodeRows(rows[1..]))
      case (Some(x), Some(xs)) => Some([x] + xs)
      case _ => None
  }

  /** Every exported row reads back as exactly its employee's fields. */
  lemma ExportRowRoundTrip(ds: seq<Department>, e: Employee)
    requires e.department.Some? ==> HasDepartment(ds, e.department.value)
    ensures DecodeRow(ExportRow(ds, e)) == Some(Exported(ds, e))
  {
    Text.IntToStringRoundTrip(e.id);
    StatusCodeRoundTrip(e.status);
  }

  /** What the export should say about each employee, in table order. */
  function ExportedAll(ds: seq<Department>, es: seq<Employee>): (r: seq<ExportedEmployee>)
    requires RefsValid(ds, es)
    ensures |r| == |es|
    ensures forall i :: 0 <= i < |es| ==> r[i] == Exported(ds, es[i])
  {
    if |es| == 0 then []
    else
      assert RefsValid(ds, es[1..]) by {
        forall i | 0 <= i < |es[1..]| ensures es[1..][i] == es[i + 1] { }
      }
      [Exported(ds, es[0])] + ExportedAll(ds, es[1..])
  }

  lemma {:induction false} ExportRowsRoundTrip(ds: seq<Department>, es: seq<Employee>)
    requires RefsValid(ds, es)
    ensures DecodeRows(ExportRows(ds, es)) == Some(ExportedAll(ds, es))
  {
    if |es| > 0 {
      var rows := ExportRows(ds, es);
      var tail := es[1..];
      assert RefsValid(ds, tail) by {
        forall i | 0 <= i < |tail| ensures tail[i] == es[i + 1] { }
      }
      assert rows[1..] == ExportRows(ds, tail);
      ExportRowsRoundTrip(ds, tail);
      ExportRowRoundTrip(ds, es[0]);
    }
  }

  /** The export file reads back as the employee table, one record per employee, in order. */
  lemma ExportRoundTrip(s: Store)
    requires RefsValid(s.departments, s.employees)
    ensures DecodeExport(ExportEmployeesCsv(s)) == Some(ExportedAll(s.departments, s.employees))
  {
    var rows := ExportEmployeesCsv(s);
    assert rows == [Header] + ExportRows(s.departments, s.employees);
    assert rows[1..] == ExportRows(s.departments, s.employees);
    ExportRowsRoundTrip(s.departments, s.employees);
  }
}
