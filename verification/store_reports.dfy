/**
 How the store operations and the report jobs fit together: what deleting a
 department, inserting an employee or stamping a report does to the daily
 and weekly reports and to the export.
 */
module StoreReports {

  import opened Models
  import opened Store
  import opened Aggregates
  import opened Tasks

  /** After ON DELETE SET NULL the deleted department counts nobody; other departments keep their counts. */
  lemma {:induction false} DetachedAggregates(es: seq<Employee>, id: nat, dept: nat)
    ensures forall st :: CountStatus(DetachFrom(es, id), dept, st) == (if dept == id then 0 else CountStatus(es, dept, st))
    ensures ActiveSalaryTotal(DetachFrom(es, id), dept) == (if dept == id then 0 else ActiveSalaryTotal(es, dept))
  {
    if |es| > 0 {
      var n := |es| - 1;
      var r := DetachFrom(es, id);
      assert DetachFrom(es[..n], id) == r[..n];
      DetachedAggregates(es[..n], id, dept);
    }
  }

  /** Deleting a department leaves the entries of all other departments unchanged. */
  lemma DetachKeepsOtherEntries(d: Department, es: seq<Employee>, id: nat)
    requires d.id != id
    ensures DailyEntryFor(d, DetachFrom(es, id)) == DailyEntryFor(d, es)
    ensures WeeklyEntryFor(d, DetachFrom(es, id)) == WeeklyEntryFor(d, es)
  {
    DetachedAggregates(es, id, d.id);
  }

  /** Report lines for departments other than `id` do not see the detach. */
  lemma EntriesIgnoreDetach(ds: seq<Department>, es: seq<Employee>, id: nat)
    requires !HasDepartment(ds, id)
    ensures DailyEntries(ds, DetachFrom(es, id)) == DailyEntries(ds, es)
    ensures WeeklyEntries(ds, DetachFrom(es, id)) == WeeklyEntries(ds, es)
  {
    var es' := DetachFrom(es, id);
    forall j | 0 <= j < |ds|
      ensures DailyEntryFor(ds[j], es') == DailyEntryFor(ds[j], es)
      ensures WeeklyEntryFor(ds[j], es') == WeeklyEntryFor(ds[j], es)
    {
      DetachKeepsOtherEntries(ds[j], es, id);
    }
  }

  /** Report lines follow the department rows one for one, so dropping a row drops its line. */
  lemma EntriesOfSplice(ds: seq<Department>, es: seq<Employee>, k: nat)
    requires k < |ds|
    ensures DailyEntries(ds[..k] + ds[k + 1..], es) == DailyEntries(ds, es)[..k] + DailyEntries(ds, es)[k + 1..]
    ensures WeeklyEntries(ds[..k] + ds[k + 1..], es) == WeeklyEntries(ds, es)[..k] + WeeklyEntries(ds, es)[k + 1..]
  {
    var ds' := ds[..k] + ds[k + 1..];
    forall j | 0 <= j < |ds'|
      ensures ds'[j] == ds[if j < k then j else j + 1]
    {
    }
  }

  /** The rows that survive deleting the department at `k` all carry other ids. */
  lemma SurvivorsHaveOtherIds(ds: seq<Department>, k: nat)
    requires DepartmentIdsUnique(ds)
    requires k < |ds|
    ensures !HasDepartment(ds[..k] + ds[k + 1..], ds[k].id)
  {
    var ds' := ds[..k] + ds[k + 1..];
    forall j | 0 <= j < |ds'|
      ensures ds'[j].id != ds[k].id
    {
      assert ds'[j] == ds[if j < k then j else j + 1];
    }
  }

  /** Deleting the department at `k` of a table with unique ids. */
  lemma DeleteDepartmentShape(s: Store, k: nat)
    requires DepartmentIdsUnique(s.departments)
    requires k < |s.departments|
    ensures
      var after := DeleteDepartment(s, s.departments[k].id);
      && after.departments == s.departments[..k] + s.departments[k + 1..]
      && after.employees == DetachFrom(s.employees, s.departments[k].id)
  {
    RemoveDepartmentAt(s.departments, k);
  }

  /**
   Deleting the department at position `k` removes exactly its line from the
   daily report; every other department's line is unchanged.
   */
  lemma DeleteDepartmentDropsDailyEntry(s: Store, k: nat)
    requires DepartmentIdsUnique(s.departments)
    requires k < |s.departments|
    ensures
      var before := DailyDepartmentReport(s);
      DailyDepartmentReport(DeleteDepartment(s, s.departments[k].id)) == before[..k] + before[k + 1..]
  {
    var ds, es, id := s.departments, s.employees, s.departments[k].id;
    DeleteDepartmentShape(s, k);
    SurvivorsHaveOtherIds(ds, k);
    EntriesIgnoreDetach(ds[..k] + ds[k + 1..], es, id);
    EntriesOfSplice(ds, es, k);
  }

  /** The same for the weekly salary report. */
  lemma DeleteDepartmentDropsWeeklyEntry(s: Store, k: nat)
    requires DepartmentIdsUnique(s.departments)
    requires k < |s.departments|
    ensures
      var before := WeeklySalaryReport(s);
      WeeklySalaryReport(DeleteDepartment(s, s.departments[k].id)) == before[..k] + before[k + 1..]
  {
    var ds, es, id := s.departments, s.employees, s.departments[k].id;
    DeleteDepartmentShape(s, k);
    SurvivorsHaveOtherIds(ds, k);
    EntriesIgnoreDetach(ds[..k] + ds[k + 1..], es, id);
    EntriesOfSplice(ds, es, k);
  }

  /**
   A successful insert raises exactly one count of exactly one daily entry:
   the new employee's status count in the new employee's department.
   A terminated employee, or one without a department, changes nothing.
   */
  lemma InsertEmployeeDailyEffect(s: Store, n: NewEmployee, now: Instant, i: nat)
    requires InsertEmployee(s, n, now).1.Ok?
    requires i < |s.departments|
    ensures
      var e := InsertEmployee(s, n, now).1.value;
      var before := DailyDepartmentReport(s)[i];
      var after := DailyDepartmentReport(InsertEmployee(s, n, now).0)[i];
      && after.department == before.department
      && after.activeEmployees == before.activeEmployees + (if Counted(e, s.departments[i].id, Active) then 1 else 0)
      && after.onLeaveEmployees == before.onLeaveEmployees + (if Counted(e, s.departments[i].id, OnLeave) then 1 else 0)
  {
    var r := InsertEmployee(s, n, now);
    var e := r.1.value;
    var d := s.departments[i];
    assert r.0.departments[i] == d;
    CountStatusAppend(s.employees, e, d.id, Active);
    CountStatusAppend(s.employees, e, d.id, OnLeave);
  }

  /**
   A successful insert of an active employee adds one to its department's
   weekly head count and its salary to the total; no other line changes.
   */
  lemma InsertEmployeeWeeklyEffect(s: Store, n: NewEmployee, now: Instant, i: nat)
    requires InsertEmployee(s, n, now).1.Ok?
    requires i < |s.departments|
    ensures
      var e := InsertEmployee(s, n, now).1.value;
      var before := WeeklySalaryReport(s)[i];
      var after := WeeklySalaryReport(InsertEmployee(s, n, now).0)[i];
      && after.department == before.department
      && after.employeeCount == before.employeeCount + (if Counted(e, s.departments[i].id, Active) then 1 else 0)
      && after.totalSalaryCents == before.totalSalaryCents + (if Counted(e, s.departments[i].id, Active) then e.salaryCents else 0)
  {
    var r := InsertEmployee(s, n, now);
    var e := r.1.value;
    var d := s.departments[i];
    assert r.0.departments[i] == d;
    CountStatusAppend(s.employees, e, d.id, Active);
    ActiveSalaryTotalAppend(s.employees, e, d.id);
  }

  /** Report lines read nothing but department, status and salary. */
  lemma EntriesReadOnlyReportFields(ds: seq<Department>, a: seq<Employee>, b: seq<Employee>)
    requires SameReportFields(a, b)
    ensures DailyEntries(ds, a) == DailyEntries(ds, b)
    ensures WeeklyEntries(ds, a) == WeeklyEntries(ds, b)
  {
    forall j | 0 <= j < |ds|
      ensures DailyEntryFor(ds[j], a) == DailyEntryFor(ds[j], b)
      ensures WeeklyEntryFor(ds[j], a) == WeeklyEntryFor(ds[j], b)
    {
      AggregatesReadOnlyReportFields(a, b, ds[j].id);
    }
  }

  /** Exported rows hold no timestamp. */
  lemma ExportIgnoresStamps(ds: seq<Department>, a: seq<Employee>, b: seq<Employee>)
    requires RefsValid(ds, a)
    requires |a| == |b| && forall j :: 0 <= j < |a| ==> SameExceptStamp(a[j], b[j])
    ensures RefsValid(ds, b)
    ensures ExportRows(ds, a) == ExportRows(ds, b)
  {
    assert RefsValid(ds, b) by {
      forall j | 0 <= j < |b| && b[j].department.Some?
        ensures HasDepartment(ds, b[j].department.value)
      {
        assert a[j].department == b[j].department;
      }
    }
    forall j | 0 <= j < |a|
      ensures ExportRow(ds, a[j]) == ExportRow(ds, b[j])
    {
      ExportRowIgnoresStamp(ds, a[j], b[j]);
    }
  }

  /** What the report job does to the employee table: every row keeps all but its stamp fields. */
  lemma GenerateEmployeeReportShape(s: Store, id: int, now: Instant)
    ensures
      var after := GenerateEmployeeReport(s, id, now).0;
      && after.departments == s.departments
      && |after.employees| == |s.employees|
      && forall j :: 0 <= j < |s.employees| ==> SameExceptStamp(s.employees[j], after.employees[j])
  {
  }

  /** Stamping a report changes no report: neither department report nor the export. */
  lemma GenerateEmployeeReportKeepsReports(s: Store, id: int, now: Instant)
    requires RefsValid(s.departments, s.employees)
    ensures
      var after := GenerateEmployeeReport(s, id, now).0;
      && DailyDepartmentReport(after) == DailyDepartmentReport(s)
      && WeeklySalaryReport(after) == WeeklySalaryReport(s)
      && RefsValid(after.departments, after.employees)
      && ExportEmployeesCsv(after) == ExportEmployeesCsv(s)
  {
    var after := GenerateEmployeeReport(s, id, now).0;
    GenerateEmployeeReportShape(s, id, now);
    assert SameReportFields(s.employees, after.employees);
    EntriesReadOnlyReportFields(s.departments, s.employees, after.employees);
    ExportIgnoresStamps(s.departments, s.employees, after.employees);
  }

  /** An exported row holds no timestamp. */
  lemma ExportRowIgnoresStamp(ds: seq<Department>, e: Employee, e': Employee)
    requires SameExceptStamp(e, e')
    requires e.department.Some? ==> HasDepartment(ds, e.department.value)
    ensures ExportRow(ds, e) == ExportRow(ds, e')
  {
  }
}
