/**
 The persistence layer as a value: the department and employee tables in
 iteration order, plus the id counters the database hands out. The rules declared
 on the model fields (primary keys, the unique email, the department reference
 whose deletion sets it to null, the maximum lengths, the salary's digit limit)
 form the store invariant `Valid`, and every operation that writes the store
 preserves it.
 */
module Store {

  import opened Wrappers
  import opened Models

  datatype Store = Store(
    departments: seq<Department>,
    employees: seq<Employee>,
    nextDepartmentId: nat,
    nextEmployeeId: nat)

  /** A fresh database: no rows, both id sequences starting at 1. */
  const Empty: Store := Store([], [], 1, 1)

  predicate DepartmentIdsUnique(ds: seq<Department>) {
    forall i, j :: 0 <= i < j < |ds| ==> ds[i].id != ds[j].id
  }

  predicate EmployeeIdsUnique(es: seq<Employee>) {
    forall i, j :: 0 <= i < j < |es| ==> es[i].id != es[j].id
  }

  /** The unique constraint on the email column. */
  predicate EmailsUnique(es: seq<Employee>) {
    forall i, j :: 0 <= i < j < |es| ==> es[i].email != es[j].email
  }

  predicate HasDepartment(ds: seq<Department>, id: nat) {
    exists i :: 0 <= i < |ds| && ds[i].id == id
  }

  predicate EmailTaken(es: seq<Employee>, email: string) {
    exists i :: 0 <= i < |es| && es[i].email == email
  }

  /** The foreign key: a set department reference names an existing department. */
  predicate RefsValid(ds: seq<Department>, es: seq<Employee>) {
    forall i :: 0 <= i < |es| && es[i].department.Some? ==> HasDepartment(ds, es[i].department.value)
  }

  /** Every id handed out so far lies below the next one to be handed out. */
  predicate IdsBelowCounters(s: Store) {
    && (forall i :: 0 <= i < |s.departments| ==> s.departments[i].id < s.nextDepartmentId)
    && (forall i :: 0 <= i < |s.employees| ==> s.employees[i].id < s.nextEmployeeId)
  }

  predicate RowsWellFormed(s: Store) {
    && (forall i :: 0 <= i < |s.departments| ==> WellFormedDepartment(s.departments[i]))
    && (forall i :: 0 <= i < |s.employees| ==> WellFormedEmployee(s.employees[i]))
  }

  /** The store invariant. */
  predicate Valid(s: Store) {
    && DepartmentIdsUnique(s.departments)
    && EmployeeIdsUnique(s.employees)
    && EmailsUnique(s.employees)
    && RefsValid(s.departments, s.employees)
    && IdsBelowCounters(s)
    && RowsWellFormed(s)
  }

  lemma EmptyIsValid()
    ensures Valid(Empty)
  {
  }

  /** `Employee.objects.get(id=...)`: the position of the employee with that id, if any. */
  function FindEmployee(es: seq<Employee>, id: int): (r: Option<nat>)
    ensures r.Some? ==> r.value < |es| && es[r.value].id == id
    ensures r.Some? ==> forall j :: 0 <= j < r.value ==> es[j].id != id
    ensures r.None? <==> forall i :: 0 <= i < |es| ==> es[i].id != id
  {
    if |es| == 0 then None
    else if es[0].id == id then Some(0)
    else
      match FindEmployee(es[1..], id)
      case None => None
      case Some(k) => Some(k + 1)
  }

  /** The position of the department with that id, if any. */
  function FindDepartment(ds: seq<Department>, id: nat): (r: Option<nat>)
    ensures r.Some? ==> r.value < |ds| && ds[r.value].id == id
    ensures r.Some? ==> forall j :: 0 <= j < r.value ==> ds[j].id != id
    ensures r.None? <==> !HasDepartment(ds, id)
  {
    if |ds| == 0 then None
    else if ds[0].id == id then Some(0)
    else
      match FindDepartment(ds[1..], id)
      case None => None
      case Some(k) => Some(k + 1)
  }

  /** The values supplied when an employee row is created; status may be omitted. */
  datatype NewEmployee = NewEmployee(
    firstName: string,
    lastName: string,
    email: string,
    department: Option<nat>,
    position: string,
    hireDate: Date,
    status: Option<Status>,
    salaryCents: int)

  /** Why an insert is refused. */
  datatype Problem =
    | FirstNameTooLong
    | LastNameTooLong
    | EmailTooLong
    | PositionTooLong
    | UnknownDepartment
    | SalaryOutOfRange
    | DuplicateEmail
    | DepartmentNameTooLong
    | DepartmentNameBlank

  /** Every rule a new employee row breaks against the current store. */
  function EmployeeProblems(s: Store, n: NewEmployee): set<Problem> {
    (if |n.firstName| > NameMaxLength then {FirstNameTooLong} else {})
    + (if |n.lastName| > NameMaxLength then {LastNameTooLong} else {})
    + (if |n.email| > EmailMaxLength then {EmailTooLong} else {})
    + (if |n.position| > NameMaxLength then {PositionTooLong} else {})
    + (if n.department.Some? && !HasDepartment(s.departments, n.department.value)
       then {UnknownDepartment} else {})
    + (if !SalaryInRange(n.salaryCents) then {SalaryOutOfRange} else {})
    + (if EmailTaken(s.employees, n.email) then {DuplicateEmail} else {})
  }

  /**
   Creating an employee: refused, with every broken rule, or appended with the
   next id, the default status when none was given, both timestamps at `now`
   and no report stamp.
   */
  function InsertEmployee(s: Store, n: NewEmployee, now: Instant): (r: (Store, Result<Employee, set<Problem>>))
    ensures r.1.Err? ==> r.0 == s && r.1.error != {}
    ensures r.1.Err? ==>
              && (FirstNameTooLong in r.1.error <==> |n.firstName| > NameMaxLength)
              && (LastNameTooLong in r.1.error <==> |n.lastName| > NameMaxLength)
              && (EmailTooLong in r.1.error <==> |n.email| > EmailMaxLength)
              && (PositionTooLong in r.1.error <==> |n.position| > NameMaxLength)
              && (UnknownDepartment in r.1.error <==>
                    n.department.Some? && !HasDepartment(s.departments, n.department.value))
              && (SalaryOutOfRange in r.1.error <==> !SalaryInRange(n.salaryCents))
              && (DuplicateEmail in r.1.error <==> EmailTaken(s.employees, n.email))
              && DepartmentNameTooLong !in r.1.error
              && DepartmentNameBlank !in r.1.error
    ensures r.1.Ok? <==>
              && |n.firstName| <= NameMaxLength
              && |n.lastName| <= NameMaxLength
              && |n.email| <= EmailMaxLength
              && |n.position| <= NameMaxLength
              && (n.department.Some? ==> HasDepartment(s.departments, n.department.value))
              && SalaryInRange(n.salaryCents)
              && !EmailTaken(s.employees, n.email)
    ensures EmailTaken(s.employees, n.email) ==> r.1.Err? && DuplicateEmail in r.1.error
    ensures r.1.Ok? ==>
              && r.0.employees == s.employees + [r.1.value]
              && r.0.departments == s.departments
              && r.1.value.status == (if n.status.None? then DefaultStatus else n.status.value)
              && (IdsBelowCounters(s) ==> forall i :: 0 <= i < |s.employees| ==> s.employees[i].id != r.1.value.id)
    ensures r.1.Ok? ==>
              var e := r.1.value;
              && e.firstName == n.firstName && e.lastName == n.lastName && e.email == n.email
              && e.department == n.department && e.position == n.position
              && e.hireDate == n.hireDate && e.salaryCents == n.salaryCents
              && e.createdAt == now && e.updatedAt == now && e.lastReportGenerated.None?
  {
    var problems := EmployeeProblems(s, n);
    if problems != {} then (s, Err(problems))
    else
      var status := if n.status.Some? then n.status.value else DefaultStatus;
      var e := Employee(
        s.nextEmployeeId,
        n.firstName, n.lastName, n.email, n.department, n.position, n.hireDate,
        status, n.salaryCents, now, now, None);
      (s.(employees := s.employees + [e], nextEmployeeId := e.id + 1), Ok(e))
  }

  lemma InsertEmployeePreservesValid(s: Store, n: NewEmployee, now: Instant)
    requires Valid(s)
    ensures Valid(InsertEmployee(s, n, now).0)
  {
    var r := InsertEmployee(s, n, now);
    if r.1.Ok? {
      var e := r.1.value;
      var es := r.0.employees;
      assert es == s.employees + [e];
      forall i, j | 0 <= i < j < |es|
        ensures es[i].email != es[j].email && es[i].id != es[j].id
      {
        if j == |s.employees| {
          assert es[i] == s.employees[i];
          assert !EmailTaken(s.employees, n.email);
        }
      }
    }
  }

  /** Why a department insert is refused: its name is wider than the column, or blank. */
  function DepartmentProblems(name: string): set<Problem> {
    (if |name| > NameMaxLength then {DepartmentNameTooLong} else {})
    + (if |name| == 0 then {DepartmentNameBlank} else {})
  }

  /** Creating a department with the next department id. */
  function InsertDepartment(s: Store, name: string, description: string): (r: (Store, Result<Department, set<Problem>>))
    ensures r.1.Err? <==> |name| == 0 || |name| > NameMaxLength
    ensures r.1.Err? ==> r.0 == s
    ensures r.1.Err? ==>
              && (DepartmentNameTooLong in r.1.error <==> |name| > NameMaxLength)
              && (DepartmentNameBlank in r.1.error <==> |name| == 0)
              && |r.1.error| == 1
    ensures r.1.Ok? ==>
              && r.0.departments == s.departments + [r.1.value]
              && r.0.employees == s.employees
              && r.1.value.name == name && r.1.value.description == description
              && (IdsBelowCounters(s) ==> !HasDepartment(s.departments, r.1.value.id))
  {
    var problems := DepartmentProblems(name);
    if problems != {} then (s, Err(problems))
    else
      var d := Department(s.nextDepartmentId, name, description);
      (s.(departments := s.departments + [d], nextDepartmentId := d.id + 1), Ok(d))
  }

  lemma InsertDepartmentPreservesValid(s: Store, name: string, description: string)
    requires Valid(s)
    ensures Valid(InsertDepartment(s, name, description).0)
  {
    var r := InsertDepartment(s, name, description);
    if r.1.Ok? {
      var ds := r.0.departments;
      forall i | 0 <= i < |s.employees| && s.employees[i].department.Some?
        ensures HasDepartment(ds, s.employees[i].department.value)
      {
        var k :| 0 <= k < |s.departments| && s.departments[k].id == s.employees[i].department.value;
        assert ds[k] == s.departments[k];
      }
    }
  }

  /** ON DELETE SET NULL applied to the employee table: dependents of `id` lose their department. */
  function DetachFrom(es: seq<Employee>, id: nat): (r: seq<Employee>)
    ensures |r| == |es|
    ensures forall i :: 0 <= i < |es| ==> r[i] == es[i].(department := r[i].department)
    ensures forall i :: 0 <= i < |es| ==>
              r[i].department == (if es[i].department == Some(id) then None else es[i].department)
  {
    if |es| == 0 then []
    else
      var e := es[0];
      [if e.department == Some(id) then e.(department := None) else e] + DetachFrom(es[1..], id)
  }

  /** The department table without the row carrying `id`. */
  function RemoveDepartment(ds: seq<Department>, id: nat): (r: seq<Department>)
    ensures forall d :: d in r <==> d in ds && d.id != id
    ensures |r| <= |ds|
  {
    if |ds| == 0 then []
    else if ds[0].id == id then RemoveDepartment(ds[1..], id)
    else [ds[0]] + RemoveDepartment(ds[1..], id)
  }

  /**
   Deleting a department: its row goes, no employee row goes, and every
   employee that referenced it now has no department.
   */
  function DeleteDepartment(s: Store, id: nat): (r: Store)
    ensures |r.employees| == |s.employees|
    ensures forall i :: 0 <= i < |s.employees| && s.employees[i].department == Some(id) ==>
              r.employees[i] == s.employees[i].(department := None)
    ensures forall i :: 0 <= i < |s.employees| && s.employees[i].department != Some(id) ==>
              r.employees[i] == s.employees[i]
    ensures !HasDepartment(r.departments, id)
    ensures forall d :: d in r.departments <==> d in s.departments && d.id != id
    ensures r.nextDepartmentId == s.nextDepartmentId && r.nextEmployeeId == s.nextEmployeeId
  {
    Store(RemoveDepartment(s.departments, id), DetachFrom(s.employees, id), s.nextDepartmentId, s.nextEmployeeId)
  }

  /** With unique ids the deleted department is exactly the one row at its position. */
  lemma {:induction false} RemoveDepartmentAt(ds: seq<Department>, k: nat)
    requires DepartmentIdsUnique(ds)
    requires k < |ds|
    ensures RemoveDepartment(ds, ds[k].id) == ds[..k] + ds[k + 1..]
  {
    var id := ds[k].id;
    var tail := ds[1..];
    TailIdsUnique(ds);
    if k == 0 {
      TailLacksHeadId(ds);
      RemoveAbsent(tail, id);
      assert ds[..0] + ds[1..] == tail;
    } else {
      assert ds[0].id != id;
      assert tail[k - 1] == ds[k];
      RemoveDepartmentAt(tail, k - 1);
      assert RemoveDepartment(ds, id) == [ds[0]] + (tail[..k - 1] + tail[k..]);
      DropAtCons(ds, k);
    }
  }

  lemma DropAtCons<T>(xs: seq<T>, k: nat)
    requires 0 < k < |xs|
    ensures [xs[0]] + (xs[1..][..k - 1] + xs[1..][k..]) == xs[..k] + xs[k + 1..]
  {
    assert [xs[0]] + xs[1..][..k - 1] == xs[..k];
    assert xs[1..][k..] == xs[k + 1..];
  }

  lemma TailIdsUnique(ds: seq<Department>)
    requires DepartmentIdsUnique(ds) && |ds| > 0
    ensures DepartmentIdsUnique(ds[1..])
  {
    var tail := ds[1..];
    forall i, j | 0 <= i < j < |tail| ensures tail[i].id != tail[j].id {
      assert tail[i] == ds[i + 1] && tail[j] == ds[j + 1];
    }
  }

  lemma TailLacksHeadId(ds: seq<Department>)
    requires DepartmentIdsUnique(ds) && |ds| > 0
    ensures forall i :: 0 <= i < |ds[1..]| ==> ds[1..][i].id != ds[0].id
  {
    forall i | 0 <= i < |ds[1..]| ensures ds[1..][i].id != ds[0].id {
      assert ds[1..][i] == ds[i + 1];
    }
  }

  lemma {:induction false} RemoveAbsent(ds: seq<Department>, id: nat)
    requires forall i :: 0 <= i < |ds| ==> ds[i].id != id
    ensures RemoveDepartment(ds, id) == ds
  {
    if |ds| > 0 {
      RemoveAbsent(ds[1..], id);
    }
  }

  lemma DeleteDepartmentPreservesValid(s: Store, id: nat)
    requires Valid(s)
    ensures Valid(DeleteDepartment(s, id))
  {
    var r := DeleteDepartment(s, id);
    var ds, es := r.departments, r.employees;
    RemovePreservesUniqueIds(s.departments, id);
    forall i | 0 <= i < |es| && es[i].department.Some?
      ensures HasDepartment(ds, es[i].department.value)
    {
      var ref := es[i].department.value;
      assert ref != id && s.employees[i].department == Some(ref);
      var k :| 0 <= k < |s.departments| && s.departments[k].id == ref;
      assert s.departments[k] in ds;
    }
    forall i | 0 <= i < |ds|
      ensures ds[i].id < r.nextDepartmentId && WellFormedDepartment(ds[i])
    {
      assert ds[i] in s.departments;
    }
  }

  /** Removing a row keeps the remaining department ids distinct. */
  lemma {:induction false} RemovePreservesUniqueIds(ds: seq<Department>, id: nat)
    requires DepartmentIdsUnique(ds)
    ensures DepartmentIdsUnique(RemoveDepartment(ds, id))
  {
    if |ds| > 0 {
      assert DepartmentIdsUnique(ds[1..]);
      RemovePreservesUniqueIds(ds[1..], id);
      if ds[0].id != id {
        var rest := RemoveDepartment(ds[1..], id);
        var r := [ds[0]] + rest;
        forall j | 0 < j < |r|
          ensures r[0].id != r[j].id
        {
          assert r[j] in rest;
          assert r[j] in ds[1..];
        }
      }
    }
  }

  /** Replacing the employee at position `k`. */
  function SetEmployee(s: Store, k: nat, e: Employee): (r: Store)
    requires k < |s.employees|
    ensures |r.employees| == |s.employees| && r.employees[k] == e
    ensures forall j :: 0 <= j < |s.employees| && j != k ==> r.employees[j] == s.employees[j]
    ensures r.departments == s.departments
  {
    s.(employees := s.employees[k := e])
  }
}
