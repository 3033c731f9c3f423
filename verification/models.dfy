/**
 The two record types of the employees application (apps/employees/models.py):
 departments and employees, the three-valued employment status, salary held as
 integer cents, the `__str__` renderings and the performance-report stamp.
 */
module Models {

  import opened Wrappers
  import Text

  /** A point in time (an aware datetime); only its identity and order matter here. */
  type Instant = int

  /** A calendar date; it is stored and exported, never computed with. */
  datatype Date = Date(year: int, month: int, day: int)

  /** Employment status, stored as one of three short codes. */
  datatype Status = Active | OnLeave | Terminated

  /** The status given to an employee created without one. */
  const DefaultStatus: Status := Active

  /** Column widths declared on the model. */
  const NameMaxLength: nat := 100
  const EmailMaxLength: nat := 254
  const StatusMaxLength: nat := 20

  /** Salary is a decimal with at most 10 digits, 2 of them after the point. */
  const SalaryMaxDigits: nat := 10
  const SalaryDecimalPlaces: nat := 2
  /** Exclusive bound on the magnitude of a salary expressed in cents: 10^10. */
  const CentsBound: nat := 10_000_000_000

  /** The stored code of a status (the first element of each choice pair). */
  function StatusCode(st: Status): (code: string)
    ensures 0 < |code| <= StatusMaxLength
  {
    match st
    case Active => "active"
    case OnLeave => "on_leave"
    case Terminated => "terminated"
  }

  /** Choice validation: a code is accepted exactly when it is one of the three stored codes. */
  function ParseStatus(code: string): (r: Option<Status>)
    ensures r.Some? <==> (code == "active" || code == "on_leave" || code == "terminated")
    ensures r.Some? ==> StatusCode(r.value) == code
  {
    if code == "active" then Some(Active)
    else if code == "on_leave" then Some(OnLeave)
    else if code == "terminated" then Some(Terminated)
    else None
  }

  /** Every status survives the round trip through its stored code. */
  lemma StatusCodeRoundTrip(st: Status)
    ensures ParseStatus(StatusCode(st)) == Some(st)
  {
  }

  function Abs(x: int): nat {
    if x < 0 then -x else x
  }

  /** A salary in cents is representable in the column when its magnitude is below 10^10. */
  predicate SalaryInRange(cents: int) {
    -(CentsBound as int) < cents < CentsBound
  }

  /**
   The bound on cents is the column's digit limit: the whole-units part of the
   salary has at most `SalaryMaxDigits - SalaryDecimalPlaces` decimal digits.
   */
  lemma SalaryRangeIsDigitLimit(cents: int)
    ensures SalaryInRange(cents) <==>
            |Text.NatToString(Abs(cents) / 100)| <= SalaryMaxDigits - SalaryDecimalPlaces
  {
    Text.DigitCountBound(Abs(cents) / 100, SalaryMaxDigits - SalaryDecimalPlaces);
    assert Text.Pow10(8) == 100_000_000;
  }

  datatype Department = Department(id: nat, name: string, description: string)

  datatype Employee = Employee(
    id: nat,
    firstName: string,
    lastName: string,
    email: string,
    department: Option<nat>,
    position: string,
    hireDate: Date,
    status: Status,
    salaryCents: int,
    createdAt: Instant,
    updatedAt: Instant,
    lastReportGenerated: Option<Instant>)

  /** The column constraints of a department row. */
  predicate WellFormedDepartment(d: Department) {
    |d.name| <= NameMaxLength
  }

  /** The column constraints of an employee row. */
  predicate WellFormedEmployee(e: Employee) {
    && |e.firstName| <= NameMaxLength
    && |e.lastName| <= NameMaxLength
    && |e.email| <= EmailMaxLength
    && |e.position| <= NameMaxLength
    && SalaryInRange(e.salaryCents)
  }

  /** `str(department)`: the department's name; for a well-formed row it fits the name column. */
  function DepartmentStr(d: Department): (s: string)
    ensures WellFormedDepartment(d) ==> |s| <= NameMaxLength
  {
    d.name
  }

  /** `str(employee)`: the first name, one space, the last name. */
  function EmployeeStr(e: Employee): (s: string)
    ensures |s| == |e.firstName| + 1 + |e.lastName|
    ensures s[..|e.firstName|] == e.firstName
    ensures s[|e.firstName|] == ' '
    ensures s[|e.firstName| + 1..] == e.lastName
  {
    e.firstName + " " + e.lastName
  }

  /** Splits a full name at its first space. */
  function SplitAtFirstSpace(s: string): (r: (string, string))
    ensures |r.0| <= |s|
    ensures ' ' !in r.0
  {
    if |s| == 0 then ("", "")
    else if s[0] == ' ' then ("", s[1..])
    else
      var rest := SplitAtFirstSpace(s[1..]);
      ([s[0]] + rest.0, rest.1)
  }

  /**
   When the first name holds no space, `str(employee)` can be split back into
   the first and last name.
   */
  lemma {:induction false} EmployeeStrSplits(first: string, last: string)
    requires ' ' !in first
    ensures SplitAtFirstSpace(first + " " + last) == (first, last)
  {
    if |first| > 0 {
      assert (first + " " + last)[1..] == first[1..] + " " + last;
      EmployeeStrSplits(first[1..], last);
      assert [first[0]] + first[1..] == first;
    } else {
      assert (first + " " + last)[1..] == last;
    }
  }

  /** `b` is `a` with, at most, the report stamp and the update time changed. */
  predicate SameExceptStamp(a: Employee, b: Employee) {
    && a.id == b.id
    && a.firstName == b.firstName
    && a.lastName == b.lastName
    && a.email == b.email
    && a.department == b.department
    && a.position == b.position
    && a.hireDate == b.hireDate
    && a.status == b.status
    && a.salaryCents == b.salaryCents
    && a.createdAt == b.createdAt
  }

  /** Setting `last_report_generated` and saving: `save()` also refreshes `updated_at`. */
  function Stamp(e: Employee, now: Instant): (r: Employee)
    ensures r.lastReportGenerated == Some(now)
    ensures r.updatedAt == now
    ensures SameExceptStamp(e, r)
  {
    e.(lastReportGenerated := Some(now), updatedAt := now)
  }

  /**
   `Employee.generate_performance_report`: the record after the stamp, and the
   confirmation message naming the employee.
   */
  function PerformanceReport(e: Employee, now: Instant): (r: (Employee, string))
    ensures r.0.lastReportGenerated == Some(now)
    ensures r.0.updatedAt == now
    ensures SameExceptStamp(e, r.0)
    ensures r.1 == "Performance report generated for " + EmployeeStr(e)
    ensures WellFormedEmployee(e) ==> WellFormedEmployee(r.0)
  {
    var stamped := Stamp(e, now);
    (stamped, "Performance report generated for " + EmployeeStr(stamped))
  }
}
