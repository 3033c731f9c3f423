/**
 The per-department aggregates the report jobs read from the employee table:
 how many employees of a department have a given status, and the salary total
 of its active employees. Counts are tied to an independent definition, the
 cardinality of the set of matching row positions.
 */
module Aggregates {

  import opened Wrappers
  import opened Models

  /** The row is in department `dept` with status `st`. */
  predicate Counted(e: Employee, dept: nat, st: Status) {
    e.department == Some(dept) && e.status == st
  }

  /** Positions of the rows a department/status filter selects. */
  ghost function Members(es: seq<Employee>, dept: nat, st: Status): set<nat> {
    set i: nat | i < |es| && Counted(es[i], dept, st)
  }

  /** `dept.employees.filter(status=st).count()`. */
  function CountStatus(es: seq<Employee>, dept: nat, st: Status): (n: nat)
    ensures n == |Members(es, dept, st)|
    ensures n <= |es|
    decreases |es|
  {
    if |es| == 0 then 0
    else
      var init := es[..|es| - 1];
      var last := es[|es| - 1];
      var n0 := CountStatus(init, dept, st);
      assert Members(es, dept, st) ==
             Members(init, dept, st) + (if Counted(last, dept, st) then {|es| - 1} else {});
      n0 + (if Counted(last, dept, st) then 1 else 0)
  }

  predicate AllSalariesInRange(es: seq<Employee>) {
    forall i :: 0 <= i < |es| ==> SalaryInRange(es[i].salaryCents)
  }

  /** `sum(e.salary for e in dept.employees.filter(status='active'))`, in cents. */
  function ActiveSalaryTotal(es: seq<Employee>, dept: nat): (t: int)
    ensures CountStatus(es, dept, Active) == 0 ==> t == 0
    ensures AllSalariesInRange(es) ==> Abs(t) <= CountStatus(es, dept, Active) * (CentsBound - 1)
    decreases |es|
  {
    if |es| == 0 then 0
    else
      var init := es[..|es| - 1];
      var last := es[|es| - 1];
      assert AllSalariesInRange(es) ==> AllSalariesInRange(init);
      ActiveSalaryTotal(init, dept) + (if Counted(last, dept, Active) then last.salaryCents else 0)
  }

  /** Appending one row adds its own contribution to a count. */
  lemma CountStatusAppend(es: seq<Employee>, e: Employee, dept: nat, st: Status)
    ensures CountStatus(es + [e], dept, st) == CountStatus(es, dept, st) + (if Counted(e, dept, st) then 1 else 0)
  {
    assert (es + [e])[..|es|] == es;
  }

  /** Appending one row adds its salary to the total when it is active in the department. */
  lemma ActiveSalaryTotalAppend(es: seq<Employee>, e: Employee, dept: nat)
    ensures ActiveSalaryTotal(es + [e], dept) ==
            ActiveSalaryTotal(es, dept) + (if Counted(e, dept, Active) then e.salaryCents else 0)
  {
    assert (es + [e])[..|es|] == es;
  }

  /** Two tables that agree row by row on department, status and salary. */
  predicate SameReportFields(a: seq<Employee>, b: seq<Employee>) {
    && |a| == |b|
    && forall i :: 0 <= i < |a| ==>
         a[i].department == b[i].department && a[i].status == b[i].status && a[i].salaryCents == b[i].salaryCents
  }

  /** Aggregates read nothing but department, status and salary. */
  lemma {:induction false} AggregatesReadOnlyReportFields(a: seq<Employee>, b: seq<Employee>, dept: nat)
    requires SameReportFields(a, b)
    ensures forall st :: CountStatus(a, dept, st) == CountStatus(b, dept, st)
    ensures ActiveSalaryTotal(a, dept) == ActiveSalaryTotal(b, dept)
  {
    if |a| > 0 {
      var n := |a| - 1;
      var a', b' := a[..n], b[..n];
      assert SameReportFields(a', b') by {
        forall i | 0 <= i < n ensures a'[i] == a[i] && b'[i] == b[i] { }
      }
      AggregatesReadOnlyReportFields(a', b', dept);
      forall st
        ensures CountStatus(a, dept, st) == CountStatus(b, dept, st)
      {
        assert Counted(a[n], dept, st) == Counted(b[n], dept, st);
        assert CountStatus(a, dept, st) == CountStatus(a', dept, st) + (if Counted(a[n], dept, st) then 1 else 0);
        assert CountStatus(b, dept, st) == CountStatus(b', dept, st) + (if Counted(b[n], dept, st) then 1 else 0);
      }
    }
  }
}
