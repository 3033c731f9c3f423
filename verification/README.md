# Employee records: a Dafny model of the store rules and the report jobs

This project models the core of a small employee-records application. It has
two record types, `Department` and `Employee`. It has one store that holds
both tables. It also has the background jobs that read the store:

- a welcome-email job and an employee-report job, each of which looks up one
  employee by id;
- a daily department report, with active and on-leave head counts per
  department;
- a weekly salary report, with the total, average and head count of active
  employees per department;
- an export of every employee as rows of fields.

The store is an immutable value: the two tables in iteration order plus the
next id to hand out for each. The rules declared on the model fields form one
invariant, `Store.Valid`: unique primary keys, the unique email, a foreign key
with `ON DELETE SET NULL`, the declared maximum lengths and the salary's digit
limit. Every operation that writes the store is shown to preserve it.
Each job is a pure function of the store. The current time is a parameter.

Modules:

- `Wrappers`: `Option` and `Result`.
- `Text`: Python's `str()` for integers (`IntToString`) and its parser. Together they give an injective round trip.
- `Models`: status codes and choices, the default status, salary as integer cents bounded by 10^10, column widths, `__str__`, `generate_performance_report`.
- `Store`: the store, its invariant, lookup by id, employee and department insertion, department deletion with `SET NULL`.
- `Aggregates`: per-department head count by status and active salary total. Counts are tied to an independent definition, the size of the set of matching row positions.
- `Tasks`: the five jobs, and the reader that turns an export back into employee fields.
- `StoreReports`: how inserting an employee, deleting a department and stamping a report affect the reports and the export.

A behaviour of the code that a reader might not expect: `generate_employee_report` and `generate_performance_report` call `save()`, and the `updated_at` column is declared `auto_now=True`. So `save()` also moves `updated_at` to the current time. The model stamps both fields and proves that every other field is unchanged (`SameExceptStamp`).

The daily report's `total_employees` is `active + on_leave`, so terminated employees and employees without a department are never counted.

## Model

| member | source | states |
|---|---|---|
| Models.ParseStatus | apps/employees/models.py:14-18 | a status code is accepted exactly when it is `active`, `on_leave` or `terminated`, and it maps back to the same code |
| Models.StatusCode | apps/employees/models.py:14-26 | each status has a non-empty stored code of at most 20 characters, the width of the status column |
| Models.StatusCodeRoundTrip | apps/employees/models.py:14-18 | every status survives the round trip through its stored code |
| Models.SalaryRangeIsDigitLimit | apps/employees/models.py:27 | a salary in cents fits the column (magnitude below 10^10) exactly when its whole-units part has at most 10 - 2 = 8 decimal digits |
| Models.DepartmentStr | apps/employees/models.py:9-10 | `str(department)` is the department's name, which for a well-formed row fits the 100-character column; the reports' and the export's department fields are this value |
| Models.EmployeeStr | apps/employees/models.py:32-33 | `str(employee)` is the first name, then one space, then the last name |
| Models.Stamp | apps/employees/models.py:37-38 | setting the report stamp and saving sets `last_report_generated` and the `auto_now` `updated_at` to now and changes no other field |
| Models.EmployeeStrSplits | apps/employees/models.py:32-33 | when the first name holds no space, `str(employee)` splits back at its first space into the first and last name |
| Models.PerformanceReport | apps/employees/models.py:35-39 | `generate_performance_report` sets the report stamp and the update time to now, changes no other field, keeps the record well formed, and returns "Performance report generated for " followed by `str(employee)` |
| Store.FindEmployee | apps/employees/tasks.py:19 | lookup by id returns the first position holding that id, and returns nothing exactly when no employee has it |
| Store.FindDepartment | apps/employees/tasks.py:109 | resolving a department reference returns the first position holding that id, and returns nothing exactly when no such department exists |
| Store.InsertEmployee | apps/employees/models.py:20-30 | an insert succeeds exactly when the widths, the salary bound, the department reference and email uniqueness all hold; a duplicate email is always refused; a refused insert leaves the store unchanged; a successful one appends one row with a fresh id, the given fields, status `active` when none was given, both timestamps at now and no report stamp |
| Store.InsertEmployeePreservesValid | apps/employees/models.py:22 | inserting an employee keeps ids and emails unique and the store invariant intact |
| Store.InsertDepartment | apps/employees/models.py:5-7 | a department insert is refused exactly when the name is blank or over 100 characters, and the refusal names which; otherwise it appends a department with a fresh id and leaves employees alone |
| Store.InsertDepartmentPreservesValid | apps/employees/models.py:5-7 | inserting a department keeps the store invariant |
| Store.DetachFrom | apps/employees/models.py:23 | `SET NULL`: the employee table keeps its length, each dependent of the deleted department loses its department, and nothing else in any row changes |
| Store.RemoveDepartment | apps/employees/models.py:23 | the department table afterwards holds exactly the departments without the deleted id |
| Store.DeleteDepartment | apps/employees/models.py:23 | deleting a department removes no employee; its former employees have a null department; every other employee is unchanged; the id is gone from the department table |
| Store.RemoveDepartmentAt | apps/employees/models.py:23 | with unique ids, deleting the department at position k removes exactly that row and keeps the order of the rest |
| Store.DeleteDepartmentPreservesValid | apps/employees/models.py:23 | deleting a department keeps the store invariant, including the foreign key |
| Aggregates.CountStatus | apps/employees/tasks.py:53-54 | the count of a department's employees with a given status equals the number of rows in that department with that status |
| Aggregates.ActiveSalaryTotal | apps/employees/tasks.py:75-76 | the active salary total is 0 when the department has no active employee; when salaries are in range, its magnitude is at most the head count times 10^10 - 1 cents, the largest value the salary column can hold |
| Aggregates.CountStatusAppend | apps/employees/tasks.py:53-54 | appending a row changes a count by exactly that row's contribution |
| Aggregates.ActiveSalaryTotalAppend | apps/employees/tasks.py:75-76 | appending a row changes the total by its salary exactly when it is active in that department |
| Aggregates.AggregatesReadOnlyReportFields | apps/employees/tasks.py:53-76 | counts and totals depend only on each row's department, status and salary |
| Text.IntToString | apps/employees/tasks.py:26 | Python's `str()` of an int is non-empty and starts with a minus sign exactly when the int is negative |
| Text.IntToStringRoundTrip | apps/employees/tasks.py:105 | the decimal rendering of an id reads back as that id |
| Tasks.NotFoundMessage | apps/employees/tasks.py:24-26 | the not-found message is "Error: Employee with id " and " not found" around the decimal id, and the id can be read back from between them |
| Tasks.NotFoundMessageNamesId | apps/employees/tasks.py:24-26 | distinct ids give distinct not-found messages, so the error names the id it was asked for |
| Tasks.SendWelcomeEmail | apps/employees/tasks.py:15-26 | for a missing id the job returns the not-found message; otherwise it names the email of the employee the id lookup finds |
| Tasks.GenerateEmployeeReport | apps/employees/tasks.py:29-42 | for a missing id the store is unchanged and the not-found message is returned; otherwise only the employee with that id changes, its report stamp and update time become now, its other fields stay, and the message names its first and last name |
| Tasks.GenerateEmployeeReportTouchesOnlyId | apps/employees/tasks.py:33-37 | in a valid store, no employee with a different id is modified |
| Tasks.GenerateEmployeeReportPreservesValid | apps/employees/tasks.py:36-37 | the report job keeps the store invariant |
| Tasks.GenerateEmployeeReportIsPerformanceReport | apps/employees/tasks.py:36-39 | the job leaves the record exactly as `generate_performance_report` would, and its message uses `str(employee)` |
| Tasks.DailyEntryFor | apps/employees/tasks.py:53-60 | one daily line carries the department's name (`str(department)`), its active and on-leave counts, and their sum as the total |
| Tasks.DailyEntries | apps/employees/tasks.py:52-60 | one daily line per department, in table order |
| Tasks.DailyDepartmentReport | apps/employees/tasks.py:45-63 | one entry per department in table order, with its name, the number of its active employees, the number on leave, and their sum |
| Tasks.Average | apps/employees/tasks.py:77 | the average is 0 when there is no employee; otherwise average times count equals the total, with no division by zero |
| Tasks.WeeklyEntryFor | apps/employees/tasks.py:74-84 | one weekly line carries the name, the active head count, the exact active salary total (0 when none) and the guarded average |
| Tasks.WeeklyEntries | apps/employees/tasks.py:74-84 | one weekly line per department, in table order |
| Tasks.WeeklySalaryReport | apps/employees/tasks.py:66-87 | one entry per department in table order, over its active employees only: head count, exact total, and an average that is 0 for none or else times the count gives the total |
| Tasks.WeeklyAverageInRange | apps/employees/tasks.py:75-77 | in a valid store each total's magnitude is at most the head count times 10^10 - 1 cents, the largest value the salary column can hold, and each average's magnitude is below 10^10 cents |
| Tasks.DepartmentColumn | apps/employees/tasks.py:109 | the department field is blank for a null reference, and otherwise the name of the referenced department |
| Tasks.ExportRow | apps/employees/tasks.py:104-114 | an exported row has the nine header fields in order: id as decimal text, names, email, department name or blank, position, hire date, status code, salary |
| Tasks.ExportRows | apps/employees/tasks.py:103-114 | one row per employee, in table order |
| Tasks.ExportEmployeesCsv | apps/employees/tasks.py:90-117 | the export is the header followed by one row per employee, so N employees give N + 1 rows |
| Tasks.ExportRowRoundTrip | apps/employees/tasks.py:104-114 | reading an exported row gives back exactly that employee's id, names, email, department name, position, hire date, status and salary |
| Tasks.ExportRowsRoundTrip | apps/employees/tasks.py:103-114 | the employee rows read back as the employee table's fields, in order |
| Tasks.ExportRoundTrip | apps/employees/tasks.py:90-117 | the whole export, header included, reads back as the employee table, one record per employee |
| StoreReports.DetachedAggregates | apps/employees/models.py:23 | after `SET NULL` the deleted department counts nobody and has total 0; every other department keeps its counts and total |
| StoreReports.DetachKeepsOtherEntries | apps/employees/models.py:23 | after `SET NULL` the daily and weekly lines of any other department are unchanged |
| StoreReports.EntriesIgnoreDetach | apps/employees/models.py:23 | the report lines of departments other than the deleted one are unchanged |
| StoreReports.EntriesOfSplice | apps/employees/tasks.py:52-60 | dropping a department row drops exactly its line from both reports |
| StoreReports.SurvivorsHaveOtherIds | apps/employees/models.py:23 | with unique ids, no surviving department carries the deleted id |
| StoreReports.DeleteDepartmentShape | apps/employees/models.py:23 | deleting the department at k leaves the other department rows in order and detaches its employees |
| StoreReports.DeleteDepartmentDropsDailyEntry | apps/employees/tasks.py:45-63 | after deleting the department at k, the daily report is the old report without line k |
| StoreReports.DeleteDepartmentDropsWeeklyEntry | apps/employees/tasks.py:66-87 | after deleting the department at k, the weekly report is the old report without line k |
| StoreReports.InsertEmployeeDailyEffect | apps/employees/tasks.py:53-59 | a successful insert adds one to the new employee's status count in its own department and changes no other daily count; a terminated or department-less employee changes nothing |
| StoreReports.InsertEmployeeWeeklyEffect | apps/employees/tasks.py:75-83 | a successful insert of an active employee adds one to its department's weekly head count and its salary to the total; nothing else changes |
| StoreReports.EntriesReadOnlyReportFields | apps/employees/tasks.py:52-84 | report lines depend only on each employee's department, status and salary |
| StoreReports.ExportIgnoresStamps | apps/employees/tasks.py:103-114 | exported rows do not depend on the report stamp or the update time |
| StoreReports.GenerateEmployeeReportShape | apps/employees/tasks.py:36-37 | the report job changes no department and keeps every employee row the same except for the stamp fields |
| StoreReports.GenerateEmployeeReportKeepsReports | apps/employees/tasks.py:29-42 | stamping a report changes neither department report nor the export |
| StoreReports.ExportRowIgnoresStamp | apps/employees/tasks.py:104-114 | an exported row holds no timestamp |

## Left out

- Task dispatch and scheduling are not modelled: the `@task`, `@db_task` and `@periodic_task` decorators and the `crontab` schedules. Each job is modelled as the function it runs.
- Logging calls are not modelled. They have no effect on the returned values or the store.
- `timezone.now()` is not modelled. The current time is the parameter `now`, and one reading stands for both the stamp and the `save()` refresh of `updated_at`.
- CSV quoting and escaping and the `io.StringIO` text assembly are not modelled. The export is a sequence of rows of typed fields.
- Hire dates and salaries stay values in the export (`DateCell`, `DecimalCell`) because their text rendering is not modelled. The id is rendered as decimal text.
- Tasks.Average: the average is the exact rational quotient. Python's `Decimal` division rounds to 28 significant digits, and that rounding is not modelled.
- Tasks.WeeklyEntryFor: `total_salary` is the integer 0, not a `Decimal`, when there are no active employees. The model does not distinguish the two types.
- Models.SalaryRangeIsDigitLimit: salaries are whole cents, so a value with more than two decimal places cannot be written. The column's refusal of such input is therefore not modelled.
- The display labels of the status choices (`Active`, `On Leave`, `Terminated`) are not modelled. Only templates and the admin show them, and no modelled job reads them.
- Status values outside the three codes are not modelled: `Status` has only the three choices. No database constraint enforces `choices`, so a row written without validation could hold any string of up to 20 characters. Such a row would be counted by no report and exported as written.
- Store.InsertEmployee: email syntax validation and the non-blank rules of form and model validation are not modelled. Insertion checks the rules declared on the model fields: maximum lengths, the unique email, the foreign key and the salary's digit limit. It reports every rule broken, not only the first one hit.
- Employee updates, employee deletion, department edits, the dashboard counts, list pagination, the HTTP views, URL routing and admin configuration are presentation and framework code and are not modelled.
- Tasks.ExportEmployeesCsv: it requires the foreign key to hold (`RefsValid`). The database guarantees this, so a dangling department reference cannot occur.
- Table order is the order the tables are iterated in. Neither model declares an ordering, so the database's order is taken as the store's sequence order.
- Concurrency between request handlers and workers is not modelled. No coordination exists to model.
