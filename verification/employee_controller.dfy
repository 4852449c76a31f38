/** The decision logic of the employee endpoints: the blank-password guard
    and exception mapping of registration, and the report cascade that
    precedes employee deletion. */
module EmployeeController {
  import opened Constants
  import opened Entities
  import EmployeeService
  import ReportService
  import ReportRepository

  /** Registration as the endpoint performs it. An empty password is refused
      as blank before the service runs. `storeRefuses` is the store's verdict
      on the insert the service issues: an integrity violation there is
      reported as a duplicate-exception outcome and nothing is saved. */
  function Add(s: Store, form: EmployeeService.EmployeeForm, storeRefuses: bool,
               encode: string -> string, now: Instant): (o: Outcome)
    ensures form.password == [] ==> o.kind == BlankError && o.store == s
    ensures form.password != [] && storeRefuses && EmployeeService.Save(s, form, encode, now).kind == Success
            ==> o.kind == DuplicateExceptionError && o.store == s
    ensures form.password != [] && (!storeRefuses || EmployeeService.Save(s, form, encode, now).kind != Success)
            ==> o == EmployeeService.Save(s, form, encode, now)
    ensures o.kind == Success ==> form.code !in s.employees && form.code in o.store.employees
  {
    if form.password == [] then Outcome(BlankError, s)
    else
      var saved := EmployeeService.Save(s, form, encode, now);
      if saved.kind == Success && storeRefuses then Outcome(DuplicateExceptionError, s)
      else saved
  }

  /** The service alone would call an empty password a pattern error; the
      endpoint's guard turns it into a blank error. */
  lemma EmptyPasswordIsBlankNotHalfsize(s: Store, form: EmployeeService.EmployeeForm, storeRefuses: bool,
                                        encode: string -> string, now: Instant)
    requires form.password == []
    ensures EmployeeService.Save(s, form, encode, now).kind == HalfsizeError
    ensures Add(s, form, storeRefuses, encode, now).kind == BlankError
  {
  }

  /** A report the cascade for `code` removes: one of that employee's
      reports that is not soft-deleted. */
  predicate CascadeRemoves(r: Report, code: string) {
    r.employeeCode == code && !r.deleteFlg
  }

  /** Reference result of the cascade: exactly the visible reports of
      `code` are gone; every other row, including that employee's
      soft-deleted ones, survives unchanged. */
  function CascadeReports(reports: map<int, Report>, code: string): (m: map<int, Report>)
    ensures m.Keys <= reports.Keys
    ensures forall id :: id in m ==> m[id] == reports[id]
    ensures forall id :: id in reports && reports[id].employeeCode != code ==> id in m
    ensures forall id :: id in reports && reports[id].deleteFlg ==> id in m
    ensures forall id :: id in m ==> !CascadeRemoves(m[id], code)
  {
    map id | id in reports && !CascadeRemoves(reports[id], code) :: reports[id]
  }

  /** The cascade loop: every report listed up front whose owner is `code`
      is handed to the report deletion, which skips soft-deleted ones. The
      order of the listing does not matter: any order yields the reference
      result. */
  method RunCascade(s: Store, code: string) returns (t: Store)
    ensures t.employees == s.employees && t.nextReportId == s.nextReportId
    ensures t.reports.Keys <= s.reports.Keys
    ensures forall id :: id in s.reports ==> (id in t.reports <==> !CascadeRemoves(s.reports[id], code))
    ensures forall id :: id in t.reports ==> t.reports[id] == s.reports[id]
  {
    t := s;
    var pending := s.reports.Keys;
    while pending != {}
      invariant pending <= s.reports.Keys
      invariant t.employees == s.employees && t.nextReportId == s.nextReportId
      invariant t.reports.Keys <= s.reports.Keys
      invariant forall id :: id in t.reports ==> t.reports[id] == s.reports[id]
      invariant forall id :: id in pending ==> id in t.reports
      invariant forall id :: id in s.reports && id !in pending ==>
        (id in t.reports <==> !CascadeRemoves(s.reports[id], code))
      decreases pending
    {
      ReportRepository.NonEmptyHasMember(pending);
      var id :| id in pending;
      if s.reports[id].employeeCode == code {
        var o := ReportService.DeleteReport(t, id);
        t := o.store;
      }
      pending := pending - {id};
    }
  }

  /** Employee deletion as the endpoint performs it: the report cascade
      first, then the service's deletion, whose self-delete guard therefore
      comes too late to protect the actor's own reports. */
  function Delete(s: Store, code: string, principalCode: string, now: Instant): (o: Outcome)
    requires code == principalCode || code in s.employees
    ensures o.store.reports == CascadeReports(s.reports, code)
    ensures o.store.nextReportId == s.nextReportId
    ensures code == principalCode ==> o.kind == LogincheckError && o.store.employees == s.employees
    ensures code != principalCode ==>
      o.kind == Success && o.store.employees == EmployeeService.Delete(s, code, principalCode, now).store.employees
  {
    var afterCascade := s.(reports := CascadeReports(s.reports, code));
    EmployeeService.Delete(afterCascade, code, principalCode, now)
  }

  /** The loop implementation of the endpoint: it produces the same store
      and outcome as the reference `Delete`. */
  method DeleteEndpoint(s: Store, code: string, principalCode: string, now: Instant) returns (kind: ErrorKinds, t: Store)
    requires code == principalCode || code in s.employees
    ensures Outcome(kind, t) == Delete(s, code, principalCode, now)
  {
    var afterCascade := RunCascade(s, code);
    var reference := CascadeReports(s.reports, code);
    assert forall id :: id in afterCascade.reports <==> id in reference;
    assert afterCascade.reports.Keys == reference.Keys;
    assert forall id :: id in reference ==> afterCascade.reports[id] == reference[id];
    assert afterCascade.reports == reference;
    assert afterCascade == s.(reports := CascadeReports(s.reports, code));
    var o := EmployeeService.Delete(afterCascade, code, principalCode, now);
    kind, t := o.kind, o.store;
  }

  /** A self-deletion attempt is refused and the actor stays active, yet
      the actor's visible reports are gone. */
  lemma SelfDeleteStillCascades(s: Store, code: string, now: Instant, id: int)
    requires code in s.employees && !s.employees[code].deleteFlg
    requires id in s.reports && CascadeRemoves(s.reports[id], code)
    ensures Delete(s, code, code, now).kind == LogincheckError
    ensures !Delete(s, code, code, now).store.employees[code].deleteFlg
    ensures id !in Delete(s, code, code, now).store.reports
  {
  }

  /** Running the cascade twice is the same as running it once: the second
      pass finds nothing visible left to remove. */
  lemma CascadeIdempotent(reports: map<int, Report>, code: string)
    ensures CascadeReports(CascadeReports(reports, code), code) == CascadeReports(reports, code)
  {
  }

  /** The cascade keeps per-employee per-date uniqueness and the store
      invariant. */
  lemma CascadePreserves(s: Store, code: string, principalCode: string, now: Instant)
    requires code == principalCode || code in s.employees
    requires Valid(s) && ReportService.OneVisiblePerDay(s.reports)
    ensures Valid(Delete(s, code, principalCode, now).store)
    ensures ReportService.OneVisiblePerDay(Delete(s, code, principalCode, now).store.reports)
  {
  }
}
