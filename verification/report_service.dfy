/** Report visibility, deletion, creation and update rules. */
module ReportService {
  import opened Constants
  import opened Text
  import opened Entities
  import opened ReportRepository

  /** The values a report form carries into the service. */
  datatype ReportForm = ReportForm(reportDate: Date, title: string, content: string, employeeCode: string)

  /** Lookup by id that hides soft-deleted reports. */
  function FindById(s: Store, id: int): (r: Optional<Report>)
    ensures r.Present? <==> id in s.reports && !s.reports[id].deleteFlg
    ensures r.Present? ==> r.value == s.reports[id]
  {
    var row := if id in s.reports then Present(s.reports[id]) else Empty;
    if row.Present? && !row.value.deleteFlg then row else Empty
  }

  /** Deletion of a visible report removes its row physically; an absent or
      soft-deleted id is reported as blank and changes nothing. Either way
      the id is no longer visible afterwards. */
  function DeleteReport(s: Store, id: int): (o: Outcome)
    ensures o.kind == Success <==> id in s.reports && !s.reports[id].deleteFlg
    ensures o.kind != Success ==> o.kind == BlankError && o.store == s
    ensures o.kind == Success ==>
      && o.store.employees == s.employees
      && o.store.nextReportId == s.nextReportId
      && o.store.reports.Keys == s.reports.Keys - {id}
      && AgreeExcept(s.reports, o.store.reports, id)
    ensures FindById(o.store, id).Empty?
  {
    var found := FindById(s, id);
    if found.Present? then Outcome(Success, s.(reports := DeleteById(s.reports, id)))
    else Outcome(BlankError, s)
  }

  /** Whether another visible report carries `reportDate`. The employee
      code is accepted but not consulted. */
  function IsDateDuplicate(s: Store, employeeCode: string, reportDate: Date, excludeId: int): (dup: bool)
    ensures dup <==> exists id :: id in s.reports && id != excludeId &&
                                  s.reports[id].reportDate == reportDate && !s.reports[id].deleteFlg
  {
    var ids := FindDuplicateReport(s.reports, reportDate, excludeId);
    assert forall id :: id in ids ==> id in s.reports;
    ids != {}
  }

  /** The service's own checks refuse the creation before any insert. */
  predicate RefusedBeforeInsert(s: Store, form: ReportForm, employeeCode: string) {
    || IsBlank(form.title) || IsBlank(form.content)
    || FindByEmployeeCodeAndReportDate(s.reports, employeeCode, form.reportDate) != {}
  }

  /** The store accepts the row the creation inserts: the title fits its
      column and the owner is an employee row. */
  predicate InsertAccepted(s: Store, form: ReportForm) {
    |form.title| <= TitleMaxLength && form.employeeCode in s.employees
  }

  /** Creation on behalf of `employeeCode`. A blank title or content is
      refused first; then any row of that employee on that date, even a
      soft-deleted one, refuses the date. On success exactly one row is
      added, under the identity counter's next value, with equal creation
      and modification times. When the checks pass, the store must accept
      the insert: it rejects an over-long title or an owner that is not an
      employee with an exception the service does not translate. */
  function CreateReport(s: Store, form: ReportForm, employeeCode: string, now: Instant): (o: Outcome)
    requires RefusedBeforeInsert(s, form, employeeCode) || InsertAccepted(s, form)
    ensures o.kind == BlankError <==> IsBlank(form.title) || IsBlank(form.content)
    ensures o.kind == DatecheckError <==>
      && !IsBlank(form.title) && !IsBlank(form.content)
      && exists id :: id in s.reports && s.reports[id].employeeCode == employeeCode
                      && s.reports[id].reportDate == form.reportDate
    ensures o.kind in {BlankError, DatecheckError, Success}
    ensures o.kind != Success ==> o.store == s
    ensures o.kind == Success ==>
      && o.store.employees == s.employees
      && o.store.nextReportId == s.nextReportId + 1
      && o.store.reports.Keys == s.reports.Keys + {s.nextReportId}
      && AgreeExcept(s.reports, o.store.reports, s.nextReportId)
      && var r := o.store.reports[s.nextReportId];
         && r.reportDate == form.reportDate && r.title == form.title && r.content == form.content
         && r.employeeCode == form.employeeCode
         && !r.deleteFlg
         && r.createdAt == now && r.updatedAt == now
  {
    if IsBlank(form.title) || IsBlank(form.content) then Outcome(BlankError, s)
    else
      var sameDay := FindByEmployeeCodeAndReportDate(s.reports, employeeCode, form.reportDate);
      if |sameDay| > 0 then
        NonEmptyHasMember(sameDay);
        Outcome(DatecheckError, s)
      else
        assert sameDay == {};
        var row := PrePersist(Report(form.reportDate, form.title, form.content, form.employeeCode, false, now, now), now);
        Outcome(Success, s.(reports := s.reports[s.nextReportId := row], nextReportId := s.nextReportId + 1))
  }

  /** Update of the row with key `id`, soft-deleted or not. Only the title,
      content and date are overwritten; nothing is validated and no other
      report's date is consulted. The modification time is refreshed when
      one of the three columns actually changes, and the row is left as it
      was otherwise. A missing id is reported as a duplicate-exception
      outcome with no change. When the row exists the new title must fit
      its column, which the store enforces. */
  function Update(s: Store, id: int, form: ReportForm, now: Instant): (o: Outcome)
    requires id !in s.reports || |form.title| <= TitleMaxLength
    ensures id !in s.reports ==> o.kind == DuplicateExceptionError && o.store == s
    ensures id in s.reports ==>
      && o.kind == Success
      && o.store.employees == s.employees
      && o.store.nextReportId == s.nextReportId
      && o.store.reports.Keys == s.reports.Keys
      && AgreeExcept(s.reports, o.store.reports, id)
      && var before := s.reports[id];
         var after := o.store.reports[id];
         && after.title == form.title && after.content == form.content
         && after.reportDate == form.reportDate
         && after.employeeCode == before.employeeCode
         && after.deleteFlg == before.deleteFlg
         && after.createdAt == before.createdAt
         && (after.updatedAt == before.updatedAt || after.updatedAt == now)
         && (after != before ==> after.updatedAt == now)
         && (after == before <==>
               form.title == before.title && form.content == before.content
               && form.reportDate == before.reportDate)
  {
    if id in s.reports then
      var existing := s.reports[id];
      var merged := existing.(title := form.title, content := form.content, reportDate := form.reportDate);
      var saved := if merged == existing then existing else PreUpdate(merged, now);
      Outcome(Success, s.(reports := s.reports[id := saved]))
    else Outcome(DuplicateExceptionError, s)
  }

  /** At most one visible report per employee and date. */
  predicate OneVisiblePerDay(reports: map<int, Report>) {
    forall i, j :: i in reports && j in reports && i != j
      && !reports[i].deleteFlg && !reports[j].deleteFlg
      && reports[i].employeeCode == reports[j].employeeCode
      ==> reports[i].reportDate != reports[j].reportDate
  }

  /** Creation keeps the per-employee per-date uniqueness when the form's
      employee is the one the date check was made for. */
  lemma CreatePreservesOneVisiblePerDay(s: Store, form: ReportForm, employeeCode: string, now: Instant)
    requires Valid(s) && OneVisiblePerDay(s.reports)
    requires RefusedBeforeInsert(s, form, employeeCode) || InsertAccepted(s, form)
    requires form.employeeCode == employeeCode
    ensures OneVisiblePerDay(CreateReport(s, form, employeeCode, now).store.reports)
  {
  }

  /** Two active employees, E001 and E002, used by the examples below. */
  const Staff: map<string, Employee> :=
    map["E001" := Employee("E001", "Taro", "h1", General, false, 0, 0),
        "E002" := Employee("E002", "Hanako", "h2", General, false, 0, 0)]

  /** Because creation stores the form's employee rather than the one the
      date check used, a second visible report for the same employee and
      date can be created. */
  lemma CreateWithForeignFormBreaksUniqueness()
    ensures
      var first := Report(7, "t", "c", "E001", false, 0, 0);
      var s := Store(Staff, map[1 := first], 2);
      var o := CreateReport(s, ReportForm(7, "t", "c", "E001"), "E002", 1);
      o.kind == Success && !OneVisiblePerDay(o.store.reports)
  {
    var first := Report(7, "t", "c", "E001", false, 0, 0);
    var s := Store(Staff, map[1 := first], 2);
    var form := ReportForm(7, "t", "c", "E001");
    assert !IsWhitespace(form.title[0]) && !IsWhitespace(form.content[0]);
    var o := CreateReport(s, form, "E002", 1);
    assert s.reports[1].employeeCode != "E002";
    assert o.kind == Success;
    assert o.store.reports[1] == first && o.store.reports[2].employeeCode == "E001";
  }

  /** Update performs no duplicate rejection: moving a report onto a date
      its owner already used leaves two visible reports on that date. */
  lemma UpdateCanBreakUniqueness()
    ensures
      var s := Store(Staff, map[1 := Report(7, "a", "x", "E001", false, 0, 0),
                                2 := Report(8, "b", "y", "E001", false, 0, 0)], 3);
      OneVisiblePerDay(s.reports) && !OneVisiblePerDay(Update(s, 2, ReportForm(7, "b", "y", "E001"), 1).store.reports)
  {
    var s := Store(Staff, map[1 := Report(7, "a", "x", "E001", false, 0, 0),
                              2 := Report(8, "b", "y", "E001", false, 0, 0)], 3);
    var m := Update(s, 2, ReportForm(7, "b", "y", "E001"), 1).store.reports;
    assert m[1].reportDate == m[2].reportDate;
  }

  /** The employee code passed to the date check changes nothing about its
      answer. */
  lemma IsDateDuplicateIgnoresEmployee(s: Store, a: string, b: string, reportDate: Date, excludeId: int)
    ensures IsDateDuplicate(s, a, reportDate, excludeId) == IsDateDuplicate(s, b, reportDate, excludeId)
  {
  }

  /** Consequently one employee's report flags the same date for any other
      employee. */
  lemma DateDuplicateAcrossEmployees()
    ensures
      var s := Store(Staff, map[1 := Report(7, "t", "c", "E001", false, 0, 0)], 2);
      IsDateDuplicate(s, "E002", 7, 0)
  {
    var s := Store(Staff, map[1 := Report(7, "t", "c", "E001", false, 0, 0)], 2);
    assert 1 in s.reports && s.reports[1].reportDate == 7;
  }

  /** Deleting a visible report makes its date available again to its
      owner, provided it was that owner's only row on that date. */
  lemma DeleteFreesDateSlot(s: Store, id: int)
    requires id in s.reports && !s.reports[id].deleteFlg
    requires FindByEmployeeCodeAndReportDate(s.reports, s.reports[id].employeeCode, s.reports[id].reportDate) == {id}
    ensures FindByEmployeeCodeAndReportDate(DeleteReport(s, id).store.reports,
                                            s.reports[id].employeeCode, s.reports[id].reportDate) == {}
  {
  }

  /** Deleting the same report twice: the second attempt finds nothing
      visible and is reported as blank with no change. */
  lemma DeleteReportTwice(s: Store, id: int)
    requires DeleteReport(s, id).kind == Success
    ensures DeleteReport(DeleteReport(s, id).store, id).kind == BlankError
    ensures DeleteReport(DeleteReport(s, id).store, id).store == DeleteReport(s, id).store
  {
  }

  /** A created report is visible under its new id and makes its date a
      duplicate for every other id. */
  lemma CreatedReportIsDateDuplicate(s: Store, form: ReportForm, employeeCode: string, now: Instant,
                                     anyCode: string, excludeId: int)
    requires RefusedBeforeInsert(s, form, employeeCode) || InsertAccepted(s, form)
    requires CreateReport(s, form, employeeCode, now).kind == Success
    requires excludeId != s.nextReportId
    ensures FindById(CreateReport(s, form, employeeCode, now).store, s.nextReportId).Present?
    ensures IsDateDuplicate(CreateReport(s, form, employeeCode, now).store, anyCode, form.reportDate, excludeId)
  {
  }

  /** Update never changes which reports are visible. */
  lemma UpdateKeepsVisibility(s: Store, id: int, form: ReportForm, now: Instant, k: int)
    requires id !in s.reports || |form.title| <= TitleMaxLength
    ensures FindById(Update(s, id, form, now).store, k).Present? <==> FindById(s, k).Present?
  {
  }

  /** The service lookup and the repository's not-deleted query agree. */
  lemma FindByIdMatchesRepository(s: Store, id: int)
    ensures FindById(s, id) == FindByIdAndDeleteFlgFalse(s.reports, id)
  {
  }

  /** Every report operation keeps the store invariant. */
  lemma ReportOperationsPreserveValid(s: Store, id: int, form: ReportForm, employeeCode: string, now: Instant)
    requires Valid(s)
    requires RefusedBeforeInsert(s, form, employeeCode) || InsertAccepted(s, form)
    requires id !in s.reports || |form.title| <= TitleMaxLength
    ensures Valid(DeleteReport(s, id).store)
    ensures Valid(CreateReport(s, form, employeeCode, now).store)
    ensures Valid(Update(s, id, form, now).store)
  {
  }

  /** Deletion keeps the per-employee per-date uniqueness. */
  lemma DeletePreservesOneVisiblePerDay(s: Store, id: int)
    requires OneVisiblePerDay(s.reports)
    ensures OneVisiblePerDay(DeleteReport(s, id).store.reports)
  {
  }

  /** Two reports for one employee on one date are refused; the next date
      is accepted. */
  lemma DailyReportScenario(s: Store, t0: Instant)
    requires Valid(s) && s.reports == map[] && "E001" in s.employees
    ensures
      var form := ReportForm(10, "title", "content", "E001");
      var first := CreateReport(s, form, "E001", t0);
      var second := CreateReport(first.store, form, "E001", t0);
      var third := CreateReport(first.store, form.(reportDate := 11), "E001", t0);
      first.kind == Success && second.kind == DatecheckError && third.kind == Success
  {
    var form := ReportForm(10, "title", "content", "E001");
    assert !IsWhitespace(form.title[0]) && !IsWhitespace(form.content[0]);
    var first := CreateReport(s, form, "E001", t0);
    assert first.kind == Success;
    assert s.nextReportId in first.store.reports;
  }
}
