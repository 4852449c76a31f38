/** The report queries, each read as a filter over the report table keyed
    by id. Queries the platform declares as returning an optional row are
    modelled by the set of ids they match: the row is present exactly when
    that set is non-empty. */
module ReportRepository {
  import opened Entities

  /** Ids of the rows that satisfy `keep`: the one selection mechanism the
      queries below share. */
  function Where(reports: map<int, Report>, keep: (int, Report) -> bool): (ids: set<int>)
    ensures ids <= reports.Keys
    ensures forall id :: id in ids <==> id in reports && keep(id, reports[id])
  {
    set id | id in reports && keep(id, reports[id])
  }

  /** A non-empty set of ids has a member. */
  lemma NonEmptyHasMember(ids: set<int>)
    requires ids != {}
    ensures exists id :: id in ids
  {
    if forall id :: id !in ids {
      assert false;
    }
  }

  /** Rows dated `reportDate` that are not soft-deleted. */
  function FindByReportDate(reports: map<int, Report>, reportDate: Date): (ids: set<int>)
    ensures forall id :: id in ids <==>
      id in reports && reports[id].reportDate == reportDate && !reports[id].deleteFlg
  {
    Where(reports, (id, r: Report) => r.reportDate == reportDate && !r.deleteFlg)
  }

  /** Rows dated `reportDate`, not soft-deleted, other than `excludeId`.
      Whose report it is plays no part. */
  function FindDuplicateReport(reports: map<int, Report>, reportDate: Date, excludeId: int): (ids: set<int>)
    ensures forall id :: id in ids <==>
      id in reports && reports[id].reportDate == reportDate && id != excludeId && !reports[id].deleteFlg
  {
    Where(reports, (id, r: Report) => r.reportDate == reportDate && id != excludeId && !r.deleteFlg)
  }

  /** The row with key `id` provided it is not soft-deleted. */
  function FindByIdAndDeleteFlgFalse(reports: map<int, Report>, id: int): (r: Optional<Report>)
    ensures r.Present? <==> id in reports && !reports[id].deleteFlg
    ensures r.Present? ==> r.value == reports[id]
  {
    var ids := Where(reports, (k, row: Report) => k == id && !row.deleteFlg);
    if id in ids then Present(reports[id]) else Empty
  }

  /** Physical removal of the row with key `id`; every other row stays. */
  function DeleteById(reports: map<int, Report>, id: int): (m: map<int, Report>)
    ensures m.Keys == reports.Keys - {id}
    ensures AgreeExcept(reports, m, id)
  {
    reports - {id}
  }

  /** Every row of employee `employeeCode` dated `reportDate`, soft-deleted
      rows included. */
  function FindByEmployeeCodeAndReportDate(reports: map<int, Report>, employeeCode: string, reportDate: Date): (ids: set<int>)
    ensures forall id :: id in ids <==>
      id in reports && reports[id].employeeCode == employeeCode && reports[id].reportDate == reportDate
  {
    Where(reports, (id, r: Report) => r.employeeCode == employeeCode && r.reportDate == reportDate)
  }

  /** After a physical removal the row is gone from every query: the
      not-deleted lookup finds nothing and the date query loses exactly
      that id. */
  lemma DeleteByIdHidesRow(reports: map<int, Report>, id: int, reportDate: Date)
    ensures FindByIdAndDeleteFlgFalse(DeleteById(reports, id), id).Empty?
    ensures FindByReportDate(DeleteById(reports, id), reportDate) == FindByReportDate(reports, reportDate) - {id}
  {
  }

  /** The exclusion-by-id query is the date query minus the excluded id. */
  lemma DuplicateIsDateMatchMinusExcluded(reports: map<int, Report>, reportDate: Date, excludeId: int)
    ensures FindDuplicateReport(reports, reportDate, excludeId) == FindByReportDate(reports, reportDate) - {excludeId}
  {
  }

  /** Every visible row the date query finds for one employee is also found
      by the per-employee query, which additionally returns soft-deleted
      rows that the date query skips. */
  lemma EmployeeQueryCoversVisibleRows(reports: map<int, Report>, employeeCode: string, reportDate: Date, id: int)
    requires id in FindByReportDate(reports, reportDate)
    requires reports[id].employeeCode == employeeCode
    ensures id in FindByEmployeeCodeAndReportDate(reports, employeeCode, reportDate)
  {
  }
}
