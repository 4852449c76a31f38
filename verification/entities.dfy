/** The two persisted entities, the abstract record store that holds them,
    and the entity lifecycle hooks. Clock readings and calendar dates are
    abstract integers supplied by the caller. */
module Entities {
  import opened Constants

  /** A clock reading (the platform's local date-time). */
  type Instant = int

  /** A calendar date, as a day number. */
  type Date = int

  /** The platform's `Optional`: a query result that may be absent. */
  datatype Optional<T> = Empty | Present(value: T)

  datatype Role = Admin | General

  /** An employee row. `password` holds the encoded password, never the
      plain text supplied at registration. */
  datatype Employee = Employee(
    code: string,
    name: string,
    password: string,
    role: Role,
    deleteFlg: bool,
    createdAt: Instant,
    updatedAt: Instant)

  /** A daily report row. Every column is declared non-null, which the
      field types express; `employeeCode` is the owning employee's key. */
  datatype Report = Report(
    reportDate: Date,
    title: string,
    content: string,
    employeeCode: string,
    deleteFlg: bool,
    createdAt: Instant,
    updatedAt: Instant)

  /** Declared maximum length of the report title column. */
  const TitleMaxLength := 100

  /** The record store: employees keyed by code, reports keyed by their
      store-generated id, and the store's identity counter. */
  datatype Store = Store(
    employees: map<string, Employee>,
    reports: map<int, Report>,
    nextReportId: int)

  /** What every service operation returns: an outcome kind and the store
      after the operation. */
  datatype Outcome = Outcome(kind: ErrorKinds, store: Store)

  /** Store invariant: each employee is filed under its own code, each
      report id was issued by the identity counter, each title fits its
      column, and each report's owner is an employee row (the owner column
      is a non-null join on the employee code). */
  predicate Valid(s: Store) {
    && (forall c :: c in s.employees ==> s.employees[c].code == c)
    && (forall id :: id in s.reports ==> id < s.nextReportId)
    && (forall id :: id in s.reports ==> |s.reports[id].title| <= TitleMaxLength)
    && (forall id :: id in s.reports ==> s.reports[id].employeeCode in s.employees)
  }

  /** `m'` agrees with `m` on every key other than `key`. */
  predicate AgreeExcept<K, V(==)>(m: map<K, V>, m': map<K, V>, key: K) {
    forall k :: k in m && k != key ==> k in m' && m'[k] == m[k]
  }

  /** Insertion hook: both timestamps take the same clock reading and no
      other column changes. */
  function PrePersist(r: Report, now: Instant): (p: Report)
    ensures p.createdAt == now && p.updatedAt == now
    ensures p.(createdAt := r.createdAt, updatedAt := r.updatedAt) == r
  {
    r.(createdAt := now, updatedAt := now)
  }

  /** Update hook: only the modification timestamp changes; in particular
      the creation timestamp is preserved. */
  function PreUpdate(r: Report, now: Instant): (p: Report)
    ensures p.updatedAt == now
    ensures p.createdAt == r.createdAt
    ensures p.(updatedAt := r.updatedAt) == r
  {
    r.(updatedAt := now)
  }

  /** An update following an insertion keeps the insertion's creation time. */
  lemma PersistThenUpdateKeepsCreation(r: Report, t0: Instant, t1: Instant)
    ensures PreUpdate(PrePersist(r, t0), t1).createdAt == t0
    ensures PreUpdate(PrePersist(r, t0), t1).updatedAt == t1
  {
  }
}
