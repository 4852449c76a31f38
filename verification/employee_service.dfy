/** Employee registration, soft deletion and update rules. The password
    encoder and the clock are parameters: `encode` is an arbitrary function
    about which nothing is assumed. */
module EmployeeService {
  import opened Constants
  import opened Text
  import opened Entities

  /** The values an employee form carries into the service. */
  datatype EmployeeForm = EmployeeForm(code: string, name: string, password: string, role: Role)

  const PasswordMinLength := 8
  const PasswordMaxLength := 16
  const NameMaxLength := 20

  /** The pattern check on a password: it must match `^[A-Za-z0-9]+$`. */
  predicate IsHalfSizeCheckError(password: string) {
    !MatchesAlphanumeric(password)
  }

  /** The length check on a password, in UTF-16 code units. */
  predicate IsOutOfRangePassword(password: string) {
    Utf16Length(password) < PasswordMinLength || PasswordMaxLength < Utf16Length(password)
  }

  /** Registration password policy: the pattern is checked first, the
      length second. A password passes exactly when it is 8 to 16
      half-width alphanumeric characters. */
  function EmployeePasswordCheck(password: string): (k: ErrorKinds)
    ensures k == HalfsizeError <==> !MatchesAlphanumeric(password)
    ensures k == RangecheckError <==>
      MatchesAlphanumeric(password) && !(PasswordMinLength <= |password| <= PasswordMaxLength)
    ensures k == CheckOk <==>
      MatchesAlphanumeric(password) && PasswordMinLength <= |password| <= PasswordMaxLength
  {
    MatchedLength(password);
    if IsHalfSizeCheckError(password) then HalfsizeError
    else if IsOutOfRangePassword(password) then RangecheckError
    else CheckOk
  }

  /** Lookup by code. Soft-deleted employees are found too. */
  function FindByCode(s: Store, code: string): (r: Optional<Employee>)
    ensures r.Present? <==> code in s.employees
    ensures r.Present? ==> r.value == s.employees[code]
  {
    if code in s.employees then Present(s.employees[code]) else Empty
  }

  /** Registration. A failed check leaves the store as it was; success adds
      exactly one active employee under the form's code, with the encoded
      password and both timestamps equal to `now`. */
  function Save(s: Store, form: EmployeeForm, encode: string -> string, now: Instant): (o: Outcome)
    ensures o.kind == HalfsizeError <==> !MatchesAlphanumeric(form.password)
    ensures o.kind == RangecheckError <==>
      MatchesAlphanumeric(form.password) && !(PasswordMinLength <= |form.password| <= PasswordMaxLength)
    ensures o.kind == DuplicateError <==>
      EmployeePasswordCheck(form.password) == CheckOk && form.code in s.employees
    ensures o.kind == Success <==>
      EmployeePasswordCheck(form.password) == CheckOk && form.code !in s.employees
    ensures o.kind != Success ==> o.store == s
    ensures o.kind == Success ==>
      && o.store.reports == s.reports
      && o.store.nextReportId == s.nextReportId
      && o.store.employees.Keys == s.employees.Keys + {form.code}
      && AgreeExcept(s.employees, o.store.employees, form.code)
      && var e := o.store.employees[form.code];
         && e.code == form.code && e.name == form.name && e.role == form.role
         && e.password == encode(form.password)
         && !e.deleteFlg
         && e.createdAt == now && e.updatedAt == now
  {
    var check := EmployeePasswordCheck(form.password);
    if check != CheckOk then Outcome(check, s)
    else if FindByCode(s, form.code).Present? then Outcome(DuplicateError, s)
    else
      var e := Employee(form.code, form.name, encode(form.password), form.role, false, now, now);
      Outcome(Success, s.(employees := s.employees[form.code := e]))
  }

  /** Deletion by the signed-in employee `principalCode`. Deleting oneself
      is refused with no change; otherwise the row stays but is flagged
      deleted with a fresh modification time, and nothing else changes.
      A missing code other than the principal's is a null dereference in
      the source, hence the precondition. */
  function Delete(s: Store, code: string, principalCode: string, now: Instant): (o: Outcome)
    requires code == principalCode || code in s.employees
    ensures code == principalCode ==> o.kind == LogincheckError && o.store == s
    ensures code != principalCode ==>
      && o.kind == Success
      && o.store.reports == s.reports
      && o.store.nextReportId == s.nextReportId
      && o.store.employees.Keys == s.employees.Keys
      && AgreeExcept(s.employees, o.store.employees, code)
      && o.store.employees[code].deleteFlg
      && o.store.employees[code].updatedAt == now
      && o.store.employees[code].(deleteFlg := false, updatedAt := s.employees[code].updatedAt)
         == s.employees[code].(deleteFlg := false)
  {
    if code == principalCode then Outcome(LogincheckError, s)
    else
      var e := FindByCode(s, code).value;
      Outcome(Success, s.(employees := s.employees[code := e.(updatedAt := now, deleteFlg := true)]))
  }

  /** The validation part of an update, in the source's order: name empty,
      name longer than 20, then, only for a non-empty password, its length
      before its pattern. */
  function UpdateCheck(form: EmployeeForm): (k: ErrorKinds)
    ensures k in {BlankError, RangecheckError, HalfsizeError, CheckOk}
    ensures k == BlankError <==> form.name == []
    ensures form.name != [] && Utf16Length(form.name) > NameMaxLength ==> k == RangecheckError
    ensures (form.name != [] && Utf16Length(form.name) <= NameMaxLength &&
             form.password != [] && IsOutOfRangePassword(form.password)) ==> k == RangecheckError
    ensures k == HalfsizeError <==>
      && form.name != [] && Utf16Length(form.name) <= NameMaxLength
      && form.password != [] && !IsOutOfRangePassword(form.password)
      && !MatchesAlphanumeric(form.password)
    ensures k == CheckOk <==>
      && form.name != [] && Utf16Length(form.name) <= NameMaxLength
      && (form.password == [] ||
          (MatchesAlphanumeric(form.password) && PasswordMinLength <= |form.password| <= PasswordMaxLength))
  {
    MatchedLength(form.password);
    if form.name == [] then BlankError
    else if Utf16Length(form.name) > NameMaxLength then RangecheckError
    else if form.password != [] && IsOutOfRangePassword(form.password) then RangecheckError
    else if form.password != [] && !MatchesAlphanumeric(form.password) then HalfsizeError
    else CheckOk
  }

  /** Field-by-field update of the employee filed under `form.code`. A
      failed check leaves the store as it was. On success only the name,
      role, password and modification time change: an empty password keeps
      the stored hash, a non-empty one is replaced by its encoding. The
      source dereferences the stored row once the checks pass, so that row
      must exist unless a check fails. */
  function Update(s: Store, form: EmployeeForm, encode: string -> string, now: Instant): (o: Outcome)
    requires form.code in s.employees || UpdateCheck(form) != CheckOk
    ensures o.kind != Success ==> o.kind == UpdateCheck(form) && o.store == s
    ensures o.kind == Success <==> UpdateCheck(form) == CheckOk
    ensures o.kind == Success ==>
      && o.store.reports == s.reports
      && o.store.nextReportId == s.nextReportId
      && o.store.employees.Keys == s.employees.Keys
      && AgreeExcept(s.employees, o.store.employees, form.code)
      && var before := s.employees[form.code];
         var after := o.store.employees[form.code];
         && after.code == before.code
         && after.deleteFlg == before.deleteFlg
         && after.createdAt == before.createdAt
         && after.name == form.name
         && after.role == form.role
         && after.updatedAt == now
         && (form.password == [] ==> after.password == before.password)
         && (form.password != [] ==> after.password == encode(form.password))
  {
    var check := UpdateCheck(form);
    if check != CheckOk then Outcome(check, s)
    else
      var existing := FindByCode(s, form.code).value;
      var password := if form.password != [] then encode(form.password) else existing.password;
      var merged := existing.(password := password, name := form.name, role := form.role, updatedAt := now);
      Outcome(Success, s.(employees := s.employees[form.code := merged]))
  }

  /** Registration keeps the store invariant. */
  lemma SavePreservesValid(s: Store, form: EmployeeForm, encode: string -> string, now: Instant)
    requires Valid(s)
    ensures Valid(Save(s, form, encode, now).store)
  {
  }

  /** Soft deletion keeps the store invariant. */
  lemma DeletePreservesValid(s: Store, code: string, principalCode: string, now: Instant)
    requires Valid(s)
    requires code == principalCode || code in s.employees
    ensures Valid(Delete(s, code, principalCode, now).store)
  {
  }

  /** Update keeps the store invariant. */
  lemma UpdatePreservesValid(s: Store, form: EmployeeForm, encode: string -> string, now: Instant)
    requires Valid(s)
    requires form.code in s.employees || UpdateCheck(form) != CheckOk
    ensures Valid(Update(s, form, encode, now).store)
  {
  }

  /** The two password checks apply their rules in opposite orders: a short
      password with a symbol is a pattern error at registration but a
      length error at update. */
  lemma PasswordCheckOrderDiffers()
    ensures EmployeePasswordCheck("ab!") == HalfsizeError
    ensures UpdateCheck(EmployeeForm("E001", "Taro", "ab!", General)) == RangecheckError
  {
  }

  /** Apart from which error is reported, registration and update accept
      the same non-empty passwords. */
  lemma PasswordPoliciesAgree(form: EmployeeForm)
    requires form.name != [] && Utf16Length(form.name) <= NameMaxLength
    requires form.password != []
    ensures UpdateCheck(form) == CheckOk <==> EmployeePasswordCheck(form.password) == CheckOk
  {
  }

  /** Repeating an update with the same form only moves the modification
      time. */
  lemma UpdateIdempotent(s: Store, form: EmployeeForm, encode: string -> string, t0: Instant, t1: Instant)
    requires form.code in s.employees
    ensures Update(Update(s, form, encode, t0).store, form, encode, t1) == Update(s, form, encode, t1)
  {
  }

  /** Registration after registration of the same code is refused as a
      duplicate and leaves the first row untouched. */
  lemma RegisterTwiceIsDuplicate(s: Store, form: EmployeeForm, encode: string -> string, t0: Instant, t1: Instant)
    requires Save(s, form, encode, t0).kind == Success
    ensures Save(Save(s, form, encode, t0).store, form, encode, t1).kind == DuplicateError
    ensures Save(Save(s, form, encode, t0).store, form, encode, t1).store == Save(s, form, encode, t0).store
  {
  }

  /** A deleted employee is still found by code, now flagged deleted, so its
      code can never be registered again. */
  lemma DeletedEmployeeStillFound(s: Store, code: string, principalCode: string, form: EmployeeForm,
                                  encode: string -> string, now: Instant, later: Instant)
    requires code in s.employees && code != principalCode
    requires form.code == code && EmployeePasswordCheck(form.password) == CheckOk
    ensures FindByCode(Delete(s, code, principalCode, now).store, code).Present?
    ensures FindByCode(Delete(s, code, principalCode, now).store, code).value.deleteFlg
    ensures Save(Delete(s, code, principalCode, now).store, form, encode, later).kind == DuplicateError
  {
  }
}
