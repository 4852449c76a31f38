# Employee and daily-report record rules, modelled in Dafny

This project models the record lifecycle rules of a personnel and
daily-report administration backend: how employees are registered, updated
and soft-deleted, how daily reports are created, updated, looked up and
physically deleted, and how deleting an employee first removes that
employee's reports.

The whole system state is one immutable `Store`: employees keyed by their
code, reports keyed by their store-generated id, and the store's identity
counter (`nextReportId`), which is how a new report gets a key no other row
has. Every operation is a pure function from a store and its inputs to an
`Outcome`: an `ErrorKinds` value and the next store. The clock is an `Instant`
argument. The password encoder is a function argument (`encode`) about which
nothing is assumed.

Modules follow the source files:

- `Constants`: the `ErrorKinds` outcome taxonomy.
- `Text`: the `[A-Za-z0-9]` pattern, and string length in UTF-16 code units. It also holds `IsWhitespace` and `IsBlank`, the platform's white-space and blank tests that report creation applies to title and content (src/main/java/com/techacademy/service/ReportService.java:68).
- `Entities`: `Employee`, `Report`, `Store`, the store invariant `Valid`, and the report persist/update hooks. `Valid` says that every employee is filed under its own code, that every report id is below the identity counter, that every title fits its 100-character column, and that every report's owner is an employee row (the owner column is a non-null join on the employee code).
- `ReportRepository`: the report queries, as filters over the report map.
- `EmployeeService` and `ReportService`: the business rules. The predicates `EmployeeService.IsHalfSizeCheckError` and `EmployeeService.IsOutOfRangePassword` are the two password checks of src/main/java/com/techacademy/service/EmployeeService.java:104-119. `EmployeePasswordCheck` and `UpdateCheck` state their meaning.
- `EmployeeController`: the registration guard, the exception mapping, and the deletion cascade.

Points where the code's behaviour is worth noting:

- Report deletion is physical. Employee deletion is a soft delete.
- The date check at report creation counts soft-deleted rows as well.
- The stored report keeps the employee of the form. The date check uses the employee code argument. `ReportService.CreateWithForeignFormBreaksUniqueness` shows what follows when the two differ.
- Report update performs no validation and no duplicate rejection. It also updates soft-deleted rows.
- `isDateDuplicate` ignores its employee argument.
- The update password check tests length before pattern. Registration tests pattern before length.
- Lengths are measured as the platform measures them: in UTF-16 code units (`Text.Utf16Length`).
- The report update hook runs only when the entity actually changed. An update that changes nothing therefore keeps `updatedAt`.
- Employee lookup by code does not filter soft-deleted rows. The comment at src/main/java/com/techacademy/controller/EmployeeController.java:116 suggests that the deployed employee entity may filter them. That entity is not part of this model.

## Model

| member | source | states |
|---|---|---|
| Text.Utf16Length | src/main/java/com/techacademy/service/EmployeeService.java:117 | a string's length as the platform counts it is at least its character count and at most twice that, and is zero only for the empty string |
| Text.Utf16LengthOfAlphanumeric | src/main/java/com/techacademy/service/EmployeeService.java:104-119 | on `[A-Za-z0-9]` text the platform length equals the character count, so the 8–16 check counts characters |
| EmployeeService.EmployeePasswordCheck | src/main/java/com/techacademy/service/EmployeeService.java:86-119 | the pattern error is returned exactly when the password is not entirely `[A-Za-z0-9]`, empty included; the range error exactly when the pattern matches but the length is outside 8..16; the check passes exactly for 8–16 alphanumeric characters |
| EmployeeService.FindByCode | src/main/java/com/techacademy/service/EmployeeService.java:77-83 | present exactly when the code is a key, soft-deleted rows included, and then it is that row |
| EmployeeService.Save | src/main/java/com/techacademy/service/EmployeeService.java:32-53 | each refusal kind holds exactly under its condition (pattern, then range, then existing code, soft-deleted codes included) and leaves the store unchanged; success adds exactly one key, the form's code, holding an active employee with the encoded password and creation time equal to modification time equal to the clock, and no other row changes |
| EmployeeService.Delete | src/main/java/com/techacademy/service/EmployeeService.java:57-69 | deleting the principal's own code is refused with the login-check kind and changes nothing; otherwise the row stays, is flagged deleted with a fresh modification time, no other column or row changes, and the result is success |
| EmployeeService.UpdateCheck | src/main/java/com/techacademy/service/EmployeeService.java:129-148 | the blank kind exactly when the name is empty; a name over 20 is out of range; with a valid name, a non-empty password outside 8..16 units is out of range, and the pattern kind is returned exactly when the password is non-empty, within 8..16 units and not alphanumeric; the checks pass exactly for a valid name and an empty or 8–16 alphanumeric password |
| EmployeeService.Update | src/main/java/com/techacademy/service/EmployeeService.java:123-169 | a refusal returns the check's kind with no change; on success only name, role, password and modification time change, with code, deleted flag and creation time kept, an empty password keeping the stored hash and a non-empty one replaced by its encoding |
| EmployeeService.SavePreservesValid | src/main/java/com/techacademy/service/EmployeeService.java:32-53 | registration keeps every employee filed under its own code and every report row as it was |
| EmployeeService.DeletePreservesValid | src/main/java/com/techacademy/service/EmployeeService.java:57-69 | soft deletion keeps the store invariant |
| EmployeeService.UpdatePreservesValid | src/main/java/com/techacademy/service/EmployeeService.java:123-169 | update keeps the store invariant, since the code of the updated row is never rewritten |
| EmployeeService.PasswordPoliciesAgree | src/main/java/com/techacademy/service/EmployeeService.java:86-148 | for a valid name and a non-empty password, update accepts the password exactly when registration does; only the reported error differs |
| EmployeeService.UpdateIdempotent | src/main/java/com/techacademy/service/EmployeeService.java:123-169 | repeating an update with the same form gives the same store as a single update at the later time |
| EmployeeService.PasswordCheckOrderDiffers | src/main/java/com/techacademy/service/EmployeeService.java:138-148 | a short password with a symbol is a pattern error at registration but a range error at update |
| EmployeeService.RegisterTwiceIsDuplicate | src/main/java/com/techacademy/service/EmployeeService.java:41-43 | registering the same code again is a duplicate and leaves the first registration's store unchanged |
| EmployeeService.DeletedEmployeeStillFound | src/main/java/com/techacademy/service/EmployeeService.java:77-83 | after a soft delete the code is still found, flagged deleted, and a new registration under it is a duplicate |
| Entities.PrePersist | src/main/java/com/techacademy/entity/Report.java:58-63 | both timestamps take the same clock reading and no other column changes |
| Entities.PreUpdate | src/main/java/com/techacademy/entity/Report.java:66-69 | only the modification time changes; the creation time and every other column are kept |
| Entities.PersistThenUpdateKeepsCreation | src/main/java/com/techacademy/entity/Report.java:58-69 | an update after an insertion keeps the insertion's creation time and sets the new modification time |
| ReportRepository.FindByReportDate | src/main/java/com/techacademy/repository/ReportRepository.java:14-15 | matches exactly the non-deleted rows with the given date |
| ReportRepository.FindDuplicateReport | src/main/java/com/techacademy/repository/ReportRepository.java:18-19 | matches exactly the non-deleted rows with the given date and an id other than the excluded one, whoever owns them |
| ReportRepository.FindByIdAndDeleteFlgFalse | src/main/java/com/techacademy/repository/ReportRepository.java:22 | present exactly when the id exists and is not soft-deleted, and then it is that row |
| ReportRepository.DeleteById | src/main/java/com/techacademy/repository/ReportRepository.java:24-25 | removes exactly that key and leaves every other row as it was |
| ReportRepository.DeleteByIdHidesRow | src/main/java/com/techacademy/repository/ReportRepository.java:14-25 | after a physical removal the not-deleted lookup finds nothing under that id, and the date query loses exactly that id |
| ReportRepository.FindByEmployeeCodeAndReportDate | src/main/java/com/techacademy/repository/ReportRepository.java:27 | matches exactly the rows of that employee on that date, soft-deleted rows included |
| ReportRepository.DuplicateIsDateMatchMinusExcluded | src/main/java/com/techacademy/repository/ReportRepository.java:14-19 | the exclusion query equals the date query minus the excluded id |
| ReportRepository.EmployeeQueryCoversVisibleRows | src/main/java/com/techacademy/repository/ReportRepository.java:27 | every visible row of an employee on a date is also found by the per-employee query |
| ReportService.FindById | src/main/java/com/techacademy/service/ReportService.java:37-40 | present exactly when the id exists and the row is not soft-deleted, and then it is that row |
| ReportService.DeleteReportTwice | src/main/java/com/techacademy/service/ReportService.java:44-53 | a second deletion of the same report is reported as blank and changes nothing |
| ReportService.CreatedReportIsDateDuplicate | src/main/java/com/techacademy/service/ReportService.java:56-83 | a created report is visible under the counter's value and makes its date a duplicate for every other id and any employee argument |
| ReportService.UpdateKeepsVisibility | src/main/java/com/techacademy/service/ReportService.java:86-112 | an update never changes which ids the visible lookup finds |
| ReportService.FindByIdMatchesRepository | src/main/java/com/techacademy/service/ReportService.java:37-40 | the service lookup agrees with the repository's not-deleted query on every id |
| ReportService.DeleteReport | src/main/java/com/techacademy/service/ReportService.java:44-53 | a visible report's key is removed with every other row kept and success returned; an absent or soft-deleted id gives the blank kind with no change; either way the id is not visible afterwards |
| ReportService.DeletePreservesOneVisiblePerDay | src/main/java/com/techacademy/service/ReportService.java:44-50 | deletion keeps at most one visible report per employee and date |
| ReportService.DeleteFreesDateSlot | src/main/java/com/techacademy/service/ReportService.java:44-50 | after deleting an employee's only report for a date, no row of that employee remains on that date |
| ReportService.IsDateDuplicate | src/main/java/com/techacademy/service/ReportService.java:56-59 | true exactly when some non-deleted report has that date and a different id; the employee argument does not appear |
| ReportService.IsDateDuplicateIgnoresEmployee | src/main/java/com/techacademy/service/ReportService.java:56-58 | the answer is the same for any two employee codes |
| ReportService.DateDuplicateAcrossEmployees | src/main/java/com/techacademy/service/ReportService.java:56-58 | one employee's report makes the same date a duplicate for another employee |
| ReportService.CreateReport | src/main/java/com/techacademy/service/ReportService.java:67-83 | the blank kind exactly when title or content is empty or white space; the date kind exactly when they are not and some row of that employee on that date exists, soft-deleted included; both leave the store unchanged; success adds exactly one row under the counter's next value with the form's columns, not deleted, and equal creation and modification times; when the checks pass, the store must accept the insert (title within its column, owner an employee row) |
| ReportService.CreatePreservesOneVisiblePerDay | src/main/java/com/techacademy/service/ReportService.java:67-83 | when the form's employee is the checked one, creation keeps at most one visible report per employee and date |
| ReportService.CreateWithForeignFormBreaksUniqueness | src/main/java/com/techacademy/service/ReportService.java:73-81 | when the form names another employee than the one checked, creation can leave two visible reports for one employee and date |
| ReportService.DailyReportScenario | src/main/java/com/techacademy/service/ReportService.java:67-83 | on an empty report table a first report succeeds, a second for the same employee and date is refused, and one for the next date succeeds |
| ReportService.Update | src/main/java/com/techacademy/service/ReportService.java:86-112 | an existing id, soft-deleted or not, gets the form's title, content and date, keeping owner, deleted flag and creation time, and success is returned; the row is unchanged exactly when those three already matched, and otherwise its modification time becomes the clock reading; a missing id gives the duplicate-exception kind with no change |
| ReportService.UpdateCanBreakUniqueness | src/main/java/com/techacademy/service/ReportService.java:88-93 | since the duplicate loop does nothing, moving a report onto a date its owner already used leaves two visible reports on that date |
| ReportService.ReportOperationsPreserveValid | src/main/java/com/techacademy/entity/Report.java:24-34 | deletion, creation and update keep every report id below the identity counter, every title within 100 characters and every report owned by an employee row |
| EmployeeController.Add | src/main/java/com/techacademy/controller/EmployeeController.java:101-136 | an empty password is blank before the service runs, with no change; a store integrity violation on the insert becomes the duplicate-exception kind with no change; otherwise the service's outcome is returned |
| EmployeeController.EmptyPasswordIsBlankNotHalfsize | src/main/java/com/techacademy/controller/EmployeeController.java:104-109 | for an empty password the service alone reports a pattern error, the endpoint a blank error |
| EmployeeController.CascadeReports | src/main/java/com/techacademy/controller/EmployeeController.java:143-149 | only rows of the target employee can disappear; every other employee's row and every soft-deleted row survives unchanged; no visible row of the target remains |
| EmployeeController.RunCascade | src/main/java/com/techacademy/controller/EmployeeController.java:143-149 | the loop over all reports, in any order, removes exactly the visible reports of the target, leaves all other rows unchanged, and leaves employees and the identity counter alone |
| EmployeeController.Delete | src/main/java/com/techacademy/controller/EmployeeController.java:139-152 | the reports after deletion are the cascade's result whatever the outcome; a self-delete is refused with employees unchanged; any other delete soft-deletes the target |
| EmployeeController.DeleteEndpoint | src/main/java/com/techacademy/controller/EmployeeController.java:139-152 | the loop-based endpoint produces the same outcome and store as the reference deletion |
| EmployeeController.SelfDeleteStillCascades | src/main/java/com/techacademy/controller/EmployeeController.java:141-152 | a self-delete attempt returns the login-check kind and leaves the actor active, yet the actor's visible reports are gone |
| EmployeeController.CascadeIdempotent | src/main/java/com/techacademy/controller/EmployeeController.java:143-149 | running the cascade a second time changes nothing |
| EmployeeController.CascadePreserves | src/main/java/com/techacademy/controller/EmployeeController.java:139-152 | employee deletion with its cascade keeps the store invariant and at most one visible report per employee and date |

## Left out

- Routing, view names, redirects, model attributes, form binding and binding-result checks. This includes the clearing of the password field on the edit screen. None of these carries a rule of the core.
- The report endpoints themselves. They only call service operations that are modelled: `isDateDuplicate` and `createReport` when adding, `deleteReport` when deleting, and `findById` for the detail and update screens. The employee update mounted under the report paths is not modelled.
- Error message lookup. The message class is not part of this model.
- Password hashing. `encode` is an arbitrary function. The model makes no claim that a hash differs from its plain text.
- Time. `LocalDateTime.now()` is the `now` argument. The insert hook and the service read the same clock value.
- Transactions, persistence-context flushing and concurrency. The soft delete relies on an implicit flush; the model takes the mutation as applied. The check-then-act race between a duplicate check and its insert is not modelled.
- The regular-expression engine. The pattern `^[A-Za-z0-9]+$` is the predicate `Text.MatchesAlphanumeric`.
- Queries declared to return one optional row are modelled by the set of ids they match. The exception raised when several rows match is not modelled. The three-valued comparison with a null excluded id is not modelled either: `excludeId` is always an integer.
- Null inputs: a null form, title, content, name or password, and a report form without an employee.
- EmployeeService.Delete: requires the code to exist unless it is the principal's own code. The source dereferences a missing row there (null pointer).
- EmployeeService.Update: requires the code to exist unless a check fails. The source dereferences a missing row there (null pointer).
- EmployeeController.Delete: requires the same as `EmployeeService.Delete`. The cascade's partial effect before a null dereference on a missing code is not modelled.
- ReportService.CreateReport: when the service's checks pass, requires the title to fit its 100-character column and the form's employee to be an employee row. The store rejects any other insert with an exception that the service does not translate. That rejection is not modelled as an outcome.
- ReportService.Update: when the row exists, requires the title to fit its 100-character column, for the same reason.
- EmployeeController.Add: the store's integrity verdict on the insert is the `storeRefuses` argument. The employee entity's constraints are not part of this model.
- Integer ids are unbounded. Overflow of the identity counter is not modelled.
- Listing all employees or all reports is a read of the maps, with no rule attached.
