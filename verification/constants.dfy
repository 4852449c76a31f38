/** The outcome taxonomy shared by every service operation: each business
    rule violation is reported as one of these kinds, never as a fault. */
module Constants {

  datatype ErrorKinds =
    | BlankError              // a required value is empty
    | HalfsizeError           // a password is not entirely half-width alphanumeric
    | RangecheckError         // a length is outside its permitted range
    | NameBlankError
    | NameRangeError
    | PasswordBlankError
    | PasswordRangeError
    | PasswordHalfsizeError
    | DuplicateExceptionError // duplicate detected through a store exception
    | DuplicateError          // duplicate detected by a lookup
    | LogincheckError         // the signed-in employee tried to delete itself
    | DatecheckError          // a report already exists for that employee and date
    | CheckOk                 // a pre-check passed
    | Success                 // the operation completed
}
