/** The checks the `register` view makes, in the order it makes them. */
module Registration {
  import opened Wrappers

  datatype RegisterError =
    | MissingField       // "Please fill in all fields."
    | WeakPassword       // "Password must be at least 8 characters long."
    | PasswordMismatch   // "Passwords must match."
    | EmailTaken         // "Email address already taken."

  const MinPasswordLength: nat := 8

  /** A form field that was sent and is not the empty string (Python truthiness). */
  predicate Filled(field: Option<string>) {
    field.Some? && field.value != ""
  }

  /**
   * The validation ladder: missing field, then short password, then
   * mismatched confirmation, then an address already in `taken`. On success
   * the address the new account gets.
   */
  function CheckRegistration(email: Option<string>, password: Option<string>, confirmation: Option<string>,
                             taken: set<string>): (r: Result<string, RegisterError>)
    ensures r == Failure(MissingField) <==> !(Filled(email) && Filled(password) && Filled(confirmation))
    ensures r == Failure(WeakPassword) <==>
      Filled(email) && Filled(password) && Filled(confirmation) && |password.value| < MinPasswordLength
    ensures r == Failure(PasswordMismatch) <==>
      Filled(email) && Filled(password) && Filled(confirmation) && |password.value| >= MinPasswordLength
      && password.value != confirmation.value
    ensures r == Failure(EmailTaken) <==>
      Filled(email) && Filled(password) && Filled(confirmation) && |password.value| >= MinPasswordLength
      && password.value == confirmation.value && email.value in taken
    ensures r.Success? <==>
      Filled(email) && Filled(password) && Filled(confirmation) && |password.value| >= MinPasswordLength
      && password.value == confirmation.value && email.value !in taken
    ensures r.Success? ==> r.value == email.value && r.value != ""
  {
    if !(Filled(email) && Filled(password) && Filled(confirmation)) then Failure(MissingField)
    else if |password.value| < MinPasswordLength then Failure(WeakPassword)
    else if password.value != confirmation.value then Failure(PasswordMismatch)
    else if email.value in taken then Failure(EmailTaken)
    else Success(email.value)
  }

  /**
   * The existing accounts are consulted last: a request that fails a form
   * check fails it in the same way whichever addresses are taken.
   */
  lemma FormChecksPrecedeUniqueness(email: Option<string>, password: Option<string>, confirmation: Option<string>,
                                    taken1: set<string>, taken2: set<string>)
    requires CheckRegistration(email, password, confirmation, {}).Failure?
    ensures CheckRegistration(email, password, confirmation, taken1) == CheckRegistration(email, password, confirmation, taken2)
  {
  }
}
