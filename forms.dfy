/**
 * tiny/forms.py: the registration and sign-in forms. Each field keeps the
 * list of errors its validators produced; `Validate` refills those lists
 * the way the form library does (every field checked, lists reset) and then
 * runs the form's own database checks, which append to one field's list.
 */
module Forms {
  import opened Common
  import opened Models
  import Passwords

  const Required := "This field is required."
  const InvalidEmail := "Invalid email address."
  const PasswordsMustMatch := "Passwords must match"
  const AccountExists := "There is already an account with that email"
  const NoAccount := "There is no account with this email"
  const IncorrectPassword := "Incorrect password"

  /** The message of `Length(min, max)`. */
  function LengthMessage(min: nat, max: nat): string
  {
    "Field must be between " + NatToString(min) + " and " + NatToString(max) + " characters long."
  }

  function NatToString(n: nat): string
  {
    if n < 10 then [DigitChar(n)] else NatToString(n / 10) + [DigitChar(n % 10)]
  }

  function DigitChar(d: nat): char
    requires d < 10
  {
    "0123456789"[d]
  }

  /** `DataRequired()`: the data is missing or only whitespace. */
  predicate Missing(data: string)
  {
    Strip(data) == ""
  }

  /**
   * `[DataRequired(), Email()]` on the e-mail field. `emailFormatOk` is the
   * verdict of the library's `Email()` check on this data.
   */
  function EmailErrors(email: string, emailFormatOk: bool): (errs: seq<string>)
    ensures errs == [] <==> !Missing(email) && emailFormatOk
    ensures |errs| <= 1
  {
    if Missing(email) then [Required]
    else if !emailFormatOk then [InvalidEmail]
    else []
  }

  /** `[DataRequired(), Length(min=4, max=20)]` on the display name. */
  function DisplayNameErrors(displayName: string): (errs: seq<string>)
    ensures errs == [] <==> !Missing(displayName) && 4 <= |displayName| <= 20
    ensures |errs| <= 1
  {
    if Missing(displayName) then [Required]
    else if |displayName| < 4 || |displayName| > 20 then [LengthMessage(4, 20)]
    else []
  }

  /**
   * `[DataRequired(), EqualTo("confirmation"), Length(min=6, max=20)]` on the
   * password: a missing password stops the chain; otherwise the last two
   * checks both run and each may add its message.
   */
  function PasswordErrors(password: string, confirmation: string): (errs: seq<string>)
    ensures errs == [] <==> !Missing(password) && password == confirmation && 6 <= |password| <= 20
    ensures Missing(password) ==> errs == [Required]
    ensures !Missing(password) && password != confirmation ==> PasswordsMustMatch in errs
  {
    if Missing(password) then [Required]
    else
      (if password != confirmation then [PasswordsMustMatch] else [])
      + (if |password| < 6 || |password| > 20 then [LengthMessage(6, 20)] else [])
  }

  /** Every validator of the registration form's fields passes. */
  predicate RegistrationFieldsValid(email: string, displayName: string, password: string, confirmation: string,
                                    emailFormatOk: bool)
  {
    && EmailErrors(email, emailFormatOk) == []
    && DisplayNameErrors(displayName) == []
    && PasswordErrors(password, confirmation) == []
  }

  /** `RegistrationForm.validate()` returns true. */
  predicate RegistrationAccepted(email: string, displayName: string, password: string, confirmation: string,
                                 emailFormatOk: bool, users: seq<User>)
  {
    RegistrationFieldsValid(email, displayName, password, confirmation, emailFormatOk)
    && FindByEmail(users, email).None?
  }

  /** Every validator of the sign-in form's fields passes. */
  predicate SignInFieldsValid(email: string, password: string, emailFormatOk: bool)
  {
    EmailErrors(email, emailFormatOk) == [] && !Missing(password)
  }

  /** `SignInForm.validate()` returns true. */
  predicate SignInAccepted(email: string, password: string, emailFormatOk: bool, users: seq<User>)
  {
    && SignInFieldsValid(email, password, emailFormatOk)
    && FindByEmail(users, email).Some?
    && Passwords.Verify(password, FindByEmail(users, email).value.password)
  }

  class RegistrationForm {
    const email: string
    const displayName: string
    const password: string
    const confirmation: string
    var emailErrors: seq<string>
    var displayNameErrors: seq<string>
    var passwordErrors: seq<string>
    var confirmationErrors: seq<string>

    /** `RegistrationForm(request.form)`. */
    constructor (email: string, displayName: string, password: string, confirmation: string)
      ensures this.email == email && this.displayName == displayName
      ensures this.password == password && this.confirmation == confirmation
      ensures emailErrors == [] && displayNameErrors == [] && passwordErrors == [] && confirmationErrors == []
    {
      this.email, this.displayName := email, displayName;
      this.password, this.confirmation := password, confirmation;
      emailErrors, displayNameErrors, passwordErrors, confirmationErrors := [], [], [], [];
    }

    /**
     * `validate()`: the field validators first; only when they all pass is
     * the e-mail looked up, and a taken e-mail appends one error to the
     * e-mail field alone.
     */
    method Validate(users: seq<User>, emailFormatOk: bool) returns (ok: bool)
      modifies this
      ensures displayNameErrors == DisplayNameErrors(displayName)
      ensures passwordErrors == PasswordErrors(password, confirmation)
      ensures confirmationErrors == []
      ensures !RegistrationFieldsValid(email, displayName, password, confirmation, emailFormatOk) ==>
                !ok && emailErrors == EmailErrors(email, emailFormatOk)
      ensures RegistrationFieldsValid(email, displayName, password, confirmation, emailFormatOk)
              && FindByEmail(users, email).Some? ==>
                !ok && emailErrors == [AccountExists]
      ensures ok <==> RegistrationAccepted(email, displayName, password, confirmation, emailFormatOk, users)
      ensures ok ==> emailErrors == []
    {
      var errs := EmailErrors(email, emailFormatOk);
      displayNameErrors := DisplayNameErrors(displayName);
      passwordErrors := PasswordErrors(password, confirmation);
      confirmationErrors := [];
      var fieldsOk := RegistrationFieldsValid(email, displayName, password, confirmation, emailFormatOk);
      ok := fieldsOk;
      if fieldsOk && FindByEmail(users, email).Some? {
        errs := errs + [AccountExists];
        ok := false;
      }
      emailErrors := errs;
    }
  }

  class SignInForm {
    const email: string
    const password: string
    var emailErrors: seq<string>
    var passwordErrors: seq<string>

    /** `SignInForm(request.form)`. */
    constructor (email: string, password: string)
      ensures this.email == email && this.password == password
      ensures emailErrors == [] && passwordErrors == []
    {
      this.email, this.password := email, password;
      emailErrors, passwordErrors := [], [];
    }

    /**
     * `validate()`: field validators, then the account lookup, then the
     * password check. An unknown e-mail stops before the password is
     * checked; each failure appends to its own field.
     */
    method Validate(users: seq<User>, emailFormatOk: bool) returns (ok: bool)
      modifies this
      ensures !SignInFieldsValid(email, password, emailFormatOk) ==>
                !ok && emailErrors == EmailErrors(email, emailFormatOk)
                && passwordErrors == (if Missing(password) then [Required] else [])
      ensures SignInFieldsValid(email, password, emailFormatOk) && FindByEmail(users, email).None? ==>
                !ok && emailErrors == [NoAccount] && passwordErrors == []
      ensures SignInFieldsValid(email, password, emailFormatOk) && FindByEmail(users, email).Some?
              && !Passwords.Verify(password, FindByEmail(users, email).value.password) ==>
                !ok && emailErrors == [] && passwordErrors == [IncorrectPassword]
      ensures ok <==> SignInAccepted(email, password, emailFormatOk, users)
      ensures ok ==> emailErrors == [] && passwordErrors == []
    {
      emailErrors := EmailErrors(email, emailFormatOk);
      passwordErrors := if Missing(password) then [Required] else [];
      if !SignInFieldsValid(email, password, emailFormatOk) {
        return false;
      }
      var user := FindByEmail(users, email);
      if user.None? {
        emailErrors := emailErrors + [NoAccount];
        return false;
      }
      if !Passwords.Verify(password, user.value.password) {
        passwordErrors := passwordErrors + [IncorrectPassword];
        return false;
      }
      return true;
    }
  }

  /**
   * Once a registration is accepted and its user stored with the hash of its
   * password, signing in with that e-mail succeeds for exactly that password,
   * and registering the same e-mail again is refused.
   */
  lemma RegisteredUserSignsIn(users: seq<User>, u: User, p: string, confirmation: string, emailFormatOk: bool,
                              q: string, signInFormatOk: bool)
    requires RegistrationAccepted(u.email, u.displayName, p, confirmation, emailFormatOk, users)
    requires u.password == Passwords.Hash(p)
    ensures SignInAccepted(u.email, q, signInFormatOk, users + [u]) <==>
              SignInFieldsValid(u.email, q, signInFormatOk) && q == p
    ensures forall dn, p', c', ok' :: !RegistrationAccepted(u.email, dn, p', c', ok', users + [u])
  {
    var all := users + [u];
    assert FindByEmail(all, u.email) == Some(u) by {
      assert all[|users|] == u;
      assert forall m :: 0 <= m < |users| ==> all[m].email != u.email;
    }
    Passwords.VerifyHash(q, p);
  }
}
