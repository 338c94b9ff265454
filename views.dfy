/**
 * tiny/views.py: the earliest form-driven routes. Registration and sign-in
 * go through the forms of tiny/forms.py, and the signed-in user is the
 * `email` entry of the session.
 */
module Views {
  import opened Common
  import opened Models
  import TinyStore
  import Forms
  import Passwords

  /**
   * The user `register` stores: what the form holds, the password hashed,
   * the moment of registration, and no avatar (the field stays unset).
   */
  function NewUser(id: Id, email: string, displayName: string, password: string, now: int): User
  {
    User(id, email, displayName, Passwords.Hash(password), "", now)
  }

  /**
   * `register`: on a POST whose form validates, one user is stored, the
   * session's `email` becomes that user's e-mail and the visitor goes to the
   * profile page; otherwise the form is shown again and nothing changes.
   * `newId` is the ObjectId the driver assigns and `now` the clock.
   */
  method Register(db: TinyStore.Database, session: Session, verb: HttpMethod,
                  email: string, displayName: string, password: string, confirmation: string,
                  emailFormatOk: bool, newId: Id, now: int) returns (r: Response)
    requires Valid(db.State())
    requires FindById(db.users, newId).None?
    modifies db, session
    ensures Valid(db.State())
    ensures verb == POST && Forms.RegistrationAccepted(email, displayName, password, confirmation, emailFormatOk, old(db.users)) ==>
              && db.users == old(db.users) + [NewUser(newId, email, displayName, password, now)]
              && session.data == old(session.data)["email" := email]
              && r == Redirect(Url("/profile"), NoFlash)
    ensures !(verb == POST && Forms.RegistrationAccepted(email, displayName, password, confirmation, emailFormatOk, old(db.users))) ==>
              && db.users == old(db.users)
              && session.data == old(session.data)
              && r == Page("register.html")
    ensures db.posts == old(db.posts) && db.comments == old(db.comments)
  {
    var form := new Forms.RegistrationForm(email, displayName, password, confirmation);
    var valid := false;
    if verb == POST {
      valid := form.Validate(db.users, emailFormatOk);
    }
    if !valid {
      return Page("register.html");
    }
    var saved := db.InsertUser(NewUser(newId, email, displayName, password, now));
    session.Set("email", email);
    return Redirect(Url("/profile"), NoFlash);
  }

  /**
   * `sign_in`: on a POST whose form validates, the session's `email` becomes
   * the e-mail of the account found and the visitor goes to `next`, or to
   * the index when it is missing or empty; otherwise nothing changes.
   */
  method SignIn(db: TinyStore.Database, session: Session, verb: HttpMethod,
                email: string, password: string, emailFormatOk: bool, next: Arg) returns (r: Response)
    modifies session
    ensures verb == POST && Forms.SignInAccepted(email, password, emailFormatOk, db.users) ==>
              && session.data == old(session.data)["email" := email]
              && r == Redirect(NextOr(next, Endpoint("index", None)), NoFlash)
    ensures !(verb == POST && Forms.SignInAccepted(email, password, emailFormatOk, db.users)) ==>
              && session.data == old(session.data)
              && r == Page("sign_in.html")
  {
    var form := new Forms.SignInForm(email, password);
    var valid := false;
    if verb == POST {
      valid := form.Validate(db.users, emailFormatOk);
    }
    if !valid {
      return Page("sign_in.html");
    }
    var user := FindByEmail(db.users, email);
    session.Set("email", user.value.email);
    return Redirect(NextOr(next, Endpoint("index", None)), NoFlash);
  }

  /** `logout`: only the `email` entry goes, and a missing one is no error. */
  method Logout(session: Session) returns (r: Response)
    modifies session
    ensures session.data == old(session.data) - {"email"}
    ensures r == Redirect(Url("/"), NoFlash)
  {
    session.Pop("email");
    return Redirect(Url("/"), NoFlash);
  }

  /**
   * `profile`: `signedIn` is the verdict of the `sign_in_required` guard
   * (not part of this model). Past the guard, reading `session["email"]`
   * fails when the entry is missing; otherwise the profile page is shown.
   */
  function Profile(signedIn: bool, session: map<string, string>): (r: Response)
    ensures r == Page("profile.html") <==> signedIn && "email" in session
    ensures !signedIn <==> r == SignInRequired
    ensures signedIn && "email" !in session ==> r == ServerError
  {
    if !signedIn then SignInRequired
    else if "email" !in session then ServerError
    else Page("profile.html")
  }

  /**
   * Registering and then signing in: after an accepted registration, signing
   * in with the same e-mail succeeds for exactly the registered password.
   */
  lemma RegisterThenSignIn(users: seq<User>, newId: Id, email: string, displayName: string,
                           password: string, confirmation: string, emailFormatOk: bool, now: int, attempt: string)
    requires Forms.RegistrationAccepted(email, displayName, password, confirmation, emailFormatOk, users)
    ensures Forms.SignInAccepted(email, attempt, emailFormatOk, users + [NewUser(newId, email, displayName, password, now)])
            <==> !Forms.Missing(attempt) && attempt == password
  {
    Forms.RegisteredUserSignsIn(users, NewUser(newId, email, displayName, password, now), password, confirmation,
                                emailFormatOk, attempt, emailFormatOk);
  }
}
