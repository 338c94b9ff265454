/**
 * app.py: the first, single-file version of the backend. It talks to the
 * `users` collection directly, checks the registration and login forms by
 * hand in a fixed order, and keeps the signed-in user's e-mail in the
 * session.
 */
module App {
  import opened Common
  import Helpers
  import Passwords

  /** A document of the `users` collection as `register` writes it. */
  datatype UserDoc = UserDoc(email: string, displayName: string, hash: string, joined: int)

  /** `request.form.get(name, None)` is truthy: present and non-empty. */
  predicate Truthy(a: Arg)
  {
    a.Given? && a.raw != ""
  }

  /** The outcome of a chain of form checks: all passed, or the message of the first that failed. */
  datatype Check = Pass | Fail(message: Option<string>)

  /** No two documents share an e-mail. */
  predicate EmailsUnique(docs: seq<UserDoc>)
  {
    forall i, j :: 0 <= i < |docs| && 0 <= j < |docs| && i != j ==> docs[i].email != docs[j].email
  }

  /** `users.find_one({'email': email})`: the first document with that e-mail. */
  function FindOne(docs: seq<UserDoc>, email: string): (r: Option<UserDoc>)
    ensures r.Some? ==> r.value in docs && r.value.email == email
    ensures r.None? <==> forall k :: 0 <= k < |docs| ==> docs[k].email != email
  {
    if docs == [] then None
    else if docs[0].email == email then Some(docs[0])
    else FindOne(docs[1..], email)
  }

  /** The `users` collection, in insertion order. */
  class UserCollection {
    var docs: seq<UserDoc>

    constructor (initial: seq<UserDoc>)
      ensures docs == initial
    {
      docs := initial;
    }

    /** `users.insert_one(doc)`. */
    method InsertOne(d: UserDoc)
      modifies this
      ensures docs == old(docs) + [d]
    {
      docs := docs + [d];
    }
  }

  const InvalidEmail := "Invalid email"
  const PasswordTooShort := "password must be greater than 6 characters"

  /**
   * The checks of `register` on a POST, applied in order; each message is
   * produced exactly when every earlier check passed and this one failed.
   */
  function RegisterCheck(email: Arg, displayName: Arg, password: Arg, confirmation: Arg,
                         docs: seq<UserDoc>): (c: Check)
    ensures c == Fail(Some("must provide email")) <==> !Truthy(email)
    ensures c == Fail(Some(InvalidEmail)) <==> Truthy(email) && !Helpers.IsValidEmail(email.raw)
    ensures c == Fail(None) <==> Truthy(email) && Helpers.IsValidEmail(email.raw) && !Truthy(displayName)
    ensures c == Fail(Some("must provide password")) <==>
              Truthy(email) && Helpers.IsValidEmail(email.raw) && Truthy(displayName) && !Truthy(password)
    ensures c == Fail(Some(PasswordTooShort)) <==>
              Truthy(email) && Helpers.IsValidEmail(email.raw) && Truthy(displayName) && Truthy(password)
              && |password.raw| < 6
    ensures c == Fail(Some("password and confirmation must be the same")) <==>
              Truthy(email) && Helpers.IsValidEmail(email.raw) && Truthy(displayName) && Truthy(password)
              && |password.raw| >= 6 && confirmation != password
    ensures c == Fail(Some("user with email already exists")) <==>
              Truthy(email) && Helpers.IsValidEmail(email.raw) && Truthy(displayName) && Truthy(password)
              && |password.raw| >= 6 && confirmation == password && FindOne(docs, email.raw).Some?
    ensures c == Pass <==>
              Truthy(email) && Helpers.IsValidEmail(email.raw) && Truthy(displayName) && Truthy(password)
              && |password.raw| >= 6 && confirmation == password && FindOne(docs, email.raw).None?
  {
    if !Truthy(email) then Fail(Some("must provide email"))
    else if !Helpers.IsValidEmail(email.raw) then Fail(Some(InvalidEmail))
    else if !Truthy(displayName) then Fail(None)
    else if !Truthy(password) then Fail(Some("must provide password"))
    else if |password.raw| < 6 then Fail(Some(PasswordTooShort))
    else if password != confirmation then Fail(Some("password and confirmation must be the same"))
    else if FindOne(docs, email.raw).Some? then Fail(Some("user with email already exists"))
    else Pass
  }

  /**
   * The "greater than 6" message notwithstanding, the length check lets a
   * password of exactly six characters through.
   */
  lemma SixCharacterPasswordAccepted(email: Arg, displayName: Arg, password: string, docs: seq<UserDoc>)
    requires Truthy(email) && Helpers.IsValidEmail(email.raw) && Truthy(displayName)
    requires |password| == 6 && FindOne(docs, email.raw).None?
    ensures RegisterCheck(email, displayName, Given(password), Given(password), docs) == Pass
  {
  }

  /**
   * `register`. A GET shows the form. A POST either fails with the first
   * failing check's message and changes nothing, or inserts exactly one
   * document and sets the session's `email`.
   */
  method Register(users: UserCollection, session: Session, verb: HttpMethod,
                  email: Arg, displayName: Arg, password: Arg, confirmation: Arg, now: int) returns (r: Response)
    requires EmailsUnique(users.docs)
    modifies users, session
    ensures EmailsUnique(users.docs)
    ensures verb == GET ==>
              users.docs == old(users.docs) && session.data == old(session.data) && r == Page("register.html")
    ensures verb == POST && RegisterCheck(email, displayName, password, confirmation, old(users.docs)).Fail? ==>
              && users.docs == old(users.docs) && session.data == old(session.data)
              && r == Render("register.html",
                             RegisterCheck(email, displayName, password, confirmation, old(users.docs)).message, [])
    ensures verb == POST && RegisterCheck(email, displayName, password, confirmation, old(users.docs)).Pass? ==>
              && users.docs == old(users.docs) + [UserDoc(email.raw, displayName.raw, Passwords.Hash(password.raw), now)]
              && session.data == old(session.data)["email" := email.raw]
              && r == Redirect(Url("/profile"), NoFlash)
  {
    if verb != POST {
      return Page("register.html");
    }
    var check := RegisterCheck(email, displayName, password, confirmation, users.docs);
    if check.Fail? {
      return Render("register.html", check.message, []);
    }
    var d := UserDoc(email.raw, displayName.raw, Passwords.Hash(password.raw), now);
    users.InsertOne(d);
    assert EmailsUnique(users.docs) by {
      forall i, j | 0 <= i < |users.docs| && 0 <= j < |users.docs| && i != j
        ensures users.docs[i].email != users.docs[j].email
      {
        if i < |old(users.docs)| && j < |old(users.docs)| {
          assert users.docs[i] == old(users.docs)[i] && users.docs[j] == old(users.docs)[j];
        }
      }
    }
    session.Set("email", email.raw);
    return Redirect(Url("/profile"), NoFlash);
  }

  /**
   * The checks of `login` on a POST, in order: e-mail given, password
   * given, an account with that e-mail, and a password that verifies
   * against its hash.
   */
  function LoginCheck(email: Arg, password: Arg, docs: seq<UserDoc>): (c: Check)
    ensures c == Fail(Some("must provider an email")) <==> !Truthy(email)
    ensures c == Fail(Some("must provide password")) <==> Truthy(email) && !Truthy(password)
    ensures c == Fail(Some("user does not exist")) <==>
              Truthy(email) && Truthy(password) && FindOne(docs, email.raw).None?
    ensures c == Fail(Some("incorrect password")) <==>
              Truthy(email) && Truthy(password) && FindOne(docs, email.raw).Some?
              && !Passwords.Verify(password.raw, FindOne(docs, email.raw).value.hash)
    ensures c == Pass <==>
              Truthy(email) && Truthy(password) && FindOne(docs, email.raw).Some?
              && Passwords.Verify(password.raw, FindOne(docs, email.raw).value.hash)
  {
    if !Truthy(email) then Fail(Some("must provider an email"))
    else if !Truthy(password) then Fail(Some("must provide password"))
    else
      match FindOne(docs, email.raw)
      case None => Fail(Some("user does not exist"))
      case Some(user) =>
        if !Passwords.Verify(password.raw, user.hash) then Fail(Some("incorrect password")) else Pass
  }

  /**
   * `login`. A GET shows the form; a failed check shows it again with that
   * check's message and the session unchanged; success sets the session's
   * `email` to the submitted e-mail.
   */
  method Login(users: UserCollection, session: Session, verb: HttpMethod, email: Arg, password: Arg)
    returns (r: Response)
    modifies session
    ensures verb == GET ==> session.data == old(session.data) && r == Page("login.html")
    ensures verb == POST && LoginCheck(email, password, users.docs).Fail? ==>
              && session.data == old(session.data)
              && r == Render("login.html", LoginCheck(email, password, users.docs).message, [])
    ensures verb == POST && LoginCheck(email, password, users.docs).Pass? ==>
              session.data == old(session.data)["email" := email.raw] && r == Redirect(Url("/profile"), NoFlash)
  {
    if verb != POST {
      return Page("login.html");
    }
    var check := LoginCheck(email, password, users.docs);
    if check.Fail? {
      return Render("login.html", check.message, []);
    }
    session.Set("email", email.raw);
    return Redirect(Url("/profile"), NoFlash);
  }

  /**
   * A user registered with password `p` logs in with password `q` exactly
   * when `q` is `p` (a non-empty one).
   */
  lemma {:induction false} RegisteredUserLogsIn(docs: seq<UserDoc>, email: Arg, displayName: Arg, p: string,
                                                now: int, q: string)
    requires RegisterCheck(email, displayName, Given(p), Given(p), docs) == Pass
    ensures LoginCheck(email, Given(q), docs + [UserDoc(email.raw, displayName.raw, Passwords.Hash(p), now)]) == Pass
            <==> q == p
  {
    var d := UserDoc(email.raw, displayName.raw, Passwords.Hash(p), now);
    FindOneAppend(docs, d, email.raw);
    Passwords.VerifyHash(q, p);
  }

  /** Looking up an e-mail that no document has, after appending one that has it, finds the new one. */
  lemma {:induction false} FindOneAppend(docs: seq<UserDoc>, d: UserDoc, email: string)
    requires FindOne(docs, email).None? && d.email == email
    ensures FindOne(docs + [d], email) == Some(d)
  {
    if docs != [] {
      assert (docs + [d])[1..] == docs[1..] + [d];
      FindOneAppend(docs[1..], d, email);
    }
  }

  /** `logout`: only the `email` entry goes, and a missing one is no error. */
  method Logout(session: Session) returns (r: Response)
    modifies session
    ensures session.data == old(session.data) - {"email"}
    ensures r == Redirect(Endpoint("index", None), NoFlash)
  {
    session.Pop("email");
    return Redirect(Endpoint("index", None), NoFlash);
  }

  /**
   * `profile`, wrapped in `login_required`: the page is shown exactly when
   * the session has an `email`; otherwise the visitor goes to the login page.
   */
  function Profile(session: map<string, string>, requestUrl: string): (r: Response)
    ensures r == Page("profile.html") <==> "email" in session
    ensures "email" !in session ==> r == Redirect(Endpoint("login", Some(requestUrl)), NoFlash)
  {
    Helpers.LoginRequired(session, requestUrl, () => Page("profile.html"))
  }
}
