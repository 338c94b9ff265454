/**
 * tiny/views/user.py: the `user` blueprint of the second iteration. The
 * session holds the signed-in user's `id` and `avatar_url`. Its forms
 * (SignUpForm, SignInForm, EditUserForm) and the helpers it imports
 * (`is_signed_in`, `sign_in_required`, `get_current_user`,
 * `get_user_from_id`) are not part of this model: their verdicts and
 * answers are parameters.
 */
module ViewsUser {
  import opened Common
  import opened Models
  import TinyStore
  import Passwords

  /** `url_for("static", filename="img/default-avatar.png")`. */
  const DefaultAvatar := "/static/img/default-avatar.png"

  /** The avatar the session shows for `u`: its own, or the default when it has none. */
  function SessionAvatar(u: User): (a: string)
    ensures a != ""
    ensures u.avatarUrl != "" ==> a == u.avatarUrl
    ensures u.avatarUrl == "" ==> a == DefaultAvatar
  {
    if u.avatarUrl != "" then u.avatarUrl else DefaultAvatar
  }

  /**
   * `sign_up`. A signed-in visitor is sent home with nothing changed. On a
   * POST whose form validates, one user is saved; the session gains `id` and
   * the default `avatar_url` without being cleared first. A save that the
   * unique e-mail index refuses raises. Otherwise the form is shown again.
   */
  method SignUp(db: TinyStore.Database, session: Session, signedIn: bool, verb: HttpMethod, formValid: bool,
                email: string, displayName: string, password: string, newId: Id, now: int) returns (r: Response)
    requires Valid(db.State())
    requires FindById(db.users, newId).None?
    modifies db, session
    ensures Valid(db.State())
    ensures db.posts == old(db.posts) && db.comments == old(db.comments)
    ensures signedIn || verb == GET || !formValid ==>
              && db.users == old(db.users) && session.data == old(session.data)
              && r == (if signedIn then Redirect(Home(), NoFlash) else Page("user/sign_up.html"))
    ensures !signedIn && verb == POST && formValid && FindByEmail(old(db.users), email).Some? ==>
              db.users == old(db.users) && session.data == old(session.data) && r == ServerError
    ensures !signedIn && verb == POST && formValid && FindByEmail(old(db.users), email).None? ==>
              && db.users == old(db.users) + [User(newId, email, displayName, Passwords.Hash(password), "", now)]
              && session.data == old(session.data)["id" := newId]["avatar_url" := DefaultAvatar]
              && r == Redirect(Endpoint("user.show", Some(newId)), NoFlash)
  {
    if signedIn {
      return Redirect(Home(), NoFlash);
    }
    if verb == GET || !formValid {
      return Page("user/sign_up.html");
    }
    var saved := db.InsertUser(User(newId, email, displayName, Passwords.Hash(password), "", now));
    if !saved {
      return ServerError;
    }
    session.Set("id", newId);
    session.Set("avatar_url", DefaultAvatar);
    return Redirect(Endpoint("user.show", Some(newId)), NoFlash);
  }

  /**
   * `sign_in`. A signed-in visitor is sent home. On a POST whose form
   * validates, `formUser` is the account the form found: the session gains
   * its id and avatar, and the visitor goes to `next` or home.
   */
  method SignIn(session: Session, signedIn: bool, verb: HttpMethod, formValid: bool, formUser: User, next: Arg)
    returns (r: Response)
    modifies session
    ensures signedIn ==> session.data == old(session.data) && r == Redirect(Home(), NoFlash)
    ensures !signedIn && (verb == GET || !formValid) ==>
              session.data == old(session.data) && r == Page("user/sign_in.html")
    ensures !signedIn && verb == POST && formValid ==>
              && session.data == old(session.data)["id" := formUser.id]["avatar_url" := SessionAvatar(formUser)]
              && r == Redirect(NextOr(next, Home()), NoFlash)
  {
    if signedIn {
      return Redirect(Home(), NoFlash);
    }
    if verb == GET || !formValid {
      return Page("user/sign_in.html");
    }
    session.Set("id", formUser.id);
    session.Set("avatar_url", SessionAvatar(formUser));
    return Redirect(NextOr(next, Home()), NoFlash);
  }

  /** `sign_out`: the session is cleared on POST only. */
  method SignOut(session: Session, verb: HttpMethod) returns (r: Response)
    modifies session
    ensures session.data == if verb == POST then map[] else old(session.data)
    ensures r == Page("user/sign_out.html")
  {
    if verb == POST {
      session.Clear();
    }
    return Page("user/sign_out.html");
  }

  /**
   * `delete`, behind `sign_in_required`. On POST the current user is
   * deleted with every CASCADE rule and the session is cleared; with no
   * current user, `.delete()` on `None` raises. GET changes nothing.
   */
  method Delete(db: TinyStore.Database, session: Session, signedIn: bool, verb: HttpMethod, current: Option<Id>)
    returns (r: Response)
    requires Valid(db.State())
    modifies db, session
    ensures Valid(db.State())
    ensures !signedIn || verb == GET || current.None? ==>
              && db.State() == old(db.State()) && session.data == old(session.data)
              && r == (if !signedIn then SignInRequired else if verb == GET then Page("user/delete.html") else ServerError)
    ensures signedIn && verb == POST && current.Some? ==>
              && db.State() == Models.DeleteUser(old(db.State()), current.value)
              && session.data == map[]
              && r == Redirect(Home(), NoFlash)
  {
    if !signedIn {
      return SignInRequired;
    }
    if verb == GET {
      return Page("user/delete.html");
    }
    if current.None? {
      return ServerError;
    }
    db.DeleteUser(current.value);
    session.Clear();
    return Redirect(Home(), NoFlash);
  }

  /**
   * `edit`, behind `sign_in_required`. On a POST whose form validates, the
   * current user's display name and avatar are both overwritten with the
   * form's values, whatever they are; a missing current user raises.
   */
  method Edit(db: TinyStore.Database, signedIn: bool, verb: HttpMethod, formValid: bool, current: Option<Id>,
              displayName: string, avatarUrl: string) returns (r: Response)
    requires Valid(db.State())
    modifies db
    ensures Valid(db.State())
    ensures db.posts == old(db.posts) && db.comments == old(db.comments)
    ensures !signedIn || verb == GET || !formValid ==>
              && db.users == old(db.users)
              && r == (if !signedIn then SignInRequired else Page("user/edit.html"))
    ensures signedIn && verb == POST && formValid ==>
              match (if current.Some? then FindById(old(db.users), current.value) else None)
              case None => db.users == old(db.users) && r == ServerError
              case Some(k) =>
                && db.users == old(db.users)[k := old(db.users)[k].(displayName := displayName, avatarUrl := avatarUrl)]
                && r == Redirect(Endpoint("user.show", None), Flash("Profile successfully updated", "success"))
  {
    if !signedIn {
      return SignInRequired;
    }
    if verb == GET || !formValid {
      return Page("user/edit.html");
    }
    var found := if current.Some? then FindById(db.users, current.value) else None;
    if found.None? {
      return ServerError;
    }
    var k := found.value;
    db.ReplaceUser(k, db.users[k].(displayName := displayName, avatarUrl := avatarUrl));
    return Redirect(Endpoint("user.show", None), Flash("Profile successfully updated", "success"));
  }

  /**
   * `show`: `found` is what `get_user_from_id` answers. An unknown user
   * sends the visitor home with a warning; a known one is shown.
   */
  function Show(found: Option<User>): (r: Response)
    ensures found.None? <==> r == Redirect(Home(), Flash("Oops - we couldn't find that profile", "danger"))
    ensures found.Some? <==> r == Page("user/show.html")
  {
    if found.None? then Redirect(Home(), Flash("Oops - we couldn't find that profile", "danger"))
    else Page("user/show.html")
  }
}
