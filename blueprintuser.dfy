/**
 * tiny/blueprints/user.py: the latest `user` blueprint. The session holds
 * `user_id` and `avatar_url`, and a sign-up or sign-in clears it before
 * writing them. The forms it uses (SignUpForm, SignInForm,
 * UpdateProfileForm, UpdatePasswordForm) are not part of this model: their
 * `validate()` verdict is a parameter, and so is the `sign_in_required` guard.
 */
module BlueprintUser {
  import opened Common
  import opened BlueprintStore
  import QuerySet
  import Helpers
  import Passwords

  /**
   * `sign_up`. A session with a `user_id` is sent home untouched. A POST
   * with a valid form and an unused e-mail saves one user, built from the
   * schema defaults and the form with the password hashed, and leaves the
   * session holding exactly its id and avatar.
   */
  method SignUp(db: Database, session: Session, verb: HttpMethod, formValid: bool,
                email: string, password: string, displayName: string, newId: Id, defaults: User)
    returns (r: Response)
    requires Valid(db.users) && FindById(db.users, newId).None?
    modifies db, session
    ensures Valid(db.users) && db.posts == old(db.posts)
    ensures old(session.Has("user_id")) ==>
              db.users == old(db.users) && session.data == old(session.data) && r == Redirect(Home(), NoFlash)
    ensures !old(session.Has("user_id")) && (verb == GET || !formValid) ==>
              db.users == old(db.users) && session.data == old(session.data) && r == Page("user/sign_up.html")
    ensures !old(session.Has("user_id")) && verb == POST && formValid && FindByEmail(old(db.users), email).Some? ==>
              && db.users == old(db.users) && session.data == old(session.data)
              && r == Render("user/sign_up.html", None,
                             [FormError("email", "There is already an account with this email")])
    ensures !old(session.Has("user_id")) && verb == POST && formValid && FindByEmail(old(db.users), email).None? ==>
              var u := defaults.(id := newId, email := email, password := Passwords.Hash(password),
                                 displayName := displayName);
              && db.users == old(db.users) + [u]
              && Passwords.Verify(password, u.password)
              && session.data == map["user_id" := newId, "avatar_url" := defaults.avatarUrl]
              && r == Redirect(Endpoint("user.show", Some(newId)), Flash("Profile successfully created", "success"))
  {
    if session.Has("user_id") {
      return Redirect(Home(), NoFlash);
    }
    if verb == GET || !formValid {
      return Page("user/sign_up.html");
    }
    if FindByEmail(db.users, email).Some? {
      return Render("user/sign_up.html", None, [FormError("email", "There is already an account with this email")]);
    }
    var u := defaults.(id := newId, email := email, password := Passwords.Hash(password), displayName := displayName);
    db.InsertUser(u);
    session.Clear();
    session.Set("user_id", newId);
    session.Set("avatar_url", u.avatarUrl);
    Passwords.VerifyHash(password, password);
    return Redirect(Endpoint("user.show", Some(newId)), Flash("Profile successfully created", "success"));
  }

  /**
   * `sign_in`. A session with a `user_id` is sent home. On a POST with a
   * valid form, an unknown e-mail or a password that does not verify shows
   * the form again with one error and the session unchanged; otherwise the
   * session holds exactly that user's id and avatar and the visitor goes to
   * `next`, or home when it is missing or empty.
   */
  method SignIn(db: Database, session: Session, verb: HttpMethod, formValid: bool,
                email: string, password: string, next: Arg) returns (r: Response)
    modifies session
    ensures old(session.Has("user_id")) ==> session.data == old(session.data) && r == Redirect(Home(), NoFlash)
    ensures !old(session.Has("user_id")) && (verb == GET || !formValid) ==>
              session.data == old(session.data) && r == Page("user/sign_in.html")
    ensures !old(session.Has("user_id")) && verb == POST && formValid ==>
              match FindByEmail(db.users, email)
              case None =>
                && session.data == old(session.data)
                && r == Render("user/sign_in.html", None, [FormError("email", "There is no account with this email")])
              case Some(k) =>
                if !Passwords.Verify(password, db.users[k].password) then
                  && session.data == old(session.data)
                  && r == Render("user/sign_in.html", None, [FormError("password", "Incorrect password")])
                else
                  && session.data == map["user_id" := db.users[k].id, "avatar_url" := db.users[k].avatarUrl]
                  && r == Redirect(NextOr(next, Home()), Flash("Successfully signed in", "success"))
  {
    if session.Has("user_id") {
      return Redirect(Home(), NoFlash);
    }
    if verb == GET || !formValid {
      return Page("user/sign_in.html");
    }
    var found := FindByEmail(db.users, email);
    if found.None? {
      return Render("user/sign_in.html", None, [FormError("email", "There is no account with this email")]);
    }
    var u := db.users[found.value];
    if !Passwords.Verify(password, u.password) {
      return Render("user/sign_in.html", None, [FormError("password", "Incorrect password")]);
    }
    session.Clear();
    session.Set("user_id", u.id);
    session.Set("avatar_url", u.avatarUrl);
    return Redirect(NextOr(next, Home()), Flash("Successfully signed in", "success"));
  }

  /** `sign_out`: the session is cleared on POST only. */
  method SignOut(session: Session, verb: HttpMethod) returns (r: Response)
    modifies session
    ensures session.data == if verb == POST then map[] else old(session.data)
    ensures r == Page("user/sign_out.html")
  {
    if verb == POST {
      session.Clear();
    }
    return Page("user/sign_out.html");
  }

  /**
   * `show`: the profile is shown exactly when the id is an ObjectId that a
   * stored user has; otherwise the visitor goes home with a warning.
   */
  function Show(users: seq<User>, userId: string): (r: Response)
    ensures r == Page("user/show.html") <==>
              Helpers.IsValidObjectId(userId) && exists k :: 0 <= k < |users| && users[k].id == userId
    ensures r != Page("user/show.html") ==> r == Redirect(Home(), Flash("Oops - we couldn't find that profile", "danger"))
  {
    if Helpers.IsValidObjectId(userId) && FindById(users, userId).Some? then Page("user/show.html")
    else Redirect(Home(), Flash("Oops - we couldn't find that profile", "danger"))
  }

  /**
   * The user `update_profile` stores: display name and bio always replaced,
   * the avatar replaced only by a stripped value that is not empty.
   */
  function UpdatedProfile(u: User, displayName: string, avatarUrl: string, bio: string): (v: User)
    ensures v.id == u.id && v.email == u.email && v.password == u.password
    ensures v.displayName == displayName && v.bio == bio
    ensures Strip(avatarUrl) != "" ==> v.avatarUrl == Strip(avatarUrl)
    ensures Strip(avatarUrl) == "" ==> v.avatarUrl == u.avatarUrl
  {
    var a := Strip(avatarUrl);
    u.(displayName := displayName, avatarUrl := if a != "" then a else u.avatarUrl, bio := bio)
  }

  /**
   * `update_profile`, behind `sign_in_required`. The signed-in user is
   * looked up first (a `user_id` that is not an ObjectId raises). A GET
   * shows the form filled from that user (raising when there is none); a
   * valid POST stores `UpdatedProfile` and copies the stored avatar into the
   * session.
   */
  method UpdateProfile(db: Database, session: Session, signedIn: bool, verb: HttpMethod, formValid: bool,
                       displayName: string, avatarUrl: string, bio: string) returns (r: Response)
    requires Valid(db.users)
    modifies db, session
    ensures Valid(db.users) && db.posts == old(db.posts)
    ensures !(signedIn && verb == POST && formValid && CurrentUser(old(session.data), old(db.users)).Found?) ==>
              && db.users == old(db.users) && session.data == old(session.data)
              && r == (if !signedIn then SignInRequired
                       else if CurrentUser(old(session.data), old(db.users)).BadObjectId? then ServerError
                       else if verb == POST && !formValid then Page("user/update_profile.html")
                       else if CurrentUser(old(session.data), old(db.users)).NotFound? then ServerError
                       else Page("user/update_profile.html"))
    ensures signedIn && verb == POST && formValid && CurrentUser(old(session.data), old(db.users)).Found? ==>
              var k := CurrentUser(old(session.data), old(db.users)).index;
              && db.users == old(db.users)[k := UpdatedProfile(old(db.users)[k], displayName, avatarUrl, bio)]
              && session.data == old(session.data)["avatar_url" := db.users[k].avatarUrl]
              && r == Redirect(Endpoint("user.settings", None), Flash("Profile successfully updated", "success"))
  {
    if !signedIn {
      return SignInRequired;
    }
    var current := CurrentUser(session.data, db.users);
    if current.BadObjectId? {
      return ServerError;
    }
    if verb == GET {
      if current.NotFound? {
        return ServerError;
      }
      return Page("user/update_profile.html");
    }
    if !formValid {
      return Page("user/update_profile.html");
    }
    if current.NotFound? {
      return ServerError;
    }
    var k := current.index;
    var u := UpdatedProfile(db.users[k], displayName, avatarUrl, bio);
    db.ReplaceUser(k, u);
    session.Set("avatar_url", u.avatarUrl);
    return Redirect(Endpoint("user.settings", None), Flash("Profile successfully updated", "success"));
  }

  /**
   * `update_password`, behind `sign_in_required`. After a valid POST the
   * signed-in user is looked up (a missing one raises); a current password
   * that does not verify leaves the stored hash as it was, and otherwise the
   * stored hash becomes the hash of the new password, which then verifies
   * while every other password fails.
   */
  method UpdatePassword(db: Database, session: Session, signedIn: bool, verb: HttpMethod, formValid: bool,
                        currentPassword: string, newPassword: string) returns (r: Response)
    requires Valid(db.users)
    modifies db
    ensures Valid(db.users) && db.posts == old(db.posts)
    ensures !(signedIn && verb == POST && formValid) ==>
              && db.users == old(db.users)
              && r == (if !signedIn then SignInRequired else Page("user/update_password.html"))
    ensures signedIn && verb == POST && formValid ==>
              match CurrentUser(session.data, old(db.users))
              case Found(k) =>
                if Passwords.Verify(currentPassword, old(db.users)[k].password) then
                  && db.users == old(db.users)[k := old(db.users)[k].(password := Passwords.Hash(newPassword))]
                  && (forall q :: Passwords.Verify(q, db.users[k].password) <==> q == newPassword)
                  && r == Redirect(Endpoint("user.settings", None), Flash("Password successfully updated", "success"))
                else
                  && db.users == old(db.users)
                  && r == Render("user/update_password.html", None, [FormError("current_password", "Incorrect password")])
              case _ => db.users == old(db.users) && r == ServerError
  {
    if !signedIn {
      return SignInRequired;
    }
    if verb == GET || !formValid {
      return Page("user/update_password.html");
    }
    var current := CurrentUser(session.data, db.users);
    if !current.Found? {
      return ServerError;
    }
    var k := current.index;
    if !Passwords.Verify(currentPassword, db.users[k].password) {
      return Render("user/update_password.html", None, [FormError("current_password", "Incorrect password")]);
    }
    db.ReplaceUser(k, db.users[k].(password := Passwords.Hash(newPassword)));
    forall q ensures Passwords.Verify(q, db.users[k].password) <==> q == newPassword {
      Passwords.VerifyHash(q, newPassword);
    }
    return Redirect(Endpoint("user.settings", None), Flash("Password successfully updated", "success"));
  }

  /**
   * `delete`, behind `sign_in_required`. A GET changes nothing. A POST
   * removes the signed-in user if there is one and clears the session; a
   * `user_id` that is not an ObjectId raises before either happens.
   */
  method Delete(db: Database, session: Session, signedIn: bool, verb: HttpMethod) returns (r: Response)
    requires Valid(db.users)
    modifies db, session
    ensures Valid(db.users)
    ensures !signedIn || verb == GET || CurrentUser(old(session.data), old(db.users)).BadObjectId? ==>
              && db.users == old(db.users) && db.posts == old(db.posts) && session.data == old(session.data)
              && r == (if !signedIn then SignInRequired else if verb == GET then Page("user/delete.html") else ServerError)
    ensures signedIn && verb == POST ==>
              match CurrentUser(old(session.data), old(db.users))
              case BadObjectId => true
              case NotFound =>
                && db.users == old(db.users) && db.posts == old(db.posts) && session.data == map[]
                && r == Redirect(Home(), Flash("Successfully deleted account", "success"))
              case Found(k) =>
                var gone := old(db.users)[k].id;
                && db.users == QuerySet.Filter(old(db.users), (x: User) => x.id != gone)
                && session.data == map[]
                && r == Redirect(Home(), Flash("Successfully deleted account", "success"))
  {
    if !signedIn {
      return SignInRequired;
    }
    if verb == GET {
      return Page("user/delete.html");
    }
    var current := CurrentUser(session.data, db.users);
    if current.BadObjectId? {
      return ServerError;
    }
    if current.Found? {
      db.DeleteUser(db.users[current.index].id);
    }
    session.Clear();
    return Redirect(Home(), Flash("Successfully deleted account", "success"));
  }

  /** The posts of `author`, newest `created` first. */
  function ByAuthor(posts: seq<Post>, author: Id): seq<Post>
  {
    QuerySet.SortDesc(QuerySet.Filter(posts, (p: Post) => p.author == Some(author)), Created)
  }

  /** `Post.objects(author=...).exclude("content").order_by("-created").skip(offset).limit(size)`. */
  function AuthorPage(posts: seq<Post>, author: Id, offset: nat, size: nat): seq<Post>
    requires size >= 1
  {
    ExcludeContent(QuerySet.Limit(QuerySet.Skip(ByAuthor(posts, author), offset), size))
  }

  /**
   * A page of an author's posts holds at most `size` posts, all by that
   * author, newest first and without their content, and it is the slice of
   * the author's sorted posts that starts at `offset`.
   */
  lemma AuthorPageIsWindow(posts: seq<Post>, author: Id, offset: nat, size: nat)
    requires size >= 1
    ensures var r := AuthorPage(posts, author, offset, size);
            && |r| <= size
            && (forall i :: 0 <= i < |r| ==> r[i].author == Some(author) && r[i].content.None?)
            && QuerySet.SortedDesc(r, Created)
    ensures var sorted := ByAuthor(posts, author);
            AuthorPage(posts, author, offset, size)
            == ExcludeContent(if offset <= |sorted| then sorted[offset..QuerySet.Min(offset + size, |sorted|)] else [])
  {
    var sorted := ByAuthor(posts, author);
    var window := QuerySet.Limit(QuerySet.Skip(sorted, offset), size);
    QuerySet.WindowIsSlice(sorted, offset, size);
    QuerySet.PageOfSorted(sorted, Created, offset, size);
    ByAuthorIsTheAuthors(posts, author);
    ExcludeContentKeepsOrder(window);
    var r := ExcludeContent(window);
    forall i | 0 <= i < |r| ensures r[i].author == Some(author) {
      assert window[i] == sorted[offset + i];
    }
  }

  /** Every post of `ByAuthor` is by that author. */
  lemma ByAuthorIsTheAuthors(posts: seq<Post>, author: Id)
    ensures forall k :: 0 <= k < |ByAuthor(posts, author)| ==> ByAuthor(posts, author)[k].author == Some(author)
  {
    var mine := QuerySet.Filter(posts, (p: Post) => p.author == Some(author));
    var sorted := ByAuthor(posts, author);
    forall k | 0 <= k < |sorted| ensures sorted[k].author == Some(author) {
      QuerySet.SortDescMember(mine, Created, k);
      var m :| 0 <= m < |mine| && mine[m] == sorted[k];
    }
  }

  /** Dropping the content keeps a page in its `created` order. */
  lemma ExcludeContentKeepsOrder(w: seq<Post>)
    requires QuerySet.SortedDesc(w, Created)
    ensures QuerySet.SortedDesc(ExcludeContent(w), Created)
  {
    var r := ExcludeContent(w);
    forall i, j | 0 <= i < j < |r| ensures Created(r[i]) >= Created(r[j]) {
      assert Created(r[i]) == Created(w[i]) && Created(r[j]) == Created(w[j]);
    }
  }

  /**
   * What `posts(user_id)` answers: the author id, the size and the offset are
   * checked in that order, and the first that fails is reported with its
   * text; then a page of the author's posts of the capped size.
   */
  function PostsQuery(posts: seq<Post>, userId: string, size: Arg, offset: Arg, toInt: string -> Option<int>)
    : (r: Listing)
    ensures !Helpers.IsValidObjectId(userId) <==> r == BadRequest("invalid author id " + userId)
    ensures Helpers.IsValidObjectId(userId) && IntArg(size, 10, toInt).None? ==>
              size.Given? && r == BadRequest("invalid size " + size.raw)
    ensures Helpers.IsValidObjectId(userId) && IntArg(size, 10, toInt).Some? && IntArg(offset, 0, toInt).None? ==>
              offset.Given? && r == BadRequest("invalid offset " + offset.raw)
    ensures r.Items? ==>
              && IntArg(size, 10, toInt).Some? && Cap(IntArg(size, 10, toInt).value) >= 1
              && IntArg(offset, 0, toInt).Some? && IntArg(offset, 0, toInt).value >= 0
              && r.posts == AuthorPage(posts, userId, IntArg(offset, 0, toInt).value, Cap(IntArg(size, 10, toInt).value))
    ensures Helpers.IsValidObjectId(userId) && IntArg(size, 10, toInt).Some? && IntArg(offset, 0, toInt).Some? ==>
              (r.Items? <==> Cap(IntArg(size, 10, toInt).value) >= 1 && IntArg(offset, 0, toInt).value >= 0)
    ensures r.BadRequest? || r.Items? || r.DriverDefined?
  {
    if !Helpers.IsValidObjectId(userId) then BadRequest("invalid author id " + userId)
    else
      match IntArg(size, 10, toInt)
      case None =>
        assert ("invalid size " + size.raw)[8] != ("invalid author id " + userId)[8];
        BadRequest("invalid size " + size.raw)
      case Some(s) =>
        match IntArg(offset, 0, toInt)
        case None =>
          assert ("invalid offset " + offset.raw)[8] != ("invalid author id " + userId)[8];
          BadRequest("invalid offset " + offset.raw)
        case Some(o) =>
          if Cap(s) < 1 || o < 0 then DriverDefined
          else Items(AuthorPage(posts, userId, o, Cap(s)))
  }

  /**
   * `posts(user_id)`: the query, then the loop that serializes each result
   * (`Serialize`).
   */
  method Posts(db: Database, userId: string, size: Arg, offset: Arg, toInt: string -> Option<int>)
    returns (r: Listing)
    ensures r == PostsQuery(db.posts, userId, size, offset, toInt)
  {
    if !Helpers.IsValidObjectId(userId) {
      return BadRequest("invalid author id " + userId);
    }
    var s := IntArg(size, 10, toInt);
    if s.None? {
      return BadRequest("invalid size " + size.raw);
    }
    var o := IntArg(offset, 0, toInt);
    if o.None? {
      return BadRequest("invalid offset " + offset.raw);
    }
    var n := Cap(s.value);
    if n < 1 || o.value < 0 {
      return DriverDefined;
    }
    var results := AuthorPage(db.posts, userId, o.value, n);
    var userPosts := Serialize(results);
    return Items(userPosts);
  }

  /**
   * A successful `posts` answer holds at most 100 posts, all by the
   * requested author, newest first, none with its content.
   */
  lemma PostsBounded(posts: seq<Post>, userId: string, size: Arg, offset: Arg, toInt: string -> Option<int>)
    requires PostsQuery(posts, userId, size, offset, toInt).Items?
    ensures var r := PostsQuery(posts, userId, size, offset, toInt).posts;
            && |r| <= MaxPageSize
            && (forall i :: 0 <= i < |r| ==> r[i].author == Some(userId) && r[i].content.None?)
            && QuerySet.SortedDesc(r, Created)
  {
    AuthorPageIsWindow(posts, userId, IntArg(offset, 0, toInt).value, Cap(IntArg(size, 10, toInt).value));
  }
}
