# Tiny blog: a verified model of its accounts, forms and listings

Tiny is a small Flask and MongoDB blog. The repository keeps several
iterations of the same application side by side, and this model keeps them
apart, one Dafny module per source file:

- `App` is the first single-file backend, app.py. Its registration and
  login checks run in a fixed order over a `users` collection, and the
  session holds `email`.
- `Views` is tiny/views.py. It registers and signs in through the forms of
  tiny/forms.py (`Forms`), over the schema of tiny/models.py (`Models`,
  stored by `TinyStore`).
- `ViewsUser` is tiny/views/user.py, the first `user` blueprint. The
  session holds `id` and `avatar_url`.
- `BlueprintUser`, `BlueprintSearch` and `BlueprintPost` are the latest
  blueprints in tiny/blueprints. They cover sign-up, sign-in, profile and
  password updates, account deletion, and the three JSON listings, which
  validate, cap, filter, order, page and project. `BlueprintStore` holds
  the documents these routes use.
- `Helpers` covers tiny/helpers.py: the `login_required` guard, the e-mail
  regular expression and the ObjectId text rule.

Everything shared lives in `Common` (route outcomes, request arguments,
the session as a class with `Clear`, `Set` and `Pop`, and `str.strip`) and
`QuerySet` (filter, descending sort, skip, limit and first over a sequence
in storage order). `Passwords` replaces the hashing library.

A route handler is a method. It takes the database object and the session
object it changes, returns a `Response`, and its postcondition states the
new collections and session and the outcome on every path. Each listing is
a method proved equal to a specification function; it ends with the shared
serializing loop `BlueprintStore.Serialize`. The listing properties are
proved about those functions.

How the model reads the code:
- tests/test_models.py:43-57 bound a later schema's display name to 1–20
  characters. tiny/forms.py:18-21 bounds it to 4–20, and the model follows
  tiny/forms.py.
- The cap of 100 applies to `user.posts` and `search.query` only. It does
  not apply to `post.search`; `BlueprintPost.SearchUncapped` states this.
- Python's `$` also matches just before a final newline.
  `Helpers.IsValidEmail` therefore accepts a matching address followed by
  one newline. `Helpers.TrailingNewlineIgnored` states "adding a newline
  changes nothing" for strings that do not already end in one.
  `Helpers.SecondNewlineRejected` shows that the statement fails without
  that restriction.
- app.py imports its helpers from a top-level `helpers` module. The model
  uses tiny/helpers.py for it.

## Model

| member | source | states |
|---|---|---|
| Common.NextOr | tiny/blueprints/user.py:88 | a non-empty `next` argument is the redirect target; a missing or empty one gives the fallback |
| Common.Session.Clear | tiny/blueprints/user.py:39 | `session.clear()` leaves no entries |
| Common.Session.Set | tiny/blueprints/user.py:42-43 | a session write changes that one entry and keeps every other |
| Common.Session.Pop | app.py:139 | `session.pop(key, None)` removes exactly that key, and a missing key is no error |
| Common.Strip | tiny/blueprints/user.py:140 | `str.strip`: the result is a slice of the text with only whitespace cut from both ends, it neither starts nor ends with whitespace, and it is empty exactly when the text is all whitespace |
| QuerySet.Filter | tiny/blueprints/user.py:228 | a filtered query set holds only documents of the collection that pass, and every document that passes |
| QuerySet.FilterIn | tiny/blueprints/user.py:228 | a document is in the filtered set exactly when it is stored and passes |
| QuerySet.FilterAppend | tiny/blueprints/user.py:228 | a filter keeps storage order and multiplicity: filtering a concatenation concatenates the filtered parts, and one document is kept exactly when it passes |
| QuerySet.FilterKeepsUnique | tiny/models.py:17 | removing documents never breaks a unique index |
| QuerySet.SortDesc | tiny/blueprints/user.py:230 | `order_by("-key")` returns the same documents (a permutation), highest key first |
| QuerySet.Skip | tiny/blueprints/user.py:231 | `skip(n)` drops exactly the first n documents |
| QuerySet.Limit | tiny/blueprints/user.py:232 | `limit(n)` for n ≥ 1 keeps the first min(n, count) documents |
| QuerySet.WindowIsSlice | tiny/blueprints/user.py:231-232 | `skip(o).limit(n)` is the slice from o of length min(n, count − o), and empty past the end |
| QuerySet.PageOfSorted | tiny/blueprints/search.py:44 | a page of a sorted query set is sorted, and its i-th entry is the set's (offset + i)-th |
| QuerySet.First | tiny/forms.py:36 | `first()` gives the earliest matching document, and nothing exactly when no document matches |
| Passwords.VerifyHash | tiny/helpers.py:32-42 | a stored hash verifies exactly the password it was made from |
| Helpers.LoginRequired | tiny/helpers.py:21-23 | without `email` in the session the visitor is redirected to `login` with `next` set to the request URL and the view is not reached; otherwise the view's answer is returned unchanged |
| Helpers.SplitIsFirst | tiny/helpers.py:30 | in any whole-string match the '@' is the first '@' and the '.' is the first '.' after it |
| Helpers.MatchesWhole | tiny/helpers.py:30 | the left-to-right check agrees with the pattern matching the whole text in some way |
| Helpers.IsValidEmail | tiny/helpers.py:30 | accepted exactly when the text, or the text without one final newline, is local part, '@', label, '.', tail over the pattern's character classes |
| Helpers.MatchShape | tiny/helpers.py:30 | a matched text has exactly one '@' and ends in a character of the last class, never a newline |
| Helpers.NewlineEndNoMatch | tiny/helpers.py:30 | a text ending in a newline never matches the pattern as a whole |
| Helpers.AcceptedPart | tiny/helpers.py:30 | an accepted address is a whole match, possibly followed by one newline |
| Helpers.AcceptedShape | tiny/helpers.py:30 | every accepted address has exactly one '@' and a '.' after it |
| Helpers.EmptyRejected | tiny/helpers.py:30 | the empty text is rejected |
| Helpers.TrailingNewlineIgnored | tiny/helpers.py:30 | for a text not already ending in a newline, appending one does not change the verdict |
| Helpers.SecondNewlineRejected | tiny/helpers.py:30 | only one final newline is ignored: "a@b.c\n" is accepted and "a@b.c\n\n" is not |
| Helpers.ObjectIdSamples | tests/test_helpers.py:6-10 | the ObjectId rule rejects "1" and accepts "5a09bcdff3853517be67e293" |
| Models.FindByEmail | tiny/forms.py:36 | the lookup by e-mail finds a stored user with that e-mail, and nothing exactly when none has it |
| Models.FindById | tiny/models.py:13-21 | the lookup by id finds the position of a user with that id, and nothing exactly when none has it |
| Models.FindByEmailUnique | tiny/models.py:17 | with unique e-mails the user found by e-mail is the only one with it |
| Models.DeleteUserUsers | tiny/models.py:13-21 | deleting a user removes that user and no other |
| Models.DeleteUserPosts | tiny/models.py:27 | deleting a user removes exactly the posts that user wrote |
| Models.DeleteUserComments | tiny/models.py:39-45 | deleting a user removes exactly the comments the user wrote, liked or disliked and the comments on the user's posts; every other comment stays |
| Models.DeletePostCascade | tiny/models.py:40 | deleting a post removes that post and exactly the comments on it, and no user |
| Models.DeleteUserCoversPostCascade | tiny/models.py:27-40 | a comment that survives a user's deletion also survives deleting any of that user's posts |
| Models.DeleteUserKeepsValid | tiny/models.py:17-45 | the cascade keeps ids unique and e-mails unique |
| TinyStore.Database.InsertUser | tiny/views/user.py:25-28 | `save()` of a new user appends it exactly when its e-mail is free (else the unique index refuses), keeping the indexes valid |
| TinyStore.Database.ReplaceUser | tiny/views/user.py:92 | `save()` of a changed user replaces that document only |
| TinyStore.Database.DeleteUser | tiny/views/user.py:72 | `delete()` leaves the collections as the cascade rules say |
| Forms.EmailErrors | tiny/forms.py:14-17 | the e-mail field has no error exactly when it is not blank and passes the e-mail check, and at most one |
| Forms.DisplayNameErrors | tiny/forms.py:18-21 | the display name has no error exactly when it is not blank and has 4 to 20 characters |
| Forms.PasswordErrors | tiny/forms.py:22-26 | the password has no error exactly when it is not blank, equals the confirmation and has 6 to 20 characters; a blank one has only the required error; a mismatch always reports "Passwords must match" |
| Forms.RegistrationForm.Validate | tiny/forms.py:29-40 | every field's errors are recomputed; true exactly when all fields pass and no user has the e-mail; the lookup's error is appended to the e-mail field alone and only after the fields pass |
| Forms.SignInForm.Validate | tiny/forms.py:54-71 | true exactly when the fields pass, an account has the e-mail and the password verifies; an unknown e-mail adds one e-mail error before the password is checked; a wrong password adds one password error; success leaves no errors |
| Forms.RegisteredUserSignsIn | tiny/forms.py:29-71 | once a registration is accepted and stored with its hashed password, signing in with that e-mail succeeds for exactly that password, and registering the e-mail again is refused |
| Views.Register | tiny/views.py:34-47 | a POST with a valid form stores exactly one user with the hashed password and sets the session's `email`; otherwise nothing changes and the form is shown |
| Views.SignIn | tiny/views.py:49-59 | a POST with a valid form sets the session's `email` to the account's e-mail and redirects to `next` or the index; otherwise the session is unchanged |
| Views.Logout | tiny/views.py:61-67 | only the `email` entry is removed |
| Views.Profile | tiny/views.py:69-75 | past the guard, the profile renders exactly when the session has an `email`; without one the read fails |
| Views.RegisterThenSignIn | tiny/views.py:40-58 | after a registration, signing in with the same e-mail succeeds for exactly the registered password |
| ViewsUser.SessionAvatar | tiny/views/user.py:51 | the session avatar is the user's own when it has one, and exactly the default image `/static/img/default-avatar.png` when it has none |
| ViewsUser.SignUp | tiny/views/user.py:15-37 | signed in: sent home with nothing changed; a valid POST saves one user and adds `id` and the default avatar to the session without clearing it; a taken e-mail raises |
| ViewsUser.SignIn | tiny/views/user.py:39-56 | signed in: sent home; a valid POST writes the form user's id and session avatar and redirects to `next` or home |
| ViewsUser.SignOut | tiny/views/user.py:58-65 | the session is cleared on POST only |
| ViewsUser.Delete | tiny/views/user.py:67-80 | a POST deletes the current user with every cascade and clears the session; a GET changes nothing; no current user raises |
| ViewsUser.Edit | tiny/views/user.py:82-97 | a valid POST overwrites display name and avatar with the form's values, whatever they are |
| ViewsUser.Show | tiny/views/user.py:104-116 | an unknown user is sent home with a warning; a known one is shown |
| App.FindOne | app.py:81 | `find_one` by e-mail finds a stored document with it, and nothing exactly when none has it |
| App.UserCollection.InsertOne | app.py:86-91 | `insert_one` appends exactly that document |
| App.RegisterCheck | app.py:53-83 | each message is produced exactly when every earlier check passes and its own fails: e-mail given, valid, display name given (no message), password given, at least 6 characters, equal to the confirmation, e-mail unused |
| App.SixCharacterPasswordAccepted | app.py:71-73 | a password of exactly six characters passes the length check |
| App.Register | app.py:35-95 | a GET or a failed check changes nothing; success inserts exactly one document with the hashed password, keeps e-mails unique and sets the session's `email` |
| App.LoginCheck | app.py:109-130 | e-mail given, password given, user exists, password verifies, in that order, each failure with its own message |
| App.Login | app.py:97-134 | a GET or a failed check leaves the session unchanged; success sets `email` to the submitted e-mail |
| App.RegisteredUserLogsIn | app.py:81-132 | a user registered with a password logs in with exactly that password |
| App.Logout | app.py:136-140 | only the `email` entry is removed |
| App.Profile | app.py:142-145 | the profile renders exactly when the session has an `email`; otherwise the visitor goes to login |
| BlueprintStore.FindByEmail | tiny/blueprints/user.py:65 | the lookup by e-mail finds a user with it, and nothing exactly when none has it |
| BlueprintStore.FindById | tiny/blueprints/user.py:103 | the lookup by id finds a user with it, and nothing exactly when none has it |
| BlueprintStore.CurrentUser | tiny/blueprints/user.py:123 | a session id that is not an ObjectId raises; a missing id or one no user has finds nothing; otherwise the user with that id |
| BlueprintStore.ExcludeContent | tiny/blueprints/user.py:229 | `exclude("content")` keeps every post and field except the content |
| BlueprintStore.Cap | tiny/blueprints/user.py:224 | a size above 100 becomes exactly 100, and any other size stays itself |
| BlueprintStore.IntArg | tiny/blueprints/user.py:209-210 | a missing argument takes its default; a given one is what `int` makes of its text |
| BlueprintStore.Serialize | tiny/blueprints/user.py:235-237 | the serializing loop returns every result, in order, unchanged |
| BlueprintStore.Database.InsertUser | tiny/blueprints/user.py:34-36 | a new user with a fresh id and free e-mail is appended, keeping ids and e-mails unique |
| BlueprintStore.Database.ReplaceUser | tiny/blueprints/user.py:147 | `save()` replaces that one user |
| BlueprintStore.Database.DeleteUser | tiny/blueprints/user.py:195 | `delete()` removes exactly that user's document, keeps every other user, and keeps ids and e-mails unique |
| BlueprintStore.Database.InsertPost | tiny/blueprints/post.py:31-36 | `save()` of a new post appends it |
| BlueprintUser.SignUp | tiny/blueprints/user.py:15-49 | a session with `user_id` is sent home untouched; a GET or invalid form changes nothing; a taken e-mail adds one form error and stores nothing; otherwise exactly one user is stored whose password verifies, and the session is exactly its id and avatar |
| BlueprintUser.SignIn | tiny/blueprints/user.py:51-88 | an unknown e-mail or a wrong password leaves the session unchanged with one error; success leaves the session exactly that user's id and avatar and redirects to `next` or home |
| BlueprintUser.SignOut | tiny/blueprints/user.py:90-97 | the session is cleared on POST only |
| BlueprintUser.Show | tiny/blueprints/user.py:99-113 | the profile is shown exactly when the id is an ObjectId some user has; otherwise home with a warning |
| BlueprintUser.UpdatedProfile | tiny/blueprints/user.py:139-146 | display name and bio are always replaced; the avatar only by its stripped value, and only when that is not empty; id, e-mail and password stay |
| BlueprintUser.UpdateProfile | tiny/blueprints/user.py:120-156 | a valid POST stores the updated profile and copies the stored avatar into the session; a bad session id raises first; a GET without a user raises; otherwise nothing changes |
| BlueprintUser.UpdatePassword | tiny/blueprints/user.py:158-183 | a wrong current password keeps the stored hash; success stores the new password's hash, which verifies exactly the new password |
| BlueprintUser.Delete | tiny/blueprints/user.py:185-204 | GET changes nothing; POST removes exactly the current user's document if there is one and clears the session; a bad session id raises before either |
| BlueprintUser.AuthorPageIsWindow | tiny/blueprints/user.py:228-232 | a page of an author's posts has at most `size` posts, all by that author, newest first, without content, and is the slice of the author's sorted posts from the offset |
| BlueprintUser.PostsQuery | tiny/blueprints/user.py:206-233 | author id, size, offset are checked in that order and the first failure gives its exact message; once all three parse, the answer is a list exactly when the capped size is at least 1 and the offset is not negative, and that list is the page of the author's posts at the capped size |
| BlueprintUser.Posts | tiny/blueprints/user.py:206-239 | the serializing loop returns exactly the query's answer |
| BlueprintUser.PostsBounded | tiny/blueprints/user.py:221-237 | a success has at most 100 posts, all by the requested author, newest first, with no content |
| BlueprintSearch.QueryResult | tiny/blueprints/search.py:16-44 | size then offset are checked with their exact messages; once both parse, the answer is a list exactly when the capped size is at least 1 and the offset is not negative, and that list is the page of the ordered set at the capped size without content |
| BlueprintSearch.Query | tiny/blueprints/search.py:16-51 | the serializing loop returns exactly the query's answer |
| BlueprintSearch.QueryBounded | tiny/blueprints/search.py:30-44 | a success has at most 100 posts, none with content |
| BlueprintSearch.QueryWithoutTerms | tiny/blueprints/search.py:40-44 | without terms the answer is the slice from the offset of all posts newest first |
| BlueprintSearch.QueryWithTerms | tiny/blueprints/search.py:36-44 | with terms every post of the answer is a stored matching post, best score first |
| BlueprintPost.New | tiny/blueprints/post.py:20-42 | a GET or invalid form stores nothing; otherwise exactly one post is appended with the form's fields, the time, and the signed-in user (or no one) as author; a bad session id raises |
| BlueprintPost.OrderFlagExact | tiny/blueprints/post.py:48 | the order flag holds for a given text exactly when it is "true" in some capitalisation |
| BlueprintPost.SearchResult | tiny/blueprints/post.py:44-52 | text that `int` rejects raises; once both parse, the answer is a list exactly when the size is at least 1 and the offset is not negative, and that list is skip/limit over the posts, newest `published` first under the order flag and in storage order otherwise |
| BlueprintPost.Search | tiny/blueprints/post.py:44-56 | the serializing loop returns exactly the query's answer |
| BlueprintPost.SearchOrdered | tiny/blueprints/post.py:49-52 | with the order flag the answer is newest `published` first |
| BlueprintPost.SearchUnordered | tiny/blueprints/post.py:49-52 | without it the answer is the storage-order slice from the offset |
| BlueprintPost.SearchUncapped | tiny/blueprints/post.py:46-52 | a size above 100 returns that many posts when there are that many |
| BlueprintPost.SearchDefaults | tiny/blueprints/post.py:46-48 | missing arguments mean size 12, offset 0, ordered |
| BlueprintPost.OrderFlagSamples | tiny/blueprints/post.py:48 | "TRUE", "True" and a missing flag order; "false", "1" and "" do not |
| BlueprintPost.Get | tiny/blueprints/post.py:59-65 | exactly twelve posts, each the schema defaults titled "Post Title" |

## Left out

- The JavaScript front end is not modelled. It is DOM and AJAX code.
- Password hashing: `sha256_crypt` is a salted one-way hash. The model uses
  an injective stand-in, and the proofs rely only on `Passwords.VerifyHash`.
- Templates, flashing and redirects are outcome tags. A rendered page
  carries its template, its `message` and the errors the handler appended.
  It does not carry the form or the user passed to the template.
- Text search: matching and the `$text_score` relevance score belong to
  the database. They are the parameters `matches` and `score`.
- Sort ties: for equal keys the database promises no order. The model
  keeps storage order (a stable sort).
- Out-of-range paging: a size below 1 (after the cap) or a negative offset
  gives `DriverDefined`. The driver's handling of `limit(0)`, negative
  limits and negative skips is not modelled.
- `is_int`, `is_valid_object_id`, `sign_in_required`, `is_signed_in`,
  `get_current_user`, `get_user_from_id` and `Post.serialize` are not part
  of this model.
  - `is_int` and `int` are the parameter `toInt`. `is_int` is taken to hold
    exactly where `int` succeeds.
  - `is_valid_object_id` (and what `ObjectId(text)` accepts) is 24
    hexadecimal digits.
  - The guards and current-user helpers are parameters.
  - A serialized post is the post itself.
- ObjectIds are compared as text. The hexadecimal case-folding of
  `ObjectId` is not modelled.
- tiny/views.py imports `sign_in_required` from tiny/helpers.py, but that
  file as given defines only `login_required`. `Views.Profile` takes the
  guard's verdict as a parameter.
- The wtforms library: the `Email()` check is the parameter
  `emailFormatOk`. `DataRequired()` is modelled as "not blank after
  `strip`". SignUpForm, EditUserForm, UpdateProfileForm,
  UpdatePasswordForm and NewPostForm are not part of this model. Neither is
  the SignInForm that tiny/views/user.py and tiny/blueprints/user.py
  import, since `Forms.SignInForm` models the one in tiny/forms.py. Their
  `validate()` verdict is a parameter.
- The blueprint-era schema is not part of this model.
  - The defaults of a new user or post are the parameter `defaults`.
  - BlueprintStore.Database.DeleteUser: it does not say what happens to
    the deleted user's posts. That schema's reverse-delete rule for a
    post's author is not in the repository, so the posts are left
    unconstrained after `BlueprintStore.Database.DeleteUser` and
    `BlueprintUser.Delete`.
  - BlueprintPost.New: it does not model the schema's validation on
    `save()`. tests/test_models.py:77-79 show that a post without an
    author fails validation, so `save()` would raise where the model
    stores a post with no author.
- The clock (`datetime.now`) and ObjectId generation are parameters. A new
  id is required to be unused.
- Races: two requests interleaving between a form's e-mail lookup and
  `save()` are not modelled.
- `Views.Register` and `ViewsUser.Edit` do not include the re-rendered
  form's errors in the response. `Forms.RegistrationForm.Validate` and
  `Forms.SignInForm.Validate` state those errors.
- BlueprintUser.Show: it does not model the exclusion of the e-mail and
  password from the shown user. The page's content is not part of the
  response.
- BlueprintPost.Lower: it lowers the ASCII letters only. No other character
  lowers to one of the letters of "true" in Python either, so
  `BlueprintPost.OrderFlagExact` describes the flag of the source.
- Render-only routes, settings pages, cache headers, `create_app`,
  configuration and the MongoDB initialisation script are not modelled.
