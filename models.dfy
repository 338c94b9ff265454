/**
 * tiny/models.py: the User, Post and Comment documents, the unique index on
 * the user's e-mail, and the `reverse_delete_rule=CASCADE` references that
 * decide what disappears with a deleted user or post.
 */
module Models {
  import opened Common
  import QuerySet

  /** An ObjectId, as its hexadecimal text. */
  type Id = string

  datatype User = User(id: Id, email: string, displayName: string, password: string, avatarUrl: string, joined: int)

  datatype Post = Post(id: Id, author: Option<Id>, title: string, imageUrl: string, content: string,
                       published: int, edited: int, tags: seq<string>)

  datatype Comment = Comment(id: Id, author: Option<Id>, post: Option<Id>, content: string,
                             published: int, edited: int, likers: seq<Id>, dislikers: seq<Id>)

  /** The three collections, each in storage order. */
  datatype Db = Db(users: seq<User>, posts: seq<Post>, comments: seq<Comment>)

  function UserId(u: User): Id { u.id }
  function UserEmail(u: User): string { u.email }
  function PostId(p: Post): Id { p.id }
  function CommentId(c: Comment): Id { c.id }

  /** `email = EmailField(unique=True)`: no two users share an e-mail. */
  predicate EmailsUnique(users: seq<User>)
  {
    QuerySet.UniqueBy(users, UserEmail)
  }

  /** Every collection has unique ids, and e-mails are unique among users. */
  predicate Valid(db: Db)
  {
    && QuerySet.UniqueBy(db.users, UserId)
    && EmailsUnique(db.users)
    && QuerySet.UniqueBy(db.posts, PostId)
    && QuerySet.UniqueBy(db.comments, CommentId)
  }

  /** `User.objects(email=email).first()`. */
  function FindByEmail(users: seq<User>, email: string): (r: Option<User>)
    ensures r.Some? ==> r.value in users && r.value.email == email
    ensures r.None? <==> forall k :: 0 <= k < |users| ==> users[k].email != email
  {
    match QuerySet.First(users, (u: User) => u.email == email)
    case Some(k) => Some(users[k])
    case None => None
  }

  /** `User.objects(id=id).first()`. */
  function FindById(users: seq<User>, id: Id): (r: Option<nat>)
    ensures r.Some? ==> r.value < |users| && users[r.value].id == id
    ensures r.None? <==> forall k :: 0 <= k < |users| ==> users[k].id != id
  {
    QuerySet.First(users, (u: User) => u.id == id)
  }

  /** With unique e-mails, the user a lookup by e-mail finds is the only one with that e-mail. */
  lemma FindByEmailUnique(users: seq<User>, email: string, k: nat)
    requires EmailsUnique(users)
    requires k < |users| && users[k].email == email
    ensures FindByEmail(users, email) == Some(users[k])
  {
    var m := QuerySet.First(users, (u: User) => u.email == email).value;
    assert UserEmail(users[m]) == UserEmail(users[k]);
  }

  /* ------------------------------------------------- reverse-delete rules */

  /** The ids of the posts whose author is `u` (`Post.author`, CASCADE). */
  function PostsOf(posts: seq<Post>, u: Id): set<Id>
  {
    set k | 0 <= k < |posts| && posts[k].author == Some(u) :: posts[k].id
  }

  /**
   * A comment goes with user `u` when `u` wrote it (`Comment.author`), likes
   * or dislikes it (`likers`, `dislikers`), or when the post it belongs to is
   * deleted with `u` (`Comment.post`).
   */
  predicate GoesWithUser(c: Comment, u: Id, deletedPosts: set<Id>)
  {
    || c.author == Some(u)
    || u in c.likers
    || u in c.dislikers
    || (c.post.Some? && c.post.value in deletedPosts)
  }

  /** `user.delete()` with every CASCADE rule applied. */
  function DeleteUser(db: Db, u: Id): Db
  {
    var gone := PostsOf(db.posts, u);
    Db(QuerySet.Filter(db.users, (x: User) => x.id != u),
       QuerySet.Filter(db.posts, (p: Post) => p.author != Some(u)),
       QuerySet.Filter(db.comments, (c: Comment) => !GoesWithUser(c, u, gone)))
  }

  /** `post.delete()`: the post goes, and so do the comments that reference it. */
  function DeletePost(db: Db, pid: Id): Db
  {
    Db(db.users,
       QuerySet.Filter(db.posts, (p: Post) => p.id != pid),
       QuerySet.Filter(db.comments, (c: Comment) => c.post != Some(pid)))
  }

  /** Deleting a user removes that user and no other. */
  lemma DeleteUserUsers(db: Db, u: Id, x: User)
    ensures x in DeleteUser(db, u).users <==> x in db.users && x.id != u
  {
    QuerySet.FilterIn(db.users, (y: User) => y.id != u, x);
  }

  /** Deleting a user removes exactly the posts that user wrote. */
  lemma DeleteUserPosts(db: Db, u: Id, p: Post)
    ensures p in DeleteUser(db, u).posts <==> p in db.posts && p.author != Some(u)
  {
    QuerySet.FilterIn(db.posts, (q: Post) => q.author != Some(u), p);
  }

  /**
   * Deleting a user removes exactly the comments that user wrote, liked or
   * disliked, and the comments on that user's posts; every other comment stays.
   */
  lemma DeleteUserComments(db: Db, u: Id, c: Comment)
    ensures c in DeleteUser(db, u).comments <==>
              && c in db.comments
              && c.author != Some(u)
              && u !in c.likers
              && u !in c.dislikers
              && !(c.post.Some? && (exists k :: 0 <= k < |db.posts| && db.posts[k].author == Some(u)
                                                 && db.posts[k].id == c.post.value))
  {
    var gone := PostsOf(db.posts, u);
    QuerySet.FilterIn(db.comments, (d: Comment) => !GoesWithUser(d, u, gone), c);
    if c.post.Some? && c.post.value in gone {
      var k :| 0 <= k < |db.posts| && db.posts[k].author == Some(u) && db.posts[k].id == c.post.value;
    }
  }

  /** Deleting a post removes that post and exactly the comments that reference it. */
  lemma DeletePostCascade(db: Db, pid: Id, p: Post, c: Comment)
    ensures DeletePost(db, pid).users == db.users
    ensures p in DeletePost(db, pid).posts <==> p in db.posts && p.id != pid
    ensures c in DeletePost(db, pid).comments <==> c in db.comments && c.post != Some(pid)
  {
    QuerySet.FilterIn(db.posts, (q: Post) => q.id != pid, p);
    QuerySet.FilterIn(db.comments, (d: Comment) => d.post != Some(pid), c);
  }

  /**
   * The user cascade reaches through the post cascade: a comment that
   * survives the deletion of user `u` would also survive deleting any one of
   * `u`'s posts on its own.
   */
  lemma DeleteUserCoversPostCascade(db: Db, u: Id, k: nat, c: Comment)
    requires k < |db.posts| && db.posts[k].author == Some(u)
    requires c in DeleteUser(db, u).comments
    ensures c in DeletePost(db, db.posts[k].id).comments
  {
    DeleteUserComments(db, u, c);
    DeletePostCascade(db, db.posts[k].id, db.posts[k], c);
  }

  /** The cascade keeps every unique index, the e-mail index included. */
  lemma DeleteUserKeepsValid(db: Db, u: Id)
    requires Valid(db)
    ensures Valid(DeleteUser(db, u))
  {
    var gone := PostsOf(db.posts, u);
    QuerySet.FilterKeepsUnique(db.users, (x: User) => x.id != u, UserId);
    QuerySet.FilterKeepsUnique(db.users, (x: User) => x.id != u, UserEmail);
    QuerySet.FilterKeepsUnique(db.posts, (p: Post) => p.author != Some(u), PostId);
    QuerySet.FilterKeepsUnique(db.comments, (c: Comment) => !GoesWithUser(c, u, gone), CommentId);
  }
}
