/**
 * The documents the `tiny/blueprints` routes read and write. Their schema
 * file is not part of this model: the fields are those the routes use, and
 * the defaults a new document gets from that schema are a parameter
 * (`defaults`) wherever a route creates one.
 */
module BlueprintStore {
  import opened Common
  import QuerySet
  import Helpers

  /** An ObjectId, as its hexadecimal text. */
  type Id = string

  datatype User = User(id: Id, email: string, password: string, displayName: string, avatarUrl: string, bio: string)

  /**
   * A post. `id` is missing on a post that was never saved, and `content`
   * is missing once a query has excluded it.
   */
  datatype Post = Post(id: Option<Id>, author: Option<Id>, title: string, introduction: string, imageUrl: string,
                       content: Option<string>, created: int, published: int)

  function UserId(u: User): Id { u.id }
  function UserEmail(u: User): string { u.email }
  function Created(p: Post): int { p.created }
  function Published(p: Post): int { p.published }

  /** Users have unique ids and unique e-mails. */
  predicate Valid(users: seq<User>)
  {
    QuerySet.UniqueBy(users, UserId) && QuerySet.UniqueBy(users, UserEmail)
  }

  /** `User.objects(email=email).first()`: the position of the first user with that e-mail. */
  function FindByEmail(users: seq<User>, email: string): (r: Option<nat>)
    ensures r.Some? ==> r.value < |users| && users[r.value].email == email
    ensures r.None? <==> forall k :: 0 <= k < |users| ==> users[k].email != email
  {
    QuerySet.First(users, (u: User) => u.email == email)
  }

  /** `User.objects(id=id).first()`: the position of the user with that id. */
  function FindById(users: seq<User>, id: Id): (r: Option<nat>)
    ensures r.Some? ==> r.value < |users| && users[r.value].id == id
    ensures r.None? <==> forall k :: 0 <= k < |users| ==> users[k].id != id
  {
    QuerySet.First(users, (u: User) => u.id == id)
  }

  /**
   * The result of looking up the signed-in user: the id text is not an
   * ObjectId (the constructor raises), no user has it, or the user's position.
   */
  datatype Lookup = BadObjectId | NotFound | Found(index: nat)

  /**
   * `User.objects(id=ObjectId(session.get("user_id"))).first()`. A missing
   * entry gives `ObjectId(None)`, a fresh id that no stored user has; text
   * that is not an ObjectId makes the constructor raise.
   */
  function CurrentUser(session: map<string, string>, users: seq<User>): (l: Lookup)
    ensures l == BadObjectId <==> "user_id" in session && !Helpers.IsValidObjectId(session["user_id"])
    ensures l.Found? ==> "user_id" in session && l.index < |users| && users[l.index].id == session["user_id"]
    ensures l == NotFound <==>
              "user_id" !in session
              || (Helpers.IsValidObjectId(session["user_id"])
                  && forall k :: 0 <= k < |users| ==> users[k].id != session["user_id"])
  {
    if "user_id" !in session then NotFound
    else if !Helpers.IsValidObjectId(session["user_id"]) then BadObjectId
    else
      match FindById(users, session["user_id"])
      case None => NotFound
      case Some(k) => Found(k)
  }

  /** `exclude("content")` on every post of a result. */
  function ExcludeContent(s: seq<Post>): (r: seq<Post>)
    ensures |r| == |s|
    ensures forall i :: 0 <= i < |r| ==> r[i] == s[i].(content := None)
  {
    seq(|s|, i requires 0 <= i < |s| => s[i].(content := None))
  }

  /**
   * What a listing endpoint answers: a 400 with an error message, the JSON
   * list of posts, an uncaught exception, or, for a size below one or a
   * negative offset, whatever the database driver makes of it.
   */
  datatype Listing = BadRequest(message: string) | Items(posts: seq<Post>) | Raises | DriverDefined

  /** The largest page the author and search listings return. */
  const MaxPageSize := 100

  /** `size = 100 if size > 100 else size`. */
  function Cap(size: int): (n: int)
    ensures n <= MaxPageSize
    ensures size <= MaxPageSize ==> n == size
    ensures size > MaxPageSize ==> n == MaxPageSize
  {
    if size > MaxPageSize then MaxPageSize else size
  }

  /**
   * An integer query argument: the default when it is missing, otherwise
   * what `int` makes of its text (`toInt`, undefined where `is_int` is false).
   */
  function IntArg(a: Arg, default: int, toInt: string -> Option<int>): (r: Option<int>)
    ensures a.Absent? ==> r == Some(default)
    ensures a.Given? ==> r == toInt(a.raw)
  {
    match a
    case Absent => Some(default)
    case Given(raw) => toInt(raw)
  }

  /**
   * The loop every listing ends with, `posts.append(result.serialize())`
   * for each result; the serialized form of a post is the post itself.
   */
  method Serialize(results: seq<Post>) returns (posts: seq<Post>)
    ensures posts == results
  {
    posts := [];
    var i := 0;
    while i < |results|
      invariant 0 <= i <= |results|
      invariant posts == results[..i]
    {
      posts := posts + [results[i]];
      i := i + 1;
    }
    assert results[..i] == results;
  }

  /** The `user` and `post` collections, in storage order. */
  class Database {
    var users: seq<User>
    var posts: seq<Post>

    constructor (users: seq<User>, posts: seq<Post>)
      requires Valid(users)
      ensures this.users == users && this.posts == posts
    {
      this.users, this.posts := users, posts;
    }

    /** `User(...).save()` of a user with a fresh id and an e-mail nobody has. */
    method InsertUser(u: User)
      requires Valid(users)
      requires FindById(users, u.id).None? && FindByEmail(users, u.email).None?
      modifies this
      ensures Valid(users)
      ensures users == old(users) + [u] && posts == old(posts)
    {
      users := users + [u];
      assert QuerySet.UniqueBy(users, UserId) by {
        forall i, j | 0 <= i < |users| && 0 <= j < |users| && i != j
          ensures UserId(users[i]) != UserId(users[j])
        {
        }
      }
      assert QuerySet.UniqueBy(users, UserEmail) by {
        forall i, j | 0 <= i < |users| && 0 <= j < |users| && i != j
          ensures UserEmail(users[i]) != UserEmail(users[j])
        {
        }
      }
    }

    /** `user.save()` after changing fields other than the id and e-mail. */
    method ReplaceUser(k: nat, u: User)
      requires Valid(users)
      requires k < |users| && users[k].id == u.id && users[k].email == u.email
      modifies this
      ensures Valid(users)
      ensures users == old(users)[k := u] && posts == old(posts)
    {
      users := users[k := u];
      assert QuerySet.UniqueBy(users, UserId) by {
        forall i, j | 0 <= i < |users| && 0 <= j < |users| && i != j
          ensures UserId(users[i]) != UserId(users[j])
        {
          assert UserId(users[i]) == UserId(old(users)[i]);
          assert UserId(users[j]) == UserId(old(users)[j]);
        }
      }
      assert QuerySet.UniqueBy(users, UserEmail) by {
        forall i, j | 0 <= i < |users| && 0 <= j < |users| && i != j
          ensures UserEmail(users[i]) != UserEmail(users[j])
        {
          assert UserEmail(users[i]) == UserEmail(old(users)[i]);
          assert UserEmail(users[j]) == UserEmail(old(users)[j]);
        }
      }
    }

    /**
     * `user.delete()`: that user's document goes. What happens to the user's
     * posts depends on the schema's reverse-delete rule, which is not part of
     * this model, so the posts are left unconstrained.
     */
    method DeleteUser(id: Id)
      requires Valid(users)
      modifies this
      ensures Valid(users)
      ensures users == QuerySet.Filter(old(users), (x: User) => x.id != id)
    {
      QuerySet.FilterKeepsUnique(users, (x: User) => x.id != id, UserId);
      QuerySet.FilterKeepsUnique(users, (x: User) => x.id != id, UserEmail);
      users := QuerySet.Filter(users, (x: User) => x.id != id);
    }

    /** `Post(...).save()`. */
    method InsertPost(p: Post)
      modifies this
      ensures posts == old(posts) + [p] && users == old(users)
    {
      posts := posts + [p];
    }
  }
}
