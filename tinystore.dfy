/**
 * The document store behind the `tiny` package's views: `save()` and
 * `delete()` on the documents of tiny/models.py. A new user whose e-mail is
 * already taken is refused, as the unique index refuses it.
 */
module TinyStore {
  import opened Common
  import opened Models

  class Database {
    var users: seq<User>
    var posts: seq<Post>
    var comments: seq<Comment>

    function State(): Db
      reads this
    {
      Db(users, posts, comments)
    }

    constructor (initial: Db)
      requires Valid(initial)
      ensures State() == initial
    {
      users, posts, comments := initial.users, initial.posts, initial.comments;
    }

    /**
     * `User(...).save()` for a new document. The id is the fresh ObjectId
     * the driver assigns. `ok` is false (the driver's NotUniqueError) exactly
     * when the e-mail is taken, and then nothing changes.
     */
    method InsertUser(u: User) returns (ok: bool)
      requires Valid(State())
      requires FindById(users, u.id).None?
      modifies this
      ensures Valid(State())
      ensures ok <==> FindByEmail(old(users), u.email).None?
      ensures users == if ok then old(users) + [u] else old(users)
      ensures posts == old(posts) && comments == old(comments)
    {
      ok := FindByEmail(users, u.email).None?;
      if ok {
        users := users + [u];
        assert QuerySet.UniqueBy(users, UserId) by {
          forall i, j | 0 <= i < |users| && 0 <= j < |users| && i != j
            ensures UserId(users[i]) != UserId(users[j])
          {
          }
        }
        assert EmailsUnique(users) by {
          forall i, j | 0 <= i < |users| && 0 <= j < |users| && i != j
            ensures UserEmail(users[i]) != UserEmail(users[j])
          {
          }
        }
      }
    }

    /**
     * `user.save()` after changing fields other than the e-mail: the stored
     * document at position `k` is replaced.
     */
    method ReplaceUser(k: nat, u: User)
      requires Valid(State())
      requires k < |users| && users[k].id == u.id && users[k].email == u.email
      modifies this
      ensures Valid(State())
      ensures users == old(users)[k := u]
      ensures posts == old(posts) && comments == old(comments)
    {
      users := users[k := u];
      assert QuerySet.UniqueBy(users, UserId) by {
        forall i, j | 0 <= i < |users| && 0 <= j < |users| && i != j
          ensures UserId(users[i]) != UserId(users[j])
        {
          assert UserId(users[i]) == UserId(old(users)[i]);
          assert UserId(users[j]) == UserId(old(users)[j]);
        }
      }
      assert EmailsUnique(users) by {
        forall i, j | 0 <= i < |users| && 0 <= j < |users| && i != j
          ensures UserEmail(users[i]) != UserEmail(users[j])
        {
          assert UserEmail(users[i]) == UserEmail(old(users)[i]);
          assert UserEmail(users[j]) == UserEmail(old(users)[j]);
        }
      }
    }

    /** `user.delete()`: the user and everything its CASCADE rules reach. */
    method DeleteUser(id: Id)
      requires Valid(State())
      modifies this
      ensures Valid(State())
      ensures State() == Models.DeleteUser(old(State()), id)
    {
      DeleteUserKeepsValid(State(), id);
      var next := Models.DeleteUser(State(), id);
      users, posts, comments := next.users, next.posts, next.comments;
    }
  }
}
