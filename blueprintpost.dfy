/**
 * tiny/blueprints/post.py: creating a post, the `search` listing and the
 * `get` placeholder listing. NewPostForm is not part of this model: its
 * `validate()` verdict is a parameter, and so is the `sign_in_required` guard.
 */
module BlueprintPost {
  import opened Common
  import opened BlueprintStore
  import QuerySet

  /**
   * `new`, behind `sign_in_required`. A GET or an invalid form shows the
   * form and stores nothing. Otherwise one post is stored: the schema
   * defaults with the form's fields, the publication time `now`, and as
   * author the signed-in user, or none when no user has the session's id;
   * a `user_id` that is not an ObjectId raises before anything is stored.
   */
  method New(db: Database, session: map<string, string>, signedIn: bool, verb: HttpMethod, formValid: bool,
             title: string, introduction: string, imageUrl: string, content: string,
             newId: Id, now: int, defaults: Post) returns (r: Response)
    modifies db
    ensures db.users == old(db.users)
    ensures !signedIn || verb == GET || !formValid || CurrentUser(session, old(db.users)).BadObjectId? ==>
              && db.posts == old(db.posts)
              && r == (if !signedIn then SignInRequired
                       else if verb == GET || !formValid then Page("post/new.html")
                       else ServerError)
    ensures signedIn && verb == POST && formValid && !CurrentUser(session, old(db.users)).BadObjectId? ==>
              && |db.posts| == |old(db.posts)| + 1
              && db.posts[..|old(db.posts)|] == old(db.posts)
              && var p := db.posts[|old(db.posts)|];
              && p == defaults.(id := Some(newId), author := p.author, title := title, introduction := introduction,
                                imageUrl := imageUrl, content := Some(content), published := now)
              && (match CurrentUser(session, old(db.users))
                  case Found(k) => p.author == Some(old(db.users)[k].id) && p.author == Some(session["user_id"])
                  case _ => p.author.None?)
              && r == Redirect(Home(), Flash("Post successfully created", "success"))
  {
    if !signedIn {
      return SignInRequired;
    }
    if verb == GET || !formValid {
      return Page("post/new.html");
    }
    var current := CurrentUser(session, db.users);
    if current.BadObjectId? {
      return ServerError;
    }
    var author := if current.Found? then Some(db.users[current.index].id) else None;
    var p := defaults.(id := Some(newId), author := author, title := title, introduction := introduction,
                       imageUrl := imageUrl, content := Some(content), published := now);
    db.InsertPost(p);
    return Redirect(Home(), Flash("Post successfully created", "success"));
  }

  /** Python's `str.lower` on the characters that can lower to ASCII letters. */
  function Lower(s: string): (r: string)
    ensures |r| == |s|
    ensures forall i :: 0 <= i < |s| ==> r[i] == LowerChar(s[i])
  {
    seq(|s|, i requires 0 <= i < |s| => LowerChar(s[i]))
  }

  function LowerChar(c: char): char
  {
    if 'A' <= c <= 'Z' then (c as int + 32) as char else c
  }

  /** `request.args.get("order", "true").lower() == "true"`. */
  predicate OrderFlag(order: Arg)
  {
    Lower(ArgOr(order, "true")) == "true"
  }

  /**
   * What `search` answers: `size` defaults to 12 and `offset` to 0, and
   * text that `int` rejects raises; with the order flag the posts come
   * newest `published` first, without it in storage order; then skip and
   * limit, with no cap on the size and the content kept.
   */
  function SearchResult(posts: seq<Post>, size: Arg, offset: Arg, order: Arg, toInt: string -> Option<int>)
    : (r: Listing)
    ensures r == Raises <==> IntArg(size, 12, toInt).None? || IntArg(offset, 0, toInt).None?
    ensures r.Items? ==>
              var s := IntArg(size, 12, toInt).value;
              var o := IntArg(offset, 0, toInt).value;
              var ordered := if OrderFlag(order) then QuerySet.SortDesc(posts, Published) else posts;
              s >= 1 && o >= 0 && r.posts == QuerySet.Limit(QuerySet.Skip(ordered, o), s)
    ensures IntArg(size, 12, toInt).Some? && IntArg(offset, 0, toInt).Some? ==>
              (r.Items? <==> IntArg(size, 12, toInt).value >= 1 && IntArg(offset, 0, toInt).value >= 0)
    ensures r.Raises? || r.Items? || r.DriverDefined?
  {
    match (IntArg(size, 12, toInt), IntArg(offset, 0, toInt))
    case (Some(s), Some(o)) =>
      var ordered := if OrderFlag(order) then QuerySet.SortDesc(posts, Published) else posts;
      if s < 1 || o < 0 then DriverDefined else Items(QuerySet.Limit(QuerySet.Skip(ordered, o), s))
    case _ => Raises
  }

  /**
   * `search`: the query, then the loop that serializes each result
   * (`Serialize`).
   */
  method Search(db: Database, size: Arg, offset: Arg, order: Arg, toInt: string -> Option<int>) returns (r: Listing)
    ensures r == SearchResult(db.posts, size, offset, order, toInt)
  {
    var s := IntArg(size, 12, toInt);
    var o := IntArg(offset, 0, toInt);
    if s.None? || o.None? {
      return Raises;
    }
    var ordered := if OrderFlag(order) then QuerySet.SortDesc(db.posts, Published) else db.posts;
    if s.value < 1 || o.value < 0 {
      return DriverDefined;
    }
    var results := QuerySet.Limit(QuerySet.Skip(ordered, o.value), s.value);
    var found := Serialize(results);
    return Items(found);
  }

  /** With the order flag the answer is newest `published` first. */
  lemma SearchOrdered(posts: seq<Post>, size: Arg, offset: Arg, order: Arg, toInt: string -> Option<int>)
    requires OrderFlag(order)
    requires SearchResult(posts, size, offset, order, toInt).Items?
    ensures QuerySet.SortedDesc(SearchResult(posts, size, offset, order, toInt).posts, Published)
  {
    var s := IntArg(size, 12, toInt).value;
    var o := IntArg(offset, 0, toInt).value;
    QuerySet.PageOfSorted(QuerySet.SortDesc(posts, Published), Published, o, s);
  }

  /** Without the order flag the answer is the storage-order slice from the offset. */
  lemma SearchUnordered(posts: seq<Post>, size: Arg, offset: Arg, order: Arg, toInt: string -> Option<int>)
    requires !OrderFlag(order)
    requires SearchResult(posts, size, offset, order, toInt).Items?
    ensures var s := IntArg(size, 12, toInt).value;
            var o := IntArg(offset, 0, toInt).value;
            SearchResult(posts, size, offset, order, toInt).posts
            == if o <= |posts| then posts[o..QuerySet.Min(o + s, |posts|)] else []
  {
    QuerySet.WindowIsSlice(posts, IntArg(offset, 0, toInt).value, IntArg(size, 12, toInt).value);
  }

  /**
   * No cap: a size above 100 returns that many posts when the store holds
   * that many, unlike the other two listings.
   */
  lemma SearchUncapped(posts: seq<Post>, size: Arg, order: Arg, toInt: string -> Option<int>)
    requires IntArg(size, 12, toInt).Some? && IntArg(size, 12, toInt).value > 100
    requires |posts| >= IntArg(size, 12, toInt).value
    ensures SearchResult(posts, size, Absent, order, toInt).Items?
    ensures |SearchResult(posts, size, Absent, order, toInt).posts| == IntArg(size, 12, toInt).value
  {
  }

  /** Missing arguments: size 12, offset 0 and the order flag set. */
  lemma SearchDefaults(posts: seq<Post>, toInt: string -> Option<int>)
    ensures SearchResult(posts, Absent, Absent, Absent, toInt)
            == Items(QuerySet.Limit(QuerySet.SortDesc(posts, Published), 12))
  {
    assert Lower("true") == "true";
    assert OrderFlag(Absent);
    assert IntArg(Absent, 12, toInt) == Some(12) && IntArg(Absent, 0, toInt) == Some(0);
    assert QuerySet.Skip(QuerySet.SortDesc(posts, Published), 0) == QuerySet.SortDesc(posts, Published);
  }

  /**
   * The order flag holds exactly for the capitalisations of "true": no
   * other character lowers to one of its letters.
   */
  lemma OrderFlagExact(t: string)
    ensures OrderFlag(Given(t)) <==>
              |t| == 4 && t[0] in "tT" && t[1] in "rR" && t[2] in "uU" && t[3] in "eE"
  {
    var l := Lower(t);
    if |t| == 4 {
      assert l == "true" <==> l[0] == 't' && l[1] == 'r' && l[2] == 'u' && l[3] == 'e';
      LowerCharIs(t[0], 't', 'T');
      LowerCharIs(t[1], 'r', 'R');
      LowerCharIs(t[2], 'u', 'U');
      LowerCharIs(t[3], 'e', 'E');
    } else {
      assert |l| != |"true"|;
    }
  }

  /** A lower-case ASCII letter comes from itself or its capital, and from nothing else. */
  lemma LowerCharIs(c: char, lower: char, upper: char)
    requires 'a' <= lower <= 'z' && upper as int == lower as int - 32
    ensures LowerChar(c) == lower <==> c in [lower, upper]
  {
  }

  /** Samples of the order flag: "TRUE", "True" and a missing flag order; "false", "1" and "" do not. */
  lemma OrderFlagSamples()
    ensures OrderFlag(Given("TRUE")) && OrderFlag(Given("True")) && OrderFlag(Absent)
    ensures !OrderFlag(Given("false")) && !OrderFlag(Given("1")) && !OrderFlag(Given(""))
  {
    assert Lower("TRUE") == "true";
    assert Lower("True") == "true";
    assert Lower("true") == "true";
    assert Lower("false")[0] == 'f';
  }

  /** The title every `get` placeholder has. */
  const PlaceholderTitle := "Post Title"

  /**
   * `get`: twelve unsaved posts, each the schema defaults with the title
   * "Post Title".
   */
  method Get(defaults: Post) returns (r: seq<Post>)
    ensures |r| == 12
    ensures forall i :: 0 <= i < |r| ==> r[i] == defaults.(title := PlaceholderTitle)
  {
    r := [];
    var i := 0;
    while i < 12
      invariant 0 <= i <= 12
      invariant |r| == i
      invariant forall k :: 0 <= k < i ==> r[k] == defaults.(title := PlaceholderTitle)
    {
      r := r + [defaults.(title := PlaceholderTitle)];
      i := i + 1;
    }
  }
}
