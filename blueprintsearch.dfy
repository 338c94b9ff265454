/**
 * tiny/blueprints/search.py: the `query` endpoint. Text search and its
 * relevance score belong to the database; here they are the parameters
 * `matches` and `score`.
 */
module BlueprintSearch {
  import opened Common
  import opened BlueprintStore
  import QuerySet

  /**
   * The query set before paging: with search terms, the posts that match
   * them, best score first; without, every post, newest `created` first.
   */
  function Ordered(posts: seq<Post>, terms: string, matches: (string, Post) -> bool, score: (string, Post) -> int)
    : seq<Post>
  {
    if terms != "" then QuerySet.SortDesc(QuerySet.Filter(posts, (p: Post) => matches(terms, p)), (p: Post) => score(terms, p))
    else QuerySet.SortDesc(posts, Created)
  }

  /** `query_set.exclude("content").skip(offset).limit(size)`. */
  function SearchPage(posts: seq<Post>, terms: string, offset: nat, size: nat,
                      matches: (string, Post) -> bool, score: (string, Post) -> int): seq<Post>
    requires size >= 1
  {
    ExcludeContent(QuerySet.Limit(QuerySet.Skip(Ordered(posts, terms, matches, score), offset), size))
  }

  /**
   * What `query` answers: `terms` defaults to the empty text, `size` to
   * 10 and `offset` to 0; the size is checked before the offset and the
   * first that fails is reported with its text; then a page of the
   * ordered query set, of the capped size and without content.
   */
  function QueryResult(posts: seq<Post>, terms: Arg, size: Arg, offset: Arg, toInt: string -> Option<int>,
                       matches: (string, Post) -> bool, score: (string, Post) -> int): (r: Listing)
    ensures IntArg(size, 10, toInt).None? <==> size.Given? && r == BadRequest("invalid size " + size.raw)
    ensures IntArg(size, 10, toInt).Some? && IntArg(offset, 0, toInt).None? ==>
              offset.Given? && r == BadRequest("invalid offset " + offset.raw)
    ensures r.Items? ==>
              var s := IntArg(size, 10, toInt);
              var o := IntArg(offset, 0, toInt);
              && s.Some? && o.Some? && Cap(s.value) >= 1 && o.value >= 0
              && r.posts == SearchPage(posts, ArgOr(terms, ""), o.value, Cap(s.value), matches, score)
    ensures IntArg(size, 10, toInt).Some? && IntArg(offset, 0, toInt).Some? ==>
              (r.Items? <==> Cap(IntArg(size, 10, toInt).value) >= 1 && IntArg(offset, 0, toInt).value >= 0)
    ensures r.BadRequest? || r.Items? || r.DriverDefined?
  {
    match IntArg(size, 10, toInt)
    case None => BadRequest("invalid size " + size.raw)
    case Some(s) =>
      match IntArg(offset, 0, toInt)
      case None =>
        assert !size.Given? || ("invalid offset " + offset.raw)[8] != ("invalid size " + size.raw)[8];
        BadRequest("invalid offset " + offset.raw)
      case Some(o) =>
        if Cap(s) < 1 || o < 0 then DriverDefined
        else Items(SearchPage(posts, ArgOr(terms, ""), o, Cap(s), matches, score))
  }

  /**
   * `query`: the query, then the loop that serializes each result
   * (`Serialize`).
   */
  method Query(db: Database, terms: Arg, size: Arg, offset: Arg, toInt: string -> Option<int>,
               matches: (string, Post) -> bool, score: (string, Post) -> int) returns (r: Listing)
    ensures r == QueryResult(db.posts, terms, size, offset, toInt, matches, score)
  {
    var t := ArgOr(terms, "");
    var s := IntArg(size, 10, toInt);
    if s.None? {
      return BadRequest("invalid size " + size.raw);
    }
    var o := IntArg(offset, 0, toInt);
    if o.None? {
      return BadRequest("invalid offset " + offset.raw);
    }
    var n := Cap(s.value);
    if n < 1 || o.value < 0 {
      return DriverDefined;
    }
    var results := SearchPage(db.posts, t, o.value, n, matches, score);
    var found := Serialize(results);
    return Items(found);
  }

  /** A successful answer never holds more than 100 posts, and none has its content. */
  lemma QueryBounded(posts: seq<Post>, terms: Arg, size: Arg, offset: Arg, toInt: string -> Option<int>,
                     matches: (string, Post) -> bool, score: (string, Post) -> int)
    requires QueryResult(posts, terms, size, offset, toInt, matches, score).Items?
    ensures var r := QueryResult(posts, terms, size, offset, toInt, matches, score).posts;
            |r| <= MaxPageSize && forall i :: 0 <= i < |r| ==> r[i].content.None?
  {
  }

  /**
   * Without search terms the answer is the slice, from the offset, of all
   * posts newest first, each without its content.
   */
  lemma QueryWithoutTerms(posts: seq<Post>, terms: Arg, size: Arg, offset: Arg, toInt: string -> Option<int>,
                          matches: (string, Post) -> bool, score: (string, Post) -> int)
    requires ArgOr(terms, "") == ""
    requires QueryResult(posts, terms, size, offset, toInt, matches, score).Items?
    ensures var r := QueryResult(posts, terms, size, offset, toInt, matches, score).posts;
            var o := IntArg(offset, 0, toInt).value;
            var n := Cap(IntArg(size, 10, toInt).value);
            var all := QuerySet.SortDesc(posts, Created);
            r == ExcludeContent(if o <= |all| then all[o..QuerySet.Min(o + n, |all|)] else [])
  {
    var o := IntArg(offset, 0, toInt).value;
    var n := Cap(IntArg(size, 10, toInt).value);
    QuerySet.WindowIsSlice(QuerySet.SortDesc(posts, Created), o, n);
  }

  /**
   * With search terms every post of the answer is a stored post that
   * matches them, with its content removed, and the posts come best score
   * first.
   */
  lemma QueryWithTerms(posts: seq<Post>, terms: Arg, size: Arg, offset: Arg, toInt: string -> Option<int>,
                       matches: (string, Post) -> bool, score: (string, Post) -> int) returns (w: seq<Post>)
    requires ArgOr(terms, "") != ""
    requires QueryResult(posts, terms, size, offset, toInt, matches, score).Items?
    ensures QueryResult(posts, terms, size, offset, toInt, matches, score).posts == ExcludeContent(w)
    ensures forall i :: 0 <= i < |w| ==> w[i] in posts && matches(ArgOr(terms, ""), w[i])
    ensures QuerySet.SortedDesc(w, (p: Post) => score(ArgOr(terms, ""), p))
  {
    var t := ArgOr(terms, "");
    var o := IntArg(offset, 0, toInt).value;
    var n := Cap(IntArg(size, 10, toInt).value);
    var sorted := Ordered(posts, t, matches, score);
    w := QuerySet.Limit(QuerySet.Skip(sorted, o), n);
    QuerySet.PageOfSorted(sorted, (p: Post) => score(t, p), o, n);
    OrderedHits(posts, t, matches, score);
  }

  /** With search terms the ordered query set holds only stored posts that match them. */
  lemma OrderedHits(posts: seq<Post>, terms: string, matches: (string, Post) -> bool, score: (string, Post) -> int)
    requires terms != ""
    ensures var sorted := Ordered(posts, terms, matches, score);
            forall k :: 0 <= k < |sorted| ==> sorted[k] in posts && matches(terms, sorted[k])
  {
    var hits := QuerySet.Filter(posts, (p: Post) => matches(terms, p));
    var sorted := Ordered(posts, terms, matches, score);
    forall k | 0 <= k < |sorted| ensures sorted[k] in posts && matches(terms, sorted[k]) {
      QuerySet.SortDescMember(hits, (p: Post) => score(terms, p), k);
      var m :| 0 <= m < |hits| && hits[m] == sorted[k];
    }
  }
}
