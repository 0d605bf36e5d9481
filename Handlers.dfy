/**
 * The request handlers of the blog server (handlers/blog.go) with the
 * database and HTTP plumbing taken out: the rows the database returns are
 * an input, the posts table is a store object, and the slug library is a
 * function parameter.
 *
 * Case mapping is ASCII only (strings.ToLower also maps non-ASCII letters).
 */
module Handlers {
  import opened Text
  import opened Wrappers

  /** A row of the posts table, as GetPosts returns it (database.Post). */
  datatype Row = Row(title: Bytes, content: Bytes)

  /** A post as the templates receive it (types.Post). */
  datatype WebPost = WebPost(title: Bytes, content: Bytes)

  /** newPost: a post with the given title and content. */
  function NewPost(title: Bytes, content: Bytes): (p: WebPost)
    ensures p.title == title && p.content == content
  {
    WebPost(title, content)
  }

  // ---------------------------------------------------------------------
  // Converting rows to posts (HandleGetPosts, HandleSearch).
  // ---------------------------------------------------------------------

  /** The posts of the rows: one per row, in order, each with the row's
      title and content unchanged. */
  function Converted(rows: seq<Row>): (r: seq<WebPost>)
    ensures |r| == |rows|
    ensures forall i :: 0 <= i < |rows| ==>
              r[i].title == rows[i].title && r[i].content == rows[i].content
  {
    seq(|rows|, i requires 0 <= i < |rows| => NewPost(rows[i].title, rows[i].content))
  }

  /** The loop that appends newPost(row.Title, row.Content) for each row. */
  method ConvertRows(rows: seq<Row>) returns (posts: seq<WebPost>)
    ensures posts == Converted(rows)
  {
    posts := [];
    for i := 0 to |rows|
      invariant posts == Converted(rows[..i])
    {
      posts := posts + [NewPost(rows[i].title, rows[i].content)];
    }
    assert rows[..|rows|] == rows;
  }

  // ---------------------------------------------------------------------
  // The title filter of HandleSearch.
  // ---------------------------------------------------------------------

  /** The lower-cased title of the post contains the (lower-cased) query. */
  predicate Matches(p: WebPost, query: Bytes)
  {
    Contains(Lower(p.title), query)
  }

  /** The posts that match the query, in their original order. */
  function Matching(posts: seq<WebPost>, query: Bytes): seq<WebPost>
    decreases |posts|
  {
    if posts == [] then []
    else
      var n := |posts| - 1;
      Matching(posts[..n], query) + (if Matches(posts[n], query) then [posts[n]] else [])
  }

  /** The loop that keeps the posts whose lower-cased title contains the
      query. */
  method FilterByTitle(posts: seq<WebPost>, query: Bytes) returns (results: seq<WebPost>)
    ensures results == Matching(posts, query)
  {
    results := [];
    for i := 0 to |posts|
      invariant results == Matching(posts[..i], query)
    {
      assert posts[..i + 1][..i] == posts[..i];
      if Contains(Lower(posts[i].title), query) {
        results := results + [posts[i]];
      }
    }
    assert posts[..|posts|] == posts;
  }

  /** HandleSearch from the rows GetPosts returned and the raw "search"
      parameter: the query is lower-cased, the rows are converted and the
      posts are filtered. */
  method Search(rows: seq<Row>, search: Bytes) returns (results: seq<WebPost>)
    ensures results == Matching(Converted(rows), Lower(search))
  {
    var query := Lower(search);
    var posts := ConvertRows(rows);
    results := FilterByTitle(posts, query);
  }

  // ---------------------------------------------------------------------
  // What the filter promises.
  // ---------------------------------------------------------------------

  /** Indices into a sequence of length n, strictly increasing. */
  predicate Increasing(idx: seq<nat>, n: nat)
  {
    (forall k :: 0 <= k < |idx| ==> idx[k] < n)
    && (forall k, l :: 0 <= k < l < |idx| ==> idx[k] < idx[l])
  }

  /** The positions of the matching posts. */
  function Picked(posts: seq<WebPost>, query: Bytes): (idx: seq<nat>)
    ensures Increasing(idx, |posts|)
    ensures forall i :: 0 <= i < |posts| ==> (i in idx <==> Matches(posts[i], query))
    decreases |posts|
  {
    if posts == [] then []
    else
      var n := |posts| - 1;
      var rest := Picked(posts[..n], query);
      assert forall i :: 0 <= i < n ==> posts[..n][i] == posts[i];
      rest + (if Matches(posts[n], query) then [n] else [])
  }

  /** The results are the posts at the matching positions, in increasing
      order: an order-preserving subsequence holding exactly the posts that
      match. */
  lemma {:induction false} MatchingIsPicked(posts: seq<WebPost>, query: Bytes)
    ensures |Matching(posts, query)| == |Picked(posts, query)|
    ensures forall k :: 0 <= k < |Picked(posts, query)| ==>
              Matching(posts, query)[k] == posts[Picked(posts, query)[k]]
  {
    if posts != [] {
      var n := |posts| - 1;
      MatchingIsPicked(posts[..n], query);
      var idx := Picked(posts[..n], query);
      forall k | 0 <= k < |idx|
        ensures posts[..n][idx[k]] == posts[idx[k]]
      {
      }
    }
  }

  /** Soundness: every result matches the query. */
  lemma {:induction false} MatchingSound(posts: seq<WebPost>, query: Bytes)
    ensures forall p :: p in Matching(posts, query) ==> Matches(p, query)
  {
    if posts != [] {
      MatchingSound(posts[..|posts| - 1], query);
    }
  }

  /** Completeness: every post that matches the query is a result. */
  lemma {:induction false} MatchingComplete(posts: seq<WebPost>, query: Bytes)
    ensures forall i :: 0 <= i < |posts| && Matches(posts[i], query) ==>
              posts[i] in Matching(posts, query)
  {
    if posts != [] {
      var n := |posts| - 1;
      MatchingComplete(posts[..n], query);
      forall i | 0 <= i < n && Matches(posts[i], query)
        ensures posts[i] in Matching(posts, query)
      {
        assert posts[..n][i] == posts[i];
      }
    }
  }

  /** The empty query matches every title. */
  lemma EmptyQueryMatches(p: WebPost)
    ensures Matches(p, [])
  {
    assert Occurs(Lower(p.title), [], 0);
  }

  /** An empty search returns every post. */
  lemma {:induction false} EmptySearchKeepsAll(posts: seq<WebPost>)
    ensures Matching(posts, []) == posts
  {
    if posts != [] {
      var n := |posts| - 1;
      EmptySearchKeepsAll(posts[..n]);
      EmptyQueryMatches(posts[n]);
      assert posts[..n] + [posts[n]] == posts;
    }
  }

  /** The case of the search text does not change the results: searching
      for its upper-cased or its lower-cased form gives the same posts. */
  lemma SearchIgnoresCase(rows: seq<Row>, search: Bytes)
    ensures Matching(Converted(rows), Lower(Upper(search))) == Matching(Converted(rows), Lower(search))
    ensures Matching(Converted(rows), Lower(Lower(search))) == Matching(Converted(rows), Lower(search))
  {
    LowerOfUpper(search);
    LowerIdempotent(search);
  }

  /** The case of a title does not change whether it matches. */
  lemma MatchIgnoresTitleCase(title: Bytes, content: Bytes, query: Bytes)
    ensures Matches(NewPost(Upper(title), content), query) == Matches(NewPost(title, content), query)
  {
    LowerOfUpper(title);
  }

  // ---------------------------------------------------------------------
  // Creating a post (HandleCreatePostSubmit).
  // ---------------------------------------------------------------------

  /** The parameters of CreatePost: the stored title and content. */
  datatype Record = Record(title: Bytes, content: Bytes)

  /** How a submission ends: ignored because a field is empty, failed
      because the database reported an error, or stored and redirected to
      the post list. */
  datatype Outcome = Rejected | Failed | Redirected

  /** The record a submission asks the database to store, if any: none when
      the title or the content is empty, otherwise the slug of the title
      with the content unchanged. */
  function Submission(title: Bytes, content: Bytes, slug: Bytes -> Bytes): (r: Option<Record>)
    ensures r.None? <==> title == [] || content == []
    ensures r.Some? ==> r.value.title == slug(title) && r.value.content == content
  {
    if title == [] || content == [] then None else Some(Record(slug(title), content))
  }

  /** The posts table. */
  class PostStore {
    var records: seq<Record>

    constructor ()
      ensures records == []
    {
      records := [];
    }

    /** HandleCreatePostSubmit with the form fields `title` and `content`;
        `dbError` is the database's answer to the insert. */
    method CreatePostSubmit(title: Bytes, content: Bytes, slug: Bytes -> Bytes, dbError: bool)
      returns (outcome: Outcome)
      modifies this
      ensures outcome == Rejected <==> title == [] || content == []
      ensures outcome == Failed <==> title != [] && content != [] && dbError
      ensures outcome == Redirected ==> records == old(records) + [Record(slug(title), content)]
      ensures outcome != Redirected ==> records == old(records)
    {
      var submission := Submission(title, content, slug);
      if submission.None? {
        return Rejected;
      }
      if dbError {
        return Failed;
      }
      records := records + [submission.value];
      return Redirected;
    }
  }
}
