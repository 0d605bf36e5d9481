/**
 * Where main.go writes each post: the directory
 * path.Join("docs/", date formatted as "2006/01/02", slug of the title),
 * and in it the file "index.html"; and the loop that writes one file per
 * post, in collection order, a later post overwriting an earlier one with
 * the same path.
 *
 * The slug function of the gosimple/slug library is a parameter: its
 * output is only assumed to hold neither '/' nor '.', as the library's
 * output alphabet (lower-case letters, digits, '-' and '_') does not.
 */
module Site {
  import opened Text
  import opened Dates
  import opened Pages

  // ---------------------------------------------------------------------
  // path.Clean and path.Join, for paths without "." and ".." segments.
  // ---------------------------------------------------------------------

  /** The non-empty pieces, in order. */
  function NonEmpty(parts: seq<Bytes>): seq<Bytes>
  {
    if parts == [] then []
    else (if parts[0] == [] then [] else [parts[0]]) + NonEmpty(parts[1..])
  }

  /** No segment of `p` is "." or "..", the segments path.Clean rewrites. */
  predicate NoDotSegments(p: Bytes)
  {
    forall seg :: seg in Split(p, '/') ==> seg != "." && seg != ".."
  }

  /** path.Clean on a path without dot segments: runs of slashes become
      one, a trailing slash goes, a rooted path keeps its leading slash and
      the empty path becomes ".". The result is never empty, and it is
      rooted exactly when the path is. */
  function Clean(p: Bytes): (r: Bytes)
    requires NoDotSegments(p)
    ensures r != []
    ensures r[0] == '/' <==> |p| > 0 && p[0] == '/'
  {
    var segs := NonEmpty(Split(p, '/'));
    NonEmptyPieces(Split(p, '/'), '/');
    if |p| > 0 && p[0] == '/' then "/" + JoinWith(segs, '/')
    else if segs == [] then "."
    else JoinWithHead(segs, '/'); JoinWith(segs, '/')
  }

  /** The pieces NonEmpty keeps are not empty and, when no part holds the
      separator, hold no separator. */
  lemma {:induction false} NonEmptyPieces(parts: seq<Bytes>, sep: Byte)
    requires forall k :: 0 <= k < |parts| ==> sep !in parts[k]
    ensures forall k :: 0 <= k < |NonEmpty(parts)| ==>
              NonEmpty(parts)[k] != [] && sep !in NonEmpty(parts)[k]
  {
    if parts != [] {
      NonEmptyPieces(parts[1..], sep);
    }
  }

  /** path.Join: the elements from the first non-empty one on, joined with
      slashes and cleaned. The result is "" exactly when every element is
      empty, and otherwise it is rooted exactly when the first non-empty
      element is. */
  function PathJoin(elems: seq<Bytes>): (r: Bytes)
    requires forall e :: e in elems ==> NoDotSegments(e)
    ensures r == [] <==> NonEmpty(elems) == []
    ensures r != [] ==> NonEmpty(elems)[0] != [] && (r[0] == '/' <==> NonEmpty(elems)[0][0] == '/')
  {
    if elems == [] then []
    else if elems[0] == [] then PathJoin(elems[1..])
    else
      NoDotSegmentsJoin(elems);
      JoinWithHead(elems, '/');
      Clean(JoinWith(elems, '/'))
  }

  /** The pieces of every part, in order. */
  function SplitAll(parts: seq<Bytes>, sep: Byte): seq<Bytes>
  {
    if parts == [] then [] else Split(parts[0], sep) + SplitAll(parts[1..], sep)
  }

  lemma {:induction false} SplitOfJoin(parts: seq<Bytes>, sep: Byte)
    requires |parts| >= 1
    ensures Split(JoinWith(parts, sep), sep) == SplitAll(parts, sep)
  {
    if |parts| == 1 {
      assert SplitAll(parts[1..], sep) == [];
    } else {
      SplitOfJoin(parts[1..], sep);
      SplitAround(parts[0], sep, JoinWith(parts[1..], sep));
    }
  }

  lemma {:induction false} NoDotSegmentsJoin(elems: seq<Bytes>)
    requires |elems| >= 1
    requires forall e :: e in elems ==> NoDotSegments(e)
    ensures NoDotSegments(JoinWith(elems, '/'))
  {
    SplitOfJoin(elems, '/');
    SplitAllSegments(elems);
  }

  lemma {:induction false} SplitAllSegments(elems: seq<Bytes>)
    requires forall e :: e in elems ==> NoDotSegments(e)
    ensures forall seg :: seg in SplitAll(elems, '/') ==> seg != "." && seg != ".."
  {
    if elems != [] {
      SplitAllSegments(elems[1..]);
      assert NoDotSegments(elems[0]);
    }
  }

  lemma {:induction false} NonEmptyAppend(a: seq<Bytes>, b: seq<Bytes>)
    ensures NonEmpty(a + b) == NonEmpty(a) + NonEmpty(b)
  {
    if a != [] {
      assert (a + b)[0] == a[0];
      assert (a + b)[1..] == a[1..] + b;
      NonEmptyAppend(a[1..], b);
    } else {
      assert a + b == b;
    }
  }

  lemma {:induction false} NonEmptyKeeps(parts: seq<Bytes>)
    requires forall k :: 0 <= k < |parts| ==> parts[k] != []
    ensures NonEmpty(parts) == parts
  {
    if parts != [] {
      NonEmptyKeeps(parts[1..]);
    }
  }

  lemma JoinWithHead(parts: seq<Bytes>, sep: Byte)
    requires |parts| >= 1 && |parts[0]| >= 1
    ensures |JoinWith(parts, sep)| >= 1 && JoinWith(parts, sep)[0] == parts[0][0]
  {
  }

  // ---------------------------------------------------------------------
  // The output path of a post.
  // ---------------------------------------------------------------------

  /** At most one path segment, and not one path.Clean rewrites. */
  predicate Segment(s: Bytes)
  {
    '/' !in s && s != "." && s != ".."
  }

  /** A non-empty single path segment. */
  predicate PlainSegment(s: Bytes)
  {
    s != [] && Segment(s)
  }

  /** What the slug library is assumed to return: text without '/' or '.'. */
  predicate SlugSafe(s: Bytes)
  {
    '/' !in s && '.' !in s
  }

  /** A slug is one path segment. */
  lemma SlugSegment(s: Bytes)
    requires SlugSafe(s)
    ensures Segment(s)
  {
  }

  /** The root of the generated site. */
  const OutputRoot: Bytes := "docs/"

  /** The name of every generated page. */
  const IndexFile: Bytes := "index.html"

  lemma IndexFileSegment()
    ensures Segment(IndexFile) && IndexFile != []
    ensures NoDotSegments(IndexFile) && Split(IndexFile, '/') == [IndexFile]
  {
    SafeSegment(IndexFile);
  }

  /** The output directory of a post (main.go `dir`): "docs", the year,
      the month, the day and, unless it is empty, the slug of the title,
      joined with single slashes; no segment of it is "." or "..". */
  function OutputDir(meta: Meta, slug: Bytes -> Bytes): (r: Bytes)
    requires SlugSafe(slug(meta.title))
    ensures r == JoinWith(DirSegments(meta.date, slug(meta.title)), '/')
    ensures NoDotSegments(r)
  {
    var d, s := meta.date, slug(meta.title);
    SplitRoot();
    DatePieces(d);
    SlugSegment(s);
    SafeSegment(s);
    ThreeJoin(OutputRoot, "docs", FormatDate(d), DateFields(d), s);
    DirSegmentsJoin(d, s);
    PathJoin([OutputRoot, FormatDate(d), s])
  }

  /** The file a post is written to (main.go `name`): the directory's
      segments and then "index.html", that is
      "docs/" + YYYY/MM/DD + "/" + slug + "/index.html", where path.Join
      drops an empty slug, leaving "docs/" + YYYY/MM/DD + "/index.html". */
  function OutputFile(meta: Meta, slug: Bytes -> Bytes): (r: Bytes)
    requires SlugSafe(slug(meta.title))
    ensures r == JoinWith(DirSegments(meta.date, slug(meta.title)) + [IndexFile], '/')
    ensures var s := slug(meta.title);
      r == OutputRoot + FormatDate(meta.date) + "/" + (if s == [] then IndexFile else s + "/" + IndexFile)
  {
    var d, s := meta.date, slug(meta.title);
    var dir := OutputDir(meta, slug);
    DirSegmentsPlain(d, s);
    IndexFileSegment();
    JoinFileName(DirSegments(d, s), IndexFile);
    FileText(d, s);
    PathJoin([dir, IndexFile])
  }

  /** The segments of the output directory: "docs", the year, the month,
      the day and, unless it is empty, the slug. */
  function DirSegments(d: Date, s: Bytes): seq<Bytes>
  {
    ["docs"] + DateFields(d) + (if s == [] then [] else [s])
  }

  /** The fields of a formatted date: year, month and day. */
  function DateFields(d: Date): seq<Bytes>
  {
    [Pad(d.year, 4), Pad(d.month, 2), Pad(d.day, 2)]
  }

  /** The formatted date splits into its fields, none of them empty. */
  lemma DatePieces(d: Date)
    ensures Split(FormatDate(d), '/') == DateFields(d) && NoDotSegments(FormatDate(d))
    ensures forall k :: 0 <= k < |DateFields(d)| ==> DateFields(d)[k] != []
  {
    FormatDateFields(d);
    DateSegments(d);
  }

  lemma SafeSegment(s: Bytes)
    requires Segment(s)
    ensures NoDotSegments(s)
    ensures Split(s, '/') == [s]
  {
    SplitWithoutSep(s, '/');
  }

  lemma DateSegments(d: Date)
    ensures NoDotSegments(FormatDate(d))
  {
    FormatDateFields(d);
    var parts := Split(FormatDate(d), '/');
    forall seg | seg in parts
      ensures seg != "." && seg != ".."
    {
      assert AllDigits(seg) && |seg| >= 2;
    }
  }

  lemma DirSegmentsPlain(d: Date, s: Bytes)
    requires SlugSafe(s)
    ensures |DirSegments(d, s)| >= 4
    ensures DirSegments(d, s)[0] == "docs"
    ensures forall k :: 0 <= k < |DirSegments(d, s)| ==> PlainSegment(DirSegments(d, s)[k])
  {
    SlugSegment(s);
    var segs := DirSegments(d, s);
    forall k | 0 <= k < |segs|
      ensures PlainSegment(segs[k])
    {
      if 1 <= k <= 3 {
        assert AllDigits(segs[k]) && |segs[k]| >= 2;
      }
    }
  }

  /** A join whose first element is relative and whose pieces are known. */
  lemma PathJoinPlain(elems: seq<Bytes>, segs: seq<Bytes>)
    requires |elems| >= 1 && elems[0] != [] && elems[0][0] != '/'
    requires forall e :: e in elems ==> NoDotSegments(e)
    requires NonEmpty(SplitAll(elems, '/')) == segs && segs != []
    ensures PathJoin(elems) == JoinWith(segs, '/')
  {
    SplitOfJoin(elems, '/');
    JoinWithHead(elems, '/');
    NoDotSegmentsJoin(elems);
  }

  lemma SplitAllThree(x: Bytes, y: Bytes, z: Bytes)
    ensures SplitAll([x, y, z], '/') == Split(x, '/') + Split(y, '/') + Split(z, '/')
  {
    SplitAllTwo(y, z);
    assert [x, y, z][1..] == [y, z];
  }

  lemma SplitAllTwo(x: Bytes, y: Bytes)
    ensures SplitAll([x, y], '/') == Split(x, '/') + Split(y, '/')
  {
    var none: seq<Bytes> := [];
    assert [x, y][1..] == [y] && [y][1..] == none;
    assert SplitAll([y], '/') == Split(y, '/') + SplitAll(none, '/');
    assert SplitAll([y], '/') == Split(y, '/');
  }

  /** A segment followed by a slash, as a root directory is written. */
  lemma SplitDirName(h: Bytes)
    requires PlainSegment(h)
    ensures Split(h + "/", '/') == [h, []] && NoDotSegments(h + "/")
    ensures h + "/" != [] && (h + "/")[0] == h[0]
  {
    assert h + "/" == h + ['/'] + [];
    SplitAround(h, '/', []);
    SplitWithoutSep(h, '/');
  }

  lemma SplitRoot()
    ensures Split(OutputRoot, '/') == ["docs", []]
    ensures PlainSegment("docs") && OutputRoot != [] && OutputRoot[0] == "docs"[0]
    ensures NoDotSegments(OutputRoot)
  {
    assert OutputRoot == "docs" + "/";
    SplitDirName("docs");
  }


  lemma {:induction false} NonEmptyDir(h: Bytes, fields: seq<Bytes>, s: Bytes)
    requires h != []
    requires forall k :: 0 <= k < |fields| ==> fields[k] != []
    ensures NonEmpty([h, []] + fields + [s]) == [h] + fields + (if s == [] then [] else [s])
  {
    NonEmptyAppend([h, []] + fields, [s]);
    NonEmptyAppend([h, []], fields);
    NonEmptyKeeps(fields);
    var none: seq<Bytes> := [];
    assert [h, []][1..] == [[]] && [[]][1..] == none;
    assert NonEmpty([h, []]) == [h];
    assert [s][1..] == none;
    assert NonEmpty([s]) == (if s == [] then [] else [s]);
  }

  /** Joining a root of the form "h/", a path whose pieces are non-empty
      and one segment: the pieces joined with single slashes, the segment
      dropped when it is empty. */
  lemma ThreeJoin(r: Bytes, h: Bytes, p: Bytes, fields: seq<Bytes>, s: Bytes)
    requires PlainSegment(h) && r != [] && r[0] == h[0]
    requires Split(r, '/') == [h, []]
    requires Split(p, '/') == fields && NoDotSegments(p)
    requires forall k :: 0 <= k < |fields| ==> fields[k] != []
    requires Split(s, '/') == [s] && NoDotSegments(s)
    ensures forall e :: e in [r, p, s] ==> NoDotSegments(e)
    ensures PathJoin([r, p, s]) == JoinWith([h] + fields + (if s == [] then [] else [s]), '/')
  {
    assert NoDotSegments(r);
    SplitAllThree(r, p, s);
    NonEmptyDir(h, fields, s);
    PathJoinPlain([r, p, s], [h] + fields + (if s == [] then [] else [s]));
  }

  /** The segments of the output directory are plain path segments, so the
      joined directory has no dot segment. */
  lemma DirSegmentsJoin(d: Date, s: Bytes)
    requires SlugSafe(s)
    ensures Split(JoinWith(DirSegments(d, s), '/'), '/') == DirSegments(d, s)
    ensures NoDotSegments(JoinWith(DirSegments(d, s), '/'))
    ensures JoinWith(DirSegments(d, s), '/') != [] && JoinWith(DirSegments(d, s), '/')[0] == 'd'
  {
    DirSegmentsPlain(d, s);
    SplitJoin(DirSegments(d, s), '/');
    JoinWithHead(DirSegments(d, s), '/');
  }

  /** Plain segments joined with slashes split back into themselves. */
  lemma PlainJoin(segs: seq<Bytes>)
    requires |segs| >= 1
    requires forall k :: 0 <= k < |segs| ==> PlainSegment(segs[k])
    ensures Split(JoinWith(segs, '/'), '/') == segs
    ensures NoDotSegments(JoinWith(segs, '/'))
    ensures segs[0] != [] && JoinWith(segs, '/') != [] && JoinWith(segs, '/')[0] == segs[0][0]
  {
    SplitJoin(segs, '/');
    JoinWithHead(segs, '/');
    forall seg | seg in segs
      ensures seg != "." && seg != ".."
    {
      var k :| 0 <= k < |segs| && segs[k] == seg;
      assert PlainSegment(segs[k]);
    }
  }

  /** Joining a relative path whose pieces are non-empty and one more
      non-empty segment. */
  lemma TwoJoin(p: Bytes, segs: seq<Bytes>, f: Bytes)
    requires p != [] && p[0] != '/' && Split(p, '/') == segs && NoDotSegments(p)
    requires forall k :: 0 <= k < |segs| ==> segs[k] != []
    requires f != [] && Split(f, '/') == [f] && NoDotSegments(f)
    ensures forall e :: e in [p, f] ==> NoDotSegments(e)
    ensures PathJoin([p, f]) == JoinWith(segs + [f], '/')
  {
    SplitAllTwo(p, f);
    NonEmptyKeeps(segs + [f]);
    PathJoinPlain([p, f], segs + [f]);
  }

  /** Joining plain segments and then a file name is joining them all. */
  lemma JoinFileName(segs: seq<Bytes>, f: Bytes)
    requires |segs| >= 1 && segs[0] != [] && segs[0][0] != '/'
    requires forall k :: 0 <= k < |segs| ==> PlainSegment(segs[k])
    requires PlainSegment(f)
    ensures NoDotSegments(JoinWith(segs, '/')) && NoDotSegments(f)
    ensures PathJoin([JoinWith(segs, '/'), f]) == JoinWith(segs + [f], '/')
  {
    PlainJoin(segs);
    SafeSegment(f);
    TwoJoin(JoinWith(segs, '/'), segs, f);
  }

  // ---------------------------------------------------------------------
  // What the output path looks like, and when two posts share one.
  // ---------------------------------------------------------------------

  /** The segments of an output file, joined with slashes, as text. */
  lemma FileText(d: Date, s: Bytes)
    ensures JoinWith(DirSegments(d, s) + [IndexFile], '/') ==
              OutputRoot + FormatDate(d) + "/" + (if s == [] then IndexFile else s + "/" + IndexFile)
  {
    var fields := DateFields(d);
    FormatDateFields(d);
    assert DirSegments(d, s) + [IndexFile] == ["docs"] + fields + (if s == [] then [] else [s]) + [IndexFile];
    SegmentsText("docs", FormatDate(d), fields, s, IndexFile);
    assert OutputRoot == "docs" + "/";
  }

  /** The text of a root, the fields of a date, an optional slug and a
      file name joined with slashes. */
  lemma SegmentsText(root: Bytes, date: Bytes, fields: seq<Bytes>, s: Bytes, f: Bytes)
    requires |fields| >= 1 && JoinWith(fields, '/') == date
    ensures JoinWith([root] + fields + (if s == [] then [] else [s]) + [f], '/') ==
              root + "/" + date + "/" + (if s == [] then f else s + "/" + f)
  {
    var tail := (if s == [] then [] else [s]) + [f];
    var t := if s == [] then f else s + "/" + f;
    assert [root] + fields + (if s == [] then [] else [s]) + [f] == [root] + (fields + tail);
    assert JoinWith(tail, '/') == t by {
      if s != [] {
        assert tail == [s] + [f];
        JoinWithCons(s, [f], '/');
      }
    }
    JoinWithAppend(fields, tail, '/');
    JoinWithCons(root, fields + tail, '/');
    Regroup(root, "/", date, "/", t);
  }

  /** Concatenation regrouped; a separate step keeps the proof above small. */
  lemma Regroup(a: Bytes, b: Bytes, c: Bytes, d: Bytes, e: Bytes)
    ensures a + b + (c + d + e) == a + b + c + d + e
  {
  }

  /** A post whose date could not be parsed lands under docs/0001/01/01. */
  lemma ZeroDateOutputFile(meta: Meta, slug: Bytes -> Bytes)
    requires SlugSafe(slug(meta.title))
    requires meta.date == ZeroDate
    ensures var s := slug(meta.title);
      OutputFile(meta, slug) ==
        OutputRoot + "0001/01/01" + "/"
        + (if s == [] then IndexFile else s + "/" + IndexFile)
  {
    FormatZeroDate();
  }

  /** The example post "Hello World" of 5 March 2024, whose slug is
      "hello-world", is written to docs/2024/03/05/hello-world/index.html. */
  lemma HelloWorldOutputFile(slug: Bytes -> Bytes)
    requires slug("Hello World") == "hello-world"
    ensures OutputFile(Meta("Hello World", Date(2024, 3, 5)), slug) ==
              "docs/" + "2024/03/05" + "/" + ("hello-world" + "/" + "index.html")
  {
    var meta := Meta("Hello World", Date(2024, 3, 5));
    assert SlugSafe("hello-world");
    FormatExampleDate();
  }

  /** The output file depends on the date and the slug of the title and on
      nothing else, and it tells both apart: two posts get the same file
      exactly when they have the same date and the same slug. */
  lemma SameOutputFile(m1: Meta, m2: Meta, slug: Bytes -> Bytes)
    requires SlugSafe(slug(m1.title)) && SlugSafe(slug(m2.title))
    ensures OutputFile(m1, slug) == OutputFile(m2, slug) <==>
              m1.date == m2.date && slug(m1.title) == slug(m2.title)
  {
    var s1, s2 := slug(m1.title), slug(m2.title);
    var segs1 := DirSegments(m1.date, s1) + [IndexFile];
    var segs2 := DirSegments(m2.date, s2) + [IndexFile];
    if OutputFile(m1, slug) == OutputFile(m2, slug) {
      PlainFileSegments(m1.date, s1);
      PlainFileSegments(m2.date, s2);
      PlainJoin(segs1);
      PlainJoin(segs2);
      assert segs1 == segs2;
      SameSegments(m1.date, s1, m2.date, s2);
    }
  }

  /** The segments of an output file are plain. */
  lemma PlainFileSegments(d: Date, s: Bytes)
    requires SlugSafe(s)
    ensures |DirSegments(d, s) + [IndexFile]| >= 1
    ensures forall k :: 0 <= k < |DirSegments(d, s) + [IndexFile]| ==>
              PlainSegment((DirSegments(d, s) + [IndexFile])[k])
  {
    DirSegmentsPlain(d, s);
    IndexFileSegment();
    var segs := DirSegments(d, s) + [IndexFile];
    forall k | 0 <= k < |segs|
      ensures PlainSegment(segs[k])
    {
      if k < |DirSegments(d, s)| {
        assert segs[k] == DirSegments(d, s)[k];
      }
    }
  }

  /** Equal segment lists come from equal dates and equal slugs. */
  lemma SameSegments(d1: Date, s1: Bytes, d2: Date, s2: Bytes)
    requires DirSegments(d1, s1) + [IndexFile] == DirSegments(d2, s2) + [IndexFile]
    ensures d1 == d2 && s1 == s2
  {
    var a, b := DirSegments(d1, s1), DirSegments(d2, s2);
    assert a == (a + [IndexFile])[..|a|];
    assert b == (b + [IndexFile])[..|b|];
    assert a == b;
    assert a[1] == b[1] && a[2] == b[2] && a[3] == b[3];
    assert FormatDate(d1) == FormatDate(d2);
    FormatDateInjective(d1, d2);
    if s1 != [] || s2 != [] {
      assert |a| == |b|;
      assert a[4] == b[4];
    }
  }

  // ---------------------------------------------------------------------
  // The post loop: one file per post, in collection order.
  // ---------------------------------------------------------------------

  /** Every post has a slug that is one path segment. */
  predicate Sluggable(posts: seq<Post>, slug: Bytes -> Bytes)
  {
    forall i :: 0 <= i < |posts| ==> SlugSafe(slug(posts[i].metadata.title))
  }

  /** The file of the post. */
  function FileOf(post: Post, slug: Bytes -> Bytes): Bytes
    requires SlugSafe(slug(post.metadata.title))
  {
    OutputFile(post.metadata, slug)
  }

  /** The file of every post, in order. */
  function Files(posts: seq<Post>, slug: Bytes -> Bytes): (r: seq<Bytes>)
    requires Sluggable(posts, slug)
    ensures |r| == |posts|
  {
    seq(|posts|, i requires 0 <= i < |posts| => FileOf(posts[i], slug))
  }

  /** The files on disk after post i has been written to paths[i] for each
      i in order: each path holds the post written there last (os.Create
      truncates the file). */
  function Store(posts: seq<Post>, paths: seq<Bytes>): map<Bytes, Post>
    requires |paths| == |posts|
    decreases |posts|
  {
    if posts == [] then map[]
    else
      var n := |posts| - 1;
      Store(posts[..n], paths[..n])[paths[n] := posts[n]]
  }

  /** The generated pages after the loop of main.go. */
  function Written(posts: seq<Post>, slug: Bytes -> Bytes): map<Bytes, Post>
    requires Sluggable(posts, slug)
  {
    Store(posts, Files(posts, slug))
  }

  lemma StoreStep(posts: seq<Post>, paths: seq<Bytes>, i: nat)
    requires |paths| == |posts| && i < |posts|
    ensures Store(posts[..i + 1], paths[..i + 1]) == Store(posts[..i], paths[..i])[paths[i] := posts[i]]
  {
    assert posts[..i + 1][..i] == posts[..i];
    assert paths[..i + 1][..i] == paths[..i];
  }

  /** The loop of main.go over the posts: it computes the directory and the
      file of each post and writes the post's page there. */
  method WritePages(posts: seq<Post>, slug: Bytes -> Bytes) returns (site: map<Bytes, Post>)
    requires Sluggable(posts, slug)
    ensures site == Written(posts, slug)
  {
    ghost var paths := Files(posts, slug);
    site := map[];
    for i := 0 to |posts|
      invariant site == Store(posts[..i], paths[..i])
    {
      var post := posts[i];
      var dir := OutputDir(post.metadata, slug);
      IndexFileSegment();
      var name := PathJoin([dir, IndexFile]);
      assert name == paths[i];
      StoreStep(posts, paths, i);
      site := site[name := post];
    }
    assert posts[..|posts|] == posts && paths[..|paths|] == paths;
  }

  /** The paths in the store are exactly the paths written to. */
  lemma {:induction false} StorePaths(posts: seq<Post>, paths: seq<Bytes>)
    requires |paths| == |posts|
    ensures forall path :: path in Store(posts, paths) <==> path in paths
  {
    if posts != [] {
      var n := |posts| - 1;
      StorePaths(posts[..n], paths[..n]);
      assert paths == paths[..n] + [paths[n]];
    }
  }

  /** The post at a path is the last one written there. */
  lemma {:induction false} StoreLast(posts: seq<Post>, paths: seq<Bytes>, j: nat)
    requires |paths| == |posts| && j < |posts|
    requires forall i :: j < i < |posts| ==> paths[i] != paths[j]
    ensures paths[j] in Store(posts, paths) && Store(posts, paths)[paths[j]] == posts[j]
  {
    var n := |posts| - 1;
    if j < n {
      StoreLast(posts[..n], paths[..n], j);
    }
  }

  /** `k` is the last index of `path` in `paths`. */
  predicate LastAt(paths: seq<Bytes>, k: int, path: Bytes)
  {
    0 <= k < |paths| && paths[k] == path && forall i :: k < i < |paths| ==> paths[i] != path
  }

  lemma LastAtExtend(paths: seq<Bytes>, k: int, path: Bytes)
    requires |paths| >= 1 && paths[|paths| - 1] != path
    requires LastAt(paths[..|paths| - 1], k, path)
    ensures LastAt(paths, k, path)
  {
    assert paths[k] == paths[..|paths| - 1][k];
    forall i | k < i < |paths|
      ensures paths[i] != path
    {
      if i < |paths| - 1 {
        assert paths[i] == paths[..|paths| - 1][i];
      }
    }
  }

  /** Whatever is stored at a path was written there by the last post
      written there. */
  lemma {:induction false} StoreByLast(posts: seq<Post>, paths: seq<Bytes>, path: Bytes)
    requires |paths| == |posts|
    requires path in Store(posts, paths)
    ensures exists k :: LastAt(paths, k, path) && Store(posts, paths)[path] == posts[k]
  {
    var n := |posts| - 1;
    if paths[n] != path {
      StoreByLast(posts[..n], paths[..n], path);
      var k :| LastAt(paths[..n], k, path) && Store(posts[..n], paths[..n])[path] == posts[..n][k];
      LastAtExtend(paths, k, path);
      assert posts[..n][k] == posts[k];
    } else {
      assert LastAt(paths, n, path);
    }
  }

  /** The paths written are exactly the files of the posts. */
  lemma WrittenPaths(posts: seq<Post>, slug: Bytes -> Bytes)
    requires Sluggable(posts, slug)
    ensures forall path :: path in Written(posts, slug) <==> path in Files(posts, slug)
  {
    StorePaths(posts, Files(posts, slug));
  }

  /** The page at the file of post j is post j itself when no later post
      has the same file. */
  lemma LastWriterWins(posts: seq<Post>, slug: Bytes -> Bytes, j: nat)
    requires Sluggable(posts, slug)
    requires j < |posts|
    requires forall i :: j < i < |posts| ==> Files(posts, slug)[i] != Files(posts, slug)[j]
    ensures Files(posts, slug)[j] in Written(posts, slug)
    ensures Written(posts, slug)[Files(posts, slug)[j]] == posts[j]
  {
    StoreLast(posts, Files(posts, slug), j);
  }

  /** Every page holds a post whose file it is, and no later post has that
      file. */
  lemma WrittenByLast(posts: seq<Post>, slug: Bytes -> Bytes, path: Bytes)
    requires Sluggable(posts, slug)
    requires path in Written(posts, slug)
    ensures exists k :: LastAt(Files(posts, slug), k, path) && Written(posts, slug)[path] == posts[k]
  {
    StoreByLast(posts, Files(posts, slug), path);
  }

  /** Two posts with the same date and the same slug collide: they have the
      same file, and the page there is the later one's or a still later
      post's with the same file. */
  lemma Overwritten(posts: seq<Post>, slug: Bytes -> Bytes, i: nat, j: nat)
    requires Sluggable(posts, slug)
    requires i < j < |posts|
    requires posts[i].metadata.date == posts[j].metadata.date
    requires slug(posts[i].metadata.title) == slug(posts[j].metadata.title)
    ensures Files(posts, slug)[i] == Files(posts, slug)[j]
    ensures Files(posts, slug)[i] in Written(posts, slug)
    ensures exists k :: j <= k < |posts| && Written(posts, slug)[Files(posts, slug)[i]] == posts[k]
  {
    var paths := Files(posts, slug);
    var path := paths[i];
    assert path == OutputFile(posts[i].metadata, slug) && paths[j] == OutputFile(posts[j].metadata, slug);
    SameOutputFile(posts[i].metadata, posts[j].metadata, slug);
    StorePaths(posts, paths);
    StoreByLast(posts, paths, path);
    var k :| LastAt(paths, k, path) && Store(posts, paths)[path] == posts[k];
    assert j <= k;
  }
}
