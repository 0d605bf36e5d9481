/**
 * The frontmatter parser and the post loader of pages.go.
 *
 * A page is a byte string of the form
 *
 *     ---
 *     date: 05-Mar-2024
 *     title: Hello World
 *     ---
 *     Markdown body
 *
 * The parser finds the LAST occurrence of the delimiter "---", takes the
 * bytes from offset 4 up to one byte before that occurrence as the metadata
 * block, and reads the block line by line; the body starts 4 bytes after the
 * start of that occurrence.
 */
module Pages {
  import opened Text
  import opened Wrappers
  import opened Dates

  /** The frontmatter delimiter. */
  const Sep: Bytes := "---"

  /** The delimiter and the line break after it. */
  const RemainingSep: nat := 4

  /** The metadata of a page; lines that set neither field leave the zero
      value (an empty title, the zero date). */
  datatype Meta = Meta(title: Bytes, date: Date)

  const ZeroMeta := Meta([], ZeroDate)

  /** A loaded page: its metadata and the Markdown after the frontmatter. */
  datatype Post = Post(metadata: Meta, content: Bytes)

  // ---------------------------------------------------------------------
  // One metadata line.
  // ---------------------------------------------------------------------

  /** The text of a line before its first colon (all of it if it has none). */
  function Key(line: Bytes): Bytes
  {
    Split(line, ':')[0]
  }

  /** The line has a field after its first colon. */
  predicate HasValue(line: Bytes)
  {
    |Split(line, ':')| >= 2
  }

  /** The text between the first and the second colon, trimmed. */
  function FieldValue(line: Bytes): Bytes
    requires HasValue(line)
  {
    TrimSpace(Split(line, ':')[1])
  }

  /** The date a `date` line sets: the parsed value, or the zero date when
      parsing fails. */
  function DateValue(line: Bytes): Date
    requires HasValue(line)
  {
    ParseDate(FieldValue(line)).GetOr(ZeroDate)
  }

  /** A line the parser can process: a `date` or `title` key must be
      followed by a colon, otherwise the parser indexes past the end of
      the split fields. */
  predicate LineWellFormed(line: Bytes)
  {
    (Key(line) == "date" || Key(line) == "title") ==> HasValue(line)
  }

  predicate AllWellFormed(lines: seq<Bytes>)
  {
    forall k :: 0 <= k < |lines| ==> LineWellFormed(lines[k])
  }

  /** The effect of one metadata line on the record being filled. */
  function ApplyLine(m: Meta, line: Bytes): Meta
    requires LineWellFormed(line)
  {
    var fields := Split(line, ':');
    if fields[0] == "date" then m.(date := DateValue(line))
    else if fields[0] == "title" then m.(title := FieldValue(line))
    else m
  }

  /** Applying one more line. */
  lemma ApplyLinesStep(m: Meta, lines: seq<Bytes>, i: nat)
    requires AllWellFormed(lines) && i < |lines|
    ensures AllWellFormed(lines[..i]) && AllWellFormed(lines[..i + 1]) && LineWellFormed(lines[i])
    ensures ApplyLines(m, lines[..i + 1]) == ApplyLine(ApplyLines(m, lines[..i]), lines[i])
  {
    assert lines[..i + 1][..i] == lines[..i];
    assert forall k :: 0 <= k <= i ==> lines[..i + 1][k] == lines[k];
  }

  /** The effect of the lines, first to last. */
  function ApplyLines(m: Meta, lines: seq<Bytes>): Meta
    requires AllWellFormed(lines)
  {
    if lines == [] then m
    else ApplyLine(ApplyLines(m, lines[..|lines| - 1]), lines[|lines| - 1])
  }

  // ---------------------------------------------------------------------
  // A whole page.
  // ---------------------------------------------------------------------

  /** Where the closing delimiter is taken to start: its last occurrence. */
  function DelimiterIndex(content: Bytes): int
  {
    LastIndex(content, Sep)
  }

  /** The metadata block: from offset 4 to one byte before the delimiter. */
  function MetaBlock(content: Bytes): Bytes
    requires DelimiterIndex(content) >= RemainingSep + 1
  {
    content[RemainingSep..DelimiterIndex(content) - 1]
  }

  function MetaLines(content: Bytes): seq<Bytes>
    requires DelimiterIndex(content) >= RemainingSep + 1
  {
    Split(MetaBlock(content), '\n')
  }

  /** Where the body starts. */
  function BodyOffset(content: Bytes): int
  {
    DelimiterIndex(content) + RemainingSep
  }

  /** What the parser needs in order not to panic: a delimiter starting at
      offset 5 or later (so that the block slice is in bounds), and
      well-formed `date` and `title` lines. */
  predicate Parsable(content: Bytes)
  {
    DelimiterIndex(content) >= RemainingSep + 1 && AllWellFormed(MetaLines(content))
  }

  /** The metadata a parsable page yields. */
  function Frontmatter(content: Bytes): Meta
    requires Parsable(content)
  {
    ApplyLines(ZeroMeta, MetaLines(content))
  }

  /** What the loader additionally needs: the body offset is in bounds. */
  predicate Loadable(content: Bytes)
  {
    Parsable(content) && BodyOffset(content) <= |content|
  }

  /** The page the loader makes of a loadable content. */
  function LoadPost(content: Bytes): Post
    requires Loadable(content)
  {
    Post(Frontmatter(content), content[BodyOffset(content)..])
  }

  // ---------------------------------------------------------------------
  // The code.
  // ---------------------------------------------------------------------

  /** Parses the frontmatter: returns the metadata and the body offset. */
  method ReadFrontmatter(content: Bytes) returns (m: Meta, offset: int)
    requires Parsable(content)
    ensures m == Frontmatter(content) == ApplyLines(ZeroMeta, MetaLines(content))
    ensures offset == BodyOffset(content) == LastIndex(content, Sep) + RemainingSep
  {
    m := Meta([], ZeroDate);
    var idx := LastIndex(content, Sep);
    var fms := Split(content[RemainingSep..idx - 1], '\n');
    assert fms == MetaLines(content) && AllWellFormed(fms);
    var i := 0;
    while i < |fms|
      invariant 0 <= i <= |fms|
      invariant AllWellFormed(fms[..i])
      invariant m == ApplyLines(ZeroMeta, fms[..i])
    {
      ApplyLinesStep(ZeroMeta, fms, i);
      m := ReadField(m, fms[i]);
      i := i + 1;
    }
    assert fms[..i] == fms;
    offset := idx + RemainingSep;
  }

  /** One iteration of the parser's loop: the switch on the key of one
      metadata line. */
  method ReadField(m0: Meta, fm: Bytes) returns (m: Meta)
    requires LineWellFormed(fm)
    ensures m == ApplyLine(m0, fm)
  {
    m := m0;
    var sepData := Split(fm, ':');
    if sepData[0] == "date" {
      var d := TrimSpace(sepData[1]);
      var date := ParseDate(d);
      m := m.(date := date.GetOr(ZeroDate));
    } else if sepData[0] == "title" {
      m := m.(title := TrimSpace(sepData[1]));
    }
  }

  /** Every content can be loaded. */
  predicate AllLoadable(contents: seq<Bytes>)
  {
    forall i :: 0 <= i < |contents| ==> Loadable(contents[i])
  }

  /** The posts of the contents: one per content, in order. */
  function LoadAll(contents: seq<Bytes>): (r: seq<Post>)
    requires AllLoadable(contents)
    ensures |r| == |contents|
    ensures forall i :: 0 <= i < |contents| ==> r[i] == LoadPost(contents[i])
  {
    seq(|contents|, i requires 0 <= i < |contents| && AllLoadable(contents) => LoadPost(contents[i]))
  }

  /** One iteration of the loader's loop: the post of one page. */
  method ReadPost(content: Bytes) returns (post: Post)
    requires Loadable(content)
    ensures post == LoadPost(content)
  {
    var metadata, idx := ReadFrontmatter(content);
    post := Post(metadata, content[idx..]);
  }

  /** Loads every page, in order: one post per page, holding the parsed
      metadata and the bytes from the body offset on. */
  method ReadPosts(contents: seq<Bytes>) returns (posts: seq<Post>)
    requires AllLoadable(contents)
    ensures posts == LoadAll(contents)
  {
    ghost var all := LoadAll(contents);
    posts := [];
    var i := 0;
    while i < |contents|
      invariant 0 <= i <= |contents| && posts == all[..i]
    {
      var post := ReadPost(contents[i]);
      assert post == all[i];
      assert all[..i + 1] == all[..i] + [all[i]];
      posts := posts + [post];
      i := i + 1;
    }
    assert all[..i] == all;
  }

  // ---------------------------------------------------------------------
  // The delimiter and the body offset.
  // ---------------------------------------------------------------------

  /** A page built from a metadata block and a body. */
  function Document(block: Bytes, body: Bytes): Bytes
  {
    "---\n" + block + "\n---\n" + body
  }

  /** An occurrence and nothing after it: that is the last occurrence. */
  lemma LastIndexIs(s: Bytes, pat: Bytes, r: int)
    requires Occurs(s, pat, r)
    requires forall i :: r < i ==> !Occurs(s, pat, i)
    ensures LastIndex(s, pat) == r
  {
    var l := LastIndex(s, pat);
    assert l != -1;
    assert !(l < r);
  }

  /** Occurrences after a prefix are the occurrences in the rest. */
  lemma OccursAfter(p: Bytes, b: Bytes, pat: Bytes, i: int)
    requires i >= 0
    ensures Occurs(p + b, pat, |p| + i) <==> Occurs(b, pat, i)
  {
    if i + |pat| <= |b| {
      assert (p + b)[|p| + i..|p| + i + |pat|] == b[i..i + |pat|];
    }
  }

  /** In a page built from `block` and `body`, the delimiter is taken to be
      the closing delimiter when the body has no "---", and otherwise the
      last "---" of the body, whatever the block holds. */
  lemma {:induction false} DelimiterOfDocument(block: Bytes, body: Bytes)
    ensures DelimiterIndex(Document(block, body)) ==
              if LastIndex(body, Sep) == -1 then |block| + 5
              else |block| + 9 + LastIndex(body, Sep)
  {
    var c := Document(block, body);
    var n := |block|;
    var kb := LastIndex(body, Sep);
    NoSepInCloser(block, body);
    OccursInBody(block, body);
    if kb == -1 {
      assert c[n + 5..n + 8] == Sep;
      LastIndexIs(c, Sep, n + 5);
    } else {
      LastIndexIs(c, Sep, n + 9 + kb);
    }
  }

  /** No "---" starts inside the "---\n" that closes the block, after its
      first dash. */
  lemma NoSepInCloser(block: Bytes, body: Bytes)
    ensures forall i :: |block| + 5 < i < |block| + 9 ==> !Occurs(Document(block, body), Sep, i)
  {
    var c := Document(block, body);
    assert c[|block| + 8] == '\n';
  }

  /** The occurrences of "---" after the closing delimiter are those of the
      body, shifted by the length of what precedes the body. */
  lemma OccursInBody(block: Bytes, body: Bytes)
    ensures forall i :: |block| + 9 <= i ==>
              (Occurs(Document(block, body), Sep, i) <==> Occurs(body, Sep, i - (|block| + 9)))
  {
    var p := "---\n" + block + "\n---\n";
    assert Document(block, body) == p + body;
    forall i | |block| + 9 <= i
      ensures Occurs(p + body, Sep, i) <==> Occurs(body, Sep, i - (|block| + 9))
    {
      OccursAfter(p, body, Sep, i - (|block| + 9));
    }
  }

  /** Round trip: when the body has no "---", the parser recovers exactly
      the metadata block and the body. */
  lemma DocumentRoundTrip(block: Bytes, body: Bytes)
    requires LastIndex(body, Sep) == -1
    ensures DelimiterIndex(Document(block, body)) >= RemainingSep + 1
    ensures MetaBlock(Document(block, body)) == block
    ensures BodyOffset(Document(block, body)) <= |Document(block, body)|
    ensures Document(block, body)[BodyOffset(Document(block, body))..] == body
  {
    DelimiterOfDocument(block, body);
    var c := Document(block, body);
    assert c[4..|block| + 4] == block;
    assert c[|block| + 9..] == body;
  }

  /** A "---" in the body moves the boundary into the body: the body starts
      4 bytes after the last "---" of the body, and the metadata block runs
      on past the real closing delimiter: it is the block, "\n---", and the
      first k bytes of "\n" + body, where k is the index of the body's last
      "---" (so the byte just before that "---" is dropped). */
  lemma DelimiterInBody(block: Bytes, body: Bytes)
    requires LastIndex(body, Sep) != -1
    ensures BodyOffset(Document(block, body)) == |block| + 9 + LastIndex(body, Sep) + 4
    ensures MetaBlock(Document(block, body)) == block + "\n---" + ("\n" + body)[..LastIndex(body, Sep)]
  {
    DelimiterOfDocument(block, body);
    DocumentSlice(block, body, LastIndex(body, Sep));
  }

  /** The part of a page from just after the opening "---\n" that runs
      `k` bytes past the block's closing "\n---". */
  lemma DocumentSlice(block: Bytes, body: Bytes, k: nat)
    requires k <= |body|
    ensures Document(block, body)[4..|block| + 8 + k] == block + "\n---" + ("\n" + body)[..k]
  {
    var c := Document(block, body);
    var u := block + "\n---" + ("\n" + body);
    assert c == "---\n" + u;
    assert c[4..] == u;
    assert c[4..|block| + 8 + k] == u[..|block| + 4 + k];
  }

  // ---------------------------------------------------------------------
  // Lines and keys.
  // ---------------------------------------------------------------------

  /** The key is the text before the first colon, compared exactly, and
      the value field is the text up to the next colon. */
  lemma {:induction false} KeyBeforeFirstColon(key: Bytes, rest: Bytes)
    requires ':' !in key
    ensures Key(key + ":" + rest) == key
    ensures HasValue(key + ":" + rest)
    ensures Split(key + ":" + rest, ':')[1] == Split(rest, ':')[0]
  {
    SplitAround(key, ':', rest);
    SplitWithoutSep(key, ':');
  }

  /** A line without a colon is all key and has no value. */
  lemma {:induction false} KeyOfColonFreeLine(line: Bytes)
    requires ':' !in line
    ensures Key(line) == line && !HasValue(line)
  {
    SplitWithoutSep(line, ':');
  }

  /** A `key: value` line whose value has no colon and no white space at
      its ends yields exactly that value. */
  lemma KeyValueLine(key: Bytes, value: Bytes)
    requires ':' !in key && ':' !in value && Trimmed(value)
    ensures Key(key + ": " + value) == key
    ensures HasValue(key + ": " + value) && FieldValue(key + ": " + value) == value
  {
    assert key + ": " + value == key + ":" + ([' '] + value);
    KeyBeforeFirstColon(key, [' '] + value);
    SplitWithoutSep([' '] + value, ':');
    TrimSpaceAfterBlank(value);
  }

  /** A title with a colon in it is cut at that colon: the line
      "title: a:b" sets the title to `a` alone and the rest is lost. */
  lemma TitleCutAtColon(m: Meta, a: Bytes, b: Bytes)
    requires ':' !in a && Trimmed(a)
    ensures LineWellFormed("title: " + a + ":" + b)
    ensures ApplyLine(m, "title: " + a + ":" + b) == m.(title := a)
  {
    var v := [' '] + a;
    assert "title: " + a + ":" + b == "title" + ":" + (v + ":" + b);
    KeyBeforeFirstColon("title", v + ":" + b);
    SplitAround(v, ':', b);
    SplitWithoutSep(v, ':');
    TrimSpaceAfterBlank(a);
    assert "title" != "date";
  }

  /** "title: A: B" sets the title "A". */
  lemma TitleCutAtSecondColon(m: Meta)
    ensures LineWellFormed("title: A: B")
    ensures ApplyLine(m, "title: A: B") == m.(title := "A")
  {
    assert "title: A: B" == "title: " + "A" + ":" + " B";
    TitleCutAtColon(m, "A", " B");
  }

  /** A line whose key is neither `date` nor `title` changes nothing. */
  lemma OtherKeyIgnored(m: Meta, line: Bytes)
    requires Key(line) != "date" && Key(line) != "title"
    ensures LineWellFormed(line) && ApplyLine(m, line) == m
  {
  }

  /** An empty line changes nothing. */
  lemma EmptyLineIgnored(m: Meta)
    ensures LineWellFormed([]) && ApplyLine(m, []) == m
  {
    assert Key([]) == [];
    OtherKeyIgnored(m, []);
  }

  /** A key with a leading space is not a recognised key. */
  lemma IndentedKeyIgnored(m: Meta)
    ensures LineWellFormed(" title: A")
    ensures ApplyLine(m, " title: A") == m
  {
    assert " title: A" == " title" + ":" + " A";
    KeyBeforeFirstColon(" title", " A");
  }

  // ---------------------------------------------------------------------
  // Last write wins.
  // ---------------------------------------------------------------------

  lemma AllWellFormedPrefix(lines: seq<Bytes>)
    requires AllWellFormed(lines) && lines != []
    ensures AllWellFormed(lines[..|lines| - 1])
  {
    assert forall k :: 0 <= k < |lines| - 1 ==> lines[..|lines| - 1][k] == lines[k];
  }

  /** The title is the value of the last `title` line. */
  lemma {:induction false} LastTitleWins(m: Meta, lines: seq<Bytes>, j: int)
    requires AllWellFormed(lines)
    requires 0 <= j < |lines| && Key(lines[j]) == "title"
    requires forall k :: j < k < |lines| ==> Key(lines[k]) != "title"
    ensures LineWellFormed(lines[j]) && ApplyLines(m, lines).title == FieldValue(lines[j])
    decreases |lines|
  {
    AllWellFormedPrefix(lines);
    assert LineWellFormed(lines[j]);
    if j < |lines| - 1 {
      var init := lines[..|lines| - 1];
      assert init[j] == lines[j];
      LastTitleWins(m, init, j);
    }
  }

  /** Without a `title` line the title keeps its value (the empty title
      when parsing starts from the zero record). */
  lemma {:induction false} TitleWithoutTitleLine(m: Meta, lines: seq<Bytes>)
    requires AllWellFormed(lines)
    requires forall k :: 0 <= k < |lines| ==> Key(lines[k]) != "title"
    ensures ApplyLines(m, lines).title == m.title
    decreases |lines|
  {
    if lines != [] {
      AllWellFormedPrefix(lines);
      var init := lines[..|lines| - 1];
      assert forall k :: 0 <= k < |init| ==> init[k] == lines[k];
      TitleWithoutTitleLine(m, init);
    }
  }

  /** The date is the one the last `date` line sets: its parsed value, or
      the zero date when that value does not parse. */
  lemma {:induction false} LastDateWins(m: Meta, lines: seq<Bytes>, j: int)
    requires AllWellFormed(lines)
    requires 0 <= j < |lines| && Key(lines[j]) == "date"
    requires forall k :: j < k < |lines| ==> Key(lines[k]) != "date"
    ensures LineWellFormed(lines[j])
    ensures ApplyLines(m, lines).date == ParseDate(FieldValue(lines[j])).GetOr(ZeroDate)
    decreases |lines|
  {
    AllWellFormedPrefix(lines);
    assert LineWellFormed(lines[j]);
    if j < |lines| - 1 {
      var init := lines[..|lines| - 1];
      assert init[j] == lines[j];
      LastDateWins(m, init, j);
    }
  }

  /** Without a `date` line the date keeps its value (the zero date when
      parsing starts from the zero record). */
  lemma {:induction false} DateWithoutDateLine(m: Meta, lines: seq<Bytes>)
    requires AllWellFormed(lines)
    requires forall k :: 0 <= k < |lines| ==> Key(lines[k]) != "date"
    ensures ApplyLines(m, lines).date == m.date
    decreases |lines|
  {
    if lines != [] {
      AllWellFormedPrefix(lines);
      var init := lines[..|lines| - 1];
      assert forall k :: 0 <= k < |init| ==> init[k] == lines[k];
      DateWithoutDateLine(m, init);
    }
  }

  // ---------------------------------------------------------------------
  // Whole pages.
  // ---------------------------------------------------------------------

  /** The metadata block of a page with a `date` line and a `title` line. */
  function DateTitleBlock(dateText: Bytes, title: Bytes): Bytes
  {
    "date: " + dateText + "\ntitle: " + title
  }

  /** A body without a dash has no delimiter in it. */
  lemma DashFreeBody(body: Bytes)
    requires '-' !in body
    ensures LastIndex(body, Sep) == -1
  {
    forall i | 0 <= i && i + 3 <= |body|
      ensures !Occurs(body, Sep, i)
    {
      assert body[i..i + 3][0] == body[i];
    }
  }

  /** The block of a `date` line and a `title` line splits into them. */
  lemma DateTitleLines(dateText: Bytes, title: Bytes)
    requires '\n' !in dateText && '\n' !in title
    ensures Split(DateTitleBlock(dateText, title), '\n') == ["date: " + dateText, "title: " + title]
  {
    var l1, l2 := "date: " + dateText, "title: " + title;
    assert DateTitleBlock(dateText, title) == l1 + "\n" + l2;
    SplitAround(l1, '\n', l2);
    SplitWithoutSep(l1, '\n');
    SplitWithoutSep(l2, '\n');
  }

  /** A `date: v` line sets the date `v` parses to, or the zero date. */
  lemma ApplyDateLine(m: Meta, v: Bytes)
    requires ':' !in v && Trimmed(v)
    ensures LineWellFormed("date: " + v)
    ensures ApplyLine(m, "date: " + v) == m.(date := ParseDate(v).GetOr(ZeroDate))
  {
    assert "date: " + v == "date" + ": " + v;
    KeyValueLine("date", v);
  }

  /** A `title: v` line sets the title `v`. */
  lemma ApplyTitleLine(m: Meta, v: Bytes)
    requires ':' !in v && Trimmed(v)
    ensures LineWellFormed("title: " + v)
    ensures ApplyLine(m, "title: " + v) == m.(title := v)
  {
    assert "title: " + v == "title" + ": " + v;
    KeyValueLine("title", v);
    assert "title" != "date";
  }

  /** A `date` line then a `title` line fill both fields. */
  lemma ApplyDateTitle(dateText: Bytes, title: Bytes)
    requires ':' !in dateText && Trimmed(dateText)
    requires ':' !in title && Trimmed(title)
    ensures AllWellFormed(["date: " + dateText, "title: " + title])
    ensures ApplyLines(ZeroMeta, ["date: " + dateText, "title: " + title]) ==
              Meta(title, ParseDate(dateText).GetOr(ZeroDate))
  {
    var l1, l2 := "date: " + dateText, "title: " + title;
    ApplyDateLine(ZeroMeta, dateText);
    var m1 := ApplyLine(ZeroMeta, l1);
    ApplyTitleLine(m1, title);
    assert [l1, l2][..1] == [l1];
    assert [l1][..0] == [];
    assert ApplyLines(ZeroMeta, [l1]) == m1;
  }

  /** A value that fits on one metadata line as it is: no colon, no line
      break and no white space at either end. */
  predicate OneLineValue(v: Bytes)
  {
    ':' !in v && '\n' !in v && Trimmed(v)
  }

  /** A value is one-line when each of its bytes is checked on its own;
      for a literal this check is much cheaper for the verifier than
      membership in the whole sequence. */
  lemma OneLineBytes(v: Bytes)
    requires forall i :: 0 <= i < |v| ==> v[i] != ':' && v[i] != '\n'
    requires v == [] || (!IsSpace(v[0]) && !IsSpace(v[|v| - 1]))
    ensures OneLineValue(v)
  {
  }

  /** A page with a well-formed `date` line, a well-formed `title` line and
      a body without "---" loads as a post with that title, the date the
      date text parses to (the zero date when it does not parse) and
      exactly that body. */
  lemma LoadDateTitlePage(dateText: Bytes, title: Bytes, body: Bytes)
    requires OneLineValue(dateText) && OneLineValue(title)
    requires LastIndex(body, Sep) == -1
    ensures Loadable(Document(DateTitleBlock(dateText, title), body))
    ensures LoadPost(Document(DateTitleBlock(dateText, title), body)) ==
              Post(Meta(title, ParseDate(dateText).GetOr(ZeroDate)), body)
  {
    var block := DateTitleBlock(dateText, title);
    DocumentRoundTrip(block, body);
    DateTitleLines(dateText, title);
    ApplyDateTitle(dateText, title);
  }

  /** The example page
        ---
        date: 05-Mar-2024
        title: Hello World
        ---
        # Hi
      loads as the post titled "Hello World", dated 5 March 2024, with the
      body "# Hi\n". The texts are parameters fixed by the precondition so
      that the verifier does not evaluate the whole literal page at once. */
  lemma HelloWorldPage(dateText: Bytes, title: Bytes, body: Bytes)
    requires dateText == "05-Mar-2024" && title == "Hello World" && body == "# Hi\n"
    ensures Loadable(Document(DateTitleBlock(dateText, title), body))
    ensures LoadPost(Document(DateTitleBlock(dateText, title), body)) ==
              Post(Meta(title, Date(2024, 3, 5)), body)
  {
    DashFreeBody(body);
    OneLineBytes(dateText);
    OneLineBytes(title);
    LoadDateTitlePage(dateText, title, body);
    ParseExampleDate();
  }

  /** A date that does not parse leaves the zero date, and parsing goes on
      with the next line. */
  lemma UnparseableDatePage()
    ensures Loadable(Document(DateTitleBlock("not-a-date", "T"), []))
    ensures LoadPost(Document(DateTitleBlock("not-a-date", "T"), [])) == Post(Meta("T", ZeroDate), [])
  {
    LoadDateTitlePage("not-a-date", "T", []);
  }
}
