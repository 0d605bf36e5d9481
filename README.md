# go-blog in Dafny

go-blog is a static blog generator with a small web server. It reads
Markdown pages from `entries/`. Each page opens with a metadata block:

```
---
date: 05-Mar-2024
title: Hello World
---
# Hi
```

The generator parses the `date` and `title` out of that block. It keeps the
text after the closing `---` as the post body. It writes every post to
`docs/YYYY/MM/DD/<slug of the title>/index.html`. The server side converts
database rows into template posts, and it filters them by a
case-insensitive title search. It also stores new posts whose title and
content are both non-empty.

This project models that core and proves properties of the model:

- `Text`: the parts of Go's `bytes`/`strings` the core uses.
  - `Split` on one byte, with its inverse `JoinWith`.
  - `LastIndex`.
  - `TrimSpace`, for ASCII white space.
  - `ToLower`/`ToUpper`, for ASCII letters.
  - `Contains`.
- `Dates`: the calendar date of a `time.Time`.
  - `ParseDate`: `time.Parse` with the layout `02-Jan-2006`.
  - `FormatDate`: `Format("2006/01/02")`.
- `Pages` (pages.go).
  - `readFrontmatter`, as the method `ReadFrontmatter`. It is proved equal to the fold `ApplyLines` of `ApplyLine` over the lines of the metadata block.
  - The loading loop of `readPosts`, as `ReadPosts`. It is proved equal to `LoadAll`.
- `Site` (main.go).
  - `path.Join`/`path.Clean` on paths without dot segments.
  - The output directory and file of a post.
  - The post loop `WritePages`. It is proved equal to the map `Written` from output path to the post last written there.
- `Handlers` (handlers/blog.go).
  - `newPost`.
  - The row conversion loops.
  - The `HandleSearch` filter.
  - The `HandleCreatePostSubmit` guard, as a method of the class `PostStore`. The class holds the posts table as a sequence of records.

The model follows where the code is loose or surprising:

- **Closing delimiter.** The block ends at the *last* `---` of the page, not the second one. A body that contains `---` therefore moves text into the metadata block (`DelimiterInBody`).
- **Bad dates.** A date that does not parse gives the zero date 0001-01-01, not an error (`UnparseableDatePage`).
- **Title with a colon.** A value is the text between the first and the second colon of its line. So a title with a colon is cut short (`TitleCutAtSecondColon`).
- **Empty slug.** Nothing rejects a title whose slug is empty. `path.Join` drops the empty element, so such a post is written to `docs/YYYY/MM/DD/index.html` (`OutputFile`).
- **Shared output path.** Two posts with the same date and slug have the same output file, and the later one wins (`Overwritten`).

Where Go would panic, the model has a precondition:

- **`Parsable`.**
  - The page must contain a `---` at index 5 or later.
  - Every `date` or `title` line must contain a colon.
- **`Loadable`.** The body offset must lie inside the page.

## Model

| member | source | states |
|---|---|---|
| Text.Split | pages.go:60-66 | splitting on one byte gives at least one piece and no piece holds the separator |
| Text.JoinSplit | pages.go:60-66 | joining the pieces of a split with the separator gives back the original bytes |
| Text.SplitJoin | pages.go:60-66 | splitting the join of separator-free pieces gives back exactly those pieces |
| Text.SplitAround | pages.go:60-66 | splitting `a + sep + b` gives the pieces of `a` followed by the pieces of `b` |
| Text.LastIndex | pages.go:57 | the result is -1 exactly when the pattern occurs nowhere; otherwise it is an occurrence and no later index is one |
| Text.TrimSpace | pages.go:69-76 | the result has no white space at either end, is a contiguous part of the input, and everything cut off is white space |
| Text.TrimSpaceOfTrimmed | pages.go:69-76 | trimming leaves text without white space at its ends unchanged |
| Text.TrimSpaceAfterBlank | pages.go:69-76 | the blank after `key:` is cut off and a trimmed value is kept whole |
| Text.Contains | handlers/blog.go:120 | the result is true exactly when the pattern occurs somewhere in the text, and then the pattern is no longer than the text |
| Text.Lower | handlers/blog.go:112-120 | lower-casing keeps the length |
| Text.LowerIdempotent | handlers/blog.go:112-120 | lower-casing twice equals lower-casing once |
| Text.LowerOfUpper | handlers/blog.go:112-120 | upper-casing first does not change the lower-cased text |
| Dates.ParseDate | pages.go:70-74 | every date that parses is a real calendar date with a four-digit year |
| Dates.MonthOfName | pages.go:70 | any spelling of a month abbreviation, in any case, gives that month |
| Dates.ParseFields | pages.go:70 | two day digits, a month name and four year digits within the month's length parse to that date |
| Dates.ParseDayMonthYear | pages.go:70 | every valid date written as DD-Mon-YYYY parses back to itself |
| Dates.ExampleDayMonthYear | pages.go:70 | 5 March 2024 is written "05-Mar-2024" |
| Dates.ParseExampleDate | pages.go:70 | "05-Mar-2024" parses to 5 March 2024 |
| Dates.FormatDate | main.go:64 | the formatted date has three fields between slashes, all digits, whose values are the year, the month and the day, at least four, two and two digits wide |
| Dates.Pad | main.go:64 | a zero-padded number is all digits, at least as wide as asked, has the number's value, and is exactly as wide when the number fits |
| Dates.FormatDateFields | main.go:64 | the formatted date splits on "/" into the padded year, month and day |
| Dates.FormatDateInjective | main.go:64 | different dates give different YYYY/MM/DD paths |
| Dates.FormatZeroDate | main.go:64 | the zero date is formatted "0001/01/01" |
| Dates.FormatExampleDate | main.go:64 | 5 March 2024 is formatted "2024/03/05" |
| Pages.ReadFrontmatter | pages.go:50-83 | the metadata is the fold of the line rule over the lines of `content[4:idx-1]` from a zero Meta; the offset is the last index of "---" plus 4 |
| Pages.ReadField | pages.go:66-79 | one pass of the switch applies the line rule for its key to the metadata |
| Pages.LoadAll | pages.go:31-43 | one post per page, in order, each the loaded post of its page |
| Pages.ReadPost | pages.go:33-42 | the post built from a page is its metadata and the text from the offset on |
| Pages.ReadPosts | pages.go:31-43 | the loop returns exactly the loaded posts of the pages, in order |
| Pages.DelimiterOfDocument | pages.go:57 | in "---\n" + block + "\n---\n" + body, the delimiter found is the one after the block unless the body holds "---", in which case it is the body's last one |
| Pages.DocumentRoundTrip | pages.go:57-82 | when the body has no "---", the metadata block read back is the block written and the content kept is exactly the body |
| Pages.DelimiterInBody | pages.go:54-60 | when the body has "---", the body kept starts 4 bytes after the body's last "---", and the block read back is the block, the real closing "\n---", then the first k bytes of "\n" + body, where k is the index of the body's last "---" |
| Pages.KeyBeforeFirstColon | pages.go:66-67 | the key of a line is the text before its first colon, and the value piece is the text up to the next colon |
| Pages.KeyOfColonFreeLine | pages.go:66-67 | a line with no colon is its own key and has no value piece |
| Pages.KeyValueLine | pages.go:66-76 | `key: value` with colon-free trimmed text yields that key and that value |
| Pages.TitleCutAtColon | pages.go:66-76 | a title line with a second colon sets the title to the text before it |
| Pages.TitleCutAtSecondColon | pages.go:66-76 | "title: A: B" sets the title to "A" |
| Pages.OtherKeyIgnored | pages.go:66-79 | a line whose key is neither date nor title leaves the metadata unchanged |
| Pages.EmptyLineIgnored | pages.go:65-79 | an empty line leaves the metadata unchanged |
| Pages.IndentedKeyIgnored | pages.go:66-79 | keys are matched exactly: " title: A" changes nothing |
| Pages.LastTitleWins | pages.go:65-80 | the title is the value of the last title line |
| Pages.TitleWithoutTitleLine | pages.go:52-80 | without a title line the title keeps its starting value |
| Pages.LastDateWins | pages.go:65-80 | the date is the parse of the last date line's value, or the zero date when it does not parse |
| Pages.DateWithoutDateLine | pages.go:52-80 | without a date line the date keeps its starting value |
| Pages.DateTitleLines | pages.go:60 | a `date`/`title` block splits into exactly its two lines |
| Pages.ApplyDateLine | pages.go:68-74 | a date line sets the date to the parsed value or to the zero date and nothing else |
| Pages.ApplyTitleLine | pages.go:75-76 | a title line sets the title to its value and nothing else |
| Pages.ApplyDateTitle | pages.go:65-80 | the two lines give the Meta with that title and the parsed date |
| Pages.LoadDateTitlePage | pages.go:37-42 | a page with one date line and one title line and a body without "---" loads as that title, the parsed date (or zero date) and the body |
| Pages.HelloWorldPage | pages.go:37-42 | the sample page loads as "Hello World", 5 March 2024, body "# Hi\n" |
| Pages.UnparseableDatePage | pages.go:68-74 | a page whose date does not parse loads with the zero date |
| Site.Clean | main.go:64-70 | path.Clean never gives the empty path, and its result is rooted exactly when its input is |
| Site.PathJoin | main.go:64-70 | path.Join gives "" exactly when every element is empty, and otherwise a path rooted exactly when the first non-empty element is |
| Site.PathJoinPlain | main.go:64-70 | joining relative, dot-free elements is the "/"-join of their non-empty segments |
| Site.ThreeJoin | main.go:64 | joining the root, a date path and a slug gives root, date fields and the slug (when not empty) joined by "/" |
| Site.OutputDir | main.go:64 | the output directory is "docs", the year, month and day, then the slug when not empty, joined by "/", with no dot segment |
| Site.TwoJoin | main.go:70 | joining a relative directory and a file name appends the file name as one more segment |
| Site.JoinFileName | main.go:70 | a directory of plain segments joined with a plain name is those segments plus the name |
| Site.OutputFile | main.go:70 | the output file is the directory's segments followed by "index.html": "docs/YYYY/MM/DD/slug/index.html", or "docs/YYYY/MM/DD/index.html" for an empty slug |
| Site.FileText | main.go:64-70 | the segments of an output file joined with "/" read "docs/" + YYYY/MM/DD + "/" + slug + "/index.html", without the slug and its slash when it is empty |
| Site.ZeroDateOutputFile | main.go:64-70 | a post with the zero date is written under "docs/0001/01/01/" |
| Site.HelloWorldOutputFile | main.go:64-70 | the sample post is written to "docs/2024/03/05/hello-world/index.html" |
| Site.SameOutputFile | main.go:64-70 | two posts share an output file exactly when they have the same date and the same slug |
| Site.Files | main.go:62-70 | one output file per post |
| Site.WritePages | main.go:62-90 | the loop's files are exactly the map from each output path to the post last written there |
| Site.StorePaths | main.go:62-90 | a path is in the written map exactly when some post is written to it |
| Site.StoreLast | main.go:62-90 | a path that no later post reuses holds the post written there |
| Site.StoreByLast | main.go:62-90 | every written path holds the post at the last index written to it |
| Site.WrittenPaths | main.go:62-90 | the site holds exactly the output files of the posts |
| Site.LastWriterWins | main.go:62-90 | a post whose file no later post reuses is what that file holds |
| Site.WrittenByLast | main.go:62-90 | every file of the site holds the last post written to it |
| Site.Overwritten | main.go:62-90 | of two posts with the same date and slug the earlier is overwritten by a later one |
| Handlers.NewPost | handlers/blog.go:23-28 | the post carries the given title and content |
| Handlers.Converted | handlers/blog.go:62-65 | one post per row, in order, with the row's title and content |
| Handlers.ConvertRows | handlers/blog.go:113-116 | the loop returns exactly the converted rows |
| Handlers.FilterByTitle | handlers/blog.go:118-123 | the loop returns exactly the matching posts in their order |
| Handlers.Search | handlers/blog.go:105-126 | the results are the converted rows whose lower-cased title contains the lower-cased search text |
| Handlers.Picked | handlers/blog.go:118-123 | the picked positions are increasing and hold exactly the posts that match |
| Handlers.MatchingIsPicked | handlers/blog.go:118-123 | the results are the posts at the picked positions, an order-preserving subsequence |
| Handlers.MatchingSound | handlers/blog.go:118-123 | every result matches the query |
| Handlers.MatchingComplete | handlers/blog.go:118-123 | every post that matches the query is among the results |
| Handlers.EmptyQueryMatches | handlers/blog.go:120 | the empty query matches every title |
| Handlers.EmptySearchKeepsAll | handlers/blog.go:112-123 | an empty search returns all posts unchanged and in order |
| Handlers.SearchIgnoresCase | handlers/blog.go:112-123 | searching for the upper- or lower-cased text gives the same results |
| Handlers.MatchIgnoresTitleCase | handlers/blog.go:120 | the case of a title does not change whether it matches |
| Handlers.Submission | handlers/blog.go:40-47 | nothing is stored exactly when the title or the content is empty; otherwise the slug of the title and the content |
| Handlers.PostStore.CreatePostSubmit | handlers/blog.go:36-52 | an empty field stores nothing; a database error stores nothing and fails; otherwise the slugged record is appended and the client redirected |

## Left out

- File discovery and reading, `filepath.Glob` and `os.ReadFile`. The pages are an input sequence of byte strings. A read error is printed and the loop goes on with whatever content `os.ReadFile` returned. That is nothing when the file cannot be opened, and then the slice panics. It is the bytes read so far when a later read fails, and then the loop parses those. The model does not see read errors: each input is the content as read.
- `filepath.Base` and the error message printed when a page cannot be read: both are output only.
- The printed "invalid date" and "unhandled metadata" messages: output only.
- `CopyFile`, `CopyDir`, `ClearDir` and `initializeBlog`: filesystem I/O. The copied `static/` files and the site's root `index.html` are not in the site map.
- `os.MkdirAll`, `os.Create` and their `log.Fatal` exits: filesystem I/O.
- Markdown conversion (goldmark), `Unsafe` and templ rendering: foreign code. A written file is modelled by the post it renders.
- Command-line flags and `main`'s setup: configuration, not logic.
- `slug.Make`: library code. It is a function parameter whose results are assumed to hold neither "/" nor "." (`SlugSafe`), as the library's output alphabet of lower-case letters, digits, "-" and "_" does not. This also rules out a slug such as "index.html", whose output directory would collide with another post's output file.
- Slug idempotence and the slug alphabet: not modelled, because `slug.Make` is a parameter.
- `time.Time`: only its calendar date is modelled. The time of day, the zone and layouts other than "02-Jan-2006" are not.
- The error values of `time.Parse`: reduced to None. A four-digit year of 0000 is accepted, as in Go.
- `path.Clean` of "." and ".." segments: no output path contains one. The path lemmas require their absence.
- Text.TrimSpace: trims ASCII white space only. `bytes.TrimSpace` also trims Unicode spaces.
- Text.Lower: maps ASCII letters only and keeps every other byte. `strings.ToLower` also maps non-ASCII letters, and it replaces each byte that is not valid UTF-8 with U+FFFD, which can change the length; the model keeps such bytes as they are.
- Go panics on malformed pages (no "---" far enough in, a `date`/`title` line without a colon, an offset past the end): modelled as the preconditions `Parsable` and `Loadable`, not as behaviour.
- The database and HTTP plumbing of handlers/blog.go. The rows of `GetPosts` and the error of `CreatePost` are inputs. Form and query values are parameters. A failed `GetPosts` returns early and is not modelled.
- `HandleGetPost`: a database lookup by slug and template rendering. `HandleCreatePost`: only renders the form. The rendering in `HandleGetPosts` and `HandleSearch` is left out too. The conversion loop that `HandleGetPosts` (handlers/blog.go:62-65) and `HandleSearch` (handlers/blog.go:113-116) share is modelled as `ConvertRows`.
- cmd/migrate is not part of this model.
