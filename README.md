# Blog post table and HTML helpers — a Dafny model

This project models the logic of the blog server `server.js`:

- **`extractFirstImage(html)`**: the preview image of a post. It is the value
  captured by the first match of `/<img[^>]+src="([^">]+)"/`, or `null`.
  `Html.ExtractFirstImage` is a hand-written scanner. Its contract
  characterises the result exactly as a backtracking engine produces it:
  - the match starts at the leftmost `<img` that can match;
  - because `[^>]+` is greedy, the match uses the last `src="` before the
    tag's first `>` that is followed by a non-empty value and `"`.

  So `<img src="a" data-src="b">` gives `"b"`
  (`Html.LaterSrcWins`).
- **`stripHtml(html)`**: `html.replace(/<[^>]*>?/gm, '')`.
  - Every `<` is removed, together with everything up to and including the
    next `>`.
  - A `<` with no later `>` removes the rest of the text.
- **The `posts` table** behind the handlers, as the class
  `Posts.PostTable`:
  - the home page (`GET /`): optional search, newest first, each row with
    its preview image;
  - create (`POST /posts`);
  - show (`GET /posts/:id`);
  - update (`PUT /posts/:id`);
  - delete (`DELETE /posts/:id`).

  The table is a sequence of rows `Post(id, title, content, createdAt)` plus
  the counter for the next id. Each handler is a method. The changing
  handlers (create, update, delete) carry the frame `modifies this`; show and
  the home page only read the table and change nothing. The class invariant `Valid()` (`Posts.ValidRows`) says:
  - ids are unique, positive and below the counter;
  - every stored title is non-empty and trimmed;
  - every stored content is trimmed.

Modelling decisions:

- **Trimming.** `String.prototype.trim` is `JsString.Trim`, over the
  ECMAScript WhiteSpace and LineTerminator characters.
- **Search.** `LIKE '%q%'` is `Search.Like`: a substring test after folding
  ASCII `A`–`Z` to lower case. That is SQLite's default case rule.
- **Timestamps.** The current time is a parameter of `Create`, stored as
  milliseconds (`Posts.Timestamp`). The server stores `toISOString()` text,
  whose fixed-width form sorts in time order, so `ORDER BY createdAt DESC`
  is ordering by this number.
- **Missing values.** A missing request-body field is `""`, which is what the
  destructuring default supplies. A missing `html` argument is `None`. A
  missing search query is `""`.
- **Ids.** Route ids are plain integers. An id that `Number()` cannot turn
  into a stored id is an integer present in no row, so it matches nothing.
  Fresh ids come from a counter that only grows, as with an `AUTOINCREMENT`
  key. The table's schema is not part of this model.

Modules: `Wrappers` (`Option`), `JsString`, `Html`, `Search`, `Posts`,
`Scenarios` (worked examples and fresh-table round trips).

## Model

| member | source | states |
|---|---|---|
| `Html.Match` | server.js:39 | the pattern matches at start i: `<img` there, a non-empty `>`-free run up to q, then `src="`, n > 0 value characters without `"` or `>`, and a closing `"` (a definition; it is the reference that `ExtractFirstImage`, `FirstFrom` and `MatchAt` are proved against) |
| `Html.FirstMatch` | server.js:39 | the match a backtracking engine reports: a match at the leftmost start, and at that start the largest `src="` position (a definition, used by `ExtractFirstImage` and `ExtractFirstImageIs`) |
| `Html.ExtractFirstImage` | server.js:37-41 | missing or empty html gives None; None exactly when no match of the pattern exists; a result is non-empty, free of `"` and `>`, and is the value of the leftmost match with the longest `[^>]+` |
| `Html.FirstFrom` | server.js:39 | scanning starts from position i: the reported match is the leftmost one at or after i, and the one with the largest `src="` position at that start; None exactly when there is no match at or after i |
| `Html.MatchAt` | server.js:39 | the pattern tried at one start: the match there with the largest `src="` position, None exactly when the pattern cannot match there |
| `Html.LastSrc` | server.js:39 | backtracking of the greedy `[^>]+`: the largest `src="` position in the range at which `"([^">]+)"` matches, and no match at any larger position |
| `Html.ValueAfterSrc` | server.js:39 | `src="([^">]+)"` tried at one position: its captured length if it matches there, otherwise no captured length at all exists |
| `Html.ExtractFirstImageIs` | server.js:39-40 | the leftmost-greediest match determines the returned value |
| `Html.MatchValueUnique` | server.js:39 | once start and `src="` position are fixed, the captured value is unique |
| `Html.MatchPieces` | server.js:39 | the input splits as prefix + `<img` + non-empty `>`-free middle + `src="` + non-empty value without `"`/`>` + `"` + rest |
| `Html.StripHtml` | server.js:30-32 | the output holds no `<` and is no longer than the input |
| `Html.AfterTag` | server.js:31 | the text after a `<`-opened tag: a suffix, empty when no `>` follows, otherwise exactly what follows the first `>` |
| `Html.StripHtmlNoTag` | server.js:31 | text without `<` is returned unchanged |
| `Html.StripHtmlIdempotent` | server.js:31 | stripping twice equals stripping once |
| `Html.StripHtmlOpenTag` | server.js:31 | text before the first `<` is kept and a `<` with no later `>` removes the rest of the text; with `StripHtmlNoTag` and `StripHtmlTag` this fixes the output on every input |
| `Html.StripHtmlTag` | server.js:31 | text before the first `<` is kept and a tag `<t>` with no `>` inside is removed |
| `Html.AfterTagSkips` | server.js:31 | `[^>]*>?` consumes a `>`-free tag body and its closing `>` and nothing more |
| `JsString.Trim` | server.js:73-74 | `s.trim()`; its own contract bounds only the length, and its meaning is stated by `TrimSpec` (the input without its whitespace border) and `TrimsToUnique` (that is the only such result) |
| `JsString.TrimSpec` | server.js:73-74 | trimming returns the input without its space border: a slice surrounded only by whitespace, empty or starting and ending with a non-space |
| `JsString.LeadingSpace` | server.js:73-74 | the length of the longest all-whitespace prefix |
| `JsString.TrailingSpace` | server.js:73-74 | the length of the longest all-whitespace suffix |
| `JsString.TrimsToUnique` | server.js:73-74 | the trim relation determines its result |
| `JsString.TrimIdempotent` | server.js:73-74 | trimming twice equals trimming once |
| `JsString.TrimEmptyIffAllSpace` | server.js:76 | a field trims to empty exactly when it is all whitespace |
| `JsString.TrimPadded` | server.js:73-74 | text with whitespace padding around a non-space-bounded core trims to that core |
| `Search.Contains` | server.js:50-51 | true exactly when the pattern occurs at some position of the text |
| `Search.Like` | server.js:50-51 | `s LIKE '%q%'`: the ASCII-folded query occurs in the ASCII-folded text; through `Contains`, a position at which it occurs exists exactly when this holds |
| `Search.LikeEmpty` | server.js:49-53 | the pattern for the empty query accepts every text |
| `Search.LikeIgnoresAsciiCase` | server.js:51 | folding ASCII case of the text or of the query does not change the outcome |
| `Search.FoldAsciiIdempotent` | server.js:51 | case folding twice equals folding once |
| `Search.LikeVerbatim` | server.js:50-51 | a query occurring verbatim in the text is found |
| `Posts.DefaultTitleTrimmed` | server.js:81 | `"Untitled"` is already trimmed |
| `Posts.StoredTitle` | server.js:81 | the stored title is non-empty and trimmed; `"Untitled"` for an all-space title, otherwise the trimmed title |
| `Posts.NewPost` | server.js:80-81 | the inserted row is normalised and carries the given id and time |
| `Posts.IndexOf` | server.js:89 | the position of a row with the id, None exactly when no row has it |
| `Posts.WithoutId` | server.js:120 | exactly the rows without the id remain, none of them more often than before |
| `Posts.WithoutAbsentId` | server.js:120 | deleting an absent id leaves the table unchanged |
| `Posts.DeleteIdempotent` | server.js:120 | deleting twice equals deleting once |
| `Posts.WithoutPresentId` | server.js:120 | deleting a present id removes exactly one row |
| `Posts.UpdateRows` | server.js:109-110 | `UPDATE ... WHERE id = ?`: every row keeps its id, createdAt and position; rows with the id get the normalised title and content, all others are unchanged |
| `Posts.UpdateAbsentId` | server.js:109-112 | updating an absent id leaves the table unchanged |
| `Posts.Matches` | server.js:51 | the `WHERE` clause: the query is LIKE the title or LIKE the content (a definition, used by `Matching` and `List`) |
| `Posts.Matching` | server.js:50-51 | exactly the rows whose title or content matches the query, none more often than in the table |
| `Posts.MatchingEmptyQuery` | server.js:49-53 | selecting with the empty query keeps every row, so both branches of the handler agree |
| `Posts.Selected` | server.js:46-54 | the handler's selection: exactly the matching rows, none more often than in the table |
| `Posts.NewestFirst` | server.js:51 | `ORDER BY createdAt DESC`: no row has an earlier createdAt than a row after it (a definition, promised by `SortNewestFirst` and `List`) |
| `Posts.InsertNewestFirst` | server.js:51 | inserting into a newest-first list keeps it newest first and adds exactly that row |
| `Posts.SortNewestFirst` | server.js:51 | the result is ordered by createdAt descending and is a permutation of the input |
| `Posts.SubmultisetKeepsUniqueIds` | server.js:51 | rows drawn from a table with unique ids again have unique ids |
| `Posts.Decorate` | server.js:57-60 | each row kept in place, with previewImage equal to extractFirstImage of its content |
| `Posts.AppendKeepsValid` | server.js:80-81 | the counter's id is fresh, and appending a normalised row under it keeps the table invariant |
| `Posts.UpdateKeepsValid` | server.js:109-110 | the `UPDATE` keeps the table invariant |
| `Posts.SubsetKeepsValid` | server.js:120 | any sub-multiset of the rows keeps the table invariant |
| `Posts.PostTable.constructor` | server.js:5 | a freshly created database: the table starts empty, with the id counter at 1, and satisfies the invariant |
| `Posts.PostTable.Create` | server.js:71-84 | both fields blank: nothing inserted, table unchanged; otherwise exactly one row appended with a fresh id, title `trim` or `"Untitled"`, trimmed content and the given time; the invariant is kept |
| `Posts.PostTable.Get` | server.js:87-93 | Some exactly when a row has the id; then it is that row, the only one with the id |
| `Posts.PostTable.Update` | server.js:105-115 | the change count is 1 when a row has the id and 0 (the 404 case) otherwise; the table becomes `UpdateRows` of the old one, so only that row's title and content are replaced; the counter and the invariant are kept |
| `Posts.PostTable.Delete` | server.js:117-122 | the table afterwards holds exactly the rows without the id, no error either way; the counter is unchanged |
| `Posts.PostTable.List` | server.js:44-63 | exactly the rows matching the query (every row for the empty query), each once, newest first, each with previewImage = extractFirstImage(content) |
| `Scenarios.NoImagePreview` | server.js:37-41 | `<p>hi</p>` has no preview image |
| `Html.SingleImage` | server.js:37-41 | `<img src="url">` has preview image `url`, for every non-empty url without `"` or `>` |
| `Html.LaterSrcWins` | server.js:39 | for `<img src="a" data-src="b">` the greedy pattern reports `b`, for all values `a` and `b` |
| `Scenarios.FirstMatchesTitle` | server.js:50-51 | the query `first` finds the title `First Post` |
| `Scenarios.CreateThenGet` | server.js:71-93 | on a fresh table, create followed by get of id 1 returns the trimmed title and content with the given time |
| `Scenarios.BlankCreate` | server.js:76-78 | a create with blank fields leaves the home page empty |
| `Scenarios.DeleteTwice` | server.js:118-122 | after two deletes of the only post, get reports not found and the table is empty |

## Left out

- Express wiring is not modelled. This covers middleware, body parsing, method override, static files, EJS rendering, redirects, status codes and `app.listen` (server.js:1-34, 62, 125-131). This is HTTP plumbing. Handler outcomes are return values instead: `Create` returns whether a row was inserted, `Get` returns None for the 404 page, and `Update` returns the changed-row count, where 0 means the 404 page.
- `DOMPurify.sanitize` (server.js:27-29): it calls a foreign library whose behaviour is not visible.
- The `GET /posts/new` and `GET /posts/:id/edit` form handlers are not modelled. The edit form's lookup is the same one `Get` models.
- `LIKE` wildcards are left out. In SQLite, `%` and `_` inside the user's query act as wildcards, and the model treats them as plain characters. The model also treats the content column as never NULL.
- JavaScript strings are UTF-16 and Dafny's `char` is a Unicode scalar value. Unpaired surrogates therefore cannot be represented. This has no effect on the ASCII patterns here.
- A request body whose fields are not strings is left out. For example, a `null` or array field makes `.trim()` throw in the source.
- Id reuse is not modelled. Without `AUTOINCREMENT`, an SQLite `INTEGER PRIMARY KEY` table may give a new row the id of a just-deleted newest row; the model's counter never reuses an id, and the schema that would decide this is not part of the model.
- `Number(req.params.id)` parsing is not modelled. An unparsable id or NaN is an id no row has.
- Tie order among rows with equal `createdAt` is left out: `List` promises only some order that is newest first, because SQLite does not fix the order of ties.
- `database.js` is not part of this model. It is an asynchronous MongoDB connection, which is network I/O.
- `public/js/quill-setup.js` is not part of this model. It is browser editor wiring.
- Users, login, registration, sessions and per-user ownership are not part of this model (`models/User`, `models/Post`, `/login`, `/register`, `/my-posts`). The test files refer to them, but `server.js` has no code for them and its table has no owner column.
