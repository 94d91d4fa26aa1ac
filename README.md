# Blog search: filter construction and pagination

This project models the `GET /api/search` handler of a small blog service
(Express on top of a MongoDB `Blog` collection). The handler reads four
request parameters, `query`, `category`, `page` and `limit`, and applies
their defaults: empty text, page 1, pages of six. From the two texts it
builds a MongoDB filter. A non-blank trimmed `query` adds an `$or` clause:
the text must occur, case-insensitively, in `title` or in `content`. A
non-blank trimmed `category` adds a case-insensitive clause on `category`.
The store ANDs the clauses, and a filter with no clause matches every post.
With that filter the handler counts the matching posts (`totalBlogs`) and
fetches one page: it skips `(page - 1) * limit` matches and takes at most
`limit`. It answers with the page, the count, `currentPage` and
`totalPages = ceil(totalBlogs / limit)`.

Layout, one module per file:

- `blog.dfy` (`Blogs`): the `Blog` record with the schema's fields, and `Option`.
- `text.dfy` (`Text`): JavaScript's `trim`, ASCII case folding and substring
  containment. A case-insensitive `$regex` whose pattern holds no
  metacharacters means substring containment up to case.
- `filter.dfy` (`SearchFilter`): the filter (`Filter`, `Build`) and when a
  post matches it (`Matches`), with the laws the handler relies on.
- `paging.dfy` (`Paging`): `countDocuments`, `find`, `skip`, `limit` and the
  page count over a collection held as a sequence in natural order.
- `handler.dfy` (`SearchHandler`): request defaults, the whole handler as
  `Search`, and worked examples.

The handler only reads and keeps no state between requests. The `searchQuery`
object it fills in two steps is therefore modelled as the value `Build`
returns, and the handler as a function of the collection and the request.
Calling it twice on an unchanged collection gives the same response.

The Mongoose schema (`backend/models/blog.model.js:3-12`) marks no field as
required and trims none. So `title`, `content`, `category` and `id` are
optional in the model. A `$regex` clause on a missing field never matches.
`createdAt` always has a value because the schema gives it a default.

## Model

| member | source | states |
|---|---|---|
| `Text.IsWhitespace` | backend/server.js:57-64 | Among ASCII characters, `trim` drops exactly the space and tab through carriage return. The definition also lists the non-ASCII separators ECMAScript counts as whitespace. |
| `Text.TrimStart` | backend/server.js:57 | The result is a suffix of the input. Everything dropped is whitespace, and the result does not start with whitespace. |
| `Text.TrimEnd` | backend/server.js:57 | The result is a prefix of the input. Everything dropped is whitespace, and the result does not end with whitespace. |
| `Text.Trim` | backend/server.js:57-65 | `trim()`: the result neither starts nor ends with whitespace. |
| `Text.TrimFrames` | backend/server.js:57-65 | The input is the trimmed text with a whitespace prefix and a whitespace suffix. |
| `Text.TrimEmptyIff` | backend/server.js:57-64 | `x.trim()` is falsy exactly when every character of `x` is whitespace. This is the test that decides whether a clause is added. |
| `Text.TrimIgnoresSurroundingWhitespace` | backend/server.js:57-65 | Whitespace added before and after a string never changes its trim. |
| `Text.TrimIdempotent` | backend/server.js:57-65 | Trimming a trimmed string changes nothing. |
| `Text.Lower` | backend/server.js:59-65 | The `"i"` option's folding: the result is the same character up to ASCII case, and it is never a capital letter. |
| `Text.LowerEqualIff` | backend/server.js:59-65 | Two characters fold to the same character exactly when they are equal or are an ASCII capital and its small letter. |
| `Text.Contains` | backend/server.js:59-65 | The empty pattern occurs in every text, and a pattern longer than the text never occurs in it. |
| `Text.ContainsIff` | backend/server.js:59-65 | The left-to-right search succeeds exactly when the pattern occurs at some index of the text. |
| `Text.ContainsIgnoreCase` | backend/server.js:59-65 | A case-insensitive match needs a pattern no longer than the text, and every exact occurrence is also a match. |
| `Text.ExactImpliesIgnoreCase` | backend/server.js:59-65 | Lower-casing both text and pattern keeps every exact occurrence. |
| `Text.ContainsIgnoreCaseIff` | backend/server.js:59-65 | A case-insensitive match holds exactly when some window of the field equals the pattern up to ASCII case. |
| `Text.OccursIgnoreCaseAtIff` | backend/server.js:59-65 | A window matches up to case exactly when each of its characters is the pattern's character at the same position, or that character's other ASCII case. |
| `SearchFilter.FieldMatches` | backend/server.js:59-65 | A `$regex` clause on a field selects only posts that have the field, with a value at least as long as the pattern. A value that contains the pattern exactly is selected. |
| `SearchFilter.Clause` | backend/server.js:57-65 | A clause is left out exactly when its input is all whitespace. A clause that is added holds the trimmed input, which is non-empty and has no whitespace at either end. |
| `SearchFilter.Build` | backend/server.js:55-66 | The text clause is present exactly when `query` is not all whitespace, and the category clause exactly when `category` is not. Each present clause holds its trimmed input. |
| `SearchFilter.Matches` | backend/server.js:55-66 | The filter with no keys selects every post. A present text clause selects only posts with a title or a content, and a present category clause only posts with a category. |
| `SearchFilter.BlankInputsMatchAll` | backend/server.js:55-66 | With both inputs blank the filter has no keys and matches every post. |
| `SearchFilter.MatchesBuild` | backend/server.js:55-66 | A post matches exactly when each non-blank input's clause holds. Blank inputs impose nothing, and present clauses are ANDed. |
| `SearchFilter.QueryOnly` | backend/server.js:57-62 | With only a non-blank query, a post matches exactly when the trimmed query occurs, up to ASCII case, at some index of its title or of its content. |
| `SearchFilter.CategoryOnly` | backend/server.js:64-66 | With only a non-blank category, a post matches exactly when it has a category in which the trimmed text occurs up to ASCII case. |
| `SearchFilter.BothClausesRequired` | backend/server.js:55-66 | With both inputs non-blank, a post matches exactly when both clauses hold. A post that satisfies only one of them is rejected. |
| `SearchFilter.SurroundingWhitespaceIgnored` | backend/server.js:57-65 | Leading and trailing whitespace on either input yields the same filter, so the same posts match. |
| `Paging.Find` | backend/server.js:76 | `find` returns no more posts than the collection holds, all of them drawn from the collection. |
| `Paging.CountDocuments` | backend/server.js:74 | The count never exceeds the collection size. |
| `Paging.CountIsFindLength` | backend/server.js:74-76 | `countDocuments` and `find` with the same filter agree: the count is the number of posts `find` returns. |
| `Paging.FindAppend` | backend/server.js:76 | `find` keeps collection order: the matches of `a + b` are the matches of `a` followed by the matches of `b`. |
| `Paging.FindMembership` | backend/server.js:76 | A post is among the results exactly when it is in the collection and matches the filter. |
| `Paging.FindMatchAll` | backend/server.js:74-76 | The empty filter returns the whole collection in order and counts all of it. |
| `Paging.Skip` | backend/server.js:77 | `skip(n)` leaves `max(0, len - n)` results, namely those from position `n` on. |
| `Paging.Limit` | backend/server.js:78 | `limit(n)` leaves the first `min(n, len)` results. |
| `Paging.Offset` | backend/server.js:77 | The skip count `(page-1)*limit` is zero exactly on the first page, and at least one whole page on any later page. |
| `Paging.PageOf` | backend/server.js:76-78 | A page holds `min(limit, max(0, total - Offset(page, limit)))` matches. Item `i` is match `Offset(page, limit) + i`, and the page is empty when the offset is at or past the total. |
| `Paging.CeilDiv` | backend/server.js:84 | `ceil(total / limit)`: the fewest pages of `limit` items that hold `total` items. It is zero exactly when `total` is zero. |
| `Paging.PageNonEmptyIff` | backend/server.js:76-84 | A page has items exactly when its number is at most the page count. |
| `Paging.PageLocation` | backend/server.js:76-84 | Every match is on some page within the page count: match `k` is item `k % limit` of page `k / limit + 1`. |
| `SearchHandler.PageNum` | backend/server.js:48-52 | An absent `page` reads as 1, and a present one as given. |
| `SearchHandler.LimitNum` | backend/server.js:49-53 | An absent `limit` reads as 6, and a present one as given. |
| `SearchHandler.Search` | backend/server.js:44-85 | `currentPage` echoes the page. `totalBlogs` is the number of posts `find` returns for the request's filter. `blogs` is the requested page of those posts, and `totalPages` is the ceiling of `totalBlogs / limit`. |
| `SearchHandler.SearchPageItems` | backend/server.js:76-78 | The response holds `min(limit, max(0, totalBlogs - Offset(page, limit)))` posts, and none when the offset is at or past `totalBlogs`. Item `i` is match `Offset(page, limit) + i` in collection order. |
| `SearchHandler.SearchPageCount` | backend/server.js:84 | `totalPages * limit >= totalBlogs > (totalPages - 1) * limit`, and `totalPages` is zero exactly when nothing matches. |
| `SearchHandler.SearchPageNonEmpty` | backend/server.js:76-84 | The response has posts exactly when `currentPage <= totalPages`. |
| `SearchHandler.SearchReturnsMatches` | backend/server.js:74-78 | Every returned post is in the collection and matches the filter built from the request. |
| `SearchHandler.AbsentParameterDefaults` | backend/server.js:45-53 | For every request (through `QueryText`, `CategoryText`, `PageNum` and `LimitNum`), an absent `query` or `category` reads as the empty text, an absent `page` as 1 and an absent `limit` as 6, and a present parameter as given. Leaving a parameter out gives the same response as passing its default. |
| `SearchHandler.DefaultRequest` | backend/server.js:45-84 | With blank texts and the default page and limit, the response is the first six posts of the collection, the collection size, page 1 and `ceil(size / 6)` pages. |
| `SearchHandler.FourteenMatches` | backend/server.js:74-84 | For 14 matches in pages of six, page 1 holds 6 posts and page 3 holds 2. Page 4 is empty, and `totalPages` stays 3. |
| `SearchHandler.TechFilter` | backend/server.js:57-62 | The query "Tech" with no category builds only the text clause "Tech". |
| `SearchHandler.QueryIgnoresCase` | backend/server.js:57-62 | That clause matches a post titled "tech trends". |
| `SearchHandler.ReactFilter` | backend/server.js:57-62 | The query "react" with no category builds only the text clause "react". |
| `SearchHandler.QueryReactInTitle` | backend/server.js:57-62 | That clause matches every post whose title contains "React" (for example "Learning React Hooks"), whatever its content. |
| `SearchHandler.QueryReactInContent` | backend/server.js:57-62 | That clause matches every post whose content contains "React" (for example "I love React"), whatever its title. |
| `SearchHandler.QueryReactNotFound` | backend/server.js:57-62 | That clause does not match a post titled "Paris" whose content is "Food". |

## Left out

- Regular-expression semantics: the handler passes the trimmed text to `$regex` without escaping it. The model reads the pattern as a literal substring. That agrees with the store only for text without regular-expression metacharacters (`. * + ? ^ $ ( ) [ ] { } | \`). MongoDB's regex engine is a foreign library.
- Case folding beyond ASCII: the `"i"` option also folds non-ASCII letters. The model folds only `A`-`Z`.
- `parseInt` coercion: `page` and `limit` are modelled as the integers `parseInt` returned. Non-numeric input, which gives `NaN`, is not modelled.
- SearchHandler.Search: requires `page >= 1` and `limit >= 1`, which the source does not check. A negative skip, `limit(0)` (which MongoDB reads as "no limit") and a division by zero in the page count are store and floating-point behaviour outside the model.
- SearchHandler.Search: skip and limit are unbounded integers. In the source, `(pageNum - 1) * limitNum` is a double: above 2^53 it is rounded, and a skip or limit beyond the 64-bit range is refused by the store, so the handler answers with the 500 error. For such requests the model instead returns a normal response whose page is empty.
- Non-string `query` or `category` (an array from a repeated key makes `trim` throw outside the `try`): the model takes both as strings.
- `Math.ceil` over floating-point division is modelled as exact integer ceiling division. The two agree for every count below 2^53.
- The connection check and reconnect (`backend/server.js:70-72`) and the 500 error response (`backend/server.js:86-92`): these are I/O and failure of the store, with no logic of the handler's own.
- Count and fetch are two separate reads of the store and are not atomic. The model reads one unchanged collection for both.
- Result order: the collection is a sequence in natural (insertion) order, and `find` without a sort is taken to return posts in that order.
- Logging middleware, CORS setup and the `ALLOWED_ORIGINS` split (`backend/server.js:19-36`), the root route (`backend/server.js:40-42`), the error middleware (`backend/server.js:96-99`) and `startServer` (`backend/server.js:101-115`): framework wiring and I/O.
- `backend/db/connectDB.js`: the connection bootstrap and `process.exit` are not part of this model.
- `frontend/src/App.jsx`: the React interface and its HTTP calls are not part of this model.
- JSON serialisation of the response and of `createdAt` (the `Date.now` default is clock I/O) are not modelled. The uniqueness of `id` is not modelled either, since no part of the handler reads it.
