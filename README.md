# Movie catalogue pagination, modelled in Dafny

This project models the two handlers of the movies router of a small FastAPI
service (`src/routes/movies.py`): `get_movies`, which returns one page of the
movie table with its page count and previous/next links, and
`get_movie_by_id`, which returns one movie or a 404.

The movie table is a read-only sequence of rows (`MovieStore.Store`): the row count is its length, `offset(o).limit(l)` is
`MovieStore.FetchPage`, and the primary-key lookup is `MovieStore.Get`. A 404
`HTTPException` is the `NotFound(detail)` case of `Responses.Response`. The
validated query parameters (`page >= 1`, `1 <= per_page <= 20`) are the
precondition `MovieRoutes.ValidQuery` of the list handler. The numbers inside
the links are written by `Decimal.NatToString`, the model of Python's `str` on
a non-negative `int`. `MovieRoutes.ParseLink` reads a link back; it exists to
state that a link names the page and page size it was built from.

Modules: `Responses` (option and response types), `Decimal` (decimal text of
naturals and its inverse), `MovieSchemas` (the row and the response schemas of
`src/schemas/movies.py`), `MovieStore` (the table) and `MovieRoutes` (the
handlers, the pagination arithmetic and the links).

Field names are the schema's names in camelCase (`date`, `origTitle` for
`orig_title`, `origLang` for `orig_lang`).
`revenue` is a float in `MovieDetailResponseSchema` (src/schemas/movies.py:20)
and is copied like `score` and `budget`.

## Model

| member | source | states |
|---|---|---|
| `Decimal.NatToString` | src/routes/movies.py:81 | the text of a page number is a canonical decimal numeral: at least one digit, all digits, no leading zero |
| `Decimal.StringToNatOfNatToString` | src/routes/movies.py:81 | reading back the decimal text of `n` gives `n` |
| `Decimal.NatToStringOfStringToNat` | src/routes/movies.py:81 | every canonical numeral is the text of the number it denotes, so text and number correspond one to one |
| `MovieStore.FetchPage` | src/routes/movies.py:48-53 | `offset(o).limit(l)` returns `min(l, count - o)` rows (none past the end), and its `i`-th row is row `o + i` of the table |
| `MovieStore.Get` | src/routes/movies.py:111 | the lookup finds nothing exactly when no row has the id; what it finds is a row of the table with that id |
| `MovieStore.GetFindsRow` | src/routes/movies.py:111 | with unique ids, looking up the id of row `i` finds row `i` |
| `MovieStore.GetAfterAppend` | src/routes/movies.py:111 | a row stored under an id no other row has is what a lookup of that id finds |
| `MovieRoutes.Offset` | src/routes/movies.py:30 | the offset is a non-negative multiple of `per_page` whose quotient by `per_page` is `page - 1` |
| `MovieRoutes.CeilingDivision` | src/routes/movies.py:41 | `(n + d - 1) // d` meets the reference page count `IsPageCount`: that many pages of `d` rows hold all `n` rows, and one page fewer would not |
| `MovieRoutes.TotalPages` | src/routes/movies.py:41 | `total_pages` is ceiling division: `(total_pages-1)*per_page < total_items <= total_pages*per_page` and `total_pages >= 1` when there are rows; 0 when there are none |
| `MovieRoutes.PageCountUnique` | src/routes/movies.py:41 | any page count that holds all rows, with one page fewer not holding them, equals `TotalPages` |
| `MovieRoutes.OffsetInRange` | src/routes/movies.py:30-45 | a page in `1..total_pages` starts inside the table |
| `MovieRoutes.PageOfRow` | src/routes/movies.py:30-45 | a row at position `q * per_page + pos` with `pos < per_page` lies in page `q + 1`, which is in range, at `pos` after that page's offset |
| `MovieRoutes.RowOnPage` | src/routes/movies.py:30-73 | the row at position `q * per_page + pos` with `pos < per_page` is listed, copied field for field, as element `pos` of page `q + 1` |
| `MovieRoutes.ParseLinkRoundTrip` | src/routes/movies.py:76-84 | the text `/api/v1/theater/movies/?page=<n>&per_page=<m>` reads back as exactly `(n, m)` |
| `MovieRoutes.PageLink` | src/routes/movies.py:76-84 | the link built as at :81 and :84 reads back as exactly the page and `per_page` it was built from |
| `MovieRoutes.PageLinkInjective` | src/routes/movies.py:76-84 | links built from different pages or page sizes are different strings |
| `MovieRoutes.ToDetail` | src/routes/movies.py:116-129 | each of the thirteen fields of the response body equals the row's field of the same name |
| `MovieRoutes.ToDetails` | src/routes/movies.py:56-73 | the comprehension gives one body per fetched row, in the same order, the `i`-th built from the `i`-th row |
| `MovieRoutes.ListMovies` | src/routes/movies.py:13-92 | the list fails exactly when the table is empty or `page > total_pages`, always with "No movies found."; on success it echoes `total_items` and `total_pages`, has a previous link iff `page > 1` (to `page - 1`) and a next link iff `page < total_pages` (to `page + 1`), both at the same `per_page` |
| `MovieRoutes.ListMoviesPage` | src/routes/movies.py:30-73 | on success `1 <= page <= total_pages`, the offset is inside the table, and the page holds `min(per_page, total_items - offset) >= 1` movies, the `i`-th being row `offset + i` copied field for field |
| `MovieRoutes.ListMoviesLinks` | src/routes/movies.py:76-84 | page 1 has no previous link, the last page has no next link, and each link reads back as the neighbouring page at the same `per_page` |
| `MovieRoutes.PastLastPageNotFound` | src/routes/movies.py:41-45 | the page after the last one is not found, with the same message as an empty table |
| `MovieRoutes.UnorderedPagesCanSkipRow` | src/routes/movies.py:48-52 | when two requests see the same two rows in opposite orders, page 1 of one and page 2 of the other both show the same row, and the other row is on neither |
| `MovieRoutes.PagesCoverStore` | src/routes/movies.py:30-73 | every row of the table is listed, as element `k % per_page` of page `k // per_page + 1` |
| `MovieRoutes.RowOnlyOnItsPage` | src/routes/movies.py:30-73 | with unique ids, a row listed at position `i` of a page is the row at that page's offset plus `i`, with `i < per_page`, so no row is listed on two pages |
| `MovieRoutes.GetMovieById` | src/routes/movies.py:96-130 | the lookup is not found, with "Movie with the given ID was not found.", exactly when no row has the id; otherwise it returns a row of the table with that id, field for field |
| `MovieRoutes.GetMovieByIdFindsRow` | src/routes/movies.py:111-130 | with unique ids, looking up row `i`'s id returns row `i` unchanged |
| `MovieRoutes.GetMovieByIdAfterAppend` | src/routes/movies.py:111-130 | a movie stored under a fresh id is returned unchanged by a lookup of that id |
| `MovieRoutes.TwentyFiveRowsTenPerPage` | src/routes/movies.py:13-92 | 25 rows at 10 per page give 3 pages; page 1 has 10 movies, no previous link and a next link to `?page=2&per_page=10`; page 3 has 5 movies, a previous link to page 2 and no next link |

## Left out

- Routing, the `Query` validators and `Depends(get_db)` are framework machinery. The bounds the validators enforce are the precondition `ValidQuery`. A rejected query (a 422 response) is not modelled, and neither are the defaults `page = 1` and `per_page = 10` used when a parameter is absent; callers pass both numbers.
- The page query has no ORDER BY, and the count and each page are separate queries. The model assumes one fixed row order shared by the count and all page requests. `ListMoviesPage` (the page is a contiguous slice of that order) and `PagesCoverStore` hold under that assumption only; see Findings.
- The SQLAlchemy session, `select`, `func.count` and the `database` module are not part of this model. The table is a sequence of rows, and a count, an offset/limit query and a primary-key get are functions over it.
- async/await and the per-request session lifetime are not modelled. They carry no logic of the handlers.
- Floating-point values (`score`, `budget`, `revenue`) are kept as opaque 64-bit patterns and only copied. `float(movie.budget)` is taken as the identity, because the stored column type is not part of this model.
- Dates are copied as a year-month-day triple; their validity is not checked.
- HTTP status codes and JSON serialisation are not modelled. A 404 is the `NotFound` response carrying the detail message.
- `MovieStore.Get` returns the first row with the id. That is the row a primary-key get returns only because ids are unique, which is the `UniqueIds` precondition of the lemmas about it.

## Findings

| source | as written | input that shows it | evidently intended | confidence | as-written member | corrected member |
|---|---|---|---|---|---|---|
| src/routes/movies.py:48-52 | `select(MovieModel).offset(offset).limit(per_page)` has no `order_by`, so SQL leaves the row order of each page query undefined | two rows `a`, `b`, `per_page = 1`: page 1 sees `[a, b]`, page 2 sees `[b, a]`; both pages show `a` and `b` is never listed | every row appears on exactly one page, as with an `order_by` on a fixed key (coverage: `PagesCoverStore`; no overlap: `RowOnlyOnItsPage`) | not executed; whether a given database actually reorders depends on its query plans | `MovieRoutes.UnorderedPagesCanSkipRow` | `MovieRoutes.PagesCoverStore` |
