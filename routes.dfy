/** The two handlers of the movies router: the paginated list and the lookup
    by id, over the movie table seen as a sequence of rows. */
module MovieRoutes {

  import opened Responses
  import opened Decimal
  import opened MovieSchemas
  import opened MovieStore

  const NoMoviesFound: string := "No movies found."
  const MovieNotFound: string := "Movie with the given ID was not found."
  const BaseUrl: string := "/api/v1/theater/movies/"
  const PageParam: string := "?page="
  const PerPageParam: string := "&per_page="

  /** The bounds the query validator enforces before the list handler runs:
      `page >= 1` and `1 <= per_page <= 20`. */
  predicate ValidQuery(page: int, perPage: int) {
    page >= 1 && 1 <= perPage <= 20
  }

  // ---------------------------------------------------------------------------
  // Pagination arithmetic

  /** Zero-based position of the first row of page `page`. */
  function Offset(page: int, perPage: int): (r: nat)
    requires page >= 1 && perPage >= 1
    ensures r % perPage == 0 && r / perPage == page - 1
  {
    MulDivExact(page - 1, perPage);
    (page - 1) * perPage
  }

  /** Reference definition of the page count: `q` pages of `d` rows hold all
      `n` rows, and one page fewer would not. */
  predicate IsPageCount(q: nat, n: nat, d: nat) {
    q * d >= n && (q == 0 || (q - 1) * d < n)
  }

  lemma MulMonotone(a: int, b: int, d: nat)
    requires a <= b
    ensures a * d <= b * d
  {
    assert b * d - a * d == (b - a) * d;
  }

  /** A multiple of `d` divides by `d` exactly. */
  lemma MulDivExact(q: nat, d: int)
    requires d >= 1
    ensures (q * d) % d == 0 && (q * d) / d == q
  {
    var x := q * d;
    var a := x / d - q;
    assert a * d == x / d * d - q * d;
    assert a * d == -(x % d);
    if a >= 1 {
      MulMonotone(1, a, d);
      assert false;
    } else if a <= -1 {
      MulMonotone(a, -1, d);
      assert false;
    }
  }

  /** `(n + d - 1) / d` is the ceiling of `n / d`. */
  lemma CeilingDivision(n: nat, d: int)
    requires d >= 1
    ensures IsPageCount((n + d - 1) / d, n, d)
  {
    var t, r := (n + d - 1) / d, (n + d - 1) % d;
    assert n + d - 1 == t * d + r && 0 <= r < d;
    assert (t - 1) * d == t * d - d;
  }

  /** Number of pages of `perPage` rows needed for `totalItems` rows, written
      as the handler writes it; Python's `//` and Dafny's `/` agree on the
      non-negative operands used here. It is ceiling division: at least one
      page when there are rows, and none when there are none. */
  function TotalPages(totalItems: nat, perPage: int): (r: nat)
    requires perPage >= 1
    ensures IsPageCount(r, totalItems, perPage)
    ensures totalItems > 0 ==> r >= 1 && (r - 1) * perPage < totalItems <= r * perPage
    ensures totalItems == 0 ==> r == 0
  {
    CeilingDivision(totalItems, perPage);
    (totalItems + perPage - 1) / perPage
  }

  /** The page count is unique, so `TotalPages` is the only function meeting it. */
  lemma PageCountUnique(q: nat, n: nat, d: int)
    requires d >= 1
    requires IsPageCount(q, n, d)
    ensures q == TotalPages(n, d)
  {
    var t := TotalPages(n, d);
    if q < t {
      MulMonotone(q, t - 1, d);
      assert false;
    } else if t < q {
      MulMonotone(t, q - 1, d);
      assert false;
    }
  }

  /** A page within range starts inside the table. */
  lemma OffsetInRange(page: int, d: int, n: nat)
    requires page >= 1 && d >= 1
    requires page <= TotalPages(n, d)
    ensures Offset(page, d) < n
  {
    MulMonotone(page - 1, TotalPages(n, d) - 1, d);
  }

  /** A position `q * d + pos` with `pos < d` inside `n` rows lies in page
      `q + 1`, which is in range, at `pos` after that page's offset. */
  lemma PageOfRow(n: nat, d: int, q: nat, pos: nat)
    requires d >= 1 && pos < d && q * d + pos < n
    ensures q + 1 <= TotalPages(n, d)
    ensures Offset(q + 1, d) + pos == q * d + pos
  {
    var t := TotalPages(n, d);
    if q + 1 > t {
      MulMonotone(t, q, d);
      assert false;
    }
  }

  // ---------------------------------------------------------------------------
  // Pagination links

  /** Length of the run of digits at the start of `s`. */
  function LeadingDigits(s: string): (k: nat)
    ensures k <= |s| && AllDigits(s[..k])
    ensures k < |s| ==> !IsDigit(s[k])
    decreases |s|
  {
    if s == [] || !IsDigit(s[0]) then 0
    else
      var k := 1 + LeadingDigits(s[1..]);
      assert s[..k] == [s[0]] + s[1..][..k - 1];
      k
  }

  lemma {:induction false} LeadingDigitsOfNumeral(a: string, t: string)
    requires AllDigits(a)
    requires |t| >= 1 && !IsDigit(t[0])
    ensures LeadingDigits(a + t) == |a|
    decreases |a|
  {
    if a == [] {
      assert a + t == t;
    } else {
      assert (a + t)[0] == a[0];
      assert (a + t)[1..] == a[1..] + t;
      LeadingDigitsOfNumeral(a[1..], t);
    }
  }

  /** Reads a link of the handler's form back into its page and per-page
      numbers; `None` for any other text. */
  function ParseLink(s: string): (r: Option<(nat, nat)>) {
    var prefix := BaseUrl + PageParam;
    if |s| < |prefix| || s[..|prefix|] != prefix then None
    else ParsePageQuery(s[|prefix|..])
  }

  /** The text after `?page=`: a page number, then `&per_page=` and a page size. */
  function ParsePageQuery(rest: string): (r: Option<(nat, nat)>) {
    var k := LeadingDigits(rest);
    var tail := rest[k..];
    if k == 0 || |tail| < |PerPageParam| || tail[..|PerPageParam|] != PerPageParam then None
    else
      var digits := tail[|PerPageParam|..];
      if digits == [] || !AllDigits(digits) then None
      else Some((StringToNat(rest[..k]), StringToNat(digits)))
  }

  /** The text of a page link reads back as the numbers written into it. */
  lemma ParseLinkRoundTrip(page: nat, perPage: nat)
    ensures ParseLink(BaseUrl + PageParam + NatToString(page) + PerPageParam + NatToString(perPage))
            == Some((page, perPage))
  {
    ParseLinkOfNumerals(NatToString(page), NatToString(perPage));
    StringToNatOfNatToString(page);
    StringToNatOfNatToString(perPage);
  }

  lemma ParseLinkOfNumerals(a: string, b: string)
    requires Canonical(a) && Canonical(b)
    ensures ParseLink(BaseUrl + PageParam + a + PerPageParam + b) == Some((StringToNat(a), StringToNat(b)))
  {
    var prefix := BaseUrl + PageParam;
    var s := BaseUrl + PageParam + a + PerPageParam + b;
    assert s == prefix + (a + PerPageParam + b);
    assert s[..|prefix|] == prefix;
    assert s[|prefix|..] == a + PerPageParam + b;
    ParsePageQueryOfNumerals(a, b);
  }

  lemma ParsePageQueryOfNumerals(a: string, b: string)
    requires Canonical(a) && Canonical(b)
    ensures ParsePageQuery(a + PerPageParam + b) == Some((StringToNat(a), StringToNat(b)))
  {
    var rest := a + PerPageParam + b;
    assert rest == a + (PerPageParam + b);
    assert (PerPageParam + b)[0] == '&';
    LeadingDigitsOfNumeral(a, PerPageParam + b);
    assert rest[..|a|] == a;
    var tail := rest[|a|..];
    assert tail == PerPageParam + b;
    assert tail[..|PerPageParam|] == PerPageParam;
    assert tail[|PerPageParam|..] == b;
  }

  /** `f"{base_url}?page={page}&per_page={per_page}"`: the link names exactly
      the page and page size it was built from. */
  function PageLink(page: nat, perPage: nat): (r: string)
    ensures ParseLink(r) == Some((page, perPage))
  {
    ParseLinkRoundTrip(page, perPage);
    BaseUrl + PageParam + NatToString(page) + PerPageParam + NatToString(perPage)
  }

  /** Links built from different pages or page sizes differ. */
  lemma PageLinkInjective(p: nat, m: nat, p': nat, m': nat)
    requires PageLink(p, m) == PageLink(p', m')
    ensures p == p' && m == m'
  {
    assert ParseLink(PageLink(p, m)) == Some((p, m));
  }

  // ---------------------------------------------------------------------------
  // Handlers

  /** The response schema built from a row: every field of the body is the
      row's field of the same name. */
  function ToDetail(m: MovieModel): (r: MovieDetail)
    ensures r.id == m.id && r.name == m.name && r.date == m.date && r.score == m.score
    ensures r.genre == m.genre && r.overview == m.overview && r.crew == m.crew
    ensures r.origTitle == m.origTitle && r.status == m.status && r.origLang == m.origLang
    ensures r.budget == m.budget && r.revenue == m.revenue && r.country == m.country
  {
    MovieDetail(m.id, m.name, m.date, m.score, m.genre, m.overview, m.crew,
                m.origTitle, m.status, m.origLang, m.budget, m.revenue, m.country)
  }

  /** The list comprehension over the fetched rows: one body per row, in order. */
  function ToDetails(ms: seq<MovieModel>): (r: seq<MovieDetail>)
    ensures |r| == |ms|
    ensures forall i :: 0 <= i < |r| ==> r[i] == ToDetail(ms[i])
  {
    seq(|ms|, i requires 0 <= i < |ms| => ToDetail(ms[i]))
  }

  /** `GET /movies/?page=&per_page=`. */
  function ListMovies(store: Store, page: int, perPage: int): (r: Response<MovieList>)
    requires ValidQuery(page, perPage)
    ensures r.NotFound? <==> |store| == 0 || page > TotalPages(|store|, perPage)
    ensures r.NotFound? ==> r.detail == NoMoviesFound
    ensures r.Ok? ==> r.value.totalItems == |store| && r.value.totalPages == TotalPages(|store|, perPage)
    ensures r.Ok? ==> (r.value.prevPage.Some? <==> page > 1)
    ensures r.Ok? && page > 1 ==> r.value.prevPage == Some(PageLink(page - 1, perPage))
    ensures r.Ok? ==> (r.value.nextPage.Some? <==> page < r.value.totalPages)
    ensures r.Ok? && page < r.value.totalPages ==> r.value.nextPage == Some(PageLink(page + 1, perPage))
  {
    var offset := Offset(page, perPage);
    var totalItems := |store|;
    if totalItems == 0 then NotFound(NoMoviesFound)
    else
      var totalPages := TotalPages(totalItems, perPage);
      if page > totalPages then NotFound(NoMoviesFound)
      else
        var movies := FetchPage(store, offset, perPage);
        var prevPage := if page > 1 then Some(PageLink(page - 1, perPage)) else None;
        var nextPage := if page < totalPages then Some(PageLink(page + 1, perPage)) else None;
        Ok(MovieList(ToDetails(movies), prevPage, nextPage, totalPages, totalItems))
  }

  /** A successful page is in range, starts inside the table, and holds the
      `min(per_page, total_items - offset)` rows from the offset on, in the
      order of the store sequence, each copied field for field. */
  lemma ListMoviesPage(store: Store, page: int, perPage: int)
    requires ValidQuery(page, perPage)
    requires ListMovies(store, page, perPage).Ok?
    ensures var body := ListMovies(store, page, perPage).value;
            var offset := Offset(page, perPage);
            1 <= page <= body.totalPages
            && offset < |store|
            && |body.movies| == Min(perPage, |store| - offset) >= 1
            && forall i :: 0 <= i < |body.movies| ==> body.movies[i] == ToDetail(store[offset + i])
  {
    var offset := Offset(page, perPage);
    OffsetInRange(page, perPage, |store|);
    var rows := FetchPage(store, offset, perPage);
    var movies := ListMovies(store, page, perPage).value.movies;
    assert movies == ToDetails(rows);
    assert |rows| == Min(perPage, |store| - offset);
  }

  /** The first page never links back; the last page never links forward; and
      every link names the neighbouring page at the same page size. */
  lemma ListMoviesLinks(store: Store, page: int, perPage: int)
    requires ValidQuery(page, perPage)
    requires ListMovies(store, page, perPage).Ok?
    ensures var body := ListMovies(store, page, perPage).value;
            (page == 1 ==> body.prevPage == None)
            && (page == body.totalPages ==> body.nextPage == None)
            && (body.prevPage.Some? ==> ParseLink(body.prevPage.value) == Some((page - 1, perPage)))
            && (body.nextPage.Some? ==> ParseLink(body.nextPage.value) == Some((page + 1, perPage)))
  {
  }

  /** The page after the last one is not found, with the same message as an
      empty table. */
  lemma PastLastPageNotFound(store: Store, perPage: int)
    requires 1 <= perPage <= 20
    ensures ListMovies(store, TotalPages(|store|, perPage) + 1, perPage) == NotFound(NoMoviesFound)
  {
  }

  /** The row at position `q * per_page + pos`, with `pos < per_page`, is
      listed as element `pos` of page `q + 1`. */
  lemma RowOnPage(store: Store, perPage: int, q: nat, pos: nat)
    requires 1 <= perPage <= 20
    requires pos < perPage && q * perPage + pos < |store|
    ensures ListMovies(store, q + 1, perPage).Ok?
    ensures pos < |ListMovies(store, q + 1, perPage).value.movies|
    ensures ListMovies(store, q + 1, perPage).value.movies[pos] == ToDetail(store[q * perPage + pos])
  {
    PageOfRow(|store|, perPage, q, pos);
    ListMoviesPage(store, q + 1, perPage);
  }

  /** Every row is listed: row `k` is element `k % per_page` of page
      `k / per_page + 1`. With `RowOnlyOnItsPage`, it is listed nowhere else. */
  lemma PagesCoverStore(store: Store, perPage: int, k: nat)
    requires 1 <= perPage <= 20
    requires k < |store|
    ensures var page := k / perPage + 1;
            ListMovies(store, page, perPage).Ok?
            && k % perPage < |ListMovies(store, page, perPage).value.movies|
            && ListMovies(store, page, perPage).value.movies[k % perPage] == ToDetail(store[k])
  {
    var q, pos := k / perPage, k % perPage;
    assert k == q * perPage + pos && pos < perPage;
    RowOnPage(store, perPage, q, pos);
  }

  /** With unique ids, a row that a page lists at position `i` is the row at
      that page's offset plus `i`, with `i < per_page`: no row is listed on two
      pages or twice on one page. */
  lemma RowOnlyOnItsPage(store: Store, perPage: int, page: int, i: nat, k: nat)
    requires ValidQuery(page, perPage) && UniqueIds(store)
    requires ListMovies(store, page, perPage).Ok?
    requires i < |ListMovies(store, page, perPage).value.movies| && k < |store|
    requires ListMovies(store, page, perPage).value.movies[i] == ToDetail(store[k])
    ensures k == Offset(page, perPage) + i && i < perPage
  {
    ListMoviesPage(store, page, perPage);
    assert store[Offset(page, perPage) + i].id == store[k].id;
  }

  /** The page query has no ORDER BY, so each request may see the rows in its
      own order. Two rows, one per page: if the first request sees them as
      `[a, b]` and the second as `[b, a]`, both pages show `a` and `b` is
      listed on no page. */
  lemma UnorderedPagesCanSkipRow(a: MovieModel, b: MovieModel)
    requires a != b
    ensures multiset([a, b]) == multiset([b, a])
    ensures ListMovies([a, b], 1, 1).Ok? && ListMovies([b, a], 2, 1).Ok?
    ensures ListMovies([a, b], 1, 1).value.movies == [ToDetail(a)]
    ensures ListMovies([b, a], 2, 1).value.movies == [ToDetail(a)]
    ensures ToDetail(b) != ToDetail(a)
  {
    assert TotalPages(2, 1) == 2;
    assert Offset(2, 1) == 1;
    assert [b, a][1..2] == [a];
    assert [a, b][0..1] == [a];
  }

  /** `GET /movies/{movie_id}/`. */
  function GetMovieById(store: Store, movieId: int): (r: Response<MovieDetail>)
    ensures r.NotFound? <==> forall i :: 0 <= i < |store| ==> store[i].id != movieId
    ensures r.NotFound? ==> r.detail == MovieNotFound
    ensures r.Ok? ==> r.value.id == movieId && exists m :: m in store && r.value == ToDetail(m)
  {
    match Get(store, movieId)
    case None => NotFound(MovieNotFound)
    case Some(movie) => Ok(ToDetail(movie))
  }

  /** With unique ids, looking up a row's id returns that row, field for field. */
  lemma GetMovieByIdFindsRow(store: Store, i: nat)
    requires UniqueIds(store)
    requires i < |store|
    ensures GetMovieById(store, store[i].id) == Ok(ToDetail(store[i]))
  {
    GetFindsRow(store, i);
  }

  /** A movie added under a fresh id is returned unchanged by a lookup of that id. */
  lemma GetMovieByIdAfterAppend(store: Store, m: MovieModel)
    requires forall i :: 0 <= i < |store| ==> store[i].id != m.id
    ensures GetMovieById(store + [m], m.id) == Ok(ToDetail(m))
  {
    GetAfterAppend(store, m);
  }

  /** Twenty-five rows at ten per page: three pages; the first has ten rows,
      no previous link and a next link to page 2; the third has five rows,
      a previous link to page 2 and no next link. */
  lemma TwentyFiveRowsTenPerPage(store: Store)
    requires |store| == 25
    ensures var first := ListMovies(store, 1, 10);
            first.Ok? && first.value.totalPages == 3 && |first.value.movies| == 10
            && first.value.prevPage == None
            && first.value.nextPage == Some("/api/v1/theater/movies/?page=2&per_page=10")
    ensures var last := ListMovies(store, 3, 10);
            last.Ok? && |last.value.movies| == 5
            && last.value.prevPage == Some("/api/v1/theater/movies/?page=2&per_page=10")
            && last.value.nextPage == None
  {
    PageTwoLinkText();
    assert TotalPages(25, 10) == 3;
    assert Offset(1, 10) == 0 && Offset(3, 10) == 20;
  }

  lemma PageTwoLinkText()
    ensures BaseUrl + PageParam + NatToString(2) + PerPageParam + NatToString(10)
            == "/api/v1/theater/movies/?page=2&per_page=10"
  {
    NumeralsTwoAndTen();
  }

  lemma NumeralsTwoAndTen()
    ensures NatToString(2) == "2" && NatToString(10) == "10"
  {
    assert NatToString(10) == NatToString(1) + "0";
  }

}
