/** The public listing page (src/pages/Index.tsx): URL parameters become a
    conjunctive filter over the `movies` table, the matching rows are read
    newest first in windows of ten, and the page count decides which
    navigation links are shown. The database is modelled by the meaning of
    the query it receives. */
module Catalog {
  import opened Basics
  import opened Text
  import opened Rows

  const ItemsPerPage: nat := 10
  const FeaturedMinRating: real := 8.0

  /** The URL's search parameters. */
  type Params = map<string, string>

  /** A parameter read as a truthy value: present and not empty. */
  function Active(p: Params, key: string): (v: Option<string>)
    ensures v.Some? <==> key in p && p[key] != ""
    ensures v.Some? ==> v.value == p[key]
  {
    if key in p && p[key] != "" then Some(p[key]) else None
  }

  /** The filter state the page reads from its parameters. An empty string
      counts as absent, like the source's truthiness tests. */
  datatype Criteria = Criteria(search: string, featured: bool, genre: Option<string>, year: Option<string>)

  function CriteriaOf(p: Params): (c: Criteria)
    ensures c.search != "" <==> "search" in p && p["search"] != ""
    ensures c.search != "" ==> c.search == p["search"]
    ensures c.featured <==> "featured" in p && p["featured"] != ""
    ensures c.genre.Some? <==> "genre" in p && p["genre"] != ""
    ensures c.genre.Some? ==> c.genre.value == p["genre"]
    ensures c.year.Some? <==> "year" in p && p["year"] != ""
    ensures c.year.Some? ==> c.year.value == p["year"]
  {
    Criteria(
      search := Active(p, "search").GetOr(""),
      featured := Active(p, "featured").Some?,
      genre := Active(p, "genre"),
      year := Active(p, "year"))
  }

  /** `parseInt(searchParams.get("page") || "1", 10)`; `None` stands for `NaN`.
      A missing or empty parameter is page 1; otherwise the page is the value
      of the parameter's leading digits, and `NaN` when it starts with
      anything else. */
  function CurrentPage(p: Params): (n: Option<nat>)
    ensures "page" !in p || p["page"] == "" ==> n == Some(1)
    ensures "page" in p && p["page"] != "" ==> (n.None? <==> !IsDigit(p["page"][0]))
    ensures "page" in p && n.Some? && p["page"] != "" ==> n.value == DigitsValue(LeadingDigits(p["page"]))
  {
    ParseLeadingNatRoundTrip(1, "");
    assert NatToString(1) + "" == "1";
    ParseLeadingNat(Active(p, "page").GetOr("1"))
  }

  // ---------------------------------------------------------------------------
  // Query composition

  /** The slug parameter resolved against the category list: the id of the
      first category with that slug, or nothing. */
  function ResolveGenre(categories: seq<Category>, slug: string): (id: Option<string>)
    ensures id.None? <==> forall i :: 0 <= i < |categories| ==> categories[i].slug != slug
    ensures id.Some? ==> exists i :: 0 <= i < |categories| && categories[i].slug == slug && categories[i].id == id.value
                                    && forall j :: 0 <= j < i ==> categories[j].slug != slug
  {
    if |categories| == 0 then None
    else if categories[0].slug == slug then Some(categories[0].id)
    else
      var id := ResolveGenre(categories[1..], slug);
      assert forall i :: 1 <= i < |categories| ==> categories[i] == categories[1..][i - 1];
      id
  }

  /** The read the page sends: each filter is present only when its
      parameter is, and the window is `[from, to]`, both ends included. */
  datatype Query = Query(
    titleLike: Option<string>,
    minRating: Option<real>,
    categoryId: Option<string>,
    yearEq: Option<string>,
    from: int,
    to: int)

  function Compose(c: Criteria, categories: seq<Category>, page: int): (q: Query)
    ensures q.titleLike.Some? <==> c.search != ""
    ensures q.titleLike.Some? ==> q.titleLike.value == c.search
    ensures q.minRating.Some? <==> c.featured
    ensures q.minRating.Some? ==> q.minRating.value == FeaturedMinRating
    ensures c.genre.None? ==> q.categoryId.None?
    ensures c.genre.Some? ==> q.categoryId == ResolveGenre(categories, c.genre.value)
    ensures q.yearEq == c.year
    ensures q.from == (page - 1) * ItemsPerPage
    ensures q.to - q.from + 1 == ItemsPerPage
    // The window asked for is page `page` of whatever rows it is applied to.
    ensures forall rows :: Range(rows, q.from, q.to) == PageWindow(rows, page)
  {
    var from := (page - 1) * ItemsPerPage;
    Query(
      titleLike := if c.search != "" then Some(c.search) else None,
      minRating := if c.featured then Some(FeaturedMinRating) else None,
      categoryId := if c.genre.Some? then ResolveGenre(categories, c.genre.value) else None,
      yearEq := c.year,
      from := from,
      to := from + ItemsPerPage - 1)
  }

  /** The meaning of the composed filters for one row: all of them hold. */
  predicate Matches(m: Movie, q: Query)
  {
    && (q.titleLike.None? || ContainsIgnoringCase(m.title, q.titleLike.value))
    && (q.minRating.None? || (m.rating.Some? && m.rating.value >= q.minRating.value))
    && (q.categoryId.None? || m.categoryId == q.categoryId)
    && (q.yearEq.None? || (m.year.Some? && ParseWholeNumber(q.yearEq.value) == Some(m.year.value)))
  }

  function Matcher(q: Query): Movie -> bool
  {
    m => Matches(m, q)
  }

  /** The rows of the table the filters let through, in table order. */
  function Eligible(table: seq<Movie>, q: Query): seq<Movie>
  {
    Filter(table, Matcher(q))
  }

  /** `range(from, to)`: the rows at positions `from` to `to`, both included,
      as far as they exist. */
  function Range(rows: seq<Movie>, from: int, to: int): (r: seq<Movie>)
    ensures var lo := if from < 0 then 0 else from;
            var hi := if to + 1 < |rows| then to + 1 else |rows|;
            && |r| == (if lo < hi then hi - lo else 0)
            && forall k :: 0 <= k < |r| ==> r[k] == rows[lo + k]
  {
    var lo := if from < 0 then 0 else from;
    var hi := if to + 1 < |rows| then to + 1 else |rows|;
    if lo < hi then rows[lo..hi] else []
  }

  /** The page of ten rows numbered `page` (from 1). */
  function PageWindow(rows: seq<Movie>, page: int): seq<Movie>
  {
    Range(rows, (page - 1) * ItemsPerPage, (page - 1) * ItemsPerPage + ItemsPerPage - 1)
  }

  datatype Fetched = Fetched(movies: seq<Movie>, count: nat)

  datatype ReadError = GatewayError(thrown: Thrown) | YearNotANumber | PageNotANumber | RangeNotSatisfiable

  /** The database's answer: the window of the matching rows in newest-first
      order, and the exact number of matching rows. A year that is not a whole
      number cannot be compared with the integer column and fails the read.
      Because the exact count is asked for, a window that starts beyond the
      last matching row fails too ("Requested range not satisfiable"); one
      that starts right after it is an empty answer. */
  function Execute(q: Query, table: seq<Movie>): (r: Result<Fetched, ReadError>)
    ensures r.Failure? <==> (q.yearEq.Some? && ParseWholeNumber(q.yearEq.value).None?) || q.from > |Eligible(table, q)|
    ensures q.yearEq.Some? && ParseWholeNumber(q.yearEq.value).None? ==> r == Failure(YearNotANumber)
    ensures r.Failure? && r.error != YearNotANumber ==> r.error == RangeNotSatisfiable
    ensures r.Success? ==> r.value.count == |Eligible(table, q)|
    ensures r.Success? && q.to - q.from + 1 == ItemsPerPage ==>
              && |r.value.movies| <= ItemsPerPage
              && NewestFirst(r.value.movies)
              && forall m :: m in r.value.movies ==> m in table && Matches(m, q)
  {
    if q.yearEq.Some? && ParseWholeNumber(q.yearEq.value).None? then Failure(YearNotANumber)
    else
      var ordered := SortNewestFirst(Eligible(table, q));
      if q.from > |ordered| then Failure(RangeNotSatisfiable)
      else
        var w := Range(ordered, q.from, q.to);
        assert q.to - q.from + 1 == ItemsPerPage ==>
                 |w| <= ItemsPerPage && NewestFirst(w) && forall m :: m in w ==> m in table && Matches(m, q) by {
          if q.to - q.from + 1 == ItemsPerPage {
            WindowFacts(q, table);
          }
        }
        Success(Fetched(w, |ordered|))
  }

  /** The state of the listing query. */
  datatype Listing = Disabled | Loading | Loaded(fetched: Fetched) | Errored(error: ReadError)

  /** The listing query of the page. It is enabled only once the category list
      is non-empty; `gatewayError` is a failure of the read itself. */
  function RunListing(categories: seq<Category>, table: seq<Movie>, params: Params, gatewayError: Option<Thrown>): (l: Listing)
    ensures |categories| == 0 <==> l.Disabled?
    ensures !l.Loading?
    ensures l.Loaded? ==>
              var c := CriteriaOf(params);
              && |l.fetched.movies| <= ItemsPerPage
              && NewestFirst(l.fetched.movies)
              && (forall m :: m in l.fetched.movies ==> m in table)
              && (forall m :: m in l.fetched.movies && c.search != "" ==> ContainsIgnoringCase(m.title, c.search))
              && (forall m :: m in l.fetched.movies && c.featured ==> m.rating.Some? && m.rating.value >= FeaturedMinRating)
              && (forall m :: m in l.fetched.movies && c.genre.Some? && ResolveGenre(categories, c.genre.value).Some? ==>
                               m.categoryId == ResolveGenre(categories, c.genre.value))
              && (forall m :: m in l.fetched.movies && c.year.Some? ==>
                               m.year.Some? && ParseWholeNumber(c.year.value) == Some(m.year.value))
    ensures l.Loaded? ==>
              && CurrentPage(params).Some?
              && l.fetched.count == |Eligible(table, Compose(CriteriaOf(params), categories, CurrentPage(params).value))|
    // The rows shown are the current page of the matching rows, newest first.
    ensures l.Loaded? ==>
              l.fetched.movies == PageWindow(SortNewestFirst(Eligible(table, Compose(CriteriaOf(params), categories, CurrentPage(params).value))),
                                             CurrentPage(params).value)
    ensures |categories| > 0 && CurrentPage(params).None? ==> l == Errored(PageNotANumber)
    // With categories loaded, a page number, a year that is a whole number
    // and no gateway failure, the page loads exactly when it does not start
    // beyond the last matching row.
    ensures (&& |categories| > 0 && CurrentPage(params).Some? && gatewayError.None?
             && (CriteriaOf(params).year.None? || ParseWholeNumber(CriteriaOf(params).year.value).Some?))
            ==> (l.Loaded? <==>
                   (CurrentPage(params).value - 1) * ItemsPerPage
                   <= |Eligible(table, Compose(CriteriaOf(params), categories, CurrentPage(params).value))|)
    ensures l.Errored? && l.error == RangeNotSatisfiable ==>
              (CurrentPage(params).value - 1) * ItemsPerPage
              > |Eligible(table, Compose(CriteriaOf(params), categories, CurrentPage(params).value))|
  {
    if |categories| == 0 then Disabled
    else
      match CurrentPage(params)
      case None => Errored(PageNotANumber)
      case Some(page) =>
        if gatewayError.Some? then Errored(GatewayError(gatewayError.value))
        else
          var q := Compose(CriteriaOf(params), categories, page);
          match Execute(q, table)
          case Failure(e) => Errored(e)
          case Success(f) => Loaded(f)
  }

  /** On a loaded page, rows appear exactly when the page number lies between
      1 and the page count of the matching rows. A page that starts beyond the
      last matching row does not load at all, so a loaded empty page is the
      one right after a full last page, page 1 of no matches, or a page
      numbered 0 or less. */
  lemma LoadedPageNonEmptyIffInRange(categories: seq<Category>, table: seq<Movie>, params: Params, gatewayError: Option<Thrown>)
    requires RunListing(categories, table, params, gatewayError).Loaded?
    ensures var f := RunListing(categories, table, params, gatewayError).fetched;
            |f.movies| > 0 <==> 1 <= CurrentPage(params).value <= PageCount(f.count)
  {
    var page := CurrentPage(params).value;
    var ordered := SortNewestFirst(Eligible(table, Compose(CriteriaOf(params), categories, page)));
    PageNonEmptyIffInRange(ordered, page);
  }

  lemma WindowFacts(q: Query, table: seq<Movie>)
    requires q.to - q.from + 1 == ItemsPerPage
    ensures var ordered := SortNewestFirst(Eligible(table, q));
            var w := Range(ordered, q.from, q.to);
            && |w| <= ItemsPerPage
            && NewestFirst(w)
            && forall m :: m in w ==> m in table && Matches(m, q)
  {
    var eligible := Eligible(table, q);
    var ordered := SortNewestFirst(eligible);
    WindowOfOrdered(ordered, q.from, q.to);
    EligibleRows(table, q);
    forall m | m in ordered ensures m in eligible {
      assert m in multiset(ordered);
    }
  }

  /** A window of a newest-first sequence is newest first, at most ten long,
      and holds rows of the sequence. */
  lemma WindowOfOrdered(ordered: seq<Movie>, from: int, to: int)
    requires NewestFirst(ordered)
    requires to - from + 1 == ItemsPerPage
    ensures var w := Range(ordered, from, to);
            && |w| <= ItemsPerPage
            && NewestFirst(w)
            && forall m :: m in w ==> m in ordered
  {
    var w := Range(ordered, from, to);
    var lo := if from < 0 then 0 else from;
    forall m | m in w ensures m in ordered {
      var k :| 0 <= k < |w| && w[k] == m;
      assert m == ordered[lo + k];
    }
    forall i, j | 0 <= i < j < |w| ensures w[i].createdAt >= w[j].createdAt {
      assert w[i] == ordered[lo + i] && w[j] == ordered[lo + j];
    }
  }

  /** Every eligible row is a row of the table that matches the query. */
  lemma EligibleRows(table: seq<Movie>, q: Query)
    ensures forall m :: m in Eligible(table, q) ==> m in table && Matches(m, q)
  {
    FilterMembers(table, Matcher(q));
    var e := Eligible(table, q);
    forall m | m in e ensures m in table && Matches(m, q) {
      var k :| 0 <= k < |e| && e[k] == m;
      assert Matcher(q)(e[k]);
    }
  }

  // ---------------------------------------------------------------------------
  // Properties of the filters

  predicate NoFilter(c: Criteria)
  {
    c.search == "" && !c.featured && c.genre.None? && c.year.None?
  }

  /** With no filter parameter every row is eligible. */
  lemma NoFilterKeepsEveryRow(table: seq<Movie>, c: Criteria, categories: seq<Category>, page: int)
    requires NoFilter(c)
    ensures Eligible(table, Compose(c, categories, page)) == table
  {
    FilterKeepsAll(table, Matcher(Compose(c, categories, page)));
  }

  /** `narrow` keeps every filter `wide` has active, with the same value, and
      may activate more. */
  predicate Narrower(narrow: Criteria, wide: Criteria)
  {
    && (wide.search != "" ==> narrow.search == wide.search)
    && (wide.featured ==> narrow.featured)
    && (wide.genre.Some? ==> narrow.genre == wide.genre)
    && (wide.year.Some? ==> narrow.year == wide.year)
  }

  /** Activating more filters only removes rows: the narrower result is the
      wider result filtered again, and it is never longer. */
  lemma MoreFiltersFewerRows(table: seq<Movie>, narrow: Criteria, wide: Criteria, categories: seq<Category>, page: int)
    requires Narrower(narrow, wide)
    ensures var qn := Compose(narrow, categories, page);
            var qw := Compose(wide, categories, page);
            && Eligible(table, qn) == Filter(Eligible(table, qw), Matcher(qn))
            && |Eligible(table, qn)| <= |Eligible(table, qw)|
  {
    var qn := Compose(narrow, categories, page);
    var qw := Compose(wide, categories, page);
    forall m ensures Matcher(qn)(m) ==> Matcher(qw)(m) {
    }
    FilterNarrows(table, Matcher(qw), Matcher(qn));
  }

  /** A slug no category has is ignored: the read is the same as without a genre. */
  lemma UnknownGenreIsIgnored(c: Criteria, categories: seq<Category>, page: int)
    requires c.genre.Some?
    requires forall i :: 0 <= i < |categories| ==> categories[i].slug != c.genre.value
    ensures Compose(c, categories, page) == Compose(c.(genre := None), categories, page)
  {
  }

  // ---------------------------------------------------------------------------
  // Pagination

  /** `Math.ceil(totalCount / 10)`. */
  function PageCount(total: nat): (n: nat)
    ensures n * ItemsPerPage >= total
    ensures n > 0 ==> (n - 1) * ItemsPerPage < total
  {
    (total + ItemsPerPage - 1) / ItemsPerPage
  }

  /** Page `p` holds positions `(p-1)*10` to `p*10 - 1` of the ordered rows. */
  lemma PageWindowSlice(rows: seq<Movie>, page: int)
    requires page >= 1
    ensures var lo := (page - 1) * ItemsPerPage;
            PageWindow(rows, page) == if lo >= |rows| then [] else rows[lo .. if lo + ItemsPerPage <= |rows| then lo + ItemsPerPage else |rows|]
  {
  }

  /** The first `k` pages, one after the other. */
  function FirstPages(rows: seq<Movie>, k: nat): seq<Movie>
  {
    if k == 0 then [] else FirstPages(rows, k - 1) + PageWindow(rows, k)
  }

  /** Consecutive pages tile the ordered rows without gap or overlap: the
      first `k` pages are exactly the first `10 * k` rows. */
  lemma {:induction false} PagesTile(rows: seq<Movie>, k: nat)
    ensures FirstPages(rows, k) == rows[..if k * ItemsPerPage <= |rows| then k * ItemsPerPage else |rows|]
  {
    if k > 0 {
      var lo := (k - 1) * ItemsPerPage;
      var end := k * ItemsPerPage;
      assert end == lo + ItemsPerPage;
      var before := if lo <= |rows| then lo else |rows|;
      var after := if end <= |rows| then end else |rows|;
      PagesTile(rows, k - 1);
      PageWindowSlice(rows, k);
      if lo < |rows| {
        calc {
          FirstPages(rows, k);
          FirstPages(rows, k - 1) + PageWindow(rows, k);
          rows[..lo] + rows[lo..after];
          { SliceJoin(rows, lo, after); }
          rows[..after];
        }
      } else {
        calc {
          FirstPages(rows, k);
          FirstPages(rows, k - 1) + PageWindow(rows, k);
          rows[..before] + [];
          rows[..after];
        }
      }
    }
  }

  lemma SliceJoin(rows: seq<Movie>, lo: int, hi: int)
    requires 0 <= lo <= hi <= |rows|
    ensures rows[..lo] + rows[lo..hi] == rows[..hi]
  {
  }

  /** Reading pages 1 to `PageCount` returns every row exactly once. */
  lemma AllPagesCoverRows(rows: seq<Movie>)
    ensures FirstPages(rows, PageCount(|rows|)) == rows
  {
    PagesTile(rows, PageCount(|rows|));
  }

  /** A page is non-empty exactly when its number is between 1 and the page count. */
  lemma PageNonEmptyIffInRange(rows: seq<Movie>, page: int)
    ensures |PageWindow(rows, page)| > 0 <==> 1 <= page <= PageCount(|rows|)
  {
    if page >= 1 {
      PageWindowSlice(rows, page);
    }
  }

  // ---------------------------------------------------------------------------
  // URL parameters

  /** `createPageUrl(n)`: the current parameters with `page` set to `n`. */
  function CreatePageUrl(p: Params, n: nat): (r: Params)
    ensures CurrentPage(r) == Some(n)
    ensures forall k :: k != "page" ==> (k in r <==> k in p) && (k in r ==> r[k] == p[k])
  {
    ParseLeadingNatRoundTrip(n, "");
    assert NatToString(n) + "" == NatToString(n);
    p["page" := NatToString(n)]
  }

  /** A page link keeps every filter of the current page. */
  lemma PageUrlKeepsCriteria(p: Params, n: nat)
    ensures CriteriaOf(CreatePageUrl(p, n)) == CriteriaOf(p)
  {
    var r := CreatePageUrl(p, n);
    assert Active(r, "search") == Active(p, "search") && Active(r, "featured") == Active(p, "featured");
    assert Active(r, "genre") == Active(p, "genre") && Active(r, "year") == Active(p, "year");
  }

  /** Sets `key` to `value` when it is non-empty, removes it otherwise, and
      always drops `page`. */
  function SetOrDeleteResettingPage(p: Params, key: string, value: string): (r: Params)
    requires key != "page"
    ensures value != "" ==> key in r && r[key] == value
    ensures value == "" ==> key !in r
    ensures "page" !in r
    ensures forall k :: k != key && k != "page" ==> (k in r <==> k in p) && (k in r ==> r[k] == p[k])
  {
    var q := if value != "" then p[key := value] else p - {key};
    q - {"page"}
  }

  /** `handleSearch`: typing in the search box. */
  function HandleSearch(p: Params, value: string): (r: Params)
    ensures CriteriaOf(r) == CriteriaOf(p).(search := value)
    ensures CurrentPage(r) == Some(1)
    ensures forall k :: k != "search" && k != "page" ==> (k in r <==> k in p) && (k in r ==> r[k] == p[k])
  {
    ParseLeadingNatRoundTrip(1, "");
    assert NatToString(1) == "1";
    SetOrDeleteResettingPage(p, "search", value)
  }

  /** `handleSelectCategory`: picking a category chip, or `null` for all. */
  function HandleSelectCategory(p: Params, category: Option<string>): (r: Params)
    ensures CriteriaOf(r) == CriteriaOf(p).(genre := if category.Some? && category.value != "" then category else None)
    ensures CurrentPage(r) == Some(1)
    ensures forall k :: k != "genre" && k != "page" ==> (k in r <==> k in p) && (k in r ==> r[k] == p[k])
  {
    ParseLeadingNatRoundTrip(1, "");
    assert NatToString(1) == "1";
    SetOrDeleteResettingPage(p, "genre", category.GetOr(""))
  }

  // ---------------------------------------------------------------------------
  // What the page shows

  datatype PageLink = PageLink(number: nat, target: Params, active: bool)

  datatype Pager = NoPager | Pager(previous: Option<Params>, links: seq<PageLink>, next: Option<Params>)

  /** The link to page `n` from the parameters `p`: numbered `n`, leading to
      page `n` with the same filters, active when `n` is the current page. */
  predicate LinksTo(link: PageLink, p: Params, current: Option<nat>, n: nat)
  {
    && link.number == n
    && link.target == CreatePageUrl(p, n)
    && CurrentPage(link.target) == Some(n)
    && (link.active <==> current == Some(n))
  }

  /** The numbered links 1 to `pageCount`, the current one active. */
  function PageLinks(p: Params, current: Option<nat>, pageCount: nat): (links: seq<PageLink>)
    ensures |links| == pageCount
    ensures forall i :: 0 <= i < |links| ==> LinksTo(links[i], p, current, i + 1)
  {
    if pageCount == 0 then []
    else
      var init := PageLinks(p, current, pageCount - 1);
      var last := PageLink(pageCount, CreatePageUrl(p, pageCount), current == Some(pageCount));
      LinkToPage(p, current, pageCount);
      LinksSnoc(init, last, p, current);
      init + [last]
  }

  lemma LinkToPage(p: Params, current: Option<nat>, n: nat)
    ensures LinksTo(PageLink(n, CreatePageUrl(p, n), current == Some(n)), p, current, n)
  {
  }

  lemma LinksSnoc(init: seq<PageLink>, last: PageLink, p: Params, current: Option<nat>)
    requires forall i :: 0 <= i < |init| ==> LinksTo(init[i], p, current, i + 1)
    requires LinksTo(last, p, current, |init| + 1)
    ensures forall i :: 0 <= i < |init| + 1 ==> LinksTo((init + [last])[i], p, current, i + 1)
  {
    forall i | 0 <= i < |init| + 1 ensures LinksTo((init + [last])[i], p, current, i + 1) {
      if i < |init| {
        assert (init + [last])[i] == init[i];
      }
    }
  }

  /** The navigation block for the current page (`None` is `NaN`, which is
      neither greater nor smaller than anything). */
  function PagerFor(p: Params, current: Option<nat>, pageCount: nat): (r: Pager)
    ensures r.Pager? <==> pageCount > 1
    ensures r.Pager? ==> (r.previous.Some? <==> current.Some? && current.value > 1)
    ensures r.Pager? ==> (r.next.Some? <==> current.Some? && current.value < pageCount)
    ensures r.Pager? && r.previous.Some? ==> r.previous.value == CreatePageUrl(p, current.value - 1)
    ensures r.Pager? && r.previous.Some? ==> CurrentPage(r.previous.value) == Some(current.value - 1)
    ensures r.Pager? && r.next.Some? ==> r.next.value == CreatePageUrl(p, current.value + 1)
    ensures r.Pager? && r.next.Some? ==> CurrentPage(r.next.value) == Some(current.value + 1)
    ensures r.Pager? ==> |r.links| == pageCount
    ensures r.Pager? ==> forall i :: 0 <= i < |r.links| ==> LinksTo(r.links[i], p, current, i + 1)
  {
    if pageCount <= 1 then NoPager
    else
      Pager(
        previous := if current.Some? && current.value > 1 then Some(CreatePageUrl(p, current.value - 1)) else None,
        links := PageLinks(p, current, pageCount),
        next := if current.Some? && current.value < pageCount then Some(CreatePageUrl(p, current.value + 1)) else None)
  }

  /** Every link of the pager keeps the filters of the page it is shown on. */
  lemma PagerKeepsCriteria(p: Params, current: Option<nat>, pageCount: nat)
    ensures var r := PagerFor(p, current, pageCount);
            r.Pager? ==>
              && (r.previous.Some? ==> CriteriaOf(r.previous.value) == CriteriaOf(p))
              && (r.next.Some? ==> CriteriaOf(r.next.value) == CriteriaOf(p))
              && forall i :: 0 <= i < |r.links| ==> CriteriaOf(r.links[i].target) == CriteriaOf(p)
  {
    forall n: nat ensures CriteriaOf(CreatePageUrl(p, n)) == CriteriaOf(p) {
      PageUrlKeepsCriteria(p, n);
    }
  }

  datatype View = Spinner | NoMovies | Grid(movies: seq<Movie>, pager: Pager)

  /** The body of the page for a state of the listing query. Without data the
      movie list is empty and the count is 0. */
  function ViewOf(p: Params, listing: Listing): (v: View)
    ensures listing.Loading? <==> v.Spinner?
    ensures v.Grid? ==> listing.Loaded? && v.movies == listing.fetched.movies && |v.movies| > 0
    ensures v.Grid? ==> (v.pager.Pager? <==> PageCount(listing.fetched.count) > 1)
    ensures listing.Loaded? && |listing.fetched.movies| > 0 ==> v.Grid?
  {
    match listing
    case Loading => Spinner
    case Loaded(f) =>
      if |f.movies| == 0 then NoMovies
      else Grid(f.movies, PagerFor(p, CurrentPage(p), PageCount(f.count)))
    case _ => NoMovies
  }

  /** On a loaded page within range, a Next link is shown exactly when rows
      remain after this page. */
  lemma NextIffMoreRows(p: Params, page: nat, count: nat)
    requires CurrentPage(p) == Some(page) && page >= 1
    requires PageCount(count) > 1
    ensures var pager := PagerFor(p, CurrentPage(p), PageCount(count));
            pager.next.Some? <==> count > page * ItemsPerPage
  {
  }

  // ---------------------------------------------------------------------------
  // Paging through the links

  /** The rows shown by the page links `1` to `k` of the parameters `p`,
      one page after the other. */
  function ListedThrough(categories: seq<Category>, table: seq<Movie>, p: Params, k: nat): seq<Movie>
  {
    Concat((n: nat) => LinkRows(categories, table, p, n), k)
  }

  /** Pages `1` to `k` of `pages`, one after the other. */
  function Concat(pages: nat -> seq<Movie>, k: nat): seq<Movie>
  {
    if k == 0 then [] else Concat(pages, k - 1) + pages(k)
  }

  /** Pages that agree with the windows of `rows` lay out its first pages. */
  lemma {:induction false} ConcatPages(pages: nat -> seq<Movie>, rows: seq<Movie>, k: nat)
    requires forall i :: 1 <= i <= k ==> pages(i) == PageWindow(rows, i)
    ensures Concat(pages, k) == FirstPages(rows, k)
  {
    if k > 0 {
      ConcatPages(pages, rows, k - 1);
    }
  }

  /** The rows the link to page `k` shows: none when its read fails. */
  function LinkRows(categories: seq<Category>, table: seq<Movie>, p: Params, k: nat): seq<Movie>
  {
    var l := RunListing(categories, table, CreatePageUrl(p, k), None);
    if l.Loaded? then l.fetched.movies else []
  }

  /** The filters do not depend on the page: every page filters the same rows. */
  lemma EligibleIgnoresPage(table: seq<Movie>, c: Criteria, categories: seq<Category>, page: int, other: int)
    ensures Eligible(table, Compose(c, categories, page)) == Eligible(table, Compose(c, categories, other))
  {
    var a := Compose(c, categories, page);
    var b := Compose(c, categories, other);
    FilterSameKeep(table, Matcher(a), Matcher(b));
  }

  /** What the link to page `k` adds to the listing: page `k` of the ordered
      matching rows, both when it loads and when it starts past the end and
      fails. */
  lemma PageListed(categories: seq<Category>, table: seq<Movie>, p: Params, k: nat)
    requires |categories| > 0
    requires CriteriaOf(p).year.None? || ParseWholeNumber(CriteriaOf(p).year.value).Some?
    ensures LinkRows(categories, table, p, k) == PageWindow(SortNewestFirst(Eligible(table, Compose(CriteriaOf(p), categories, 1))), k)
  {
    var url := CreatePageUrl(p, k);
    PageUrlKeepsCriteria(p, k);
    EligibleIgnoresPage(table, CriteriaOf(p), categories, k, 1);
    var ordered := SortNewestFirst(Eligible(table, Compose(CriteriaOf(p), categories, 1)));
    if (k - 1) * ItemsPerPage > |ordered| {
      // Past the end the read fails, and the page of the ordered rows is empty.
      assert !RunListing(categories, table, url, None).Loaded?;
      PageWindowSlice(ordered, k);
    }
  }

  /** Following the page links 1 to k shows the first k pages of the matching
      rows. */
  lemma ListedThroughPages(categories: seq<Category>, table: seq<Movie>, p: Params, k: nat)
    requires |categories| > 0
    requires CriteriaOf(p).year.None? || ParseWholeNumber(CriteriaOf(p).year.value).Some?
    ensures ListedThrough(categories, table, p, k) == FirstPages(SortNewestFirst(Eligible(table, Compose(CriteriaOf(p), categories, 1))), k)
  {
    var ordered := SortNewestFirst(Eligible(table, Compose(CriteriaOf(p), categories, 1)));
    forall i | 1 <= i <= k ensures LinkRows(categories, table, p, i) == PageWindow(ordered, i) {
      PageListed(categories, table, p, i);
    }
    ConcatPages((n: nat) => LinkRows(categories, table, p, n), ordered, k);
  }

  /** The newest-first order a read asks for is the only one possible when no
      two rows of the table share a creation timestamp: any answer that
      arranges the matching rows newest first is the model's arrangement. So
      under that condition the listing does not depend on how the database
      breaks ties, and every page read agrees on the order. */
  lemma AnyNewestFirstAnswerIsTheModels(table: seq<Movie>, q: Query, answer: seq<Movie>)
    requires DatesIdentifyRows(table)
    requires multiset(answer) == multiset(Eligible(table, q))
    requires NewestFirst(answer)
    ensures answer == SortNewestFirst(Eligible(table, q))
  {
    var e := Eligible(table, q);
    var ordered := SortNewestFirst(e);
    EligibleRows(table, q);
    forall m | m in ordered ensures m in table {
      assert m in multiset(ordered);
      assert m in e;
    }
    NewestFirstIsUnique(ordered, answer);
  }

  /** Paging through every link of the pager, from 1 to the page count, shows
      each matching row exactly once, newest first, whatever page the links
      were taken from. */
  lemma PagingShowsEveryMatchOnce(categories: seq<Category>, table: seq<Movie>, p: Params)
    requires |categories| > 0
    requires CriteriaOf(p).year.None? || ParseWholeNumber(CriteriaOf(p).year.value).Some?
    ensures var ordered := SortNewestFirst(Eligible(table, Compose(CriteriaOf(p), categories, 1)));
            ListedThrough(categories, table, p, PageCount(|ordered|)) == ordered
  {
    var ordered := SortNewestFirst(Eligible(table, Compose(CriteriaOf(p), categories, 1)));
    ListedThroughPages(categories, table, p, PageCount(|ordered|));
    AllPagesCoverRows(ordered);
  }
}
