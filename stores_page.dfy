/**
 * The `/stores` server page: the listing rule of the API with a default
 * page size of 12 and unrounded averages, the "no match" message, and the
 * previous/next controls that link to the neighbouring pages.
 */
module StoresPage {
  import opened Wrappers
  import opened Text
  import opened Urls
  import opened Records
  import opened Listing

  /** The page's default page size: three columns by four rows. */
  const DefaultLimit: Pos := 12

  // ---------------------------------------------------------------------
  // Stores with statistics
  // ---------------------------------------------------------------------

  /**
   * A store as the page renders it: the row as loaded (its reviews limited
   * to the non-deleted ones) with the review count and the exact average.
   */
  datatype PageStore = PageStore(
    columns: Columns,
    editKeyHash: string,
    reviews: seq<Review>,
    reviewCount: nat,
    averageRating: Ratio)

  /** `m` is the exact mean `sum / count`. */
  ghost predicate IsMean(m: Ratio, sum: int, count: int) {
    m.num * count == sum * m.den
  }

  /** `m` lies between 1 and 5. */
  ghost predicate OneToFive(m: Ratio) {
    m.den <= m.num <= 5 * m.den
  }

  lemma MeanFacts(rs: seq<Review>)
    ensures RatingsInRange(rs) && ValidReviews(rs) != [] ==> OneToFive(MeanRating(rs))
  {
    if RatingsInRange(rs) && ValidReviews(rs) != [] {
      MeanInRange(rs);
    }
  }

  /** `{ ...store, reviewCount: count, averageRating: avg }`. */
  function WithStats(s: StoreRow): (r: PageStore)
    ensures r.columns == s.columns && r.editKeyHash == s.editKeyHash
    ensures r.reviews == ValidReviews(s.reviews)
    ensures r.reviewCount == |r.reviews|
    ensures r.averageRating.den >= 1
    ensures r.reviewCount == 0 ==> r.averageRating.num == 0
    ensures r.reviewCount > 0 ==> IsMean(r.averageRating, RatingSum(r.reviews), r.reviewCount)
    ensures RatingsInRange(s.reviews) && r.reviewCount > 0 ==> OneToFive(r.averageRating)
  {
    MeanFacts(s.reviews);
    var v := ValidReviews(s.reviews);
    PageStore(s.columns, s.editKeyHash, v, |v|, MeanRating(s.reviews))
  }

  /** `stores.map(...)`: one entry per loaded row, in order. */
  function WithStatsAll(rows: seq<StoreRow>): (r: seq<PageStore>)
    ensures |r| == |rows|
    ensures forall i :: 0 <= i < |r| ==> r[i] == WithStats(rows[i])
  {
    if rows == [] then [] else [WithStats(rows[0])] + WithStatsAll(rows[1..])
  }

  /** The stores page `p` shows: the listed stores after `skip`, at most `limit`. */
  ghost function ShownPage(table: seq<StoreRow>, p: ListParams): seq<PageStore> {
    WithStatsAll(Window(Shown(table, p.query), Skip(p.page, p.limit), p.limit))
  }

  // ---------------------------------------------------------------------
  // Links between pages
  // ---------------------------------------------------------------------

  /** A pagination control: a disabled button or a link. */
  datatype Control = Disabled | LinkTo(href: string)

  /** The pagination bar: previous control, "page / totalPages", next control. */
  datatype Pager = Pager(prev: Control, current: Pos, totalPages: nat, next: Control)

  /** What the page renders. */
  datatype PageView = PageView(stores: seq<PageStore>, noMatch: bool, pager: Option<Pager>)

  /**
   * The link to a listing page with the query escaped and the page size
   * carried along.
   */
  function PageHref(page: Pos, query: string, limit: Pos): string {
    Href("/stores", [Param("page", NatToDecimal(page)), Param("query", Escape(query)),
                     Param("limit", NatToDecimal(limit))])
  }

  /** The link as the page builds it: `/stores?page=${n}&query=${query}`. */
  function AsWrittenPageHref(page: Pos, query: string): string {
    Href("/stores", [Param("page", NatToDecimal(page)), Param("query", query)])
  }

  /** The search parameters the page receives when it is opened at `href`. */
  function ParamsOf(href: string): SearchParams {
    SearchParams(QueryParam(href, "page"), QueryParam(href, "limit"), QueryParam(href, "query"))
  }

  /** The listing a link opens: `None` when it leaves the page or cannot be resolved. */
  function Target(href: string): Option<ListParams> {
    if PathOf(href) == "/stores" then Resolve(ParamsOf(href), DefaultLimit) else None
  }

  lemma DigitsArePlain(s: string)
    requires AllDigits(s)
    ensures '&' !in s && '#' !in s && '%' !in s && '+' !in s
    ensures PercentDecode(s) == s
  {
    assert forall c :: c in s ==> IsDigit(c);
    DecodePlain(s);
  }

  /** A positive number rendered in a link reads back as itself, whatever the default. */
  lemma DecimalReadsBack(n: Pos)
    ensures '&' !in NatToDecimal(n) && '#' !in NatToDecimal(n)
    ensures forall default: Pos :: PositiveParam(Some(PercentDecode(NatToDecimal(n))), default) == Some(n)
  {
    var s := NatToDecimal(n);
    DigitsArePlain(s);
    DecimalRoundTrip(n);
    assert !Blank(Some(PercentDecode(s)));
  }

  lemma NamesArePlain()
    ensures PlainName("page") && PlainName("query") && PlainName("limit")
    ensures "page" != "query" && "page" != "limit" && "query" != "limit"
  {
    assert "query"[0] != "limit"[0];
  }

  /** A page link opens the page, the query and the page size it names. */
  lemma PageHrefRoundTrip(page: Pos, query: string, limit: Pos)
    ensures PathOf(PageHref(page, query, limit)) == "/stores"
    ensures Target(PageHref(page, query, limit)) == Some(ListParams(page, limit, query))
  {
    var ps := [Param("page", NatToDecimal(page)), Param("query", Escape(query)),
               Param("limit", NatToDecimal(limit))];
    var href := Href("/stores", ps);
    assert href == PageHref(page, query, limit);
    DecimalReadsBack(page);
    DecimalReadsBack(limit);
    NamesArePlain();
    assert Readable(ps);
    HrefRoundTrip("/stores", ps, 0);
    HrefRoundTrip("/stores", ps, 1);
    HrefRoundTrip("/stores", ps, 2);
    EscapeRoundTrip(query);
    assert ParamsOf(href) == SearchParams(Some(PercentDecode(NatToDecimal(page))),
      Some(PercentDecode(NatToDecimal(limit))), Some(query));
  }

  lemma PageLinksResolve(query: string, limit: Pos)
    ensures forall n: Pos :: Target(PageHref(n, query, limit)) == Some(ListParams(n, limit, query))
  {
    forall n: Pos ensures Target(PageHref(n, query, limit)) == Some(ListParams(n, limit, query)) {
      PageHrefRoundTrip(n, query, limit);
    }
  }

  /** Which links the pagination bar carries: the page's own, or the corrected ones. */
  datatype LinkStyle = AsWritten | Corrected

  /** The link to listing page `page` in the given style. */
  function LinkHref(style: LinkStyle, page: Pos, query: string, limit: Pos): string {
    match style
    case AsWritten => AsWrittenPageHref(page, query)
    case Corrected => PageHref(page, query, limit)
  }

  /**
   * The pagination bar: shown only with more than one page; "previous"
   * enabled on every page after the first, "next" before the last, each
   * linking to the neighbouring page. With the corrected links, each opens
   * that page with the same query and page size.
   */
  function Pagination(page: Pos, totalPages: nat, query: string, limit: Pos, style: LinkStyle): (r: Option<Pager>)
    ensures r.Some? <==> totalPages > 1
    ensures r.Some? ==> r.value.current == page && r.value.totalPages == totalPages
    ensures r.Some? ==> (r.value.prev.LinkTo? <==> page > 1)
    ensures r.Some? ==> (r.value.next.LinkTo? <==> page < totalPages)
    ensures r.Some? && r.value.prev.LinkTo? ==> r.value.prev.href == LinkHref(style, page - 1, query, limit)
    ensures r.Some? && r.value.next.LinkTo? ==> r.value.next.href == LinkHref(style, page + 1, query, limit)
    ensures style == Corrected && r.Some? && r.value.prev.LinkTo? ==>
      Target(r.value.prev.href) == Some(ListParams(page - 1, limit, query))
    ensures style == Corrected && r.Some? && r.value.next.LinkTo? ==>
      Target(r.value.next.href) == Some(ListParams(page + 1, limit, query))
  {
    PageLinksResolve(query, limit);
    if totalPages <= 1 then None
    else
      var prev := if page > 1 then LinkTo(LinkHref(style, page - 1, query, limit)) else Disabled;
      var next := if page < totalPages then LinkTo(LinkHref(style, page + 1, query, limit)) else Disabled;
      Some(Pager(prev, page, totalPages, next))
  }

  /**
   * With the page's own links, "next" after a search for `A&W` opens the
   * following page of the search for `A`, at the default page size.
   */
  lemma AsWrittenPagerCutsAmpersand(page: Pos, totalPages: nat, limit: Pos)
    requires page < totalPages
    ensures var r := Pagination(page, totalPages, "A&W", limit, AsWritten);
      && r.Some? && r.value.next.LinkTo?
      && Target(r.value.next.href) == Some(ListParams(page + 1, DefaultLimit, "A"))
  {
    AsWrittenLinkCutsAmpersand(page + 1);
  }

  // ---------------------------------------------------------------------
  // The page
  // ---------------------------------------------------------------------

  /**
   * `StoresPage({ searchParams })`. With `AsWritten` the pagination bar
   * carries the links the page builds; with `Corrected`, the corrected ones.
   */
  method Render(table: seq<StoreRow>, sp: SearchParams, style: LinkStyle) returns (view: PageView)
    requires Resolve(sp, DefaultLimit).Some?
    ensures var p := Resolve(sp, DefaultLimit).value;
      && view.stores == ShownPage(table, p)
      && (view.noMatch <==> view.stores == [])
      && view.pager == Pagination(p.page, TotalPages(|ListedIn(table, p.query)|, p.limit), p.query, p.limit, style)
  {
    var params := Resolve(sp, DefaultLimit).value;
    var skip := Skip(params.page, params.limit);
    var w := BuildWhere(params.query);
    var stores := FindMany(table, w, skip, params.limit);
    var total := Count(table, w);
    FilterIsListing(table, w, params.query);
    var storesWithStats := WithStatsAll(stores);
    var totalPages := TotalPages(total, params.limit);
    view := PageView(storesWithStats, |storesWithStats| == 0,
                     Pagination(params.page, totalPages, params.query, params.limit, style));
  }

  /** The "no match" message appears exactly when the page starts past the last listed store. */
  lemma NoMatchPastTheEnd(table: seq<StoreRow>, p: ListParams)
    ensures ShownPage(table, p) == [] <==> Skip(p.page, p.limit) >= |ListedIn(table, p.query)|
  {
  }

  /** On the first page, "no match" means that no store of the table is listed. */
  lemma FirstPageNoMatch(table: seq<StoreRow>, p: ListParams)
    requires p.page == 1
    ensures ShownPage(table, p) == [] <==> forall s :: s in table ==> !Listed(p.query, s)
  {
    NoMatchPastTheEnd(table, p);
    var listed := ListedIn(table, p.query);
    if listed != [] {
      assert listed[0] in listed;
    }
  }

  /** The page after one before the last holds stores. */
  lemma NextPageNotEmpty(table: seq<StoreRow>, p: ListParams)
    requires p.page < TotalPages(|ListedIn(table, p.query)|, p.limit)
    ensures ShownPage(table, ListParams(p.page + 1, p.limit, p.query)) != []
  {
    var next := ListParams(p.page + 1, p.limit, p.query);
    var total := |ListedIn(table, p.query)|;
    Listing.PageSize(total, next.page, next.limit);
    assert Skip(next.page, next.limit) < total;
    NoMatchPastTheEnd(table, next);
  }

  /** From any page up to one past the last, the previous page holds stores. */
  lemma PreviousPageNotEmpty(table: seq<StoreRow>, p: ListParams)
    requires 1 < p.page <= TotalPages(|ListedIn(table, p.query)|, p.limit) + 1
    ensures ShownPage(table, ListParams(p.page - 1, p.limit, p.query)) != []
  {
    var prev := ListParams(p.page - 1, p.limit, p.query);
    var total := |ListedIn(table, p.query)|;
    Listing.PageSize(total, prev.page, prev.limit);
    assert Skip(prev.page, prev.limit) < total;
    NoMatchPastTheEnd(table, prev);
  }

  /**
   * The page's own "next" link can open an empty page: with 7 listed stores
   * at `?limit=5`, page 1 links to page 2 at the default size of 12, which
   * starts past the last store, while page 2 at size 5 holds stores.
   */
  lemma AsWrittenNextPageEmpty(table: seq<StoreRow>)
    requires |ListedIn(table, "")| == 7
    ensures var r := Pagination(1, TotalPages(7, 5), "", 5, AsWritten);
      && r.Some? && r.value.next.LinkTo?
      && Target(r.value.next.href) == Some(ListParams(2, DefaultLimit, ""))
    ensures ShownPage(table, ListParams(2, DefaultLimit, "")) == []
    ensures ShownPage(table, ListParams(2, 5, "")) != []
  {
    assert TotalPages(7, 5) == 2;
    AsWrittenLinkDropsLimit(2, "");
    NoMatchPastTheEnd(table, ListParams(2, DefaultLimit, ""));
    NextPageNotEmpty(table, ListParams(1, 5, ""));
  }

  // ---------------------------------------------------------------------
  // The links as written
  // ---------------------------------------------------------------------

  /**
   * A link built from the raw query opens the default page size, whatever
   * size the current page has, and the query decoded rather than as typed.
   */
  lemma AsWrittenLinkDropsLimit(page: Pos, query: string)
    requires '&' !in query && '#' !in query
    ensures Target(AsWrittenPageHref(page, query)) == Some(ListParams(page, DefaultLimit, PercentDecode(query)))
  {
    AsWrittenParams(page, query);
    DecimalReadsBack(page);
  }

  lemma AsWrittenParams(page: Pos, query: string)
    requires '&' !in query && '#' !in query
    ensures PathOf(AsWrittenPageHref(page, query)) == "/stores"
    ensures ParamsOf(AsWrittenPageHref(page, query))
      == SearchParams(Some(PercentDecode(NatToDecimal(page))), None, Some(PercentDecode(query)))
  {
    var ps := [Param("page", NatToDecimal(page)), Param("query", query)];
    DecimalReadsBack(page);
    NamesArePlain();
    assert Readable(ps);
    HrefRoundTrip("/stores", ps, 0);
    HrefRoundTrip("/stores", ps, 1);
    HrefMissing("/stores", ps, "limit");
  }

  /** The query "C++" comes back as "C" and two spaces on the linked page. */
  lemma AsWrittenLinkTurnsPlusIntoSpace(page: Pos)
    ensures Target(AsWrittenPageHref(page, "C++")) == Some(ListParams(page, DefaultLimit, "C  "))
  {
    assert PercentDecode("C++") == "C  " by {
      DecodeWithoutPercent("C++");
    }
    AsWrittenLinkDropsLimit(page, "C++");
  }

  lemma AsWrittenHrefWithTail(page: Pos, a: string, b: string)
    ensures AsWrittenPageHref(page, a + "&" + b)
      == Href("/stores", [Param("page", NatToDecimal(page)), Param("query", a)]) + "&" + b
  {
    var p0 := Param("page", NatToDecimal(page));
    var ps := [p0, Param("query", a)];
    var ps' := [p0, Param("query", a + "&" + b)];
    assert ps'[1..] == [Param("query", a + "&" + b)] && ps[1..] == [Param("query", a)];
    assert Segment(ps'[1]) == Segment(ps[1]) + "&" + b;
    assert JoinParams(ps') == Segment(p0) + "&" + Segment(ps'[1]);
    assert JoinParams(ps) == Segment(p0) + "&" + Segment(ps[1]);
  }

  /** Whatever follows the first `&` of the query is cut off it on the linked page. */
  lemma AsWrittenLinkCutsQuery(page: Pos, a: string, b: string)
    requires '&' !in a && '#' !in a && '#' !in b
    ensures var href := AsWrittenPageHref(page, a + "&" + b);
      && PathOf(href) == "/stores"
      && QueryParam(href, "page") == Some(NatToDecimal(page))
      && QueryParam(href, "query") == Some(PercentDecode(a))
      && QueryParam(href, "limit") == Lookup(Split(b, '&'), "limit")
  {
    var ps := [Param("page", NatToDecimal(page)), Param("query", a)];
    AsWrittenHrefWithTail(page, a, b);
    DecimalReadsBack(page);
    DigitsArePlain(NatToDecimal(page));
    NamesArePlain();
    assert Readable(ps);
    HrefWithTail("/stores", ps, b, "limit");
    assert ps[0].name == "page" && ps[1].name == "query";
  }

  /** The query "A&W" comes back as "A" on the linked page, at the default page size. */
  lemma AsWrittenLinkCutsAmpersand(page: Pos)
    ensures Target(AsWrittenPageHref(page, "A&W")) == Some(ListParams(page, DefaultLimit, "A"))
  {
    assert "A" + "&" + "W" == "A&W";
    AsWrittenLinkCutsQuery(page, "A", "W");
    ReadsAsOnePiece("W");
    DecodePlain("A");
    var sp := SearchParams(Some(NatToDecimal(page)), None, Some("A"));
    DecimalReadsBack(page);
    DigitsArePlain(NatToDecimal(page));
    assert PositiveParam(sp.page, 1) == Some(page);
    assert Resolve(sp, DefaultLimit) == Some(ListParams(page, DefaultLimit, "A"));
  }

  /** A tail made of one name-only piece other than `limit` carries no `limit`. */
  lemma ReadsAsOnePiece(w: string)
    requires '&' !in w && '=' !in w && '%' !in w && '+' !in w && w != "limit"
    ensures Lookup(Split(w, '&'), "limit") == None
  {
    SplitNoSeparator(w, '&');
    FindAbsent(w, '=');
    DecodePlain(w);
    assert w[..|w|] == w;
    assert NameOf(w) == w;
  }
}
