/**
 * The `/api/stores` endpoint: GET lists stores page by page with review
 * statistics and without secrets; POST registers a store, stores only the
 * digest of a freshly issued edit key and hands the key back once.
 */
module StoresApi {
  import opened Wrappers
  import opened Text
  import opened Records
  import opened Listing

  /** The API's default page size. */
  const DefaultLimit: Pos := 10

  // ---------------------------------------------------------------------
  // GET
  // ---------------------------------------------------------------------

  /**
   * A listed store: the row without `reviews` and `editKeyHash`, plus the
   * review count and the average rating in tenths.
   */
  datatype StoreSummary = StoreSummary(columns: Columns, reviewCount: nat, averageRating: int)

  datatype PaginationInfo = PaginationInfo(total: nat, page: Pos, limit: Pos, totalPages: nat)

  datatype ListResponse = ListResponse(data: seq<StoreSummary>, pagination: PaginationInfo)

  /**
   * `t` tenths is a nearest tenth of the mean `sum / count`:
   * `|t / 10 - sum / count| <= 1 / 20`.
   */
  ghost predicate NearestTenth(t: int, sum: int, count: int) {
    -count <= 20 * sum - 2 * count * t <= count
  }

  /** The per-store statistics and the stripping of the row's secrets. */
  function Summarize(s: StoreRow): (r: StoreSummary)
    ensures r.columns == s.columns
    ensures r.reviewCount == |ValidReviews(s.reviews)|
    ensures r.reviewCount == 0 ==> r.averageRating == 0
    ensures r.reviewCount > 0 ==> NearestTenth(r.averageRating, RatingSum(ValidReviews(s.reviews)), r.reviewCount)
    ensures RatingsInRange(s.reviews) && r.reviewCount > 0 ==> 10 <= r.averageRating <= 50
  {
    AverageFacts(s.reviews);
    StoreSummary(s.columns, |ValidReviews(s.reviews)|, RoundToTenths(MeanRating(s.reviews)))
  }

  lemma AverageFacts(rs: seq<Review>)
    ensures ValidReviews(rs) == [] ==> RoundToTenths(MeanRating(rs)) == 0
    ensures ValidReviews(rs) != [] ==>
      NearestTenth(RoundToTenths(MeanRating(rs)), RatingSum(ValidReviews(rs)), |ValidReviews(rs)|)
    ensures RatingsInRange(rs) && ValidReviews(rs) != [] ==> 10 <= RoundToTenths(MeanRating(rs)) <= 50
  {
    var v := ValidReviews(rs);
    var m := MeanRating(rs);
    if v != [] {
      assert m == Ratio(RatingSum(v), |v|);
    }
    if RatingsInRange(rs) && v != [] {
      TenthsInRange(rs);
    }
  }

  /** `stores.map(...)`: one summary per row, in order. */
  function SummarizeAll(rows: seq<StoreRow>): (r: seq<StoreSummary>)
    ensures |r| == |rows|
    ensures forall i :: 0 <= i < |r| ==> r[i] == Summarize(rows[i])
  {
    if rows == [] then [] else [Summarize(rows[0])] + SummarizeAll(rows[1..])
  }

  /** GET `/api/stores?page=&limit=&query=`. */
  method Get(table: seq<StoreRow>, sp: SearchParams) returns (resp: ListResponse)
    requires Resolve(sp, DefaultLimit).Some?
    ensures var p := Resolve(sp, DefaultLimit).value;
      && resp.pagination.page == p.page
      && resp.pagination.limit == p.limit
      && resp.pagination.total == |ListedIn(table, p.query)|
      && resp.pagination.totalPages == TotalPages(resp.pagination.total, p.limit)
      && resp.data == PageData(table, p)
  {
    var params := Resolve(sp, DefaultLimit).value;
    var skip := Skip(params.page, params.limit);
    var w := BuildWhere(params.query);
    var stores := FindMany(table, w, skip, params.limit);
    var total := Count(table, w);
    FilterIsListing(table, w, params.query);
    resp := ListResponse(SummarizeAll(stores), PaginationInfo(total, params.page, params.limit, TotalPages(total, params.limit)));
  }

  /** A listing page: the summaries of the shown stores after `skip`, at most `limit`. */
  ghost function PageData(table: seq<StoreRow>, p: ListParams): seq<StoreSummary> {
    SummarizeAll(Window(Shown(table, p.query), Skip(p.page, p.limit), p.limit))
  }

  /** A page holds `limit` summaries, or what is left after `skip` when fewer. */
  lemma ResponsePageSize(table: seq<StoreRow>, p: ListParams)
    ensures var total := |ListedIn(table, p.query)|; var skip := Skip(p.page, p.limit);
      && |PageData(table, p)| <= p.limit
      && |PageData(table, p)| == (if skip >= total then 0 else Min(p.limit, total - skip))
  {
    SummarizedWindowSize(Shown(table, p.query), Skip(p.page, p.limit), p.limit);
  }

  /** The size of a summarized window, stated on symbolic rows and bounds. */
  lemma SummarizedWindowSize(rows: seq<StoreRow>, skip: nat, take: nat)
    ensures |SummarizeAll(Window(rows, skip, take))| <= take
    ensures |SummarizeAll(Window(rows, skip, take))| == (if skip >= |rows| then 0 else Min(take, |rows| - skip))
  {
  }

  /** A page is ordered newest update first. */
  lemma PageNewestFirst(table: seq<StoreRow>, p: ListParams)
    ensures forall i, j :: 0 <= i < j < |PageData(table, p)| ==>
      PageData(table, p)[i].columns.updatedAt >= PageData(table, p)[j].columns.updatedAt
  {
    var shown := Shown(table, p.query);
    var page := Window(shown, Skip(p.page, p.limit), p.limit);
    OrderedWindow(shown, shown, Skip(p.page, p.limit), p.limit);
    var data := SummarizeAll(page);
    assert data == PageData(table, p);
    forall i, j | 0 <= i < j < |data|
      ensures data[i].columns.updatedAt >= data[j].columns.updatedAt
    {
      assert data[i].columns == page[i].columns && data[j].columns == page[j].columns;
    }
  }

  /** Every summary on a page is that of a listed store of the table. */
  lemma PageFromListed(table: seq<StoreRow>, p: ListParams)
    ensures forall i :: 0 <= i < |PageData(table, p)| ==>
      exists s :: s in table && Listed(p.query, s) && PageData(table, p)[i] == Summarize(s)
  {
    var shown := Shown(table, p.query);
    var page := Window(shown, Skip(p.page, p.limit), p.limit);
    OrderedWindow(shown, shown, Skip(p.page, p.limit), p.limit);
    var data := SummarizeAll(page);
    assert data == PageData(table, p);
    forall i | 0 <= i < |data|
      ensures exists s :: s in table && Listed(p.query, s) && data[i] == Summarize(s)
    {
      var s := page[i];
      assert s in page;
      assert s in shown;
      assert s in table && Listed(p.query, s) && data[i] == Summarize(s);
    }
  }

  /** With 25 matching stores and limit 10 there are 3 pages; page 3 holds 5. */
  lemma TwentyFiveStores(table: seq<StoreRow>, query: string)
    requires |ListedIn(table, query)| == 25
    ensures TotalPages(25, 10) == 3
    ensures |PageData(table, ListParams(3, 10, query))| == 5
  {
    TotalPagesExample();
    ResponsePageSize(table, ListParams(3, 10, query));
  }

  // ---------------------------------------------------------------------
  // POST
  // ---------------------------------------------------------------------

  /** The fields POST reads from the JSON body; `None` is `undefined`/`null`. */
  datatype StoreInput = StoreInput(
    name: Option<string>,
    address: Option<string>,
    phone: Option<string>,
    businessHours: Option<string>,
    closedDays: Option<string>,
    websiteUrl: Option<string>,
    genre: Option<string>,
    description: Option<string>)

  /** 400 with a message, or 201 with the row's public columns and the plaintext key. */
  datatype PostResponse = BadRequest(error: string) | Created(store: Columns, editKey: string)

  /** The table after the request, and the response. */
  datatype PostOutcome = PostOutcome(table: seq<StoreRow>, response: PostResponse)

  /**
   * POST `/api/stores`. `random` stands for the 8 bytes of
   * `crypto.randomBytes(8)`, `hash` for hex SHA-256, `id` and `now` for the
   * database's generated id and timestamp.
   */
  function Post(table: seq<StoreRow>, body: StoreInput, random: seq<Byte>, id: string, now: int,
                hash: string -> string): (out: PostOutcome)
    requires |random| == 8
    ensures out.response.BadRequest? <==> Blank(body.name) || Blank(body.address)
    ensures out.response.BadRequest? ==>
      out.table == table && out.response.error == "Name and address are required"
    ensures out.response.Created? ==>
      && |out.response.editKey| == 16
      && (forall i :: 0 <= i < 16 ==> IsLowerHex(out.response.editKey[i]))
      && HexDecode(out.response.editKey) == Some(random)
      && out.table == table + [StoreRow(out.response.store, hash(out.response.editKey), [])]
      && out.response.store.id == id
      && Some(out.response.store.name) == body.name
      && Some(out.response.store.address) == body.address
      && out.response.store.phone == body.phone
      && out.response.store.businessHours == body.businessHours
      && out.response.store.closedDays == body.closedDays
      && out.response.store.websiteUrl == body.websiteUrl
      && out.response.store.genre == body.genre
      && out.response.store.description == body.description
      && !out.response.store.isDeleted
      && out.response.store.createdAt == now == out.response.store.updatedAt
  {
    if Blank(body.name) || Blank(body.address) then
      PostOutcome(table, BadRequest("Name and address are required"))
    else
      var editKey := HexEncode(random);
      HexRoundTrip(random);
      var editKeyHash := hash(editKey);
      var columns := Columns(id, body.name.value, body.address.value, body.phone, body.businessHours,
                             body.closedDays, body.websiteUrl, body.genre, body.description, false, now, now);
      var row := StoreRow(columns, editKeyHash, []);
      PostOutcome(table + [row], Created(columns, editKey))
  }

  ghost predicate Injective(hash: string -> string) {
    forall a, b :: hash(a) == hash(b) ==> a == b
  }

  /**
   * For an injective digest, the stored digest of a created store matches
   * exactly the key returned to the caller.
   */
  lemma OnlyIssuedKeyMatches(table: seq<StoreRow>, body: StoreInput, random: seq<Byte>, id: string, now: int,
                             hash: string -> string, k: string)
    requires |random| == 8 && Injective(hash)
    requires Post(table, body, random, id, now, hash).response.Created?
    ensures var out := Post(table, body, random, id, now, hash);
      out.table[|out.table| - 1].editKeyHash == hash(k) <==> k == out.response.editKey
  {
  }

  /** Different random bytes give different edit keys. */
  lemma DistinctBytesDistinctKeys(table: seq<StoreRow>, body: StoreInput, r1: seq<Byte>, r2: seq<Byte>,
                                  id: string, now: int, hash: string -> string)
    requires |r1| == 8 && |r2| == 8 && r1 != r2
    requires Post(table, body, r1, id, now, hash).response.Created?
    ensures Post(table, body, r2, id, now, hash).response.Created?
    ensures Post(table, body, r1, id, now, hash).response.editKey != Post(table, body, r2, id, now, hash).response.editKey
  {
    if HexEncode(r1) == HexEncode(r2) {
      HexEncodeInjective(r1, r2);
    }
  }
}
