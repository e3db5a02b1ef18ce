/**
 * What the store list shows, shared by the JSON endpoint and the server
 * page: query parameters with their defaults, the `where` filter, the
 * database's `findMany`/`count` over an abstract table, the page count and
 * the per-store review statistics.
 */
module Listing {
  import opened Wrappers
  import opened Text
  import opened Records

  type Pos = n: int | n >= 1 witness 1

  // ---------------------------------------------------------------------
  // Query parameters
  // ---------------------------------------------------------------------

  /** The raw `page`, `limit` and `query` search parameters. */
  datatype SearchParams = SearchParams(page: Option<string>, limit: Option<string>, query: Option<string>)

  /** The parameters after defaulting and parsing. */
  datatype ListParams = ListParams(page: Pos, limit: Pos, query: string)

  /** A parameter that is absent or empty, so that `raw || default` picks the default. */
  predicate Blank(raw: Option<string>) {
    raw.None? || raw.value == ""
  }

  /** `parseInt(raw || default)`, kept only when it is a positive integer. */
  function PositiveParam(raw: Option<string>, default: Pos): (r: Option<Pos>)
    ensures Blank(raw) ==> r == Some(default)
    ensures !Blank(raw) && r.Some? ==> ParseDigits(raw.value) == Some(r.value as nat)
    ensures !Blank(raw) && r.None? ==> ParseDigits(raw.value) in {None, Some(0)}
  {
    if Blank(raw) then Some(default)
    else
      match ParseDigits(raw.value)
      case Some(n) => if n >= 1 then Some(n) else None
      case None => None
  }

  /** `page` defaults to 1, `limit` to the caller's default, `query` to "". */
  function Resolve(sp: SearchParams, defaultLimit: Pos): (r: Option<ListParams>)
    ensures Blank(sp.page) && Blank(sp.limit) ==> r == Some(ListParams(1, defaultLimit, sp.query.GetOr("")))
    ensures r.Some? ==> Blank(sp.page) ==> r.value.page == 1
    ensures r.Some? ==> Blank(sp.limit) ==> r.value.limit == defaultLimit
    ensures r.Some? <==> PositiveParam(sp.page, 1).Some? && PositiveParam(sp.limit, defaultLimit).Some?
    ensures r.Some? ==>
      r.value == ListParams(PositiveParam(sp.page, 1).value, PositiveParam(sp.limit, defaultLimit).value, sp.query.GetOr(""))
  {
    match (PositiveParam(sp.page, 1), PositiveParam(sp.limit, defaultLimit))
    case (Some(p), Some(l)) => Some(ListParams(p, l, sp.query.GetOr("")))
    case _ => None
  }

  lemma MulMod(k: nat, m: Pos)
    ensures (k * m) % m == 0 && (k * m) / m == k
  {
    var a := k * m;
    var d := a / m - k;
    assert m * (a / m) + a % m == a;
    assert m * d == m * (a / m) - m * k;
    assert m * d == -(a % m);
    MulBound(m, d);
  }

  /** A non-zero multiple of `m` is at least `m` away from zero. */
  lemma MulBound(m: Pos, d: int)
    ensures d >= 1 ==> m * d >= m
    ensures d <= -1 ==> m * d + m <= 0
  {
  }

  /** `skip = (page - 1) * limit`: whole pages before this one. */
  function Skip(page: Pos, limit: Pos): (skip: nat)
    ensures skip % limit == 0 && skip / limit == page - 1
    ensures page == 1 ==> skip == 0
  {
    MulMod(page - 1, limit);
    (page - 1) * limit
  }

  // ---------------------------------------------------------------------
  // The filter
  // ---------------------------------------------------------------------

  datatype TextClause = NameContains(q: string) | AddressContains(q: string) | GenreContains(q: string)

  /** The `where` object: the deletion flag, and an optional `OR` of text clauses. */
  datatype Where = Where(isDeleted: bool, anyOf: Option<seq<TextClause>>)

  predicate ClauseHolds(c: TextClause, s: StoreRow) {
    match c
    case NameContains(q) => Contains(s.columns.name, q)
    case AddressContains(q) => Contains(s.columns.address, q)
    case GenreContains(q) => s.columns.genre.Some? && Contains(s.columns.genre.value, q)
  }

  /** How the database applies a `where` object to one row. */
  predicate Satisfies(w: Where, s: StoreRow) {
    && s.columns.isDeleted == w.isDeleted
    && (w.anyOf.None? || exists i :: 0 <= i < |w.anyOf.value| && ClauseHolds(w.anyOf.value[i], s))
  }

  /**
   * The listing rule: a store is shown when it is not deleted and, for a
   * non-empty query, the query occurs in its name, address or genre.
   */
  ghost predicate Listed(query: string, s: StoreRow) {
    && !s.columns.isDeleted
    && (|| query == ""
        || (exists i :: OccursAt(s.columns.name, query, i))
        || (exists i :: OccursAt(s.columns.address, query, i))
        || (s.columns.genre.Some? && exists i :: OccursAt(s.columns.genre.value, query, i)))
  }

  /** Builds `where`, adding the `OR` clause only for a non-empty query. */
  method BuildWhere(query: string) returns (w: Where)
    ensures !w.isDeleted
    ensures forall s :: Satisfies(w, s) <==> Listed(query, s)
  {
    w := Where(false, None);
    if query != "" {
      w := w.(anyOf := Some([NameContains(query), AddressContains(query), GenreContains(query)]));
    }
    forall s: StoreRow ensures Satisfies(w, s) <==> Listed(query, s) {
      ContainsIff(s.columns.name, query);
      ContainsIff(s.columns.address, query);
      if s.columns.genre.Some? {
        ContainsIff(s.columns.genre.value, query);
      }
      if query != "" && Listed(query, s) {
        if Contains(s.columns.name, query) {
          assert ClauseHolds(w.anyOf.value[0], s);
        } else if Contains(s.columns.address, query) {
          assert ClauseHolds(w.anyOf.value[1], s);
        } else {
          assert ClauseHolds(w.anyOf.value[2], s);
        }
      }
    }
  }

  /** The rows a `where` object selects, in table order. */
  function FilterWhere(t: seq<StoreRow>, w: Where): (r: seq<StoreRow>)
    ensures |r| <= |t|
    ensures forall s :: s in r <==> s in t && Satisfies(w, s)
  {
    if t == [] then []
    else (if Satisfies(w, t[0]) then [t[0]] else []) + FilterWhere(t[1..], w)
  }

  /** The rows the listing rule shows, in table order. */
  ghost function ListedIn(t: seq<StoreRow>, query: string): (r: seq<StoreRow>)
    ensures |r| <= |t|
    ensures forall s :: s in r <==> s in t && Listed(query, s)
  {
    if t == [] then []
    else (if Listed(query, t[0]) then [t[0]] else []) + ListedIn(t[1..], query)
  }

  lemma {:induction false} FilterIsListing(t: seq<StoreRow>, w: Where, query: string)
    requires forall s :: Satisfies(w, s) <==> Listed(query, s)
    ensures FilterWhere(t, w) == ListedIn(t, query)
  {
    if t != [] {
      FilterIsListing(t[1..], w, query);
    }
  }

  // ---------------------------------------------------------------------
  // Ordering and paging
  // ---------------------------------------------------------------------

  /** `orderBy: { updatedAt: 'desc' }`. */
  predicate NewestFirst(s: seq<StoreRow>) {
    forall i, j :: 0 <= i < j < |s| ==> s[i].columns.updatedAt >= s[j].columns.updatedAt
  }

  function InsertByRecency(x: StoreRow, s: seq<StoreRow>): (r: seq<StoreRow>)
    requires NewestFirst(s)
    ensures NewestFirst(r)
    ensures multiset(r) == multiset(s) + multiset{x}
  {
    if s == [] || x.columns.updatedAt >= s[0].columns.updatedAt then [x] + s
    else
      var rest := InsertByRecency(x, s[1..]);
      InsertBehindHead(x, s, rest);
      [s[0]] + rest
  }

  lemma InsertBehindHead(x: StoreRow, s: seq<StoreRow>, rest: seq<StoreRow>)
    requires s != [] && NewestFirst(s) && x.columns.updatedAt < s[0].columns.updatedAt
    requires NewestFirst(rest) && multiset(rest) == multiset(s[1..]) + multiset{x}
    ensures NewestFirst([s[0]] + rest)
    ensures multiset([s[0]] + rest) == multiset(s) + multiset{x}
  {
    forall y | y in rest ensures y.columns.updatedAt <= s[0].columns.updatedAt {
      assert y in multiset(rest);
      assert y == x || y in multiset(s[1..]);
    }
    assert s == [s[0]] + s[1..];
    var r := [s[0]] + rest;
    forall i, j | 0 <= i < j < |r| ensures r[i].columns.updatedAt >= r[j].columns.updatedAt {
      assert r[j] == rest[j - 1] && rest[j - 1] in rest;
    }
  }

  /**
   * The database's ordering, newest update first. Rows with equal
   * timestamps keep their table order here; the database leaves it open.
   */
  function ByRecency(s: seq<StoreRow>): (r: seq<StoreRow>)
    ensures NewestFirst(r)
    ensures multiset(r) == multiset(s)
    ensures |r| == |s|
  {
    if s == [] then []
    else
      assert s == [s[0]] + s[1..];
      InsertByRecency(s[0], ByRecency(s[1..]))
  }

  function Min(a: int, b: int): int {
    if a <= b then a else b
  }

  /** `skip`/`take` on an ordered result. */
  function Window<T>(s: seq<T>, skip: nat, take: nat): (r: seq<T>)
    ensures |r| == if skip >= |s| then 0 else Min(take, |s| - skip)
    ensures forall i :: 0 <= i < |r| ==> r[i] == s[skip + i]
  {
    if skip >= |s| then [] else s[skip..skip + Min(take, |s| - skip)]
  }

  /** `findMany({ where, skip, take, orderBy: { updatedAt: 'desc' } })`. */
  function FindMany(t: seq<StoreRow>, w: Where, skip: nat, take: Pos): (r: seq<StoreRow>)
    ensures |r| <= take
    ensures |r| == if skip >= |FilterWhere(t, w)| then 0 else Min(take, |FilterWhere(t, w)| - skip)
    ensures r == Window(ByRecency(FilterWhere(t, w)), skip, take)
    ensures NewestFirst(r)
    ensures forall s :: s in r ==> s in t && Satisfies(w, s)
  {
    var matches := FilterWhere(t, w);
    var ordered := ByRecency(matches);
    var r := Window(ordered, skip, take);
    assert NewestFirst(r) && forall s :: s in r ==> s in matches by {
      OrderedWindow(ordered, matches, skip, take);
    }
    assert |ordered| == |matches|;
    r
  }

  /** A window of a newest-first reordering stays ordered and holds only rows of the original. */
  lemma OrderedWindow(ordered: seq<StoreRow>, original: seq<StoreRow>, skip: nat, take: nat)
    requires NewestFirst(ordered) && multiset(ordered) == multiset(original)
    ensures NewestFirst(Window(ordered, skip, take))
    ensures forall s :: s in Window(ordered, skip, take) ==> s in original
  {
    var r := Window(ordered, skip, take);
    forall i, j | 0 <= i < j < |r|
      ensures r[i].columns.updatedAt >= r[j].columns.updatedAt
    {
      assert r[i] == ordered[skip + i] && r[j] == ordered[skip + j];
    }
    forall s | s in r ensures s in original {
      var i :| 0 <= i < |r| && r[i] == s;
      assert ordered[skip + i] == s;
      assert s in multiset(ordered);
    }
  }

  /** The stores the listing rule shows, newest update first. */
  ghost function Shown(t: seq<StoreRow>, query: string): (r: seq<StoreRow>)
    ensures |r| == |ListedIn(t, query)|
    ensures NewestFirst(r)
    ensures forall s :: s in r <==> s in t && Listed(query, s)
  {
    var r := ByRecency(ListedIn(t, query));
    assert forall s :: s in r <==> s in multiset(ListedIn(t, query));
    r
  }

  /** `count({ where })`. */
  function Count(t: seq<StoreRow>, w: Where): nat {
    |FilterWhere(t, w)|
  }

  /** `Math.ceil(total / limit)`: the least number of pages holding `total` rows. */
  function TotalPages(total: nat, limit: Pos): (pages: nat)
    ensures total <= pages * limit
    ensures pages == 0 || (pages - 1) * limit < total
  {
    var pages := (total + limit - 1) / limit;
    assert limit * pages <= total + limit - 1 < limit * pages + limit;
    pages
  }

  lemma TotalPagesExample()
    ensures TotalPages(25, 10) == 3 && TotalPages(0, 10) == 0
  {
  }

  /** Rows left on page `page`: a full page, the remainder, or none. */
  lemma {:induction false} PageSize(total: nat, page: Pos, limit: Pos)
    requires page <= TotalPages(total, limit)
    ensures 1 <= total - Skip(page, limit)
    ensures page < TotalPages(total, limit) ==> total - Skip(page, limit) >= limit
    ensures page == TotalPages(total, limit) ==> total - Skip(page, limit) <= limit
  {
    var pages := TotalPages(total, limit);
    var skip := Skip(page, limit);
    assert skip == (page - 1) * limit;
    assert (page - 1) * limit <= (pages - 1) * limit;
    if page < pages {
      assert page * limit <= (pages - 1) * limit;
      assert skip + limit == page * limit;
    }
  }

  /** At limit 10, the last of the three pages of 25 rows holds 5. */
  lemma LastPageOfTwentyFive(s: seq<StoreRow>)
    requires |s| == 25
    ensures |Window(s, Skip(3, 10), 10)| == 5
  {
  }

  // ---------------------------------------------------------------------
  // Review statistics
  // ---------------------------------------------------------------------

  /** `reviews: { where: { isDeleted: false } }`, in order. */
  function ValidReviews(rs: seq<Review>): (v: seq<Review>)
    ensures |v| <= |rs|
    ensures forall r :: r in v <==> r in rs && !r.isDeleted
    ensures forall r :: multiset(v)[r] == if r.isDeleted then 0 else multiset(rs)[r]
  {
    if rs == [] then []
    else
      assert rs == [rs[0]] + rs[1..];
      (if rs[0].isDeleted then [] else [rs[0]]) + ValidReviews(rs[1..])
  }

  function RatingSum(rs: seq<Review>): int {
    if rs == [] then 0 else rs[0].rating + RatingSum(rs[1..])
  }

  /** An exact fraction `num / den` with a positive denominator. */
  datatype Ratio = Ratio(num: int, den: int)

  /** The unrounded average rating of the non-deleted reviews; 0 when there are none. */
  function MeanRating(rs: seq<Review>): (m: Ratio)
    ensures m.den >= 1
    ensures ValidReviews(rs) == [] ==> m.num == 0
    ensures ValidReviews(rs) != [] ==> m.num * |ValidReviews(rs)| == RatingSum(ValidReviews(rs)) * m.den
  {
    var v := ValidReviews(rs);
    if |v| > 0 then Ratio(RatingSum(v), |v|) else Ratio(0, 1)
  }

  /**
   * `parseFloat(x.toFixed(1))` in tenths: the nearest tenth, halves
   * rounded away from zero.
   */
  function RoundToTenths(m: Ratio): (t: int)
    requires m.den >= 1
    ensures m.num >= 0 ==> -m.den <= 20 * m.num - 2 * m.den * t < m.den
    ensures m.num < 0 ==> -m.den < 20 * m.num - 2 * m.den * t <= m.den
  {
    var d := 2 * m.den;
    if m.num >= 0 then
      var a := 20 * m.num + m.den;
      assert d * (a / d) <= a < d * (a / d) + d;
      a / d
    else
      var a := -20 * m.num + m.den;
      assert d * (a / d) <= a < d * (a / d) + d;
      -(a / d)
  }

  predicate RatingsInRange(rs: seq<Review>) {
    forall i :: 0 <= i < |rs| ==> 1 <= rs[i].rating <= 5
  }

  lemma {:induction false} SumBounds(rs: seq<Review>)
    requires RatingsInRange(rs)
    ensures |rs| <= RatingSum(rs) <= 5 * |rs|
  {
    if rs != [] {
      assert RatingsInRange(rs[1..]);
      SumBounds(rs[1..]);
    }
  }

  lemma {:induction false} ValidReviewsInRange(rs: seq<Review>)
    requires RatingsInRange(rs)
    ensures RatingsInRange(ValidReviews(rs))
  {
    var v := ValidReviews(rs);
    forall i | 0 <= i < |v| ensures 1 <= v[i].rating <= 5 {
      assert v[i] in v;
      var j :| 0 <= j < |rs| && rs[j] == v[i];
    }
  }

  /** With ratings 1 to 5, a store with reviews averages between 1 and 5. */
  lemma MeanInRange(rs: seq<Review>)
    requires RatingsInRange(rs) && ValidReviews(rs) != []
    ensures MeanRating(rs).den <= MeanRating(rs).num <= 5 * MeanRating(rs).den
  {
    ValidReviewsInRange(rs);
    SumBounds(ValidReviews(rs));
  }

  /** ... and its average in tenths lies between 10 and 50. */
  lemma TenthsInRange(rs: seq<Review>)
    requires RatingsInRange(rs) && ValidReviews(rs) != []
    ensures 10 <= RoundToTenths(MeanRating(rs)) <= 50
  {
    MeanInRange(rs);
    var m := MeanRating(rs);
    var t := RoundToTenths(m);
    var d := m.den;
    assert 19 * d < 2 * d * t <= 101 * d;
    MulMonotone(t, 9, 2 * d);
    MulMonotone(51, t, 2 * d);
  }

  lemma MulMonotone(a: int, b: int, c: nat)
    ensures a <= b ==> a * c <= b * c
  {
  }

  /** Ratings 5, 3 and 4 give three reviews averaging 4.0; no reviews give 0. */
  lemma StatsExample()
    ensures |ValidReviews([Review(5, false), Review(3, false), Review(4, false)])| == 3
    ensures RoundToTenths(MeanRating([Review(5, false), Review(3, false), Review(4, false)])) == 40
    ensures ValidReviews([]) == [] && RoundToTenths(MeanRating([])) == 0
  {
    var rs := [Review(5, false), Review(3, false), Review(4, false)];
    assert rs[1..] == [Review(3, false), Review(4, false)];
    assert rs[1..][1..] == [Review(4, false)];
    assert ValidReviews(rs) == rs;
  }
}
