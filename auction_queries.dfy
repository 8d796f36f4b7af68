// The read-only routes of server/auctionRoutes.js: the public listings
// (filter, search terms, sort, pagination), the admin verification queue with
// its five-minute grace window, and the per-category counts. Each is a
// function of the auctions and bids tables and the clock.
module AuctionQueries {
  import opened Wrappers
  import opened Text
  import opened Lists
  import opened Market
  import Search
  import Sorting
  import Paging

  /** A row of the auctions table: its id and its record. */
  type Row = (nat, Auction)

  /**
   * The auctions table in scan order: the ids below `n`, ascending. Each
   * query below is a function of such a table.
   */
  function Scan(auctions: map<nat, Auction>, n: nat): (r: seq<(nat, Auction)>)
    ensures forall k :: 0 <= k < |r| ==> r[k].0 < n && r[k].0 in auctions && auctions[r[k].0] == r[k].1
    ensures forall id :: id in auctions && id < n ==> (id, auctions[id]) in r
    ensures forall j, k :: 0 <= j < k < |r| ==> r[j].0 < r[k].0
    decreases n
  {
    if n == 0 then []
    else Scan(auctions, n - 1) + (if n - 1 in auctions then [(n - 1, auctions[n - 1])] else [])
  }

  /** `COALESCE(a.current_bid, a.starting_price)` and then `|| starting_price`: no bid, or a zero one, shows the starting price. */
  function PriceShown(a: Auction): (p: int)
    ensures a.currentBid.Some? && a.currentBid.value != 0 ==> p == a.currentBid.value
    ensures a.currentBid.None? || a.currentBid.value == 0 ==> p == a.startingPrice
  {
    if a.currentBid.Some? && a.currentBid.value != 0 then a.currentBid.value else a.startingPrice
  }

  /** Open for bidding at `now`: `status = 'active' AND ends_at > NOW()`. */
  predicate Live(a: Auction, now: int) {
    a.status == Active && a.endsAt > now
  }

  // ---------------------------------------------------------------------
  // GET /listings

  datatype SortOrder = EndingSoon | Newest | PriceLow | PriceHigh | MostBids

  /** `req.query.sort || 'ending-soon'` and the `switch`; an unknown value sorts as ending-soon. */
  function SortOrderOf(raw: Option<string>): SortOrder {
    if raw == Some("newest") then Newest
    else if raw == Some("price-low") then PriceLow
    else if raw == Some("price-high") then PriceHigh
    else if raw == Some("bids") then MostBids
    else EndingSoon
  }

  /**
   * The query string. An empty `category` or `search` is absent (the route
   * tests them for truthiness); prices are already in cents.
   */
  datatype ListingQuery = ListingQuery(
    page: Option<int>,
    limit: Option<int>,
    sort: Option<string>,
    category: string,
    minPrice: Option<int>,
    maxPrice: Option<int>,
    search: string)

  /** A search term occurs, case-insensitively, in the title, the description or the category. */
  predicate TermMatches(a: Auction, term: string) {
    Contains(Lower(a.title), term) || Contains(Lower(a.description), term) || Contains(Lower(a.category), term)
  }

  /** No search, or no term left after normalisation, matches everything; otherwise any one term suffices. */
  predicate SearchMatches(a: Auction, search: string) {
    var terms := Search.SearchTerms(search);
    search == [] || terms == [] || exists k :: 0 <= k < |terms| && TermMatches(a, terms[k])
  }

  /** The `WHERE` clause of the rows query. */
  predicate Listed(a: Auction, q: ListingQuery, now: int) {
    Live(a, now)
    && (q.category == [] || a.category in Split(q.category, ','))
    && (q.minPrice.None? || a.startingPrice >= q.minPrice.value)
    && (q.maxPrice.None? || a.startingPrice <= q.maxPrice.value)
    && SearchMatches(a, q.search)
  }

  /** The `ORDER BY` of each sort order; bid count is the `COUNT(*)` subquery. */
  function ListingKey(order: SortOrder, bids: seq<Bid>): ((nat, Auction)) -> seq<int> {
    match order
    case EndingSoon => (p: Row) => [p.1.endsAt]
    case Newest => (p: Row) => [-p.1.createdAt]
    case PriceLow => (p: Row) => [p.1.startingPrice]
    case PriceHigh => (p: Row) => [-p.1.startingPrice]
    case MostBids => (p: Row) => [-(CountBids(bids, p.0) as int)]
  }

  datatype ListingRow = ListingRow(
    id: nat, title: string, category: string, startingPrice: int, currentBid: int,
    images: seq<string>, endsAt: int, bidCount: nat)

  function ListingRowOf(bids: seq<Bid>, p: (nat, Auction)): ListingRow {
    ListingRow(p.0, p.1.title, p.1.category, p.1.startingPrice, PriceShown(p.1), p.1.images, p.1.endsAt, CountBids(bids, p.0))
  }

  /** The listed auctions in the requested order, before `LIMIT`/`OFFSET`. */
  function Matching(table: seq<Row>, bids: seq<Bid>, q: ListingQuery, now: int): seq<(nat, Auction)> {
    Sorting.SortBy(Filter(table, (p: Row) => Listed(p.1, q, now)), ListingKey(SortOrderOf(q.sort), bids))
  }

  datatype ListingsAnswer = ListingsAnswer(listings: seq<ListingRow>, pagination: Paging.PageMeta)

  /**
   * The answer of GET /listings: page and limit default to 1 and 12, the
   * page of sorted matches, and the pagination object. (`total` counts the
   * same matches as the rows: see the as-written count below.)
   */
  function Listings(table: seq<Row>, bids: seq<Bid>, q: ListingQuery, now: int): Result<ListingsAnswer, Paging.QueryError> {
    var page := Paging.IntOr(q.page, 1);
    var limit := Paging.IntOr(q.limit, 12);
    AnswerPage(Matching(table, bids, q, now), bids, page, limit)
  }

  /** `LIMIT`/`OFFSET` on the sorted matches, the rows as the answer shows them, and the pagination object. */
  function AnswerPage(all: seq<Row>, bids: seq<Bid>, page: int, limit: int): Result<ListingsAnswer, Paging.QueryError>
    requires limit != 0
  {
    match Paging.LimitOffset(all, limit, (page - 1) * limit)
    case Err(e) => Err(e)
    case Ok(rows) => Ok(ListingsAnswer(Map(rows, (p: Row) => ListingRowOf(bids, p)), Paging.Meta(page, limit, |all|, false)))
  }

  /**
   * An answered page is page `page` of the sorted matches `all`: `limit`
   * rows from offset `(page - 1) * limit`, clipped, each shown with its
   * price fallback and bid count, and the pagination over all the matches.
   */
  lemma AnswerPageShape(all: seq<Row>, bids: seq<Bid>, page: int, limit: int)
    requires limit != 0 && AnswerPage(all, bids, page, limit).Ok?
    ensures var r := AnswerPage(all, bids, page, limit).value;
      |r.listings| == Paging.Max(0, Paging.Min(limit, |all| - (page - 1) * limit)) &&
      (forall k :: 0 <= k < |r.listings| ==> r.listings[k] == ListingRowOf(bids, all[(page - 1) * limit + k])) &&
      r.pagination.page == page && r.pagination.limit == limit && r.pagination.total == |all| &&
      (r.pagination.hasNextPage <==> page * limit < |all|)
  {
  }


  /**
   * What a listings answer holds: only live auctions of the table inside the
   * filters, with the price fallback and the bid count; a negative page or
   * limit is a server error.
   */
  lemma ListingsContents(table: seq<Row>, bids: seq<Bid>, q: ListingQuery, now: int)
    ensures var r := Listings(table, bids, q, now);
      var page, limit := Paging.IntOr(q.page, 1), Paging.IntOr(q.limit, 12);
      (r.Err? <==> limit < 0 || page < 1) &&
      (r.Ok? ==> forall k :: 0 <= k < |r.value.listings| ==>
        var row := r.value.listings[k];
        exists a :: (row.id, a) in table && Listed(a, q, now) && row.currentBid == PriceShown(a) && row.bidCount == CountBids(bids, row.id))
  {
    var page, limit := Paging.IntOr(q.page, 1), Paging.IntOr(q.limit, 12);
    var all := Matching(table, bids, q, now);
    Sorting.SortFilterMembers(table, (p: Row) => Listed(p.1, q, now), ListingKey(SortOrderOf(q.sort), bids));
    Paging.PageOfRows(all, page, limit);
    if limit >= 0 && page >= 1 {
      var rows := Paging.LimitOffset(all, limit, (page - 1) * limit).value;
      var out := Listings(table, bids, q, now).value.listings;
      forall k | 0 <= k < |out|
        ensures exists a :: (out[k].id, a) in table && Listed(a, q, now) && out[k].currentBid == PriceShown(a) && out[k].bidCount == CountBids(bids, out[k].id)
      {
        assert out[k] == ListingRowOf(bids, rows[k]);
        assert rows[k] == all[(page - 1) * limit + k];
        assert rows[k] in table && Listed(rows[k].1, q, now);
      }
    }
  }

  /** A row of the table is among the sorted matches exactly when it passes the filters, and the matches are in key order. */
  lemma MatchingComplete(table: seq<Row>, bids: seq<Bid>, q: ListingQuery, now: int)
    ensures var all := Matching(table, bids, q, now);
      (forall k :: 0 <= k < |table| ==> (table[k] in all <==> Listed(table[k].1, q, now))) &&
      (forall k :: 0 <= k < |all| ==> all[k] in table) &&
      Sorting.SortedBy(all, ListingKey(SortOrderOf(q.sort), bids))
  {
    Sorting.SortFilterMembers(table, (p: Row) => Listed(p.1, q, now), ListingKey(SortOrderOf(q.sort), bids));
  }

  /** The `WHERE` clause of the count query as written: the WHOLE search string as one `ILIKE '%search%'`. */
  predicate CountedAsWritten(a: Auction, q: ListingQuery, now: int) {
    Live(a, now)
    && (q.category == [] || a.category in Split(q.category, ','))
    && (q.minPrice.None? || a.startingPrice >= q.minPrice.value)
    && (q.maxPrice.None? || a.startingPrice <= q.maxPrice.value)
    && (q.search == [] || TermMatches(a, Lower(q.search)))
  }

  /** The `total` of the listings answer as written: the count query's own matches, not the rows query's. */
  function ListingsTotalAsWritten(table: seq<Row>, q: ListingQuery, now: int): nat {
    Count(table, (p: Row) => CountedAsWritten(p.1, q, now))
  }

  /** The auction of the counterexample: live, titled "red", matched by the term "red" of "red car". */
  function RedAuction(): Auction {
    Auction(2, "red", "toys", "", "", 500, None, 7, [], [], None, 0, Active, 1000, 0,
            None, None, Some(0), Some(1), None, None, None)
  }

  function RedCarQuery(): ListingQuery {
    ListingQuery(None, None, None, [], None, None, "red car")
  }

  /**
   * For the search "red car", the single live auction titled "red" is
   * returned as a row, yet the count query as written counts nothing, so the
   * answer would report zero pages while showing one listing.
   */
  lemma ListingsTotalMismatch()
    ensures ListingsTotalAsWritten([(1, RedAuction())], RedCarQuery(), 0) == 0
    ensures Matching([(1, RedAuction())], [], RedCarQuery(), 0) == [(1, RedAuction())]
  {
    var a := RedAuction();
    var q := RedCarQuery();
    var table := [(1, a)];
    RedNotCounted();
    RedListed();
    assert Filter(table, (p: Row) => CountedAsWritten(p.1, q, 0)) == [];
    var kept := Filter(table, (p: Row) => Listed(p.1, q, 0));
    assert kept == table;
    Sorting.SortBySortedIsIdentity(kept, ListingKey(SortOrderOf(q.sort), []));
  }

  lemma RedNotCounted()
    ensures !CountedAsWritten(RedAuction(), RedCarQuery(), 0)
  {
    LowerRedCar();
    ContainsLonger(Lower("red"), "red car");
    ContainsLonger(Lower(""), "red car");
    ContainsLonger(Lower("toys"), "red car");
  }

  lemma RedListed()
    ensures Listed(RedAuction(), RedCarQuery(), 0)
  {
    var terms := Search.SearchTerms("red car");
    RedCarTerms();
    RedMatches();
    assert terms[0] == "red";
    assert TermMatches(RedAuction(), terms[0]);
    assert SearchMatches(RedAuction(), "red car");
  }

  lemma RedMatches()
    ensures TermMatches(RedAuction(), "red")
  {
    assert Lower("red") == "red" by {
      var l := Lower("red");
      assert l[0] == 'r' && l[1] == 'e' && l[2] == 'd';
    }
    assert StartsWith("red", "red");
  }

  lemma LowerRedCar()
    ensures Lower("red car") == "red car"
  {
    var l := Lower("red car");
    assert forall i :: 0 <= i < 7 ==> l[i] == ("red car")[i];
  }

  lemma RedCarTerms()
    ensures Search.SearchTerms("red car") == ["red", "car"]
  {
    LowerRedCar();
    DashesRedCar();
    RedCarWords();
    LongRedCar();
  }

  lemma DashesRedCar()
    ensures DashesToSpaces("red car") == "red car"
  {
    var n := DashesToSpaces("red car");
    assert forall i :: 0 <= i < 7 ==> n[i] == ("red car")[i];
  }

  lemma LongRedCar()
    ensures Filter(["red", "car"], Search.Long) == ["red", "car"]
  {
    FilterAll(["red", "car"], Search.Long);
  }

  lemma RedCarWords()
    ensures Words("red car") == ["red", "car"]
  {
    TakeRed();
    WordsCar();
    assert ("red car")[3..] == " car";
    assert (" car")[1..] == "car";
  }

  lemma TakeRed()
    ensures TakeWord("red car") == "red"
  {
    assert TakeWord(" car") == [];
    assert TakeWord("d car") == "d" by { assert ("d car")[1..] == " car"; }
    assert TakeWord("ed car") == "ed" by { assert ("ed car")[1..] == "d car"; }
    assert ("red car")[1..] == "ed car";
  }

  lemma WordsCar()
    ensures Words("car") == ["car"]
  {
    assert TakeWord("r") == "r" by { assert ("r")[1..] == []; }
    assert TakeWord("ar") == "ar" by { assert ("ar")[1..] == "r"; }
    assert TakeWord("car") == "car" by { assert ("car")[1..] == "ar"; }
    assert ("car")[3..] == [];
  }

  /**
   * The corrected total: the count of the very matches the rows are drawn
   * from. Every match then lies on a page between 1 and `totalPages`.
   */
  lemma ListingsTotalCoversRows(table: seq<Row>, bids: seq<Bid>, q: ListingQuery, now: int, i: nat)
    requires Listings(table, bids, q, now).Ok?
    requires i < |Matching(table, bids, q, now)|
    ensures var m := Listings(table, bids, q, now).value.pagination;
      m.total == |Matching(table, bids, q, now)| && 1 <= i / m.limit + 1 <= m.totalPages
  {
    var page, limit := Paging.IntOr(q.page, 1), Paging.IntOr(q.limit, 12);
    var all := Matching(table, bids, q, now);
    assert limit > 0;
    var rows := Paging.LimitOffset(all, limit, (page - 1) * limit).value;
    assert Listings(table, bids, q, now).value.pagination == Paging.Meta(page, limit, |all|, false);
    Paging.PageOfIndex(i, |all|, limit);
  }

  // ---------------------------------------------------------------------
  // GET /category-counts

  /** The live auctions of the table, in scan order. */
  function LiveRows(table: seq<Row>, now: int): seq<Row> {
    Filter(table, (p: Row) => Live(p.1, now))
  }

  /** One entry per category that has a live auction, holding the number of its live auctions. */
  function CategoryCounts(table: seq<Row>, now: int): (counts: map<string, nat>)
    ensures forall c :: c in counts <==> exists k :: 0 <= k < |table| && Live(table[k].1, now) && table[k].1.category == c
    ensures forall c :: c in counts ==> counts[c] >= 1
    ensures forall c :: c in counts ==> counts[c] == Count(table, (p: Row) => Live(p.1, now) && p.1.category == c)
  {
    var live := LiveRows(table, now);
    var cats := LiveCategories(table, now);
    LiveCategoriesIff(table, now);
    CountLiveOfCategory(table, now, cats);
    map c | c in cats :: Count(live, (p: Row) => p.1.category == c)
  }

  /** Counting a category among the live rows is counting the rows that are live and of that category. */
  lemma CountLiveOfCategory(table: seq<Row>, now: int, cats: set<string>)
    ensures forall c :: c in cats ==>
      Count(LiveRows(table, now), (p: Row) => p.1.category == c) == Count(table, (p: Row) => Live(p.1, now) && p.1.category == c)
  {
    forall c | c in cats
      ensures Count(LiveRows(table, now), (p: Row) => p.1.category == c) == Count(table, (p: Row) => Live(p.1, now) && p.1.category == c)
    {
      FilterTwice(table, (p: Row) => Live(p.1, now), (p: Row) => p.1.category == c, (p: Row) => Live(p.1, now) && p.1.category == c);
    }
  }

  /** The categories of the live rows. */
  function LiveCategories(table: seq<Row>, now: int): set<string> {
    var live := LiveRows(table, now);
    set k | 0 <= k < |live| :: live[k].1.category
  }

  /** A category is among the live ones exactly when some live row of the table has it, and then it is counted at least once. */
  lemma LiveCategoriesIff(table: seq<Row>, now: int)
    ensures forall c :: c in LiveCategories(table, now) <==> exists k :: 0 <= k < |table| && Live(table[k].1, now) && table[k].1.category == c
    ensures forall c :: c in LiveCategories(table, now) ==>
      exists k :: 0 <= k < |LiveRows(table, now)| && LiveRows(table, now)[k].1.category == c
  {
    var live := LiveRows(table, now);
    assert forall k :: 0 <= k < |table| && Live(table[k].1, now) ==> table[k] in live;
  }

  /**
   * The count shown for a category equals the number of listings the
   * listings route finds for that single category with no other filter.
   */
  lemma CategoryCountMatchesListings(table: seq<Row>, bids: seq<Bid>, now: int, q: ListingQuery)
    requires q.category != [] && q.category in CategoryCounts(table, now) && ',' !in q.category
    requires q.minPrice.None? && q.maxPrice.None? && q.search == []
    ensures CategoryCounts(table, now)[q.category] == |Matching(table, bids, q, now)|
  {
    var c := q.category;
    SplitPrefix(c, [], ',');
    forall k | 0 <= k < |table| ensures Listed(table[k].1, q, now) <==> Live(table[k].1, now) && table[k].1.category == c {
      assert SearchMatches(table[k].1, q.search);
    }
    FilterTwice(table, (p: Row) => Live(p.1, now), (p: Row) => p.1.category == c, (p: Row) => Listed(p.1, q, now));
    var kept := Filter(table, (p: Row) => Listed(p.1, q, now));
    assert |Matching(table, bids, q, now)| == |kept|;
  }

  /** Filtering by `f` and then by `g` is filtering by `h` when `h` is `f` and `g`. */
  lemma {:induction false} FilterTwice<T>(s: seq<T>, f: T -> bool, g: T -> bool, h: T -> bool)
    requires forall i :: 0 <= i < |s| ==> (h(s[i]) <==> f(s[i]) && g(s[i]))
    ensures Filter(Filter(s, f), g) == Filter(s, h)
  {
    if s != [] {
      FilterTwice(s[1..], f, g, h);
      var rest := Filter(s[1..], f);
      if f(s[0]) {
        assert Filter(s, f) == [s[0]] + rest;
        assert ([s[0]] + rest)[1..] == rest;
      } else {
        assert Filter(s, f) == rest;
      }
    }
  }

  // ---------------------------------------------------------------------
  // GET /admin/verification

  /** `INTERVAL '5 minutes'` */
  const GraceMs: int := 300000

  /** Pending auctions, and auctions decided (accepted, rejected, more info asked) in the last five minutes. */
  predicate InQueue(a: Auction, now: int) {
    a.status == PendingVerification
    || (a.verifiedAt.Some? && a.verifiedAt.value >= now - GraceMs
        && (a.status == Active || a.status == Rejected || a.status == MoreInfo))
  }

  /** Pending first, then `verified_at DESC NULLS LAST`, then `created_at DESC`. */
  function QueueKey(p: Row): seq<int> {
    var a := p.1;
    [if a.status == PendingVerification then 0 else 1,
     if a.verifiedAt.None? then 1 else 0,
     if a.verifiedAt.Some? then -a.verifiedAt.value else 0,
     -a.createdAt]
  }

  function QueueAll(table: seq<Row>, now: int): seq<Row> {
    Sorting.SortBy(Filter(table, (p: Row) => InQueue(p.1, now)), QueueKey)
  }

  datatype QueueAnswer = QueueAnswer(auctions: seq<Row>, pagination: Paging.PageMeta)

  /** The answer of the queue route: page and limit default to 1 and 10. */
  function VerificationQueue(table: seq<Row>, rawPage: Option<int>, rawLimit: Option<int>, now: int): Result<QueueAnswer, Paging.QueryError> {
    var page := Paging.IntOr(rawPage, 1);
    var limit := Paging.IntOr(rawLimit, 10);
    var all := QueueAll(table, now);
    match Paging.LimitOffset(all, limit, (page - 1) * limit)
    case Err(e) => Err(e)
    case Ok(rows) => Ok(QueueAnswer(rows, Paging.Meta(page, limit, |all|, false)))
  }

  /**
   * The queue holds exactly the pending and recently decided auctions; pending
   * ones come first, and decided ones go from the latest decision back.
   */
  lemma QueueOrder(table: seq<Row>, now: int)
    ensures var all := QueueAll(table, now);
      (forall k :: 0 <= k < |table| ==> (table[k] in all <==> InQueue(table[k].1, now))) &&
      (forall k :: 0 <= k < |all| ==> all[k] in table && InQueue(all[k].1, now)) &&
      (forall i, j :: 0 <= i < j < |all| && all[j].1.status == PendingVerification ==> all[i].1.status == PendingVerification) &&
      (forall i, j :: 0 <= i < j < |all| && all[i].1.status != PendingVerification ==>
        all[i].1.verifiedAt.Some? && all[j].1.verifiedAt.Some? && all[i].1.verifiedAt.value >= all[j].1.verifiedAt.value)
  {
    var all := QueueAll(table, now);
    QueueMembers(table, now);
    QueueSorted(all, now);
  }

  /** The queue holds exactly the table's rows that belong in it, sorted by the queue key. */
  lemma QueueMembers(table: seq<Row>, now: int)
    ensures var all := QueueAll(table, now);
      (forall k :: 0 <= k < |table| ==> (table[k] in all <==> InQueue(table[k].1, now))) &&
      (forall k :: 0 <= k < |all| ==> all[k] in table && InQueue(all[k].1, now)) &&
      Sorting.SortedBy(all, QueueKey)
  {
    Sorting.SortFilterMembers(table, (p: Row) => InQueue(p.1, now), QueueKey);
  }

  lemma QueueSorted(all: seq<Row>, now: int)
    requires Sorting.SortedBy(all, QueueKey)
    requires forall k :: 0 <= k < |all| ==> InQueue(all[k].1, now)
    ensures forall i, j :: 0 <= i < j < |all| && all[j].1.status == PendingVerification ==> all[i].1.status == PendingVerification
    ensures forall i, j :: 0 <= i < j < |all| && all[i].1.status != PendingVerification ==>
        all[i].1.verifiedAt.Some? && all[j].1.verifiedAt.Some? && all[i].1.verifiedAt.value >= all[j].1.verifiedAt.value
  {
    forall i, j | 0 <= i < j < |all|
      ensures all[j].1.status == PendingVerification ==> all[i].1.status == PendingVerification
      ensures all[i].1.status != PendingVerification ==>
        all[i].1.verifiedAt.Some? && all[j].1.verifiedAt.Some? && all[i].1.verifiedAt.value >= all[j].1.verifiedAt.value
    {
      var ki, kj := QueueKey(all[i]), QueueKey(all[j]);
      assert Sorting.KeyLe(ki, kj);
      assert InQueue(all[i].1, now) && InQueue(all[j].1, now);
      if all[i].1.status != PendingVerification {
        assert ki[0] == 1 && kj[0] == 1;
        assert Sorting.KeyLe(ki[1..], kj[1..]);
        assert ki[1] == 0 && kj[1] == 0;
        assert Sorting.KeyLe(ki[1..][1..], kj[1..][1..]);
        assert ki[1..][1..][0] == ki[2] && kj[1..][1..][0] == kj[2];
      }
    }
  }

  /** The paging of the queue: the selected page is a run of the ordered queue, and the next/previous flags. */
  lemma QueuePage(table: seq<Row>, rawPage: Option<int>, rawLimit: Option<int>, now: int)
    ensures var r := VerificationQueue(table, rawPage, rawLimit, now);
      var page, limit := Paging.IntOr(rawPage, 1), Paging.IntOr(rawLimit, 10);
      var all := QueueAll(table, now);
      (r.Err? <==> limit < 0 || page < 1) &&
      (r.Ok? ==>
        r.value.pagination.total == |all| &&
        (r.value.pagination.hasNextPage <==> page * limit < |all|) &&
        (r.value.pagination.hasPrevPage <==> page > 1) &&
        (forall k :: 0 <= k < |r.value.auctions| ==> r.value.auctions[k] == all[(page - 1) * limit + k]))
  {
    var page, limit := Paging.IntOr(rawPage, 1), Paging.IntOr(rawLimit, 10);
    var all := QueueAll(table, now);
    Paging.PageOfRows(all, page, limit);
    var r := VerificationQueue(table, rawPage, rawLimit, now);
    if r.Ok? {
      assert r.value.auctions == Paging.LimitOffset(all, limit, (page - 1) * limit).value;
    }
  }
}
