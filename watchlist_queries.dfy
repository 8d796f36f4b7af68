// GET /api/watchlist in server/watchlistRoutes.js: the signed-in user's
// watched auctions, newest first, optionally narrowed by a search on title
// and description, one page at a time.
module WatchlistQueries {
  import opened Wrappers
  import opened Text
  import opened Market
  import Lists
  import Paging
  import AuctionQueries
  import MarketStore

  /** `w.user_id = $1`, the join with auctions, and `(a.title ILIKE '%s%' OR a.description ILIKE '%s%')` when a search is given. */
  predicate WatchMatches(auctions: map<nat, Auction>, user: nat, search: string, w: WatchEntry) {
    w.userId == user && w.auctionId in auctions
    && (search == []
        || Contains(Lower(auctions[w.auctionId].title), Lower(search))
        || Contains(Lower(auctions[w.auctionId].description), Lower(search)))
  }

  /** One element of the answer's `watchlist`. */
  datatype WatchRow = WatchRow(
    id: nat, auctionId: nat, title: string, image: Option<string>, startingPrice: int,
    currentBid: int, endsAt: int, bidCount: nat, addedAt: int)

  /** The row of entry `w` joined with its auction; `current_bid || starting_price`. */
  function WatchRowOf(auctions: map<nat, Auction>, bids: seq<Bid>, w: WatchEntry): (r: WatchRow)
    requires w.auctionId in auctions
    ensures r.id == w.id && r.auctionId == w.auctionId && r.addedAt == w.createdAt
    ensures r.title == auctions[w.auctionId].title && r.image == FirstImage(auctions[w.auctionId].images)
    ensures r.currentBid == AuctionQueries.PriceShown(auctions[w.auctionId])
    ensures r.bidCount == CountBids(bids, w.auctionId)
  {
    var a := auctions[w.auctionId];
    WatchRow(w.id, w.auctionId, a.title, FirstImage(a.images), a.startingPrice,
             AuctionQueries.PriceShown(a), a.endsAt, CountBids(bids, w.auctionId), w.createdAt)
  }

  function WatchRowsOf(auctions: map<nat, Auction>, bids: seq<Bid>, ws: seq<WatchEntry>): (r: seq<WatchRow>)
    requires forall i :: 0 <= i < |ws| ==> ws[i].auctionId in auctions
    ensures |r| == |ws| && forall i :: 0 <= i < |ws| ==> r[i] == WatchRowOf(auctions, bids, ws[i])
  {
    if ws == [] then [] else [WatchRowOf(auctions, bids, ws[0])] + WatchRowsOf(auctions, bids, ws[1..])
  }

  /** The matching entries, `ORDER BY w.created_at DESC`: the table read from its end. */
  function WatchedNewestFirst(auctions: map<nat, Auction>, watchlist: seq<WatchEntry>, user: nat, search: string): (r: seq<WatchEntry>)
    ensures forall k :: 0 <= k < |r| ==> r[k] in watchlist && WatchMatches(auctions, user, search, r[k])
    ensures forall i :: 0 <= i < |watchlist| && WatchMatches(auctions, user, search, watchlist[i]) ==> watchlist[i] in r
  {
    var newest := Lists.Reverse(watchlist);
    forall i | 0 <= i < |watchlist| ensures watchlist[i] in newest {
      assert newest[|watchlist| - 1 - i] == watchlist[i];
    }
    Lists.Filter(newest, (w: WatchEntry) => WatchMatches(auctions, user, search, w))
  }

  /** `SELECT COUNT(*)` with the same conditions. */
  function WatchTotal(auctions: map<nat, Auction>, watchlist: seq<WatchEntry>, user: nat, search: string): nat {
    Lists.Count(watchlist, (w: WatchEntry) => WatchMatches(auctions, user, search, w))
  }

  datatype WatchAnswer = WatchAnswer(watchlist: seq<WatchRow>, pagination: Paging.PageMeta)

  /**
   * GET /api/watchlist: page and limit default to 1 and 10, the rows are cut
   * with `LIMIT limit OFFSET (page - 1) * limit` (a negative one is a
   * database error), and `totalPages` is the plain ceiling.
   */
  function Watchlist(auctions: map<nat, Auction>, bids: seq<Bid>, watchlist: seq<WatchEntry>, user: nat,
                     search: string, rawPage: Option<int>, rawLimit: Option<int>): Result<WatchAnswer, Paging.QueryError>
  {
    var page, limit := Paging.IntOr(rawPage, 1), Paging.IntOr(rawLimit, 10);
    var all := WatchedNewestFirst(auctions, watchlist, user, search);
    WatchPage(auctions, bids, all, page, limit, WatchTotal(auctions, watchlist, user, search))
  }

  /** The answer for the matching entries `all`, cut to one page, with `total` as the count. */
  function WatchPage(auctions: map<nat, Auction>, bids: seq<Bid>, all: seq<WatchEntry>, page: int, limit: int,
                     total: nat): Result<WatchAnswer, Paging.QueryError>
    requires limit != 0 && forall i :: 0 <= i < |all| ==> all[i].auctionId in auctions
  {
    var window := Paging.LimitOffset(WatchRowsOf(auctions, bids, all), limit, (page - 1) * limit);
    if window.Err? then Err(window.error)
    else Ok(WatchAnswer(window.value, Paging.Meta(page, limit, total, false)))
  }

  /**
   * `r` is the page of `all` for `page` and `limit`: it fails exactly on a
   * negative limit or a page below 1; otherwise it holds the rows of the
   * entries from offset `(page - 1) * limit`, `limit` of them clipped to the
   * entries, with the pagination of `total`.
   */
  predicate IsWatchPage(r: Result<WatchAnswer, Paging.QueryError>, auctions: map<nat, Auction>, bids: seq<Bid>,
                        all: seq<WatchEntry>, page: int, limit: int, total: nat)
    requires limit != 0 && forall i :: 0 <= i < |all| ==> all[i].auctionId in auctions
  {
    (r.Err? <==> limit < 0 || page < 1) &&
    (r.Ok? ==>
      var offset := (page - 1) * limit;
      |r.value.watchlist| == Paging.Max(0, Paging.Min(limit, |all| - offset)) &&
      r.value.pagination == Paging.Meta(page, limit, total, false) &&
      (forall k :: 0 <= k < |r.value.watchlist| ==>
        offset + k < |all| &&
        r.value.watchlist[k] == WatchRowOf(auctions, bids, all[offset + k]) &&
        r.value.watchlist[k].auctionId in auctions))
  }

  lemma WatchPageShape(auctions: map<nat, Auction>, bids: seq<Bid>, all: seq<WatchEntry>, page: int, limit: int, total: nat)
    requires limit != 0 && forall i :: 0 <= i < |all| ==> all[i].auctionId in auctions
    ensures IsWatchPage(WatchPage(auctions, bids, all, page, limit, total), auctions, bids, all, page, limit, total)
  {
    var offset := (page - 1) * limit;
    if limit > 0 { Paging.OffsetSign(page, limit); }
    WindowRows(auctions, bids, all, limit, offset);
  }

  /**
   * The answer is the page of the user's matching entries in newest-first
   * order (IsWatchPage): it fails exactly on a negative limit or a page
   * below 1; otherwise it holds `limit` rows from offset `(page - 1) * limit`,
   * clipped to the entries, each the row of the entry at its place, and the
   * pagination carries the page, the limit, the count of matching entries and
   * the plain ceiling.
   */
  lemma WatchlistContents(auctions: map<nat, Auction>, bids: seq<Bid>, watchlist: seq<WatchEntry>, user: nat,
                          search: string, rawPage: Option<int>, rawLimit: Option<int>)
    ensures IsWatchPage(Watchlist(auctions, bids, watchlist, user, search, rawPage, rawLimit), auctions, bids,
                        WatchedNewestFirst(auctions, watchlist, user, search),
                        Paging.IntOr(rawPage, 1), Paging.IntOr(rawLimit, 10), WatchTotal(auctions, watchlist, user, search))
  {
    WatchPageShape(auctions, bids, WatchedNewestFirst(auctions, watchlist, user, search),
                   Paging.IntOr(rawPage, 1), Paging.IntOr(rawLimit, 10), WatchTotal(auctions, watchlist, user, search));
  }

  /** A window of the rows of some entries holds, in order, the rows of the entries at its offset. */
  lemma WindowRows(auctions: map<nat, Auction>, bids: seq<Bid>, all: seq<WatchEntry>, limit: int, offset: int)
    requires forall i :: 0 <= i < |all| ==> all[i].auctionId in auctions
    ensures var window := Paging.LimitOffset(WatchRowsOf(auctions, bids, all), limit, offset);
      (window.Err? <==> limit < 0 || offset < 0) &&
      (window.Ok? ==> |window.value| == Paging.Max(0, Paging.Min(limit, |all| - offset))) &&
      (window.Ok? ==> forall k :: 0 <= k < |window.value| ==>
         offset + k < |all| && window.value[k] == WatchRowOf(auctions, bids, all[offset + k]) &&
         window.value[k].auctionId in auctions)
  {
    var rows := WatchRowsOf(auctions, bids, all);
    var window := Paging.LimitOffset(rows, limit, offset);
    assert |rows| == |all|;
    if window.Ok? {
      forall k | 0 <= k < |window.value|
        ensures offset + k < |all| && window.value[k] == WatchRowOf(auctions, bids, all[offset + k])
      {
      }
    }
  }

  /** Under the table's creation order, the answer runs from the newest entry back. */
  lemma WatchlistNewestFirst(auctions: map<nat, Auction>, watchlist: seq<WatchEntry>, user: nat, search: string)
    requires MarketStore.CreatedInOrder(watchlist)
    ensures var all := WatchedNewestFirst(auctions, watchlist, user, search);
      forall i, j :: 0 <= i < j < |all| ==> all[i].createdAt >= all[j].createdAt
  {
    var newest := Lists.Reverse(watchlist);
    var n := |watchlist|;
    var later := (x: WatchEntry, y: WatchEntry) => x.createdAt >= y.createdAt;
    forall i, j | 0 <= i < j < n ensures later(newest[i], newest[j]) {
      assert newest[i] == watchlist[n - 1 - i] && newest[j] == watchlist[n - 1 - j];
    }
    Lists.FilterKeepsPairs(newest, (w: WatchEntry) => WatchMatches(auctions, user, search, w), later);
  }

  /** The total is the length of the unpaged list, so the pages together hold every matching entry. */
  lemma WatchTotalIsListLength(auctions: map<nat, Auction>, watchlist: seq<WatchEntry>, user: nat, search: string)
    ensures WatchTotal(auctions, watchlist, user, search) == |WatchedNewestFirst(auctions, watchlist, user, search)|
  {
    FilterReverseLength(watchlist, (w: WatchEntry) => WatchMatches(auctions, user, search, w));
  }

  /** Reading a list backwards keeps as many elements through a filter. */
  lemma {:induction false} FilterReverseLength<T>(s: seq<T>, f: T -> bool)
    ensures |Lists.Filter(Lists.Reverse(s), f)| == |Lists.Filter(s, f)|
    decreases |s|
  {
    if s != [] {
      var init := s[..|s| - 1];
      var last := s[|s| - 1];
      FilterReverseLength(init, f);
      assert Lists.Reverse(s) == [last] + Lists.Reverse(init);
      assert ([last] + Lists.Reverse(init))[1..] == Lists.Reverse(init);
      assert s == init + [last];
      Lists.FilterAppend(init, [last], f);
      assert [last][1..] == [];
    }
  }
}
