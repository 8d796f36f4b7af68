// The read-only routes of server/bidRoutes.js: the bid history of one
// auction, the signed-in user's bids with the active/won/lost/watchlist tabs
// and the per-auction grouping, and the tab counts.
module BidQueries {
  import opened Wrappers
  import opened Text
  import opened Market
  import Paging
  import Lists
  import AuctionQueries

  // ---------------------------------------------------------------------
  // GET /auctions/:id (bid history)

  predicate OfAuction(a: nat, b: Bid) {
    b.auctionId == a
  }

  /** The bids of auction `a`, `ORDER BY created_at DESC`: the ledger read from its end. */
  function History(bids: seq<Bid>, a: nat): (h: seq<Bid>)
    ensures forall k :: 0 <= k < |h| ==> h[k] in bids && h[k].auctionId == a
    ensures forall i :: 0 <= i < |bids| && bids[i].auctionId == a ==> bids[i] in h
  {
    var newest := Lists.Reverse(bids);
    forall i | 0 <= i < |bids| ensures bids[i] in newest {
      assert newest[|bids| - 1 - i] == bids[i];
    }
    Lists.Filter(newest, (b: Bid) => OfAuction(a, b))
  }

  /** Reading the ledger from its end drops the bids of other auctions one by one. */
  lemma {:induction false} HistoryCount(bids: seq<Bid>, a: nat)
    ensures |History(bids, a)| == CountBids(bids, a)
    decreases |bids|
  {
    if bids != [] {
      var init := bids[..|bids| - 1];
      var last := bids[|bids| - 1];
      HistoryCount(init, a);
      assert Lists.Reverse(bids) == [last] + Lists.Reverse(init);
      assert ([last] + Lists.Reverse(init))[1..] == Lists.Reverse(init);
    }
  }

  /** Creation times never increase from the newest bid back, and within one auction amounts fall and all but the newest bid are outbid. */
  lemma HistoryOrdered(bids: seq<Bid>, a: nat)
    requires Increasing(bids) && InsertionOrder(bids)
    ensures var h := History(bids, a);
      (forall i, j :: 0 <= i < j < |h| ==> h[i].createdAt >= h[j].createdAt) &&
      (forall i, j :: 0 <= i < j < |h| ==> h[i].amount > h[j].amount && h[j].status == Outbid)
  {
    var newest := Lists.Reverse(bids);
    var n := |bids|;
    var later := (x: Bid, y: Bid) => x.createdAt >= y.createdAt;
    var above := (x: Bid, y: Bid) => x.auctionId == y.auctionId ==> x.amount > y.amount && y.status == Outbid;
    forall i, j | 0 <= i < j < n ensures later(newest[i], newest[j]) && above(newest[i], newest[j]) {
      assert newest[i] == bids[n - 1 - i] && newest[j] == bids[n - 1 - j];
    }
    Lists.FilterKeepsPairs(newest, (b: Bid) => OfAuction(a, b), later);
    Lists.FilterKeepsPairs(newest, (b: Bid) => OfAuction(a, b), above);
  }

  /**
   * Under the ledger invariant the history runs from the newest bid back,
   * with strictly falling amounts; its first bid is the active one and
   * carries `current_bid`, every later one is outbid, and there is one entry
   * per bid of the auction.
   */
  lemma HistoryNewestFirst(auctions: map<nat, Auction>, bids: seq<Bid>, a: nat)
    requires LedgerOk(auctions, bids) && a in auctions
    ensures var h := History(bids, a);
      |h| == CountBids(bids, a) &&
      (forall i, j :: 0 <= i < j < |h| ==> h[i].createdAt >= h[j].createdAt && h[i].amount > h[j].amount) &&
      (h != [] ==> h[0].status == ActiveBid && auctions[a].currentBid == Some(h[0].amount)) &&
      (forall k :: 1 <= k < |h| ==> h[k].status == Outbid)
  {
    HistoryCount(bids, a);
    HistoryOrdered(bids, a);
    var h := History(bids, a);
    forall k | 1 <= k < |h| ensures h[k].status == Outbid {
      assert h[0].amount > h[k].amount && h[k].status == Outbid;
    }
    if h != [] {
      var k :| 0 <= k < |bids| && bids[k] == h[0];
      assert IsLastOf(bids, k);
      ActiveBidIsUniqueMaximum(auctions, bids, a, k);
    }
  }

  // ---------------------------------------------------------------------
  // GET /my-bids

  datatype Tab = AllBids | ActiveTab | WonTab | LostTab | WatchlistTab

  /** `req.query.status`; any other value adds no condition. */
  function TabOf(raw: Option<string>): Tab {
    if raw == Some("active") then ActiveTab
    else if raw == Some("won") then WonTab
    else if raw == Some("lost") then LostTab
    else if raw == Some("watchlist") then WatchlistTab
    else AllBids
  }

  /** `SELECT MAX(id) FROM bids WHERE auction_id = a` (and `AND user_id = u` when a user is given). */
  function MaxIdOf(bids: seq<Bid>, a: nat, user: Option<nat>): (r: Option<nat>)
    ensures r.None? <==> forall i :: 0 <= i < |bids| ==> !(bids[i].auctionId == a && (user.None? || bids[i].userId == user.value))
    ensures r.Some? ==> exists i :: 0 <= i < |bids| && bids[i].auctionId == a && (user.None? || bids[i].userId == user.value) && bids[i].id == r.value
    ensures r.Some? ==> forall i :: 0 <= i < |bids| && bids[i].auctionId == a && (user.None? || bids[i].userId == user.value) ==> bids[i].id <= r.value
    decreases |bids|
  {
    if bids == [] then None
    else
      var init := bids[..|bids| - 1];
      var last := bids[|bids| - 1];
      assert bids == init + [last];
      var best := MaxIdOf(init, a, user);
      if !(last.auctionId == a && (user.None? || last.userId == user.value)) then best
      else if best.None? || last.id > best.value then Some(last.id)
      else best
  }

  /** The tab's condition on a bid `b` of the user joined with its auction. */
  predicate InTab(tab: Tab, auctions: map<nat, Auction>, bids: seq<Bid>, watchlist: seq<WatchEntry>, user: nat, b: Bid, now: int)
    requires b.auctionId in auctions
  {
    var a := auctions[b.auctionId];
    match tab
    case AllBids => true
    case ActiveTab => a.endsAt > now && (b.status == ActiveBid || MaxIdOf(bids, b.auctionId, Some(user)) == Some(b.id))
    case WonTab => (a.status == Ended && MaxIdOf(bids, b.auctionId, None) == Some(b.id)) || a.buyerId == Some(user)
    case LostTab => a.endsAt <= now && (a.buyerId.None? || a.buyerId.value != user)
                    && (a.status != Ended || MaxIdOf(bids, b.auctionId, None) != Some(b.id))
    case WatchlistTab => IsWatched(watchlist, user, b.auctionId)
  }

  /** The request's user, `status` tab and `search` text. */
  datatype MyQuery = MyQuery(user: nat, tab: Tab, search: string)

  /** The `WHERE` clause: the user's bid, its auction exists, the tab, and `a.title ILIKE '%search%'`. */
  predicate Picked(auctions: map<nat, Auction>, bids: seq<Bid>, watchlist: seq<WatchEntry>, q: MyQuery, now: int, b: Bid) {
    b.userId == q.user && b.auctionId in auctions && InTab(q.tab, auctions, bids, watchlist, q.user, b, now)
    && (q.search == [] || Contains(Lower(auctions[b.auctionId].title), Lower(q.search)))
  }

  /** One row of the rows query: the bid, its auction's columns and the two subqueries. */
  datatype BidRow = BidRow(
    bid: Bid, title: string, images: seq<string>, startingPrice: int, currentBid: int,
    endsAt: int, bidCount: nat, highestBid: Option<int>)

  /** The row of bid `b` joined with its auction. */
  function RowOf(auctions: map<nat, Auction>, bids: seq<Bid>, b: Bid): (r: BidRow)
    requires b.auctionId in auctions
    ensures r.bid == b && r.title == auctions[b.auctionId].title && r.endsAt == auctions[b.auctionId].endsAt
    ensures r.currentBid == PriceShownOf(auctions[b.auctionId])
    ensures r.bidCount == CountBids(bids, b.auctionId) && r.highestBid == MaxAmount(bids, b.auctionId)
  {
    var a := auctions[b.auctionId];
    BidRow(b, a.title, a.images, a.startingPrice, a.currentBid.GetOr(a.startingPrice), a.endsAt,
           CountBids(bids, b.auctionId), MaxAmount(bids, b.auctionId))
  }

  /** `COALESCE(a.current_bid, a.starting_price)` */
  function PriceShownOf(a: Auction): (p: int)
    ensures a.currentBid.Some? ==> p == a.currentBid.value
    ensures a.currentBid.None? ==> p == a.startingPrice
  {
    a.currentBid.GetOr(a.startingPrice)
  }

  function RowsOf(auctions: map<nat, Auction>, bids: seq<Bid>, bs: seq<Bid>): (r: seq<BidRow>)
    requires forall i :: 0 <= i < |bs| ==> bs[i].auctionId in auctions
    ensures |r| == |bs| && forall i :: 0 <= i < |bs| ==> r[i] == RowOf(auctions, bids, bs[i])
  {
    if bs == [] then [] else [RowOf(auctions, bids, bs[0])] + RowsOf(auctions, bids, bs[1..])
  }

  /** The picked bids, `ORDER BY b.created_at DESC`: the ledger read from its end. */
  function PickedBids(auctions: map<nat, Auction>, bids: seq<Bid>, watchlist: seq<WatchEntry>, q: MyQuery, now: int): (r: seq<Bid>)
    ensures forall k :: 0 <= k < |r| ==> r[k] in bids && Picked(auctions, bids, watchlist, q, now, r[k])
    ensures forall i :: 0 <= i < |bids| && Picked(auctions, bids, watchlist, q, now, bids[i]) ==> bids[i] in r
  {
    var newest := Lists.Reverse(bids);
    forall i | 0 <= i < |bids| ensures bids[i] in newest {
      assert newest[|bids| - 1 - i] == bids[i];
    }
    Lists.Filter(newest, (b: Bid) => Picked(auctions, bids, watchlist, q, now, b))
  }

  /** The rows query before `LIMIT`/`OFFSET`. */
  function MyRows(auctions: map<nat, Auction>, bids: seq<Bid>, watchlist: seq<WatchEntry>, q: MyQuery, now: int): seq<BidRow> {
    RowsOf(auctions, bids, PickedBids(auctions, bids, watchlist, q, now))
  }

  /** Each row is a picked bid joined with its auction, and every picked bid has its row. */
  lemma MyRowsMembers(auctions: map<nat, Auction>, bids: seq<Bid>, watchlist: seq<WatchEntry>, q: MyQuery, now: int)
    ensures var r := MyRows(auctions, bids, watchlist, q, now);
      (forall k :: 0 <= k < |r| ==> exists i :: 0 <= i < |bids| && Picked(auctions, bids, watchlist, q, now, bids[i]) && r[k] == RowOf(auctions, bids, bids[i])) &&
      (forall i :: 0 <= i < |bids| && Picked(auctions, bids, watchlist, q, now, bids[i]) ==> RowOf(auctions, bids, bids[i]) in r)
  {
    var p := PickedBids(auctions, bids, watchlist, q, now);
    var r := RowsOf(auctions, bids, p);
    assert forall k :: 0 <= k < |r| ==> r[k] == RowOf(auctions, bids, p[k]) && p[k] in bids;
    forall i | 0 <= i < |bids| && Picked(auctions, bids, watchlist, q, now, bids[i]) ensures RowOf(auctions, bids, bids[i]) in r {
      var k :| 0 <= k < |p| && p[k] == bids[i];
      assert r[k] == RowOf(auctions, bids, bids[i]);
    }
  }

  /** The rows come newest first. */
  lemma MyRowsNewestFirst(auctions: map<nat, Auction>, bids: seq<Bid>, watchlist: seq<WatchEntry>, q: MyQuery, now: int)
    requires InsertionOrder(bids)
    ensures var r := MyRows(auctions, bids, watchlist, q, now);
      forall i, j :: 0 <= i < j < |r| ==> r[i].bid.createdAt >= r[j].bid.createdAt
  {
    var newest := Lists.Reverse(bids);
    var n := |bids|;
    var later := (x: Bid, y: Bid) => x.createdAt >= y.createdAt;
    forall i, j | 0 <= i < j < n ensures later(newest[i], newest[j]) {
      assert newest[i] == bids[n - 1 - i] && newest[j] == bids[n - 1 - j];
    }
    Lists.FilterKeepsPairs(newest, (b: Bid) => Picked(auctions, bids, watchlist, q, now, b), later);
  }

  /** `COUNT(DISTINCT a.id)` over the picked bids. */
  function MyBidsTotal(auctions: map<nat, Auction>, bids: seq<Bid>, watchlist: seq<WatchEntry>, q: MyQuery, now: int): nat {
    |set i | 0 <= i < |bids| && Picked(auctions, bids, watchlist, q, now, bids[i]) :: bids[i].auctionId|
  }

  datatype EntryStatus = EntryActive | EntryWon | EntryLost

  /** One element of the answer's `bids`: an auction and the user's bid on it. */
  datatype MyBidEntry = MyBidEntry(
    auctionId: nat, title: string, image: Option<string>, startingPrice: int, currentBid: int,
    highestBid: int, endsAt: int, bidCount: nat, userBid: Bid, status: EntryStatus)

  /** JavaScript `x || y` on a number: zero is falsy. */
  function OrElse(x: int, y: int): (r: int)
    ensures x != 0 ==> r == x
    ensures x == 0 ==> r == y
  {
    if x != 0 then x else y
  }

  /**
   * The entry built from a row: the current bid falls back to the starting
   * price, the highest bid to that current bid, and the status is `active`
   * while the auction runs, else `won` when the user's amount is the highest
   * and `lost` otherwise.
   */
  function EntryOf(row: BidRow, now: int): (e: MyBidEntry)
    ensures e.auctionId == row.bid.auctionId && e.userBid == row.bid && e.title == row.title
    ensures e.image == FirstImage(row.images)
    ensures e.status == EntryActive <==> row.endsAt > now
    ensures e.status == EntryWon <==> row.endsAt <= now && row.highestBid == Some(row.bid.amount)
    ensures e.startingPrice == row.startingPrice && e.endsAt == row.endsAt && e.bidCount == row.bidCount
    ensures e.currentBid == (if row.currentBid != 0 then row.currentBid else row.startingPrice)
    ensures row.highestBid.Some? && row.highestBid.value != 0 ==> e.highestBid == row.highestBid.value
    ensures row.highestBid.None? || row.highestBid.value == 0 ==> e.highestBid == e.currentBid
  {
    MyBidEntry(row.bid.auctionId, row.title, FirstImage(row.images), row.startingPrice,
               OrElse(row.currentBid, row.startingPrice),
               if row.highestBid.Some? && row.highestBid.value != 0 then row.highestBid.value else OrElse(row.currentBid, row.startingPrice),
               row.endsAt, row.bidCount, row.bid,
               if row.endsAt > now then EntryActive else if row.highestBid == Some(row.bid.amount) then EntryWon else EntryLost)
  }

  /** Row `i` is the first row of its auction. */
  predicate IsFirstRow(rows: seq<BidRow>, i: nat)
    requires i < |rows|
  {
    forall j :: 0 <= j < i ==> rows[j].bid.auctionId != rows[i].bid.auctionId
  }

  /** The first rows of each auction among `rows[..n]`, by auction id, as `auctionMap` holds them. */
  ghost predicate FirstRows(rows: seq<BidRow>, n: nat, now: int, m: map<nat, MyBidEntry>)
    requires n <= |rows|
  {
    (forall id :: id in m ==> m[id].auctionId == id && exists j :: 0 <= j < n && IsFirstRow(rows, j) && m[id] == EntryOf(rows[j], now)) &&
    (forall j :: 0 <= j < n ==> rows[j].bid.auctionId in m)
  }

  /**
   * `entries` is `Object.values(auctionMap)`: one entry per auction of the
   * rows, built from that auction's first row, in ascending auction id
   * (the order of integer keys).
   */
  ghost predicate GroupedFrom(rows: seq<BidRow>, now: int, entries: seq<MyBidEntry>) {
    (forall i, j :: 0 <= i < j < |entries| ==> entries[i].auctionId < entries[j].auctionId) &&
    (forall k :: 0 <= k < |entries| ==> exists i :: 0 <= i < |rows| && IsFirstRow(rows, i) && entries[k] == EntryOf(rows[i], now)) &&
    (forall i :: 0 <= i < |rows| ==> HasEntry(entries, rows[i].bid.auctionId))
  }

  /** Some entry is for auction `id`. */
  ghost predicate HasEntry(entries: seq<MyBidEntry>, id: nat) {
    exists k :: 0 <= k < |entries| && entries[k].auctionId == id
  }

  /** The `forEach` that fills `auctionMap`: the first row of each auction wins. */
  method FillAuctionMap(rows: seq<BidRow>, now: int) returns (auctionMap: map<nat, MyBidEntry>)
    ensures FirstRows(rows, |rows|, now, auctionMap)
  {
    auctionMap := map[];
    var i := 0;
    while i < |rows|
      invariant 0 <= i <= |rows|
      invariant FirstRows(rows, i, now, auctionMap)
    {
      var id := rows[i].bid.auctionId;
      if id !in auctionMap {
        assert IsFirstRow(rows, i);
        auctionMap := auctionMap[id := EntryOf(rows[i], now)];
      }
      i := i + 1;
    }
  }

  /** `Object.values` lists the entries of a map filled from the first rows by ascending key. */
  lemma ValuesGrouped(rows: seq<BidRow>, now: int, auctionMap: map<nat, MyBidEntry>, keys: seq<nat>, entries: seq<MyBidEntry>)
    requires FirstRows(rows, |rows|, now, auctionMap)
    requires keys == Lists.Ascending(auctionMap.Keys)
    requires |entries| == |keys| && forall k :: 0 <= k < |keys| ==> entries[k] == auctionMap[keys[k]]
    ensures GroupedFrom(rows, now, entries)
  {
    forall j | 0 <= j < |rows| ensures HasEntry(entries, rows[j].bid.auctionId) {
      var id := rows[j].bid.auctionId;
      assert id in auctionMap.Keys;
      assert id in keys;
      var p :| 0 <= p < |keys| && keys[p] == id;
      assert entries[p].auctionId == id;
    }
    forall k | 0 <= k < |entries| ensures exists i :: 0 <= i < |rows| && IsFirstRow(rows, i) && entries[k] == EntryOf(rows[i], now) {
      assert keys[k] in auctionMap;
    }
    forall i, j | 0 <= i < j < |entries| ensures entries[i].auctionId < entries[j].auctionId {
      assert entries[i].auctionId == keys[i] && entries[j].auctionId == keys[j];
    }
  }

  /** `auctionMap` filled row by row, then `Object.values(auctionMap)`. */
  method GroupByAuction(rows: seq<BidRow>, now: int) returns (entries: seq<MyBidEntry>)
    ensures GroupedFrom(rows, now, entries)
  {
    var auctionMap := FillAuctionMap(rows, now);
    var keys := Lists.Ascending(auctionMap.Keys);
    entries := seq(|keys|, k requires 0 <= k < |keys| => auctionMap[keys[k]]);
    ValuesGrouped(rows, now, auctionMap, keys, entries);
  }

  datatype MyBidsAnswer = MyBidsAnswer(bids: seq<MyBidEntry>, pagination: Paging.PageMeta)

  /**
   * GET /my-bids: page and limit default to 1 and 10; the page of rows is
   * cut before grouping, so an auction can show on two pages; `totalPages`
   * is at least 1.
   */
  method MyBids(auctions: map<nat, Auction>, bids: seq<Bid>, watchlist: seq<WatchEntry>, user: nat,
                rawTab: Option<string>, search: string, rawPage: Option<int>, rawLimit: Option<int>, now: int)
    returns (r: Result<MyBidsAnswer, Paging.QueryError>)
    ensures var page, limit := Paging.IntOr(rawPage, 1), Paging.IntOr(rawLimit, 10);
      var q := MyQuery(user, TabOf(rawTab), search);
      var rows := MyRows(auctions, bids, watchlist, q, now);
      (r.Err? <==> limit < 0 || page < 1) &&
      (r.Ok? ==>
        limit > 0 &&
        r.value.pagination == Paging.Meta(page, limit, MyBidsTotal(auctions, bids, watchlist, q, now), true) &&
        Paging.LimitOffset(rows, limit, (page - 1) * limit).Ok? &&
        GroupedFrom(Paging.LimitOffset(rows, limit, (page - 1) * limit).value, now, r.value.bids))
  {
    var page, limit := Paging.IntOr(rawPage, 1), Paging.IntOr(rawLimit, 10);
    var q := MyQuery(user, TabOf(rawTab), search);
    var rows := MyRows(auctions, bids, watchlist, q, now);
    if limit > 0 { Paging.OffsetSign(page, limit); }
    var window := Paging.LimitOffset(rows, limit, (page - 1) * limit);
    assert window.Err? <==> limit < 0 || page < 1;
    if window.Err? {
      r := Err(window.error);
    } else {
      assert limit > 0;
      var entries := GroupByAuction(window.value, now);
      var total := MyBidsTotal(auctions, bids, watchlist, q, now);
      r := Ok(MyBidsAnswer(entries, Paging.Meta(page, limit, total, true)));
    }
  }

  /**
   * Under the ledger invariant, `won` on an ended auction means the user's
   * newest bid there was the auction's active, highest bid: the highest bid
   * id of an auction is its last bid.
   */
  lemma WonTabBidIsHighest(auctions: map<nat, Auction>, bids: seq<Bid>, a: nat, k: nat)
    requires LedgerOk(auctions, bids) && a in auctions
    requires k < |bids| && bids[k].auctionId == a && MaxIdOf(bids, a, None) == Some(bids[k].id)
    ensures bids[k].status == ActiveBid && auctions[a].currentBid == Some(bids[k].amount)
    ensures forall j :: 0 <= j < |bids| && bids[j].auctionId == a && j != k ==> bids[j].amount < bids[k].amount
  {
    assert IsLastOf(bids, k);
    ActiveBidIsUniqueMaximum(auctions, bids, a, k);
  }

  /**
   * For the user's bid on an ended auction, the entry says `won` exactly when
   * that bid is the auction's active bid (amounts strictly increase, so only
   * the active bid reaches the maximum).
   */
  lemma EntryWonIffActive(auctions: map<nat, Auction>, bids: seq<Bid>, k: nat, now: int)
    requires LedgerOk(auctions, bids) && k < |bids|
    requires auctions[bids[k].auctionId].endsAt <= now
    ensures EntryOf(RowOf(auctions, bids, bids[k]), now).status == EntryWon <==> bids[k].status == ActiveBid
  {
    var a := bids[k].auctionId;
    var j := LastOf(bids, k);
    LastBidIsMax(bids, a, j);
    if k != j {
      assert bids[k].amount < bids[j].amount && bids[k].status == Outbid;
    }
  }

  /** While an auction runs, the user's newest bid on it always shows on the active tab. */
  lemma ActiveTabShowsNewest(auctions: map<nat, Auction>, bids: seq<Bid>, watchlist: seq<WatchEntry>, user: nat, now: int, k: nat)
    requires k < |bids| && bids[k].userId == user && bids[k].auctionId in auctions
    requires auctions[bids[k].auctionId].endsAt > now
    requires MaxIdOf(bids, bids[k].auctionId, Some(user)) == Some(bids[k].id)
    ensures RowOf(auctions, bids, bids[k]) in MyRows(auctions, bids, watchlist, MyQuery(user, ActiveTab, []), now)
  {
    assert Picked(auctions, bids, watchlist, MyQuery(user, ActiveTab, []), now, bids[k]);
    MyRowsMembers(auctions, bids, watchlist, MyQuery(user, ActiveTab, []), now);
  }

  // ---------------------------------------------------------------------
  // GET /counts

  datatype Counts = Counts(activeBids: nat, wonAuctions: nat, watchlist: nat)

  /** The three counters: distinct auctions on the active and won conditions, and the user's watchlist rows. */
  function CountsOf(auctions: map<nat, Auction>, bids: seq<Bid>, watchlist: seq<WatchEntry>, user: nat, now: int): Counts {
    Counts(
      |set i | 0 <= i < |bids| && bids[i].userId == user && bids[i].auctionId in auctions
               && InTab(ActiveTab, auctions, bids, watchlist, user, bids[i], now) :: bids[i].auctionId|,
      |set i | 0 <= i < |bids| && bids[i].userId == user && bids[i].auctionId in auctions
               && InTab(WonTab, auctions, bids, watchlist, user, bids[i], now) :: bids[i].auctionId|,
      Lists.Count(watchlist, (w: WatchEntry) => w.userId == user))
  }

  /** The counters agree with the totals of the active and won tabs without a search. */
  lemma CountsMatchTabs(auctions: map<nat, Auction>, bids: seq<Bid>, watchlist: seq<WatchEntry>, user: nat, now: int)
    ensures CountsOf(auctions, bids, watchlist, user, now).activeBids == MyBidsTotal(auctions, bids, watchlist, MyQuery(user, ActiveTab, []), now)
    ensures CountsOf(auctions, bids, watchlist, user, now).wonAuctions == MyBidsTotal(auctions, bids, watchlist, MyQuery(user, WonTab, []), now)
  {
    var s1 := set i | 0 <= i < |bids| && bids[i].userId == user && bids[i].auctionId in auctions
               && InTab(ActiveTab, auctions, bids, watchlist, user, bids[i], now) :: bids[i].auctionId;
    var t1 := set i | 0 <= i < |bids| && Picked(auctions, bids, watchlist, MyQuery(user, ActiveTab, []), now, bids[i]) :: bids[i].auctionId;
    assert s1 == t1;
    var s2 := set i | 0 <= i < |bids| && bids[i].userId == user && bids[i].auctionId in auctions
               && InTab(WonTab, auctions, bids, watchlist, user, bids[i], now) :: bids[i].auctionId;
    var t2 := set i | 0 <= i < |bids| && Picked(auctions, bids, watchlist, MyQuery(user, WonTab, []), now, bids[i]) :: bids[i].auctionId;
    assert s2 == t2;
  }
}
