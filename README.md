# BidMaster auction marketplace, modelled in Dafny

BidMaster is an online auction site. Sellers list items, an administrator
verifies each listing before it goes live, and buyers bid against one
another until the auction ends by timer or the seller sells early. The
server is a set of Express routes over PostgreSQL tables (auctions, bids,
watchlist), plus a background worker that ends expired auctions. The
browser pages classify, page, search and format what those routes return.

This project models:

- **The auction store and bid ledger** (`market.dfy`, `store.dfy`). One
  `MarketStore.Store` class holds the auctions table (a map from id to
  record), the bids table and the watchlist (sequences in insertion order),
  the id counters and the clock.
  - Each state-changing route is a method: bid placement with its ordered
    guards and its three-step transaction, create, verify, sell-now,
    relist, the expiry sweep and the watchlist add/remove/check.
  - Every method keeps the store invariant `StoreOk`. Its core is the
    ledger invariant: per auction, accepted amounts strictly increase in
    insertion order, the last bid is the only `active` one, and the
    auction's `current_bid` and `bid_count` agree with the ledger.
- **The read projections** (`auction_queries.dfy`, `bid_queries.dfy`,
  `watchlist_queries.dfy`, `search.dfy`, `paging.dfy`): the listings
  search, the category counts, the verification queue, the bid history,
  the my-bids grouping, the tab counts and the watchlist page. Each is a
  pure function of the tables and `now`.
- **The browser helpers** of the public pages and the admin pages
  (`my_listings.dfy`, `item_details.dfy`, `listings_page.dfy`,
  `countdown.dfy`, `bidders.dfy`, `create_listing.dfy`, `my_bids.dfy`,
  `home.dfy`, `login.dfy`, `profile.dfy`, `user_account.dfy`,
  `verification_page.dfy`, `auction_review.dfy`, `dashboard.dfy`,
  `money.dfy`).
  - Pure formatters and classifiers are functions.
  - Page objects that keep state between events are classes: the
    my-listings buckets, the listings filters, the bid panel, the
    create-listing form, the my-bids search and the sign-in session.

**Units.**
- Money is integer cents. The "+1" of the minimum-bid rule is one
  currency unit, `MinIncrement = 100`.
- Time is integer milliseconds, with a day of 86 400 000 ms.
- Each request reads the clock once, so the store's `now` field stands for
  the database's `NOW()` in that request.

`text.dfy`, `lists.dfy`, `sorting.dfy` and `wrappers.dfy` are generic
helpers over strings and sequences.

**The model follows the code as written:**
- sell-now, verify and relist do not check the auction's current status
  first (server/auctionRoutes.js:676-700, 234-245, 739-756).
- The listings route counts its total with a different match than it uses
  for its rows. AuctionQueries.ListingsTotalAsWritten is that count as the
  route computes it; AuctionQueries.Listings answers with the corrected
  count, the number of matching auctions. See Findings.

## Model

| member | source | states |
|---|---|---|
| Market.FirstImage | server/watchlistRoutes.js:158 | no image exactly when the list is empty, otherwise the first image |
| Market.SeqMax | server/bidRoutes.js:52-57 | SQL `MAX`: NULL exactly for no rows, otherwise a member that bounds every row |
| Market.MarkOutbid | server/bidRoutes.js:76-79 | the `outbid` update keeps the length, marks every bid of the auction outbid and leaves every other bid unchanged |
| Market.MarkOutbidKeepsAmounts | server/bidRoutes.js:76-79 | the status update changes no auction's amounts, so neither its count nor its maximum |
| Market.AmountsOfAppend | server/bidRoutes.js:84-87 | inserting a bid adds its amount to its own auction's amounts only |
| Market.AmountsOfMembers | server/bidRoutes.js:52-57 | the amounts an auction's `MAX(amount)` ranges over are exactly those of its bids |
| Market.AcceptedIff | server/bidRoutes.js:16-65 | a bid is accepted if and only if both fields are present (an auction id of 0 counts as missing, as `!auctionId` does), the amount is positive, the auction exists, is active, has not passed `ends_at`, is not the bidder's own, and the amount reaches `max(starting_price, highest + 1)`; an accepted amount beats every earlier bid of the auction |
| Market.InputRefusedBeforeLookup | server/bidRoutes.js:16-24 | a missing field (including the falsy auction id 0) or a non-positive amount is refused whatever the tables hold, with 'required' before 'positive' |
| Market.MinimumIsInclusive | server/bidRoutes.js:57-65 | an amount equal to the minimum is accepted and one below it is refused with that minimum |
| Market.AcceptedBidsShape | server/bidRoutes.js:75-87 | after acceptance the new bid is last, the auction's earlier bids are outbid, other auctions' bids are untouched and the auction's count grew by one |
| Market.AcceptKeepsLedger | server/bidRoutes.js:67-117 | an accepted bid keeps the ledger invariant: bids belong to known auctions and are not the seller's, amounts strictly increase per auction, only the last bid is active, ids and times follow insertion, `bid_count`/`current_bid` are the count and maximum |
| Market.AcceptKeepsKnownAndOrder | server/bidRoutes.js:84-87 | the inserted row keeps bids on known auctions, non-seller and in id/time order |
| Market.AcceptKeepsIncreasing | server/bidRoutes.js:58-87 | amounts stay strictly increasing per auction and every bid before the last is outbid |
| Market.AcceptKeepsLastActive | server/bidRoutes.js:76-87 | the last bid of every auction stays `active` |
| Market.AcceptKeepsCounters | server/bidRoutes.js:91-97 | the rewritten `current_bid` and `bid_count` are the maximum and count of the auction's bids |
| Market.LastBidIsMax | server/bidRoutes.js:52-58 | under increasing amounts the last bid of an auction carries its `MAX(amount)` |
| Market.ActiveBidIsUniqueMaximum | server/bidRoutes.js:76-97 | under the invariant an active bid is the auction's unique maximum, every other bid is outbid, and it equals `current_bid` |
| Market.ActiveBidExists | server/bidRoutes.js:76-87 | an auction has an active bid if and only if it has bids |
| Market.LastOf | server/bidRoutes.js:76-87 | every bid has a last bid of the same auction at or after it |
| Market.HighestBid | server/auctionRoutes.js:686-694 | no row exactly when the auction has no bids, otherwise a bid of the auction whose amount bounds all of its bids |
| Market.HighestBidIsActive | server/auctionRoutes.js:686-700 | under the invariant the bid sell-now sells to is the active one and its amount is `current_bid` |
| Market.NullIfEmpty | server/auctionRoutes.js:247 | null exactly for a missing or empty text, otherwise the text |
| Market.ValidateImages | server/auctionRoutes.js:8-13 | a missing or empty list becomes the single placeholder, any other list is kept; the result is never empty |
| Market.SweepProperties | server/server.js:73-78 | the sweep ends exactly the active auctions past `ends_at`, writes only their status, keeps every id, leaves no expired active auction, and a second sweep changes nothing |
| Market.SweepKeepsLedger | server/server.js:73-78 | the sweep keeps the ledger invariant |
| Market.IsWatchedIff | server/watchlistRoutes.js:29-36 | the duplicate check finds a row if and only if the pair is in the table |
| Market.Unwatch | server/watchlistRoutes.js:63-66 | the delete keeps exactly the rows that are not the pair and never grows the table |
| Market.UnwatchPairs | server/watchlistRoutes.js:63-70 | the delete takes that pair, and only it, out of the set of watched pairs, and keeps pairs unique |
| Market.UnwatchIsFilter | server/watchlistRoutes.js:63-66 | the delete is the filter that keeps the other rows in their order |
| Market.UnwatchNoDup | server/watchlistRoutes.js:28-42 | the delete keeps the table free of duplicate pairs |
| MarketStore.MarkOutbidRows | server/bidRoutes.js:76-79 | the row-by-row update computes `MarkOutbid` |
| MarketStore.SweepRows | server/server.js:73-78 | the row-by-row sweep computes `Swept` |
| MarketStore.RowEditKeepsLedger | server/auctionRoutes.js:699 | rewriting an auction row without touching seller, count or current bid keeps the ledger invariant |
| MarketStore.InsertKeepsLedger | server/auctionRoutes.js:286-290 | a new auction row with no bids keeps the ledger invariant |
| MarketStore.NoBidsOfUnknown | server/auctionRoutes.js:286-290 | an id not yet in the table has no bids |
| MarketStore.RowEditKeepsStore | server/auctionRoutes.js:754 | a row edit keeps the store invariant |
| MarketStore.InsertKeepsStore | server/auctionRoutes.js:286-290 | the next serial id is unused and inserting under it keeps the store invariant |
| MarketStore.SweepKeepsStore | server/server.js:73-78 | the sweep keeps the store invariant |
| MarketStore.CommitKeepsStore | server/bidRoutes.js:67-117 | the committed transaction keeps the store invariant |
| MarketStore.SkippedBidId | server/bidRoutes.js:84-87 | a bid id drawn by an insert that is rolled back leaves the store invariant intact |
| MarketStore.PlaceBidKeepsStore | server/bidRoutes.js:67-117 | an accepted bid keeps the store invariant |
| MarketStore.AppendKeepsWatch | server/watchlistRoutes.js:39-42 | a new pair appended with the next id and the current time keeps the watchlist unique and ordered, and adds exactly that pair |
| MarketStore.UnwatchKeepsOrder | server/watchlistRoutes.js:63-66 | the delete keeps the watchlist in creation order |
| MarketStore.Store.Tick | server/bidRoutes.js:41 | the clock moves forward to the given time and the store invariant is kept |
| MarketStore.Store.PlaceBid | server/bidRoutes.js:9-154 | the first failing guard is returned and nothing changes; a failed transaction changes no table; otherwise the bid is inserted as active with the next id, the auction's earlier bids are outbid and its `current_bid` and `bid_count` rewritten; the bid id sequence advances by one once the insert has run (a refused insert, a commit or a failed commit), and not on a rejection or a refused outbid update; the store invariant is kept |
| MarketStore.Store.BidTransaction | server/bidRoutes.js:67-145 | a failing statement rolls both tables back; a commit leaves exactly the accepted ledger and auction row; the id drawn by the insert is used up whenever the insert runs, refused or not, and on a commit or failed commit, but not when the outbid update before it fails |
| MarketStore.Store.Commit | server/bidRoutes.js:84-117 | the commit writes the marked bids plus the new bid and the rewritten auction row, and uses one bid id |
| MarketStore.Store.SellNow | server/auctionRoutes.js:670-718 | not the owner's auction: refused; no bids: refused; otherwise final price and buyer from the highest bid, `ends_at` now, status ended, and nothing else changes |
| MarketStore.Store.Relist | server/auctionRoutes.js:721-771 | a missing, unparsable or non-positive duration is refused before ownership; otherwise the row gets new dates, goes back to verification and loses its verification stamp |
| MarketStore.Store.Verify | server/auctionRoutes.js:228-257 | an unknown id changes nothing; otherwise status, notes and reasons (empty as null) and the verification stamp are written whatever the current status |
| MarketStore.Store.Create | server/auctionRoutes.js:260-317 | an unparsable duration makes the insert fail; otherwise the row is added under the next id, pending verification, a zero or missing reserve stored as null, images validated, no bids |
| MarketStore.Store.ExpirySweep | server/server.js:71-83 | the auction table becomes exactly `Swept` of the old one and the store invariant is kept |
| MarketStore.Store.WatchAdd | server/watchlistRoutes.js:9-53 | a missing or falsy (0) id, an unknown auction or an existing pair is refused in that order; otherwise the row is appended and its pair added |
| MarketStore.Store.WatchRemove | server/watchlistRoutes.js:58-81 | a pair not in the table gives not-found; otherwise its row is deleted; either way the pair is no longer watched |
| MarketStore.Store.WatchCheck | server/watchlistRoutes.js:86-104 | the answer is true if and only if the pair is watched |
| AuctionQueries.Scan | server/auctionRoutes.js:385-386 | the table scan lists exactly the rows below the bound, each with its record, in ascending id |
| AuctionQueries.PriceShown | server/auctionRoutes.js:480 | a present non-zero `current_bid` is shown, otherwise the starting price |
| AuctionQueries.ListingsContents | server/auctionRoutes.js:321-491 | page and limit default to 1 and 12; the answer is an error exactly for a negative limit or a page below 1; every listed row is a live auction of the table inside the category, price and search filters, with the price fallback and its bid count |
| AuctionQueries.AnswerPageShape | server/auctionRoutes.js:323-491 | the answer of GET /listings is this page of the sorted matches: exactly `limit` rows from offset `(page-1)*limit`, clipped to the matches, each with its price fallback and bid count; `pagination` carries that page and limit, the number of matches as `total` (the corrected count, see Findings), and `hasNextPage` exactly when matches lie beyond the page |
| AuctionQueries.MatchingComplete | server/auctionRoutes.js:386-461 | a row is among the matches if and only if it passes the filters, every match is a table row, and the matches are in the order of the requested sort, unknown sorts as ending-soon |
| AuctionQueries.ListingsTotalMismatch | server/auctionRoutes.js:363-367 | for the search "red car" and a live auction titled "red", the count query as written counts nothing while the rows query returns that auction |
| AuctionQueries.RedNotCounted | server/auctionRoutes.js:363-367 | the whole-string `ILIKE '%red car%'` does not match the title "red" |
| AuctionQueries.RedListed | server/auctionRoutes.js:407-438 | the per-term search of the rows query lists the auction titled "red" |
| AuctionQueries.RedCarTerms | server/auctionRoutes.js:413-417 | "red car" normalises to the terms "red" and "car" |
| AuctionQueries.ListingsTotalCoversRows | server/auctionRoutes.js:483-490 | corrected: `total` counts the very matches the rows come from, so every match lies on a page between 1 and `totalPages` |
| AuctionQueries.CategoryCounts | server/auctionRoutes.js:544-565 | a category has an entry if and only if some live auction has it; each entry is the number of live auctions of that category, so at least 1 |
| AuctionQueries.LiveCategoriesIff | server/auctionRoutes.js:547-553 | the grouped categories are exactly those of live rows |
| AuctionQueries.CategoryCountMatchesListings | server/auctionRoutes.js:544-565 | the count shown for a category equals the number of listings the listings route finds for that category alone |
| AuctionQueries.QueueOrder | server/auctionRoutes.js:166-179 | the queue holds exactly the pending auctions and those accepted, rejected or sent back in the last five minutes; pending come first, decided ones run from the latest decision back |
| AuctionQueries.QueueSorted | server/auctionRoutes.js:173-179 | in the `CASE` / `verified_at DESC NULLS LAST` order, no decided auction precedes a pending one and decision times do not increase |
| AuctionQueries.QueuePage | server/auctionRoutes.js:147-195 | page and limit default to 1 and 10; an error exactly for a negative limit or a page below 1; otherwise the page is the run of the ordered queue at `(page - 1) * limit`, `total` is the queue length, next-page iff `page * limit < total`, previous-page iff `page > 1` |
| Search.SearchTerms | server/auctionRoutes.js:413-417 | every term has more than two characters, no space, no upper-case letter, no `-` or `_` |
| Search.SearchTermsAppend | server/auctionRoutes.js:413-417 | the terms of two texts joined by a space are the terms of the first followed by the terms of the second |
| Search.SearchTermsOfWord | server/auctionRoutes.js:413-417 | a text without whitespace, `-` or `_` is one term, lower-cased, when longer than two characters, and no term otherwise |
| Search.SearchTermsOfWords | server/auctionRoutes.js:413-417 | the terms of words joined by spaces are exactly those words, lower-cased, longer than two characters, in order |
| Search.PreprocessSearch | js/listings.js:819-823 | the result has no leading or trailing space and contains no upper-case letter, `-` or `_` |
| Search.PreprocessIdempotent | js/listings.js:819-823 | normalising a normalised search changes nothing |
| Paging.CeilDiv | server/auctionRoutes.js:487 | `Math.ceil(total / limit)`: the least page count whose pages hold every row |
| Paging.PageCountOrOne | js/my-listings.js:261 | `Math.ceil(n / perPage) or 1`: at least one page, the ceiling when the list is not empty |
| Paging.SliceBound | js/my-listings.js:929-932 | a `slice` bound is clipped into the list |
| Paging.PaginateIsClippedRange | js/my-listings.js:929-932 | for a page of at least 1, `paginate` is the elements from `(page-1)*perPage` to `page*perPage`, clipped to the list |
| Paging.EveryElementOnItsPage | js/my-listings.js:261-262 | every element is on page `i / perPage + 1`, which is a page between 1 and the page count |
| Paging.OffsetSign | server/auctionRoutes.js:326 | `(page - 1) * limit` is negative exactly when the page is below 1 |
| Paging.PageOfRows | server/auctionRoutes.js:466-467 | `LIMIT`/`OFFSET` of a page is refused exactly for a negative limit or page below 1, else holds at most `limit` rows, the ones from the offset on |
| Paging.LimitOffset | server/auctionRoutes.js:466 | PostgreSQL refuses a negative `LIMIT` or `OFFSET`; otherwise the length is the clipped limit and row `k` is row `offset + k` |
| Paging.IntOr | server/auctionRoutes.js:324-325 | `parseInt(raw) or fallback`: a present non-zero value is kept, a missing or zero one becomes the fallback, and the result is non-zero for a non-zero fallback |
| Paging.Meta | server/auctionRoutes.js:483-490 | `totalPages` is the ceiling of `total / limit` (at least 1 where the route adds `or 1`), next-page iff `page * limit < total`, previous-page iff `page > 1` |
| Paging.CeilCompare | server/auctionRoutes.js:488 | `page < Math.ceil(total / limit)` exactly when a full page `page` leaves rows over |
| Paging.PageOfIndex | server/auctionRoutes.js:487 | row `i` is on a page between 1 and the page count |
| Paging.PageWindow | js/my-listings.js:323-330 | for at least one page, the window is `min(5, total)` pages within 1..total and contains the current page when that is a real page |
| Paging.ListingsWindowIsPageWindow | js/listings.js:573-578 | the extra `startPage > 1` test of the listings page gives the same window as the other pages |
| Paging.NumbersLength | js/my-listings.js:353-367 | the button loop makes one button per page of the window |
| Paging.NumbersAt | js/my-listings.js:353-356 | button `k` is page `lo + k`, active exactly if it is the current page |
| Paging.NumberButtons | js/my-listings.js:353-367 | the loop appends buttons lo..hi in order, the current one active |
| Paging.PageBarButtons | js/my-listings.js:298-402 | every numbered button is a page between 1 and the last, active exactly on the current page, and page 1 and the last page are always on the bar |
| Paging.BarPieces | js/my-listings.js:332-387 | a numbered item of the bar is a window button, page 1 before the window's start or the last page after its end |
| Paging.NumbersButtons | js/my-listings.js:353-356 | the window's buttons are pages of the window, each active exactly when it is the current page |
| BidQueries.History | server/bidRoutes.js:163-171 | the history holds exactly the bids of the auction |
| BidQueries.HistoryCount | server/bidRoutes.js:163-171 | the history has one entry per bid of the auction |
| BidQueries.HistoryOrdered | server/bidRoutes.js:169 | newest first: creation times do not increase, amounts strictly fall, all but the first are outbid |
| BidQueries.HistoryNewestFirst | server/bidRoutes.js:159-185 | under the ledger invariant the first entry is the active bid carrying `current_bid`, every later one is outbid, amounts strictly fall |
| BidQueries.MaxIdOf | server/bidRoutes.js:214 | `MAX(id)` over the auction's bids (of the user when given): NULL exactly when there are none, else the largest id of such a bid |
| BidQueries.RowOf | server/bidRoutes.js:249-264 | the joined row carries the bid, the auction's title and `ends_at`, `COALESCE(current_bid, starting_price)`, and the count and maximum of the auction's bids |
| BidQueries.PriceShownOf | server/bidRoutes.js:259 | `COALESCE(current_bid, starting_price)` |
| BidQueries.RowsOf | server/bidRoutes.js:249-264 | one joined row per picked bid, in order |
| BidQueries.PickedBids | server/bidRoutes.js:208-246 | the picked bids are exactly the user's bids that pass the tab condition and the title search |
| BidQueries.MyRowsMembers | server/bidRoutes.js:249-267 | each row is a picked bid joined with its auction and every picked bid has its row |
| BidQueries.MyRowsNewestFirst | server/bidRoutes.js:266 | the rows come newest bid first |
| BidQueries.OrElse | server/bidRoutes.js:298 | JavaScript `x or y` on a number: zero falls back |
| BidQueries.EntryOf | server/bidRoutes.js:293-310 | the entry is `active` iff the auction has not ended, `won` iff it has and the user's amount is the highest; the first image; the current bid falls back to the starting price when zero, the highest bid to that current bid when missing or zero; starting price, end and bid count are copied |
| BidQueries.FillAuctionMap | server/bidRoutes.js:290-312 | the loop keeps, per auction, the entry of its first row |
| BidQueries.ValuesGrouped | server/bidRoutes.js:315 | `Object.values` of the map lists one entry per auction of the rows, from its first row, in ascending auction id |
| BidQueries.GroupByAuction | server/bidRoutes.js:289-315 | the grouped entries are one per auction of the rows, from its first row, in ascending auction id |
| BidQueries.MyBids | server/bidRoutes.js:196-327 | page and limit default to 1 and 10; an error exactly for a negative limit or page below 1; otherwise the page of rows is cut before grouping and `totalPages` is at least 1 |
| BidQueries.WonTabBidIsHighest | server/bidRoutes.js:220 | under the ledger invariant the bid with the auction's highest id is its active, highest bid, carrying `current_bid` |
| BidQueries.EntryWonIffActive | server/bidRoutes.js:308-309 | for an ended auction the entry says `won` exactly when the user's bid is the active one |
| BidQueries.ActiveTabShowsNewest | server/bidRoutes.js:213-215 | while an auction runs, the user's newest bid on it is on the active tab |
| BidQueries.CountsMatchTabs | server/bidRoutes.js:336-378 | the active and won counters equal the totals of the active and won tabs without a search |
| WatchlistQueries.WatchRowOf | server/watchlistRoutes.js:154-164 | the answer row carries the entry's ids and date, the auction's title, first image, price fallback and bid count |
| WatchlistQueries.WatchRowsOf | server/watchlistRoutes.js:154-164 | one answer row per entry, in order |
| WatchlistQueries.WatchedNewestFirst | server/watchlistRoutes.js:132-148 | the listed entries are exactly the user's entries on existing auctions matching the search |
| WatchlistQueries.WatchlistContents | server/watchlistRoutes.js:109-173 | page and limit default to 1 and 10; an error exactly for a negative limit or page below 1; otherwise exactly `min(limit, matches - (page-1)*limit)` rows (none past the end), row `k` being the row of the newest-first match at offset `(page-1)*limit + k`, and `pagination` holding the page, the limit, the count of matches as `total`, and the plain ceiling with its next/previous flags |
| WatchlistQueries.WindowRows | server/watchlistRoutes.js:148-164 | the window of answer rows is `min(limit, entries - offset)` long (none past the end) and holds the rows of the entries at its offset, in order |
| WatchlistQueries.WatchlistNewestFirst | server/watchlistRoutes.js:148 | under creation order the answer runs from the newest entry back |
| WatchlistQueries.WatchTotalIsListLength | server/watchlistRoutes.js:120-129 | the count query counts exactly the entries the list pages through |
| MyListings.BucketOfCases | js/my-listings.js:151-194 | a listing is scheduled iff pending and not past its end; unsold iff rejected, sent back, pending past its end, or ended without buyer or final price; sold iff ended with a buyer and not unsold; running otherwise; the inner no-buyer branch is never reached |
| MyListings.BucketsPartition | js/my-listings.js:145-194 | the four tabs together hold every listing exactly once |
| MyListings.TabsSnoc | js/my-listings.js:151-194 | one more listing lands at the end of its own tab and nowhere else |
| MyListings.TabsStep | js/my-listings.js:168-193 | each branch of the loop body pushes the listing onto the tab it names and leaves the others |
| MyListings.SortedByCriteria | js/my-listings.js:202-218 | a tab sorted by a criterion is ordered by ascending end, newest creation, most bids or highest shown price |
| MyListings.SortedTabs | js/my-listings.js:213-217 | every tab is sorted by the key and is a permutation of the tab before |
| MyListings.MyListingsPage.Categorize | js/my-listings.js:145-197 | both copies of the tabs are rebuilt and hold exactly the listings of each bucket in input order; an absent list leaves them empty |
| MyListings.MyListingsPage.SortTabs | js/my-listings.js:202-218 | every shown tab is the sorted old tab, unknown criteria sorting as ending-soon; the originals are untouched |
| MyListings.MyListingsPage.PerformSearch | js/my-listings.js:771-798 | the term is the trimmed lower-cased input; an empty term restores the originals, otherwise every tab is the originals filtered on title, description or category; page 1 |
| MyListings.MyListingsPage.RemoveScheduledAsWritten | js/my-listings.js:908-926 | as written: `token` and the two lists are bound only inside the page callback, so the DELETE is sent only if some other script declares a global `token`, every path ends in the failure alert, and neither list changes |
| MyListings.MyListingsPage.RemoveScheduled | js/my-listings.js:908-926 | as intended, with the page's token and lists in scope: a refused delete alerts and changes nothing; an accepted one drops exactly the listings with that id from both scheduled lists, and the other tabs stay |
| MyListings.RemovedListingLeaves | js/my-listings.js:919-920 | a listing that is in the scheduled list is not in it after the removal, so the list as written, which stays as it was, differs from the intended one |
| MyListings.MyListingsPage.TotalPages | js/my-listings.js:261 | at least one page, the ceiling of length over page size for a non-empty tab |
| MyListings.RemoveDropsOnlyThatId | js/my-listings.js:919-920 | the filtered list has no entry with the id and lost exactly the entries that had it |
| MyListings.MyListingsPage.constructor | js/my-listings.js:16-47 | a fresh page starts on page one, with no search term and all four buckets empty, both as shown and as originals |
| ItemDetails.Suggestions | js/item-details.js:249-252 | four quick bids, all above the shown price and increasing |
| ItemDetails.PanelOf | js/item-details.js:168-260 | the owner's note iff the viewer owns a running auction, the bid form iff another viewer sees a running one, the ended message iff it has ended (status or time); Sell Now iff it has bids; the quick bids are over the shown price |
| ItemDetails.SellNowOnlyForOwner | js/item-details.js:223-238 | Sell Now shows iff the viewer is the seller of a running auction with bids; a visitor without a stored user never sees it |
| ItemDetails.ReserveOf | js/item-details.js:217-219 | no note iff the reserve is missing or zero; met iff the shown price reaches it |
| ItemDetails.BidCountLabel | js/item-details.js:215 | "1 bid" for one, "N bids" otherwise, "0 bids" for a missing count |
| ItemDetails.CheckBid | js/item-details.js:812-839 | not logged in iff no token; invalid iff a token but a missing or non-positive amount; a sent bid is the positive amount |
| ItemDetails.PlaceBidAsWrittenNeverBlocks | js/item-details.js:831-839 | as written, stripping '$' from a '€' text reads the price as NaN, so every positive bid is sent however low |
| ItemDetails.PlaceBidAsWrittenExample | js/item-details.js:831-839 | a bid of 1 euro on an item shown at 100 euros is sent as written |
| ItemDetails.FormatCentsChars | js/item-details.js:176 | the price text after the sign holds only digits and a dot |
| ItemDetails.PlaceBidBlocksLowBids | js/item-details.js:831-839 | corrected: stripping the euro sign, a bid is sent iff it is above the shown price and refused with that price otherwise |
| ItemDetails.PlaceBidOnPage | js/item-details.js:173-213 | corrected: with the price text the page writes, a bid is sent iff it is positive and above the shown price |
| ItemDetails.TextKindPrecedence | js/item-details.js:490-499 | a text option is pickup iff it mentions "pickup", else international iff it mentions "international", else domestic iff it mentions "domestic", ignoring case |
| ItemDetails.LowerUpper | js/item-details.js:491 | lower-casing an upper-cased text is lower-casing it |
| ItemDetails.KindOfUnknown | js/item-details.js:476-503 | a text mentioning none of the three words, an object of another exact type, or any other value is plain shipping |
| ItemDetails.RenderShippingOptions | js/item-details.js:444-518 | an unparsable JSON text gives the error message; a missing, non-array or empty value gives no information; otherwise one entry per option in order, of the option's kind |
| ListingsPage.OrNull | js/listings.js:186-189 | null exactly for the empty text, otherwise the text |
| Text.ParseIntNaN | js/listings.js:280 | `parseInt` reads a number only from a text that holds a digit; any other text is `NaN` |
| Text.ParseIntSign | js/listings.js:280 | only a leading minus sign, after whitespace, makes the number negative |
| Text.ParseIntDigits | js/listings.js:280 | a run of decimal digits followed by a non-digit reads as the value of the digits, whatever follows, except a lone `0` before `x`, which starts a hexadecimal number |
| Text.ParseIntSkipsSpace | js/listings.js:280 | leading whitespace does not change what `parseInt` reads |
| Text.ParseIntMinus | js/listings.js:280 | a leading minus sign negates the number read, and `NaN` stays `NaN` |
| Text.ParseIntOfNat | js/listings.js:280-319 | the decimal text of a page number reads back as that number |
| ListingsPage.ParsedPageDigits | js/listings.js:280 | a page parameter starting with digits reads as their value, whatever follows; a zero page becomes 1 |
| ListingsPage.ParsedPageMinus | js/listings.js:280 | a minus sign before a page that reads as a non-zero number makes the page negative |
| ListingsPage.ParsedPageSkipsSpace | js/listings.js:280 | leading whitespace in the page parameter is skipped |
| ListingsPage.ParsedPageNoDigits | js/listings.js:280 | a page parameter without any digit becomes 1 |
| ListingsPage.SetIf | js/listings.js:296-312 | a key is set exactly when its value is present and non-empty |
| ListingsPage.UrlParams | js/listings.js:287-325 | the sort is always recorded, the page iff it is past the first, the category and search iff set |
| ListingsPage.Read | js/listings.js:244-270 | a present key replaces the field, an absent one leaves it |
| ListingsPage.Page.constructor | js/listings.js:3-6 | no filter, ending soonest first, page 1, twelve cards |
| ListingsPage.Page.ApplyFilters | js/listings.js:170-196 | categories (null when none), prices and search (null when empty), status (null for 'all') as read; page 1; the sort kept; what it builds is well formed |
| ListingsPage.Page.RemoveCategory | js/listings.js:771-777 | drops exactly that category, null once none is left; the other fields kept; page 1 |
| ListingsPage.Page.RemoveField | js/listings.js:781-794 | the named field becomes null, nothing else changes; page 1 |
| ListingsPage.Page.ParseUrlParams | js/listings.js:230-282 | each present key sets its field, the category split at commas; the page reads as `parseInt(page)`, or 1 when that is 0 or `NaN`, so a negative page is kept |
| ListingsPage.UrlRoundTrip | js/listings.js:230-325 | writing a well-formed state into the query string and reading it back restores the filter and the sort; a page up to the first reads back as 1 |
| Countdown.Decompose | js/listings.js:686-689 | the days, hours, minutes and seconds of a positive time difference are each in range and together account for it to the millisecond below the next second |
| Countdown.DecomposeSound | js/home.js:94-97 | the four fields equal the floor-and-remainder formulas the countdowns compute |
| Countdown.DecomposeUnique | js/item-details.js:603-606 | any in-range split that accounts for the difference is the one the countdown shows |
| Countdown.TimerForm | js/listings.js:670-709 | the timer shows Ended exactly when the time is up, days and hours from one day left, hours and minutes from one hour, minutes and seconds below that, and the urgent style exactly under ten minutes |
| Countdown.RenderEnded | js/home.js:87-110 | the rendered text is "Ended" exactly when the end time has passed |
| Countdown.DetailCountdown | js/item-details.js:593-618 | the detail page shows no countdown exactly when the end time has passed, otherwise the four decomposed fields |
| Bidders.Mask | js/item-details.js:769-770 | a masked name keeps its length, its first and last letters, and stars everything between; names of two letters or fewer are shown as they are |
| Bidders.MaskIdempotent | js/bid-manager.js:264-268 | masking twice is masking once, and two names of the same length with the same ends mask to the same text |
| Bidders.DetailBidder | js/item-details.js:763-771 | the current user sees their own name with " (You)", everyone else is masked |
| Bidders.ManagerBidder | js/bid-manager.js:254-272 | the bid list labels the current user's bids " (You)", an empty or missing name as "Anonymous Bidder", and masks all other names |
| Bidders.BidderFormatsAgree | js/bid-manager.js:254-272 | the bid list and the detail page label a named bidder the same way; a missing name on the current user's own bid prints as "null (You)" |
| Bidders.OthersNeverInFull | js/bid-manager.js:264-268 | another bidder's name longer than two letters with any visible inner letter is never shown in full |
| Bidders.CheckForm | js/bid-manager.js:30-52 | without a token the user is asked to sign in, an unreadable amount is refused, an amount below a known minimum is refused, and only the remaining cases send the bid with the typed amount |
| Bidders.BidPanel.UpdateBidUI | js/bid-manager.js:162-187 | after a bid the panel shows the new price, one more bid, and a minimum and placeholder one euro above, which read back as that amount |
| Bidders.NextBidNeedsOneMore | js/bid-manager.js:41-52 | after the panel update, a bid of the old price is refused and a bid one euro higher is sent |
| CreateListing.ValidateForm | js/create-listing.js:209-241 | a missing required field, a price that is not positive and no ticked shipping option are each refused, and a form that passes has a positive price and a shipping option |
| CreateListing.ReserveField | js/create-listing.js:146-147 | an empty reserve field sends no reserve, any other text sends its value |
| CreateListing.EmptyReserveStoredAsNull | server/auctionRoutes.js:298 | an empty reserve field reaches the database as NULL |
| CreateListing.FirstWithUrl | js/create-listing.js:96 | the index found is the first image with that URL, and none exists when no image has it |
| CreateListing.Urls | js/create-listing.js:155 | the submitted image list is the uploaded URLs in upload order |
| CreateListing.ListingForm.UploadSucceeded | js/create-listing.js:58-61 | a finished upload appends its image to the form and leaves the drafts alone |
| CreateListing.ListingForm.RemovePhoto | js/create-listing.js:92-104 | removing a photo deletes the first image with that URL and only it, and nothing when no image has that URL |
| CreateListing.ListingForm.SaveDraft | js/create-listing.js:244-275 | saving appends one draft stamped with the time and titled "Untitled Draft" when the title is empty |
| CreateListing.ListingForm.Submit | js/create-listing.js:122-193 | submission reports the validation error, or no image when none is uploaded, and only a created listing clears the uploaded images |
| CreateListing.FirstIndexUnique | js/create-listing.js:96 | the first-match search is characterised by its index alone |
| CreateListing.RemoveKeepsOthers | js/create-listing.js:96-100 | removing the found photo keeps every other image in its order |
| CreateListing.ListingForm.constructor | js/create-listing.js:40 | a fresh form has no uploaded image and the drafts already stored |
| Dashboard.ChangeText | admin/js/dashboard.js:68-77 | a rise is shown with a plus sign and the positive tone, a fall with a minus sign and the negative tone, no change as "No change" |
| Dashboard.ChangeSignShown | admin/js/dashboard.js:86-95 | a non-zero change starts with its sign and a rise never reads like the equal fall |
| Dashboard.TimeAgoBands | admin/js/dashboard.js:140-157 | each age falls in exactly one band (just now, minutes, hours, yesterday, days, a date) and the counts shown lie within their band |
| Dashboard.StatusClass | admin/js/dashboard.js:117-124 | approved, rejected and more-info styles go with their statuses and every other status gets no class |
| Home.ImageUrl | js/home.js:42-44 | a card shows its first image, or the placeholder when there are none |
| Home.CardEnded | js/home.js:87-110 | a featured card reads "Ended" exactly when its end time has passed |
| Login.CheckRegistration | js/login.js:78-88 | registration refuses different passwords, then passwords shorter than eight characters, and sends the rest |
| Login.ChecksAgreeOnWhatIsSent | js/login.js:78-88 | registration and the password change send on exactly the same inputs; a short mismatched pair is reported differently by the two |
| Login.RefusalText | js/login.js:49 | a refused sign-in shows the server's message, or the default when it sends none |
| Login.Session.Answer | js/login.js:40-49 | a successful answer stores the new token and user; a refusal keeps the stored ones |
| Login.Session.constructor | js/login.js:9 | the session starts from the token and user already stored |
| Money.ParseFloatText | js/item-details.js:833 | a price text that does not start with a digit reads as no number |
| Money.FormatParse | js/bid-manager.js:179 | a price printed with two decimals reads back as the same amount |
| MyBids.ActiveBadge | js/my-bids.js:289-315 | a bid at the highest amount is the highest bidder while the auction runs and waits for the seller once it has ended; any other bid is outbid |
| MyBids.ActionOf | js/my-bids.js:331-337 | only a waiting winner gets the information button, and only the current highest bidder is offered to increase the bid |
| MyBids.NewWatchCount | js/my-bids.js:641 | the watchlist tab count moves by the change and never below zero |
| MyBids.WatchCountRoundTrip | js/my-bids.js:636-664 | adding then removing an item restores the count, and removing from zero stays at zero |
| MyBids.PageButtons | js/my-bids.js:402-457 | the pager is hidden without pagination or with one page; otherwise it shows Previous, one button per page with only the current one active, and Next |
| MyBids.OneActiveButton | js/my-bids.js:402-457 | the shown pager marks exactly the current page active |
| MyBids.MyBidsPage.PerformSearch | js/my-bids.js:672-686 | only a changed trimmed term replaces the search, goes back to page one and fetches once more; the same term changes nothing |
| MyBids.Highlight | js/my-bids.js:702-708 | an empty term leaves the text as it is |
| MyBids.HighlightAbsent | js/my-bids.js:702-708 | a text that does not contain the term, ignoring case, comes back unchanged |
| MyBids.MyBidsPage.constructor | js/my-bids.js:30-31 | the page starts on page one with an empty search term and no fetch made |
| Profile.Capitalise | js/profile.js:166 | the first letter is upper-cased and the rest kept, with the length unchanged |
| Profile.FormatAboutMeAsWritten | js/profile.js:162-175 | the about text as the page formats it: empty stays empty, a text missing its closing punctuation is trimmed and gets a period, any other is only capitalised |
| Profile.AsWrittenNotIdempotent | js/profile.js:162-175 | a lower-case text with one leading space is changed again when formatted a second time |
| Profile.AsWrittenIdempotentWithoutLeadingSpace | js/profile.js:162-175 | without leading whitespace, formatting twice gives the same text as once |
| Profile.FormatAboutMe | js/profile.js:162-175 | the corrected formatter: a non-blank text comes back trimmed, capitalised and ending in a sentence mark, a blank text unchanged |
| Profile.FormatAboutMeIdempotent | js/profile.js:162-175 | formatting the corrected text twice is formatting it once |
| Profile.FormatAboutMeAgrees | js/profile.js:162-175 | on texts without surrounding whitespace the corrected and the written formatter agree |
| Profile.CheckNewPassword | js/profile.js:107-115 | the password change refuses short passwords first, then different confirmations, and sends the rest |
| Profile.MergeUser | js/profile.js:66-71 | the stored user takes every field from the server answer but keeps the old role when the answer has no truthy role |
| Profile.MergeKeepsRole | js/profile.js:273-278 | a stored role is never lost by a merge, and merging the same answer again changes nothing |
| Profile.FirstName | js/profile.js:295 | the greeting uses the full name up to its first space, the whole name when it has none |
| UserAccount.CheckFileWith | js/user-account.js:77-89 | a file whose type is not listed is refused, a listed one over 5 MB is too large, every other is accepted |
| UserAccount.WebpRefusedAsWritten | js/user-account.js:77 | with the list as written, a WebP photo is refused whatever its size |
| UserAccount.WebpAccepted | js/user-account.js:77 | with the corrected list, a WebP photo within the size limit is accepted and every type accepted before still is |
| UserAccount.Initials | js/user-account.js:239-245 | a blank name has no initials; a single word gives its first character as it is; with a space, the upper-cased first character, and a second upper-cased letter exactly when the text after the first space starts with a non-space, at most two |
| UserAccount.InitialsOfTwoNames | js/user-account.js:239-245 | a first and last name give their two upper-cased first letters |
| UserAccount.WithoutPhoto | js/user-account.js:149-151 | removing the photo deletes only the profile image field |
| UserAccount.WithPhoto | js/user-account.js:304-307 | an upload sets the profile image field and keeps every other field |
| UserAccount.RemoveUndoesUpload | js/user-account.js:140-151 | removing the photo after an upload leaves the user as if it had been removed at once, and as before the upload when there was none |
| VerificationPage.GraceExpiry | admin/js/verification.js:318 | the grace period ends five minutes after the decision |
| VerificationPage.GraceTimer | admin/js/verification.js:316-331 | a grace timer is shown exactly for a decided auction whose grace period has not run out, with the minutes and seconds left |
| VerificationPage.GraceAtMostFive | admin/js/verification.js:316-331 | a timer started at or after the decision never shows more than 5:00 |
| VerificationPage.GraceMatchesQueue | server/auctionRoutes.js:166-179 | for an auction in the review queue the page shows a timer exactly when the server still counts it as inside the grace period |
| VerificationPage.StatusLabel | admin/js/verification.js:290-310 | each status gets its label and style, and every other status reads "Unknown" in the pending style |
| VerificationPage.StatusLabelsDistinct | admin/js/verification.js:290-310 | two statuses with the same known label are the same status |
| VerificationPage.FilterAuctions | admin/js/verification.js:235-268 | the filtered list holds exactly the auctions that pass the date and category filters |
| VerificationPage.FilterAllKeepsAll | admin/js/verification.js:235-268 | with every date accepted and category "all" nothing is dropped |
| VerificationPage.TimeAgoUnits | admin/js/verification.js:376-392 | an age is shown in days, hours, minutes or seconds by its size, as the whole number of that unit, and never as zero of a larger unit |
| VerificationPage.QueueWindowBounds | admin/js/verification.js:151-160 | the page buttons lie within the pages, one page when the server reports none, hold at most five and include the current page |
| AuctionReview.DecisionStatus | admin/js/auction-review.js:63-65 | approve, reject and pending map to active, rejected and more_info, and anything else back to pending verification |
| AuctionReview.Decide | admin/js/auction-review.js:60-95 | a rejection without a reason or without a message is refused; a sent decision carries the mapped status and the notes, and a reason and message only for a rejection |
| AuctionReview.DecisionStored | server/auctionRoutes.js:228-257 | the stored auction takes the decided status, the time and the admin, and a reason and message only when rejected |
| AuctionReview.ShippingLabel | admin/js/auction-review.js:313-316 | the three known shipping codes get their names and unknown codes are shown as they are |
| AuctionReview.FormatShippingOptions | admin/js/auction-review.js:307-319 | no options read "None specified" and one option reads as its name |
| AuctionReview.ShippingOptionsInOrder | admin/js/auction-review.js:312-319 | several options are their names, in order, joined by commas |
| AuctionReview.Paragraphs | admin/js/auction-review.js:329 | every paragraph is a non-blank line of the description and holds no line break |
| AuctionReview.FormatDescription | admin/js/auction-review.js:325-331 | a missing or empty description reads "No description provided." |
| AuctionReview.ParagraphsOfLines | admin/js/auction-review.js:325-331 | lines joined by newlines give those lines as paragraphs, in order, without the blank ones, each wrapped in one `<p>` |
| AuctionReview.OneLineOneParagraph | admin/js/auction-review.js:325-331 | a single non-blank line is one paragraph |
| AuctionReview.FirstChars | admin/js/auction-review.js:357 | with no empty part, the first character of every part, in order |
| AuctionReview.Initials | admin/js/auction-review.js:353-360 | a missing name shows "??"; otherwise at most two letters, the first being the upper-cased first letter when the name starts with one; with single spaces between words and none at the edges, the upper-cased first letters of the first two words |

## Left out

- Concurrency: cluster workers, respawn, shutdown messages and rate limiting (server/server.js:8-65, 88-136) are not modelled. Each route is one atomic step, so the race between reading `MAX(amount)` before `BEGIN` and the transaction (server/bidRoutes.js:52-71) is not modelled either.
- Authentication: password hashing, token issuing and checking, and the admin sign-in service are foreign calls. The model takes the authenticated user id (or admin id) as a parameter.
- The database pool (server/db.js) and all SQL text are I/O. Each query is modelled by its meaning over the tables, not by the SQL string or its `$n` parameters.
- The users table is not part of this model. The `seller_name` of the join is not produced.
- A failing statement inside the bid transaction is a parameter of `MarketStore.Store.PlaceBid`. The writes are staged and published only at commit, which models the rollback.
- The schema-fallback branches of the bid-count update, for a missing `current_bid` column (server/bidRoutes.js:98-112), are not modelled. Only the main path is.
- Prices are integer cents and never `NaN`. PostgreSQL NUMERIC values that arrive as strings, and float rounding, are not modelled.
- Money.ParseFloatText reads only the texts the pages write. The partial parse `parseFloat` does on loose text ("12abc" reads as 12) is not modelled.
- The search matches substrings. The special meaning of `%` and `_` inside a LIKE pattern is not modelled.
- Ties between equal sort keys are broken by id. PostgreSQL's unspecified order on ties is not modelled.
- The random active-auction route, the admin dashboard statistics and the recent-activity UNION (server/auctionRoutes.js:18-142) depend on tables that are not part of this model.
- The DOM, `innerHTML` rendering, `fetch`, `localStorage`, `setInterval` and `setTimeout` are I/O. Pages are modelled by the values they compute and by the fields their objects change.
- Given as parameters rather than computed:
  - date formatting: `toLocaleDateString` and `Intl.DateTimeFormat`;
  - the calendar date filters of the verification page;
  - JSON parsing of stored values;
  - URL query-string encoding.
- Uploads to the third-party image host, and the upload progress percentage, are foreign calls. Only their outcome (a URL) is an input.
- `formatDuration` on the review page uses fractional days, as floating point, so it is not modelled.
- The UI-only scripts have no stateable logic: js/about.js, js/app.js, js/auth-check.js, js/categories.js, admin/js/admin.js, admin/js/admin-auth.js and admin/js/admin-auth-check.js.
- Sorting is modelled on sequences of values, not as an in-place sort of a JavaScript array.
- MyBids.Highlight: its contract states only the empty-term case, and HighlightAbsent adds the no-match case. The wrapping of each case-insensitive match is stated by its definition alone, as are the regular-expression escapes.
- AuctionReview.Initials: for a name with doubled spaces or spaces at its edges, the contract fixes the first letter and the bound of two, not which later letter is taken.
- AuctionReview.Paragraphs: its contract says every paragraph is a non-blank line; their order is stated by ParagraphsOfLines, for descriptions given as their lines.
- Case mapping and whitespace are ASCII only: "É" is not lowered and U+00A0 is not trimmed. JavaScript's Unicode `toLowerCase`, `toUpperCase` and `\s` differ there. This affects AuctionQueries.TermMatches, Search.SearchTerms, both `PerformSearch` methods, Profile.FormatAboutMe and both `Initials`.
- MarketStore.Store.Create stores the parsed day count as the auction's duration, where the route stores the raw `duration` text it was sent (server/auctionRoutes.js:298). The end time computed from it is the same.
- CreateListing reads the starting price once, as one optional number, for both `parseFloat` (js/create-listing.js:145, 255) and the `isNaN` test on it (js/create-listing.js:226). A loose text such as "12abc" is not distinguished.
- VerificationPage.FilterAuctions: its contract states membership both ways, not the order of the kept auctions.
- VerificationPage.TimeAgoUnits: the plural "s" on the unit name is in TimeAgoText's definition, not in a contract.

## Findings

| source | as written | input that shows it | evidently intended | confidence | as-written member | corrected member |
|---|---|---|---|---|---|---|
| server/auctionRoutes.js:363-367 | the count behind `total` and `totalPages` matches the whole search text as one pattern, while the rows match any single term | a live auction titled "red" and the search "red car": it is listed, but the count is 0 | the total counts the listed auctions | not executed | AuctionQueries.ListingsTotalMismatch | AuctionQueries.ListingsTotalCoversRows |
| js/item-details.js:833 | the check strips a `$` from the shown price, but the page writes it with a `€`, so `parseFloat` gives `NaN` and the "not above the current bid" test never fires | a bid of 1.00 on an item shown as "€100.00" is sent | bids not above the shown price are refused before sending | not executed | ItemDetails.PlaceBidAsWrittenExample | ItemDetails.PlaceBidBlocksLowBids |
| js/profile.js:162-175 | the first character is capitalised before trimming, so a text with leading whitespace is trimmed but not capitalised | " hello": the first save gives "hello.", the second "Hello." | formatting an already formatted text changes nothing | not executed | Profile.AsWrittenNotIdempotent | Profile.FormatAboutMeIdempotent |
| js/user-account.js:77 | the accepted types list "image.webp" instead of "image/webp" | any WebP photo of at most 5 MB is refused as the wrong type | WebP photos are accepted like the other listed types | not executed | UserAccount.WebpRefusedAsWritten | UserAccount.WebpAccepted |
| js/my-listings.js:908-926 | `removeScheduledListing` is declared at the top level, but reads `token` (line 914) and `allListings`/`originalListings` (lines 919-920), which are declared only inside the `DOMContentLoaded` callback (lines 9 and 34-47); the ReferenceError is caught | removing any scheduled listing: the failure alert is shown and the listing stays on the page | the listing is deleted and dropped from both scheduled lists | not executed | MyListings.MyListingsPage.RemoveScheduledAsWritten | MyListings.MyListingsPage.RemoveScheduled |
