// The server's database as one object: the auctions table, the bids table
// and the watchlist table, and the routes that change them. Each route is one
// atomic step; the clock is the field `now`.
module MarketStore {
  import opened Wrappers
  import opened Market
  import Lists

  /**
   * Which statement of the bid transaction the database refuses, if any. An
   * INSERT that is refused (a constraint it breaks) has already drawn its
   * serial id, so only a refused outbid UPDATE, which runs before it, leaves
   * the bid sequence where it was.
   */
  datatype TxFailure = NoFailure | OutbidFails | InsertFails | CommitFails

  datatype CreateError = InvalidEndDate

  /** Changing one auction without touching its seller, counters or id keeps the ledger invariant. */
  lemma RowEditKeepsLedger(auctions: map<nat, Auction>, bids: seq<Bid>, id: nat, a: Auction)
    requires LedgerOk(auctions, bids) && id in auctions
    requires a.sellerId == auctions[id].sellerId && a.bidCount == auctions[id].bidCount && a.currentBid == auctions[id].currentBid
    ensures LedgerOk(auctions[id := a], bids)
  {
  }

  /** A new auction with no bids, zero count and no current bid keeps the ledger invariant. */
  lemma InsertKeepsLedger(auctions: map<nat, Auction>, bids: seq<Bid>, id: nat, a: Auction)
    requires LedgerOk(auctions, bids) && id !in auctions
    requires a.bidCount == 0 && a.currentBid.None?
    ensures LedgerOk(auctions[id := a], bids)
  {
    NoBidsOfUnknown(auctions, bids, id);
    var m := auctions[id := a];
    assert BidsKnown(m, bids) by {
      forall i | 0 <= i < |bids| ensures bids[i].auctionId in m && bids[i].userId != m[bids[i].auctionId].sellerId {
        assert bids[i].auctionId in auctions;
        assert m[bids[i].auctionId] == auctions[bids[i].auctionId];
      }
    }
    assert CountersAgree(m, bids) by {
      forall x | x in m ensures m[x].bidCount == CountBids(bids, x) && m[x].currentBid == MaxAmount(bids, x) {
        if x != id { assert m[x] == auctions[x]; }
      }
    }
  }

  lemma NoBidsOfUnknown(auctions: map<nat, Auction>, bids: seq<Bid>, id: nat)
    requires BidsKnown(auctions, bids) && id !in auctions
    ensures AmountsOf(bids, id) == []
  {
    AmountsOfMembers(bids, id);
  }

  /** The database invariant: the ledger invariant, serial-id bounds, times not in the future, and a duplicate-free, time-ordered watchlist. */
  ghost predicate StoreOk(auctions: map<nat, Auction>, bids: seq<Bid>, watchlist: seq<WatchEntry>, now: int,
                          nextAuctionId: nat, nextBidId: nat, nextWatchId: nat)
  {
    LedgerOk(auctions, bids) &&
    nextAuctionId >= 1 && (forall id :: id in auctions ==> 1 <= id < nextAuctionId) &&
    (forall k :: 0 <= k < |bids| ==> bids[k].id < nextBidId && bids[k].createdAt <= now) &&
    WatchOk(watchlist, now, nextWatchId)
  }

  ghost predicate WatchOk(watchlist: seq<WatchEntry>, now: int, nextWatchId: nat) {
    NoDuplicatePairs(watchlist) &&
    (forall k :: 0 <= k < |watchlist| ==> watchlist[k].id < nextWatchId && watchlist[k].createdAt <= now) &&
    CreatedInOrder(watchlist)
  }

  /** `UPDATE bids SET status = 'outbid' WHERE auction_id = a AND status = 'active'`, one row at a time. */
  method MarkOutbidRows(bids: seq<Bid>, a: nat) returns (marked: seq<Bid>)
    ensures marked == MarkOutbid(bids, a)
  {
    marked := bids;
    var i := 0;
    while i < |marked|
      invariant 0 <= i <= |marked| && |marked| == |bids|
      invariant forall k :: 0 <= k < i ==> marked[k] == OutbidOne(bids[k], a)
      invariant forall k :: i <= k < |marked| ==> marked[k] == bids[k]
    {
      marked := marked[i := OutbidOne(marked[i], a)];
      i := i + 1;
    }
    var expected := MarkOutbid(bids, a);
    assert forall k :: 0 <= k < |marked| ==> marked[k] == expected[k];
  }

  /** `RowEditKeepsLedger` for the whole store, stated on the table the edit writes. */
  lemma RowEditKeepsStore(auctions: map<nat, Auction>, bids: seq<Bid>, watchlist: seq<WatchEntry>, now: int,
                          nextAuctionId: nat, nextBidId: nat, nextWatchId: nat, id: nat, a: Auction, auctions': map<nat, Auction>)
    requires StoreOk(auctions, bids, watchlist, now, nextAuctionId, nextBidId, nextWatchId) && id in auctions
    requires a.sellerId == auctions[id].sellerId && a.bidCount == auctions[id].bidCount && a.currentBid == auctions[id].currentBid
    requires auctions' == auctions[id := a]
    ensures StoreOk(auctions', bids, watchlist, now, nextAuctionId, nextBidId, nextWatchId)
  {
    RowEditKeepsLedger(auctions, bids, id, a);
  }

  /** `InsertKeepsLedger` for the whole store: the new row takes the next id, which then moves on. */
  lemma InsertKeepsStore(auctions: map<nat, Auction>, bids: seq<Bid>, watchlist: seq<WatchEntry>, now: int,
                         id: nat, nextBidId: nat, nextWatchId: nat, a: Auction, auctions': map<nat, Auction>, nextAuctionId': nat)
    requires StoreOk(auctions, bids, watchlist, now, id, nextBidId, nextWatchId)
    requires a.bidCount == 0 && a.currentBid.None?
    requires auctions' == auctions[id := a] && nextAuctionId' == id + 1
    ensures id !in auctions
    ensures StoreOk(auctions', bids, watchlist, now, nextAuctionId', nextBidId, nextWatchId)
  {
    InsertKeepsLedger(auctions, bids, id, a);
  }

  /** The sweep's loop, one auction row at a time, over the table as it was read. */
  method SweepRows(rows: map<nat, Auction>, now: int) returns (m: map<nat, Auction>)
    ensures m == Swept(rows, now)
  {
    m := rows;
    var todo := m.Keys;
    ghost var done: set<nat> := {};
    while todo != {}
      invariant todo + done == rows.Keys && todo !! done
      invariant m.Keys == rows.Keys
      invariant forall id :: id in done ==> m[id] == SweepOne(rows[id], now)
      invariant forall id :: id in todo ==> m[id] == rows[id]
      decreases todo
    {
      var id :| id in todo;
      m := m[id := SweepOne(m[id], now)];
      todo := todo - {id};
      done := done + {id};
    }
    assert m == Swept(rows, now);
  }

  /** The sweep writes only statuses, so the store stays well formed. */
  lemma SweepKeepsStore(auctions: map<nat, Auction>, bids: seq<Bid>, watchlist: seq<WatchEntry>, now: int,
                        nextAuctionId: nat, nextBidId: nat, nextWatchId: nat, auctions': map<nat, Auction>)
    requires StoreOk(auctions, bids, watchlist, now, nextAuctionId, nextBidId, nextWatchId)
    requires auctions' == Swept(auctions, now)
    ensures StoreOk(auctions', bids, watchlist, now, nextAuctionId, nextBidId, nextWatchId)
  {
    SweepKeepsLedger(auctions, bids, now);
  }

  /** `PlaceBidKeepsStore` for the tables the commit writes. */
  lemma CommitKeepsStore(auctions: map<nat, Auction>, bids: seq<Bid>, watchlist: seq<WatchEntry>, now: int,
                         nextAuctionId: nat, nextBidId: nat, nextWatchId: nat, b: Bid,
                         bids': seq<Bid>, auctions': map<nat, Auction>, nextBidId': nat)
    requires StoreOk(auctions, bids, watchlist, now, nextAuctionId, nextBidId, nextWatchId)
    requires b.auctionId in auctions
    requires BidRejection(auctions, bids, now, Some(b.auctionId), b.userId, Amount(b.amount)).None?
    requires b.status == ActiveBid && b.id == nextBidId && b.createdAt == now
    requires bids' == AcceptedBids(bids, b) && auctions' == AcceptedAuctions(auctions, bids', b.auctionId, b.amount)
    requires nextBidId' == nextBidId + 1
    ensures StoreOk(auctions', bids', watchlist, now, nextAuctionId, nextBidId', nextWatchId)
  {
    PlaceBidKeepsStore(auctions, bids, watchlist, now, nextAuctionId, nextBidId, nextWatchId, b);
  }

  /** A bid id drawn from the sequence by a transaction that was then rolled back is never used. */
  lemma SkippedBidId(auctions: map<nat, Auction>, bids: seq<Bid>, watchlist: seq<WatchEntry>, now: int,
                     nextAuctionId: nat, nextBidId: nat, nextWatchId: nat, nextBidId': nat)
    requires StoreOk(auctions, bids, watchlist, now, nextAuctionId, nextBidId, nextWatchId)
    requires nextBidId' == nextBidId + 1
    ensures StoreOk(auctions, bids, watchlist, now, nextAuctionId, nextBidId', nextWatchId)
  {
  }

  lemma PlaceBidKeepsStore(auctions: map<nat, Auction>, bids: seq<Bid>, watchlist: seq<WatchEntry>, now: int,
                           nextAuctionId: nat, nextBidId: nat, nextWatchId: nat, b: Bid)
    requires StoreOk(auctions, bids, watchlist, now, nextAuctionId, nextBidId, nextWatchId)
    requires b.auctionId in auctions
    requires BidRejection(auctions, bids, now, Some(b.auctionId), b.userId, Amount(b.amount)).None?
    requires b.status == ActiveBid && b.id == nextBidId && b.createdAt == now
    ensures var bids' := AcceptedBids(bids, b);
      StoreOk(AcceptedAuctions(auctions, bids', b.auctionId, b.amount), bids', watchlist, now, nextAuctionId, nextBidId + 1, nextWatchId)
  {
    var bids' := AcceptedBids(bids, b);
    var auctions' := AcceptedAuctions(auctions, bids', b.auctionId, b.amount);
    AcceptKeepsLedgerAt(auctions, bids, now, nextBidId, b);
    AcceptedBidsBounds(bids, b, nextBidId, now);
    assert auctions'.Keys == auctions.Keys;
    StoreOkIntro(auctions', bids', watchlist, now, nextAuctionId, nextBidId + 1, nextWatchId);
  }

  lemma AcceptKeepsLedgerAt(auctions: map<nat, Auction>, bids: seq<Bid>, now: int, nextBidId: nat, b: Bid)
    requires LedgerOk(auctions, bids)
    requires forall k :: 0 <= k < |bids| ==> bids[k].id < nextBidId && bids[k].createdAt <= now
    requires b.auctionId in auctions
    requires BidRejection(auctions, bids, now, Some(b.auctionId), b.userId, Amount(b.amount)).None?
    requires b.status == ActiveBid && b.id == nextBidId && b.createdAt == now
    ensures var bids' := AcceptedBids(bids, b);
      LedgerOk(AcceptedAuctions(auctions, bids', b.auctionId, b.amount), bids')
  {
    AcceptKeepsLedger(auctions, bids, now, b);
  }

  /** The database invariant from its four parts. */
  lemma StoreOkIntro(auctions: map<nat, Auction>, bids: seq<Bid>, watchlist: seq<WatchEntry>, now: int,
                     nextAuctionId: nat, nextBidId: nat, nextWatchId: nat)
    requires LedgerOk(auctions, bids)
    requires nextAuctionId >= 1 && (forall id :: id in auctions ==> 1 <= id < nextAuctionId)
    requires forall k :: 0 <= k < |bids| ==> bids[k].id < nextBidId && bids[k].createdAt <= now
    requires WatchOk(watchlist, now, nextWatchId)
    ensures StoreOk(auctions, bids, watchlist, now, nextAuctionId, nextBidId, nextWatchId)
  {
  }

  lemma AcceptedBidsBounds(bids: seq<Bid>, b: Bid, nextBidId: nat, now: int)
    requires forall k :: 0 <= k < |bids| ==> bids[k].id < nextBidId && bids[k].createdAt <= now
    requires b.id == nextBidId && b.createdAt == now
    ensures var bids' := AcceptedBids(bids, b);
      forall k :: 0 <= k < |bids'| ==> bids'[k].id < nextBidId + 1 && bids'[k].createdAt <= now
  {
    AcceptedBidsShape(bids, b);
  }

  lemma AppendKeepsWatch(watchlist: seq<WatchEntry>, now: int, nextWatchId: nat, e: WatchEntry)
    requires WatchOk(watchlist, now, nextWatchId)
    requires !IsWatched(watchlist, e.userId, e.auctionId) && e.id == nextWatchId && e.createdAt == now
    ensures WatchOk(watchlist + [e], now, nextWatchId + 1)
    ensures Pairs(watchlist + [e]) == Pairs(watchlist) + {(e.userId, e.auctionId)}
  {
    IsWatchedIff(watchlist, e.userId, e.auctionId);
    var w := watchlist + [e];
    assert w[|watchlist|] == e;
    forall p | p in Pairs(w) ensures p in Pairs(watchlist) + {(e.userId, e.auctionId)} {
      var k :| 0 <= k < |w| && p == (w[k].userId, w[k].auctionId);
      if k < |watchlist| { assert w[k] == watchlist[k]; }
    }
    forall p | p in Pairs(watchlist) ensures p in Pairs(w) {
      var k :| 0 <= k < |watchlist| && p == (watchlist[k].userId, watchlist[k].auctionId);
      assert w[k] == watchlist[k];
    }
    assert (e.userId, e.auctionId) == (w[|watchlist|].userId, w[|watchlist|].auctionId);
  }

  class Store {
    var auctions: map<nat, Auction>
    var bids: seq<Bid>
    var watchlist: seq<WatchEntry>
    var now: int
    var nextAuctionId: nat
    var nextBidId: nat
    var nextWatchId: nat

    ghost predicate Valid()
      reads this
    {
      StoreOk(auctions, bids, watchlist, now, nextAuctionId, nextBidId, nextWatchId)
    }

    constructor (start: int)
      ensures Valid()
      ensures auctions == map[] && bids == [] && watchlist == [] && now == start
    {
      auctions, bids, watchlist := map[], [], [];
      now := start;
      nextAuctionId, nextBidId, nextWatchId := 1, 1, 1;
    }

    /** The wall clock moves forward. */
    method Tick(t: int)
      requires Valid() && now <= t
      modifies this`now
      ensures Valid() && now == t
    {
      now := t;
    }

    /**
     * POST /api/bids: the guards in order, then the transaction that marks
     * the auction's bids outbid, inserts the new active bid and rewrites
     * `current_bid` and `bid_count`. A refused statement rolls both tables back.
     */
    method PlaceBid(auctionId: Option<nat>, userId: nat, amount: AmountInput, failure: TxFailure)
      returns (r: Result<Bid, BidError>)
      requires Valid()
      modifies this
      ensures Valid()
      ensures watchlist == old(watchlist) && now == old(now) && nextAuctionId == old(nextAuctionId) && nextWatchId == old(nextWatchId)
      ensures var rejection := BidRejection(old(auctions), old(bids), now, auctionId, userId, amount);
        if rejection.Some? then
          r == Err(rejection.value) && auctions == old(auctions) && bids == old(bids) && nextBidId == old(nextBidId)
        else if failure != NoFailure then
          r == Err(TransactionFailed) && auctions == old(auctions) && bids == old(bids)
        else
          r == Ok(Bid(old(nextBidId), auctionId.value, userId, amount.cents, ActiveBid, now)) &&
          bids == AcceptedBids(old(bids), r.value) &&
          auctions == AcceptedAuctions(old(auctions), bids, auctionId.value, amount.cents)
      ensures BidRejection(old(auctions), old(bids), now, auctionId, userId, amount).None? ==>
        nextBidId == old(nextBidId) + (if failure == OutbidFails then 0 else 1)
    {
      var rejection := BidRejection(auctions, bids, now, auctionId, userId, amount);
      if rejection.Some? {
        return Err(rejection.value);
      }
      var id, cents := auctionId.value, amount.cents;
      assert auctionId == Some(id) && amount == Amount(cents) && id in auctions;
      r := BidTransaction(Bid(nextBidId, id, userId, cents, ActiveBid, now), failure);
    }

    /**
     * The transaction of POST /api/bids: mark the auction's bids outbid, insert
     * the bid, rewrite the auction row, commit; a failing statement rolls back.
     */
    method BidTransaction(b: Bid, failure: TxFailure) returns (r: Result<Bid, BidError>)
      requires Valid() && b.auctionId in auctions
      requires BidRejection(auctions, bids, now, Some(b.auctionId), b.userId, Amount(b.amount)).None?
      requires b.id == nextBidId && b.status == ActiveBid && b.createdAt == now
      modifies this`auctions, this`bids, this`nextBidId
      ensures Valid()
      ensures failure != NoFailure ==> r == Err(TransactionFailed) && auctions == old(auctions) && bids == old(bids)
      ensures failure == NoFailure ==>
        r == Ok(b) && bids == AcceptedBids(old(bids), b) && auctions == AcceptedAuctions(old(auctions), bids, b.auctionId, b.amount)
      ensures nextBidId == old(nextBidId) + (if failure == OutbidFails then 0 else 1)
    {
      if failure == OutbidFails {
        return Err(TransactionFailed);
      }
      var marked := MarkOutbidRows(bids, b.auctionId);
      if failure == InsertFails || failure == CommitFails {
        // the id the insert drew from the sequence is not given back
        nextBidId := nextBidId + 1;
        SkippedBidId(auctions, bids, watchlist, now, nextAuctionId, old(nextBidId), nextWatchId, nextBidId);
        return Err(TransactionFailed);
      }
      Commit(b, marked);
      r := Ok(b);
    }

    /** The committed transaction: the marked bids and the new one, and the auction row rewritten. */
    method Commit(b: Bid, marked: seq<Bid>)
      requires Valid() && b.auctionId in auctions
      requires BidRejection(auctions, bids, now, Some(b.auctionId), b.userId, Amount(b.amount)).None?
      requires b.id == nextBidId && b.status == ActiveBid && b.createdAt == now
      requires marked == MarkOutbid(bids, b.auctionId)
      modifies this`auctions, this`bids, this`nextBidId
      ensures Valid()
      ensures bids == AcceptedBids(old(bids), b) && auctions == AcceptedAuctions(old(auctions), bids, b.auctionId, b.amount)
      ensures nextBidId == old(nextBidId) + 1
    {
      var inserted := marked + [b];
      var updated := AcceptedAuctions(auctions, inserted, b.auctionId, b.amount);
      auctions, bids, nextBidId := updated, inserted, nextBidId + 1;
      CommitKeepsStore(old(auctions), old(bids), watchlist, now, nextAuctionId, old(nextBidId), nextWatchId, b,
                       bids, auctions, nextBidId);
    }

    /**
     * PUT /api/auctions/:id/sell-now: only the seller, only with a bid; the
     * highest bid becomes the sale. The auction's status is not consulted.
     */
    method SellNow(auctionId: nat, userId: nat) returns (r: Result<Auction, SellError>)
      requires Valid()
      modifies this`auctions
      ensures Valid()
      ensures if auctionId !in old(auctions) || old(auctions)[auctionId].sellerId != userId then
          r == Err(NotAuthorized) && auctions == old(auctions)
        else if HighestBid(bids, auctionId).None? then
          r == Err(NoBids) && auctions == old(auctions)
        else
          r == Ok(SoldNow(old(auctions)[auctionId], HighestBid(bids, auctionId).value, now)) &&
          auctions == old(auctions)[auctionId := r.value]
    {
      if auctionId !in auctions || auctions[auctionId].sellerId != userId {
        return Err(NotAuthorized);
      }
      var highest := HighestBid(bids, auctionId);
      if highest.None? {
        return Err(NoBids);
      }
      var sold := SoldNow(auctions[auctionId], highest.value, now);
      auctions := auctions[auctionId := sold];
      RowEditKeepsStore(old(auctions), bids, watchlist, now, nextAuctionId, nextBidId, nextWatchId, auctionId, sold, auctions);
      r := Ok(sold);
    }

    /**
     * PUT /api/auctions/:id/relist: a positive whole number of days is
     * required, then ownership; the auction goes back to verification.
     */
    method Relist(auctionId: nat, userId: nat, duration: DurationInput) returns (r: Result<Auction, RelistError>)
      requires Valid()
      modifies this`auctions
      ensures Valid()
      ensures if DurationRejection(duration).Some? then
          r == Err(DurationRejection(duration).value) && auctions == old(auctions)
        else if auctionId !in old(auctions) || old(auctions)[auctionId].sellerId != userId then
          r == Err(NotOwner) && auctions == old(auctions)
        else
          r == Ok(Relisted(old(auctions)[auctionId], now, duration.days)) &&
          auctions == old(auctions)[auctionId := r.value]
    {
      var rejection := DurationRejection(duration);
      if rejection.Some? {
        return Err(rejection.value);
      }
      if auctionId !in auctions || auctions[auctionId].sellerId != userId {
        return Err(NotOwner);
      }
      var relisted := Relisted(auctions[auctionId], now, duration.days);
      auctions := auctions[auctionId := relisted];
      RowEditKeepsStore(old(auctions), bids, watchlist, now, nextAuctionId, nextBidId, nextWatchId, auctionId, relisted, auctions);
      r := Ok(relisted);
    }

    /**
     * PUT /api/auctions/admin/verify/:id: writes the decision whatever the
     * auction's current status; an unknown id updates no row.
     */
    method Verify(auctionId: nat, adminId: nat, status: Status, notes: Option<string>,
                  reason: Option<string>, message: Option<string>) returns (r: Option<Auction>)
      requires Valid()
      modifies this`auctions
      ensures Valid()
      ensures auctionId !in old(auctions) ==> r.None? && auctions == old(auctions)
      ensures auctionId in old(auctions) ==>
        r == Some(Verified(old(auctions)[auctionId], status, notes, reason, message, now, adminId)) &&
        auctions == old(auctions)[auctionId := r.value]
    {
      if auctionId !in auctions {
        return None;
      }
      var verified := Verified(auctions[auctionId], status, notes, reason, message, now, adminId);
      auctions := auctions[auctionId := verified];
      RowEditKeepsStore(old(auctions), bids, watchlist, now, nextAuctionId, nextBidId, nextWatchId, auctionId, verified, auctions);
      r := Some(verified);
    }

    /** POST /api/auctions: a new auction awaiting verification under the next id. */
    method Create(sellerId: nat, input: CreateInput) returns (r: Result<nat, CreateError>)
      requires Valid()
      modifies this`auctions, this`nextAuctionId
      ensures Valid()
      ensures !input.duration.Days? ==> r == Err(InvalidEndDate) && auctions == old(auctions)
      ensures input.duration.Days? ==>
        r == Ok(old(nextAuctionId)) && old(nextAuctionId) !in old(auctions) &&
        auctions == old(auctions)[r.value := NewAuction(input, sellerId, now, input.duration.days)]
    {
      if !input.duration.Days? {
        return Err(InvalidEndDate);
      }
      var id := nextAuctionId;
      var a := NewAuction(input, sellerId, now, input.duration.days);
      auctions, nextAuctionId := auctions[id := a], nextAuctionId + 1;
      InsertKeepsStore(old(auctions), bids, watchlist, now, id, nextBidId, nextWatchId, a, auctions, nextAuctionId);
      r := Ok(id);
    }

    /** The background worker's sweep, one auction row at a time. */
    method ExpirySweep()
      requires Valid()
      modifies this`auctions
      ensures Valid()
      ensures auctions == Swept(old(auctions), now)
    {
      auctions := SweepRows(auctions, now);
      SweepKeepsStore(old(auctions), bids, watchlist, now, nextAuctionId, nextBidId, nextWatchId, auctions);
    }

    /** POST /api/watchlist */
    method WatchAdd(userId: nat, auctionId: Option<nat>) returns (r: Result<WatchEntry, WatchError>)
      requires Valid()
      modifies this`watchlist, this`nextWatchId
      ensures Valid()
      ensures if NoAuctionId(auctionId) then r == Err(AuctionIdRequired) && watchlist == old(watchlist)
        else if auctionId.value !in auctions then r == Err(WatchedAuctionNotFound) && watchlist == old(watchlist)
        else if (userId, auctionId.value) in Pairs(old(watchlist)) then r == Err(AlreadyWatched) && watchlist == old(watchlist)
        else r == Ok(WatchEntry(old(nextWatchId), userId, auctionId.value, now)) && watchlist == old(watchlist) + [r.value]
      ensures Pairs(watchlist) == if r.Ok? then Pairs(old(watchlist)) + {(userId, auctionId.value)} else Pairs(old(watchlist))
    {
      if NoAuctionId(auctionId) {
        return Err(AuctionIdRequired);
      }
      var a := auctionId.value;
      if a !in auctions {
        return Err(WatchedAuctionNotFound);
      }
      IsWatchedIff(watchlist, userId, a);
      if IsWatched(watchlist, userId, a) {
        return Err(AlreadyWatched);
      }
      var e := WatchEntry(nextWatchId, userId, a, now);
      AppendKeepsWatch(watchlist, now, nextWatchId, e);
      watchlist := watchlist + [e];
      nextWatchId := nextWatchId + 1;
      r := Ok(e);
    }

    /** DELETE /api/watchlist/:auctionId */
    method WatchRemove(userId: nat, auctionId: nat) returns (r: Result<(), WatchError>)
      requires Valid()
      modifies this`watchlist
      ensures Valid()
      ensures (userId, auctionId) !in Pairs(old(watchlist)) ==> r == Err(NotWatched) && watchlist == old(watchlist)
      ensures (userId, auctionId) in Pairs(old(watchlist)) ==> r == Ok(()) && watchlist == Unwatch(old(watchlist), userId, auctionId)
      ensures Pairs(watchlist) == Pairs(old(watchlist)) - {(userId, auctionId)}
    {
      IsWatchedIff(watchlist, userId, auctionId);
      if !IsWatched(watchlist, userId, auctionId) {
        return Err(NotWatched);
      }
      UnwatchPairs(watchlist, userId, auctionId);
      UnwatchKeepsOrder(watchlist, userId, auctionId);
      watchlist := Unwatch(watchlist, userId, auctionId);
      r := Ok(());
    }

    /** GET /api/watchlist/check/:auctionId */
    method WatchCheck(userId: nat, auctionId: nat) returns (inWatchlist: bool)
      requires Valid()
      ensures inWatchlist <==> (userId, auctionId) in Pairs(watchlist)
    {
      IsWatchedIff(watchlist, userId, auctionId);
      inWatchlist := IsWatched(watchlist, userId, auctionId);
    }
  }

  ghost predicate CreatedInOrder(watchlist: seq<WatchEntry>) {
    forall i, j :: 0 <= i < j < |watchlist| ==> watchlist[i].createdAt <= watchlist[j].createdAt
  }

  /** Deleting rows keeps the remaining ones in their order, so creation times stay sorted. */
  lemma UnwatchKeepsOrder(watchlist: seq<WatchEntry>, u: nat, a: nat)
    requires CreatedInOrder(watchlist)
    ensures CreatedInOrder(Unwatch(watchlist, u, a))
  {
    var rel := (x: WatchEntry, y: WatchEntry) => x.createdAt <= y.createdAt;
    UnwatchIsFilter(watchlist, u, a);
    Lists.FilterKeepsPairs(watchlist, NotPair(u, a), rel);
  }
}
