// The server's records (auctions, bids, watchlist rows) and the pure rules of
// the bid ledger: which bid is accepted (server/bidRoutes.js), what each
// auction update writes (server/auctionRoutes.js, server/server.js), and the
// ledger invariant those updates keep. Money is integer cents, time integer
// milliseconds.
module Market {
  import opened Wrappers
  import Lists

  /** The source's `currentHighestBid + 1`: one currency unit, in cents. */
  const MinIncrement: int := 100
  const DayMs: int := 86400000

  datatype Status = PendingVerification | Active | Rejected | MoreInfo | Ended | OtherStatus(name: string)

  datatype BidStatus = ActiveBid | Outbid

  datatype Auction = Auction(
    sellerId: nat,
    title: string,
    category: string,
    itemCondition: string,
    description: string,
    startingPrice: int,
    reservePrice: Option<int>,
    duration: int,
    shippingOptions: seq<string>,
    images: seq<string>,
    currentBid: Option<int>,
    bidCount: nat,
    status: Status,
    endsAt: int,
    createdAt: int,
    buyerId: Option<nat>,
    finalPrice: Option<int>,
    verifiedAt: Option<int>,
    verifiedBy: Option<nat>,
    adminNotes: Option<string>,
    rejectionReason: Option<string>,
    rejectionMessage: Option<string>)

  datatype Bid = Bid(id: nat, auctionId: nat, userId: nat, amount: int, status: BidStatus, createdAt: int)

  datatype WatchEntry = WatchEntry(id: nat, userId: nat, auctionId: nat, createdAt: int)

  /** `images && images.length > 0 ? images[0] : null` */
  function FirstImage(images: seq<string>): (r: Option<string>)
    ensures r.None? <==> images == []
    ensures r.Some? ==> r.value == images[0]
  {
    if images == [] then None else Some(images[0])
  }

  // ---------------------------------------------------------------------
  // Views of the bid ledger

  /** The amounts of the bids that belong to `a`, in ledger order. */
  function AmountsOf(bids: seq<Bid>, a: nat): seq<int>
    decreases |bids|
  {
    if bids == [] then []
    else AmountsOf(bids[..|bids| - 1], a) + (if bids[|bids| - 1].auctionId == a then [bids[|bids| - 1].amount] else [])
  }

  /** `SELECT COUNT(*) FROM bids WHERE auction_id = a` */
  function CountBids(bids: seq<Bid>, a: nat): nat {
    |AmountsOf(bids, a)|
  }

  function SeqMax(s: seq<int>): (r: Option<int>)
    ensures r.None? <==> s == []
    ensures r.Some? ==> r.value in s && forall x :: x in s ==> x <= r.value
  {
    if s == [] then None
    else
      var init := s[..|s| - 1];
      assert s == init + [s[|s| - 1]];
      match SeqMax(init)
      case None => Some(s[|s| - 1])
      case Some(m) => Some(if s[|s| - 1] > m then s[|s| - 1] else m)
  }

  /** `SELECT MAX(amount) FROM bids WHERE auction_id = a`, NULL as None. */
  function MaxAmount(bids: seq<Bid>, a: nat): Option<int> {
    SeqMax(AmountsOf(bids, a))
  }

  /** `MAX(amount) || 0` */
  function HighestOrZero(bids: seq<Bid>, a: nat): int {
    match MaxAmount(bids, a) case None => 0 case Some(m) => m
  }

  lemma {:induction false} AmountsOfAppend(bids: seq<Bid>, b: Bid, a: nat)
    ensures AmountsOf(bids + [b], a) == AmountsOf(bids, a) + (if b.auctionId == a then [b.amount] else [])
  {
    assert (bids + [b])[..|bids + [b]| - 1] == bids;
  }

  /** Each bid of `a` contributes its amount, and every amount comes from a bid of `a`. */
  lemma {:induction false} AmountsOfMembers(bids: seq<Bid>, a: nat)
    ensures forall k :: 0 <= k < |bids| && bids[k].auctionId == a ==> bids[k].amount in AmountsOf(bids, a)
    ensures forall v :: v in AmountsOf(bids, a) ==> exists k :: 0 <= k < |bids| && bids[k].auctionId == a && bids[k].amount == v
    decreases |bids|
  {
    if bids != [] {
      var init := bids[..|bids| - 1];
      AmountsOfMembers(init, a);
      assert bids == init + [bids[|bids| - 1]];
      AmountsOfAppend(init, bids[|bids| - 1], a);
      forall v | v in AmountsOf(bids, a)
        ensures exists k :: 0 <= k < |bids| && bids[k].auctionId == a && bids[k].amount == v
      {
        if v in AmountsOf(init, a) {
          var k :| 0 <= k < |init| && init[k].auctionId == a && init[k].amount == v;
          assert bids[k] == init[k];
        } else {
          assert bids[|bids| - 1].auctionId == a && bids[|bids| - 1].amount == v;
        }
      }
    }
  }

  /** When no bid from index `n` on belongs to `a`, only the prefix contributes. */
  lemma {:induction false} AmountsOfPrefix(bids: seq<Bid>, n: nat, a: nat)
    requires n <= |bids|
    requires forall j :: n <= j < |bids| ==> bids[j].auctionId != a
    ensures AmountsOf(bids, a) == AmountsOf(bids[..n], a)
    decreases |bids|
  {
    if n < |bids| {
      var init := bids[..|bids| - 1];
      assert init[..n] == bids[..n];
      AmountsOfPrefix(init, n, a);
    } else {
      assert bids[..n] == bids;
    }
  }

  lemma SeqMaxAppendLarger(s: seq<int>, v: int)
    requires forall x :: x in s ==> x < v
    ensures SeqMax(s + [v]) == Some(v)
  {
    assert (s + [v])[..|s + [v]| - 1] == s;
  }

  /** One bid after the bids of `a` are marked outbid. */
  function OutbidOne(b: Bid, a: nat): Bid {
    if b.auctionId == a && b.status == ActiveBid then b.(status := Outbid) else b
  }

  /**
   * `UPDATE bids SET status = 'outbid' WHERE auction_id = a AND status = 'active'`:
   * every bid of `a` ends up outbid and every other bid is untouched.
   */
  function MarkOutbid(bids: seq<Bid>, a: nat): (r: seq<Bid>)
    ensures |r| == |bids|
    ensures forall k :: 0 <= k < |bids| ==>
      if bids[k].auctionId == a then r[k] == bids[k].(status := Outbid) else r[k] == bids[k]
    decreases |bids|
  {
    if bids == [] then []
    else MarkOutbid(bids[..|bids| - 1], a) + [OutbidOne(bids[|bids| - 1], a)]
  }

  /** Marking bids outbid leaves every auction's amounts, so its count and maximum, unchanged. */
  lemma {:induction false} MarkOutbidKeepsAmounts(bids: seq<Bid>, a: nat, x: nat)
    ensures AmountsOf(MarkOutbid(bids, a), x) == AmountsOf(bids, x)
    decreases |bids|
  {
    if bids != [] {
      var init := bids[..|bids| - 1];
      MarkOutbidKeepsAmounts(init, a, x);
      var m := MarkOutbid(bids, a);
      assert m[..|m| - 1] == MarkOutbid(init, a);
    }
  }

  predicate IsLastOf(bids: seq<Bid>, i: nat)
    requires i < |bids|
  {
    forall j :: i < j < |bids| ==> bids[j].auctionId != bids[i].auctionId
  }

  /** Every bid belongs to a known auction, is positive and is not the seller's. */
  ghost predicate BidsKnown(auctions: map<nat, Auction>, bids: seq<Bid>) {
    forall i :: 0 <= i < |bids| ==>
      bids[i].auctionId in auctions && bids[i].amount > 0 && bids[i].userId != auctions[bids[i].auctionId].sellerId
  }

  /** Within one auction the amounts strictly increase and every bid but the last is outbid. */
  ghost predicate Increasing(bids: seq<Bid>) {
    forall i, j :: 0 <= i < j < |bids| && bids[i].auctionId == bids[j].auctionId ==>
      bids[i].amount < bids[j].amount && bids[i].status == Outbid
  }

  /** The last bid of each auction is active. */
  ghost predicate LastActive(bids: seq<Bid>) {
    forall i :: 0 <= i < |bids| && IsLastOf(bids, i) ==> bids[i].status == ActiveBid
  }

  /** Bid ids and creation times follow insertion order. */
  ghost predicate InsertionOrder(bids: seq<Bid>) {
    forall i, j :: 0 <= i < j < |bids| ==> bids[i].id < bids[j].id && bids[i].createdAt <= bids[j].createdAt
  }

  /** Each auction's `bid_count` and `current_bid` are the count and the maximum of its bids. */
  ghost predicate CountersAgree(auctions: map<nat, Auction>, bids: seq<Bid>) {
    forall a {:trigger auctions[a]} :: a in auctions ==> auctions[a].bidCount == CountBids(bids, a) && auctions[a].currentBid == MaxAmount(bids, a)
  }

  /** The ledger invariant. */
  ghost predicate LedgerOk(auctions: map<nat, Auction>, bids: seq<Bid>) {
    BidsKnown(auctions, bids) && Increasing(bids) && LastActive(bids) && InsertionOrder(bids) && CountersAgree(auctions, bids)
  }

  // ---------------------------------------------------------------------
  // Bid placement (server/bidRoutes.js, POST /)

  /** The request's `amount`: absent/falsy, not a number, or `parseFloat`'s value in cents. */
  datatype AmountInput = Absent | NotANumber | Amount(cents: int)

  datatype BidError =
    | MissingFields
    | NotPositive
    | AuctionNotFound
    | NotActive
    | AuctionEnded
    | OwnAuction
    | BelowMinimum(minBid: int)
    | TransactionFailed

  function Max(a: int, b: int): int { if a < b then b else a }

  /** `Math.max(starting_price, currentHighestBid + 1)` */
  function MinBid(a: Auction, bids: seq<Bid>, id: nat): int {
    Max(a.startingPrice, HighestOrZero(bids, id) + MinIncrement)
  }

  /** `!auctionId`: no id, or the falsy id 0. */
  predicate NoAuctionId(auctionId: Option<nat>) {
    auctionId.None? || auctionId.value == 0
  }

  /** The first guard that refuses the bid, in the order the route tests them; None accepts it. */
  function BidRejection(auctions: map<nat, Auction>, bids: seq<Bid>, now: int,
                        auctionId: Option<nat>, userId: nat, amount: AmountInput): Option<BidError>
  {
    if NoAuctionId(auctionId) || amount.Absent? then Some(MissingFields)
    else if amount.NotANumber? || amount.cents <= 0 then Some(NotPositive)
    else if auctionId.value !in auctions then Some(AuctionNotFound)
    else
      var a := auctions[auctionId.value];
      if a.status != Active then Some(NotActive)
      else if a.endsAt < now then Some(AuctionEnded)
      else if a.sellerId == userId then Some(OwnAuction)
      else if amount.cents < MinBid(a, bids, auctionId.value) then Some(BelowMinimum(MinBid(a, bids, auctionId.value)))
      else None
  }

  /**
   * A bid is accepted exactly when all guards pass: the auction exists, is
   * active, has not passed `ends_at` (a bid at exactly `ends_at` is allowed),
   * the bidder is not the seller, and the amount reaches the minimum. An
   * accepted amount is above every earlier bid of that auction.
   */
  lemma AcceptedIff(auctions: map<nat, Auction>, bids: seq<Bid>, now: int,
                    auctionId: Option<nat>, userId: nat, amount: AmountInput)
    ensures BidRejection(auctions, bids, now, auctionId, userId, amount).None? <==>
      !NoAuctionId(auctionId) && amount.Amount? && amount.cents > 0 && auctionId.value in auctions &&
      auctions[auctionId.value].status == Active && now <= auctions[auctionId.value].endsAt &&
      auctions[auctionId.value].sellerId != userId &&
      amount.cents >= auctions[auctionId.value].startingPrice &&
      amount.cents >= HighestOrZero(bids, auctionId.value) + MinIncrement
    ensures BidRejection(auctions, bids, now, auctionId, userId, amount).None? ==>
      forall k :: 0 <= k < |bids| && bids[k].auctionId == auctionId.value ==> bids[k].amount < amount.cents
  {
    if BidRejection(auctions, bids, now, auctionId, userId, amount).None? {
      var id := auctionId.value;
      AmountsOfMembers(bids, id);
      forall k | 0 <= k < |bids| && bids[k].auctionId == id ensures bids[k].amount < amount.cents {
        assert bids[k].amount in AmountsOf(bids, id);
      }
    }
  }

  /** A missing field, or a non-positive or unparsable amount, is refused before the auction is looked up. */
  lemma InputRefusedBeforeLookup(auctions: map<nat, Auction>, auctions': map<nat, Auction>, bids: seq<Bid>, now: int,
                                 auctionId: Option<nat>, userId: nat, amount: AmountInput)
    requires NoAuctionId(auctionId) || !amount.Amount? || amount.cents <= 0
    ensures BidRejection(auctions, bids, now, auctionId, userId, amount) == BidRejection(auctions', [], now, auctionId, userId, amount)
    ensures BidRejection(auctions, bids, now, auctionId, userId, amount) ==
      Some(if NoAuctionId(auctionId) || amount.Absent? then MissingFields else NotPositive)
  {
  }

  /**
   * An amount equal to the minimum is accepted once the other guards pass;
   * one below reports the minimum; the falsy id 0 is refused as missing.
   */
  lemma MinimumIsInclusive(auctions: map<nat, Auction>, bids: seq<Bid>, now: int, id: nat, userId: nat, cents: int)
    requires id in auctions && auctions[id].status == Active && now <= auctions[id].endsAt
    requires auctions[id].sellerId != userId && cents > 0
    ensures id == 0 ==> BidRejection(auctions, bids, now, Some(id), userId, Amount(cents)) == Some(MissingFields)
    ensures id != 0 && cents == MinBid(auctions[id], bids, id) ==> BidRejection(auctions, bids, now, Some(id), userId, Amount(cents)).None?
    ensures id != 0 && cents < MinBid(auctions[id], bids, id) ==>
      BidRejection(auctions, bids, now, Some(id), userId, Amount(cents)) == Some(BelowMinimum(MinBid(auctions[id], bids, id)))
  {
  }

  /** The ledger after an accepted bid: earlier bids of the auction outbid, the new bid appended as active. */
  function AcceptedBids(bids: seq<Bid>, newBid: Bid): seq<Bid> {
    MarkOutbid(bids, newBid.auctionId) + [newBid]
  }

  /** The auction row after an accepted bid: `current_bid` and `bid_count` rewritten, nothing else. */
  function AcceptedAuctions(auctions: map<nat, Auction>, bids': seq<Bid>, id: nat, cents: int): map<nat, Auction>
    requires id in auctions
  {
    auctions[id := auctions[id].(currentBid := Some(cents), bidCount := CountBids(bids', id))]
  }

  /** After acceptance the new bid is the only active bid of its auction, bids of other auctions are untouched, and the count grew by one. */
  lemma AcceptedBidsShape(bids: seq<Bid>, newBid: Bid)
    ensures var r := AcceptedBids(bids, newBid);
      |r| == |bids| + 1 && r[|bids|] == newBid &&
      (forall k :: 0 <= k < |bids| && bids[k].auctionId != newBid.auctionId ==> r[k] == bids[k]) &&
      (forall k :: 0 <= k < |bids| && bids[k].auctionId == newBid.auctionId ==> r[k] == bids[k].(status := Outbid)) &&
      CountBids(r, newBid.auctionId) == CountBids(bids, newBid.auctionId) + 1
  {
    MarkOutbidKeepsAmounts(bids, newBid.auctionId, newBid.auctionId);
    AmountsOfAppend(MarkOutbid(bids, newBid.auctionId), newBid, newBid.auctionId);
  }

  /** An accepted bid, with a fresh id and a time not before any earlier bid, keeps the ledger invariant. */
  lemma AcceptKeepsLedger(auctions: map<nat, Auction>, bids: seq<Bid>, now: int, newBid: Bid)
    requires LedgerOk(auctions, bids) && newBid.auctionId in auctions
    requires BidRejection(auctions, bids, now, Some(newBid.auctionId), newBid.userId, Amount(newBid.amount)).None?
    requires newBid.status == ActiveBid
    requires forall k :: 0 <= k < |bids| ==> bids[k].id < newBid.id && bids[k].createdAt <= newBid.createdAt
    ensures LedgerOk(AcceptedAuctions(auctions, AcceptedBids(bids, newBid), newBid.auctionId, newBid.amount),
                     AcceptedBids(bids, newBid))
  {
    var x := newBid.auctionId;
    var r := AcceptedBids(bids, newBid);
    AcceptedIff(auctions, bids, now, Some(x), newBid.userId, Amount(newBid.amount));
    AcceptedBidsShape(bids, newBid);
    AcceptKeepsKnownAndOrder(auctions, bids, newBid);
    AcceptKeepsIncreasing(bids, newBid);
    AcceptKeepsLastActive(bids, newBid);
    AcceptKeepsCounters(auctions, bids, newBid);
  }

  lemma AcceptKeepsKnownAndOrder(auctions: map<nat, Auction>, bids: seq<Bid>, newBid: Bid)
    requires BidsKnown(auctions, bids) && InsertionOrder(bids)
    requires newBid.auctionId in auctions && newBid.amount > 0 && newBid.userId != auctions[newBid.auctionId].sellerId
    requires forall k :: 0 <= k < |bids| ==> bids[k].id < newBid.id && bids[k].createdAt <= newBid.createdAt
    ensures var r := AcceptedBids(bids, newBid);
      BidsKnown(AcceptedAuctions(auctions, r, newBid.auctionId, newBid.amount), r) && InsertionOrder(r)
  {
    AcceptedBidsShape(bids, newBid);
  }

  lemma AcceptKeepsIncreasing(bids: seq<Bid>, newBid: Bid)
    requires Increasing(bids)
    requires forall k :: 0 <= k < |bids| && bids[k].auctionId == newBid.auctionId ==> bids[k].amount < newBid.amount
    ensures Increasing(AcceptedBids(bids, newBid))
  {
    var r := AcceptedBids(bids, newBid);
    AcceptedBidsShape(bids, newBid);
    forall i, j | 0 <= i < j < |r| && r[i].auctionId == r[j].auctionId
      ensures r[i].amount < r[j].amount && r[i].status == Outbid
    {
      if j == |bids| {
        assert r[i] == bids[i].(status := Outbid);
      } else if bids[i].auctionId == newBid.auctionId {
        assert r[i] == bids[i].(status := Outbid) && r[j] == bids[j].(status := Outbid);
      } else {
        assert r[i] == bids[i] && r[j] == bids[j];
      }
    }
  }

  lemma AcceptKeepsLastActive(bids: seq<Bid>, newBid: Bid)
    requires LastActive(bids) && newBid.status == ActiveBid
    ensures LastActive(AcceptedBids(bids, newBid))
  {
    var r := AcceptedBids(bids, newBid);
    var x := newBid.auctionId;
    AcceptedBidsShape(bids, newBid);
    forall i | 0 <= i < |r| && IsLastOf(r, i) ensures r[i].status == ActiveBid {
      if i < |bids| {
        assert r[|bids|].auctionId == x;
        assert r[i].auctionId != x;
        assert r[i] == bids[i];
        assert IsLastOf(bids, i) by {
          forall j | i < j < |bids| ensures bids[j].auctionId != bids[i].auctionId {
            assert r[j].auctionId != r[i].auctionId;
            if bids[j].auctionId == x { assert r[j] == bids[j].(status := Outbid); } else { assert r[j] == bids[j]; }
          }
        }
      }
    }
  }

  lemma AcceptKeepsCounters(auctions: map<nat, Auction>, bids: seq<Bid>, newBid: Bid)
    requires CountersAgree(auctions, bids) && newBid.auctionId in auctions
    requires forall k :: 0 <= k < |bids| && bids[k].auctionId == newBid.auctionId ==> bids[k].amount < newBid.amount
    ensures var r := AcceptedBids(bids, newBid);
      CountersAgree(AcceptedAuctions(auctions, r, newBid.auctionId, newBid.amount), r)
  {
    var x := newBid.auctionId;
    var r := AcceptedBids(bids, newBid);
    var auctions' := AcceptedAuctions(auctions, r, x, newBid.amount);
    forall a | a in auctions'
      ensures auctions'[a].bidCount == CountBids(r, a) && auctions'[a].currentBid == MaxAmount(r, a)
    {
      MarkOutbidKeepsAmounts(bids, x, a);
      AmountsOfAppend(MarkOutbid(bids, x), newBid, a);
      assert AmountsOf(r, a) == AmountsOf(bids, a) + (if a == x then [newBid.amount] else []);
      if a == x {
        AmountsOfMembers(bids, x);
        forall v | v in AmountsOf(bids, x) ensures v < newBid.amount {
          var k :| 0 <= k < |bids| && bids[k].auctionId == x && bids[k].amount == v;
        }
        SeqMaxAppendLarger(AmountsOf(bids, x), newBid.amount);
        assert auctions'[a].currentBid == Some(newBid.amount);
      } else {
        assert auctions'[a] == auctions[a];
        assert AmountsOf(r, a) == AmountsOf(bids, a);
      }
    }
  }

  /** The last bid of an auction carries the maximum amount of that auction. */
  lemma LastBidIsMax(bids: seq<Bid>, a: nat, k: nat)
    requires Increasing(bids)
    requires k < |bids| && bids[k].auctionId == a && IsLastOf(bids, k)
    ensures MaxAmount(bids, a) == Some(bids[k].amount)
  {
    AmountsOfPrefix(bids, k + 1, a);
    var pre := bids[..k + 1];
    assert pre[..|pre| - 1] == bids[..k];
    AmountsOfAppend(bids[..k], bids[k], a);
    assert bids[..k] + [bids[k]] == pre;
    AmountsOfMembers(bids[..k], a);
    forall v | v in AmountsOf(bids[..k], a) ensures v < bids[k].amount {
      var j :| 0 <= j < |bids[..k]| && bids[..k][j].auctionId == a && bids[..k][j].amount == v;
      assert bids[j] == bids[..k][j];
    }
    SeqMaxAppendLarger(AmountsOf(bids[..k], a), bids[k].amount);
  }

  /** Under the invariant, an active bid of an auction is its unique maximum and equals `current_bid`. */
  lemma ActiveBidIsUniqueMaximum(auctions: map<nat, Auction>, bids: seq<Bid>, a: nat, k: nat)
    requires LedgerOk(auctions, bids) && a in auctions
    requires k < |bids| && bids[k].auctionId == a && bids[k].status == ActiveBid
    ensures auctions[a].currentBid == Some(bids[k].amount)
    ensures forall j :: 0 <= j < |bids| && bids[j].auctionId == a && j != k ==> bids[j].amount < bids[k].amount && bids[j].status == Outbid
  {
    assert IsLastOf(bids, k);
    LastBidIsMax(bids, a, k);
  }

  /** An auction has an active bid exactly when it has bids. */
  lemma ActiveBidExists(auctions: map<nat, Auction>, bids: seq<Bid>, a: nat)
    requires LedgerOk(auctions, bids)
    ensures CountBids(bids, a) > 0 <==> exists k :: 0 <= k < |bids| && bids[k].auctionId == a && bids[k].status == ActiveBid
  {
    AmountsOfMembers(bids, a);
    if CountBids(bids, a) > 0 {
      var v := AmountsOf(bids, a)[0];
      assert v in AmountsOf(bids, a);
      var k0 :| 0 <= k0 < |bids| && bids[k0].auctionId == a && bids[k0].amount == v;
      var k := LastOf(bids, k0);
      assert bids[k].status == ActiveBid;
    }
  }

  /** The last index at or after `i` whose bid has the same auction as bid `i`. */
  function LastOf(bids: seq<Bid>, i: nat): (k: nat)
    requires i < |bids|
    ensures i <= k < |bids| && bids[k].auctionId == bids[i].auctionId && IsLastOf(bids, k)
    decreases |bids| - i
  {
    if IsLastOf(bids, i) then i
    else
      var j :| i < j < |bids| && bids[j].auctionId == bids[i].auctionId;
      LastOf(bids, j)
  }

  // ---------------------------------------------------------------------
  // Sell now (server/auctionRoutes.js, PUT /:id/sell-now)

  datatype SellError = NotAuthorized | NoBids | UpdateFailed

  /** `SELECT amount, user_id FROM bids WHERE auction_id = a ORDER BY amount DESC LIMIT 1`. */
  function HighestBid(bids: seq<Bid>, a: nat): (r: Option<Bid>)
    ensures r.None? <==> forall k :: 0 <= k < |bids| ==> bids[k].auctionId != a
    ensures r.Some? ==> (r.value in bids && r.value.auctionId == a &&
      forall k :: 0 <= k < |bids| && bids[k].auctionId == a ==> bids[k].amount <= r.value.amount)
    decreases |bids|
  {
    if bids == [] then None
    else
      var init := bids[..|bids| - 1];
      var last := bids[|bids| - 1];
      assert bids == init + [last];
      var best := HighestBid(init, a);
      if last.auctionId != a then best
      else if best.None? || last.amount > best.value.amount then Some(last)
      else best
  }

  /** Under the invariant the highest bid is the active one, and its amount is `current_bid`. */
  lemma HighestBidIsActive(auctions: map<nat, Auction>, bids: seq<Bid>, a: nat)
    requires LedgerOk(auctions, bids) && a in auctions && HighestBid(bids, a).Some?
    ensures HighestBid(bids, a).value.status == ActiveBid
    ensures auctions[a].currentBid == Some(HighestBid(bids, a).value.amount)
  {
    var b := HighestBid(bids, a).value;
    var k :| 0 <= k < |bids| && bids[k] == b;
    assert IsLastOf(bids, k);
    ActiveBidIsUniqueMaximum(auctions, bids, a, k);
  }

  /** What a successful sell-now writes: final price and buyer from the highest bid, `ends_at` now, status ended. */
  function SoldNow(a: Auction, highest: Bid, now: int): Auction {
    a.(finalPrice := Some(highest.amount), buyerId := Some(highest.userId), endsAt := now, status := Ended)
  }

  // ---------------------------------------------------------------------
  // Relist (server/auctionRoutes.js, PUT /:id/relist)

  /** The request's `duration`: absent/falsy, not an integer, or `parseInt`'s value. */
  datatype DurationInput = NoDuration | NotAnInteger | Days(days: int)

  datatype RelistError = DurationRequired | InvalidDuration | NotOwner | RelistFailed

  function DurationRejection(d: DurationInput): Option<RelistError> {
    match d
    case NoDuration => Some(DurationRequired)
    case NotAnInteger => Some(InvalidDuration)
    case Days(n) => if n <= 0 then Some(InvalidDuration) else None
  }

  function Relisted(a: Auction, now: int, days: int): Auction {
    a.(createdAt := now, endsAt := now + days * DayMs, status := PendingVerification, verifiedAt := None, verifiedBy := None)
  }

  // ---------------------------------------------------------------------
  // Verification (server/auctionRoutes.js, PUT /admin/verify/:id)

  /** `value || null` for an optional text field. */
  function NullIfEmpty(s: Option<string>): (r: Option<string>)
    ensures r.None? <==> (s.None? || s.value == "")
    ensures r.Some? ==> r == s
  {
    if s.None? || s.value == "" then None else s
  }

  function Verified(a: Auction, status: Status, notes: Option<string>, reason: Option<string>, message: Option<string>,
                    now: int, adminId: nat): Auction
  {
    a.(status := status, adminNotes := NullIfEmpty(notes), rejectionReason := NullIfEmpty(reason),
       rejectionMessage := NullIfEmpty(message), verifiedAt := Some(now), verifiedBy := Some(adminId))
  }

  // ---------------------------------------------------------------------
  // Creation (server/auctionRoutes.js, POST / and validateImages)

  const PlaceholderImage: string := "https://res.cloudinary.com/demo/image/upload/samples/cloudinary-icon"

  /** `validateImages`: a missing or empty list becomes the single placeholder; any other list is kept. */
  function ValidateImages(images: Option<seq<string>>): (r: seq<string>)
    ensures images.None? || images.value == [] ==> r == [PlaceholderImage]
    ensures images.Some? && images.value != [] ==> r == images.value
    ensures r != []
  {
    if images.None? || images.value == [] then [PlaceholderImage] else images.value
  }

  datatype CreateInput = CreateInput(
    title: string,
    category: string,
    itemCondition: string,
    description: string,
    startingPrice: int,
    reservePrice: Option<int>,
    duration: DurationInput,
    shippingOptions: seq<string>,
    images: Option<seq<string>>)

  /** `reservePrice || null`: a missing or zero reserve is stored as null. */
  function ReserveOrNull(r: Option<int>): Option<int> {
    if r.None? || r.value == 0 then None else r
  }

  /**
   * The inserted row. `parseInt(duration)` gives the number of days; no other
   * check is made on it (an unparsable one makes the date invalid and the
   * insert fail, which the store method models).
   */
  function NewAuction(input: CreateInput, sellerId: nat, now: int, days: int): Auction {
    Auction(sellerId, input.title, input.category, input.itemCondition, input.description,
            input.startingPrice, ReserveOrNull(input.reservePrice), days, input.shippingOptions,
            ValidateImages(input.images), None, 0, PendingVerification, now + days * DayMs, now,
            None, None, None, None, None, None, None)
  }

  // ---------------------------------------------------------------------
  // Expiry sweep (server/server.js)

  predicate Expired(a: Auction, now: int) {
    a.status == Active && a.endsAt < now
  }

  function SweepOne(a: Auction, now: int): Auction {
    if Expired(a, now) then a.(status := Ended) else a
  }

  /** `UPDATE auctions SET status = 'ended' WHERE status = 'active' AND ends_at < NOW()` */
  function Swept(auctions: map<nat, Auction>, now: int): map<nat, Auction> {
    map id | id in auctions :: SweepOne(auctions[id], now)
  }

  /**
   * The sweep ends exactly the expired active auctions, writes only their
   * status, leaves no expired active auction behind, and a second sweep at the
   * same time changes nothing.
   */
  lemma SweepProperties(auctions: map<nat, Auction>, now: int)
    ensures var r := Swept(auctions, now);
      r.Keys == auctions.Keys &&
      (forall id :: id in auctions && Expired(auctions[id], now) ==> r[id] == auctions[id].(status := Ended)) &&
      (forall id :: id in auctions && !Expired(auctions[id], now) ==> r[id] == auctions[id]) &&
      (forall id :: id in r ==> !Expired(r[id], now)) &&
      Swept(r, now) == r
  {
  }

  /** The sweep keeps the ledger invariant (it writes no field the invariant reads). */
  lemma SweepKeepsLedger(auctions: map<nat, Auction>, bids: seq<Bid>, now: int)
    requires LedgerOk(auctions, bids)
    ensures LedgerOk(Swept(auctions, now), bids)
  {
  }

  // ---------------------------------------------------------------------
  // Watchlist (server/watchlistRoutes.js)

  datatype WatchError = AuctionIdRequired | WatchedAuctionNotFound | AlreadyWatched | NotWatched

  /** `SELECT * FROM watchlist WHERE user_id = u AND auction_id = a` is non-empty. */
  predicate IsWatched(watchlist: seq<WatchEntry>, u: nat, a: nat)
    decreases |watchlist|
  {
    watchlist != [] &&
    ((watchlist[0].userId == u && watchlist[0].auctionId == a) || IsWatched(watchlist[1..], u, a))
  }

  /** The scan agrees with membership of the pair. */
  lemma {:induction false} IsWatchedIff(watchlist: seq<WatchEntry>, u: nat, a: nat)
    ensures IsWatched(watchlist, u, a) <==> exists k :: 0 <= k < |watchlist| && watchlist[k].userId == u && watchlist[k].auctionId == a
    decreases |watchlist|
  {
    if watchlist != [] {
      IsWatchedIff(watchlist[1..], u, a);
      if exists k :: 0 <= k < |watchlist| && watchlist[k].userId == u && watchlist[k].auctionId == a {
        var k :| 0 <= k < |watchlist| && watchlist[k].userId == u && watchlist[k].auctionId == a;
        if k > 0 { assert watchlist[1..][k - 1] == watchlist[k]; }
      }
      if IsWatched(watchlist[1..], u, a) {
        var k :| 0 <= k < |watchlist[1..]| && watchlist[1..][k].userId == u && watchlist[1..][k].auctionId == a;
        assert watchlist[k + 1] == watchlist[1..][k];
      }
    }
  }

  ghost function Pairs(watchlist: seq<WatchEntry>): set<(nat, nat)> {
    set k | 0 <= k < |watchlist| :: (watchlist[k].userId, watchlist[k].auctionId)
  }

  ghost predicate NoDuplicatePairs(watchlist: seq<WatchEntry>) {
    forall i, j :: 0 <= i < j < |watchlist| ==>
      (watchlist[i].userId, watchlist[i].auctionId) != (watchlist[j].userId, watchlist[j].auctionId)
  }

  /** `DELETE FROM watchlist WHERE user_id = u AND auction_id = a` */
  function Unwatch(watchlist: seq<WatchEntry>, u: nat, a: nat): (r: seq<WatchEntry>)
    ensures forall e :: e in r <==> e in watchlist && !(e.userId == u && e.auctionId == a)
    ensures |r| <= |watchlist|
    decreases |watchlist|
  {
    if watchlist == [] then []
    else if watchlist[0].userId == u && watchlist[0].auctionId == a then Unwatch(watchlist[1..], u, a)
    else [watchlist[0]] + Unwatch(watchlist[1..], u, a)
  }

  /** Removing a pair takes that pair, and only it, out of the pair set, and keeps the rest duplicate-free. */
  lemma UnwatchPairs(watchlist: seq<WatchEntry>, u: nat, a: nat)
    requires NoDuplicatePairs(watchlist)
    ensures Pairs(Unwatch(watchlist, u, a)) == Pairs(watchlist) - {(u, a)}
    ensures NoDuplicatePairs(Unwatch(watchlist, u, a))
  {
    var r := Unwatch(watchlist, u, a);
    forall p | p in Pairs(r) ensures p in Pairs(watchlist) - {(u, a)} {
      var k :| 0 <= k < |r| && p == (r[k].userId, r[k].auctionId);
      assert r[k] in watchlist;
      var j :| 0 <= j < |watchlist| && watchlist[j] == r[k];
    }
    forall p | p in Pairs(watchlist) - {(u, a)} ensures p in Pairs(r) {
      var k :| 0 <= k < |watchlist| && p == (watchlist[k].userId, watchlist[k].auctionId);
      assert watchlist[k] in r;
      var j :| 0 <= j < |r| && r[j] == watchlist[k];
    }
    UnwatchNoDup(watchlist, u, a);
  }

  /** The rows a `WHERE NOT (user_id = u AND auction_id = a)` keeps. */
  function NotPair(u: nat, a: nat): WatchEntry -> bool {
    (e: WatchEntry) => !(e.userId == u && e.auctionId == a)
  }

  /** The deletion keeps the other rows in their scan order. */
  lemma {:induction false} UnwatchIsFilter(watchlist: seq<WatchEntry>, u: nat, a: nat)
    ensures Unwatch(watchlist, u, a) == Lists.Filter(watchlist, NotPair(u, a))
    decreases |watchlist|
  {
    if watchlist != [] {
      UnwatchIsFilter(watchlist[1..], u, a);
    }
  }

  lemma UnwatchNoDup(watchlist: seq<WatchEntry>, u: nat, a: nat)
    requires NoDuplicatePairs(watchlist)
    ensures NoDuplicatePairs(Unwatch(watchlist, u, a))
  {
    var rel := (x: WatchEntry, y: WatchEntry) => (x.userId, x.auctionId) != (y.userId, y.auctionId);
    UnwatchIsFilter(watchlist, u, a);
    Lists.FilterKeepsPairs(watchlist, NotPair(u, a), rel);
  }
}
