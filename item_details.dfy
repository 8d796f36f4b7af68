// The item page js/item-details.js: which bidding panel is shown, the price
// texts it writes, the check `placeBid` makes before sending a bid, and the
// shipping list.
module ItemDetails {
  import opened Wrappers
  import opened Text
  import opened Market
  import Money
  import AuctionQueries

  /** `status === 'ended' || now > ends_at` */
  predicate IsEnded(a: Auction, now: int) {
    a.status == Ended || now > a.endsAt
  }

  /** `user.id === seller_id`; a visitor without a stored user owns nothing. */
  predicate IsOwner(a: Auction, viewer: Option<nat>) {
    viewer == Some(a.sellerId)
  }

  /** `current_bid && bid_count && bid_count > 0` */
  predicate HasBids(a: Auction) {
    a.currentBid.Some? && a.currentBid.value != 0 && a.bidCount > 0
  }

  datatype Panel = OwnerPanel(sellNow: bool) | BidForm(suggestions: seq<int>) | EndedMessage

  /** The quick-bid buttons: five, ten, twenty-five and fifty euros over the shown price. */
  function Suggestions(price: int): (r: seq<int>)
    ensures |r| == 4 && forall i :: 0 <= i < 4 ==> r[i] > price
    ensures forall i, j :: 0 <= i < j < 4 ==> r[i] < r[j]
  {
    [price + 500, price + 1000, price + 2500, price + 5000]
  }

  /** `populateBidding`: the owner's note, the bid form, or the ended message. */
  function PanelOf(a: Auction, viewer: Option<nat>, now: int): (p: Panel)
    ensures p.OwnerPanel? <==> IsOwner(a, viewer) && !IsEnded(a, now)
    ensures p.BidForm? <==> !IsOwner(a, viewer) && !IsEnded(a, now)
    ensures p == EndedMessage <==> IsEnded(a, now)
    ensures p.OwnerPanel? ==> (p.sellNow <==> HasBids(a))
    ensures p.BidForm? ==> p.suggestions == Suggestions(AuctionQueries.PriceShown(a))
  {
    var isOwner, ended := IsOwner(a, viewer), IsEnded(a, now);
    if isOwner && !ended then OwnerPanel(HasBids(a))
    else if !isOwner && !ended then BidForm(Suggestions(AuctionQueries.PriceShown(a)))
    else EndedMessage
  }

  /** Sell Now is offered only to the seller of a running auction that has a bid. */
  lemma SellNowOnlyForOwner(a: Auction, viewer: Option<nat>, now: int)
    ensures var p := PanelOf(a, viewer, now);
      p.OwnerPanel? && p.sellNow <==> IsOwner(a, viewer) && !IsEnded(a, now) && HasBids(a)
    ensures viewer.None? ==> !PanelOf(a, viewer, now).OwnerPanel?
  {
  }

  datatype ReserveNote = NoReserve | ReserveMet | ReserveNotMet

  /** A reserve is reported only when one is set (and non-zero); it is met once the shown price reaches it. */
  function ReserveOf(a: Auction): (r: ReserveNote)
    ensures r == NoReserve <==> a.reservePrice.None? || a.reservePrice.value == 0
    ensures r == ReserveMet <==>
      a.reservePrice.Some? && a.reservePrice.value != 0 && AuctionQueries.PriceShown(a) >= a.reservePrice.value
  {
    if a.reservePrice.None? || a.reservePrice.value == 0 then NoReserve
    else if AuctionQueries.PriceShown(a) >= a.reservePrice.value then ReserveMet
    else ReserveNotMet
  }

  /** `${bid_count || 0} bid${bid_count !== 1 ? 's' : ''}`; a missing count reads "0 bids". */
  function BidCountLabel(count: Option<nat>): (r: string)
    ensures count == Some(1) ==> r == "1 bid"
    ensures count.None? ==> r == "0 bids"
    ensures count.Some? && count.value != 1 ==> r == NatToString(count.value) + " bids"
  {
    var n := if count.Some? then count.value else 0;
    NatToString(n) + " bid" + (if count == Some(1) then "" else "s")
  }

  /** `'€' + parseFloat(price).toFixed(2)` */
  function PriceText(p: int): string {
    "€" + (if p >= 0 then Money.FormatCents(p) else "-" + Money.FormatCents(-p))
  }

  /** The text of `.current-bid-amount`. */
  function CurrentBidText(a: Auction): string {
    PriceText(AuctionQueries.PriceShown(a))
  }

  datatype PlaceVerdict = NotLoggedIn | InvalidBid | BelowCurrent(current: int) | Send(amount: int)

  /**
   * The checks of `placeBid` with the character stripped from the shown
   * price as a parameter: no token, then a `NaN` or non-positive amount, then
   * an amount not above the shown price. A missing price element counts as
   * 0; a price that reads as `NaN` makes the last test false.
   */
  function CheckBid(hasToken: bool, amount: Option<int>, bidText: Option<string>, strip: char): (v: PlaceVerdict)
    ensures v == NotLoggedIn <==> !hasToken
    ensures v == InvalidBid <==> hasToken && (amount.None? || amount.value <= 0)
    ensures v.Send? ==> hasToken && amount.Some? && v.amount == amount.value > 0
  {
    var current := if bidText.None? then Some(0) else Money.ParseFloatText(ReplaceFirst(bidText.value, strip, ""));
    if !hasToken then NotLoggedIn
    else if amount.None? || amount.value <= 0 then InvalidBid
    else if current.Some? && amount.value <= current.value then BelowCurrent(current.value)
    else Send(amount.value)
  }

  /** `placeBid` as written: it strips a dollar sign from a text that starts with a euro sign. */
  function PlaceBidAsWritten(hasToken: bool, amount: Option<int>, bidText: Option<string>): PlaceVerdict {
    CheckBid(hasToken, amount, bidText, '$')
  }

  /** `placeBid` stripping the sign the page actually writes. */
  function PlaceBid(hasToken: bool, amount: Option<int>, bidText: Option<string>): PlaceVerdict {
    CheckBid(hasToken, amount, bidText, '€')
  }

  /** The price texts hold only digits and a dot after the sign. */
  lemma FormatCentsChars(c: nat)
    ensures forall i :: 0 <= i < |Money.FormatCents(c)| ==> IsDigit(Money.FormatCents(c)[i]) || Money.FormatCents(c)[i] == '.'
  {
  }

  /** As written, the shown price never blocks a bid: every positive amount is sent, however low. */
  lemma PlaceBidAsWrittenNeverBlocks(c: nat, amount: int)
    requires amount > 0
    ensures PlaceBidAsWritten(true, Some(amount), Some(PriceText(c))) == Send(amount)
  {
    var t := PriceText(c);
    FormatCentsChars(c);
    assert '$' !in t by {
      assert forall i :: 0 <= i < |t| ==> t[i] != '$' by {
        assert forall i :: 1 <= i < |t| ==> t[i] == Money.FormatCents(c)[i - 1];
      }
    }
  }

  /** A bid of one euro on an item shown at one hundred euros is sent as written. */
  lemma PlaceBidAsWrittenExample()
    ensures PlaceBidAsWritten(true, Some(100), Some(PriceText(10000))) == Send(100)
  {
    PlaceBidAsWrittenNeverBlocks(10000, 100);
  }

  /** Stripping the euro sign, the check refuses exactly the amounts not above the shown price. */
  lemma PlaceBidBlocksLowBids(c: nat, amount: int)
    requires amount > 0
    ensures PlaceBid(true, Some(amount), Some(PriceText(c))) == Send(amount) <==> amount > c
    ensures PlaceBid(true, Some(amount), Some(PriceText(c))) == BelowCurrent(c) <==> amount <= c
  {
    var t := PriceText(c);
    assert ReplaceFirst(t, '€', "") == Money.FormatCents(c);
    Money.FormatParse(c);
  }

  /** On the page, with a price text the server's price gives, the corrected check sends only bids above it. */
  lemma PlaceBidOnPage(a: Auction, amount: int)
    requires AuctionQueries.PriceShown(a) >= 0
    ensures PlaceBid(true, Some(amount), Some(CurrentBidText(a))).Send? <==> amount > 0 && amount > AuctionQueries.PriceShown(a)
  {
    if amount > 0 {
      PlaceBidBlocksLowBids(AuctionQueries.PriceShown(a), amount);
    }
  }

  // ---- shipping ----

  /** One element of the options array: an object with an optional `type`, a string, or anything else. */
  datatype ShipOption = ObjectOption(kind: Option<string>) | TextOption(text: string) | OtherOption

  /** The `shipping_options` value: falsy, a JSON text (with the result of parsing it, `None` on a syntax error), an array, or another value. */
  datatype ShippingInput =
    | NoOptions
    | JsonText(parsed: Option<ParsedJson>)
    | OptionArray(options: seq<ShipOption>)
    | OtherInput

  datatype ParsedJson = ParsedArray(options: seq<ShipOption>) | ParsedOther

  datatype ShipKind = LocalPickup | DomesticShipping | InternationalShipping | PlainShipping

  datatype ShippingView = NoShippingInfo | ShippingError | ShippingList(kinds: seq<ShipKind>)

  /** The title of one option: objects by their exact `type`, strings by what they mention, in the order pickup, international, domestic. */
  function KindOf(o: ShipOption): ShipKind {
    match o
    case ObjectOption(k) =>
      if k == Some("pickup") then LocalPickup
      else if k == Some("domestic") then DomesticShipping
      else if k == Some("international") then InternationalShipping
      else PlainShipping
    case TextOption(t) =>
      if Contains(Lower(t), "pickup") then LocalPickup
      else if Contains(Lower(t), "international") then InternationalShipping
      else if Contains(Lower(t), "domestic") then DomesticShipping
      else PlainShipping
    case OtherOption => PlainShipping
  }

  /**
   * A text option is read for "pickup" first, then "international", then
   * "domestic", ignoring case: a text naming several gets the first of them.
   */
  lemma TextKindPrecedence(t: string)
    ensures KindOf(TextOption(t)) == LocalPickup <==> Contains(Lower(t), "pickup")
    ensures KindOf(TextOption(t)) == InternationalShipping <==>
      !Contains(Lower(t), "pickup") && Contains(Lower(t), "international")
    ensures KindOf(TextOption(t)) == DomesticShipping <==>
      !Contains(Lower(t), "pickup") && !Contains(Lower(t), "international") && Contains(Lower(t), "domestic")
    ensures KindOf(TextOption(Upper(t))) == KindOf(TextOption(t))
  {
    LowerUpper(t);
  }

  /** Upper-casing first does not change the lower case. */
  lemma LowerUpper(t: string)
    ensures Lower(Upper(t)) == Lower(t)
  {
    assert forall i :: 0 <= i < |t| ==> LowerChar(UpperChar(t[i])) == LowerChar(t[i]);
  }

  /** A text mentioning none of the three words is plain shipping; an object's type must match exactly. */
  lemma KindOfUnknown(t: string, k: string)
    requires !Contains(Lower(t), "pickup") && !Contains(Lower(t), "international") && !Contains(Lower(t), "domestic")
    requires k != "pickup" && k != "domestic" && k != "international"
    ensures KindOf(TextOption(t)) == PlainShipping
    ensures KindOf(ObjectOption(Some(k))) == PlainShipping
    ensures KindOf(ObjectOption(None)) == PlainShipping && KindOf(OtherOption) == PlainShipping
  {
  }

  /** The options array the input stands for, if any. */
  function OptionsOf(input: ShippingInput): Option<seq<ShipOption>> {
    match input
    case OptionArray(os) => Some(os)
    case JsonText(Some(ParsedArray(os))) => Some(os)
    case _ => None
  }

  /** `renderShippingOptions`: one entry per option, in order; no information for a missing, non-array or empty value; a message when the JSON text does not parse. */
  method RenderShippingOptions(input: ShippingInput) returns (view: ShippingView)
    ensures view == ShippingError <==> input == JsonText(None)
    ensures view == NoShippingInfo <==> input != JsonText(None) && (OptionsOf(input).None? || OptionsOf(input).value == [])
    ensures view.ShippingList? ==>
      OptionsOf(input).Some? &&
      |view.kinds| == |OptionsOf(input).value| > 0 &&
      forall i :: 0 <= i < |view.kinds| ==> view.kinds[i] == KindOf(OptionsOf(input).value[i])
  {
    if input == NoOptions {
      return NoShippingInfo;
    }
    if input == JsonText(None) {
      return ShippingError;
    }
    var options := OptionsOf(input);
    if options.None? || options.value == [] {
      return NoShippingInfo;
    }
    var os := options.value;
    var kinds: seq<ShipKind> := [];
    var i := 0;
    while i < |os|
      invariant 0 <= i <= |os|
      invariant |kinds| == i
      invariant forall k :: 0 <= k < i ==> kinds[k] == KindOf(os[k])
    {
      kinds := kinds + [KindOf(os[i])];
      i := i + 1;
    }
    view := ShippingList(kinds);
  }
}
