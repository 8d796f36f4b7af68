// The buyer's page js/my-bids.js: the badge of an active bid, the paid flag
// of a won one, the numbered page bar, the watchlist counter, the search box
// and the highlighting of the search term.
module MyBids {
  import opened Wrappers
  import opened Text
  import Paging

  datatype Badge = HighestBidder | WaitingForSeller | OutbidBadge

  /**
   * `createActiveBidHTML`: the user is the highest bidder when the user's
   * amount equals the highest bid; the auction has ended when now is past
   * its end.
   */
  function ActiveBadge(userAmount: int, highestBid: int, endsAt: int, now: int): (b: Badge)
    ensures b == HighestBidder <==> userAmount == highestBid && now <= endsAt
    ensures b == WaitingForSeller <==> userAmount == highestBid && now > endsAt
    ensures b == OutbidBadge <==> userAmount != highestBid
  {
    var isHighestBidder := userAmount == highestBid;
    var isEnded := now > endsAt;
    if isHighestBidder then (if isEnded then WaitingForSeller else HighestBidder) else OutbidBadge
  }

  datatype BidAction = WaitingInfo | IncreaseBid | BidAgain

  /** The card's action: a note while the seller decides, else a link to bid again or to raise one's own bid. */
  function ActionOf(b: Badge): (a: BidAction)
    ensures a == WaitingInfo <==> b == WaitingForSeller
    ensures a == IncreaseBid <==> b == HighestBidder
  {
    match b
    case WaitingForSeller => WaitingInfo
    case HighestBidder => IncreaseBid
    case OutbidBadge => BidAgain
  }

  /** `bid.status === 'paid'` */
  predicate IsPaid(status: string) {
    status == "paid"
  }

  /** `Math.max(0, currentCount + change)` */
  function NewWatchCount(current: nat, change: int): (r: nat)
    ensures current + change >= 0 ==> r == current + change
    ensures current + change < 0 ==> r == 0
  {
    if current + change < 0 then 0 else current + change
  }

  /** Adding one watched item and removing it again gives the count back; removing from zero stays at zero. */
  lemma WatchCountRoundTrip(current: nat)
    ensures NewWatchCount(NewWatchCount(current, 1), -1) == current
    ensures NewWatchCount(0, -1) == 0
  {
  }

  /** The `pagination` object of the server's answer. */
  datatype Pagination = Pagination(page: int, totalPages: int, hasPrevPage: bool, hasNextPage: bool)

  /**
   * `updatePagination`: hidden without pagination or with at most one page;
   * otherwise Previous, one button per page 1..totalPages (the loop), Next.
   */
  method PageButtons(p: Option<Pagination>) returns (shown: bool, buttons: seq<Paging.PageItem>)
    ensures shown <==> p.Some? && p.value.totalPages > 1
    ensures !shown ==> buttons == []
    ensures shown ==>
      |buttons| == p.value.totalPages + 2 &&
      buttons[0] == Paging.Prev(p.value.hasPrevPage) && buttons[|buttons| - 1] == Paging.Next(p.value.hasNextPage) &&
      forall k :: 1 <= k <= p.value.totalPages ==> buttons[k] == Paging.Number(k, k == p.value.page)
  {
    if p.None? || p.value.totalPages <= 1 {
      return false, [];
    }
    var numbers := Paging.NumberButtons(1, p.value.totalPages, p.value.page);
    buttons := [Paging.Prev(p.value.hasPrevPage)] + numbers + [Paging.Next(p.value.hasNextPage)];
    shown := true;
    forall k | 1 <= k <= p.value.totalPages ensures buttons[k] == Paging.Number(k, k == p.value.page) {
      assert buttons[k] == numbers[k - 1];
    }
  }

  /** The shown bar has exactly one active button, the current page's, when that page exists. */
  lemma OneActiveButton(p: Pagination, buttons: seq<Paging.PageItem>)
    requires p.totalPages > 1 && 1 <= p.page <= p.totalPages
    requires |buttons| == p.totalPages + 2
    requires forall k :: 1 <= k <= p.totalPages ==> buttons[k] == Paging.Number(k, k == p.page)
    ensures buttons[p.page].Number? && buttons[p.page].active
    ensures forall k :: 1 <= k <= p.totalPages && k != p.page ==> !buttons[k].active
  {
  }

  /** The page's search state; `fetches` counts the calls to `fetchBids`. */
  class MyBidsPage {
    var searchTerm: string
    var currentPage: int
    var fetches: nat

    constructor ()
      ensures searchTerm == [] && currentPage == 1 && fetches == 0
    {
      searchTerm := [];
      currentPage := 1;
      fetches := 0;
    }

    /** `performSearch`: only a changed trimmed term resets the page and refetches. */
    method PerformSearch(input: string)
      modifies this
      ensures Trim(input) != old(searchTerm) ==>
        searchTerm == Trim(input) && currentPage == 1 && fetches == old(fetches) + 1
      ensures Trim(input) == old(searchTerm) ==>
        searchTerm == old(searchTerm) && currentPage == old(currentPage) && fetches == old(fetches)
    {
      var term := Trim(input);
      if term != searchTerm {
        searchTerm := term;
        currentPage := 1;
        fetches := fetches + 1;
      }
    }
  }

  const Open: string := "<span class=\"highlight\">"
  const Close: string := "</span>"

  /**
   * `highlightSearchTerm`: the term is escaped, so the pattern matches it
   * literally, ignoring case, everywhere from left to right; each match is
   * wrapped in a highlight span. An empty term returns the text.
   */
  function Highlight(text: string, term: string): (r: string)
    ensures term == [] ==> r == text
    decreases |text|
  {
    if term == [] || text == [] then text
    else if StartsWith(Lower(text), Lower(term)) then
      Open + text[..|term|] + Close + Highlight(text[|term|..], term)
    else [text[0]] + Highlight(text[1..], term)
  }

  /** Lower-casing commutes with dropping the first character. */
  lemma LowerTail(s: string)
    requires s != []
    ensures Lower(s)[1..] == Lower(s[1..])
  {
  }

  /** A text that does not contain the term, ignoring case, comes back unchanged. */
  lemma {:induction false} HighlightAbsent(text: string, term: string)
    requires !Contains(Lower(text), Lower(term))
    ensures Highlight(text, term) == text
    decreases |text|
  {
    if term != [] && text != [] {
      LowerTail(text);
      HighlightAbsent(text[1..], term);
    }
  }
}
