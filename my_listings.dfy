// The seller's page js/my-listings.js: the listings are put into the
// scheduled, unsold, ended and active tabs, sorted, searched and paged. The
// removal of a scheduled listing is modelled as written, where it cannot reach
// the page's token and lists, and as intended, where it drops the listing.
module MyListings {
  import opened Wrappers
  import opened Text
  import opened Lists
  import Market
  import Sorting
  import Paging

  /** The fields of a listing the page reads; a `null` text is the empty string. */
  datatype Listing = Listing(
    id: nat, title: string, description: string, category: string, status: Market.Status,
    endsAt: int, createdAt: int, bidCount: Option<int>, currentBid: Option<int>, startingPrice: int,
    buyerId: Option<nat>, finalPrice: Option<int>)

  datatype Bucket = Scheduled | Unsold | Sold | Running

  /** `listing.buyer_id || listing.final_price`: either is set and not zero. */
  predicate HasBuyer(l: Listing) {
    (l.buyerId.Some? && l.buyerId.value != 0) || (l.finalPrice.Some? && l.finalPrice.value != 0)
  }

  /** `isTimeEnded`: the end is strictly before now. */
  predicate TimeEnded(l: Listing, now: int) {
    l.endsAt < now
  }

  predicate IsEnded(l: Listing, now: int) {
    l.status == Market.Ended || TimeEnded(l, now)
  }

  predicate ShouldBeUnsold(l: Listing, now: int) {
    l.status == Market.Rejected || l.status == Market.MoreInfo
    || (l.status == Market.PendingVerification && TimeEnded(l, now))
    || (IsEnded(l, now) && !HasBuyer(l))
  }

  /** The branches of the `forEach` body in `categorizeListings`, inner `else` included. */
  function BucketOf(l: Listing, now: int): Bucket {
    if l.status == Market.PendingVerification && !TimeEnded(l, now) then Scheduled
    else if ShouldBeUnsold(l, now) then Unsold
    else if IsEnded(l, now) then (if HasBuyer(l) then Sold else Unsold)
    else Running
  }

  /**
   * The four tabs described directly: pending listings whose end has not
   * passed are scheduled; rejected, more-info, expired-pending listings and
   * ended ones without a buyer are unsold; ended ones with a buyer are sold;
   * everything else is running. The inner no-buyer branch is never taken.
   */
  lemma BucketOfCases(l: Listing, now: int)
    ensures BucketOf(l, now) == Scheduled <==> l.status == Market.PendingVerification && l.endsAt >= now
    ensures BucketOf(l, now) == Unsold <==> ShouldBeUnsold(l, now)
    ensures BucketOf(l, now) == Sold <==> IsEnded(l, now) && HasBuyer(l) && !ShouldBeUnsold(l, now)
    ensures BucketOf(l, now) == Running <==>
              l.status !in {Market.PendingVerification, Market.Rejected, Market.MoreInfo, Market.Ended} && l.endsAt >= now
    ensures IsEnded(l, now) && !ShouldBeUnsold(l, now) && BucketOf(l, now) != Scheduled ==> HasBuyer(l)
  {
  }

  /** The listings of one tab, in input order. */
  function InBucket(s: seq<Listing>, now: int, b: Bucket): seq<Listing> {
    Filter(s, (l: Listing) => BucketOf(l, now) == b)
  }

  /** The four tabs together hold every listing exactly once. */
  lemma {:induction false} BucketsPartition(s: seq<Listing>, now: int)
    ensures |InBucket(s, now, Scheduled)| + |InBucket(s, now, Unsold)| + |InBucket(s, now, Sold)| + |InBucket(s, now, Running)| == |s|
  {
    if s != [] {
      BucketsPartition(s[1..], now);
    }
  }

  /** Filtering a list grown by one element filters that element on the end. */
  lemma FilterSnoc<T>(s: seq<T>, i: nat, f: T -> bool)
    requires i < |s|
    ensures Filter(s[..i + 1], f) == Filter(s[..i], f) + (if f(s[i]) then [s[i]] else [])
  {
    assert s[..i + 1] == s[..i] + [s[i]];
    FilterAppend(s[..i], [s[i]], f);
    assert [s[i]][1..] == [];
  }

  datatype Criteria = EndingSoon | RecentlyListed | MostBids | HighestPrice

  /** `sortFunctions[sortCriteria] || sortFunctions['ending-soon']` */
  function CriteriaOf(raw: string): Criteria {
    if raw == "recently-listed" then RecentlyListed
    else if raw == "most-bids" then MostBids
    else if raw == "highest-price" then HighestPrice
    else EndingSoon
  }

  /** `x || 0` and `current_bid || starting_price` on numbers. */
  function BidsOrZero(l: Listing): int {
    if l.bidCount.Some? then l.bidCount.value else 0
  }

  function PriceOf(l: Listing): int {
    if l.currentBid.Some? && l.currentBid.value != 0 then l.currentBid.value else l.startingPrice
  }

  /** The comparator as a key: ascending end, newest first, most bids first, highest price first. */
  function SortKey(c: Criteria): Listing -> seq<int> {
    match c
    case EndingSoon => (l: Listing) => [l.endsAt]
    case RecentlyListed => (l: Listing) => [-l.createdAt]
    case MostBids => (l: Listing) => [-BidsOrZero(l)]
    case HighestPrice => (l: Listing) => [-PriceOf(l)]
  }

  /** The order a criterion promises between an earlier and a later listing. */
  predicate InOrder(c: Criteria, x: Listing, y: Listing) {
    match c
    case EndingSoon => x.endsAt <= y.endsAt
    case RecentlyListed => x.createdAt >= y.createdAt
    case MostBids => BidsOrZero(x) >= BidsOrZero(y)
    case HighestPrice => PriceOf(x) >= PriceOf(y)
  }

  /** A list sorted by a criterion's key is ordered by the field that criterion names. */
  lemma SortedByCriteria(c: Criteria, s: seq<Listing>)
    requires Sorting.SortedBy(s, SortKey(c))
    ensures forall i, j :: 0 <= i < j < |s| ==> InOrder(c, s[i], s[j])
  {
    forall i, j | 0 <= i < j < |s| ensures InOrder(c, s[i], s[j]) {
      var ki, kj := SortKey(c)(s[i]), SortKey(c)(s[j]);
      assert Sorting.KeyLe(ki, kj);
      assert ki[1..] == [] && kj[1..] == [];
    }
  }

  /** `performSearch`'s test: title, description or category contains the lower-cased term. */
  predicate SearchHit(l: Listing, term: string) {
    Contains(Lower(l.title), term) || Contains(Lower(l.description), term) || Contains(Lower(l.category), term)
  }

  /** The four tab lists. */
  datatype Tabs = Tabs(scheduled: seq<Listing>, unsold: seq<Listing>, sold: seq<Listing>, running: seq<Listing>)

  /** The tabs of a listing array, each in input order. */
  function TabsOf(s: seq<Listing>, now: int): Tabs {
    Tabs(InBucket(s, now, Scheduled), InBucket(s, now, Unsold), InBucket(s, now, Sold), InBucket(s, now, Running))
  }

  /** `l` pushed onto the tab `b`. */
  function AddTo(t: Tabs, l: Listing, b: Bucket): Tabs {
    match b
    case Scheduled => t.(scheduled := t.scheduled + [l])
    case Unsold => t.(unsold := t.unsold + [l])
    case Sold => t.(sold := t.sold + [l])
    case Running => t.(running := t.running + [l])
  }

  /** One more listing lands at the end of its own tab. */
  lemma TabsSnoc(s: seq<Listing>, i: nat, now: int)
    requires i < |s|
    ensures TabsOf(s[..i + 1], now) == AddTo(TabsOf(s[..i], now), s[i], BucketOf(s[i], now))
  {
    FilterSnoc(s, i, (l: Listing) => BucketOf(l, now) == Scheduled);
    FilterSnoc(s, i, (l: Listing) => BucketOf(l, now) == Unsold);
    FilterSnoc(s, i, (l: Listing) => BucketOf(l, now) == Sold);
    FilterSnoc(s, i, (l: Listing) => BucketOf(l, now) == Running);
  }

  /** The loop's step: the listing goes to the end of the tab its branch names, the other tabs stay. */
  lemma TabsStep(s: seq<Listing>, i: nat, now: int,
                 scheduled: seq<Listing>, unsold: seq<Listing>, sold: seq<Listing>, running: seq<Listing>)
    requires i < |s| && Tabs(scheduled, unsold, sold, running) == TabsOf(s[..i], now)
    ensures BucketOf(s[i], now) == Scheduled ==> TabsOf(s[..i + 1], now) == Tabs(scheduled + [s[i]], unsold, sold, running)
    ensures BucketOf(s[i], now) == Unsold ==> TabsOf(s[..i + 1], now) == Tabs(scheduled, unsold + [s[i]], sold, running)
    ensures BucketOf(s[i], now) == Sold ==> TabsOf(s[..i + 1], now) == Tabs(scheduled, unsold, sold + [s[i]], running)
    ensures BucketOf(s[i], now) == Running ==> TabsOf(s[..i + 1], now) == Tabs(scheduled, unsold, sold, running + [s[i]])
  {
    TabsSnoc(s, i, now);
  }

  /** Every tab sorted by the same key. */
  function SortedTabs(t: Tabs, key: Listing -> seq<int>): (r: Tabs)
    ensures Sorting.SortedBy(r.scheduled, key) && Sorting.SortedBy(r.unsold, key)
    ensures Sorting.SortedBy(r.sold, key) && Sorting.SortedBy(r.running, key)
    ensures multiset(r.scheduled) == multiset(t.scheduled) && multiset(r.unsold) == multiset(t.unsold)
    ensures multiset(r.sold) == multiset(t.sold) && multiset(r.running) == multiset(t.running)
  {
    Tabs(Sorting.SortBy(t.scheduled, key), Sorting.SortBy(t.unsold, key), Sorting.SortBy(t.sold, key), Sorting.SortBy(t.running, key))
  }

  /** Every tab narrowed the same way. */
  function FilteredTabs(t: Tabs, f: Listing -> bool): Tabs {
    Tabs(Filter(t.scheduled, f), Filter(t.unsold, f), Filter(t.sold, f), Filter(t.running, f))
  }

  /** The page's state: the shown and the original tabs, the page and the search term. */
  class MyListingsPage {
    var shown: Tabs
    var originals: Tabs
    var currentPage: int
    var searchTerm: string
    const itemsPerPage: nat

    constructor (perPage: nat)
      ensures itemsPerPage == perPage && currentPage == 1 && searchTerm == []
      ensures shown == Tabs([], [], [], []) && originals == shown
    {
      itemsPerPage := perPage;
      currentPage := 1;
      searchTerm := [];
      shown := Tabs([], [], [], []);
      originals := Tabs([], [], [], []);
    }

    /** `categorizeListings`: both copies of every tab are rebuilt; an absent list leaves them empty. */
    method Categorize(listings: Option<seq<Listing>>, now: int)
      modifies this`shown, this`originals
      ensures shown == TabsOf(if listings.Some? then listings.value else [], now)
      ensures originals == shown
    {
      var scheduled, unsold, sold, running := [], [], [], [];
      if listings.Some? {
        var s := listings.value;
        var i := 0;
        while i < |s|
          invariant 0 <= i <= |s|
          invariant Tabs(scheduled, unsold, sold, running) == TabsOf(s[..i], now)
        {
          var l := s[i];
          TabsStep(s, i, now, scheduled, unsold, sold, running);
          var isTimeEnded := l.endsAt < now;
          var isEnded := l.status == Market.Ended || isTimeEnded;
          var shouldBeUnsold := l.status == Market.Rejected || l.status == Market.MoreInfo
            || (l.status == Market.PendingVerification && isTimeEnded) || (isEnded && !HasBuyer(l));
          if l.status == Market.PendingVerification && !isTimeEnded {
            scheduled := scheduled + [l];
          } else if shouldBeUnsold {
            unsold := unsold + [l];
          } else if isEnded {
            if HasBuyer(l) {
              sold := sold + [l];
            } else {
              unsold := unsold + [l];
            }
          } else {
            running := running + [l];
          }
          i := i + 1;
        }
        assert s[..|s|] == s;
      }
      shown := Tabs(scheduled, unsold, sold, running);
      originals := shown;
    }

    /** `sortListings`: every shown tab is sorted in place by the criterion; the originals stay as they were. */
    method SortTabs(raw: string)
      modifies this`shown
      ensures shown == SortedTabs(old(shown), SortKey(CriteriaOf(raw)))
    {
      shown := SortedTabs(shown, SortKey(CriteriaOf(raw)));
    }

    /**
     * `performSearch`: the term is the trimmed, lower-cased input; an empty
     * term restores the originals, any other keeps of each original tab the
     * listings it hits; the page goes back to 1 either way.
     */
    method PerformSearch(input: string)
      modifies this`shown, this`searchTerm, this`currentPage
      ensures searchTerm == Lower(Trim(input)) && currentPage == 1
      ensures searchTerm == [] ==> shown == originals
      ensures searchTerm != [] ==> shown == FilteredTabs(originals, (l: Listing) => SearchHit(l, Lower(Trim(input))))
    {
      var term := Lower(Trim(input));
      searchTerm := term;
      if term == [] {
        shown := originals;
      } else {
        shown := FilteredTabs(originals, (l: Listing) => SearchHit(l, term));
      }
      currentPage := 1;
    }

    /**
     * `removeScheduledListing` as written. It is a top-level function, but
     * `token`, `allListings` and `originalListings` are bound only inside the
     * `DOMContentLoaded` callback. Reading `token` for the request headers
     * throws a ReferenceError before anything is sent, unless another script
     * declares a global `token` (`tokenIsGlobal`). Even then, the throw for a
     * refused answer and the throw on reaching `allListings` after an accepted
     * one both land in the catch. So every path shows the failure alert, and
     * neither scheduled list changes (the method modifies nothing), whatever
     * the server answered.
     */
    method RemoveScheduledAsWritten(id: nat, tokenIsGlobal: bool, accepted: bool) returns (deleteSent: bool, alerted: bool)
      ensures deleteSent == tokenIsGlobal
      ensures alerted
    {
      deleteSent, alerted := false, false;
      if !tokenIsGlobal {
        // ReferenceError on `token`, caught
        alerted := true;
        return;
      }
      deleteSent := true;
      if !accepted {
        // `throw new Error('Failed to remove listing')`, caught
        alerted := true;
        return;
      }
      // ReferenceError on `allListings`, caught
      alerted := true;
    }

    /**
     * `removeScheduledListing` as intended, with the page's own `token` and
     * lists in scope: a refused delete shows the alert and changes nothing;
     * an accepted one drops that id from both scheduled lists.
     */
    method RemoveScheduled(id: nat, accepted: bool) returns (alerted: bool)
      modifies this`shown, this`originals
      ensures alerted == !accepted
      ensures !accepted ==> shown == old(shown) && originals == old(originals)
      ensures accepted ==> shown == old(shown).(scheduled := Filter(old(shown).scheduled, (l: Listing) => l.id != id))
      ensures accepted ==> originals == old(originals).(scheduled := Filter(old(originals).scheduled, (l: Listing) => l.id != id))
    {
      if !accepted {
        return true;
      }
      shown := shown.(scheduled := Filter(shown.scheduled, (l: Listing) => l.id != id));
      originals := originals.(scheduled := Filter(originals.scheduled, (l: Listing) => l.id != id));
      alerted := false;
    }

    /** `Math.ceil(listings.length / itemsPerPage) || 1` for a tab. */
    function TotalPages(tab: seq<Listing>): (n: nat)
      requires itemsPerPage > 0
      reads this
      ensures n >= 1 && (tab != [] ==> n == Paging.CeilDiv(|tab|, itemsPerPage))
    {
      Paging.PageCountOrOne(|tab|, itemsPerPage)
    }

    /** The rows of a tab on the current page. */
    function OnPage(tab: seq<Listing>): seq<Listing>
      reads this
    {
      Paging.Paginate(tab, currentPage, itemsPerPage)
    }
  }

  /** Removing a listing drops every entry with that id and no other. */
  lemma {:induction false} RemoveDropsOnlyThatId(s: seq<Listing>, id: nat)
    ensures var r := Filter(s, (l: Listing) => l.id != id);
      (forall k :: 0 <= k < |r| ==> r[k].id != id) &&
      |r| == |s| - |Filter(s, (l: Listing) => l.id == id)|
  {
    if s != [] {
      RemoveDropsOnlyThatId(s[1..], id);
    }
  }

  /**
   * The two halves differ whenever the listing is there: the intended removal
   * takes a scheduled listing out of its list, which the code as written
   * leaves as it was.
   */
  lemma RemovedListingLeaves(s: seq<Listing>, l: Listing)
    requires l in s
    ensures l !in Filter(s, (m: Listing) => m.id != l.id)
    ensures Filter(s, (m: Listing) => m.id != l.id) != s
  {
    RemoveDropsOnlyThatId(s, l.id);
  }
}
