// The admin queue page admin/js/verification.js: the grace timer of a
// recently decided auction, the status labels, the client-side filters, the
// "time ago" text and the page window.
module VerificationPage {
  import opened Wrappers
  import opened Text
  import opened Market
  import Lists
  import Paging
  import AuctionQueries
  import Countdown

  /** `verifiedAt + 5 * 60 * 1000` */
  function GraceExpiry(verifiedAt: int): (e: int)
    ensures e - verifiedAt == AuctionQueries.GraceMs
  {
    verifiedAt + 5 * 60 * 1000
  }

  /** Minutes and seconds of the grace time left. */
  datatype Grace = Grace(minutes: nat, seconds: nat)

  /**
   * The grace timer: only for a verified auction that is no longer pending,
   * and only while its expiry is after now.
   */
  function GraceTimer(a: Auction, now: int): (g: Option<Grace>)
    ensures g.Some? <==> a.verifiedAt.Some? && a.status != PendingVerification && GraceExpiry(a.verifiedAt.value) > now
    ensures g.Some? ==> var left := GraceExpiry(a.verifiedAt.value) - now;
      g.value.seconds < 60 && g.value.minutes * 60000 + g.value.seconds * 1000 <= left < g.value.minutes * 60000 + g.value.seconds * 1000 + 1000
  {
    if a.verifiedAt.Some? && a.status != PendingVerification && GraceExpiry(a.verifiedAt.value) > now then
      var left := GraceExpiry(a.verifiedAt.value) - now;
      Some(Grace(left / 60000, left % 60000 / 1000))
    else None
  }

  /** `${mins}:${secs < 10 ? '0' + secs : secs}` */
  function GraceText(g: Grace): string {
    NatToString(g.minutes) + ":" + Pad2(g.seconds)
  }

  /** A decision made no later than now leaves at most five minutes on the timer. */
  lemma GraceAtMostFive(a: Auction, now: int)
    requires a.verifiedAt.Some? && a.verifiedAt.value <= now
    ensures GraceTimer(a, now).Some? ==> GraceTimer(a, now).value.minutes <= 5
    ensures GraceTimer(a, now).Some? && GraceTimer(a, now).value.minutes == 5 ==> GraceTimer(a, now).value.seconds == 0
  {
  }

  /**
   * Against the server's queue: for a decided auction the server sends, the
   * timer runs exactly when the decision is less than five minutes old; an
   * auction decided exactly five minutes ago is still listed, without a timer.
   */
  lemma GraceMatchesQueue(a: Auction, now: int)
    requires AuctionQueries.InQueue(a, now) && a.status != PendingVerification
    ensures GraceTimer(a, now).Some? <==> a.verifiedAt.value > now - AuctionQueries.GraceMs
    ensures a.verifiedAt.value == now - AuctionQueries.GraceMs ==> GraceTimer(a, now).None?
  {
  }

  /** The status shown in a row and its style class. */
  function StatusLabel(s: Status): (r: (string, string))
    ensures s == PendingVerification ==> r == ("Pending", "pending")
    ensures s == Active ==> r == ("Accepted", "approved")
    ensures s == Rejected ==> r == ("Rejected", "rejected")
    ensures s == MoreInfo ==> r == ("More Info", "more-info")
    ensures s.Ended? || s.OtherStatus? ==> r == ("Unknown", "pending")
  {
    match s
    case PendingVerification => ("Pending", "pending")
    case Active => ("Accepted", "approved")
    case Rejected => ("Rejected", "rejected")
    case MoreInfo => ("More Info", "more-info")
    case _ => ("Unknown", "pending")
  }

  /** Every label but "Unknown" names exactly one status. */
  lemma StatusLabelsDistinct(s: Status, t: Status)
    requires StatusLabel(s) == StatusLabel(t) && StatusLabel(s).0 != "Unknown"
    ensures s == t
  {
  }

  /**
   * `filterAuctions`: keeps the auctions the date test admits (the calendar
   * comparisons are the parameter `dateOk`) whose category is the chosen one
   * unless the choice is 'all'; the seller filter keeps everything.
   */
  function FilterAuctions(auctions: seq<Auction>, dateOk: Auction -> bool, category: string): (r: seq<Auction>)
    ensures forall k :: 0 <= k < |r| ==> r[k] in auctions && dateOk(r[k]) && (category == "all" || r[k].category == category)
    ensures forall i :: 0 <= i < |auctions| && dateOk(auctions[i]) && (category == "all" || auctions[i].category == category) ==>
      auctions[i] in r
  {
    Lists.Filter(auctions, Keep(dateOk, category))
  }

  function Keep(dateOk: Auction -> bool, category: string): Auction -> bool {
    (a: Auction) => dateOk(a) && (category == "all" || a.category == category)
  }

  /** With the category at 'all' and a date test every auction passes, nothing is dropped. */
  lemma FilterAllKeepsAll(auctions: seq<Auction>, dateOk: Auction -> bool)
    requires forall i :: 0 <= i < |auctions| ==> dateOk(auctions[i])
    ensures FilterAuctions(auctions, dateOk, "all") == auctions
  {
    Lists.FilterAll(auctions, Keep(dateOk, "all"));
  }

  datatype AgoUnit = DayUnit | HourUnit | MinuteUnit | SecondUnit

  /** `formatTimeAgo`: the count of the largest unit that is not zero, seconds otherwise (floored divisions). */
  function TimeAgo(diffMs: int): (r: (int, AgoUnit)) {
    var seconds := diffMs / 1000;
    var minutes := seconds / 60;
    var hours := minutes / 60;
    var days := hours / 24;
    if days > 0 then (days, DayUnit)
    else if hours > 0 then (hours, HourUnit)
    else if minutes > 0 then (minutes, MinuteUnit)
    else (seconds, SecondUnit)
  }

  function UnitName(u: AgoUnit): string {
    match u
    case DayUnit => "day"
    case HourUnit => "hour"
    case MinuteUnit => "minute"
    case SecondUnit => "second"
  }

  /** The text: the unit gets an "s" unless the count is 1. */
  function TimeAgoText(diffMs: int): string {
    var (n, u) := TimeAgo(diffMs);
    IntToString(n) + " " + UnitName(u) + (if n == 1 then "" else "s") + " ago"
  }

  /** Which unit is used depends only on the elapsed time, and the count is the whole number of that unit. */
  lemma TimeAgoUnits(diffMs: int)
    ensures TimeAgo(diffMs).1 == DayUnit <==> diffMs >= 86400000
    ensures TimeAgo(diffMs).1 == HourUnit <==> 3600000 <= diffMs < 86400000
    ensures TimeAgo(diffMs).1 == MinuteUnit <==> 60000 <= diffMs < 3600000
    ensures TimeAgo(diffMs).1 == SecondUnit <==> diffMs < 60000
    ensures TimeAgo(diffMs).1 == DayUnit ==> TimeAgo(diffMs).0 == diffMs / 86400000
    ensures TimeAgo(diffMs).1 == HourUnit ==> TimeAgo(diffMs).0 == diffMs / 3600000
    ensures TimeAgo(diffMs).1 == MinuteUnit ==> TimeAgo(diffMs).0 == diffMs / 60000
    ensures TimeAgo(diffMs).1 != SecondUnit ==> TimeAgo(diffMs).0 >= 1
  {
    NestedDiv(diffMs, 1000, 60);
    NestedDiv(diffMs, 60000, 60);
    NestedDiv(diffMs, 3600000, 24);
  }

  /** Floored division twice is floored division by the product. */
  lemma NestedDiv(x: int, a: int, b: int)
    requires a > 0 && b > 0
    ensures x / a / b == x / (a * b)
  {
    var q, r := x / a, x % a;
    var q2, r2 := q / b, q % b;
    assert x == (q2 * b + r2) * a + r;
    assert x == q2 * (a * b) + (r2 * a + r);
    assert 0 <= r2 * a + r < a * b by {
      Countdown.MulLe(r2, b - 1, a);
    }
    Countdown.DivModUnique(x, a * b, q2, r2 * a + r);
  }

  /** The queue's window: `totalPages || 1`, then the five-button window. */
  function QueueWindow(page: int, totalPages: int): (int, int) {
    Paging.PageWindow(page, if totalPages == 0 then 1 else totalPages)
  }

  /** The window lies within the pages (one page when the server reports none) and holds at most five. */
  lemma QueueWindowBounds(page: int, totalPages: nat)
    ensures var t := if totalPages == 0 then 1 else totalPages;
      var (s, e) := QueueWindow(page, totalPages);
      1 <= s <= e <= t && e - s + 1 <= 5 && (1 <= page <= t ==> s <= page <= e)
  {
  }
}
