// Bidder names in the bid lists (js/item-details.js and js/bid-manager.js)
// and the bid form of js/bid-manager.js with the panel it refreshes after a
// successful bid.
module Bidders {
  import opened Wrappers
  import opened Text
  import Paging
  import Money

  /** First character, one `*` per inner character, last character; names of at most two characters are kept. */
  function Mask(name: string): (r: string)
    ensures |r| == |name|
    ensures |name| <= 2 ==> r == name
    ensures |name| > 2 ==>
      r[0] == name[0] && r[|r| - 1] == name[|name| - 1] &&
      forall i :: 0 < i < |name| - 1 ==> r[i] == '*'
  {
    if |name| <= 2 then name else [name[0]] + Repeat('*', |name| - 2) + [name[|name| - 1]]
  }

  /** Masking a masked name changes nothing, and two names of the same length and ends mask alike. */
  lemma MaskIdempotent(name: string, other: string)
    ensures Mask(Mask(name)) == Mask(name)
    ensures |name| == |other| > 2 && name[0] == other[0] && name[|name| - 1] == other[|other| - 1] ==>
      Mask(name) == Mask(other)
  {
    var m := Mask(name);
    if |name| > 2 {
      assert Mask(m) == m by {
        assert forall i :: 0 <= i < |m| ==> Mask(m)[i] == m[i];
      }
    }
    if |name| == |other| > 2 && name[0] == other[0] && name[|name| - 1] == other[|other| - 1] {
      assert forall i :: 0 <= i < |name| ==> Mask(name)[i] == Mask(other)[i];
    }
  }

  /** `formatBidder` of js/item-details.js: the signed-in user sees the name with " (You)", others the masked name. */
  function DetailBidder(name: string, isCurrentUser: bool): (r: string)
    ensures isCurrentUser ==> r == name + " (You)"
    ensures !isCurrentUser ==> r == Mask(name)
  {
    if isCurrentUser then name + " (You)" else Mask(name)
  }

  /** The string a template literal prints for a name the server may send as `null`. */
  function Shown(name: Option<string>): string {
    if name.Some? then name.value else "null"
  }

  /** `isCurrentUser`: the stored user's id is strictly equal to the given one; both absent counts as equal. */
  predicate IsCurrentUser(storedId: Option<nat>, userId: Option<nat>) {
    storedId == userId
  }

  /**
   * `formatBidder` of js/bid-manager.js: the current user first (even with a
   * missing name, printed as "null"), then a missing or empty name is
   * 'Anonymous Bidder', then the masked name.
   */
  function ManagerBidder(name: Option<string>, storedId: Option<nat>, userId: Option<nat>): (r: string)
    ensures IsCurrentUser(storedId, userId) ==> r == Shown(name) + " (You)"
    ensures !IsCurrentUser(storedId, userId) && (name.None? || name.value == []) ==> r == "Anonymous Bidder"
    ensures !IsCurrentUser(storedId, userId) && name.Some? && name.value != [] ==> r == Mask(name.value)
  {
    if IsCurrentUser(storedId, userId) then Shown(name) + " (You)"
    else if name.Some? && name.value != [] then Mask(name.value)
    else "Anonymous Bidder"
  }

  /** The two pages show another bidder's present name alike; for oneself they differ only on a missing name. */
  lemma BidderFormatsAgree(name: string, storedId: Option<nat>, userId: Option<nat>)
    requires name != []
    ensures ManagerBidder(Some(name), storedId, userId) == DetailBidder(name, IsCurrentUser(storedId, userId))
    ensures ManagerBidder(None, storedId, storedId) == "null (You)"
  {
  }

  /** Nobody else's name is ever shown in full when it is longer than two characters. */
  lemma OthersNeverInFull(name: string, storedId: Option<nat>, userId: Option<nat>)
    requires |name| > 2 && storedId != userId
    requires exists i :: 0 < i < |name| - 1 && name[i] != '*'
    ensures ManagerBidder(Some(name), storedId, userId) != name
  {
    var i :| 0 < i < |name| - 1 && name[i] != '*';
    assert ManagerBidder(Some(name), storedId, userId)[i] == '*';
  }

  datatype FormVerdict = LoginPrompt | InvalidAmount | BelowMinimum(minBid: int) | SendBid(amount: int)

  /**
   * The submit handler: without a token the login prompt; an empty or
   * non-numeric amount (`None`, as `parseFloat` gives `NaN`) is invalid; an
   * amount below the minimum is refused; a `NaN` minimum refuses nothing.
   */
  function CheckForm(hasToken: bool, amount: Option<int>, minBid: Option<int>): (v: FormVerdict)
    ensures v == LoginPrompt <==> !hasToken
    ensures v == InvalidAmount <==> hasToken && amount.None?
    ensures v.BelowMinimum? <==> hasToken && amount.Some? && minBid.Some? && amount.value < minBid.value
    ensures v.SendBid? ==> hasToken && amount.Some? && v.amount == amount.value && (minBid.None? || amount.value >= minBid.value)
  {
    if !hasToken then LoginPrompt
    else if amount.None? then InvalidAmount
    else if minBid.Some? && amount.value < minBid.value then BelowMinimum(minBid.value)
    else SendBid(amount.value)
  }

  /** The part of the page that `updateBidUI` rewrites; `bidCount` is `parseInt` of the count's text. */
  class BidPanel {
    var currentBidText: string
    var bidCount: Option<int>
    var minBidText: string
    var placeholder: string

    constructor (bidText: string, count: Option<int>, minText: string)
      ensures currentBidText == bidText && bidCount == count && minBidText == minText && placeholder == []
    {
      currentBidText := bidText;
      bidCount := count;
      minBidText := minText;
      placeholder := [];
    }

    /** `updateBidUI`: show the new amount, add one to the count (`parseInt(text) || 0`), and ask for one euro more. */
    method UpdateBidUI(amount: nat)
      modifies this
      ensures currentBidText == "€" + Money.FormatCents(amount)
      ensures bidCount == Some(Paging.IntOr(old(bidCount), 0) + 1)
      ensures minBidText == Money.FormatCents(amount + 100)
      ensures placeholder == "€" + Money.FormatCents(amount + 100) + " or more"
      ensures Money.ParseFloatText(minBidText) == Some(amount + 100)
    {
      currentBidText := "€" + Money.FormatCents(amount);
      bidCount := Some(Paging.IntOr(bidCount, 0) + 1);
      minBidText := Money.FormatCents(amount + 100);
      placeholder := "€" + minBidText + " or more";
      Money.FormatParse(amount + 100);
    }
  }

  /**
   * After a bid of `amount`, the form read back from the panel refuses every
   * amount that is less than one euro more, and sends every other one.
   */
  lemma NextBidNeedsOneMore(amount: nat, next: int)
    ensures var minBid := Money.ParseFloatText(Money.FormatCents(amount + 100));
      (CheckForm(true, Some(next), minBid).BelowMinimum? <==> next < amount + 100) &&
      (CheckForm(true, Some(next), minBid) == SendBid(next) <==> next >= amount + 100)
  {
    Money.FormatParse(amount + 100);
  }
}
