// The seller's form js/create-listing.js: the checks before a listing is
// sent, the list of uploaded pictures and the drafts kept in the browser.
module CreateListing {
  import opened Wrappers
  import Market

  /**
   * The text fields of the form as typed; `price` is the starting price read
   * as a number, `None` when it is not one (NaN).
   */
  datatype Fields = Fields(
    title: string, category: string, condition: string, description: string,
    startingPrice: string, duration: string, price: Option<int>)

  datatype FormError = MissingField | PriceNotPositive | NoShipping | NoImage

  /**
   * `validateForm`: a blank required field first, then a starting price
   * that is not a positive number, then no shipping option ticked.
   */
  function ValidateForm(f: Fields, shippingTicked: nat): (r: Option<FormError>)
    ensures r == Some(MissingField) <==>
      f.title == [] || f.category == [] || f.condition == [] || f.description == [] || f.startingPrice == [] || f.duration == []
    ensures r == Some(PriceNotPositive) <==>
      f.title != [] && f.category != [] && f.condition != [] && f.description != [] && f.startingPrice != [] && f.duration != [] &&
      (f.price.None? || f.price.value <= 0)
    ensures r.None? ==> f.price.Some? && f.price.value > 0 && shippingTicked > 0
    ensures r != Some(NoImage)
  {
    if f.title == [] || f.category == [] || f.condition == [] || f.description == [] || f.startingPrice == [] || f.duration == [] then
      Some(MissingField)
    else if f.price.None? || f.price.value <= 0 then Some(PriceNotPositive)
    else if shippingTicked == 0 then Some(NoShipping)
    else None
  }

  /** The reserve sent: `null` for an empty field, else the number read from it. */
  function ReserveField(text: string, value: Option<int>): (r: Option<int>)
    ensures text == [] ==> r.None?
    ensures text != [] ==> r == value
  {
    if text == [] then None else value
  }

  /** An empty reserve field is stored without a reserve. */
  lemma EmptyReserveStoredAsNull(value: Option<int>)
    ensures Market.ReserveOrNull(ReserveField([], value)).None?
  {
  }

  datatype Image = Image(url: string, publicId: string)

  datatype Draft = Draft(id: int, title: string, category: string, condition: string,
                         description: string, startingPrice: Option<int>, images: seq<string>, createdAt: int)

  /** The index `findIndex` finds: the first image with that address. */
  function FirstWithUrl(images: seq<Image>, url: string): (r: Option<nat>)
    ensures r.Some? ==> r.value < |images| && images[r.value].url == url
    ensures r.Some? ==> forall k :: 0 <= k < r.value ==> images[k].url != url
    ensures r.None? ==> forall k :: 0 <= k < |images| ==> images[k].url != url
  {
    if images == [] then None
    else if images[0].url == url then Some(0)
    else
      var rest := FirstWithUrl(images[1..], url);
      if rest.None? then None else Some(rest.value + 1)
  }

  function Urls(images: seq<Image>): (r: seq<string>)
    ensures |r| == |images| && forall k :: 0 <= k < |images| ==> r[k] == images[k].url
  {
    if images == [] then [] else [images[0].url] + Urls(images[1..])
  }

  /** The form's picture list and the drafts saved in the browser. */
  class ListingForm {
    var images: seq<Image>
    var drafts: seq<Draft>

    constructor (stored: seq<Draft>)
      ensures images == [] && drafts == stored
    {
      images := [];
      drafts := stored;
    }

    /** A successful upload adds exactly one entry at the end. */
    method UploadSucceeded(url: string, publicId: string)
      modifies this
      ensures images == old(images) + [Image(url, publicId)]
      ensures drafts == old(drafts)
    {
      images := images + [Image(url, publicId)];
    }

    /** The remove button: `findIndex` then `splice(index, 1)`; nothing happens when the address is not in the list. */
    method RemovePhoto(url: string)
      modifies this
      ensures FirstWithUrl(old(images), url).None? ==> images == old(images)
      ensures FirstWithUrl(old(images), url).Some? ==>
        var i := FirstWithUrl(old(images), url).value; images == old(images)[..i] + old(images)[i + 1..]
      ensures drafts == old(drafts)
    {
      var i := 0;
      while i < |images| && images[i].url != url
        invariant 0 <= i <= |images|
        invariant forall k :: 0 <= k < i ==> images[k].url != url
      {
        i := i + 1;
      }
      FirstIndexUnique(images, url, i);
      if i < |images| {
        images := images[..i] + images[i + 1..];
      }
    }

    /** Save as draft: one more draft at the end, titled 'Untitled Draft' when the title is empty. */
    method SaveDraft(f: Fields, now: int)
      modifies this
      ensures drafts == old(drafts) + [Draft(now, if f.title == [] then "Untitled Draft" else f.title,
        f.category, f.condition, f.description,
        if f.startingPrice == [] then Some(0) else f.price,
        Urls(old(images)), now)]
      ensures images == old(images)
    {
      var title := if f.title == [] then "Untitled Draft" else f.title;
      var price := if f.startingPrice == [] then Some(0) else f.price;
      drafts := drafts + [Draft(now, title, f.category, f.condition, f.description, price, Urls(images), now)];
    }

    /** The submit handler's checks: the form, then at least one picture. After a created listing the list is emptied. */
    method Submit(f: Fields, shippingTicked: nat, created: bool) returns (r: Option<FormError>)
      modifies this
      ensures r == (if ValidateForm(f, shippingTicked).Some? then ValidateForm(f, shippingTicked)
                    else if old(images) == [] then Some(NoImage) else None)
      ensures r.None? && created ==> images == []
      ensures r.Some? || !created ==> images == old(images)
      ensures drafts == old(drafts)
    {
      r := ValidateForm(f, shippingTicked);
      if r.None? && images == [] {
        r := Some(NoImage);
      }
      if r.None? && created {
        images := [];
      }
    }
  }

  /** The index where the search stops is the one `FirstWithUrl` names. */
  lemma FirstIndexUnique(images: seq<Image>, url: string, i: nat)
    requires i <= |images| && (i == |images| || images[i].url == url)
    requires forall k :: 0 <= k < i ==> images[k].url != url
    ensures i == |images| ==> FirstWithUrl(images, url).None?
    ensures i < |images| ==> FirstWithUrl(images, url) == Some(i)
  {
  }

  /** Removing a picture leaves every other entry, in order, and one fewer of those with that address. */
  lemma RemoveKeepsOthers(images: seq<Image>, url: string)
    requires FirstWithUrl(images, url).Some?
    ensures var i := FirstWithUrl(images, url).value;
      var after := images[..i] + images[i + 1..];
      |after| == |images| - 1 &&
      (forall k :: 0 <= k < i ==> after[k] == images[k]) &&
      (forall k :: i <= k < |after| ==> after[k] == images[k + 1]) &&
      multiset(after) + multiset{images[i]} == multiset(images)
  {
    var i := FirstWithUrl(images, url).value;
    assert images == images[..i] + [images[i]] + images[i + 1..];
  }
}
