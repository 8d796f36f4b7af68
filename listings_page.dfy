// The browse page js/listings.js: the filter state and the handlers that
// change it, the query string that records it and reads it back, and the
// card timer (which is `Countdown.Timer` rendered with " left").
module ListingsPage {
  import opened Wrappers
  import opened Text
  import Paging
  import Lists

  /** `currentFilter`; an absent key and `null` are both `None`. */
  datatype Filter = Filter(
    category: Option<seq<string>>,
    minPrice: Option<string>,
    maxPrice: Option<string>,
    status: Option<string>,
    search: Option<string>)

  /** What `applyFilters` can produce: a non-empty category list and non-empty texts. */
  predicate WellFormed(f: Filter) {
    (f.category.Some? ==> f.category.value != [] && forall i :: 0 <= i < |f.category.value| ==> ',' !in f.category.value[i])
    && (f.minPrice.Some? ==> f.minPrice.value != [])
    && (f.maxPrice.Some? ==> f.maxPrice.value != [])
    && (f.status.Some? ==> f.status.value != [])
    && (f.search.Some? ==> f.search.value != [])
  }

  /** `value || null` for a text field. */
  function OrNull(s: string): (r: Option<string>)
    ensures r.None? <==> s == []
    ensures r.Some? ==> r.value == s
  {
    if s == [] then None else Some(s)
  }

  /** One key of the query string: the `params.set` calls of `updateUrlParams`. */
  function SetIf(params: map<string, string>, key: string, value: Option<string>): (r: map<string, string>)
    ensures value.Some? && value.value != [] ==> r == params[key := value.value]
    ensures value.None? || value.value == [] ==> r == params
  {
    if value.Some? && value.value != [] then params[key := value.value] else params
  }

  /** `updateUrlParams`: every set filter, the sort always, the page only when past the first. */
  function UrlParams(f: Filter, sort: string, page: int): (params: map<string, string>)
    ensures "sort" in params && params["sort"] == sort
    ensures "page" in params <==> page > 1
    ensures "category" in params <==> f.category.Some? && f.category.value != []
    ensures "search" in params <==> f.search.Some? && f.search.value != []
  {
    var p0: map<string, string> := if f.category.Some? && f.category.value != [] then map["category" := Join(f.category.value, ",")] else map[];
    var p1 := SetIf(p0, "minPrice", f.minPrice);
    var p2 := SetIf(p1, "maxPrice", f.maxPrice);
    var p3 := SetIf(p2, "status", f.status);
    var p4 := SetIf(p3, "search", f.search);
    var p5 := p4["sort" := sort];
    if page > 1 then p5["page" := NatToString(page)] else p5
  }

  /** One key read back by `parseUrlParams`: present keys replace the field, absent ones leave it. */
  function Read(params: map<string, string>, key: string, current: Option<string>): (r: Option<string>)
    ensures key in params ==> r == Some(params[key])
    ensures key !in params ==> r == current
  {
    if key in params then Some(params[key]) else current
  }

  /** The browse page's state. */
  class Page {
    var filter: Filter
    var sort: string
    var currentPage: int
    const limitPerPage: nat

    /** The page as loaded: no filter, ending soonest first, page 1, twelve cards. */
    constructor ()
      ensures filter == Filter(None, None, None, None, None) && sort == "ending-soon" && currentPage == 1
      ensures limitPerPage == 12
    {
      filter := Filter(None, None, None, None, None);
      sort := "ending-soon";
      currentPage := 1;
      limitPerPage := 12;
    }

    /**
     * `applyFilters`: an empty category list, empty price fields, the status
     * 'all' and a blank search all become `null`; the page goes back to 1.
     */
    method ApplyFilters(categories: seq<string>, minPrice: string, maxPrice: string, status: string, searchInput: string)
      modifies this
      ensures filter.category == (if categories == [] then None else Some(categories))
      ensures filter.minPrice == OrNull(minPrice) && filter.maxPrice == OrNull(maxPrice)
      ensures filter.status == (if status == "all" then None else Some(status))
      ensures filter.search == OrNull(Trim(searchInput))
      ensures currentPage == 1 && sort == old(sort)
      ensures status != [] && (forall i :: 0 <= i < |categories| ==> ',' !in categories[i]) ==> WellFormed(filter)
    {
      filter := Filter(
        if categories == [] then None else Some(categories),
        OrNull(minPrice), OrNull(maxPrice),
        if status == "all" then None else Some(status),
        OrNull(Trim(searchInput)));
      currentPage := 1;
    }

    /** The remove button on a category tag: drops exactly that value; an emptied list becomes `null`. */
    method RemoveCategory(value: string)
      requires filter.category.Some?
      modifies this
      ensures var kept := Lists.Filter(old(filter.category.value), (c: string) => c != value);
        filter.category == (if kept == [] then None else Some(kept))
      ensures filter.minPrice == old(filter.minPrice) && filter.maxPrice == old(filter.maxPrice)
      ensures filter.status == old(filter.status) && filter.search == old(filter.search)
      ensures filter.category.Some? ==> value !in filter.category.value
      ensures currentPage == 1 && sort == old(sort)
    {
      var kept := Lists.Filter(filter.category.value, (c: string) => c != value);
      filter := filter.(category := if kept == [] then None else Some(kept));
      currentPage := 1;
    }

    /** The remove button on any other tag sets that field to `null`. */
    method RemoveField(key: string)
      modifies this
      ensures filter == old(
        if key == "minPrice" then filter.(minPrice := None)
        else if key == "maxPrice" then filter.(maxPrice := None)
        else if key == "status" then filter.(status := None)
        else if key == "search" then filter.(search := None)
        else if key == "category" then filter.(category := None)
        else filter)
      ensures currentPage == 1 && sort == old(sort)
    {
      if key == "minPrice" {
        filter := filter.(minPrice := None);
      } else if key == "maxPrice" {
        filter := filter.(maxPrice := None);
      } else if key == "status" {
        filter := filter.(status := None);
      } else if key == "search" {
        filter := filter.(search := None);
      } else if key == "category" {
        filter := filter.(category := None);
      }
      currentPage := 1;
    }

    /** `parseUrlParams`: each present key sets its field; the page reads as `parseInt(page) || 1`. */
    method ParseUrlParams(params: map<string, string>)
      modifies this
      ensures filter == Filter(
        if "category" in params then Some(Split(params["category"], ',')) else old(filter.category),
        Read(params, "minPrice", old(filter.minPrice)),
        Read(params, "maxPrice", old(filter.maxPrice)),
        Read(params, "status", old(filter.status)),
        Read(params, "search", old(filter.search)))
      ensures sort == (if "sort" in params then params["sort"] else old(sort))
      ensures currentPage == (if "page" in params then Paging.IntOr(ParseInt(params["page"]), 1) else old(currentPage))
    {
      var f := filter;
      if "category" in params {
        f := f.(category := Some(Split(params["category"], ',')));
      }
      if "minPrice" in params {
        f := f.(minPrice := Some(params["minPrice"]));
      }
      if "maxPrice" in params {
        f := f.(maxPrice := Some(params["maxPrice"]));
      }
      if "status" in params {
        f := f.(status := Some(params["status"]));
      }
      if "search" in params {
        f := f.(search := Some(params["search"]));
      }
      filter := f;
      if "sort" in params {
        sort := params["sort"];
      }
      if "page" in params {
        currentPage := Paging.IntOr(ParseInt(params["page"]), 1);
      }
    }
  }

  /** The filter `parseUrlParams` builds from a query string on a freshly loaded page. */
  function Parsed(params: map<string, string>): Filter {
    Filter(
      if "category" in params then Some(Split(params["category"], ',')) else None,
      Read(params, "minPrice", None), Read(params, "maxPrice", None),
      Read(params, "status", None), Read(params, "search", None))
  }

  /** The page a freshly loaded page reads from a query string. */
  function ParsedPage(params: map<string, string>): int {
    if "page" in params then Paging.IntOr(ParseInt(params["page"]), 1) else 1
  }

  lemma ParsedPageOf(params: map<string, string>, n: int)
    requires "page" in params && ParseInt(params["page"]) == Some(n) && n != 0
    ensures ParsedPage(params) == n
  {
  }

  /** Each text filter of a well-formed state reads back from the query string it is written to. */
  lemma UrlParamsRead(f: Filter, sort: string, page: int)
    requires WellFormed(f)
    ensures var params := UrlParams(f, sort, page);
      (f.category.Some? ==> params["category"] == Join(f.category.value, ",")) &&
      Read(params, "minPrice", None) == f.minPrice && Read(params, "maxPrice", None) == f.maxPrice &&
      Read(params, "status", None) == f.status && Read(params, "search", None) == f.search
  {
  }

  /**
   * Writing the state into the query string and loading the page from it
   * restores the filter, the sort and the page; any page up to the first
   * reads back as 1.
   */
  lemma UrlRoundTrip(f: Filter, sort: string, page: int)
    requires WellFormed(f)
    ensures Parsed(UrlParams(f, sort, page)) == f
    ensures UrlParams(f, sort, page)["sort"] == sort
    ensures ParsedPage(UrlParams(f, sort, page)) == (if page > 1 then page else 1)
  {
    var params := UrlParams(f, sort, page);
    UrlParamsRead(f, sort, page);
    if f.category.Some? {
      SplitJoin(f.category.value, ',');
    }
    if page > 1 {
      ParseIntOfNat(page);
      ParsedPageOf(params, page);
    }
  }

  /**
   * `parseInt(page) || 1` reads the leading digits of the page and ignores
   * what follows them; a zero page becomes the first.
   */
  lemma ParsedPageDigits(w: string, rest: string)
    requires w != [] && forall i :: 0 <= i < |w| ==> IsDigit(w[i])
    requires rest == [] || !IsDigit(rest[0])
    requires !(w == "0" && rest != [] && (rest[0] == 'x' || rest[0] == 'X'))
    ensures ParsedPage(map["page" := w + rest]) == if DigitsValue(w) == 0 then 1 else DigitsValue(w)
  {
    ParseIntDigits(w, rest);
  }

  /** A minus sign before a page that reads as a non-zero number makes the page negative. */
  lemma ParsedPageMinus(s: string)
    requires s != [] && IsDigit(s[0])
    ensures ParseInt(s).Some? && ParseInt(s).value != 0 ==>
      ParsedPage(map["page" := "-" + s]) == -ParsedPage(map["page" := s])
  {
    ParseIntMinus(s);
  }

  /** Leading whitespace in the page parameter is skipped. */
  lemma ParsedPageSkipsSpace(c: char, s: string)
    requires IsSpace(c)
    ensures ParsedPage(map["page" := [c] + s]) == ParsedPage(map["page" := s])
  {
    ParseIntSkipsSpace(c, s);
  }

  /** A page parameter without any digit reads as the first page. */
  lemma ParsedPageNoDigits(s: string)
    requires forall i :: 0 <= i < |s| ==> !IsDigit(s[i])
    ensures ParsedPage(map["page" := s]) == 1
  {
    ParseIntNaN(s);
  }
}
