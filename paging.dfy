// Page counts, page slices and the numbered page bar shared by the listing,
// my-listings, my-bids and verification pages.
module Paging {
  import opened Wrappers

  /** `Math.ceil(total / perPage)` for a positive page size. */
  function CeilDiv(total: nat, perPage: nat): (r: nat)
    requires perPage > 0
    ensures r * perPage >= total
    ensures r == 0 || (r - 1) * perPage < total
  {
    (total + perPage - 1) / perPage
  }

  /** `Math.ceil(n / perPage) || 1`: an empty list still has one page. */
  function PageCountOrOne(n: nat, perPage: nat): (r: nat)
    requires perPage > 0
    ensures r >= 1
    ensures n > 0 ==> r == CeilDiv(n, perPage)
    ensures n == 0 ==> r == 1
  {
    var c := CeilDiv(n, perPage);
    if c == 0 then 1 else c
  }

  /** A JavaScript `slice` bound: a negative index counts from the end. */
  function SliceBound(i: int, len: nat): (r: nat)
    ensures r <= len
  {
    if i < 0 then (if len + i < 0 then 0 else len + i) else if i > len then len else i
  }

  /** `s.slice(start, end)` */
  function JsSlice<T>(s: seq<T>, start: int, end: int): seq<T> {
    var lo, hi := SliceBound(start, |s|), SliceBound(end, |s|);
    if lo < hi then s[lo..hi] else []
  }

  /** `paginate(array, page, perPage)` of js/my-listings.js */
  function Paginate<T>(s: seq<T>, page: int, perPage: int): seq<T> {
    var start := (page - 1) * perPage;
    JsSlice(s, start, start + perPage)
  }

  function Min(a: int, b: int): int { if a < b then a else b }
  function Max(a: int, b: int): int { if a < b then b else a }

  /** For a page >= 1, a page holds the elements [(page-1)*perPage, page*perPage) clipped to the list. */
  lemma PaginateIsClippedRange<T>(s: seq<T>, page: int, perPage: int)
    requires page >= 1 && perPage >= 1
    ensures Paginate(s, page, perPage)
         == s[Min((page - 1) * perPage, |s|)..Max(Min((page - 1) * perPage, |s|), Min(page * perPage, |s|))]
  {
    PageStart(page, perPage);
    SliceFrom(s, (page - 1) * perPage, perPage);
  }

  /** Page `page` starts at a non-negative offset, one page before `page * perPage`. */
  lemma PageStart(page: int, perPage: int)
    requires page >= 1 && perPage >= 1
    ensures (page - 1) * perPage >= 0 && (page - 1) * perPage + perPage == page * perPage
  {
  }

  /** A slice from a non-negative start is that run of the list, clipped to its end. */
  lemma SliceFrom<T>(s: seq<T>, start: int, len: int)
    requires start >= 0 && len >= 1
    ensures JsSlice(s, start, start + len) == s[Min(start, |s|)..Max(Min(start, |s|), Min(start + len, |s|))]
  {
  }

  /** Every element lies on page i / perPage + 1, which is a real page. */
  lemma EveryElementOnItsPage<T>(s: seq<T>, perPage: int, i: nat)
    requires perPage >= 1 && i < |s|
    ensures var page := i / perPage + 1;
      1 <= page <= PageCountOrOne(|s|, perPage) &&
      |Paginate(s, page, perPage)| > i % perPage &&
      Paginate(s, page, perPage)[i % perPage] == s[i]
  {
    var q, r := i / perPage, i % perPage;
    var page := q + 1;
    assert i == q * perPage + r;
    PageStart(page, perPage);
    var start := q * perPage;
    assert (page - 1) * perPage == start;
    assert Paginate(s, page, perPage) == JsSlice(s, start, start + perPage);
    SliceAt(s, start, perPage, r);
    DivMono(i, |s| - 1, perPage);
    DivPlusOne(|s| - 1, perPage);
  }

  /** The element at `start + r` of the list is the `r`-th of the slice of `len` elements from `start`. */
  lemma SliceAt<T>(s: seq<T>, start: int, len: int, r: int)
    requires start >= 0 && 0 <= r < len && start + r < |s|
    ensures |JsSlice(s, start, start + len)| > r && JsSlice(s, start, start + len)[r] == s[start + r]
  {
    SliceFrom(s, start, len);
  }

  lemma DivMono(a: nat, b: nat, d: int)
    requires a <= b && d > 0
    ensures a / d <= b / d
  {
    var qa, ra, qb, rb := a / d, a % d, b / d, b % d;
    assert (qa - qb) * d == (a - b) + (rb - ra) by {
      assert a == qa * d + ra && b == qb * d + rb;
    }
    if qa - qb >= 1 {
      MulLe(1, qa - qb, d);
    }
  }

  lemma MulLe(x: int, y: int, d: int)
    requires x <= y && d > 0
    ensures x * d <= y * d
  {
  }

  /** `(page - 1) * limit` is negative exactly when the page is below 1 (the limit is positive). */
  lemma OffsetSign(page: int, limit: int)
    requires limit > 0
    ensures (page - 1) * limit < 0 <==> page < 1
  {
    if page < 1 { MulLe(page - 1, -1, limit); } else { MulLe(0, page - 1, limit); }
  }

  /** The page `page` of `limit` rows (a limit of 0 is read as the default): refused exactly on a negative limit or a page below 1, else the rows from `(page - 1) * limit` on. */
  lemma PageOfRows<T>(rows: seq<T>, page: int, limit: int)
    requires limit != 0
    ensures var w := LimitOffset(rows, limit, (page - 1) * limit);
      (w.Err? <==> limit < 0 || page < 1) &&
      (w.Ok? ==> |w.value| <= limit && forall k :: 0 <= k < |w.value| ==> (page - 1) * limit + k < |rows| && w.value[k] == rows[(page - 1) * limit + k])
  {
    if limit > 0 { OffsetSign(page, limit); }
  }

  lemma DivPlusOne(x: nat, d: int)
    requires d > 0
    ensures (x + d) / d == x / d + 1
  {
    var q, r := x / d, x % d;
    var q', r' := (x + d) / d, (x + d) % d;
    var k := q' - q - 1;
    assert k * d == r - r' by {
      assert x + d == q' * d + r';
      assert x == q * d + r;
      assert k * d == q' * d - q * d - d;
    }
    if k >= 1 {
      MulLe(1, k, d);
    } else if k <= -1 {
      MulLe(k, -1, d);
    }
  }

  /**
   * The numbered-button window: at most five pages around `current`, shifted
   * left near the end (`maxVisibleButtons = 5`).
   */
  function PageWindow(current: int, total: int): (w: (int, int))
    ensures total >= 1 ==> 1 <= w.0 <= w.1 <= total
    ensures total >= 1 ==> w.1 - w.0 + 1 == Min(5, total)
    ensures 1 <= current <= total ==> w.0 <= current <= w.1
    ensures total <= 0 ==> w.1 < w.0
  {
    var start := Max(1, current - 5 / 2);
    var end := Min(total, start + 5 - 1);
    var start' := if end - start + 1 < 5 then Max(1, end - 5 + 1) else start;
    (start', end)
  }

  /** js/listings.js additionally tests `startPage > 1` before shifting the window. */
  function ListingsPageWindow(current: int, total: int): (int, int) {
    var start := Max(1, current - 5 / 2);
    var end := Min(total, start + 5 - 1);
    var start' := if end - start + 1 < 5 && start > 1 then Max(1, end - 5 + 1) else start;
    (start', end)
  }

  /** The extra test of js/listings.js changes nothing: both windows are the same. */
  lemma ListingsWindowIsPageWindow(current: int, total: int)
    ensures ListingsPageWindow(current, total) == PageWindow(current, total)
  {
  }

  datatype PageItem = Prev(enabled: bool) | Number(page: int, active: bool) | Ellipsis | Next(enabled: bool)

  /** Buttons lo..hi, the one equal to `current` marked active. */
  function Numbers(lo: int, hi: int, current: int): seq<PageItem>
    decreases hi - lo
  {
    if lo > hi then [] else [Number(lo, lo == current)] + Numbers(lo + 1, hi, current)
  }

  lemma {:induction false} NumbersLength(lo: int, hi: int, current: int)
    ensures |Numbers(lo, hi, current)| == Max(0, hi - lo + 1)
    decreases hi - lo
  {
    if lo <= hi { NumbersLength(lo + 1, hi, current); }
  }

  lemma {:induction false} NumbersAt(lo: int, hi: int, current: int, k: nat)
    requires k < hi - lo + 1
    ensures |Numbers(lo, hi, current)| == hi - lo + 1
    ensures Numbers(lo, hi, current)[k] == Number(lo + k, lo + k == current)
    decreases hi - lo
  {
    if k > 0 { NumbersAt(lo + 1, hi, current, k - 1); } else if lo < hi { NumbersAt(lo + 1, hi, current, 0); }
  }

  /** The loop that appends one numbered button per page. */
  method NumberButtons(lo: int, hi: int, current: int) returns (buttons: seq<PageItem>)
    ensures |buttons| == Max(0, hi - lo + 1)
    ensures forall k :: 0 <= k < |buttons| ==> buttons[k] == Number(lo + k, lo + k == current)
  {
    buttons := [];
    var i := lo;
    while i <= hi
      invariant lo <= i <= Max(lo, hi + 1)
      invariant |buttons| == i - lo
      invariant forall k :: 0 <= k < |buttons| ==> buttons[k] == Number(lo + k, lo + k == current)
      decreases hi - i
    {
      buttons := buttons + [Number(i, i == current)];
      i := i + 1;
    }
  }

  /**
   * The page bar of js/my-listings.js (updatePagination): nothing when there is
   * one page, else Previous, page 1 and an ellipsis when the window starts
   * later, the window, an ellipsis and the last page when it ends earlier, Next.
   */
  function PageBar(current: int, total: int): seq<PageItem> {
    if total <= 1 then []
    else
      var (start, end) := PageWindow(current, total);
      [Prev(current > 1)]
      + (if start > 1 then [Number(1, current == 1)] + (if start > 2 then [Ellipsis] else []) else [])
      + Numbers(start, end, current)
      + (if end < total then (if end < total - 1 then [Ellipsis] else []) + [Number(total, current == total)] else [])
      + [Next(current < total)]
  }

  /**
   * Every numbered button of the bar is a real page, the first and last pages
   * are always reachable, and a button is active exactly when it is the
   * current page.
   */
  lemma PageBarButtons(current: int, total: int)
    requires total > 1
    ensures var bar := PageBar(current, total);
      (forall item :: item in bar && item.Number? ==> 1 <= item.page <= total && (item.active <==> item.page == current)) &&
      Number(1, current == 1) in bar && Number(total, current == total) in bar
  {
    var (start, end) := PageWindow(current, total);
    var nums := Numbers(start, end, current);
    BarPieces(current, total);
    NumbersButtons(start, end, current);
    if start == 1 { NumbersLength(start, end, current); NumbersAt(start, end, current, 0); }
    if end == total { NumbersLength(start, end, current); NumbersAt(start, end, current, end - start); }
  }

  /** A numbered item of the bar is one of the window's buttons, the first page's or the last page's. */
  lemma BarPieces(current: int, total: int)
    requires total > 1
    ensures var (start, end) := PageWindow(current, total);
      var bar := PageBar(current, total);
      (forall item :: item in bar && item.Number? ==>
        item in Numbers(start, end, current) || (start > 1 && item == Number(1, current == 1)) ||
        (end < total && item == Number(total, current == total))) &&
      (start > 1 ==> Number(1, current == 1) in bar) &&
      (end < total ==> Number(total, current == total) in bar) &&
      (forall item :: item in Numbers(start, end, current) ==> item in bar)
  {
  }

  /** Every button of a window is a page of the window, active exactly on the current page. */
  lemma NumbersButtons(lo: int, hi: int, current: int)
    requires lo <= hi + 1
    ensures forall item :: item in Numbers(lo, hi, current) ==>
      item.Number? && lo <= item.page <= hi && (item.active <==> item.page == current)
  {
    var nums := Numbers(lo, hi, current);
    NumbersLength(lo, hi, current);
    forall item | item in nums ensures item.Number? && lo <= item.page <= hi && (item.active <==> item.page == current) {
      var k :| 0 <= k < |nums| && nums[k] == item;
      NumbersAt(lo, hi, current, k);
    }
  }

  // ---------------------------------------------------------------------
  // Server-side page parameters (`parseInt(req.query.page) || 1`, `LIMIT $n OFFSET $m`)

  /** `parseInt(raw) || fallback`: an unparsable value (None here) and 0 are both falsy. */
  function IntOr(raw: Option<int>, fallback: int): (r: int)
    ensures raw.Some? && raw.value != 0 ==> r == raw.value
    ensures raw.None? || raw.value == 0 ==> r == fallback
    ensures fallback != 0 ==> r != 0
  {
    if raw.Some? && raw.value != 0 then raw.value else fallback
  }

  /** The database refused the statement (a negative LIMIT or OFFSET); the route answers 500. */
  datatype QueryError = ServerError

  /** `LIMIT limit OFFSET offset` over the ordered rows; PostgreSQL refuses negative values. */
  function LimitOffset<T>(rows: seq<T>, limit: int, offset: int): (r: Result<seq<T>, QueryError>)
    ensures r.Err? <==> limit < 0 || offset < 0
    ensures r.Ok? ==> |r.value| == Max(0, Min(limit, |rows| - offset))
    ensures r.Ok? ==> forall k :: 0 <= k < |r.value| ==> r.value[k] == rows[offset + k]
  {
    if limit < 0 || offset < 0 then Err(ServerError)
    else if offset >= |rows| then Ok([])
    else Ok(rows[offset..Min(offset + limit, |rows|)])
  }

  datatype PageMeta = PageMeta(page: int, limit: int, total: nat, totalPages: int, hasNextPage: bool, hasPrevPage: bool)

  /**
   * The `pagination` object the list routes answer with: `totalPages` is
   * `Math.ceil(total / limit)` (or at least 1 when `orOne`), next and previous
   * flags compare the page with the ceiling and with 1.
   */
  function Meta(page: int, limit: int, total: nat, orOne: bool): (m: PageMeta)
    requires limit > 0
    ensures m.page == page && m.limit == limit && m.total == total
    ensures total > 0 || !orOne ==> m.totalPages * limit >= total && (m.totalPages - 1) * limit < total
    ensures orOne && total == 0 ==> m.totalPages == 1
    ensures m.hasNextPage <==> page * limit < total
    ensures m.hasPrevPage <==> page > 1
  {
    var c := CeilDiv(total, limit);
    CeilCompare(page, limit, total);
    PageMeta(page, limit, total, if orOne then PageCountOrOne(total, limit) else c, page < c, page > 1)
  }

  /** `page < Math.ceil(total / limit)` exactly when a full page `page` still leaves rows over. */
  lemma CeilCompare(page: int, limit: int, total: nat)
    requires limit > 0
    ensures page < CeilDiv(total, limit) <==> page * limit < total
  {
    var c: int := CeilDiv(total, limit);
    if page < c {
      MulLe(page, c - 1, limit);
    } else {
      MulLe(c, page, limit);
    }
  }

  /** Index `i` of a list of `total` rows is on page `i / limit + 1`, between 1 and the page count. */
  lemma PageOfIndex(i: nat, total: nat, limit: int)
    requires i < total && limit > 0
    ensures 1 <= i / limit + 1 <= CeilDiv(total, limit)
  {
    DivMono(i, total - 1, limit);
    DivPlusOne(total - 1, limit);
    assert total - 1 + limit == total + limit - 1;
  }
}
