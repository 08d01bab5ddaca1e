/**
 * The page arithmetic of `get_books`: the offset of a page, the page count, and the
 * window of the matching books that one page shows. The matches are a given
 * sequence in the collection's natural order; how they are selected (the text
 * search) is not part of this model.
 */
module Pagination {

  import opened Wrappers

  /** Python's `a // b`: the quotient rounded towards negative infinity. */
  function FloorDiv(a: int, b: int): (q: int)
    requires b != 0
    ensures b > 0 ==> b * q <= a < b * q + b
    ensures b < 0 ==> b * q >= a > b * q + b
  {
    if b > 0 then a / b else (-a) / (-b)
  }

  /** `(page - 1) * limit`: how many matches precede the page. */
  function Skip(page: int, limit: int): (skip: int)
    ensures limit > 0 ==> (skip >= 0 <==> page >= 1)
    ensures limit == 0 ==> skip == 0
  {
    (page - 1) * limit
  }

  /**
   * `(total + limit - 1) // limit`: the number of pages of `total` matches. For a
   * positive limit it is the least number of pages of `limit` that hold them all.
   */
  function TotalPages(total: nat, limit: int): (pages: int)
    requires limit != 0
    ensures limit > 0 ==> 0 <= pages && (pages - 1) * limit < total <= pages * limit
  {
    FloorDiv(total + limit - 1, limit)
  }

  /**
   * A cursor's `.skip(skip).limit(limit)` over the matches: drop `skip` of them and
   * keep at most `|limit|` (a limit of 0 keeps all; a negative one is answered as a
   * single batch of at most `-limit`).
   */
  function Window<T>(matches: seq<T>, skip: nat, limit: int): (w: seq<T>)
    ensures limit != 0 ==> |w| <= Abs(limit)
    ensures skip <= |matches| && limit != 0 ==> |w| == Min(|matches| - skip, Abs(limit))
    ensures skip <= |matches| && limit == 0 ==> |w| == |matches| - skip
    ensures forall k :: 0 <= k < |w| ==> skip + k < |matches| && w[k] == matches[skip + k]
  {
    if skip >= |matches| then []
    else
      var rest := matches[skip..];
      if limit == 0 || |rest| <= Abs(limit) then rest else rest[..Abs(limit)]
  }

  /** Why `get_books` raises instead of answering. */
  datatype PageError =
    | NegativeSkip  // the cursor refuses a negative skip
    | ZeroLimit     // the page count divides by the limit

  /** The answer of `get_books`: the books of the page, the page count and the page asked for. */
  datatype Page<T> = Page(books: seq<T>, totalPages: int, currentPage: int)

  /** `get_books` over the sequence of matching books. */
  function GetBooks<T>(matches: seq<T>, page: int := 1, limit: int := 10): (r: Result<Page<T>, PageError>)
    ensures r.Failure? <==> Skip(page, limit) < 0 || limit == 0
    ensures r.Failure? ==> r.error == (if Skip(page, limit) < 0 then NegativeSkip else ZeroLimit)
    ensures r.Success? ==> r.value.currentPage == page && r.value.totalPages == TotalPages(|matches|, limit)
    ensures r.Success? ==> |r.value.books| <= Abs(limit)
    ensures r.Success? ==>
      |r.value.books| == if Skip(page, limit) >= |matches| then 0 else Min(|matches| - Skip(page, limit), Abs(limit))
    ensures r.Success? ==> forall k :: 0 <= k < |r.value.books| ==>
      Skip(page, limit) + k < |matches| && r.value.books[k] == matches[Skip(page, limit) + k]
  {
    var skip := Skip(page, limit);
    if skip < 0 then Failure(NegativeSkip)
    else if limit == 0 then Failure(ZeroLimit)
    else Success(Page(Window(matches, skip, limit), TotalPages(|matches|, limit), page))
  }

  /** With a positive limit the pages hold every match: `total_pages * limit >= total`. */
  lemma PagesCoverMatches(total: nat, limit: int)
    requires limit > 0
    ensures TotalPages(total, limit) >= 0
    ensures TotalPages(total, limit) * limit >= total
  {
  }

  /** With a positive limit the last page is not empty: `(total_pages - 1) * limit < total`. */
  lemma LastPageNotEmpty(total: nat, limit: int)
    requires limit > 0 && total > 0
    ensures (TotalPages(total, limit) - 1) * limit < total
  {
  }

  /** With a positive limit there are no pages exactly when there are no matches. */
  lemma NoPagesIffNoMatches(total: nat, limit: int)
    requires limit > 0
    ensures TotalPages(total, limit) == 0 <==> total == 0
  {
  }

  /** With a positive limit, page `p` shows the matches `[(p - 1) * limit, p * limit)`, cut at the end. */
  lemma PageIsSlice<T>(matches: seq<T>, page: int, limit: int)
    requires limit > 0 && page >= 1
    ensures
      var skip := Skip(page, limit);
      var r := GetBooks(matches, page, limit);
      && r.Success?
      && r.value.books == if skip >= |matches| then [] else matches[skip..Min(skip + limit, |matches|)]
  {
  }

  /** Match `i` appears, at position `i % limit`, on page `i / limit + 1`, which is a page that exists. */
  lemma EveryMatchOnItsPage<T>(matches: seq<T>, limit: int, i: nat)
    requires limit > 0 && i < |matches|
    ensures
      var page := i / limit + 1;
      var r := GetBooks(matches, page, limit);
      && 1 <= page <= TotalPages(|matches|, limit)
      && r.Success?
      && i % limit < |r.value.books|
      && r.value.books[i % limit] == matches[i]
  {
    var page := i / limit + 1;
    var skip := Skip(page, limit);
    assert skip == (i / limit) * limit;
    assert skip + i % limit == i;
    assert 0 <= skip by { MulMonotone(limit, i / limit, 0); }
    PageIsSlice(matches, page, limit);
    PagesCoverMatches(|matches|, limit);
    var q := TotalPages(|matches|, limit);
    assert page <= q by {
      if q < page {
        MulMonotone(limit, i / limit, q);
        assert false;
      }
    }
  }

  function Min(a: int, b: int): (m: int)
    ensures m <= a && m <= b && (m == a || m == b)
  {
    if a < b then a else b
  }

  function Abs(a: int): (n: nat)
    ensures n == a || n == -a
  {
    if a < 0 then -a else a
  }

  /** Multiplying by a positive number keeps order. */
  lemma MulMonotone(k: int, a: int, b: int)
    requires k > 0 && a >= b
    ensures k * a >= k * b
  {
    assert k * a - k * b == k * (a - b);
  }
}
