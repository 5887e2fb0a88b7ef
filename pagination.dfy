/**
 * The pagination request of the product catalogue (`PaginationDto`): optional `page` and
 * `limit` with their defaults and positivity constraints, the derived `skip`, and the
 * metadata `findAll` adds to it (`total`, `lastPage = ceil(total / limit)`).
 * Also the offset/limit window that the store applies to a listing (`skip` and `take`).
 */
module Pagination {
  import opened Wrappers

  const DefaultPage: int := 1
  const DefaultLimit: int := 10

  /** A resolved pagination request: defaults applied and both fields validated. */
  datatype Page = Page(page: int, limit: int) {
    predicate Valid() { page > 0 && limit > 0 }

    /** The request for the page after this one, with the same limit. */
    function Next(): Page { Page(page + 1, limit) }
  }

  /** A rejected request: the names of the fields that are present but not positive. */
  datatype ValidationError = NotPositive(fields: seq<string>)

  /**
   * Applies the defaults to the absent fields and rejects a present field that is not
   * positive; when both are bad, both are reported, page first.
   */
  function Resolve(page: Option<int>, limit: Option<int>): (r: Result<Page, ValidationError>)
    ensures r.Success? <==> (page.None? || page.value > 0) && (limit.None? || limit.value > 0)
    ensures r.Success? ==> r.value.Valid()
    ensures r.Success? ==> r.value.page == page.GetOr(DefaultPage) && r.value.limit == limit.GetOr(DefaultLimit)
    ensures r.Failure? ==> r.error.fields != [] && forall f :: f in r.error.fields ==> f == "page" || f == "limit"
    ensures r.Failure? ==> ("page" in r.error.fields <==> page.Some? && page.value <= 0)
    ensures r.Failure? ==> ("limit" in r.error.fields <==> limit.Some? && limit.value <= 0)
  {
    var badPage := page.Some? && page.value <= 0;
    var badLimit := limit.Some? && limit.value <= 0;
    if badPage || badLimit then
      Failure(NotPositive((if badPage then ["page"] else []) + (if badLimit then ["limit"] else [])))
    else
      Success(Page(page.GetOr(DefaultPage), limit.GetOr(DefaultLimit)))
  }

  /** The number of rows before the requested page. */
  function Skip(p: Page): int {
    (p.page - 1) * p.limit
  }

  /** `Math.ceil(total / limit)` on a non-negative count and a positive limit. */
  function LastPage(total: nat, limit: int): (r: nat)
    requires limit > 0
    ensures r * limit >= total
    ensures r == 0 || (r - 1) * limit < total
  {
    var q := (total + limit - 1) / limit;
    assert q * limit + (total + limit - 1) % limit == total + limit - 1;
    assert (q - 1) * limit == q * limit - limit;
    q
  }

  /** The rows a store returns for `skip` and `take`: at most `take` of them, starting at `skip`. */
  function Window<T>(s: seq<T>, skip: int, take: int): seq<T>
    requires skip >= 0 && take >= 0
  {
    var lo := if skip < |s| then skip else |s|;
    var hi := if skip + take < |s| then skip + take else |s|;
    s[lo..hi]
  }

  /** The rows of pages 1 to `n` of `s`, one page after the other. */
  function Pages<T>(s: seq<T>, limit: int, n: nat): seq<T>
    requires limit > 0
  {
    if n == 0 then [] else Pages(s, limit, n - 1) + Window(s, Skip(Page(n, limit)), limit)
  }

  /** The defaults give the first page of ten rows, and that page starts at the first row. */
  lemma DefaultsGiveFirstPage()
    ensures Resolve(None, None) == Success(Page(1, 10))
    ensures Skip(Page(DefaultPage, DefaultLimit)) == 0
  {
  }

  /**
   * For a valid request `skip` is a non-negative multiple of `limit`, the first page starts
   * at 0, and the next page starts exactly `limit` rows later.
   */
  lemma SkipProperties(p: Page)
    requires p.Valid()
    ensures Skip(p) >= 0
    ensures Skip(p) % p.limit == 0
    ensures p.page == 1 ==> Skip(p) == 0
    ensures Skip(p.Next()) == Skip(p) + p.limit
  {
    assert Skip(p) == (p.page - 1) * p.limit;
    MultipleHasNoRemainder(p.page - 1, p.limit);
  }

  lemma MultipleHasNoRemainder(k: nat, m: int)
    requires m > 0
    ensures (k * m) % m == 0
  {
    RemainderIsUnique(k * m, m, k, 0);
  }

  /** Euclidean division has one remainder: `a * m + b` with `0 <= b < m` leaves `b`. */
  lemma RemainderIsUnique(x: int, m: int, a: int, b: int)
    requires m > 0 && 0 <= b < m && x == a * m + b
    ensures x % m == b
  {
    var q, r := x / m, x % m;
    var d := a - q;
    assert d * m == r - b;
  }

  /** `total = 0` gives no pages at all. */
  lemma NoRowsNoPages(limit: int)
    requires limit > 0
    ensures LastPage(0, limit) == 0
  {
  }

  /** A page has rows exactly when its number is at most `lastPage`. */
  lemma PageHasRowsIffAtMostLastPage(total: nat, p: Page)
    requires p.Valid()
    ensures Skip(p) < total <==> p.page <= LastPage(total, p.limit)
  {
    var r := LastPage(total, p.limit);
    if p.page <= r {
      MulMonotone(p.page - 1, r - 1, p.limit);
    } else {
      MulMonotone(r, p.page - 1, p.limit);
    }
  }

  lemma MulMonotone(a: int, b: int, m: int)
    requires 0 <= a <= b && m > 0
    ensures a * m <= b * m
  {
    assert b * m - a * m == (b - a) * m;
  }

  /** A window holds at most `take` rows, and none when it starts at or past the end. */
  lemma WindowBounds<T>(s: seq<T>, skip: int, take: int)
    requires skip >= 0 && take >= 0
    ensures |Window(s, skip, take)| <= take
    ensures Window(s, skip, take) == [] <==> skip >= |s| || take == 0
    ensures forall x :: x in Window(s, skip, take) ==> x in s
  {
    var w := Window(s, skip, take);
    forall x | x in w ensures x in s {
      var i :| 0 <= i < |w| && w[i] == x;
      var lo := if skip < |s| then skip else |s|;
      assert s[lo + i] == x;
    }
  }

  /** The windows of two consecutive pages are adjacent: together they are one window of twice the size. */
  lemma ConsecutivePagesAdjacent<T>(s: seq<T>, p: Page)
    requires p.Valid()
    ensures Window(s, Skip(p), p.limit) + Window(s, Skip(p.Next()), p.limit) == Window(s, Skip(p), 2 * p.limit)
  {
    SkipProperties(p);
  }

  /** Pages 1 to `n` together are the first `n * limit` rows. */
  lemma {:induction false} PagesArePrefix<T>(s: seq<T>, limit: int, n: nat)
    requires limit > 0
    ensures Pages(s, limit, n) == s[..if n * limit < |s| then n * limit else |s|]
  {
    if n > 0 {
      PagesArePrefix(s, limit, n - 1);
      assert Skip(Page(n, limit)) == (n - 1) * limit;
      assert n * limit == (n - 1) * limit + limit;
      MulMonotone(0, n - 1, limit);
    }
  }

  /** Reading pages 1 to `lastPage` one after the other returns every row once, in order. */
  lemma PagesCoverListing<T>(s: seq<T>, limit: int)
    requires limit > 0
    ensures Pages(s, limit, LastPage(|s|, limit)) == s
  {
    PagesArePrefix(s, limit, LastPage(|s|, limit));
  }
}
