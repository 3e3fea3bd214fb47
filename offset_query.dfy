/**
 * The page metadata of `offsetQueryAllByType` (index.js:288-303): current page, page
 * count and the two flags, computed from the total count, `limit` and `offset`.
 */
module OffsetQuery {
  import opened Wrappers
  import opened Pages

  /** The `OffsetPageInfo` object of the schema. */
  datatype OffsetPageInfo = OffsetPageInfo(
    totalCount: nat,
    currentPage: int,
    pagesCount: int,
    hasNextPage: bool,
    hasPreviousPage: bool)

  /** `Math.floor(a / b)` for integers. */
  function FloorDiv(a: int, b: int): (q: int)
    requires b != 0
    ensures b > 0 ==> q * b <= a < q * b + b
    ensures b < 0 ==> q * b + b < a <= q * b
  {
    if b > 0 then a / b else (-a) / (-b)
  }

  /** The ceiling of `a / b`. */
  function CeilDiv(a: int, b: int): (q: int)
    requires b != 0
    ensures b > 0 ==> q * b - b < a <= q * b
    ensures b < 0 ==> q * b <= a < q * b - b
  {
    -FloorDiv(-a, b)
  }

  /** Line 291: page 1 at offset 0, otherwise the page the offset falls in. */
  function CurrentPage(offset: int, limit: int): (p: int)
    requires limit != 0
    ensures offset == 0 ==> p == 1
    ensures limit > 0 ==> (p - 1) * limit <= offset < p * limit
  {
    if offset == 0 then 1 else FloorDiv(offset, limit) + 1
  }

  /** Quotient and remainder by a positive divisor are unique. */
  lemma DivUnique(a: int, m: int, q: int, r: int)
    requires m > 0 && a == q * m + r && 0 <= r < m
    ensures a / m == q && a % m == r
  {
    var q' := a / m;
    assert (q' + 1) * m == q' * m + m && (q + 1) * m == q * m + m;
    if q' < q {
      MulMonotone(q' + 1, q, m);
    } else if q' > q {
      MulMonotone(q + 1, q', m);
    }
  }

  /**
   * Lines 292-293: the floor of `total / limit`, one more when the division leaves a remainder,
   * is the ceiling. (JavaScript's `%` takes the dividend's sign, which for `total >= 0` is
   * Dafny's `%`.)
   */
  lemma {:induction false} RemainderRoundsUp(total: nat, limit: int)
    requires limit != 0
    ensures FloorDiv(total, limit) + (if total % limit > 0 then 1 else 0) == CeilDiv(total, limit)
  {
    var m := if limit > 0 then limit else -limit;
    NegatedQuotient(total, m);
    if limit < 0 {
      RemainderByNegative(total, limit);
    }
  }

  /** Negating the dividend negates the floor quotient, one less when a remainder is left. */
  lemma NegatedQuotient(a: int, m: int)
    requires m > 0
    ensures (-a) / m == if a % m > 0 then -(a / m) - 1 else -(a / m)
  {
    var q, r := a / m, a % m;
    if r > 0 {
      assert -a == (-q - 1) * m + (m - r);
      DivUnique(-a, m, -q - 1, m - r);
    } else {
      assert -a == (-q) * m + 0;
      DivUnique(-a, m, -q, 0);
    }
  }

  /** Dafny's remainder by a negative divisor is the remainder by its magnitude. */
  lemma RemainderByNegative(a: int, limit: int)
    requires limit < 0
    ensures a % limit == a % (-limit)
  {
    assert a == (-(a / limit)) * (-limit) + a % limit;
    DivUnique(a, -limit, -(a / limit), a % limit);
  }

  /** The range of GraphQL's `Int`, a signed 32-bit integer. */
  predicate IsInt32(n: int) {
    -0x8000_0000 <= n < 0x8000_0000
  }

  /**
   * Lines 291-302, and what GraphQL makes of the result. A zero limit makes the page numbers
   * Infinity or NaN, and a page number outside 32 bits cannot be serialized either: both end
   * in a field error. Otherwise the current page is the one the offset falls in, the page
   * count is the ceiling of `total / limit`, a next page exists while `offset + limit` is
   * short of the total, and a previous one past offset 0.
   */
  function Metadata(total: nat, limit: int, offset: int): (r: Result<OffsetPageInfo, PageError>)
    ensures r.Failure? ==> r.error == NonIntegerField
    ensures limit == 0 ==> r.Failure?
    ensures limit != 0 ==>
      (r.Success? <==> IsInt32(total) && IsInt32(CurrentPage(offset, limit)) && IsInt32(CeilDiv(total, limit)))
    ensures r.Success? ==>
      r.value.totalCount == total && r.value.currentPage == CurrentPage(offset, limit) && r.value.pagesCount == CeilDiv(total, limit)
    ensures r.Success? && limit > 0 ==>
      (r.value.currentPage - 1) * limit <= offset < r.value.currentPage * limit
    ensures r.Success? && limit > 0 ==>
      r.value.pagesCount * limit >= total && (total > 0 ==> (r.value.pagesCount - 1) * limit < total)
    ensures r.Success? ==>
      (r.value.hasNextPage <==> offset + limit < total) && (r.value.hasPreviousPage <==> offset > 0)
  {
    if limit == 0 then Failure(NonIntegerField)
    else
      var info := OffsetPageInfo(total, CurrentPage(offset, limit), CeilDiv(total, limit), offset + limit < total, offset > 0);
      if IsInt32(info.totalCount) && IsInt32(info.currentPage) && IsInt32(info.pagesCount) then Success(info)
      else Failure(NonIntegerField)
  }

  /** Lines 291-302 step by step, the page count by the floor quotient and `pagesCount++`. */
  method PageMetadata(total: nat, limit: int, offset: int) returns (r: Result<OffsetPageInfo, PageError>)
    ensures r == Metadata(total, limit, offset)
  {
    if limit == 0 {
      return Failure(NonIntegerField);
    }
    var currentPage := if offset == 0 then 1 else FloorDiv(offset, limit) + 1;
    var pagesCount := FloorDiv(total, limit);
    if total % limit > 0 {
      pagesCount := pagesCount + 1;
    }
    RemainderRoundsUp(total, limit);
    var hasNextPage := offset + limit < total;
    var hasPreviousPage := offset > 0;
    var pageInfo := OffsetPageInfo(total, currentPage, pagesCount, hasNextPage, hasPreviousPage);
    if !(IsInt32(pageInfo.totalCount) && IsInt32(pageInfo.currentPage) && IsInt32(pageInfo.pagesCount)) {
      return Failure(NonIntegerField);
    }
    r := Success(pageInfo);
  }

  /**
   * A positive limit, a 32-bit offset short of the largest `Int` and a total that fits: the
   * page numbers fit as well, so the request succeeds.
   */
  lemma InRangeRequestSucceeds(total: nat, limit: int, offset: int)
    requires 0 < limit && -0x8000_0000 <= offset < 0x7FFF_FFFF && total < 0x8000_0000
    ensures Metadata(total, limit, offset).Success?
  {
    if offset >= 0 {
      QuotientAtMost(offset, limit);
    } else {
      QuotientAtLeast(offset, limit);
    }
    QuotientAtMost(total, limit);
    RemainderRoundsUp(total, limit);
  }

  /** Dividing a negative number by a positive one rounds down no further than the number itself. */
  lemma QuotientAtLeast(a: int, m: int)
    requires a < 0 && m > 0
    ensures a <= a / m < 0
  {
    var q := a / m;
    assert (q + 1) * m == q * m + m;
    if q + 1 < 0 {
      MulMonotone(1, m, -(q + 1));
    }
  }

  /** Dividing a natural number by a positive one leaves at most the number less its remainder. */
  lemma QuotientAtMost(a: nat, m: int)
    requires m > 0
    ensures 0 <= a / m <= a - a % m
  {
    var q := a / m;
    assert q * m == a - a % m;
    if q > 0 {
      MulMonotone(1, m, q);
    }
  }

  /** The largest offset with a limit of 1 is page 2^31, which `Int` cannot carry. */
  lemma LargestOffsetOverflows()
    ensures Metadata(0, 1, 0x7FFF_FFFF).Failure?
  {
    assert CurrentPage(0x7FFF_FFFF, 1) == 0x8000_0000;
  }

  /** The page count covers the total and not one page more; nothing at all is zero pages. */
  lemma PagesCountIsCeiling(total: nat, limit: int)
    requires limit > 0
    ensures CeilDiv(total, limit) * limit >= total
    ensures total > 0 ==> (CeilDiv(total, limit) - 1) * limit < total
    ensures total == 0 ==> CeilDiv(total, limit) == 0
  {
  }

  /** Multiplying by a positive number keeps the order. */
  lemma MulMonotone(a: int, b: int, c: int)
    requires a <= b && c > 0
    ensures a * c <= b * c
  {
  }

  /** A multiple of the divisor divides exactly. */
  lemma FloorDivOfMultiple(k: int, limit: int)
    requires limit > 0
    ensures FloorDiv(k * limit, limit) == k
  {
    DivUnique(k * limit, limit, k, 0);
  }

  /**
   * At a page-aligned offset `k * limit` the current page is `k + 1`, a next page exists
   * exactly when that is not the last page, and a previous one exactly past page 1.
   */
  lemma {:induction false} AlignedPageFlags(total: nat, limit: int, k: nat)
    requires limit > 0
    ensures CurrentPage(k * limit, limit) == k + 1
    ensures (k * limit + limit < total) <==> CurrentPage(k * limit, limit) < CeilDiv(total, limit)
    ensures (k * limit > 0) <==> CurrentPage(k * limit, limit) > 1
  {
    var p := CeilDiv(total, limit);
    if k > 0 {
      MulMonotone(1, k, limit);
      FloorDivOfMultiple(k, limit);
    }
    assert k * limit + limit == (k + 1) * limit;
    assert p * limit - limit == (p - 1) * limit;
    if k + 1 >= p {
      MulMonotone(p, k + 1, limit);
    } else {
      MulMonotone(k + 1, p - 1, limit);
    }
  }

  /** Twenty-five hotels, ten per page: offsets 0, 10 and 20 are pages 1, 2 and 3 of 3. */
  lemma TwentyFiveByTen()
    ensures Metadata(25, 10, 0) == Success(OffsetPageInfo(25, 1, 3, true, false))
    ensures Metadata(25, 10, 10) == Success(OffsetPageInfo(25, 2, 3, true, true))
    ensures Metadata(25, 10, 20) == Success(OffsetPageInfo(25, 3, 3, false, true))
  {
  }
}
