/** Page numbers, offsets and page counts in 64-bit integers. */
module Pagination {
  import opened Decimal

  const DEFAULT_LIMIT: int := 10
  const MAXIMUM_LIMIT: int := 100

  predicate IsInt64(n: int) {
    MIN_INT64 <= n <= MAX_INT64
  }

  /** Two's-complement wrap-around of an exact result. */
  function Wrap(n: int): (r: int)
    ensures IsInt64(r)
    ensures IsInt64(n) ==> r == n
  {
    var span := MAX_INT64 - MIN_INT64 + 1;
    (n - MIN_INT64) % span + MIN_INT64
  }

  /** Division that truncates towards zero. */
  function Quotient(a: int, b: int): int
    requires b != 0
  {
    if a >= 0 then a / b else -((-a) / b)
  }

  function Ceiling(total: nat, limit: nat): nat
    requires limit > 0
  {
    if total % limit == 0 then total / limit else total / limit + 1
  }

  datatype PaginationMeta = PaginationMeta(page: int, limit: int, total: int, totalPages: int)

  class PaginationInput {
    var page: int
    var limit: int

    constructor (page: int, limit: int)
      ensures this.page == page && this.limit == limit
    {
      this.page, this.limit := page, limit;
    }

    method Validate()
      modifies this
      ensures page >= 1 && 1 <= limit <= MAXIMUM_LIMIT
      ensures page == if old(page) >= 1 then old(page) else 1
      ensures 1 <= old(limit) <= MAXIMUM_LIMIT ==> limit == old(limit)
      ensures old(limit) < 1 ==> limit == DEFAULT_LIMIT
      ensures old(limit) > MAXIMUM_LIMIT ==> limit == MAXIMUM_LIMIT
    {
      if page < 1 {
        page := 1;
      }
      if limit < 1 {
        limit := DEFAULT_LIMIT;
      }
      if limit > MAXIMUM_LIMIT {
        limit := MAXIMUM_LIMIT;
      }
    }

    function Offset(): (offset: int)
      reads this
      ensures page >= 1 && limit >= 1 ==>
        offset == if (page - 1) * limit <= MAX_INT64 then (page - 1) * limit else MAX_INT64
      ensures page < 1 || limit < 1 ==> offset == 0
    {
      assert page >= 1 && limit >= 1 ==>
        OffsetOf(page, limit) == (if (page - 1) * limit <= MAX_INT64 then (page - 1) * limit else MAX_INT64)
      by {
        if page >= 1 && limit >= 1 { OffsetSaturates(page, limit); }
      }
      OffsetOf(page, limit)
    }

    /** What the response says about the page, for input that has been validated. */
    function NewPaginationMeta(total: int): (meta: PaginationMeta)
      reads this
      requires limit != 0
      ensures meta.page == page && meta.limit == limit && meta.total == total
      ensures 0 <= total && 1 <= limit <= MAXIMUM_LIMIT && total + limit - 1 <= MAX_INT64 ==>
        meta.totalPages == Ceiling(total, limit)
    {
      assert 0 <= total && 1 <= limit <= MAXIMUM_LIMIT && total + limit - 1 <= MAX_INT64 ==>
        TotalPagesOf(total, limit) == Ceiling(total, limit)
      by {
        if 0 <= total <= MAX_INT64 && 1 <= limit <= MAXIMUM_LIMIT { TotalPagesExactly(total, limit); }
      }
      PaginationMeta(page, limit, total, TotalPagesOf(total, limit))
    }
  }

  /** Every product is computed in 64 bits. */
  function OffsetOf(page: int, limit: int): int {
    if page <= 1 || limit <= 0 then 0
    else if page - 1 > MAX_INT64 / limit then MAX_INT64
    else Wrap((page - 1) * limit)
  }

  function TotalPagesOf(total: int, limit: int): int
    requires limit != 0
  {
    Wrap(Quotient(RoundingSum(total, limit), limit))
  }

  /** `LIMIT` and `OFFSET` of a query over the ordered rows. */
  function Slice<T>(rows: seq<T>, limit: nat, offset: nat): seq<T> {
    if offset >= |rows| then []
    else if offset + limit >= |rows| then rows[offset..]
    else rows[offset..offset + limit]
  }

  // ----- the offset -----

  lemma ProductWithin(m: nat, limit: nat, bound: nat)
    requires limit > 0
    ensures m > bound / limit <==> m * limit > bound
  {
    var q, r := bound / limit, bound % limit;
    assert bound == q * limit + r;
    if m > q {
      assert m * limit >= (q + 1) * limit;
    } else {
      assert m * limit <= q * limit;
    }
  }

  /** The offset saturates at the largest integer instead of wrapping. */
  lemma OffsetSaturates(page: int, limit: int)
    requires 1 <= page && 1 <= limit
    ensures OffsetOf(page, limit) == if (page - 1) * limit <= MAX_INT64 then (page - 1) * limit else MAX_INT64
  {
    ProductWithin(page - 1, limit, MAX_INT64);
    if page > 1 {
      assert (page - 1) * limit >= 0;
    }
  }

  // ----- the page count -----

  lemma CeilingBounds(total: nat, limit: nat)
    requires limit > 0
    ensures (total + limit - 1) / limit == Ceiling(total, limit)
    ensures total > 0 ==> (Ceiling(total, limit) - 1) * limit < total
    ensures total <= Ceiling(total, limit) * limit
  {
    var q, r := total / limit, total % limit;
    assert total == q * limit + r;
    if r == 0 {
      QuotientIs(total + limit - 1, limit, q, limit - 1);
    } else {
      QuotientIs(total + limit - 1, limit, q + 1, r - 1);
    }
  }

  lemma QuotientIs(n: nat, limit: nat, q: nat, r: nat)
    requires r < limit && n == q * limit + r
    ensures n / limit == q
  {
    var q', r' := n / limit, n % limit;
    assert n == q' * limit + r';
    assert q' < q ==> (q' + 1) * limit <= q * limit;
    assert q < q' ==> (q + 1) * limit <= q' * limit;
  }

  function RoundingSum(total: int, limit: int): int {
    Wrap(Wrap(total + limit) - 1)
  }

  lemma RoundingSumWraps(total: nat, limit: nat)
    requires total <= MAX_INT64 && 1 <= limit <= MAXIMUM_LIMIT
    ensures RoundingSum(total, limit)
         == if total + limit - 1 <= MAX_INT64 then total + limit - 1 else total + limit - 1 - 0x1_0000_0000_0000_0000
  {
  }

  lemma QuotientSign(a: int, limit: nat)
    requires IsInt64(a) && limit > 0
    ensures a >= 0 ==> 0 <= Quotient(a, limit) <= a
    ensures a < 0 ==> a <= Quotient(a, limit) <= 0
  {
    QuotientShrinks(if a >= 0 then a else -a, limit);
  }

  lemma QuotientShrinks(n: nat, limit: nat)
    requires limit > 0
    ensures n / limit <= n
  {
    FactorAtMost(n / limit, limit);
  }

  lemma FactorAtMost(q: nat, limit: nat)
    requires limit > 0
    ensures q <= q * limit
  {
    assert q * limit == q + q * (limit - 1);
  }

  /** The announced page count is the rounded-up quotient exactly when the sum that
      rounds it up fits in 64 bits; beyond that no page is announced. */
  lemma TotalPagesExactly(total: int, limit: int)
    requires 0 <= total <= MAX_INT64 && 1 <= limit <= MAXIMUM_LIMIT
    ensures TotalPagesOf(total, limit) == Ceiling(total, limit) <==> total + limit - 1 <= MAX_INT64
    ensures total + limit - 1 > MAX_INT64 ==> TotalPagesOf(total, limit) <= 0
  {
    CeilingBounds(total, limit);
    RoundingSumWraps(total, limit);
    QuotientSign(RoundingSum(total, limit), limit);
    assert Ceiling(total, limit) == 0 ==> total == 0;
  }

  // ----- the pages of a fixed result -----

  function PageOf<T>(rows: seq<T>, limit: int, page: int): seq<T>
    requires limit >= 1 && page >= 1
  {
    Slice(rows, limit, Start(page, limit))
  }

  function Start(page: int, limit: int): (offset: nat)
    requires limit >= 1 && page >= 1
    ensures offset == OffsetOf(page, limit)
  {
    OffsetSaturates(page, limit);
    assert (page - 1) * limit >= 0;
    OffsetOf(page, limit)
  }

  /** Pages 1 to `n`, one after the other. */
  function Pages<T>(rows: seq<T>, limit: int, n: nat): seq<T>
    requires limit >= 1
  {
    if n == 0 then [] else Pages(rows, limit, n - 1) + PageOf(rows, limit, n)
  }

  lemma {:induction false} PagesArePrefix<T>(rows: seq<T>, limit: int, n: nat)
    requires limit >= 1 && |rows| <= MAX_INT64
    ensures n * limit >= 0
    ensures Pages(rows, limit, n) == if n * limit <= |rows| then rows[..n * limit] else rows
  {
    if n > 0 {
      PagesArePrefix(rows, limit, n - 1);
      OffsetSaturates(n, limit);
      assert n * limit == (n - 1) * limit + limit;
    }
  }

  /** Pages 1 to `TotalPages` are the whole result in order. */
  lemma PagesConcatenate<T>(rows: seq<T>, limit: int)
    requires 1 <= limit <= MAXIMUM_LIMIT && |rows| + limit - 1 <= MAX_INT64
    ensures TotalPagesOf(|rows|, limit) >= 0
    ensures Pages(rows, limit, TotalPagesOf(|rows|, limit)) == rows
  {
    TotalPagesExactly(|rows|, limit);
    CeilingBounds(|rows|, limit);
    PagesArePrefix(rows, limit, Ceiling(|rows|, limit));
  }

  lemma ProductGrows(a: int, b: int, limit: int)
    requires limit >= 1
    ensures a <= b ==> a * limit <= b * limit && (a - 1) * limit <= (b - 1) * limit
  {
  }

  lemma SliceEmpty<T>(rows: seq<T>, limit: nat, offset: nat)
    requires limit >= 1
    ensures Slice(rows, limit, offset) == [] <==> offset >= |rows|
  {
  }

  lemma StartReaches(total: nat, limit: int, page: int, pages: int)
    requires limit >= 1 && page >= 1 && pages >= 0
    requires total > 0 ==> (pages - 1) * limit < total
    requires total <= pages * limit && (total == 0 ==> pages == 0)
    ensures (page - 1) * limit >= total <==> page > pages
  {
    ProductGrows(pages, page - 1, limit);
    ProductGrows(page, pages, limit);
  }

  lemma OffsetReaches(total: nat, limit: int, page: int)
    requires limit >= 1 && page >= 1 && total <= MAX_INT64
    ensures OffsetOf(page, limit) >= total <==> page > Ceiling(total, limit)
  {
    CeilingBounds(total, limit);
    OffsetSaturates(page, limit);
    StartReaches(total, limit, page, Ceiling(total, limit));
  }

  /** A page is empty exactly when it comes after the announced ones. */
  lemma LaterPagesEmpty<T>(rows: seq<T>, limit: int, page: int)
    requires 1 <= limit <= MAXIMUM_LIMIT && |rows| + limit - 1 <= MAX_INT64 && page >= 1
    ensures PageOf(rows, limit, page) == [] <==> page > TotalPagesOf(|rows|, limit)
  {
    TotalPagesExactly(|rows|, limit);
    OffsetReaches(|rows|, limit, page);
    SliceEmpty(rows, limit, Start(page, limit));
  }
}
