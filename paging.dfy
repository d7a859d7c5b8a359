/**
 * Page and limit normalisation shared by the stock report (default limit 20)
 * and the product list (default limit 10), and the LIMIT/OFFSET window they
 * select from a query's rows.
 */
module Paging {

  const ReportDefaultLimit: int := 20
  const ProductListDefaultLimit: int := 10

  /** A page number below 1 means the first page. */
  function NormalPage(page: int): int {
    if page < 1 then 1 else page
  }

  /** A limit that is not positive means the default limit. */
  function NormalLimit(limit: int, defaultLimit: int): int {
    if limit <= 0 then defaultLimit else limit
  }

  /** The number of rows before the given page. */
  function Offset(page: int, limit: int): int {
    (page - 1) * limit
  }

  /**
   * The page/limit prologue of GetStockReport and ListProducts, step by
   * step: the page it settles on is at least 1 and is the requested one when
   * that is valid, likewise the limit, and the offset, the number of rows on
   * the earlier pages, is never negative.
   */
  method Normalize(page: int, limit: int, defaultLimit: int) returns (p: int, l: int, offset: int)
    requires defaultLimit > 0
    ensures p >= 1 && l >= 1 && offset >= 0
    ensures p == (if page >= 1 then page else 1)
    ensures l == (if limit > 0 then limit else defaultLimit)
    ensures p == NormalPage(page) && l == NormalLimit(limit, defaultLimit) && offset == Offset(p, l)
  {
    p, l := page, limit;
    if p < 1 {
      p := 1;
    }
    if l <= 0 {
      l := defaultLimit;
    }
    offset := (p - 1) * l;
    OffsetNonNegative(p, l);
  }

  /** The offset of a normalised page is never negative. */
  lemma OffsetNonNegative(p: int, l: int)
    requires p >= 1 && l >= 1
    ensures Offset(p, l) >= 0
  {
    assert (p - 1) * l >= 0 * l;
  }

  /** The rows of a query that LIMIT l OFFSET offset returns. */
  function Window<T>(rows: seq<T>, offset: int, l: int): (w: seq<T>)
    requires offset >= 0 && l >= 0
    ensures |w| == (if offset >= |rows| then 0 else if |rows| - offset < l then |rows| - offset else l)
    ensures forall i | 0 <= i < |w| :: w[i] == rows[offset + i]
  {
    var from := if offset < |rows| then offset else |rows|;
    var to := if offset + l < |rows| then offset + l else |rows|;
    rows[from..to]
  }

  /** Pages 1, 2, ..., n of limit l, one after another. */
  function Pages<T>(rows: seq<T>, l: int, n: nat): seq<T>
    requires l >= 1
  {
    if n == 0 then [] else Pages(rows, l, n - 1) + Window(rows, Offset(n, l), l)
  }

  /**
   * Consecutive pages tile the rows: pages 1 to n together are the first
   * n * l rows (all of them once n * l reaches the row count), with no row
   * skipped or repeated.
   */
  lemma {:induction false} PagesTile<T>(rows: seq<T>, l: int, n: nat)
    requires l >= 1
    ensures Pages(rows, l, n) == rows[..if n * l < |rows| then n * l else |rows|]
  {
    if n > 0 {
      PagesTile(rows, l, n - 1);
      OffsetNonNegative(n, l);
      assert Offset(n, l) == (n - 1) * l;
      assert n * l == (n - 1) * l + l;
    }
  }

  // ---------- Go's 64-bit int ----------

  const TwoTo63: int := 0x8000_0000_0000_0000

  predicate IsInt64(x: int) {
    -TwoTo63 <= x < TwoTo63
  }

  /** Two's-complement wrap-around of a 64-bit signed integer. */
  function WrapInt64(x: int): (r: int)
    ensures IsInt64(r)
    ensures (r - x) % (2 * TwoTo63) == 0
    ensures IsInt64(x) ==> r == x
  {
    var m := (x + TwoTo63) % (2 * TwoTo63);
    m - TwoTo63
  }

  /** The offset exactly as the source computes it, in Go's wrapping 64-bit int. */
  function OffsetAsWritten(page: int, limit: int): int
    requires IsInt64(page) && IsInt64(limit)
  {
    WrapInt64(WrapInt64(page - 1) * limit)
  }

  /**
   * A valid page and limit whose offset wraps negative: page 2^61 + 1 with
   * limit 4 gives (page - 1) * limit = 2^63, one past the largest int64.
   */
  lemma OffsetAsWrittenGoesNegative()
    ensures var page, limit := 0x2000_0000_0000_0001, 4;
            && IsInt64(page) && NormalPage(page) == page && NormalLimit(limit, ReportDefaultLimit) == limit
            && Offset(page, limit) == TwoTo63
            && OffsetAsWritten(page, limit) < 0
  {
  }

  /** Where nothing overflows, the exact offset is the one the source computes. */
  lemma OffsetAsWrittenAgreesWithinRange(page: int, limit: int)
    requires IsInt64(page) && IsInt64(limit) && page >= 1 && limit >= 1
    requires IsInt64(Offset(page, limit))
    ensures OffsetAsWritten(page, limit) == Offset(page, limit)
  {
  }
}
