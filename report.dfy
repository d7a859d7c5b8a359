/**
 * The stock report's query and totals (services/stock_service.go,
 * GetStockReport): the transactions dated within [from, to], newest first,
 * one LIMIT/OFFSET page of them, and the IN, OUT and net totals of that page.
 */
module Report {
  import opened Models
  import opened Ledger
  import Paging

  /** SQL's `transaction_date BETWEEN from AND to`: both ends included. */
  predicate InRange(tx: StockTransaction, from: int, to: int) {
    from <= tx.transactionDate <= to
  }

  /** The logged transactions dated within [from, to], in log order. */
  function InRangeRows(log: seq<StockTransaction>, from: int, to: int): (w: seq<StockTransaction>)
    ensures forall i | 0 <= i < |w| :: InRange(w[i], from, to) && w[i] in log
    ensures forall i | 0 <= i < |log| && InRange(log[i], from, to) :: log[i] in w
    ensures forall x :: multiset(w)[x] == if InRange(x, from, to) then multiset(log)[x] else 0
  {
    if log == [] then []
    else
      var rest := InRangeRows(log[..|log| - 1], from, to);
      var last := log[|log| - 1];
      assert log == log[..|log| - 1] + [last];
      assert multiset(log) == multiset(log[..|log| - 1]) + multiset{last};
      if InRange(last, from, to) then rest + [last] else rest
  }

  // ---------- ORDER BY transaction_date DESC ----------

  /** Newest first: dates never increase along the sequence. */
  ghost predicate NewestFirst(s: seq<StockTransaction>) {
    forall i, j | 0 <= i < j < |s| :: s[i].transactionDate >= s[j].transactionDate
  }

  /** Puts tx into a newest-first sequence, ahead of the rows with the same or an older date. */
  function InsertByDate(tx: StockTransaction, s: seq<StockTransaction>): seq<StockTransaction> {
    if s == [] || tx.transactionDate >= s[0].transactionDate then [tx] + s
    else [s[0]] + InsertByDate(tx, s[1..])
  }

  /**
   * The rows ordered newest first.  SQL leaves the order of rows with equal
   * dates open; this one keeps them in log order.
   */
  function ByDateDesc(s: seq<StockTransaction>): seq<StockTransaction> {
    if s == [] then [] else InsertByDate(s[0], ByDateDesc(s[1..]))
  }

  /** The tail of a newest-first sequence is newest first, and its head is at least as new as all of it. */
  lemma NewestFirstTail(s: seq<StockTransaction>)
    requires s != [] && NewestFirst(s)
    ensures NewestFirst(s[1..])
    ensures forall x | x in s[1..] :: s[0].transactionDate >= x.transactionDate
  {
    forall i, j | 0 <= i < j < |s[1..]|
      ensures s[1..][i].transactionDate >= s[1..][j].transactionDate
    {
      assert s[1..][i] == s[i + 1] && s[1..][j] == s[j + 1];
    }
  }

  /** A row at least as new as every row of a newest-first sequence can go in front of it. */
  lemma NewestFirstCons(h: StockTransaction, r: seq<StockTransaction>)
    requires NewestFirst(r)
    requires forall x | x in r :: h.transactionDate >= x.transactionDate
    ensures NewestFirst([h] + r)
  {
    var hr := [h] + r;
    forall i, j | 0 <= i < j < |hr|
      ensures hr[i].transactionDate >= hr[j].transactionDate
    {
      assert hr[j] == r[j - 1];
      if i > 0 {
        assert hr[i] == r[i - 1];
      }
    }
  }

  /** Insertion adds exactly the one row. */
  lemma {:induction false} InsertByDateAddsOne(tx: StockTransaction, s: seq<StockTransaction>)
    ensures multiset(InsertByDate(tx, s)) == multiset(s) + multiset{tx}
  {
    if s != [] && tx.transactionDate < s[0].transactionDate {
      InsertByDateAddsOne(tx, s[1..]);
      assert s == [s[0]] + s[1..];
    }
  }

  /** Insertion keeps a sequence newest first. */
  lemma {:induction false} InsertByDateKeepsOrder(tx: StockTransaction, s: seq<StockTransaction>)
    requires NewestFirst(s)
    ensures NewestFirst(InsertByDate(tx, s))
  {
    if s == [] {
    } else if tx.transactionDate >= s[0].transactionDate {
      NewestFirstTail(s);
      assert s == [s[0]] + s[1..];
      NewestFirstCons(tx, s);
    } else {
      var rest := InsertByDate(tx, s[1..]);
      NewestFirstTail(s);
      InsertByDateKeepsOrder(tx, s[1..]);
      InsertByDateAddsOne(tx, s[1..]);
      forall x | x in rest
        ensures s[0].transactionDate >= x.transactionDate
      {
        assert x in multiset(rest);
      }
      NewestFirstCons(s[0], rest);
    }
  }

  /** ByDateDesc sorts: the result is newest first and holds exactly the same rows. */
  lemma {:induction false} ByDateDescSorts(s: seq<StockTransaction>)
    ensures NewestFirst(ByDateDesc(s))
    ensures multiset(ByDateDesc(s)) == multiset(s)
  {
    if s != [] {
      ByDateDescSorts(s[1..]);
      InsertByDateKeepsOrder(s[0], ByDateDesc(s[1..]));
      InsertByDateAddsOne(s[0], ByDateDesc(s[1..]));
      assert s == [s[0]] + s[1..];
    }
  }

  /** The rows the report's query returns for one page. */
  function ReportPage(log: seq<StockTransaction>, from: int, to: int, page: int, limit: int): seq<StockTransaction> {
    var p, l := Paging.NormalPage(page), Paging.NormalLimit(limit, Paging.ReportDefaultLimit);
    Paging.OffsetNonNegative(p, l);
    Paging.Window(ByDateDesc(InRangeRows(log, from, to)), Paging.Offset(p, l), l)
  }

  /** Every row the sort returns is a logged transaction dated within the range. */
  lemma SortedRowMatches(log: seq<StockTransaction>, from: int, to: int, i: int)
    requires 0 <= i < |ByDateDesc(InRangeRows(log, from, to))|
    ensures var x := ByDateDesc(InRangeRows(log, from, to))[i]; x in log && InRange(x, from, to)
  {
    var matching := InRangeRows(log, from, to);
    var x := ByDateDesc(matching)[i];
    ByDateDescSorts(matching);
    assert x in multiset(ByDateDesc(matching));
    assert x in matching;
    var k :| 0 <= k < |matching| && matching[k] == x;
  }

  /** A window of a newest-first sequence is newest first. */
  lemma WindowNewestFirst(s: seq<StockTransaction>, off: int, l: int)
    requires off >= 0 && l >= 0 && NewestFirst(s)
    ensures NewestFirst(Paging.Window(s, off, l))
  {
    var w := Paging.Window(s, off, l);
    forall i, j | 0 <= i < j < |w|
      ensures w[i].transactionDate >= w[j].transactionDate
    {
      assert w[i] == s[off + i] && w[j] == s[off + j];
    }
  }

  /**
   * What the page holds: at most the normalised limit of rows, newest first,
   * each a logged transaction dated within [from, to].
   */
  lemma ReportPageRows(log: seq<StockTransaction>, from: int, to: int, page: int, limit: int)
    ensures var rows := ReportPage(log, from, to, page, limit);
            && |rows| <= Paging.NormalLimit(limit, Paging.ReportDefaultLimit)
            && NewestFirst(rows)
            && forall i | 0 <= i < |rows| :: rows[i] in log && InRange(rows[i], from, to)
  {
    var p, l := Paging.NormalPage(page), Paging.NormalLimit(limit, Paging.ReportDefaultLimit);
    Paging.OffsetNonNegative(p, l);
    SortedWindowRows(log, from, to, Paging.Offset(p, l), l);
  }

  /** A window of the sorted matching rows: at most l rows, newest first, each matching. */
  lemma SortedWindowRows(log: seq<StockTransaction>, from: int, to: int, off: int, l: int)
    requires off >= 0 && l >= 0
    ensures var rows := Paging.Window(ByDateDesc(InRangeRows(log, from, to)), off, l);
            && |rows| <= l
            && NewestFirst(rows)
            && forall i | 0 <= i < |rows| :: rows[i] in log && InRange(rows[i], from, to)
  {
    SortedMatching(log, from, to);
    WindowOfMatching(ByDateDesc(InRangeRows(log, from, to)), off, l, log, from, to);
  }

  /** The sorted matching rows are newest first and each a logged transaction within the range. */
  lemma SortedMatching(log: seq<StockTransaction>, from: int, to: int)
    ensures var sorted := ByDateDesc(InRangeRows(log, from, to));
            && NewestFirst(sorted)
            && forall i | 0 <= i < |sorted| :: sorted[i] in log && InRange(sorted[i], from, to)
  {
    ByDateDescSorts(InRangeRows(log, from, to));
    var sorted := ByDateDesc(InRangeRows(log, from, to));
    forall i | 0 <= i < |sorted|
      ensures sorted[i] in log && InRange(sorted[i], from, to)
    {
      SortedRowMatches(log, from, to, i);
    }
  }

  /** A window of newest-first matching rows is newest first, matching and at most l long. */
  lemma WindowOfMatching(s: seq<StockTransaction>, off: int, l: int, log: seq<StockTransaction>, from: int, to: int)
    requires off >= 0 && l >= 0 && NewestFirst(s)
    requires forall i | 0 <= i < |s| :: s[i] in log && InRange(s[i], from, to)
    ensures var rows := Paging.Window(s, off, l);
            && |rows| <= l
            && NewestFirst(rows)
            && forall i | 0 <= i < |rows| :: rows[i] in log && InRange(rows[i], from, to)
  {
    WindowNewestFirst(s, off, l);
    var rows := Paging.Window(s, off, l);
    forall i | 0 <= i < |rows|
      ensures rows[i] in log && InRange(rows[i], from, to)
    {
      assert rows[i] == s[off + i];
    }
  }

  /**
   * A limit that reaches the number of matching rows puts all of them on
   * the first page.
   */
  lemma FirstPageHoldsAll(log: seq<StockTransaction>, from: int, to: int, limit: int)
    requires limit >= |InRangeRows(log, from, to)|
    ensures multiset(ReportPage(log, from, to, 1, limit)) == multiset(InRangeRows(log, from, to))
  {
    var matching := InRangeRows(log, from, to);
    ByDateDescSorts(matching);
    var sorted := ByDateDesc(matching);
    var l := Paging.NormalLimit(limit, Paging.ReportDefaultLimit);
    assert Paging.Offset(1, l) == 0;
    assert ReportPage(log, from, to, 1, limit) == sorted;
  }

  // ---------- Totals ----------

  /** The sum of the quantities of the rows of one transaction type. */
  function SumOfType(s: seq<StockTransaction>, ty: string): Qty {
    if s == [] then 0
    else
      var last := s[|s| - 1];
      SumOfType(s[..|s| - 1], ty) + (if last.transactionType == ty then last.quantity else 0)
  }

  /** The sum of the signed effects of the rows. */
  function SignedSum(s: seq<StockTransaction>): Qty {
    if s == [] then 0 else SignedSum(s[..|s| - 1]) + Signed(s[|s| - 1])
  }

  /** The net of IN over OUT is the signed sum: rows of any other type count for nothing. */
  lemma {:induction false} NetIsSignedSum(s: seq<StockTransaction>)
    ensures SumOfType(s, "IN") - SumOfType(s, "OUT") == SignedSum(s)
  {
    if s != [] {
      NetIsSignedSum(s[..|s| - 1]);
    }
  }

  /** Totals add up over consecutive pieces, so the totals of consecutive pages add up too. */
  lemma {:induction false} SumOfTypeConcat(a: seq<StockTransaction>, b: seq<StockTransaction>, ty: string)
    ensures SumOfType(a + b, ty) == SumOfType(a, ty) + SumOfType(b, ty)
    decreases |b|
  {
    if b == [] {
      assert a + b == a;
    } else {
      assert (a + b)[..|a + b| - 1] == a + b[..|b| - 1];
      SumOfTypeConcat(a, b[..|b| - 1], ty);
    }
  }

  /** Totals of rows with positive quantities are never negative. */
  lemma {:induction false} SumOfTypeNonNegative(s: seq<StockTransaction>, ty: string)
    requires forall i | 0 <= i < |s| :: s[i].quantity > 0
    ensures SumOfType(s, ty) >= 0
  {
    if s != [] {
      SumOfTypeNonNegative(s[..|s| - 1], ty);
    }
  }

  /** The report's worked example: IN 10, OUT 3, IN 5 give total IN 15, total OUT 3, net 12. */
  lemma ExampleTotals(a: StockTransaction, b: StockTransaction, c: StockTransaction)
    requires a.transactionType == "IN" && a.quantity == 10 * UnitsPerWhole
    requires b.transactionType == "OUT" && b.quantity == 3 * UnitsPerWhole
    requires c.transactionType == "IN" && c.quantity == 5 * UnitsPerWhole
    ensures SumOfType([c, b, a], "IN") == 15 * UnitsPerWhole
    ensures SumOfType([c, b, a], "OUT") == 3 * UnitsPerWhole
    ensures SignedSum([c, b, a]) == 12 * UnitsPerWhole
  {
    assert [c, b, a][..2] == [c, b];
    assert [c, b][..1] == [c];
    assert [c][..0] == [];
    assert "IN" != "OUT" by { assert |"IN"| != |"OUT"|; }
    assert SumOfType([c], "IN") == 5 * UnitsPerWhole;
    assert SumOfType([c], "OUT") == SumOfType([], "OUT") + 0;
    assert SumOfType([c, b], "IN") == 5 * UnitsPerWhole && SumOfType([c, b], "OUT") == 3 * UnitsPerWhole;
    NetIsSignedSum([c, b, a]);
  }
}
