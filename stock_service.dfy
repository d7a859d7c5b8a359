/**
 * The stock service (services/stock_service.go): IN and OUT movements on a
 * sub-variant and its product, applied as one all-or-nothing transaction,
 * and the stock report over a date range.
 */
module StockService {
  import opened Models
  import opened Ledger
  import opened Database
  import opened Report
  import Paging

  /** The report: one page of transactions and its totals. */
  datatype StockReport = StockReport(
    transactions: seq<StockTransaction>,
    totalIn: Qty,
    totalOut: Qty,
    net: Qty)

  /**
   * changeStock: checks the request, then runs the movement as one database
   * transaction.  txId and now stand for the fresh UUID and the clock
   * reading.
   */
  method ChangeStock(db: Store, req: StockChangeRequest, kind: Movement, txId: Uuid, now: int)
    returns (r: Result<StockTransaction, StockError>)
    requires db.Valid()
    requires FreshTransactionId(db.Snapshot(), txId)
    modifies db
    ensures db.Valid()
    ensures Outcome(r, db.Snapshot()) == StockChange(old(db.Snapshot()), req, kind, txId, now)
    ensures db.variants == old(db.variants) && db.options == old(db.options)
  {
    if req.productId.None? {
      return Failure(InvalidProductId);
    }
    if req.subVariantId.None? {
      return Failure(InvalidSubVariantId);
    }
    if req.quantity.None? {
      return Failure(InvalidQuantity);
    }
    var p, sv, qty := req.productId.value, req.subVariantId.value, req.quantity.value;
    if qty <= 0 {
      return Failure(QuantityNotPositive);
    }
    ghost var before := db.Snapshot();
    r := MoveInTransaction(db, p, sv, qty, kind, txId, now);
    assert req == StockChangeRequest(Some(p), Some(sv), Some(qty));
    StockChangePreservesConsistency(before, req, kind, txId, now);
  }

  /**
   * The body of changeStock's database transaction: finds the sub-variant
   * of the given product and the product, moves both the sub-variant's stock
   * and the product's total by the same quantity, and appends the
   * transaction.  The rows are changed in local copies and written back only
   * when every step has succeeded, which is what the database transaction
   * guarantees.
   */
  method MoveInTransaction(db: Store, p: Uuid, sv: Uuid, qty: Qty, kind: Movement, txId: Uuid, now: int)
    returns (r: Result<StockTransaction, StockError>)
    requires qty > 0
    modifies db
    ensures Outcome(r, db.Snapshot())
         == StockChange(old(db.Snapshot()), StockChangeRequest(Some(p), Some(sv), Some(qty)), kind, txId, now)
    ensures db.variants == old(db.variants) && db.options == old(db.options)
  {
    // the sub-variant row with this id and this product
    if sv !in db.subVariants || db.subVariants[sv].productId != p {
      return Failure(SubVariantNotFound);
    }
    var subVariant := db.subVariants[sv];

    // the product row
    if p !in db.products {
      return Failure(ProductNotFound);
    }
    var product := db.products[p];

    if kind == In {
      subVariant := subVariant.(stock := subVariant.stock + qty);
      product := product.(totalStock := product.totalStock + qty);
    } else {
      if subVariant.stock < qty {
        return Failure(InsufficientStock);
      }
      subVariant := subVariant.(stock := subVariant.stock - qty);
      product := product.(totalStock := product.totalStock - qty);
    }

    // saving a value the numeric(20,8) column cannot hold fails
    if !FitsColumn(subVariant.stock) || !FitsColumn(product.totalStock) {
      return Failure(NumericOverflow);
    }

    var tx := StockTransaction(txId, p, sv, qty, TypeName(kind), now);

    // commit
    db.subVariants := db.subVariants[sv := subVariant];
    db.products := db.products[p := product];
    db.transactions := db.transactions + [tx];
    r := Success(tx);
  }

  /** AddStock: an IN movement. */
  method AddStock(db: Store, req: StockChangeRequest, txId: Uuid, now: int)
    returns (r: Result<StockTransaction, StockError>)
    requires db.Valid()
    requires FreshTransactionId(db.Snapshot(), txId)
    modifies db
    ensures db.Valid()
    ensures Outcome(r, db.Snapshot()) == StockChange(old(db.Snapshot()), req, In, txId, now)
    ensures db.variants == old(db.variants) && db.options == old(db.options)
  {
    r := ChangeStock(db, req, In, txId, now);
  }

  /** RemoveStock: an OUT movement. */
  method RemoveStock(db: Store, req: StockChangeRequest, txId: Uuid, now: int)
    returns (r: Result<StockTransaction, StockError>)
    requires db.Valid()
    requires FreshTransactionId(db.Snapshot(), txId)
    modifies db
    ensures db.Valid()
    ensures Outcome(r, db.Snapshot()) == StockChange(old(db.Snapshot()), req, Out, txId, now)
    ensures db.variants == old(db.variants) && db.options == old(db.options)
  {
    r := ChangeStock(db, req, Out, txId, now);
  }

  /**
   * The report's fold over the page: the total quantity of IN rows, of OUT
   * rows (rows of any other type are ignored) and their difference, which is
   * the signed sum of the page's movements.
   */
  method FoldTotals(txs: seq<StockTransaction>) returns (totalIn: Qty, totalOut: Qty, net: Qty)
    ensures totalIn == SumOfType(txs, "IN") && totalOut == SumOfType(txs, "OUT")
    ensures net == totalIn - totalOut
    ensures net == SignedSum(txs)
  {
    totalIn, totalOut := 0, 0;
    assert "IN" != "OUT" by { assert |"IN"| != |"OUT"|; }
    for i := 0 to |txs|
      invariant totalIn == SumOfType(txs[..i], "IN")
      invariant totalOut == SumOfType(txs[..i], "OUT")
    {
      assert txs[..i + 1][..i] == txs[..i];
      var t := txs[i];
      if t.transactionType == "IN" {
        totalIn := totalIn + t.quantity;
      } else if t.transactionType == "OUT" {
        totalOut := totalOut + t.quantity;
      }
    }
    assert txs[..|txs|] == txs;
    net := totalIn - totalOut;
    NetIsSignedSum(txs);
  }

  /**
   * GetStockReport: the page of transactions dated within [from, to] (both
   * included), newest first, for the normalised page and limit (default 20),
   * with its totals.  On a valid store both totals are non-negative.
   */
  method GetStockReport(db: Store, from: int, to: int, page: int, limit: int) returns (report: StockReport)
    ensures report.transactions == ReportPage(db.transactions, from, to, page, limit)
    ensures report.totalIn == SumOfType(report.transactions, "IN")
    ensures report.totalOut == SumOfType(report.transactions, "OUT")
    ensures report.net == report.totalIn - report.totalOut
    ensures db.Valid() ==> report.totalIn >= 0 && report.totalOut >= 0
  {
    var p, l, offset := Paging.Normalize(page, limit, Paging.ReportDefaultLimit);
    var txs := Paging.Window(ByDateDesc(InRangeRows(db.transactions, from, to)), offset, l);
    var totalIn, totalOut, net := FoldTotals(txs);
    report := StockReport(txs, totalIn, totalOut, net);
    ReportPageRows(db.transactions, from, to, page, limit);
    if db.Valid() {
      SumOfTypeNonNegative(txs, "IN");
      SumOfTypeNonNegative(txs, "OUT");
    }
  }
}
