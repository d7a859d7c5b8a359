/**
 * The stock ledger as values: the three tables a stock movement touches, the
 * consistency they keep (non-negative stock, the product total in lockstep
 * with its sub-variants, an audit log that accounts for every unit of stock),
 * and the effect of one IN or OUT movement (services/stock_service.go,
 * changeStock), all-or-nothing.
 */
module Ledger {
  import opened Models

  /** The tables a stock movement reads and writes. */
  datatype Tables = Tables(
    products: map<Uuid, Product>,
    subVariants: map<Uuid, SubVariant>,
    transactions: seq<StockTransaction>)

  // ---------- Sums ----------

  /** What one sub-variant row contributes to the total of product p. */
  function Share(row: SubVariant, p: Uuid): Qty {
    if row.productId == p then row.stock else 0
  }

  /** The sum of the stock of all sub-variants of product p. */
  ghost function StockOf(rows: map<Uuid, SubVariant>, p: Uuid): Qty
    decreases |rows|
  {
    if rows == map[] then 0
    else
      var k :| k in rows;
      assert (rows - {k}).Keys == rows.Keys - {k};
      Share(rows[k], p) + StockOf(rows - {k}, p)
  }

  /** The signed effect of one transaction on stock: +q for IN, -q for OUT, nothing otherwise. */
  function Signed(tx: StockTransaction): Qty {
    if tx.transactionType == "IN" then tx.quantity
    else if tx.transactionType == "OUT" then -tx.quantity
    else 0
  }

  /** The net of all logged movements of sub-variant sv. */
  function NetFor(log: seq<StockTransaction>, sv: Uuid): Qty {
    if log == [] then 0
    else
      var last := log[|log| - 1];
      NetFor(log[..|log| - 1], sv) + (if last.subVariantId == sv then Signed(last) else 0)
  }

  /** Every sub-variant's stock is non-negative. */
  ghost predicate StockNonNegative(rows: map<Uuid, SubVariant>) {
    forall k | k in rows :: rows[k].stock >= 0
  }

  /**
   * The invariant every committed state keeps: rows are stored under their
   * own ids; stock is non-negative and fits its column; each product's total
   * stock is the sum of its sub-variants' stock; each sub-variant's stock is
   * the net of its logged movements; every logged movement refers to an
   * existing sub-variant of the logged product, with a positive quantity and
   * type IN or OUT; transaction ids are unique.
   */
  ghost predicate Consistent(t: Tables) {
    TotalsAgree(t) && ProductKeysUnique(t) && StockAgrees(t) && LogWellFormed(t) && LogIdsUnique(t)
  }

  /** No two products share a product number or a product code (the unique columns). */
  predicate ProductKeysUnique(t: Tables) {
    forall a, b | a in t.products && b in t.products && a != b ::
      && t.products[a].productNumber != t.products[b].productNumber
      && t.products[a].productCode != t.products[b].productCode
  }

  /** Each product is stored under its id and its total is the sum of its sub-variants' stock. */
  ghost predicate TotalsAgree(t: Tables) {
    forall p | p in t.products ::
      && t.products[p].id == p
      && t.products[p].totalStock == StockOf(t.subVariants, p)
      && FitsColumn(t.products[p].totalStock)
  }

  /** Each sub-variant is stored under its id and its stock is in range and is the net of its log. */
  ghost predicate StockAgrees(t: Tables) {
    forall k | k in t.subVariants ::
      && t.subVariants[k].id == k
      && 0 <= t.subVariants[k].stock
      && FitsColumn(t.subVariants[k].stock)
      && t.subVariants[k].stock == NetFor(t.transactions, k)
  }

  /** Each logged movement names an existing sub-variant of its product, a positive quantity and IN or OUT. */
  predicate LogWellFormed(t: Tables) {
    forall i | 0 <= i < |t.transactions| ::
      && t.transactions[i].subVariantId in t.subVariants
      && t.transactions[i].productId == t.subVariants[t.transactions[i].subVariantId].productId
      && t.transactions[i].quantity > 0
      && IsMovementType(t.transactions[i].transactionType)
  }

  /** No two logged movements share an id. */
  predicate LogIdsUnique(t: Tables) {
    forall i, j | 0 <= i < j < |t.transactions| :: t.transactions[i].id != t.transactions[j].id
  }

  // ---------- Lemmas about the sums ----------

  /** StockOf does not depend on the order in which rows are picked. */
  lemma {:induction false} StockOfRemove(rows: map<Uuid, SubVariant>, k: Uuid, p: Uuid)
    requires k in rows
    ensures StockOf(rows, p) == Share(rows[k], p) + StockOf(rows - {k}, p)
    decreases |rows|
  {
    var j :| j in rows && StockOf(rows, p) == Share(rows[j], p) + StockOf(rows - {j}, p);
    if j != k {
      assert (rows - {j}).Keys == rows.Keys - {j};
      assert (rows - {k}).Keys == rows.Keys - {k};
      StockOfRemove(rows - {j}, k, p);
      StockOfRemove(rows - {k}, j, p);
      assert rows - {j} - {k} == rows - {k} - {j};
    }
  }

  /** Replacing (or adding) one row changes the sum by the difference of the two shares. */
  lemma StockOfUpdate(rows: map<Uuid, SubVariant>, k: Uuid, v: SubVariant, p: Uuid)
    ensures StockOf(rows[k := v], p)
         == StockOf(rows, p) - (if k in rows then Share(rows[k], p) else 0) + Share(v, p)
  {
    StockOfRemove(rows[k := v], k, p);
    assert rows[k := v] - {k} == rows - {k};
    if k in rows {
      StockOfRemove(rows, k, p);
    } else {
      assert rows - {k} == rows;
    }
  }

  /** A product none of whose sub-variants exist has total 0. */
  lemma {:induction false} StockOfAbsent(rows: map<Uuid, SubVariant>, p: Uuid)
    requires forall k | k in rows :: rows[k].productId != p
    ensures StockOf(rows, p) == 0
    decreases |rows|
  {
    if rows != map[] {
      var k :| k in rows;
      StockOfRemove(rows, k, p);
      assert (rows - {k}).Keys == rows.Keys - {k};
      StockOfAbsent(rows - {k}, p);
    }
  }

  /** Sums of non-negative stock are non-negative. */
  lemma {:induction false} StockOfNonNegative(rows: map<Uuid, SubVariant>, p: Uuid)
    requires StockNonNegative(rows)
    ensures StockOf(rows, p) >= 0
    decreases |rows|
  {
    if rows != map[] {
      var k :| k in rows;
      StockOfRemove(rows, k, p);
      assert (rows - {k}).Keys == rows.Keys - {k};
      StockOfNonNegative(rows - {k}, p);
    }
  }

  /** With non-negative stock, a product's total is at least the stock of each of its sub-variants. */
  lemma StockOfAtLeast(rows: map<Uuid, SubVariant>, k: Uuid, p: Uuid)
    requires k in rows && StockNonNegative(rows)
    ensures StockOf(rows, p) >= Share(rows[k], p)
  {
    StockOfRemove(rows, k, p);
    StockOfNonNegative(rows - {k}, p);
  }

  /** Adding new rows that hold no stock leaves every product's total unchanged. */
  lemma {:induction false} StockOfAddEmpty(rows: map<Uuid, SubVariant>, extra: map<Uuid, SubVariant>, p: Uuid)
    requires rows.Keys !! extra.Keys
    requires forall k | k in extra :: extra[k].stock == 0
    ensures StockOf(rows + extra, p) == StockOf(rows, p)
    decreases |extra|
  {
    if extra == map[] {
      assert rows + extra == rows;
    } else {
      var k :| k in extra;
      var rest := extra - {k};
      RemoveShrinks(extra, k);
      SplitOff(rows, extra, k);
      calc {
        StockOf(rows + extra, p);
        StockOf((rows + rest)[k := extra[k]], p);
        { StockOfUpdate(rows + rest, k, extra[k], p); }
        StockOf(rows + rest, p) + Share(extra[k], p);
        { StockOfAddEmpty(rows, rest, p); }
        StockOf(rows, p);
      }
    }
  }

  /** Removing a present key shrinks a map. */
  lemma RemoveShrinks(m: map<Uuid, SubVariant>, k: Uuid)
    requires k in m
    ensures |m - {k}| < |m|
  {
    assert (m - {k}).Keys == m.Keys - {k};
  }

  /** Adding the rows of extra is adding all but k, then k. */
  lemma SplitOff(rows: map<Uuid, SubVariant>, extra: map<Uuid, SubVariant>, k: Uuid)
    requires rows.Keys !! extra.Keys && k in extra
    ensures k !in rows + (extra - {k})
    ensures rows + extra == (rows + (extra - {k}))[k := extra[k]]
  {
    var smaller := rows + (extra - {k});
    assert k !in smaller;
    var whole := smaller[k := extra[k]];
    assert whole.Keys == (rows + extra).Keys;
    forall j | j in whole ensures whole[j] == (rows + extra)[j] {
    }
  }

  /** A sub-variant that no logged movement refers to has net 0. */
  lemma {:induction false} NetForAbsent(log: seq<StockTransaction>, sv: Uuid)
    requires forall i | 0 <= i < |log| :: log[i].subVariantId != sv
    ensures NetFor(log, sv) == 0
  {
    if log != [] {
      NetForAbsent(log[..|log| - 1], sv);
    }
  }

  /** Appending one transaction adds its signed effect to the net of its sub-variant only. */
  lemma NetForAppend(log: seq<StockTransaction>, tx: StockTransaction, sv: Uuid)
    ensures NetFor(log + [tx], sv) == NetFor(log, sv) + (if tx.subVariantId == sv then Signed(tx) else 0)
  {
    assert (log + [tx])[..|log|] == log;
  }

  // ---------- One stock movement ----------

  /** The two movement kinds: AddStock moves IN, RemoveStock moves OUT. */
  datatype Movement = In | Out

  /** The transaction type recorded for a movement kind. */
  function TypeName(kind: Movement): string {
    match kind
    case In => "IN"
    case Out => "OUT"
  }

  /** The change a movement of magnitude q makes to stock. */
  function Delta(kind: Movement, q: Qty): Qty {
    match kind
    case In => q
    case Out => -q
  }

  /**
   * A movement request after parsing: None stands for a product id,
   * sub-variant id or quantity text that did not parse.
   */
  datatype StockChangeRequest = StockChangeRequest(
    productId: Option<Uuid>,
    subVariantId: Option<Uuid>,
    quantity: Option<Qty>)

  datatype StockError =
    | InvalidProductId      // "invalid product_id"
    | InvalidSubVariantId   // "invalid sub_variant_id"
    | InvalidQuantity       // "invalid quantity"
    | QuantityNotPositive   // "quantity must be positive"
    | SubVariantNotFound    // "sub_variant not found for product"
    | ProductNotFound       // "product not found"
    | InsufficientStock     // "insufficient stock; cannot make stock negative"
    | NumericOverflow       // a save rejected by the numeric(20,8) column

  /** What a movement returns together with the tables it leaves behind. */
  datatype Outcome = Outcome(result: Result<StockTransaction, StockError>, after: Tables)

  predicate Parsed(req: StockChangeRequest) {
    req.productId.Some? && req.subVariantId.Some? && req.quantity.Some?
  }

  /** Sub-variant sv exists and belongs to product p. */
  predicate Owns(t: Tables, p: Uuid, sv: Uuid) {
    sv in t.subVariants && t.subVariants[sv].productId == p
  }

  /** Whether a parsed, positive movement passes every check of changeStock. */
  predicate Accepts(t: Tables, req: StockChangeRequest, kind: Movement)
    requires Parsed(req)
  {
    var p, sv, q := req.productId.value, req.subVariantId.value, req.quantity.value;
    && q > 0
    && Owns(t, p, sv)
    && p in t.products
    && (kind == Out ==> q <= t.subVariants[sv].stock)
    && FitsColumn(t.subVariants[sv].stock + Delta(kind, q))
    && FitsColumn(t.products[p].totalStock + Delta(kind, q))
  }

  /**
   * changeStock as a function of the tables it starts from: the checks in
   * source order, then the update of the sub-variant's stock and the
   * product's total by the same delta and one appended transaction; on any
   * failure the tables are returned untouched.
   */
  function StockChange(t: Tables, req: StockChangeRequest, kind: Movement, txId: Uuid, now: int): (o: Outcome)
    // all-or-nothing
    ensures o.result.Failure? ==> o.after == t
    // the parse failures, in the order they are checked
    ensures req.productId.None? ==> o.result == Failure(InvalidProductId)
    ensures req.productId.Some? && req.subVariantId.None? ==> o.result == Failure(InvalidSubVariantId)
    ensures req.productId.Some? && req.subVariantId.Some? && req.quantity.None? ==> o.result == Failure(InvalidQuantity)
    // then the checks against the quantity and the tables
    ensures Parsed(req) && req.quantity.value <= 0 ==> o.result == Failure(QuantityNotPositive)
    ensures Parsed(req) && req.quantity.value > 0 && !Owns(t, req.productId.value, req.subVariantId.value)
            ==> o.result == Failure(SubVariantNotFound)
    ensures Parsed(req) && req.quantity.value > 0 && Owns(t, req.productId.value, req.subVariantId.value)
            && req.productId.value !in t.products
            ==> o.result == Failure(ProductNotFound)
    ensures Parsed(req) && req.quantity.value > 0 && Owns(t, req.productId.value, req.subVariantId.value)
            && req.productId.value in t.products
            && kind == Out && t.subVariants[req.subVariantId.value].stock < req.quantity.value
            ==> o.result == Failure(InsufficientStock)
    // success exactly when every check passes
    ensures o.result.Success? <==> Parsed(req) && Accepts(t, req, kind)
    ensures o.result.Success? ==>
      var p, sv, q := req.productId.value, req.subVariantId.value, req.quantity.value;
      var row, prod := t.subVariants[sv], t.products[p];
      && o.result.value == StockTransaction(txId, p, sv, q, TypeName(kind), now)
      && o.after.subVariants == t.subVariants[sv := row.(stock := row.stock + Delta(kind, q))]
      && o.after.products == t.products[p := prod.(totalStock := prod.totalStock + Delta(kind, q))]
      && o.after.transactions == t.transactions + [o.result.value]
  {
    if req.productId.None? then Outcome(Failure(InvalidProductId), t)
    else if req.subVariantId.None? then Outcome(Failure(InvalidSubVariantId), t)
    else if req.quantity.None? then Outcome(Failure(InvalidQuantity), t)
    else
      var p, sv, q := req.productId.value, req.subVariantId.value, req.quantity.value;
      if q <= 0 then Outcome(Failure(QuantityNotPositive), t)
      else if !Owns(t, p, sv) then Outcome(Failure(SubVariantNotFound), t)
      else if p !in t.products then Outcome(Failure(ProductNotFound), t)
      else
        var row, prod := t.subVariants[sv], t.products[p];
        if kind == Out && row.stock < q then Outcome(Failure(InsufficientStock), t)
        else
          var d := Delta(kind, q);
          if !FitsColumn(row.stock + d) || !FitsColumn(prod.totalStock + d) then
            Outcome(Failure(NumericOverflow), t)
          else
            var tx := StockTransaction(txId, p, sv, q, TypeName(kind), now);
            Outcome(Success(tx),
                    Tables(t.products[p := prod.(totalStock := prod.totalStock + d)],
                           t.subVariants[sv := row.(stock := row.stock + d)],
                           t.transactions + [tx]))
  }

  /** No logged transaction already carries this id. */
  predicate FreshTransactionId(t: Tables, txId: Uuid) {
    forall i | 0 <= i < |t.transactions| :: t.transactions[i].id != txId
  }

  /**
   * Every movement keeps the tables consistent: stock stays non-negative,
   * each product's total stays the sum of its sub-variants' stock, and the
   * log still accounts for every sub-variant's stock.
   */
  lemma StockChangePreservesConsistency(t: Tables, req: StockChangeRequest, kind: Movement, txId: Uuid, now: int)
    requires Consistent(t)
    requires FreshTransactionId(t, txId)
    ensures Consistent(StockChange(t, req, kind, txId, now).after)
  {
    if StockChange(t, req, kind, txId, now).result.Success? {
      SuccessKeepsTotals(t, req, kind, txId, now);
      SuccessKeepsProductKeys(t, req, kind, txId, now);
      SuccessKeepsStock(t, req, kind, txId, now);
      SuccessKeepsLog(t, req, kind, txId, now);
    }
  }

  /** A successful movement keeps every product's total equal to the sum of its sub-variants' stock. */
  lemma SuccessKeepsTotals(t: Tables, req: StockChangeRequest, kind: Movement, txId: Uuid, now: int)
    requires TotalsAgree(t) && StockAgrees(t)
    requires StockChange(t, req, kind, txId, now).result.Success?
    ensures TotalsAgree(StockChange(t, req, kind, txId, now).after)
  {
    var p, sv, q := req.productId.value, req.subVariantId.value, req.quantity.value;
    var row := t.subVariants[sv];
    var newRow := row.(stock := row.stock + Delta(kind, q));
    var u := StockChange(t, req, kind, txId, now).after;
    forall p' | p' in u.products
      ensures u.products[p'].totalStock == StockOf(u.subVariants, p')
    {
      StockOfUpdate(t.subVariants, sv, newRow, p');
    }
  }

  /** A successful movement changes no product number or code. */
  lemma SuccessKeepsProductKeys(t: Tables, req: StockChangeRequest, kind: Movement, txId: Uuid, now: int)
    requires ProductKeysUnique(t)
    requires StockChange(t, req, kind, txId, now).result.Success?
    ensures ProductKeysUnique(StockChange(t, req, kind, txId, now).after)
  {
    var u := StockChange(t, req, kind, txId, now).after;
    assert u.products.Keys == t.products.Keys;
    forall a | a in u.products
      ensures u.products[a].productNumber == t.products[a].productNumber
      ensures u.products[a].productCode == t.products[a].productCode
    {
    }
  }

  /** A successful movement keeps every sub-variant's stock non-negative and equal to the net of its log. */
  lemma SuccessKeepsStock(t: Tables, req: StockChangeRequest, kind: Movement, txId: Uuid, now: int)
    requires StockAgrees(t)
    requires StockChange(t, req, kind, txId, now).result.Success?
    ensures StockAgrees(StockChange(t, req, kind, txId, now).after)
  {
    var o := StockChange(t, req, kind, txId, now);
    var u := o.after;
    forall k | k in u.subVariants
      ensures u.subVariants[k].stock == NetFor(u.transactions, k)
    {
      NetForAppend(t.transactions, o.result.value, k);
    }
  }

  /** A successful movement appends a well-formed entry with a fresh id. */
  lemma SuccessKeepsLog(t: Tables, req: StockChangeRequest, kind: Movement, txId: Uuid, now: int)
    requires LogWellFormed(t) && LogIdsUnique(t) && FreshTransactionId(t, txId)
    requires StockChange(t, req, kind, txId, now).result.Success?
    ensures LogWellFormed(StockChange(t, req, kind, txId, now).after)
    ensures LogIdsUnique(StockChange(t, req, kind, txId, now).after)
  {
    assert IsMovementType(TypeName(kind));
  }

  // ---------- One new product ----------

  /** Whether some stored product already has this product number or product code. */
  predicate ClashesWithCatalogue(products: map<Uuid, Product>, productNumber: int, productCode: string) {
    exists k | k in products :: products[k].productNumber == productNumber || products[k].productCode == productCode
  }

  /**
   * Adding a product with total 0 under a new id that no stored sub-variant
   * names, together with new sub-variants of that product that hold no stock,
   * keeps the tables consistent as long as the product's number and code are
   * not taken.
   */
  lemma AddProductKeepsConsistency(t: Tables, prod: Product, extra: map<Uuid, SubVariant>)
    requires Consistent(t)
    requires prod.id !in t.products && prod.totalStock == 0
    requires !ClashesWithCatalogue(t.products, prod.productNumber, prod.productCode)
    requires forall k | k in t.subVariants :: t.subVariants[k].productId != prod.id
    requires t.subVariants.Keys !! extra.Keys
    requires forall k | k in extra :: extra[k].id == k && extra[k].productId == prod.id && extra[k].stock == 0
    ensures Consistent(Tables(t.products[prod.id := prod], t.subVariants + extra, t.transactions))
  {
    var u := Tables(t.products[prod.id := prod], t.subVariants + extra, t.transactions);
    AddProductKeepsTotals(t, prod, extra);
    forall k | k in extra
      ensures NetFor(t.transactions, k) == 0
    {
      NetForAbsent(t.transactions, k);
    }
    assert StockAgrees(u);
    assert LogWellFormed(u) by {
      forall i | 0 <= i < |u.transactions|
        ensures u.subVariants[u.transactions[i].subVariantId] == t.subVariants[t.transactions[i].subVariantId]
      {
      }
    }
  }

  /** The totals part of AddProductKeepsConsistency. */
  lemma AddProductKeepsTotals(t: Tables, prod: Product, extra: map<Uuid, SubVariant>)
    requires TotalsAgree(t) && ProductKeysUnique(t)
    requires prod.id !in t.products && prod.totalStock == 0
    requires !ClashesWithCatalogue(t.products, prod.productNumber, prod.productCode)
    requires forall k | k in t.subVariants :: t.subVariants[k].productId != prod.id
    requires t.subVariants.Keys !! extra.Keys
    requires forall k | k in extra :: extra[k].stock == 0
    ensures var u := Tables(t.products[prod.id := prod], t.subVariants + extra, t.transactions);
            TotalsAgree(u) && ProductKeysUnique(u)
  {
    var u := Tables(t.products[prod.id := prod], t.subVariants + extra, t.transactions);
    StockOfAbsent(t.subVariants, prod.id);
    forall p | p in u.products
      ensures StockOf(u.subVariants, p) == StockOf(t.subVariants, p)
    {
      StockOfAddEmpty(t.subVariants, extra, p);
    }
  }

  // ---------- Movements one after another ----------

  /**
   * Applies the same OUT request once per id in ids, each movement starting
   * from the tables the previous one committed (the order the row lock
   * imposes on concurrent requests); returns the final tables and how many
   * movements succeeded.
   */
  ghost function RemoveRepeatedly(t: Tables, req: StockChangeRequest, ids: seq<Uuid>, now: int): (Tables, nat)
    decreases |ids|
  {
    if ids == [] then (t, 0)
    else
      var o := StockChange(t, req, Out, ids[0], now);
      var rest := RemoveRepeatedly(o.after, req, ids[1..], now);
      (rest.0, rest.1 + if o.result.Success? then 1 else 0)
  }

  /** The ids are pairwise distinct and none is in the log yet. */
  ghost predicate FreshIds(t: Tables, ids: seq<Uuid>) {
    && (forall a, b | 0 <= a < b < |ids| :: ids[a] != ids[b])
    && (forall a | 0 <= a < |ids| :: FreshTransactionId(t, ids[a]))
  }

  /**
   * One OUT request of q against a sub-variant holding s of a consistent
   * store: it succeeds exactly when q <= s, leaving s - q; a failure leaves
   * the tables as they were.  Either way the tables stay consistent.
   */
  lemma OutStep(t: Tables, req: StockChangeRequest, txId: Uuid, now: int)
    requires Consistent(t) && FreshTransactionId(t, txId)
    requires Parsed(req) && req.quantity.value > 0
    requires Owns(t, req.productId.value, req.subVariantId.value) && req.productId.value in t.products
    ensures var o := StockChange(t, req, Out, txId, now);
            var sv, p, q := req.subVariantId.value, req.productId.value, req.quantity.value;
            var s := t.subVariants[sv].stock;
            && Consistent(o.after)
            && Owns(o.after, p, sv) && p in o.after.products
            && (s >= q ==> o.result.Success? && o.after.subVariants[sv].stock == s - q)
            && (s < q ==> o.after == t)
            && o.after.transactions[..|t.transactions|] == t.transactions
  {
    var sv, p, q := req.subVariantId.value, req.productId.value, req.quantity.value;
    StockChangePreservesConsistency(t, req, Out, txId, now);
    if t.subVariants[sv].stock >= q {
      StockOfAtLeast(t.subVariants, sv, p);
    }
  }

  /**
   * n OUT requests of q each against a sub-variant holding s: the number m
   * that succeed is min(n, floor(s / q)), that is, m * q <= s and either all
   * n succeed or fewer than q units remain; the stock left is s - m * q,
   * never negative.
   */
  lemma {:induction false} RemoveRepeatedlySucceedsWhileStockLasts(
    t: Tables, req: StockChangeRequest, ids: seq<Uuid>, now: int)
    requires Consistent(t) && FreshIds(t, ids)
    requires Parsed(req) && req.quantity.value > 0
    requires Owns(t, req.productId.value, req.subVariantId.value) && req.productId.value in t.products
    ensures var r := RemoveRepeatedly(t, req, ids, now);
            var s, q := t.subVariants[req.subVariantId.value].stock, req.quantity.value;
            && r.1 <= |ids|
            && r.1 * q <= s
            && (r.1 == |ids| || s - r.1 * q < q)
            && req.subVariantId.value in r.0.subVariants
            && r.0.subVariants[req.subVariantId.value].stock == s - r.1 * q
    decreases |ids|
  {
    var sv, q := req.subVariantId.value, req.quantity.value;
    var s := t.subVariants[sv].stock;
    if ids != [] {
      var o := StockChange(t, req, Out, ids[0], now);
      OutStep(t, req, ids[0], now);
      FreshIdsAfterStep(t, o.after, ids);
      RemoveRepeatedlySucceedsWhileStockLasts(o.after, req, ids[1..], now);
      var m := RemoveRepeatedly(o.after, req, ids[1..], now).1;
      if s >= q {
        assert (m + 1) * q == m * q + q;
      } else {
        assert m * q >= 0 by { assert m >= 0 && q > 0; }
      }
    }
  }

  /** The ids after the first stay fresh once the first has been logged or not used. */
  lemma FreshIdsAfterStep(t: Tables, u: Tables, ids: seq<Uuid>)
    requires FreshIds(t, ids) && ids != []
    requires |u.transactions| >= |t.transactions|
    requires u.transactions[..|t.transactions|] == t.transactions
    requires forall i | |t.transactions| <= i < |u.transactions| :: u.transactions[i].id == ids[0]
    ensures FreshIds(u, ids[1..])
  {
    forall a | 0 <= a < |ids[1..]|
      ensures FreshTransactionId(u, ids[1..][a])
    {
      assert ids[1..][a] == ids[a + 1];
      assert ids[0] != ids[a + 1];
      forall i | 0 <= i < |u.transactions|
        ensures u.transactions[i].id != ids[a + 1]
      {
        if i < |t.transactions| {
          assert u.transactions[i] == t.transactions[i];
        }
      }
    }
  }
}
