# inventory-backend: the stock ledger and product creation, in Dafny

This project models the service layer of a small inventory backend:

- **Products.** A product has named variants ("Color"), each variant has option values ("Red"), and a product has sub-variants (SKUs). Each SKU names one option value per variant and holds the stock on hand.
- **Stock movements.** An IN or OUT movement changes a sub-variant's stock and its product's total stock by the same quantity. It appends one entry to the stock-transaction log, and it applies as one all-or-nothing database transaction.
- **Stock report.** The report is one page of the movements dated within a range, newest first, with the page's IN, OUT and net totals.
- **Stored state.** The database is a `Store` class. It has one map per table for products, variants, options and sub-variants, and a sequence for the transaction log. Its invariant `Valid()` covers the tables a stock movement touches (products, sub-variants and the log). `Valid()` holds when:
  - product and sub-variant rows are stored under their ids;
  - product numbers and codes are unique;
  - stock is non-negative and fits its `numeric(20,8)` column;
  - every product's total is the sum of its sub-variants' stock;
  - every sub-variant's stock is the net of its logged movements;
  - every logged movement is a positive IN or OUT of an existing sub-variant of the logged product;
  - transaction ids are unique.
- **Quantities.** Exact decimals become integers counting units of 10^-8.
- **Parameters.** UUID generation and the clock become parameters: `txId`, `now`, and for product creation the sequence `uuids` of fresh UUIDs in the order the service draws them.

The modules:

- `Models`: the rows and value types (`models/*.go`).
- `Ledger`: the tables a movement touches, as values. It holds the consistency invariant and `StockChange`, the movement as a function of the tables.
- `Database`: the `Store` class.
- `Paging`: page and limit normalisation, the LIMIT/OFFSET window, and Go's 64-bit offset.
- `Report`: the report query (range filter, newest-first order, page) and its totals.
- `StockService`: `AddStock`, `RemoveStock`, `changeStock` and `GetStockReport` as methods on the store.
- `OptionResolution`: `CreateProduct`'s loops over variants, options and sub-variants, and the lookup table from (variant name, value) to option id.
- `ProductService`: `CreateProduct` and `ListProducts` as methods on the store.

`ChangeStock` is proved equal to `Ledger.StockChange`. Consistency, error order and the effect of repeated movements are then proved about `StockChange`. `GetStockReport` is proved to return `Report.ReportPage`, and the ordering and totals are proved about `ReportPage`. `CreateProduct` states every row it adds, id by id, and keeps `Valid()`.

## Model

| member | source | states |
|---|---|---|
| Database.Store.constructor | migrations/auto.go:9-16 | A freshly migrated database has every table empty and satisfies the store invariant |
| Ledger.StockChange | services/stock_service.go:37-119 | The checks in source order, each with its error: the three parse errors, quantity not positive, sub-variant not of this product, product missing, insufficient stock for OUT. It succeeds exactly when every check passes and both new stock values fit the numeric(20,8) column. On success the sub-variant's stock and the product's total move by the same signed quantity and exactly one transaction is appended. Any failure leaves every table unchanged |
| Ledger.StockChangePreservesConsistency | services/stock_service.go:79-108 | Every movement, successful or not, keeps the tables consistent: stock non-negative, each total equal to the sum of its sub-variants' stock, each stock equal to its logged net, the log well-formed with unique ids |
| Ledger.SuccessKeepsTotals | services/stock_service.go:80-89 | Moving the sub-variant and the product by the same delta keeps every product's total equal to the sum of its sub-variants' stock |
| Ledger.SuccessKeepsProductKeys | services/stock_service.go:91-96 | Saving the product changes no product number or code, so they stay unique |
| Ledger.SuccessKeepsStock | services/stock_service.go:80-108 | After a movement every sub-variant's stock is still non-negative, fits its column, and equals the net of the log with the new entry |
| Ledger.SuccessKeepsLog | services/stock_service.go:98-108 | The appended entry names an existing sub-variant of its product, has a positive quantity, type IN or OUT, and a fresh id |
| Ledger.OutStep | services/stock_service.go:84-88 | An OUT of q against stock s succeeds exactly when q <= s and leaves s - q; otherwise the tables are untouched; the log only grows |
| Ledger.RemoveRepeatedlySucceedsWhileStockLasts | services/stock_service.go:84-88 | n OUT requests of q, one after another, succeed m = min(n, floor(s / q)) times and leave s - m*q, never negative |
| Ledger.StockOfUpdate | services/stock_service.go:81-88 | Replacing one sub-variant row changes a product's stock sum by the difference of that row's shares |
| Ledger.StockOfAtLeast | services/stock_service.go:84-88 | With non-negative stock, a product's total is at least each of its sub-variants' stock, so an OUT allowed by the sub-variant never makes the total negative |
| Ledger.StockOfAddEmpty | services/product_service.go:116-122 | Adding sub-variant rows with zero stock leaves every product's stock sum unchanged |
| Ledger.NetForAppend | services/stock_service.go:98-108 | Appending a transaction changes the logged net of its own sub-variant only, by its signed quantity |
| Ledger.AddProductKeepsConsistency | services/product_service.go:57-72 | A new product with total 0 and an unused number and code, added with new zero-stock sub-variants of its own, keeps the tables consistent |
| Ledger.AddProductKeepsTotals | services/product_service.go:67 | The totals part of the previous row: the new product's total 0 is the sum of its zero-stock sub-variants, and every other total is unchanged |
| Paging.Normalize | services/stock_service.go:124-130 | page below 1 becomes 1 and limit <= 0 becomes the default (20 for the report, 10 for the product list, as at services/product_service.go:148-154); the offset (page - 1) * limit is never negative |
| Paging.OffsetNonNegative | services/product_service.go:148-154 | The offset of a normalised page and limit is at least 0 |
| Paging.Window | services/stock_service.go:136-137 | LIMIT l OFFSET o: min(l, rows - o) rows (none past the end), row i being row o + i |
| Paging.PagesTile | services/product_service.go:154 | Pages 1..n of limit l laid end to end are the first n*l rows, with nothing skipped or repeated |
| Paging.WrapInt64 | services/stock_service.go:130 | Go's int64 two's-complement wrap: the result is in range, congruent to the input modulo 2^64, and equal to it when it is in range |
| Paging.OffsetAsWrittenGoesNegative | services/stock_service.go:130 | Page 2^61 + 1 with limit 4 is valid, yet the offset the source computes in int64 is negative |
| Paging.OffsetAsWrittenAgreesWithinRange | services/product_service.go:154 | Where (page - 1) * limit fits in int64, the wrapped offset equals the exact one |
| Report.InRangeRows | services/stock_service.go:134 | `BETWEEN from AND to`: exactly the logged rows dated within [from, to], both ends included, each as many times as the log holds it, and no other row |
| Report.InsertByDateAddsOne | services/stock_service.go:135 | Inserting a row into the ordering adds exactly that row |
| Report.InsertByDateKeepsOrder | services/stock_service.go:135 | Insertion keeps a sequence newest first |
| Report.ByDateDescSorts | services/stock_service.go:135 | `ORDER BY transaction_date DESC`: the result is newest first and a permutation of its input |
| Report.SortedRowMatches | services/stock_service.go:133-135 | Each sorted row is a logged transaction dated within the range |
| Report.WindowNewestFirst | services/stock_service.go:135-137 | A page of a newest-first sequence is newest first |
| Report.ReportPageRows | services/stock_service.go:124-138 | The report page has at most the normalised limit of rows, newest first, each a logged transaction dated within [from, to] |
| Report.FirstPageHoldsAll | services/stock_service.go:133-138 | With a limit at least the number of matching rows, page 1 holds every matching row exactly once |
| Report.NetIsSignedSum | services/stock_service.go:146-158 | total IN minus total OUT is the sum of the rows' signed quantities; rows of any other type count for nothing |
| Report.SumOfTypeConcat | services/stock_service.go:146-152 | Totals of consecutive pieces add up, so the totals of consecutive pages add up to those of the whole range |
| Report.SumOfTypeNonNegative | services/stock_service.go:143-152 | Totals of positive quantities are never negative |
| Report.ExampleTotals | services/stock_service.go:143-158 | IN 10, OUT 3, IN 5 give total IN 15, total OUT 3 and net 12 |
| StockService.ChangeStock | services/stock_service.go:37-119 | The store method returns and commits exactly what `StockChange` prescribes for the request, keeps `Valid()`, and leaves the variant and option tables alone |
| StockService.MoveInTransaction | services/stock_service.go:58-112 | The transaction body: the lookups, the stock update on local copies, the column check, and the write-back of sub-variant, product and log entry only when every step succeeds, as `StockChange` prescribes |
| StockService.AddStock | services/stock_service.go:29-31 | An IN movement: as `StockChange` with kind In, keeping `Valid()` |
| StockService.RemoveStock | services/stock_service.go:33-35 | An OUT movement: as `StockChange` with kind Out, keeping `Valid()` |
| StockService.FoldTotals | services/stock_service.go:143-152 | The loop's totals are the sums of the IN and of the OUT quantities of the page, and the net is their difference and the page's signed sum |
| StockService.GetStockReport | services/stock_service.go:121-162 | The report's rows are `ReportPage` (normalised page and limit, range filter, newest first); its totals are the IN and OUT sums of those rows and net is IN - OUT; on a valid store both totals are non-negative |
| OptionResolution.IdsForStep | services/product_service.go:79-101 | Each variant draws one id for itself and one per option value |
| OptionResolution.IdsForMonotone | services/product_service.go:79-101 | Later variants draw their ids after earlier ones |
| OptionResolution.VariantSlot | services/product_service.go:81 | Variant i's id and its options' ids lie within the UUIDs the variants draw |
| OptionResolution.VariantIds | services/product_service.go:81 | One variant id per requested variant, in request order |
| OptionResolution.OptionIds | services/product_service.go:92 | One option id per listed value of each variant |
| OptionResolution.SlotsOrdered | services/product_service.go:79-101 | An earlier variant's block of ids ends before a later variant's begins |
| OptionResolution.LayoutDistinct | services/product_service.go:79-101 | Drawn from distinct UUIDs, all variant ids are distinct and all option ids are distinct |
| OptionResolution.OptionIdAt | services/product_service.go:90-95 | Option j of variant i gets the UUID drawn at j + 1 past its variant's id |
| OptionResolution.LayoutAvoids | services/product_service.go:79-101 | No variant or option id is one that the fresh UUIDs avoid |
| OptionResolution.LastIndex | services/product_service.go:99-100 | The position of the last listed value equal to v, or -1 when there is none; a repeated value overwrites its table entry |
| OptionResolution.LastDeclaring | services/product_service.go:99-100 | The last variant that declares (name, value), or -1 exactly when none does; a later variant of the same name overwrites the entry |
| OptionResolution.CreateOptions | services/product_service.go:90-101 | The inner loop: one option row per value of the variant, value j under id j, earlier rows kept. The table gains exactly the variant's (name, value) pairs, each mapped to the id of the last row with that value |
| OptionResolution.CreateVariants | services/product_service.go:78-102 | The outer loop: exactly one variant row per request, under its drawn id and of the product, and exactly one option row per listed value. The table's keys are exactly the declared pairs, each mapped to the option written last for it, which is an option with that value of a variant of the product with that name |
| OptionResolution.WriteVariants | services/product_service.go:79-102 | The same as `CreateVariants`, over ids already laid out |
| OptionResolution.AddVariant | services/product_service.go:80-101 | One turn of the outer loop extends the variant rows, option rows and table from the first i variants to the first i + 1 |
| OptionResolution.VariantsStep | services/product_service.go:80-88 | Adding variant i's row under its fresh id extends the variant rows to the first i + 1 variants |
| OptionResolution.NewOptionIds | services/product_service.go:91-97 | Variant i's option ids are distinct and taken by no earlier option |
| OptionResolution.OptionKeysStep | services/product_service.go:90-101 | The option ids of the first i + 1 variants are those of the first i plus variant i's |
| OptionResolution.OptionsStep | services/product_service.go:90-98 | The inner loop's rows extend the option rows to the first i + 1 variants |
| OptionResolution.TableStep | services/product_service.go:99-100 | The inner loop's entries extend the table to the first i + 1 variants |
| OptionResolution.TableNamesOptions | services/product_service.go:99-100 | Once all variants are written, every table entry names an option with the key's value, of a variant of the product with the key's name |
| OptionResolution.ResolvedNamesOption | services/product_service.go:99-100 | The option a declared pair resolves to has that value and belongs to a variant of the product with that name |
| OptionResolution.LastDeclaringStep | services/product_service.go:79-101 | Variant i either declares the pair, and is then the last to, or leaves the last declaring variant as it was |
| OptionResolution.LastIndexStep | services/product_service.go:90-100 | Value j either equals v, and is then its last index, or leaves the last index as it was |
| OptionResolution.OptionRowsStep | services/product_service.go:91-98 | One option row under a fresh id extends the rows to the first j + 1 values |
| OptionResolution.EntriesStep | services/product_service.go:99-100 | One table entry extends the table to the first j + 1 values |
| OptionResolution.FirstUnknown | services/product_service.go:107-112 | The position of the first value the table lacks (all before it present), or the length exactly when all are present |
| OptionResolution.FirstFailing | services/product_service.go:105-112 | The first sub-variant with a value the table lacks (all before it resolvable), or the count when there is none |
| OptionResolution.ResolveOptionIds | services/product_service.go:106-114 | The lookup loop: succeeds exactly when every value is in the table, with one id per value in order, each the table's; otherwise the error is the first missing value |
| OptionResolution.SubVariantsStep | services/product_service.go:116-125 | Adding sub-variant i's row under its fresh id extends the rows to the first i + 1 requests |
| OptionResolution.PrefixIdsStep | services/product_service.go:117 | The set of the first i + 1 ids is the first i plus id i |
| OptionResolution.CreateSubVariants | services/product_service.go:104-126 | Succeeds exactly when every sub-variant's values are all in the table. Otherwise the error is the first missing value of the first failing sub-variant. On success there is exactly one row per request under its id: of the product, with its SKU, stock 0, and one option id per value in order |
| OptionResolution.KeyOfCollides | services/product_service.go:99 | ("a\|b", "c") and ("a", "b\|c") are different pairs with the same string key |
| OptionResolution.WriteEntriesAt | services/product_service.go:99-100 | With no separator in the variant names, the source's string-keyed writes for one variant hit the key of a pair exactly when the pair's name and value are written, and leave the id of the last option with that value |
| OptionResolution.StringTableAgrees | services/product_service.go:79-109 | With no separator in any variant name, the source's string-keyed table holds the key of a pair exactly when the pair is declared, and the key holds the option the pair resolves to |
| OptionResolution.TwoVariantLayout | services/product_service.go:79-101 | In the two-variant example the options take the second and the fourth drawn UUIDs |
| OptionResolution.StringKeyedTableMisresolves | services/product_service.go:99-100 | The source's string-keyed table, built by its loop for variants ("a\|b", ["c"]) and ("a", ["b\|c"]), has one entry, and the key of ("a\|b", "c") holds the option of ("a", "b\|c") |
| OptionResolution.StringKeyedTableAcceptsUndeclared | services/product_service.go:99-111 | With the single variant ("a", ["b\|c"]), the pair ("a\|b", "c") is not declared, yet its string key is in the source's table, so the source accepts it |
| OptionResolution.PairKeyedTableResolvesBoth | services/product_service.go:99-109 | Keyed by pairs, the same two variants resolve to their own, different options |
| OptionResolution.KeyOfInjective | services/product_service.go:99 | With no separator in the variant names, equal string keys mean equal pairs |
| ProductService.StringKeyedCreateAgrees | services/product_service.go:99-113 | With no separator in any variant name of the request, the model accepts exactly the requests whose sub-variant keys the source's string-keyed table holds, and each key there holds the option the model resolves the pair to |
| ProductService.SubVariantIds | services/product_service.go:117 | One id per requested sub-variant, the UUIDs drawn after the variants' |
| ProductService.BuildRows | services/product_service.go:78-126 | Succeeds exactly when every sub-variant value is declared, with the first undeclared value as the error. On success it returns the variant and option rows `CreateVariants` describes and exactly one sub-variant row per request, each as `IsAddedSubVariant` describes |
| ProductService.SubVariantRows | services/product_service.go:104-126 | The rows `CreateSubVariants` builds from the table are those `AddsSubVariants` describes |
| ProductService.AddedSubVariant | services/product_service.go:106-122 | A row built from the table: each option id is the one its declared pair resolves to, and names an option of the product with that variant name and value |
| ProductService.CreateProduct | services/product_service.go:46-143 | Errors in source order: unparsable created user, then a duplicate product number or code, then the first undeclared option value. It succeeds exactly when none applies, and a failure changes nothing. On success the product has total stock 0 under the first UUID, the log is untouched, exactly the requested variant, option and sub-variant rows are added (sub-variants with stock 0 and their option ids resolved in order), and `Valid()` still holds |
| ProductService.Commit | services/product_service.go:56-129 | Writing the product and its fresh rows adds exactly them and keeps `Valid()` |
| ProductService.SubVariantIdsAvoid | services/product_service.go:117 | No sub-variant id is one that the fresh UUIDs avoid |
| ProductService.NewRowsAreFresh | services/product_service.go:58-117 | Fresh UUIDs collide with no stored key, and no stored sub-variant belongs to the new product |
| ProductService.NewSubVariantsOfProduct | services/product_service.go:116-122 | The new sub-variant rows are stored under their ids, belong to the new product and hold no stock |
| ProductService.MergedVariants | services/product_service.go:85 | Inserting fresh variant rows adds exactly them, keeping the old rows |
| ProductService.MergedOptions | services/product_service.go:96 | Inserting fresh option rows adds exactly them, keeping the old rows |
| ProductService.MergedSubVariants | services/product_service.go:123 | Inserting fresh sub-variant rows adds exactly them, and the options they name are still found once the variant and option rows are inserted too |
| ProductService.DistinctSlice | services/product_service.go:117 | A slice of distinct UUIDs is distinct |
| ProductService.InScanOrder | services/product_service.go:163-167 | The table read in scan order: row i is the product under key i of the scan |
| ProductService.EnumerationSize | services/product_service.go:159 | A scan that lists every key once has as many entries as the table has rows, so Count is the number of products |
| ProductService.DistinctSize | services/product_service.go:159 | Distinct ids are as many as the set of them |
| ProductService.ProductPageRows | services/product_service.go:145-173 | A list page starts at offset (page - 1) * limit >= 0 with page and limit normalised (default 10). It holds min(limit, total - offset) rows, each a stored product in scan order, none twice, and the total is the number of products |
| ProductService.PageFromScan | services/product_service.go:163-167 | The LIMIT/OFFSET window of the scan-ordered rows, position by position |
| ProductService.ListProducts | services/product_service.go:145-173 | The method returns the product count and exactly the rows of `ProductPage` for the normalised page and limit |

## Left out

- Parsing of UUIDs and decimal strings (`uuid.Parse`, `decimal.NewFromString`) is a foreign library call. A request field is an `Option` holding the parse result, so the error order is kept.
- `uuid.New` and `time.Now` are parameters (`txId`, `now`, `uuids`). The callers' freshness requirement follows what UUIDs guarantee in practice.
- Row locking and concurrent requests are not modelled. Serialised movements are modelled by `Ledger.RemoveRepeatedly`, a sequence of movements.
- GORM and Postgres plumbing is left out: the process-wide `config.DB` handle (the store is passed explicitly), the `Preload`s, and the reload after creation at services/product_service.go:135-140. The returned product is the created row without its relations.
- Database errors other than the numeric(20,8) overflow and the unique product number and code are left out: lost connections, I/O failures and the like.
- The order in which the database returns rows of equal date, or for a product list with no ORDER BY, is unspecified. The report orders ties in log order. The list takes the scan order as a parameter `scan`.
- `variantMap` in `CreateProduct` is filled but never read, so the model does not build it.
- The controllers are not part of this model: HTTP binding, date parsing, and the `to + 24h` extension of the report range.
- `CreatedDate` and `UpdatedDate`, which the database fills in, are not part of the stored product.
- ProductService.CreateProduct: the option table is keyed by (variant name, value) pairs, the corrected behaviour of the first finding below. When a variant name or an option value contains "|", the model can reject a request the source accepts, or resolve a pair to a different option. `ProductService.StringKeyedCreateAgrees` proves the two agree when no variant name contains "|".
- Ledger.StockChange: a quantity is an integer number of units of 10^-8. A request quantity with more than 8 decimals, which the source parses and accepts, cannot be expressed. The rounding that the numeric(20,8) columns apply to such a quantity on save is not modelled, and neither is the returned transaction then differing from the stored one.
- ProductService.ListProducts: its own ensures only ties the page to `ProductPage`. The page's size, contents and distinct rows are stated in `ProductService.ProductPageRows`.

## Findings

| source | as written | input that shows it | evidently intended | confidence | as-written member | corrected member |
|---|---|---|---|---|---|---|
| services/product_service.go:99-100, 108-109 | the option table is keyed by the string `name + "\|" + value` | variants "a\|b" with option "c" and "a" with option "b\|c": both keys are "a\|b\|c", so a sub-variant asking for ("a\|b", "c") gets the option of ("a", "b\|c"). With the single variant "a" with option "b\|c", a sub-variant asking for the undeclared ("a\|b", "c") is accepted and gets that option | each (variant name, value) pair resolves to its own option | not executed | OptionResolution.StringKeyedTableMisresolves, OptionResolution.StringKeyedTableAcceptsUndeclared | OptionResolution.PairKeyedTableResolvesBoth |
| services/stock_service.go:130, services/product_service.go:154 | `offset := (page - 1) * limit` in Go's 64-bit int | page 2^61 + 1, limit 4: (page - 1) * limit = 2^63 wraps to -2^63 | the offset of a normalised page is never negative | not executed | Paging.OffsetAsWrittenGoesNegative | Paging.OffsetNonNegative |
