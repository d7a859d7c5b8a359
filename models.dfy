/**
 * The persisted rows of the inventory backend (products, variants, variant
 * options, sub-variants and stock transactions) and the value types they use.
 */
module Models {

  datatype Option<T> = None | Some(value: T)

  datatype Result<T, E> = Success(value: T) | Failure(error: E)

  /** A 128-bit UUID.  Rows refer to each other only by comparing these. */
  newtype Uuid = x: int | 0 <= x < 0x1_0000_0000_0000_0000_0000_0000_0000_0000

  /**
   * An exact decimal quantity, counted in units of 10^-8: the scale of the
   * numeric(20,8) columns that hold stock, total stock and transaction
   * quantities.  So 12.5 is 1_250_000_000.
   */
  type Qty = int

  const UnitsPerWhole: Qty := 100_000_000

  /** numeric(20,8) keeps 12 digits before the point: |v| < 10^12 wholes. */
  const ColumnBound: Qty := 100_000_000_000_000_000_000

  /** Whether a value can be stored in a numeric(20,8) column. */
  predicate FitsColumn(v: Qty) {
    -ColumnBound < v < ColumnBound
  }

  /** A sellable item family; totalStock is the denormalised sum of its sub-variants' stock. */
  datatype Product = Product(
    id: Uuid,
    productNumber: int,   // the external numeric product code (ProductID), unique
    productCode: string,  // unique
    productName: string,
    productImage: string,
    createdUser: Uuid,
    isFavourite: bool,
    active: bool,
    hsnCode: string,
    totalStock: Qty)

  /** A named axis of differentiation ("Color") of one product. */
  datatype Variant = Variant(id: Uuid, productId: Uuid, name: string)

  /** One value ("Red") of a variant. */
  datatype VariantOption = VariantOption(id: Uuid, variantId: Uuid, value: string)

  /** A purchasable SKU: one option id per option value it was created with, and its on-hand stock. */
  datatype SubVariant = SubVariant(id: Uuid, productId: Uuid, optionIds: seq<Uuid>, sku: string, stock: Qty)

  /**
   * One stock movement.  The quantity is the positive magnitude; the
   * transaction type ("IN" or "OUT") gives the direction.  The date is a
   * timestamp on the same scale as the report's range bounds.
   */
  datatype StockTransaction = StockTransaction(
    id: Uuid,
    productId: Uuid,
    subVariantId: Uuid,
    quantity: Qty,
    transactionType: string,
    transactionDate: int)

  /** The two transaction types a movement writes. */
  predicate IsMovementType(s: string) {
    s == "IN" || s == "OUT"
  }
}
