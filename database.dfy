/**
 * The relational store the services write to: one table per model, held by
 * a Store object that the services receive explicitly (the source reaches it
 * through a process-wide handle).  Each service operation runs as one
 * transaction: its methods change the tables only when they succeed.
 */
module Database {
  import opened Models
  import opened Ledger

  class Store {
    var products: map<Uuid, Product>
    var variants: map<Uuid, Variant>
    var options: map<Uuid, VariantOption>
    var subVariants: map<Uuid, SubVariant>
    var transactions: seq<StockTransaction>

    /** The tables a stock movement touches, as a value. */
    ghost function Snapshot(): Tables
      reads this
    {
      Tables(products, subVariants, transactions)
    }

    /** The store's invariant: the ledger tables are consistent. */
    ghost predicate Valid()
      reads this
    {
      Consistent(Snapshot())
    }

    /** Every id that is a key of some table, that a sub-variant names as its product, or that a transaction carries. */
    ghost function UsedIds(): set<Uuid>
      reads this
    {
      products.Keys + variants.Keys + options.Keys + subVariants.Keys
      + (set k | k in subVariants :: subVariants[k].productId)
      + (set i | 0 <= i < |transactions| :: transactions[i].id)
    }

    /** A freshly migrated database: every table empty. */
    constructor ()
      ensures Valid()
      ensures products == map[] && variants == map[] && options == map[]
      ensures subVariants == map[] && transactions == []
    {
      products, variants, options, subVariants := map[], map[], map[], map[];
      transactions := [];
    }
  }
}
