/**
 * The product service (services/product_service.go): creating a product
 * with its variants, options and sub-variants in one transaction, and
 * listing the products one page at a time.
 */
module ProductService {
  import opened Models
  import opened Ledger
  import opened Database
  import opened OptionResolution
  import Paging

  /** A create request after parsing: createdUser is None when its text is not a UUID. */
  datatype CreateProductRequest = CreateProductRequest(
    productNumber: int,
    productCode: string,
    productName: string,
    productImage: string,
    createdUser: Option<Uuid>,
    isFavourite: bool,
    active: bool,
    hsnCode: string,
    variants: seq<VariantRequest>,
    subVariants: seq<SubVariantRequest>)

  datatype CreateError =
    | InvalidCreatedUser        // "invalid created_user UUID"
    | DuplicateProduct          // the insert violates the unique product number or product code
    | UnknownOption(key: OptionValue)  // "sub_variant references unknown variant/option: " + key

  /** The fresh UUIDs a request draws: the product's, then the variants' and options', then one per sub-variant. */
  function IdsNeeded(req: CreateProductRequest): nat {
    1 + IdsFor(req.variants) + |req.subVariants|
  }

  /** The ids the sub-variants receive, in request order: the last of the drawn UUIDs. */
  function SubVariantIds(req: CreateProductRequest, uuids: seq<Uuid>): (ids: seq<Uuid>)
    requires IdsNeeded(req) <= |uuids|
    ensures |ids| == |req.subVariants|
  {
    uuids[1 + IdsFor(req.variants)..IdsNeeded(req)]
  }

  /** Whether every option value of every requested sub-variant is declared by the requested variants. */
  predicate AllDeclared(req: CreateProductRequest) {
    FirstFailing(DeclaredKeys(req.variants), req.subVariants) == |req.subVariants|
  }

  /** The first option value no variant declares (the one the error reports). */
  function FirstUndeclared(req: CreateProductRequest): OptionValue
    requires !AllDeclared(req)
  {
    var i := FirstFailing(DeclaredKeys(req.variants), req.subVariants);
    var ovs := req.subVariants[i].optionValues;
    ovs[FirstUnknown(DeclaredKeys(req.variants), ovs)]
  }

  /** No variant name of the request, declared or asked for by a sub-variant, contains the separator. */
  predicate NoSeparatorInRequest(req: CreateProductRequest) {
    && NoSeparatorInNames(req.variants)
    && forall i, j | 0 <= i < |req.subVariants| && 0 <= j < |req.subVariants[i].optionValues| ::
         '|' !in req.subVariants[i].optionValues[j].variantName
  }

  /**
   * Without the separator in any variant name, the pair-keyed table agrees
   * with the source's string-keyed one: a request is accepted exactly when
   * every sub-variant's keys are in the source's table, and each key holds
   * the option the pair resolves to.
   */
  lemma StringKeyedCreateAgrees(req: CreateProductRequest, uuids: seq<Uuid>)
    requires IdsNeeded(req) <= |uuids| && NoSeparatorInRequest(req)
    ensures var oids := OptionIds(req.variants, uuids, 1);
            var table := StringTable(req.variants, oids);
            && (AllDeclared(req) <==>
                  forall i, j | 0 <= i < |req.subVariants| && 0 <= j < |req.subVariants[i].optionValues| ::
                    var ov := req.subVariants[i].optionValues[j]; KeyOf(ov.variantName, ov.value) in table)
            && (AllDeclared(req) ==>
                  forall i, j | 0 <= i < |req.subVariants| && 0 <= j < |req.subVariants[i].optionValues| ::
                    var ov := req.subVariants[i].optionValues[j];
                    ov in DeclaredKeys(req.variants)
                    && table[KeyOf(ov.variantName, ov.value)] == ResolvedOptionId(req.variants, oids, ov))
  {
    var oids := OptionIds(req.variants, uuids, 1);
    var known := DeclaredKeys(req.variants);
    forall i, j | 0 <= i < |req.subVariants| && 0 <= j < |req.subVariants[i].optionValues|
      ensures var ov := req.subVariants[i].optionValues[j];
              (KeyOf(ov.variantName, ov.value) in StringTable(req.variants, oids) <==> ov in known)
              && (ov in known ==> StringTable(req.variants, oids)[KeyOf(ov.variantName, ov.value)]
                                  == ResolvedOptionId(req.variants, oids, ov))
    {
      StringTableAgrees(req.variants, oids, req.subVariants[i].optionValues[j]);
    }
    var subs := req.subVariants;
    if !AllDeclared(req) {
      var i := FirstFailing(known, subs);
      var j := FirstUnknown(known, subs[i].optionValues);
      assert subs[i].optionValues[j] !in known;
    }
  }

  /** after is before plus one row per requested variant, of the product, under its id. */
  ghost predicate AddsVariants(before: map<Uuid, Variant>, after: map<Uuid, Variant>,
                               reqs: seq<VariantRequest>, productId: Uuid, vids: seq<Uuid>)
    requires |vids| == |reqs|
  {
    && (forall k | k in before :: k in after && after[k] == before[k])
    && after.Keys == before.Keys + (set i | 0 <= i < |vids| :: vids[i])
    && forall i | 0 <= i < |vids| :: after[vids[i]] == Variant(vids[i], productId, reqs[i].name)
  }

  /** after is before plus one option row per listed value, of its variant, under its id. */
  ghost predicate AddsOptions(before: map<Uuid, VariantOption>, after: map<Uuid, VariantOption>,
                              reqs: seq<VariantRequest>, vids: seq<Uuid>, oids: seq<seq<Uuid>>)
    requires |vids| == |reqs| && Fits(reqs, oids)
  {
    && (forall k | k in before :: k in after && after[k] == before[k])
    && after.Keys == before.Keys + (set i, j | 0 <= i < |oids| && 0 <= j < |oids[i]| :: oids[i][j])
    && forall i, j | 0 <= i < |oids| && 0 <= j < |oids[i]| ::
         after[oids[i][j]] == VariantOption(oids[i][j], vids[i], reqs[i].options[j])
  }

  /** after is before plus one row per requested sub-variant, under its id, as IsAddedSubVariant describes it. */
  ghost predicate AddsSubVariants(before: map<Uuid, SubVariant>, after: map<Uuid, SubVariant>,
                                  req: CreateProductRequest, productId: Uuid, oids: seq<seq<Uuid>>, sids: seq<Uuid>,
                                  options: map<Uuid, VariantOption>, variants: map<Uuid, Variant>)
    requires Fits(req.variants, oids) && |sids| == |req.subVariants|
  {
    && (forall k | k in before :: k in after && after[k] == before[k])
    && after.Keys == before.Keys + (set i | 0 <= i < |sids| :: sids[i])
    && forall i | 0 <= i < |sids| :: IsAddedSubVariant(after[sids[i]], req, productId, oids, sids[i], i, options, variants)
  }

  /**
   * The row of sub-variant i: its id, the product, its SKU, no stock, and
   * for each of its option values, in order, the option the declared pair
   * resolves to, which is an option of this product with that variant name
   * and value.
   */
  ghost predicate IsAddedSubVariant(row: SubVariant, req: CreateProductRequest, productId: Uuid, oids: seq<seq<Uuid>>,
                                    id: Uuid, i: int, options: map<Uuid, VariantOption>, variants: map<Uuid, Variant>)
    requires Fits(req.variants, oids) && 0 <= i < |req.subVariants|
  {
    var ovs := req.subVariants[i].optionValues;
    && row.id == id && row.productId == productId
    && row.sku == req.subVariants[i].sku && row.stock == 0
    && |row.optionIds| == |ovs|
    && forall j | 0 <= j < |ovs| ::
         && ovs[j] in DeclaredKeys(req.variants)
         && row.optionIds[j] == ResolvedOptionId(req.variants, oids, ovs[j])
         && NamesOption(options, variants, row.optionIds[j], ovs[j], productId)
  }

  /** The rows CreateProduct adds besides the product. */
  datatype NewRows = NewRows(
    variants: map<Uuid, Variant>,
    options: map<Uuid, VariantOption>,
    subVariants: map<Uuid, SubVariant>)

  /**
   * The two loops of CreateProduct's transaction: the variants with their
   * options, then the sub-variants; fails with the first option value no
   * variant declares.
   */
  method BuildRows(req: CreateProductRequest, uuids: seq<Uuid>) returns (r: Result<NewRows, OptionValue>)
    requires IdsNeeded(req) <= |uuids| && Distinct(uuids)
    ensures r.Success? <==> AllDeclared(req)
    ensures r.Failure? ==> r.error == FirstUndeclared(req)
    ensures r.Success? ==>
              var vids, oids := VariantIds(req.variants, uuids, 1), OptionIds(req.variants, uuids, 1);
              && VariantsUpTo(r.value.variants, uuids[0], req.variants, vids, |req.variants|)
              && OptionsUpTo(r.value.options, req.variants, vids, oids, |req.variants|)
              && AddsSubVariants(map[], r.value.subVariants, req, uuids[0], oids, SubVariantIds(req, uuids),
                                 r.value.options, r.value.variants)
  {
    var variants, options, table := CreateVariants(uuids[0], req.variants, uuids, 1);
    var sids := SubVariantIds(req, uuids);
    DistinctSlice(uuids, 1 + IdsFor(req.variants), IdsNeeded(req));
    var created := CreateSubVariants(uuids[0], req.subVariants, table, sids);
    if created.Failure? {
      return Failure(created.error);
    }
    SubVariantRows(req, uuids[0], OptionIds(req.variants, uuids, 1), sids, table, variants, options, created.value);
    r := Success(NewRows(variants, options, created.value));
  }

  /** The sub-variants CreateSubVariants builds are those AddsSubVariants describes. */
  lemma SubVariantRows(req: CreateProductRequest, productId: Uuid, oids: seq<seq<Uuid>>, sids: seq<Uuid>,
                       table: map<OptionValue, Uuid>, variants: map<Uuid, Variant>, options: map<Uuid, VariantOption>,
                       created: map<Uuid, SubVariant>)
    requires Fits(req.variants, oids) && |sids| == |req.subVariants|
    requires table.Keys == DeclaredKeys(req.variants)
    requires forall key | key in table :: table[key] == ResolvedOptionId(req.variants, oids, key)
    requires forall key | key in table :: NamesOption(options, variants, table[key], key, productId)
    requires created.Keys == set i | 0 <= i < |sids| :: sids[i]
    requires forall i | 0 <= i < |sids| :: IsNewSubVariant(created[sids[i]], sids[i], productId, req.subVariants[i], table)
    ensures AddsSubVariants(map[], created, req, productId, oids, sids, options, variants)
  {
    forall i | 0 <= i < |sids|
      ensures IsAddedSubVariant(created[sids[i]], req, productId, oids, sids[i], i, options, variants)
    {
      AddedSubVariant(req, productId, oids, table, variants, options, created[sids[i]], sids[i], i);
    }
    var none: map<Uuid, SubVariant> := map[];
    assert none.Keys + created.Keys == created.Keys;
  }

  /** A row CreateSubVariants built for sub-variant i is the row CreateProduct promises. */
  lemma AddedSubVariant(req: CreateProductRequest, productId: Uuid, oids: seq<seq<Uuid>>, table: map<OptionValue, Uuid>,
                        variants: map<Uuid, Variant>, options: map<Uuid, VariantOption>, row: SubVariant, id: Uuid, i: int)
    requires Fits(req.variants, oids) && 0 <= i < |req.subVariants|
    requires table.Keys == DeclaredKeys(req.variants)
    requires forall key | key in table :: table[key] == ResolvedOptionId(req.variants, oids, key)
    requires forall key | key in table :: NamesOption(options, variants, table[key], key, productId)
    requires IsNewSubVariant(row, id, productId, req.subVariants[i], table)
    ensures IsAddedSubVariant(row, req, productId, oids, id, i, options, variants)
  {
  }

  /**
   * CreateProduct.  uuids stands for the UUIDs uuid.New returns, in the
   * order the source asks for them.  The created user must parse and the
   * product number and code must be free; every option value a sub-variant
   * names must be declared by the request's variants.  On success the
   * product (total stock 0) and every variant, option and sub-variant row
   * are added; on any failure nothing is.
   */
  method CreateProduct(db: Store, req: CreateProductRequest, uuids: seq<Uuid>) returns (r: Result<Product, CreateError>)
    requires db.Valid()
    requires IdsNeeded(req) <= |uuids| && Distinct(uuids)
    requires forall i | 0 <= i < |uuids| :: uuids[i] !in db.UsedIds()
    modifies db
    ensures db.Valid()
    // the failures, in the order they are checked
    ensures req.createdUser.None? ==> r == Failure(InvalidCreatedUser)
    ensures req.createdUser.Some? && ClashesWithCatalogue(old(db.products), req.productNumber, req.productCode)
            ==> r == Failure(DuplicateProduct)
    ensures req.createdUser.Some? && !ClashesWithCatalogue(old(db.products), req.productNumber, req.productCode)
            && !AllDeclared(req)
            ==> r == Failure(UnknownOption(FirstUndeclared(req)))
    ensures r.Success? <==>
            req.createdUser.Some? && !ClashesWithCatalogue(old(db.products), req.productNumber, req.productCode)
            && AllDeclared(req)
    // all or nothing
    ensures r.Failure? ==> unchanged(db)
    // what a success adds
    ensures r.Success? ==>
              && r.value == Product(uuids[0], req.productNumber, req.productCode, req.productName, req.productImage,
                                    req.createdUser.value, req.isFavourite, req.active, req.hsnCode, 0)
              && db.products == old(db.products)[uuids[0] := r.value]
              && db.transactions == old(db.transactions)
              && var vids, oids := VariantIds(req.variants, uuids, 1), OptionIds(req.variants, uuids, 1);
                 && AddsVariants(old(db.variants), db.variants, req.variants, uuids[0], vids)
                 && AddsOptions(old(db.options), db.options, req.variants, vids, oids)
                 && AddsSubVariants(old(db.subVariants), db.subVariants, req, uuids[0], oids, SubVariantIds(req, uuids),
                                    db.options, db.variants)
  {
    if req.createdUser.None? {
      return Failure(InvalidCreatedUser);
    }
    var product := Product(uuids[0], req.productNumber, req.productCode, req.productName, req.productImage,
                           req.createdUser.value, req.isFavourite, req.active, req.hsnCode, 0);
    // the unique columns refuse the insert
    if ClashesWithCatalogue(db.products, req.productNumber, req.productCode) {
      return Failure(DuplicateProduct);
    }
    var rows := BuildRows(req, uuids);
    if rows.Failure? {
      return Failure(UnknownOption(rows.error));
    }
    ghost var used := db.UsedIds();
    var vids, oids, sids := VariantIds(req.variants, uuids, 1), OptionIds(req.variants, uuids, 1), SubVariantIds(req, uuids);
    LayoutAvoids(req.variants, uuids, 1, used);
    SubVariantIdsAvoid(req, uuids, used);
    NewRowsAreFresh(used, db.products, db.variants, db.options, db.subVariants, req, uuids[0], vids, oids, sids, rows.value);
    Commit(db, req, product, vids, oids, sids, rows.value);
    r := Success(product);
  }

  /** Writes the product and its rows; the store stays valid because every new key is fresh and the product has no stock. */
  method Commit(db: Store, req: CreateProductRequest, product: Product,
                vids: seq<Uuid>, oids: seq<seq<Uuid>>, sids: seq<Uuid>, rows: NewRows)
    requires db.Valid()
    requires |vids| == |req.variants| && Fits(req.variants, oids) && |sids| == |req.subVariants|
    requires product.id !in db.products && product.totalStock == 0
    requires !ClashesWithCatalogue(db.products, product.productNumber, product.productCode)
    requires forall k | k in db.subVariants :: db.subVariants[k].productId != product.id
    requires db.variants.Keys !! rows.variants.Keys && db.options.Keys !! rows.options.Keys
    requires db.subVariants.Keys !! rows.subVariants.Keys
    requires VariantsUpTo(rows.variants, product.id, req.variants, vids, |req.variants|)
    requires OptionsUpTo(rows.options, req.variants, vids, oids, |req.variants|)
    requires AddsSubVariants(map[], rows.subVariants, req, product.id, oids, sids, rows.options, rows.variants)
    modifies db
    ensures db.Valid()
    ensures db.products == old(db.products)[product.id := product]
    ensures db.transactions == old(db.transactions)
    ensures AddsVariants(old(db.variants), db.variants, req.variants, product.id, vids)
    ensures AddsOptions(old(db.options), db.options, req.variants, vids, oids)
    ensures AddsSubVariants(old(db.subVariants), db.subVariants, req, product.id, oids, sids, db.options, db.variants)
  {
    ghost var before := db.Snapshot();
    NewSubVariantsOfProduct(req, product.id, oids, sids, rows);
    MergedVariants(req.variants, product.id, vids, db.variants, rows.variants);
    MergedOptions(req.variants, vids, oids, db.options, rows.options);
    MergedSubVariants(req, product.id, oids, sids, db.subVariants, rows, db.options, db.variants);
    AddProductKeepsConsistency(before, product, rows.subVariants);
    db.products := db.products[product.id := product];
    db.variants := db.variants + rows.variants;
    db.options := db.options + rows.options;
    db.subVariants := db.subVariants + rows.subVariants;
  }

  /** The sub-variants' ids are among the UUIDs, so none is in a set the UUIDs avoid. */
  lemma SubVariantIdsAvoid(req: CreateProductRequest, uuids: seq<Uuid>, used: set<Uuid>)
    requires IdsNeeded(req) <= |uuids|
    requires forall k | 0 <= k < |uuids| :: uuids[k] !in used
    ensures var sids := SubVariantIds(req, uuids); forall i | 0 <= i < |sids| :: sids[i] !in used
  {
    var sids := SubVariantIds(req, uuids);
    forall i | 0 <= i < |sids|
      ensures sids[i] !in used
    {
      assert sids[i] == uuids[1 + IdsFor(req.variants) + i];
    }
  }

  /**
   * Every key the new rows take is a fresh id, so none is taken already, and
   * no stored sub-variant belongs to the new product.
   */
  lemma NewRowsAreFresh(used: set<Uuid>, products: map<Uuid, Product>, variants: map<Uuid, Variant>,
                        options: map<Uuid, VariantOption>, subVariants: map<Uuid, SubVariant>,
                        req: CreateProductRequest, productId: Uuid,
                        vids: seq<Uuid>, oids: seq<seq<Uuid>>, sids: seq<Uuid>, rows: NewRows)
    requires |vids| == |req.variants| && Fits(req.variants, oids) && |sids| == |req.subVariants|
    requires productId !in used
    requires forall i | 0 <= i < |vids| :: vids[i] !in used
    requires forall i, j | 0 <= i < |oids| && 0 <= j < |oids[i]| :: oids[i][j] !in used
    requires forall i | 0 <= i < |sids| :: sids[i] !in used
    requires products.Keys <= used && variants.Keys <= used && options.Keys <= used && subVariants.Keys <= used
    requires forall k | k in subVariants :: subVariants[k].productId in used
    requires VariantsUpTo(rows.variants, productId, req.variants, vids, |req.variants|)
    requires OptionsUpTo(rows.options, req.variants, vids, oids, |req.variants|)
    requires rows.subVariants.Keys == set i | 0 <= i < |sids| :: sids[i]
    ensures productId !in products
    ensures forall k | k in subVariants :: subVariants[k].productId != productId
    ensures variants.Keys !! rows.variants.Keys && options.Keys !! rows.options.Keys
    ensures subVariants.Keys !! rows.subVariants.Keys
  {
  }

  /** The new sub-variant rows are keyed by their ids, belong to the product and hold no stock. */
  lemma NewSubVariantsOfProduct(req: CreateProductRequest, productId: Uuid, oids: seq<seq<Uuid>>, sids: seq<Uuid>,
                                rows: NewRows)
    requires Fits(req.variants, oids) && |sids| == |req.subVariants|
    requires AddsSubVariants(map[], rows.subVariants, req, productId, oids, sids, rows.options, rows.variants)
    ensures forall k | k in rows.subVariants ::
              rows.subVariants[k].id == k && rows.subVariants[k].productId == productId && rows.subVariants[k].stock == 0
  {
  }

  /** Adding the fresh variant rows to the table adds exactly them. */
  lemma MergedVariants(reqs: seq<VariantRequest>, productId: Uuid, vids: seq<Uuid>,
                       variants: map<Uuid, Variant>, added: map<Uuid, Variant>)
    requires |vids| == |reqs|
    requires variants.Keys !! added.Keys
    requires VariantsUpTo(added, productId, reqs, vids, |reqs|)
    ensures AddsVariants(variants, variants + added, reqs, productId, vids)
  {
  }

  /** Adding the fresh option rows to the table adds exactly them. */
  lemma MergedOptions(reqs: seq<VariantRequest>, vids: seq<Uuid>, oids: seq<seq<Uuid>>,
                      options: map<Uuid, VariantOption>, added: map<Uuid, VariantOption>)
    requires |vids| == |reqs| && Fits(reqs, oids)
    requires options.Keys !! added.Keys
    requires OptionsUpTo(added, reqs, vids, oids, |reqs|)
    ensures AddsOptions(options, options + added, reqs, vids, oids)
  {
  }

  /**
   * Adding the fresh sub-variant rows adds exactly them, and the options they
   * name are still there, for the variants they were, once the variant and
   * option rows are merged the same way.
   */
  lemma MergedSubVariants(req: CreateProductRequest, productId: Uuid, oids: seq<seq<Uuid>>, sids: seq<Uuid>,
                          subVariants: map<Uuid, SubVariant>, rows: NewRows,
                          options: map<Uuid, VariantOption>, variants: map<Uuid, Variant>)
    requires Fits(req.variants, oids) && |sids| == |req.subVariants|
    requires subVariants.Keys !! rows.subVariants.Keys
    requires AddsSubVariants(map[], rows.subVariants, req, productId, oids, sids, rows.options, rows.variants)
    ensures AddsSubVariants(subVariants, subVariants + rows.subVariants, req, productId, oids, sids,
                            options + rows.options, variants + rows.variants)
  {
    var allOptions, allVariants := options + rows.options, variants + rows.variants;
    forall i, j | 0 <= i < |sids| && 0 <= j < |req.subVariants[i].optionValues|
      ensures var id := rows.subVariants[sids[i]].optionIds[j];
              NamesOption(allOptions, allVariants, id, req.subVariants[i].optionValues[j], productId)
    {
      var id := rows.subVariants[sids[i]].optionIds[j];
      assert NamesOption(rows.options, rows.variants, id, req.subVariants[i].optionValues[j], productId);
    }
  }

  /** A slice of distinct ids is distinct. */
  lemma DistinctSlice(uuids: seq<Uuid>, from: int, to: int)
    requires Distinct(uuids) && 0 <= from <= to <= |uuids|
    ensures Distinct(uuids[from..to])
  {
    forall a, b | 0 <= a < b < to - from
      ensures uuids[from..to][a] != uuids[from..to][b]
    {
      assert uuids[from..to][a] == uuids[from + a] && uuids[from..to][b] == uuids[from + b];
    }
  }

  // ---------- Listing ----------

  /** scan lists every key of the table exactly once: an order in which the database may return the rows. */
  predicate IsEnumeration(scan: seq<Uuid>, products: map<Uuid, Product>) {
    && Distinct(scan)
    && (forall i | 0 <= i < |scan| :: scan[i] in products)
    && (forall k | k in products :: k in scan)
  }

  /** The product rows in scan order. */
  function InScanOrder(products: map<Uuid, Product>, scan: seq<Uuid>): (rows: seq<Product>)
    requires forall i | 0 <= i < |scan| :: scan[i] in products
    ensures |rows| == |scan| && forall i | 0 <= i < |scan| :: rows[i] == products[scan[i]]
  {
    if scan == [] then [] else InScanOrder(products, scan[..|scan| - 1]) + [products[scan[|scan| - 1]]]
  }

  /** An enumeration lists as many keys as the table has. */
  lemma EnumerationSize(scan: seq<Uuid>, products: map<Uuid, Product>)
    requires IsEnumeration(scan, products)
    ensures |scan| == |products|
  {
    var keys := set i | 0 <= i < |scan| :: scan[i];
    assert keys == products.Keys;
    DistinctSize(scan);
  }

  /** A sequence of distinct ids has as many elements as the set of its elements. */
  lemma {:induction false} DistinctSize(s: seq<Uuid>)
    requires Distinct(s)
    ensures |set i | 0 <= i < |s| :: s[i]| == |s|
  {
    if s != [] {
      var init := s[..|s| - 1];
      assert Distinct(init);
      DistinctSize(init);
      assert (set i | 0 <= i < |s| :: s[i]) == (set i | 0 <= i < |init| :: init[i]) + {s[|s| - 1]};
    }
  }

  /** The rows of one normalised page (default limit 10) of the table read in scan order. */
  function ProductPage(products: map<Uuid, Product>, scan: seq<Uuid>, page: int, limit: int): seq<Product>
    requires forall i | 0 <= i < |scan| :: scan[i] in products
  {
    var p, l := Paging.NormalPage(page), Paging.NormalLimit(limit, Paging.ProductListDefaultLimit);
    Paging.OffsetNonNegative(p, l);
    Paging.Window(InScanOrder(products, scan), Paging.Offset(p, l), l)
  }

  /**
   * What a page holds: the rows from position offset of the scan on, as many
   * as the limit allows and the table still has, each a stored product, and
   * no product twice when the table is keyed by product id.
   */
  lemma ProductPageRows(products: map<Uuid, Product>, scan: seq<Uuid>, page: int, limit: int)
    requires IsEnumeration(scan, products)
    ensures var rows, total := ProductPage(products, scan, page, limit), |products|;
            var l := Paging.NormalLimit(limit, Paging.ProductListDefaultLimit);
            var offset := Paging.Offset(Paging.NormalPage(page), l);
            && offset >= 0 && total == |scan|
            && |rows| == (if offset >= total then 0 else if total - offset < l then total - offset else l)
            && (forall i | 0 <= i < |rows| :: rows[i] == products[scan[offset + i]])
            && (forall i | 0 <= i < |rows| :: rows[i] in products.Values)
            && ((forall k | k in products :: products[k].id == k) ==>
                  forall a, b | 0 <= a < b < |rows| :: rows[a].id != rows[b].id)
  {
    EnumerationSize(scan, products);
    var p, l := Paging.NormalPage(page), Paging.NormalLimit(limit, Paging.ProductListDefaultLimit);
    Paging.OffsetNonNegative(p, l);
    PageFromScan(products, scan, Paging.Offset(p, l), l);
  }

  /** The window of the scan-ordered rows, position by position. */
  lemma PageFromScan(products: map<Uuid, Product>, scan: seq<Uuid>, offset: int, l: int)
    requires IsEnumeration(scan, products) && offset >= 0 && l >= 0
    ensures var rows := Paging.Window(InScanOrder(products, scan), offset, l);
            && |rows| == (if offset >= |scan| then 0 else if |scan| - offset < l then |scan| - offset else l)
            && (forall i | 0 <= i < |rows| :: rows[i] == products[scan[offset + i]])
            && (forall i | 0 <= i < |rows| :: rows[i] in products.Values)
            && ((forall k | k in products :: products[k].id == k) ==>
                  forall a, b | 0 <= a < b < |rows| :: rows[a].id != rows[b].id)
  {
    var all := InScanOrder(products, scan);
    var rows := Paging.Window(all, offset, l);
    forall i | 0 <= i < |rows|
      ensures rows[i] == products[scan[offset + i]] && rows[i] in products.Values
    {
      assert rows[i] == all[offset + i];
      assert scan[offset + i] in products;
    }
    if forall k | k in products :: products[k].id == k {
      forall a, b | 0 <= a < b < |rows|
        ensures rows[a].id != rows[b].id
      {
        assert rows[a] == products[scan[offset + a]] && rows[b] == products[scan[offset + b]];
      }
    }
  }

  /**
   * ListProducts: the total is the number of products and the rows are the
   * requested page of the table in the order the database returns it (scan).
   */
  method ListProducts(db: Store, page: int, limit: int, scan: seq<Uuid>) returns (rows: seq<Product>, total: int)
    requires IsEnumeration(scan, db.products)
    ensures total == |db.products|
    ensures rows == ProductPage(db.products, scan, page, limit)
  {
    var p, l, offset := Paging.Normalize(page, limit, Paging.ProductListDefaultLimit);
    total := |db.products|;
    rows := Paging.Window(InScanOrder(db.products, scan), offset, l);
  }
}
