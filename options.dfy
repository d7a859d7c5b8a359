/**
 * The variant, option and sub-variant rows CreateProduct builds
 * (services/product_service.go): one variant row per requested variant, one
 * option row per listed value, a table from (variant name, value) to the
 * option's id, and one sub-variant per requested SKU whose option ids are
 * looked up in that table.  Ids come from a sequence of fresh UUIDs in the
 * order the source draws them.
 */
module OptionResolution {
  import opened Models

  datatype VariantRequest = VariantRequest(name: string, options: seq<string>)

  /** A reference to an option by its variant's name and its value. */
  datatype OptionValue = OptionValue(variantName: string, value: string)

  datatype SubVariantRequest = SubVariantRequest(sku: string, optionValues: seq<OptionValue>)

  predicate Distinct(ids: seq<Uuid>) {
    forall a, b | 0 <= a < b < |ids| :: ids[a] != ids[b]
  }

  // ---------- Where each row's id comes from ----------

  /** The fresh UUIDs the variants take: one per variant and one per option value. */
  function IdsFor(reqs: seq<VariantRequest>): nat {
    if reqs == [] then 0 else IdsFor(reqs[..|reqs| - 1]) + 1 + |reqs[|reqs| - 1].options|
  }

  /** One more variant takes its own id and one id per option. */
  lemma IdsForStep(reqs: seq<VariantRequest>, i: int)
    requires 0 <= i < |reqs|
    ensures IdsFor(reqs[..i + 1]) == IdsFor(reqs[..i]) + 1 + |reqs[i].options|
  {
    assert reqs[..i + 1][..i] == reqs[..i];
  }

  /** Longer prefixes take at least as many ids. */
  lemma {:induction false} IdsForMonotone(reqs: seq<VariantRequest>, a: int, b: int)
    requires 0 <= a <= b <= |reqs|
    ensures IdsFor(reqs[..a]) <= IdsFor(reqs[..b])
    decreases b - a
  {
    if a < b {
      IdsForStep(reqs, a);
      IdsForMonotone(reqs, a + 1, b);
    }
  }

  /** The offset of variant i's id among the variants' ids; its options' ids follow it. */
  function VariantSlot(reqs: seq<VariantRequest>, i: int): (n: nat)
    requires 0 <= i < |reqs|
    ensures n + 1 + |reqs[i].options| <= IdsFor(reqs)
  {
    IdsForStep(reqs, i);
    IdsForMonotone(reqs, i + 1, |reqs|);
    assert reqs[..|reqs|] == reqs;
    IdsFor(reqs[..i])
  }

  /** The ids the variants receive, in request order, when their ids start at uuids[start]. */
  function VariantIds(reqs: seq<VariantRequest>, uuids: seq<Uuid>, start: nat): (vids: seq<Uuid>)
    requires start + IdsFor(reqs) <= |uuids|
    ensures |vids| == |reqs|
  {
    seq(|reqs|, i requires 0 <= i < |reqs| => uuids[start + VariantSlot(reqs, i)])
  }

  /** The ids the option values receive: variant i's values take the ids right after variant i's own. */
  function OptionIds(reqs: seq<VariantRequest>, uuids: seq<Uuid>, start: nat): (oids: seq<seq<Uuid>>)
    requires start + IdsFor(reqs) <= |uuids|
    ensures Fits(reqs, oids)
  {
    seq(|reqs|, i requires 0 <= i < |reqs| =>
      var n := start + VariantSlot(reqs, i);
      uuids[n + 1..n + 1 + |reqs[i].options|])
  }

  /** One id per variant and one per option value of each. */
  predicate Fits(reqs: seq<VariantRequest>, oids: seq<seq<Uuid>>) {
    |oids| == |reqs| && forall i | 0 <= i < |reqs| :: |oids[i]| == |reqs[i].options|
  }

  /** Ids for the variants and their values, no two variants and no two values alike. */
  predicate LaidOut(reqs: seq<VariantRequest>, vids: seq<Uuid>, oids: seq<seq<Uuid>>) {
    && |vids| == |reqs| && Fits(reqs, oids)
    && Distinct(vids)
    && forall i, j, i', j' | 0 <= i < |oids| && 0 <= j < |oids[i]| && 0 <= i' < |oids| && 0 <= j' < |oids[i']|
                             && (i != i' || j != j') :: oids[i][j] != oids[i'][j']
  }

  /** Variants before variant i use only ids before variant i's own. */
  lemma SlotsOrdered(reqs: seq<VariantRequest>, a: int, b: int)
    requires 0 <= a < b < |reqs|
    ensures VariantSlot(reqs, a) + 1 + |reqs[a].options| <= VariantSlot(reqs, b)
  {
    IdsForStep(reqs, a);
    IdsForMonotone(reqs, a + 1, b);
  }

  /** Distinct UUIDs, laid out one per variant followed by one per value, give distinct variant and option ids. */
  lemma LayoutDistinct(reqs: seq<VariantRequest>, uuids: seq<Uuid>, start: nat)
    requires start + IdsFor(reqs) <= |uuids| && Distinct(uuids)
    ensures LaidOut(reqs, VariantIds(reqs, uuids, start), OptionIds(reqs, uuids, start))
  {
    var vids, oids := VariantIds(reqs, uuids, start), OptionIds(reqs, uuids, start);
    forall a, b | 0 <= a < b < |vids|
      ensures vids[a] != vids[b]
    {
      SlotsOrdered(reqs, a, b);
    }
    forall i, j, i', j' | 0 <= i < |oids| && 0 <= j < |oids[i]| && 0 <= i' < |oids| && 0 <= j' < |oids[i']|
                          && (i != i' || j != j')
      ensures oids[i][j] != oids[i'][j']
    {
      OptionIdAt(reqs, uuids, start, i, j);
      OptionIdAt(reqs, uuids, start, i', j');
      if i < i' {
        SlotsOrdered(reqs, i, i');
      } else if i' < i {
        SlotsOrdered(reqs, i', i);
      }
    }
  }

  /** Where option j of variant i sits among the UUIDs. */
  lemma OptionIdAt(reqs: seq<VariantRequest>, uuids: seq<Uuid>, start: nat, i: int, j: int)
    requires start + IdsFor(reqs) <= |uuids| && 0 <= i < |reqs| && 0 <= j < |reqs[i].options|
    ensures start + VariantSlot(reqs, i) + 1 + j < start + IdsFor(reqs)
    ensures OptionIds(reqs, uuids, start)[i][j] == uuids[start + VariantSlot(reqs, i) + 1 + j]
  {
    var m := |reqs[i].options|;
    var n := start + VariantSlot(reqs, i);
    assert n + 1 + m <= |uuids|;
    var mine := uuids[n + 1..n + 1 + m];
    var oids := OptionIds(reqs, uuids, start);
    assert oids[i] == mine;
    assert mine[j] == uuids[n + 1 + j];
  }

  /** Every variant and option id is one of the UUIDs, so none is in a set the UUIDs avoid. */
  lemma LayoutAvoids(reqs: seq<VariantRequest>, uuids: seq<Uuid>, start: nat, used: set<Uuid>)
    requires start + IdsFor(reqs) <= |uuids|
    requires forall k | 0 <= k < |uuids| :: uuids[k] !in used
    ensures var vids := VariantIds(reqs, uuids, start); forall i | 0 <= i < |vids| :: vids[i] !in used
    ensures var oids := OptionIds(reqs, uuids, start);
            forall i, j | 0 <= i < |oids| && 0 <= j < |oids[i]| :: oids[i][j] !in used
  {
    var oids := OptionIds(reqs, uuids, start);
    forall i, j | 0 <= i < |oids| && 0 <= j < |oids[i]|
      ensures oids[i][j] !in used
    {
      OptionIdAt(reqs, uuids, start, i, j);
    }
  }

  // ---------- Which option a (name, value) pair resolves to ----------

  /** The table keys the variants declare: every (variant name, listed value) pair. */
  function DeclaredKeys(reqs: seq<VariantRequest>): set<OptionValue> {
    set i, j | 0 <= i < |reqs| && 0 <= j < |reqs[i].options| :: OptionValue(reqs[i].name, reqs[i].options[j])
  }

  predicate Declares(req: VariantRequest, key: OptionValue) {
    req.name == key.variantName && key.value in req.options
  }

  /**
   * The last index of v in values, or -1: writing the table in order, a
   * repeated value ends up with the id of its last option row.
   */
  function LastIndex(values: seq<string>, v: string): (r: int)
    ensures -1 <= r < |values|
    ensures r >= 0 ==> values[r] == v
    ensures forall j | r < j < |values| :: values[j] != v
    ensures r < 0 <==> v !in values
  {
    if values == [] then -1
    else if values[|values| - 1] == v then |values| - 1
    else LastIndex(values[..|values| - 1], v)
  }

  /** The last variant that declares the key, or -1: a later variant of the same name overwrites the entry. */
  function LastDeclaring(reqs: seq<VariantRequest>, key: OptionValue): (r: int)
    ensures -1 <= r < |reqs|
    ensures r >= 0 ==> Declares(reqs[r], key)
    ensures forall i | r < i < |reqs| :: !Declares(reqs[i], key)
    ensures r >= 0 <==> key in DeclaredKeys(reqs)
  {
    if reqs == [] then -1
    else
      var n := |reqs| - 1;
      var prefix := reqs[..n];
      assert forall i | 0 <= i < n :: prefix[i] == reqs[i];
      if Declares(reqs[n], key) then
        var j := LastIndex(reqs[n].options, key.value);
        assert key == OptionValue(reqs[n].name, reqs[n].options[j]);
        n
      else
        var r := LastDeclaring(prefix, key);
        assert key in DeclaredKeys(reqs) ==> key in DeclaredKeys(prefix) by {
          if key in DeclaredKeys(reqs) {
            var i, j :| 0 <= i < |reqs| && 0 <= j < |reqs[i].options| && key == OptionValue(reqs[i].name, reqs[i].options[j]);
            assert i < n by { assert Declares(reqs[i], key); }
            assert key == OptionValue(prefix[i].name, prefix[i].options[j]);
          }
        }
        if r >= 0 then
          var j := LastIndex(prefix[r].options, key.value);
          assert key == OptionValue(reqs[r].name, reqs[r].options[j]);
          r
        else
          r
  }

  /** The option row an entry of the table was last written from: variant LastDeclaring, value LastIndex. */
  function ResolvedOptionId(reqs: seq<VariantRequest>, oids: seq<seq<Uuid>>, key: OptionValue): Uuid
    requires Fits(reqs, oids) && key in DeclaredKeys(reqs)
  {
    var i := LastDeclaring(reqs, key);
    oids[i][LastIndex(reqs[i].options, key.value)]
  }

  /** Option id names an option of this product with the variant name and value asked for. */
  predicate NamesOption(options: map<Uuid, VariantOption>, variants: map<Uuid, Variant>, id: Uuid,
                        ov: OptionValue, productId: Uuid) {
    && id in options && options[id].value == ov.value
    && options[id].variantId in variants
    && variants[options[id].variantId].name == ov.variantName
    && variants[options[id].variantId].productId == productId
  }

  // ---------- The loops ----------

  /**
   * The inner loop for one variant: one option row per value, value j
   * taking ids[j], and the table entry (name, value) set to it (a repeated
   * value overwrites the entry).
   */
  method CreateOptions(variantId: Uuid, name: string, values: seq<string>, ids: seq<Uuid>,
                       rows: map<Uuid, VariantOption>, table: map<OptionValue, Uuid>)
    returns (rows': map<Uuid, VariantOption>, table': map<OptionValue, Uuid>)
    requires |ids| == |values| && Distinct(ids)
    requires forall j | 0 <= j < |ids| :: ids[j] !in rows
    ensures rows'.Keys == rows.Keys + set j | 0 <= j < |ids| :: ids[j]
    ensures forall k | k in rows :: rows'[k] == rows[k]
    ensures forall j | 0 <= j < |ids| :: rows'[ids[j]] == VariantOption(ids[j], variantId, values[j])
    ensures forall key :: key in table' <==> key in table || (key.variantName == name && key.value in values)
    ensures forall key | key in table' ::
              table'[key] == if key.variantName == name && key.value in values
                             then ids[LastIndex(values, key.value)]
                             else table[key]
  {
    rows', table' := rows, table;
    for j := 0 to |values|
      invariant OptionRowsUpTo(rows', rows, variantId, values, ids, j)
      invariant EntriesUpTo(table', table, name, values, ids, j)
    {
      ghost var before := (rows', table');
      rows' := rows'[ids[j] := VariantOption(ids[j], variantId, values[j])];
      table' := table'[OptionValue(name, values[j]) := ids[j]];
      OptionRowsStep(before.0, rows', rows, variantId, values, ids, j);
      EntriesStep(before.1, table', table, name, values, ids, j);
    }
    assert values[..|values|] == values;
  }

  /** The rows after the first j values of one variant: the given rows and one new row per value. */
  ghost predicate OptionRowsUpTo(rows': map<Uuid, VariantOption>, rows: map<Uuid, VariantOption>, variantId: Uuid,
                                 values: seq<string>, ids: seq<Uuid>, j: int)
    requires |ids| == |values| && 0 <= j <= |values|
  {
    && rows'.Keys == rows.Keys + (set j' | 0 <= j' < j :: ids[j'])
    && (forall k | k in rows :: rows'[k] == rows[k])
    && (forall j' | 0 <= j' < j :: rows'[ids[j']] == VariantOption(ids[j'], variantId, values[j']))
  }

  /** The table after the first j values of one variant. */
  ghost predicate EntriesUpTo(table': map<OptionValue, Uuid>, table: map<OptionValue, Uuid>, name: string,
                              values: seq<string>, ids: seq<Uuid>, j: int)
    requires |ids| == |values| && 0 <= j <= |values|
  {
    && (forall key :: key in table' <==> key in table || (key.variantName == name && key.value in values[..j]))
    && (forall key | key in table' ::
          table'[key] == if key.variantName == name && key.value in values[..j]
                         then ids[LastIndex(values[..j], key.value)]
                         else table[key])
  }

  lemma OptionRowsStep(rows0: map<Uuid, VariantOption>, rows1: map<Uuid, VariantOption>, rows: map<Uuid, VariantOption>,
                       variantId: Uuid, values: seq<string>, ids: seq<Uuid>, j: int)
    requires |ids| == |values| && 0 <= j < |values| && Distinct(ids)
    requires forall j' | 0 <= j' < |ids| :: ids[j'] !in rows
    requires OptionRowsUpTo(rows0, rows, variantId, values, ids, j)
    requires rows1 == rows0[ids[j] := VariantOption(ids[j], variantId, values[j])]
    ensures OptionRowsUpTo(rows1, rows, variantId, values, ids, j + 1)
  {
    assert (set j' | 0 <= j' < j + 1 :: ids[j']) == (set j' | 0 <= j' < j :: ids[j']) + {ids[j]};
    forall j' | 0 <= j' < j
      ensures rows1[ids[j']] == VariantOption(ids[j'], variantId, values[j'])
    {
      assert ids[j'] != ids[j];
    }
  }

  lemma EntriesStep(table0: map<OptionValue, Uuid>, table1: map<OptionValue, Uuid>, table: map<OptionValue, Uuid>,
                    name: string, values: seq<string>, ids: seq<Uuid>, j: int)
    requires |ids| == |values| && 0 <= j < |values|
    requires EntriesUpTo(table0, table, name, values, ids, j)
    requires table1 == table0[OptionValue(name, values[j]) := ids[j]]
    ensures EntriesUpTo(table1, table, name, values, ids, j + 1)
  {
    forall v
      ensures v in values[..j + 1] <==> v in values[..j] || v == values[j]
      ensures LastIndex(values[..j + 1], v) == if values[j] == v then j else LastIndex(values[..j], v)
    {
      LastIndexStep(values, j, v);
    }
  }

  lemma LastIndexStep(values: seq<string>, j: int, v: string)
    requires 0 <= j < |values|
    ensures v in values[..j + 1] <==> v in values[..j] || v == values[j]
    ensures LastIndex(values[..j + 1], v) == if values[j] == v then j else LastIndex(values[..j], v)
  {
    assert values[..j + 1][..j] == values[..j];
    assert values[..j + 1] == values[..j] + [values[j]];
  }

  /**
   * The outer loop: variant i becomes a row of the product under the next
   * id, followed by its options under the ids right after it.  Every row is
   * described exactly, and the table holds exactly the declared pairs, each
   * mapped to the option row written last for it, an option with that value
   * of a variant with that name.
   */
  method CreateVariants(productId: Uuid, reqs: seq<VariantRequest>, uuids: seq<Uuid>, start: nat)
    returns (variants: map<Uuid, Variant>, options: map<Uuid, VariantOption>, table: map<OptionValue, Uuid>)
    requires start + IdsFor(reqs) <= |uuids| && Distinct(uuids)
    ensures var vids, oids := VariantIds(reqs, uuids, start), OptionIds(reqs, uuids, start);
            && VariantsUpTo(variants, productId, reqs, vids, |reqs|)
            && OptionsUpTo(options, reqs, vids, oids, |reqs|)
            && table.Keys == DeclaredKeys(reqs)
            && (forall key | key in table :: table[key] == ResolvedOptionId(reqs, oids, key))
            && (forall key | key in table :: NamesOption(options, variants, table[key], key, productId))
  {
    var vids, oids := VariantIds(reqs, uuids, start), OptionIds(reqs, uuids, start);
    LayoutDistinct(reqs, uuids, start);
    variants, options, table := WriteVariants(productId, reqs, vids, oids);
  }

  /** CreateVariants's loop, over laid-out ids. */
  method WriteVariants(productId: Uuid, reqs: seq<VariantRequest>, vids: seq<Uuid>, oids: seq<seq<Uuid>>)
    returns (variants: map<Uuid, Variant>, options: map<Uuid, VariantOption>, table: map<OptionValue, Uuid>)
    requires LaidOut(reqs, vids, oids)
    ensures VariantsUpTo(variants, productId, reqs, vids, |reqs|)
    ensures OptionsUpTo(options, reqs, vids, oids, |reqs|)
    ensures table.Keys == DeclaredKeys(reqs)
    ensures forall key | key in table :: table[key] == ResolvedOptionId(reqs, oids, key)
    ensures forall key | key in table :: NamesOption(options, variants, table[key], key, productId)
  {
    variants, options, table := map[], map[], map[];
    for i := 0 to |reqs|
      invariant VariantsUpTo(variants, productId, reqs, vids, i)
      invariant OptionsUpTo(options, reqs, vids, oids, i)
      invariant TableUpTo(table, reqs, oids, i)
    {
      variants, options, table := AddVariant(productId, reqs, vids, oids, i, variants, options, table);
    }
    assert reqs[..|reqs|] == reqs;
    TableNamesOptions(productId, reqs, vids, oids, variants, options, table);
  }

  /**
   * One turn of the outer loop: the row of variant i under its id, then its
   * options under theirs, each entered in the table.
   */
  method AddVariant(productId: Uuid, reqs: seq<VariantRequest>, vids: seq<Uuid>, oids: seq<seq<Uuid>>, i: int,
                    variants: map<Uuid, Variant>, options: map<Uuid, VariantOption>, table: map<OptionValue, Uuid>)
    returns (variants': map<Uuid, Variant>, options': map<Uuid, VariantOption>, table': map<OptionValue, Uuid>)
    requires LaidOut(reqs, vids, oids) && 0 <= i < |reqs|
    requires VariantsUpTo(variants, productId, reqs, vids, i)
    requires OptionsUpTo(options, reqs, vids, oids, i)
    requires TableUpTo(table, reqs, oids, i)
    ensures VariantsUpTo(variants', productId, reqs, vids, i + 1)
    ensures OptionsUpTo(options', reqs, vids, oids, i + 1)
    ensures TableUpTo(table', reqs, oids, i + 1)
  {
    variants' := variants[vids[i] := Variant(vids[i], productId, reqs[i].name)];
    VariantsStep(variants, variants', productId, reqs, vids, i);
    NewOptionIds(options, reqs, vids, oids, i);
    options', table' := CreateOptions(vids[i], reqs[i].name, reqs[i].options, oids[i], options, table);
    OptionsStep(options, options', reqs, vids, oids, i);
    TableStep(table, table', reqs, oids, i);
  }

  /** The variant rows of the first i variants. */
  ghost predicate VariantsUpTo(variants: map<Uuid, Variant>, productId: Uuid, reqs: seq<VariantRequest>,
                               vids: seq<Uuid>, i: int)
    requires |vids| == |reqs| && 0 <= i <= |reqs|
  {
    && variants.Keys == (set i' | 0 <= i' < i :: vids[i'])
    && forall i' | 0 <= i' < i :: variants[vids[i']] == Variant(vids[i'], productId, reqs[i'].name)
  }

  /** The option rows of the first i variants. */
  ghost predicate OptionsUpTo(options: map<Uuid, VariantOption>, reqs: seq<VariantRequest>,
                              vids: seq<Uuid>, oids: seq<seq<Uuid>>, i: int)
    requires |vids| == |reqs| && Fits(reqs, oids) && 0 <= i <= |reqs|
  {
    && options.Keys == (set i', j | 0 <= i' < i && 0 <= j < |oids[i']| :: oids[i'][j])
    && forall i', j | 0 <= i' < i && 0 <= j < |oids[i']| ::
         options[oids[i'][j]] == VariantOption(oids[i'][j], vids[i'], reqs[i'].options[j])
  }

  /** The table after the first i variants: their declared pairs, each mapped to the option written last for it. */
  ghost predicate TableUpTo(table: map<OptionValue, Uuid>, reqs: seq<VariantRequest>, oids: seq<seq<Uuid>>, i: int)
    requires Fits(reqs, oids) && 0 <= i <= |reqs|
  {
    && table.Keys == DeclaredKeys(reqs[..i])
    && forall key | key in table ::
         var i0 := LastDeclaring(reqs[..i], key);
         table[key] == oids[i0][LastIndex(reqs[i0].options, key.value)]
  }

  lemma VariantsStep(variants: map<Uuid, Variant>, variants': map<Uuid, Variant>, productId: Uuid,
                     reqs: seq<VariantRequest>, vids: seq<Uuid>, i: int)
    requires |vids| == |reqs| && Distinct(vids) && 0 <= i < |reqs|
    requires VariantsUpTo(variants, productId, reqs, vids, i)
    requires variants' == variants[vids[i] := Variant(vids[i], productId, reqs[i].name)]
    ensures VariantsUpTo(variants', productId, reqs, vids, i + 1)
  {
    PrefixIdsStep(vids, i);
    forall i' | 0 <= i' < i
      ensures variants'[vids[i']] == Variant(vids[i'], productId, reqs[i'].name)
    {
      assert vids[i'] != vids[i];
    }
  }

  /** The ids of variant i's options are distinct and taken by none of the earlier options. */
  lemma NewOptionIds(options: map<Uuid, VariantOption>, reqs: seq<VariantRequest>,
                     vids: seq<Uuid>, oids: seq<seq<Uuid>>, i: int)
    requires LaidOut(reqs, vids, oids) && 0 <= i < |reqs|
    requires OptionsUpTo(options, reqs, vids, oids, i)
    ensures Distinct(oids[i])
    ensures forall j | 0 <= j < |oids[i]| :: oids[i][j] !in options
  {
    forall j | 0 <= j < |oids[i]|
      ensures oids[i][j] !in options
    {
      assert forall i', j' | 0 <= i' < i && 0 <= j' < |oids[i']| :: oids[i'][j'] != oids[i][j];
    }
  }

  /** The keys of the first i + 1 variants' options are those of the first i and variant i's. */
  lemma OptionKeysStep(oids: seq<seq<Uuid>>, i: int)
    requires 0 <= i < |oids|
    ensures (set i', j | 0 <= i' < i + 1 && 0 <= j < |oids[i']| :: oids[i'][j])
         == (set i', j | 0 <= i' < i && 0 <= j < |oids[i']| :: oids[i'][j]) + (set j | 0 <= j < |oids[i]| :: oids[i][j])
  {
    var before := set i', j | 0 <= i' < i && 0 <= j < |oids[i']| :: oids[i'][j];
    var mine := set j | 0 <= j < |oids[i]| :: oids[i][j];
    var after := set i', j | 0 <= i' < i + 1 && 0 <= j < |oids[i']| :: oids[i'][j];
    forall x | x in after
      ensures x in before + mine
    {
      var i', j :| 0 <= i' < i + 1 && 0 <= j < |oids[i']| && x == oids[i'][j];
      if i' < i {
        assert x in before;
      } else {
        assert x in mine;
      }
    }
    forall x | x in before + mine
      ensures x in after
    {
      if x in before {
        var i', j :| 0 <= i' < i && 0 <= j < |oids[i']| && x == oids[i'][j];
        assert x == oids[i'][j];
      } else {
        var j :| 0 <= j < |oids[i]| && x == oids[i][j];
        assert x == oids[i][j];
      }
    }
  }

  lemma OptionsStep(options: map<Uuid, VariantOption>, options': map<Uuid, VariantOption>,
                    reqs: seq<VariantRequest>, vids: seq<Uuid>, oids: seq<seq<Uuid>>, i: int)
    requires |vids| == |reqs| && Fits(reqs, oids) && 0 <= i < |reqs|
    requires OptionsUpTo(options, reqs, vids, oids, i)
    requires options'.Keys == options.Keys + set j | 0 <= j < |oids[i]| :: oids[i][j]
    requires forall k | k in options :: options'[k] == options[k]
    requires forall j | 0 <= j < |oids[i]| ::
               options'[oids[i][j]] == VariantOption(oids[i][j], vids[i], reqs[i].options[j])
    ensures OptionsUpTo(options', reqs, vids, oids, i + 1)
  {
    OptionKeysStep(oids, i);
    forall i', j | 0 <= i' < i && 0 <= j < |oids[i']|
      ensures options'[oids[i'][j]] == VariantOption(oids[i'][j], vids[i'], reqs[i'].options[j])
    {
      assert oids[i'][j] in options;
    }
  }

  lemma TableStep(table: map<OptionValue, Uuid>, table': map<OptionValue, Uuid>,
                  reqs: seq<VariantRequest>, oids: seq<seq<Uuid>>, i: int)
    requires Fits(reqs, oids) && 0 <= i < |reqs|
    requires TableUpTo(table, reqs, oids, i)
    requires forall key :: key in table' <==> key in table || Declares(reqs[i], key)
    requires forall key | key in table' ::
               table'[key] == if Declares(reqs[i], key) then oids[i][LastIndex(reqs[i].options, key.value)] else table[key]
    ensures TableUpTo(table', reqs, oids, i + 1)
  {
    forall key
      ensures key in DeclaredKeys(reqs[..i + 1]) <==> key in DeclaredKeys(reqs[..i]) || Declares(reqs[i], key)
      ensures LastDeclaring(reqs[..i + 1], key) == if Declares(reqs[i], key) then i else LastDeclaring(reqs[..i], key)
    {
      LastDeclaringStep(reqs, i, key);
    }
  }

  /** Once all variants are written, each table entry names an option with the key's value, of a variant with its name. */
  lemma TableNamesOptions(productId: Uuid, reqs: seq<VariantRequest>, vids: seq<Uuid>, oids: seq<seq<Uuid>>,
                          variants: map<Uuid, Variant>, options: map<Uuid, VariantOption>, table: map<OptionValue, Uuid>)
    requires |vids| == |reqs| && Fits(reqs, oids)
    requires VariantsUpTo(variants, productId, reqs, vids, |reqs|)
    requires OptionsUpTo(options, reqs, vids, oids, |reqs|)
    requires table.Keys == DeclaredKeys(reqs)
    requires forall key | key in table :: table[key] == ResolvedOptionId(reqs, oids, key)
    ensures forall key | key in table :: NamesOption(options, variants, table[key], key, productId)
  {
    forall key | key in table
      ensures NamesOption(options, variants, table[key], key, productId)
    {
      ResolvedNamesOption(productId, reqs, vids, oids, variants, options, key);
    }
  }

  /** The option a declared key resolves to has the key's value and belongs to a variant of the product with the key's name. */
  lemma ResolvedNamesOption(productId: Uuid, reqs: seq<VariantRequest>, vids: seq<Uuid>, oids: seq<seq<Uuid>>,
                            variants: map<Uuid, Variant>, options: map<Uuid, VariantOption>, key: OptionValue)
    requires |vids| == |reqs| && Fits(reqs, oids) && key in DeclaredKeys(reqs)
    requires VariantsUpTo(variants, productId, reqs, vids, |reqs|)
    requires OptionsUpTo(options, reqs, vids, oids, |reqs|)
    ensures NamesOption(options, variants, ResolvedOptionId(reqs, oids, key), key, productId)
  {
    var i0 := LastDeclaring(reqs, key);
    var j0 := LastIndex(reqs[i0].options, key.value);
    var id := oids[i0][j0];
    assert id in options && options[id] == VariantOption(id, vids[i0], reqs[i0].options[j0]);
    assert vids[i0] in variants && variants[vids[i0]] == Variant(vids[i0], productId, reqs[i0].name);
  }

  /** Variant i either declares the key, and then is the last to, or leaves the last declaring variant as it was. */
  lemma LastDeclaringStep(reqs: seq<VariantRequest>, i: int, key: OptionValue)
    requires 0 <= i < |reqs|
    ensures key in DeclaredKeys(reqs[..i + 1]) <==> key in DeclaredKeys(reqs[..i]) || Declares(reqs[i], key)
    ensures LastDeclaring(reqs[..i + 1], key) == if Declares(reqs[i], key) then i else LastDeclaring(reqs[..i], key)
  {
    assert reqs[..i + 1][..i] == reqs[..i];
    assert reqs[..i + 1][i] == reqs[i];
  }

  // ---------- Resolving a sub-variant's option values ----------

  /** Every value names a key of the table. */
  predicate Resolvable(known: set<OptionValue>, ovs: seq<OptionValue>) {
    forall j | 0 <= j < |ovs| :: ovs[j] in known
  }

  /** The position of the first value that is not a known key, or |ovs| when all are. */
  function FirstUnknown(known: set<OptionValue>, ovs: seq<OptionValue>): (k: nat)
    ensures k <= |ovs|
    ensures forall j | 0 <= j < k :: ovs[j] in known
    ensures k < |ovs| ==> ovs[k] !in known
    ensures k == |ovs| <==> Resolvable(known, ovs)
  {
    if ovs == [] then 0
    else if ovs[0] !in known then 0
    else 1 + FirstUnknown(known, ovs[1..])
  }

  /** The position of the first sub-variant request with an unknown value, or |reqs| when there is none. */
  function FirstFailing(known: set<OptionValue>, reqs: seq<SubVariantRequest>): (i: nat)
    ensures i <= |reqs|
    ensures forall i' | 0 <= i' < i :: Resolvable(known, reqs[i'].optionValues)
    ensures i < |reqs| ==> !Resolvable(known, reqs[i].optionValues)
  {
    if reqs == [] then 0
    else if !Resolvable(known, reqs[0].optionValues) then 0
    else 1 + FirstFailing(known, reqs[1..])
  }

  /**
   * The lookup loop for one sub-variant: the option ids of its values in
   * order, or, at the first value the table does not hold, that value.
   */
  method ResolveOptionIds(table: map<OptionValue, Uuid>, ovs: seq<OptionValue>) returns (r: Result<seq<Uuid>, OptionValue>)
    ensures r.Success? <==> Resolvable(table.Keys, ovs)
    ensures r.Failure? ==> r.error == ovs[FirstUnknown(table.Keys, ovs)]
    ensures r.Success? ==> |r.value| == |ovs| && forall j | 0 <= j < |ovs| :: r.value[j] == table[ovs[j]]
  {
    var ids: seq<Uuid> := [];
    for j := 0 to |ovs|
      invariant |ids| == j
      invariant forall j' | 0 <= j' < j :: ovs[j'] in table && ids[j'] == table[ovs[j']]
    {
      if ovs[j] !in table {
        return Failure(ovs[j]);
      }
      ids := ids + [table[ovs[j]]];
    }
    return Success(ids);
  }

  /** A new sub-variant row: the given id, the product, the SKU, no stock, and the table's id for each value. */
  predicate IsNewSubVariant(row: SubVariant, id: Uuid, productId: Uuid, req: SubVariantRequest, table: map<OptionValue, Uuid>) {
    && row.id == id && row.productId == productId && row.sku == req.sku && row.stock == 0
    && |row.optionIds| == |req.optionValues|
    && forall j | 0 <= j < |req.optionValues| :: req.optionValues[j] in table && row.optionIds[j] == table[req.optionValues[j]]
  }

  /** The rows of the first i sub-variant requests, each under its id. */
  ghost predicate SubVariantsUpTo(rows: map<Uuid, SubVariant>, productId: Uuid, reqs: seq<SubVariantRequest>,
                                  table: map<OptionValue, Uuid>, ids: seq<Uuid>, i: int)
    requires |ids| == |reqs| && 0 <= i <= |reqs|
  {
    && rows.Keys == (set i' | 0 <= i' < i :: ids[i'])
    && forall i' | 0 <= i' < i :: IsNewSubVariant(rows[ids[i']], ids[i'], productId, reqs[i'], table)
  }

  /** Adding the row of request i under its (fresh) id extends the rows to the first i + 1 requests. */
  lemma SubVariantsStep(rows: map<Uuid, SubVariant>, productId: Uuid, reqs: seq<SubVariantRequest>,
                        table: map<OptionValue, Uuid>, ids: seq<Uuid>, i: int, row: SubVariant)
    requires |ids| == |reqs| && Distinct(ids) && 0 <= i < |reqs|
    requires SubVariantsUpTo(rows, productId, reqs, table, ids, i)
    requires IsNewSubVariant(row, ids[i], productId, reqs[i], table)
    ensures SubVariantsUpTo(rows[ids[i] := row], productId, reqs, table, ids, i + 1)
  {
    PrefixIdsStep(ids, i);
    assert forall i' | 0 <= i' < i :: ids[i'] != ids[i];
  }

  /** The set of the first i ids grows by one id per step. */
  lemma PrefixIdsStep(ids: seq<Uuid>, i: int)
    requires 0 <= i < |ids|
    ensures (set i' | 0 <= i' < i + 1 :: ids[i']) == (set i' | 0 <= i' < i :: ids[i']) + {ids[i]}
  {
    var before := set i' | 0 <= i' < i :: ids[i'];
    forall x | x in set i' | 0 <= i' < i + 1 :: ids[i']
      ensures x in before + {ids[i]}
    {
      var i' :| 0 <= i' < i + 1 && x == ids[i'];
      if i' < i {
        assert x in before;
      }
    }
  }

  /**
   * The sub-variant loop: sub-variant i gets ids[i], no stock and the option
   * ids of its values; the first sub-variant with a value the table does
   * not hold stops the loop with that value.
   */
  method CreateSubVariants(productId: Uuid, reqs: seq<SubVariantRequest>, table: map<OptionValue, Uuid>, ids: seq<Uuid>)
    returns (r: Result<map<Uuid, SubVariant>, OptionValue>)
    requires |ids| == |reqs| && Distinct(ids)
    ensures r.Success? <==> FirstFailing(table.Keys, reqs) == |reqs|
    ensures r.Failure? ==>
              var i := FirstFailing(table.Keys, reqs);
              i < |reqs| && r.error == reqs[i].optionValues[FirstUnknown(table.Keys, reqs[i].optionValues)]
    ensures r.Success? ==> r.value.Keys == set i | 0 <= i < |ids| :: ids[i]
    ensures r.Success? ==> forall i | 0 <= i < |ids| :: IsNewSubVariant(r.value[ids[i]], ids[i], productId, reqs[i], table)
  {
    var rows: map<Uuid, SubVariant> := map[];
    for i := 0 to |reqs|
      invariant forall i' | 0 <= i' < i :: Resolvable(table.Keys, reqs[i'].optionValues)
      invariant SubVariantsUpTo(rows, productId, reqs, table, ids, i)
    {
      var optionIds := ResolveOptionIds(table, reqs[i].optionValues);
      if optionIds.Failure? {
        return Failure(optionIds.error);
      }
      var row := SubVariant(ids[i], productId, optionIds.value, reqs[i].sku, 0);
      SubVariantsStep(rows, productId, reqs, table, ids, i, row);
      rows := rows[ids[i] := row];
    }
    return Success(rows);
  }

  // ---------- The table key as the source writes it ----------

  /** The source keys its table by the string name + "|" + value. */
  function KeyOf(variantName: string, value: string): string {
    variantName + "|" + value
  }

  /** Two different (name, value) pairs get the same string key once a name or value contains the separator. */
  lemma KeyOfCollides()
    ensures OptionValue("a|b", "c") != OptionValue("a", "b|c")
    ensures KeyOf("a|b", "c") == KeyOf("a", "b|c")
  {
    assert "a|b" != "a" by { assert |"a|b"| != |"a"|; }
  }

  /** The inner loop's table writes as the source does them, keyed by KeyOf strings. */
  function WriteEntries(t: map<string, Uuid>, name: string, values: seq<string>, ids: seq<Uuid>): map<string, Uuid>
    requires |ids| == |values|
  {
    if values == [] then t
    else
      var n := |values| - 1;
      WriteEntries(t, name, values[..n], ids[..n])[KeyOf(name, values[n]) := ids[n]]
  }

  /** The source's table after all variants: each variant's entries written in request order. */
  function StringTable(reqs: seq<VariantRequest>, oids: seq<seq<Uuid>>): map<string, Uuid>
    requires Fits(reqs, oids)
  {
    if reqs == [] then map[]
    else
      var n := |reqs| - 1;
      assert Fits(reqs[..n], oids[..n]) by {
        forall i | 0 <= i < n ensures |oids[..n][i]| == |reqs[..n][i].options| {
          assert oids[..n][i] == oids[i] && reqs[..n][i] == reqs[i];
        }
      }
      WriteEntries(StringTable(reqs[..n], oids[..n]), reqs[n].name, reqs[n].options, oids[n])
  }

  /** No variant name contains the separator. */
  predicate NoSeparatorInNames(reqs: seq<VariantRequest>) {
    forall i | 0 <= i < |reqs| :: '|' !in reqs[i].name
  }

  /**
   * With no separator in either name, writing one variant's entries into the
   * string table hits the key of a pair exactly when the pair-keyed writes
   * hit the pair, and leaves there the id of the last option with its value.
   */
  lemma {:induction false} WriteEntriesAt(t: map<string, Uuid>, name: string, values: seq<string>, ids: seq<Uuid>,
                                          key: OptionValue)
    requires |ids| == |values| && '|' !in name && '|' !in key.variantName
    ensures var t', k := WriteEntries(t, name, values, ids), KeyOf(key.variantName, key.value);
            && (k in t' <==> k in t || (key.variantName == name && key.value in values))
            && (k in t' ==> t'[k] == if key.variantName == name && key.value in values
                                     then ids[LastIndex(values, key.value)] else t[k])
  {
    if values != [] {
      var n := |values| - 1;
      WriteEntriesAt(t, name, values[..n], ids[..n], key);
      LastIndexStep(values, n, key.value);
      assert values[..n + 1] == values;
      if KeyOf(name, values[n]) == KeyOf(key.variantName, key.value) {
        KeyOfInjective(name, values[n], key.variantName, key.value);
      }
      if key.variantName == name && key.value == values[n] {
        assert KeyOf(name, values[n]) == KeyOf(key.variantName, key.value);
      }
    }
  }

  /**
   * Where no variant name and no requested variant name contains the
   * separator, the source's string-keyed table and the pair-keyed table agree:
   * the key of a pair is present exactly when the pair is declared, and it
   * holds the option the pair resolves to.
   */
  lemma {:induction false} StringTableAgrees(reqs: seq<VariantRequest>, oids: seq<seq<Uuid>>, key: OptionValue)
    requires Fits(reqs, oids) && NoSeparatorInNames(reqs) && '|' !in key.variantName
    ensures KeyOf(key.variantName, key.value) in StringTable(reqs, oids) <==> key in DeclaredKeys(reqs)
    ensures key in DeclaredKeys(reqs) ==> StringTable(reqs, oids)[KeyOf(key.variantName, key.value)] == ResolvedOptionId(reqs, oids, key)
  {
    if reqs != [] {
      var n := |reqs| - 1;
      var prefix, pre := reqs[..n], oids[..n];
      assert Fits(prefix, pre) by {
        forall i | 0 <= i < n ensures |pre[i]| == |prefix[i].options| {
          assert pre[i] == oids[i] && prefix[i] == reqs[i];
        }
      }
      assert NoSeparatorInNames(prefix) by {
        forall i | 0 <= i < n ensures '|' !in prefix[i].name { assert prefix[i] == reqs[i]; }
      }
      StringTableAgrees(prefix, pre, key);
      WriteEntriesAt(StringTable(prefix, pre), reqs[n].name, reqs[n].options, oids[n], key);
      LastDeclaringStep(reqs, n, key);
      assert reqs[..n + 1] == reqs;
      if key in DeclaredKeys(reqs) && !Declares(reqs[n], key) {
        var i := LastDeclaring(prefix, key);
        assert pre[i] == oids[i] && prefix[i] == reqs[i];
      }
    }
  }

  /**
   * The source writes ("a|b", "c") and then ("a", "b|c") to the same entry
   * of its table, so its one entry, the key of the first pair, holds the
   * second pair's option.
   */
  lemma StringKeyedTableMisresolves(uuids: seq<Uuid>, start: nat)
    requires start + 4 <= |uuids| && Distinct(uuids)
    ensures var reqs := [VariantRequest("a|b", ["c"]), VariantRequest("a", ["b|c"])];
            && IdsFor(reqs) == 4
            && StringTable(reqs, OptionIds(reqs, uuids, start)) == map[KeyOf("a|b", "c") := uuids[start + 3]]
            && uuids[start + 3] != uuids[start + 1]
  {
    var reqs := [VariantRequest("a|b", ["c"]), VariantRequest("a", ["b|c"])];
    TwoVariantLayout(uuids, start);
    var oids := OptionIds(reqs, uuids, start);
    KeyOfCollides();
    var k := KeyOf("a|b", "c");
    assert reqs[..1] == [reqs[0]] && reqs[..1][..0] == [] && oids[..1][..0] == [];
    assert ["c"][..0] == [] && ["b|c"][..0] == [] && oids[0][..0] == [] && oids[1][..0] == [];
    var r1, o1 := reqs[..1], oids[..1];
    assert r1[0] == reqs[0] && o1[0] == oids[0] && r1[..0] == [] && o1[..0] == [];
    assert StringTable(r1[..0], o1[..0]) == map[];
    var first := StringTable(r1, o1);
    assert first == WriteEntries(map[], "a|b", ["c"], oids[0]);
    assert WriteEntries(map[], "a|b", ["c"], oids[0]) == WriteEntries(map[], "a|b", [], [])[k := uuids[start + 1]];
    assert first == map[k := uuids[start + 1]];
    assert StringTable(reqs, oids) == WriteEntries(first, "a", ["b|c"], oids[1]);
    assert WriteEntries(first, "a", ["b|c"], oids[1]) == WriteEntries(first, "a", [], [])[KeyOf("a", "b|c") := uuids[start + 3]];
    assert StringTable(reqs, oids) == first[k := uuids[start + 3]];
  }

  /**
   * The source also accepts a pair no variant declares: a sub-variant asking
   * for ("a|b", "c") of a product whose only variant is "a" with option
   * "b|c" finds the string key and gets that option.
   */
  lemma StringKeyedTableAcceptsUndeclared(uuids: seq<Uuid>, start: nat)
    requires start + 2 <= |uuids|
    ensures var reqs := [VariantRequest("a", ["b|c"])];
            && IdsFor(reqs) == 2
            && OptionValue("a|b", "c") !in DeclaredKeys(reqs)
            && KeyOf("a|b", "c") in StringTable(reqs, OptionIds(reqs, uuids, start))
  {
    var reqs := [VariantRequest("a", ["b|c"])];
    assert reqs[..0] == [];
    assert IdsFor(reqs) == 2;
    var oids := OptionIds(reqs, uuids, start);
    assert "a|b" != "a" by { assert |"a|b"| != |"a"|; }
    assert !Declares(reqs[0], OptionValue("a|b", "c"));
    KeyOfCollides();
    assert StringTable(reqs, oids) == WriteEntries(map[], "a", ["b|c"], oids[0]);
    assert ["b|c"][..0] == [] && oids[0][..0] == [];
  }

  /** The ids of the two-variant example: variant "a|b" at start, its option next, then variant "a" and its option. */
  lemma TwoVariantLayout(uuids: seq<Uuid>, start: nat)
    requires start + 4 <= |uuids|
    ensures var reqs := [VariantRequest("a|b", ["c"]), VariantRequest("a", ["b|c"])];
            && IdsFor(reqs) == 4
            && var oids := OptionIds(reqs, uuids, start);
               && oids[0] == [uuids[start + 1]] && oids[1] == [uuids[start + 3]]
  {
    var reqs := [VariantRequest("a|b", ["c"]), VariantRequest("a", ["b|c"])];
    assert reqs[..1] == [reqs[0]] && reqs[..1][..0] == [] && reqs[..0] == [];
    assert IdsFor(reqs[..1]) == 2;
    assert IdsFor(reqs) == 4;
    OptionIdAt(reqs, uuids, start, 0, 0);
    OptionIdAt(reqs, uuids, start, 1, 0);
    assert VariantSlot(reqs, 0) == 0 && VariantSlot(reqs, 1) == 2;
  }

  /** With pair keys, the same two variants resolve to their own options: ids 1 and 3 after the variants' start. */
  lemma PairKeyedTableResolvesBoth(uuids: seq<Uuid>, start: nat)
    requires start + 4 <= |uuids| && Distinct(uuids)
    ensures var reqs := [VariantRequest("a|b", ["c"]), VariantRequest("a", ["b|c"])];
            && IdsFor(reqs) == 4
            && OptionValue("a|b", "c") in DeclaredKeys(reqs) && OptionValue("a", "b|c") in DeclaredKeys(reqs)
            && ResolvedOptionId(reqs, OptionIds(reqs, uuids, start), OptionValue("a|b", "c")) == uuids[start + 1]
            && ResolvedOptionId(reqs, OptionIds(reqs, uuids, start), OptionValue("a", "b|c")) == uuids[start + 3]
            && uuids[start + 1] != uuids[start + 3]
  {
    var reqs := [VariantRequest("a|b", ["c"]), VariantRequest("a", ["b|c"])];
    assert reqs[..1] == [reqs[0]] && reqs[..1][..0] == [] && reqs[..0] == [];
    assert IdsFor(reqs[..1]) == 2;
    assert IdsFor(reqs) == 4;
    var x, y := OptionValue("a|b", "c"), OptionValue("a", "b|c");
    assert "a|b" != "a" by { assert |"a|b"| != |"a"|; }
    assert "c" != "b|c" by { assert |"c"| != |"b|c"|; }
    assert x in DeclaredKeys(reqs) by { assert x == OptionValue(reqs[0].name, reqs[0].options[0]); }
    assert y in DeclaredKeys(reqs) by { assert y == OptionValue(reqs[1].name, reqs[1].options[0]); }
    assert LastDeclaring(reqs, x) == 0 by { assert !Declares(reqs[1], x); }
    assert LastDeclaring(reqs, y) == 1;
    assert LastIndex(reqs[0].options, "c") == 0;
    assert LastIndex(reqs[1].options, "b|c") == 0;
    OptionIdAt(reqs, uuids, start, 0, 0);
    OptionIdAt(reqs, uuids, start, 1, 0);
    assert VariantSlot(reqs, 0) == 0 && VariantSlot(reqs, 1) == 2;
  }

  /** Names without the separator cannot collide: the string key then determines the pair. */
  lemma KeyOfInjective(n1: string, v1: string, n2: string, v2: string)
    requires '|' !in n1 && '|' !in n2
    requires KeyOf(n1, v1) == KeyOf(n2, v2)
    ensures n1 == n2 && v1 == v2
  {
    var k := KeyOf(n1, v1);
    var m := if |n1| < |n2| then |n1| else |n2|;
    assert k[m] == '|' ==> m == |n1| && m == |n2|;
    assert n1 == k[..|n1|] == n2;
    assert v1 == k[|n1| + 1..] == v2;
  }
}
