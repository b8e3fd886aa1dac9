/** The pipeline end to end: the five configured dimensions and the date
    dimension derived from the source, the surrogate-key maps read back from
    the saved dimension tables, and the fact table joined from them. */
module StarSchema {
  import opened Values
  import opened Tables
  import opened Dimension
  import opened DateDimension
  import opened Facts

  // ---------------------------------------------------------------------
  // Configuration

  /** One dimension of the run: its natural key, its recency column, its
      attribute map (in dict order), its table, and the surrogate-key and
      natural-key columns its reload selects. */
  datatype DimensionSpec = DimensionSpec(
    idCol: Name, orderCol: Name, attrs: AttributeMap, table: Name, skCol: Name, keyCol: Name)

  const CustomerSpec: DimensionSpec := DimensionSpec(
    "sale_customer_id", "sale_date",
    [("sale_customer_id", "customer_id"), ("customer_first_name", "first_name"),
     ("customer_last_name", "last_name"), ("customer_age", "age"), ("customer_email", "email"),
     ("customer_country", "country"), ("customer_postal_code", "postal_code")],
    "dim_customer", "customer_sk", "customer_id")

  const SellerSpec: DimensionSpec := DimensionSpec(
    "sale_seller_id", "sale_date",
    [("sale_seller_id", "seller_id"), ("seller_first_name", "first_name"),
     ("seller_last_name", "last_name"), ("seller_email", "email"), ("seller_country", "country"),
     ("seller_postal_code", "postal_code")],
    "dim_seller", "seller_sk", "seller_id")

  const ProductSpec: DimensionSpec := DimensionSpec(
    "sale_product_id", "sale_date",
    [("sale_product_id", "product_id"), ("product_name", "name"), ("product_category", "category"),
     ("product_weight", "weight"), ("product_color", "color"), ("product_size", "size"),
     ("product_brand", "brand"), ("product_material", "material"), ("product_description", "description"),
     ("product_rating", "rating"), ("product_reviews", "reviews"), ("product_release_date", "release_date"),
     ("product_expiry_date", "expiry_date"), ("product_price", "unit_price")],
    "dim_product", "product_sk", "product_id")

  const StoreSpec: DimensionSpec := DimensionSpec(
    "store_name", "sale_date",
    [("store_name", "name"), ("store_location", "location"), ("store_city", "city"),
     ("store_state", "state"), ("store_country", "country"), ("store_phone", "phone"),
     ("store_email", "email")],
    "dim_store", "store_sk", "name")

  const SupplierSpec: DimensionSpec := DimensionSpec(
    "supplier_name", "sale_date",
    [("supplier_name", "name"), ("supplier_contact", "contact"), ("supplier_email", "email"),
     ("supplier_phone", "phone"), ("supplier_address", "address"), ("supplier_city", "city"),
     ("supplier_country", "country")],
    "dim_supplier", "supplier_sk", "name")

  /** The dimensions in the order the run processes them, which is also the
      order of the fact step's joins after the date join. */
  const Specs: seq<DimensionSpec> := [CustomerSpec, SellerSpec, ProductSpec, StoreSpec, SupplierSpec]

  /** A dimension whose saved key column is the one its reload reads: the
      attribute map is a chain-free dict that renames the natural key to the
      reload's key column, and the key survives the drop. */
  predicate Consistent(sp: DimensionSpec) {
    && IsDict(sp.attrs) && ChainFree(sp.attrs)
    && sp.idCol != sp.orderCol && sp.idCol != "rn"
    && RenameName(sp.attrs, sp.idCol) == sp.keyCol
  }

  /** The checks a spec passes on names alone: its first pair maps the
      natural key to the reload's key column, no later source column is as
      long as that key column, and no target is as long as a later source
      column. */
  lemma ConsistentByLength(sp: DimensionSpec)
    requires IsDict(sp.attrs) && sp.idCol != sp.orderCol && sp.idCol != "rn"
    requires |sp.attrs| > 0 && sp.attrs[0] == (sp.idCol, sp.keyCol)
    requires forall j :: 0 < j < |sp.attrs| ==> |sp.attrs[j].0| != |sp.keyCol|
    requires forall i, j :: 0 <= i < j < |sp.attrs| ==> |sp.attrs[i].1| != |sp.attrs[j].0|
    ensures Consistent(sp)
  {
    ChainFreeByLength(sp.attrs);
    var rest := MapKeys(sp.attrs[1..]);
    assert forall j :: 0 <= j < |rest| ==> |rest[j]| != |sp.keyCol| by {
      forall j | 0 <= j < |rest| ensures |rest[j]| != |sp.keyCol| {
        assert rest[j] == sp.attrs[j + 1].0;
      }
    }
    RenameFirst(sp.attrs);
  }

  lemma CustomerConsistent()
    ensures Consistent(CustomerSpec)
  {
    ConsistentByLength(CustomerSpec);
  }

  lemma SellerConsistent()
    ensures Consistent(SellerSpec)
  {
    ConsistentByLength(SellerSpec);
  }

  lemma ProductConsistent()
    ensures Consistent(ProductSpec)
  {
    ProductIsDict();
    ProductLengths();
    ConsistentByLength(ProductSpec);
  }

  lemma ProductIsDict()
    ensures IsDict(ProductSpec.attrs)
  {
  }

  lemma ProductLengths()
    ensures forall i, j :: 0 <= i < j < |ProductSpec.attrs| ==> |ProductSpec.attrs[i].1| != |ProductSpec.attrs[j].0|
  {
  }

  lemma StoreConsistent()
    ensures Consistent(StoreSpec)
  {
    ConsistentByLength(StoreSpec);
  }

  lemma SupplierConsistent()
    ensures Consistent(SupplierSpec)
  {
    ConsistentByLength(SupplierSpec);
  }

  /** Each configured dimension is keyed by the source column the fact
      step joins it on, and ranked by the sale date. */
  lemma SpecsFollowJoins()
    ensures |Specs| == 5
    ensures forall k :: 0 <= k < |Specs| ==> Specs[k].idCol == SaleColumns[k + 1] && Specs[k].orderCol == SaleDate
  {
  }

  lemma AllConsistent()
    ensures forall k :: 0 <= k < |Specs| ==> Consistent(Specs[k])
  {
    SpecConsistent0();
    SpecConsistent1();
    SpecConsistent2();
    SpecConsistent3();
    SpecConsistent4();
    EachConsistent(Specs);
  }

  lemma SpecConsistent0()
    ensures Consistent(Specs[0])
  {
    CustomerConsistent();
  }

  lemma SpecConsistent1()
    ensures Consistent(Specs[1])
  {
    SellerConsistent();
  }

  lemma SpecConsistent2()
    ensures Consistent(Specs[2])
  {
    ProductConsistent();
  }

  lemma SpecConsistent3()
    ensures Consistent(Specs[3])
  {
    StoreConsistent();
  }

  lemma SpecConsistent4()
    ensures Consistent(Specs[4])
  {
    SupplierConsistent();
  }

  lemma EachConsistent(specs: seq<DimensionSpec>)
    requires |specs| == 5
    requires Consistent(specs[0]) && Consistent(specs[1]) && Consistent(specs[2])
    requires Consistent(specs[3]) && Consistent(specs[4])
    ensures forall k :: 0 <= k < |specs| ==> Consistent(specs[k])
  {
  }

  function Extract(src: Table, sp: DimensionSpec): Result<Table>
    requires WellFormed(src)
  {
    ExtractDimension(src, sp.idCol, sp.orderCol, sp.attrs)
  }

  predicate Resolves(src: Table, sp: DimensionSpec) {
    Resolved(src, sp.idCol, sp.orderCol, sp.attrs)
  }

  predicate AllResolve(src: Table, specs: seq<DimensionSpec>) {
    forall k :: 0 <= k < |specs| ==> Resolves(src, specs[k])
  }

  /** The position of the first spec at or after `from` that names a
      column the source lacks, or |specs| when there is none. */
  function FirstUnresolved(src: Table, specs: seq<DimensionSpec>, from: nat): (k: nat)
    requires from <= |specs|
    ensures from <= k <= |specs|
    ensures forall j :: from <= j < k ==> Resolves(src, specs[j])
    ensures k < |specs| ==> !Resolves(src, specs[k])
    decreases |specs| - from
  {
    if from == |specs| || !Resolves(src, specs[from]) then from else FirstUnresolved(src, specs, from + 1)
  }

  /** The dimension steps in order, stopping at the first that names a
      column the source lacks; on success, the k-th table is the k-th
      dimension. */
  function ExtractAll(src: Table, specs: seq<DimensionSpec>): (r: Result<seq<Table>>)
    requires WellFormed(src)
    ensures r.Ok? <==> AllResolve(src, specs)
    ensures r.Err? ==> r.error.MissingColumn? && r.error.column !in src.schema
    ensures r.Err? ==> r.error == Extract(src, specs[FirstUnresolved(src, specs, 0)]).error
    ensures r.Ok? ==> |r.value| == |specs| && forall k :: 0 <= k < |specs| ==> Extract(src, specs[k]) == Ok(r.value[k])
  {
    var k := FirstUnresolved(src, specs, 0);
    if k < |specs| then Err(Extract(src, specs[k]).error)
    else Ok(seq(|specs|, j requires 0 <= j < |specs| => Extract(src, specs[j]).value))
  }

  // ---------------------------------------------------------------------
  // Reloading the saved dimensions

  /** The tables as read back after saving, the sink having added a
      surrogate-key column to each row: the dimensions in the order of the
      run's specs, and dim_date. */
  datatype Reloaded = Reloaded(dims: seq<Table>, date: Table)

  const DateSk: Name := "date_sk"

  predicate ReloadedWellFormed(rel: Reloaded) {
    (forall k :: 0 <= k < |rel.dims| ==> WellFormed(rel.dims[k])) && WellFormed(rel.date)
  }

  predicate HasKeyColumns(t: Table, sp: DimensionSpec) {
    sp.skCol in t.schema && sp.keyCol in t.schema
  }

  predicate ReloadsHaveKeys(rel: Reloaded, specs: seq<DimensionSpec>) {
    && |rel.dims| == |specs|
    && (forall k :: 0 <= k < |specs| ==> HasKeyColumns(rel.dims[k], specs[k]))
    && DateSk in rel.date.schema && SaleDate in rel.date.schema
  }

  /** m pairs the surrogate-key and natural-key columns of t row by row. */
  predicate ReadsFrom(m: seq<KeyEntry>, t: Table, skCol: Name, keyCol: Name)
    requires WellFormed(t) && skCol in t.schema && keyCol in t.schema
  {
    NaturalKeys(m) == Column(t, keyCol) && MapSurrogates(m) == Column(t, skCol)
  }

  /** The position of the first table at or after `from` lacking either
      key column of its spec, or |specs| when there is none. */
  function FirstWithoutKeys(ts: seq<Table>, specs: seq<DimensionSpec>, from: nat): (k: nat)
    requires |ts| == |specs| && from <= |specs|
    ensures from <= k <= |specs|
    ensures forall j :: from <= j < k ==> HasKeyColumns(ts[j], specs[j])
    ensures k < |specs| ==> !HasKeyColumns(ts[k], specs[k])
    decreases |specs| - from
  {
    if from == |specs| || !HasKeyColumns(ts[from], specs[from]) then from
    else FirstWithoutKeys(ts, specs, from + 1)
  }

  /** The `select(sk, key)` reloads of the dimensions, in order; fails on the
      first table lacking either column. */
  function LoadDimensionMaps(ts: seq<Table>, specs: seq<DimensionSpec>): (r: Result<seq<seq<KeyEntry>>>)
    requires |ts| == |specs| && forall k :: 0 <= k < |ts| ==> WellFormed(ts[k])
    ensures r.Ok? <==> forall k :: 0 <= k < |specs| ==> HasKeyColumns(ts[k], specs[k])
    ensures r.Err? ==> r.error.MissingColumn?
    ensures r.Ok? ==> |r.value| == |specs|
    ensures r.Ok? ==> forall k :: 0 <= k < |specs| ==> ReadsFrom(r.value[k], ts[k], specs[k].skCol, specs[k].keyCol)
  {
    var k := FirstWithoutKeys(ts, specs, 0);
    if k < |specs| then Err(KeyMap(ts[k], specs[k].skCol, specs[k].keyCol).error)
    else Ok(seq(|specs|, j requires 0 <= j < |specs| => KeyMap(ts[j], specs[j].skCol, specs[j].keyCol).value))
  }

  /** The six reloads of a run: its five dimensions in order, then dim_date
      by date_sk and sale_date. */
  function LoadKeyMaps(rel: Reloaded, specs: seq<DimensionSpec>): (r: Result<KeyMaps>)
    requires ReloadedWellFormed(rel) && |rel.dims| == |specs| == 5
    ensures r.Ok? <==> ReloadsHaveKeys(rel, specs)
    ensures r.Err? ==> r.error.MissingColumn?
    ensures r.Ok? ==> ReadsFrom(r.value.date, rel.date, DateSk, SaleDate)
    ensures r.Ok? ==> forall k :: 0 <= k < 5 ==>
              ReadsFrom(MapList(r.value)[k + 1], rel.dims[k], specs[k].skCol, specs[k].keyCol)
  {
    var ms :- LoadDimensionMaps(rel.dims, specs);
    var date :- KeyMap(rel.date, DateSk, SaleDate);
    var maps := KeyMaps(date, ms[0], ms[1], ms[2], ms[3], ms[4]);
    MapListTail(maps, ms);
    Ok(maps)
  }

  lemma MapListTail(maps: KeyMaps, ms: seq<seq<KeyEntry>>)
    requires |ms| == 5 && maps == KeyMaps(maps.date, ms[0], ms[1], ms[2], ms[3], ms[4])
    ensures forall k :: 0 <= k < 5 ==> MapList(maps)[k + 1] == ms[k]
  {
  }

  // ---------------------------------------------------------------------
  // The run

  /** Everything a run writes: the dimensions in the order of its specs,
      the date rows and the fact rows. */
  datatype Warehouse = Warehouse(dims: seq<Table>, dates: seq<DateRow>, facts: seq<FactRow>)

  /** sale_date holds only dates and nulls. */
  predicate DatesTyped(src: Table)
    requires WellFormed(src)
  {
    SaleDate in src.schema && forall i :: 0 <= i < |src.rows| ==> DateOrNull(Cell(src, i, SaleDate))
  }

  /** What a run needs of its arguments before it starts. */
  predicate Runnable(src: Table, rel: Reloaded, specs: seq<DimensionSpec>) {
    WellFormed(src) && ReloadedWellFormed(rel) && |rel.dims| == |specs| == 5
  }

  /** `run_etl` for a configuration of five dimensions, without I/O: the
      dimensions, the date dimension, the reloaded key maps and the fact
      table, stopping at the first step that fails. What the stages produce
      is what the warehouse holds. */
  function Run(src: Table, rel: Reloaded, specs: seq<DimensionSpec>): (r: Result<Warehouse>)
    requires Runnable(src, rel, specs)
    ensures r.Ok? <==> AllResolve(src, specs) && DatesTyped(src) && ReloadsHaveKeys(rel, specs) && HasSaleColumns(src)
    ensures r.Err? ==> r.error.MissingColumn? || r.error == NotADate(SaleDate)
    ensures r.Ok? ==>
              && ExtractAll(src, specs) == Ok(r.value.dims)
              && GenerateDateDimension(src) == Ok(r.value.dates)
              && AssembleFacts(src, LoadKeyMaps(rel, specs).value) == Ok(r.value.facts)
  {
    var dims :- ExtractAll(src, specs);
    var dates :- GenerateDateDimension(src);
    var maps :- LoadKeyMaps(rel, specs);
    var facts :- AssembleFacts(src, maps);
    Ok(Warehouse(dims, dates, facts))
  }

  /** The configured run. */
  function RunEtl(src: Table, rel: Reloaded): (r: Result<Warehouse>)
    requires Runnable(src, rel, Specs)
    ensures r.Ok? <==> AllResolve(src, Specs) && DatesTyped(src) && ReloadsHaveKeys(rel, Specs) && HasSaleColumns(src)
    ensures r.Err? ==> r.error.MissingColumn? || r.error == NotADate(SaleDate)
  {
    Run(src, rel, Specs)
  }

  // ---------------------------------------------------------------------
  // Referential integrity

  /** A fact row's surrogate keys are ones its maps hold, join by join, and
      its measures are those of the sale it came from. */
  lemma FactReferencesMaps(s: Sale, maps: KeyMaps, f: FactRow)
    requires f in FactsFor(s, maps)
    ensures f.dateSk in MapSurrogates(maps.date) && f.customerSk in MapSurrogates(maps.customer)
    ensures f.sellerSk in MapSurrogates(maps.seller) && f.productSk in MapSurrogates(maps.product)
    ensures f.storeSk in MapSurrogates(maps.store) && f.supplierSk in MapSurrogates(maps.supplier)
    ensures f.quantity == s.quantity && f.totalPrice == s.totalPrice && f.unitPrice == s.unitPrice
  {
    FactsForExact(s, maps, f);
    MatchedSurrogate(maps.date, s.date, f.dateSk);
    MatchedSurrogate(maps.customer, s.customer, f.customerSk);
    MatchedSurrogate(maps.seller, s.seller, f.sellerSk);
    MatchedSurrogate(maps.product, s.product, f.productSk);
    MatchedSurrogate(maps.store, s.store, f.storeSk);
    MatchedSurrogate(maps.supplier, s.supplier, f.supplierSk);
  }

  /** The measures of every fact row are those of some source row. */
  ghost predicate MeasuresFromSource(facts: seq<FactRow>, src: Table)
    requires WellFormed(src) && HasSaleColumns(src)
  {
    forall f :: f in facts ==>
      exists i :: 0 <= i < |src.rows| && f.quantity == SaleAt(src, i).quantity
        && f.totalPrice == SaleAt(src, i).totalPrice && f.unitPrice == SaleAt(src, i).unitPrice
  }

  /** The surrogate keys of every fact row are ones the maps hold, map by map. */
  predicate ReferencesMaps(facts: seq<FactRow>, maps: KeyMaps) {
    forall f :: f in facts ==>
      && f.dateSk in MapSurrogates(maps.date) && f.customerSk in MapSurrogates(maps.customer)
      && f.sellerSk in MapSurrogates(maps.seller) && f.productSk in MapSurrogates(maps.product)
      && f.storeSk in MapSurrogates(maps.store) && f.supplierSk in MapSurrogates(maps.supplier)
  }

  /** The fact rows assembled against some maps carry surrogate keys those
      maps hold and the measures of some source row. */
  lemma AssembledFactsReference(src: Table, maps: KeyMaps, facts: seq<FactRow>)
    requires WellFormed(src) && AssembleFacts(src, maps) == Ok(facts)
    ensures HasSaleColumns(src)
    ensures ReferencesMaps(facts, maps)
    ensures MeasuresFromSource(facts, src)
  {
    AssembledKeys(src, maps, facts);
    AssembledMeasures(src, maps, facts);
  }

  lemma AssembledKeys(src: Table, maps: KeyMaps, facts: seq<FactRow>)
    requires WellFormed(src) && AssembleFacts(src, maps) == Ok(facts)
    ensures ReferencesMaps(facts, maps)
  {
    forall f | f in facts
      ensures && f.dateSk in MapSurrogates(maps.date) && f.customerSk in MapSurrogates(maps.customer)
              && f.sellerSk in MapSurrogates(maps.seller) && f.productSk in MapSurrogates(maps.product)
              && f.storeSk in MapSurrogates(maps.store) && f.supplierSk in MapSurrogates(maps.supplier)
    {
      var i :| 0 <= i < |src.rows| && f in FactsFor(SaleAt(src, i), maps);
      FactReferencesMaps(SaleAt(src, i), maps, f);
    }
  }

  lemma AssembledMeasures(src: Table, maps: KeyMaps, facts: seq<FactRow>)
    requires WellFormed(src) && AssembleFacts(src, maps) == Ok(facts)
    ensures HasSaleColumns(src)
    ensures MeasuresFromSource(facts, src)
  {
    forall f | f in facts
      ensures exists i :: 0 <= i < |src.rows| && f.quantity == SaleAt(src, i).quantity
                && f.totalPrice == SaleAt(src, i).totalPrice && f.unitPrice == SaleAt(src, i).unitPrice
    {
      var i :| 0 <= i < |src.rows| && f in FactsFor(SaleAt(src, i), maps);
      FactReferencesMaps(SaleAt(src, i), maps, f);
    }
  }

  /** The surrogate-key column of the k-th join's reloaded table: dim_date's
      for the first join, the dimensions' in order after it. */
  function SkColumn(rel: Reloaded, specs: seq<DimensionSpec>, k: nat): (vs: seq<Value>)
    requires ReloadedWellFormed(rel) && ReloadsHaveKeys(rel, specs) && |specs| == 5 && k < 6
    ensures k == 0 ==> vs == Column(rel.date, DateSk)
    ensures k > 0 ==> vs == Column(rel.dims[k - 1], specs[k - 1].skCol)
  {
    if k == 0 then Column(rel.date, DateSk) else Column(rel.dims[k - 1], specs[k - 1].skCol)
  }

  /** Every surrogate key of the fact rows is held by the reloaded table of its join. */
  predicate ReferencesReloads(facts: seq<FactRow>, rel: Reloaded, specs: seq<DimensionSpec>)
    requires ReloadedWellFormed(rel) && ReloadsHaveKeys(rel, specs) && |specs| == 5
  {
    forall f :: f in facts ==>
      && f.dateSk in SkColumn(rel, specs, 0) && f.customerSk in SkColumn(rel, specs, 1)
      && f.sellerSk in SkColumn(rel, specs, 2) && f.productSk in SkColumn(rel, specs, 3)
      && f.storeSk in SkColumn(rel, specs, 4) && f.supplierSk in SkColumn(rel, specs, 5)
  }

  /** Maps read from the reloads hold the reloads' surrogate keys. */
  lemma LoadedSurrogates(rel: Reloaded, specs: seq<DimensionSpec>, maps: KeyMaps)
    requires ReloadedWellFormed(rel) && |rel.dims| == |specs| == 5 && LoadKeyMaps(rel, specs) == Ok(maps)
    ensures ReloadsHaveKeys(rel, specs)
    ensures MapSurrogates(maps.date) == SkColumn(rel, specs, 0)
    ensures MapSurrogates(maps.customer) == SkColumn(rel, specs, 1)
    ensures MapSurrogates(maps.seller) == SkColumn(rel, specs, 2)
    ensures MapSurrogates(maps.product) == SkColumn(rel, specs, 3)
    ensures MapSurrogates(maps.store) == SkColumn(rel, specs, 4)
    ensures MapSurrogates(maps.supplier) == SkColumn(rel, specs, 5)
  {
    assert MapList(maps)[1] == maps.customer && MapList(maps)[2] == maps.seller && MapList(maps)[3] == maps.product;
    assert MapList(maps)[4] == maps.store && MapList(maps)[5] == maps.supplier;
  }

  /** Referential integrity of a run: every surrogate key in the fact table
      is one the corresponding reloaded table holds, and every fact row
      carries the measures of some source row. */
  lemma RunReferencesReloads(src: Table, rel: Reloaded, specs: seq<DimensionSpec>)
    requires Runnable(src, rel, specs)
    requires AllResolve(src, specs) && DatesTyped(src) && ReloadsHaveKeys(rel, specs) && HasSaleColumns(src)
    ensures Run(src, rel, specs).Ok?
    ensures ReferencesReloads(Run(src, rel, specs).value.facts, rel, specs)
    ensures MeasuresFromSource(Run(src, rel, specs).value.facts, src)
  {
    var maps := LoadKeyMaps(rel, specs).value;
    AssembledFactsReference(src, maps, Run(src, rel, specs).value.facts);
    LoadedSurrogates(rel, specs, maps);
  }

  /** The same for the configured run. */
  lemma FactsReferenceDimensions(src: Table, rel: Reloaded)
    requires Runnable(src, rel, Specs)
    requires AllResolve(src, Specs) && DatesTyped(src) && ReloadsHaveKeys(rel, Specs) && HasSaleColumns(src)
    ensures RunEtl(src, rel).Ok?
    ensures ReferencesReloads(RunEtl(src, rel).value.facts, rel, Specs)
    ensures MeasuresFromSource(RunEtl(src, rel).value.facts, src)
  {
    RunReferencesReloads(src, rel, Specs);
  }

  // ---------------------------------------------------------------------
  // Completeness against fresh reloads

  /** The position of the natural key among a dimension's saved columns. */
  function KeyPosition(sp: DimensionSpec): nat {
    var kept := KeptColumns(sp.idCol, sp.orderCol, sp.attrs);
    if sp.idCol in kept then IndexOf(kept, sp.idCol) else 0
  }

  /** The reloaded table holds, under the key column, exactly the key
      values of the saved dimension, each once: what reading back a table
      that was empty before this run yields. */
  ghost predicate FreshDimension(t: Table, sp: DimensionSpec, dim: Table)
    requires WellFormed(t) && sp.keyCol in t.schema
  {
    NoDuplicates(Column(t, sp.keyCol)) && Elems(Column(t, sp.keyCol)) == Elems(ColumnAt(dim, KeyPosition(sp)))
  }

  /** All six reloads of a run are fresh. */
  ghost predicate FreshReload(rel: Reloaded, specs: seq<DimensionSpec>, w: Warehouse)
    requires ReloadedWellFormed(rel) && ReloadsHaveKeys(rel, specs)
  {
    && |w.dims| == |specs|
    && (forall k :: 0 <= k < |specs| ==> FreshDimension(rel.dims[k], specs[k], w.dims[k]))
    && NoDuplicates(Column(rel.date, SaleDate))
    && Elems(Column(rel.date, SaleDate)) == Elems(Column(DateTable(w.dates), SaleDate))
  }

  /** A consistent spec's saved dimension holds, at the key position,
      exactly the values of the source's id column. */
  lemma ExtractedKeyColumn(src: Table, sp: DimensionSpec, dim: Table)
    requires WellFormed(src) && Consistent(sp) && Extract(src, sp) == Ok(dim)
    ensures sp.idCol in src.schema
    ensures Elems(ColumnAt(dim, KeyPosition(sp))) == Elems(Column(src, sp.idCol))
  {
    DimensionKeyColumn(src, sp.idCol, sp.orderCol, sp.attrs);
  }

  /** The saved dimensions of a join-shaped run hold, at their key
      positions, exactly the values of the sale columns they are keyed by. */
  lemma ExtractedKeys(src: Table, specs: seq<DimensionSpec>, dims: seq<Table>)
    requires WellFormed(src) && JoinShaped(specs) && ExtractAll(src, specs) == Ok(dims)
    ensures |dims| == 5
    ensures forall k :: 1 <= k < 6 ==> SaleColumns[k] in src.schema
    ensures forall k :: 1 <= k < 6 ==> Elems(ColumnAt(dims[k - 1], KeyPosition(specs[k - 1]))) == Elems(Column(src, SaleColumns[k]))
  {
    forall k | 1 <= k < 6
      ensures SaleColumns[k] in src.schema
      ensures Elems(ColumnAt(dims[k - 1], KeyPosition(specs[k - 1]))) == Elems(Column(src, SaleColumns[k]))
    {
      ExtractedKeyColumn(src, specs[k - 1], dims[k - 1]);
    }
  }

  /** A map read from a reloaded table whose key column holds, each once,
      the values of source column c holds every value of c and no natural
      key twice. */
  lemma FreshKeyMap(src: Table, c: Name, t: Table, skCol: Name, keyCol: Name, m: seq<KeyEntry>)
    requires WellFormed(src) && c in src.schema && WellFormed(t) && skCol in t.schema && keyCol in t.schema
    requires NoDuplicates(Column(t, keyCol)) && Elems(Column(t, keyCol)) == Elems(Column(src, c))
    requires ReadsFrom(m, t, skCol, keyCol)
    ensures NoDuplicates(NaturalKeys(m))
    ensures forall i :: 0 <= i < |src.rows| ==> Cell(src, i, c) in NaturalKeys(m)
  {
    var keys := Column(src, c);
    forall i | 0 <= i < |src.rows| ensures Cell(src, i, c) in NaturalKeys(m) {
      assert keys[i] in Elems(keys);
    }
  }

  /** The same for the five dimension maps of a fresh reload. */
  lemma FreshDimensionMaps(src: Table, specs: seq<DimensionSpec>, dims: seq<Table>, rel: Reloaded, maps: KeyMaps)
    requires WellFormed(src) && ReloadedWellFormed(rel) && ReloadsHaveKeys(rel, specs) && |specs| == |dims| == 5
    requires forall k :: 1 <= k < 6 ==> SaleColumns[k] in src.schema
    requires forall k :: 1 <= k < 6 ==> Elems(ColumnAt(dims[k - 1], KeyPosition(specs[k - 1]))) == Elems(Column(src, SaleColumns[k]))
    requires forall k :: 0 <= k < 5 ==> FreshDimension(rel.dims[k], specs[k], dims[k])
    requires forall k :: 0 <= k < 5 ==> ReadsFrom(MapList(maps)[k + 1], rel.dims[k], specs[k].skCol, specs[k].keyCol)
    ensures forall k :: 1 <= k < 6 ==> NoDuplicates(NaturalKeys(MapList(maps)[k]))
    ensures forall k, i :: 1 <= k < 6 && 0 <= i < |src.rows| ==> Cell(src, i, SaleColumns[k]) in NaturalKeys(MapList(maps)[k])
  {
    forall k | 1 <= k < 6
      ensures NoDuplicates(NaturalKeys(MapList(maps)[k]))
      ensures forall i :: 0 <= i < |src.rows| ==> Cell(src, i, SaleColumns[k]) in NaturalKeys(MapList(maps)[k])
    {
      var t, sp := rel.dims[k - 1], specs[k - 1];
      assert HasKeyColumns(t, sp);
      assert FreshDimension(t, sp, dims[k - 1]);
      assert ReadsFrom(MapList(maps)[k], t, sp.skCol, sp.keyCol);
      FreshKeyMap(src, SaleColumns[k], t, sp.skCol, sp.keyCol, MapList(maps)[k]);
    }
  }

  /** A fresh reload of the date dimension holds every non-null sale date once. */
  lemma FreshDateKeys(src: Table, dates: seq<DateRow>, t: Table, m: seq<KeyEntry>)
    requires WellFormed(src) && WellFormed(t) && DateSk in t.schema && SaleDate in t.schema
    requires GenerateDateDimension(src) == Ok(dates)
    requires NoDuplicates(Column(t, SaleDate))
    requires Elems(Column(t, SaleDate)) == Elems(Column(DateTable(dates), SaleDate))
    requires ReadsFrom(m, t, DateSk, SaleDate)
    ensures NoDuplicates(NaturalKeys(m))
    ensures forall i :: 0 <= i < |src.rows| && !Cell(src, i, SaleDate).Null? ==> Cell(src, i, SaleDate) in NaturalKeys(m)
  {
    forall i | 0 <= i < |src.rows| && !Cell(src, i, SaleDate).Null?
      ensures Cell(src, i, SaleDate) in NaturalKeys(m)
    {
      var v := Cell(src, i, SaleDate);
      assert v in Column(src, SaleDate);
      var d := v.d;
      var p :| 0 <= p < |dates| && DatesOf(dates)[p] == d;
      assert Column(DateTable(dates), SaleDate)[p] == v;
      assert v in Elems(Column(DateTable(dates), SaleDate));
    }
  }

  /** The source rows whose six join keys are all non-null. */
  function CompleteRows(src: Table): set<nat>
    requires WellFormed(src) && HasSaleColumns(src)
  {
    set i: nat | i < |src.rows| && forall k :: 0 <= k < 6 ==> !JoinKeys(SaleAt(src, i))[k].Null?
  }

  /** Every non-null join key of the source is held by its map. */
  predicate Covered(src: Table, maps: KeyMaps)
    requires WellFormed(src) && HasSaleColumns(src)
  {
    forall i, k :: 0 <= i < |src.rows| && 0 <= k < 6 && !JoinKeys(SaleAt(src, i))[k].Null? ==>
      JoinKeys(SaleAt(src, i))[k] in NaturalKeys(MapList(maps)[k])
  }

  /** When every non-null key is held, a row joins every map exactly when
      none of its keys is null. */
  lemma CoveredMatchedRows(src: Table, maps: KeyMaps)
    requires WellFormed(src) && HasSaleColumns(src) && Covered(src, maps)
    ensures MatchedRows(src, maps) == CompleteRows(src)
  {
  }

  lemma CoveredByColumns(src: Table, maps: KeyMaps)
    requires WellFormed(src) && HasSaleColumns(src)
    requires forall k, i :: 0 <= k < 6 && 0 <= i < |src.rows| && !Cell(src, i, SaleColumns[k]).Null? ==>
               Cell(src, i, SaleColumns[k]) in NaturalKeys(MapList(maps)[k])
    ensures Covered(src, maps)
  {
    forall i | 0 <= i < |src.rows| ensures forall k :: 0 <= k < 6 ==> JoinKeys(SaleAt(src, i))[k] == Cell(src, i, SaleColumns[k]) {
      JoinKeyCells(src, i);
    }
  }

  /** What the completeness argument needs of a configuration: five
      consistent dimensions keyed by the fact step's join columns in order. */
  predicate JoinShaped(specs: seq<DimensionSpec>) {
    |specs| == 5 && forall k :: 0 <= k < 5 ==> Consistent(specs[k]) && specs[k].idCol == SaleColumns[k + 1]
  }

  /** The configuration of the run is join-shaped. */
  lemma SpecsJoinShaped()
    ensures JoinShaped(Specs)
  {
    AllConsistent();
    SpecsFollowJoins();
  }

  /** Maps whose natural keys are distinct and hold every non-null join key. */
  lemma UniqueCovered(src: Table, maps: KeyMaps)
    requires WellFormed(src) && HasSaleColumns(src)
    requires NoDuplicates(NaturalKeys(maps.date))
    requires forall k :: 1 <= k < 6 ==> NoDuplicates(NaturalKeys(MapList(maps)[k]))
    requires forall i :: 0 <= i < |src.rows| && !Cell(src, i, SaleDate).Null? ==> Cell(src, i, SaleDate) in NaturalKeys(maps.date)
    requires forall k, i :: 1 <= k < 6 && 0 <= i < |src.rows| ==> Cell(src, i, SaleColumns[k]) in NaturalKeys(MapList(maps)[k])
    ensures UniqueMaps(maps) && Covered(src, maps)
  {
    assert SaleColumns[0] == SaleDate && MapList(maps)[0] == maps.date;
    CoveredByColumns(src, maps);
  }

  /** Fresh reloads of a run's own dimensions give maps with distinct
      natural keys that hold every non-null join key of the source. */
  lemma FreshMaps(src: Table, specs: seq<DimensionSpec>, w: Warehouse, rel: Reloaded, maps: KeyMaps)
    requires WellFormed(src) && HasSaleColumns(src) && ReloadedWellFormed(rel) && JoinShaped(specs)
    requires ReloadsHaveKeys(rel, specs) && FreshReload(rel, specs, w)
    requires ExtractAll(src, specs) == Ok(w.dims)
    requires GenerateDateDimension(src) == Ok(w.dates)
    requires LoadKeyMaps(rel, specs) == Ok(maps)
    ensures UniqueMaps(maps) && Covered(src, maps)
  {
    ExtractedKeys(src, specs, w.dims);
    FreshDimensionMaps(src, specs, w.dims, rel, maps);
    FreshDateKeys(src, w.dates, rel.date, maps.date);
    UniqueCovered(src, maps);
  }

  /** A run of a join-shaped configuration against freshly reloaded
      dimensions writes exactly one fact row per source row whose six join
      keys are non-null; rows with a null key are dropped by the inner
      joins. */
  lemma FreshRunOneFactPerCompleteRow(src: Table, rel: Reloaded, specs: seq<DimensionSpec>)
    requires Runnable(src, rel, specs) && JoinShaped(specs)
    requires AllResolve(src, specs) && DatesTyped(src) && ReloadsHaveKeys(rel, specs) && HasSaleColumns(src)
    requires FreshReload(rel, specs, Run(src, rel, specs).value)
    ensures |Run(src, rel, specs).value.facts| == |CompleteRows(src)|
  {
    var w := Run(src, rel, specs).value;
    var maps := LoadKeyMaps(rel, specs).value;
    FreshMaps(src, specs, w, rel, maps);
    AssembledFactCount(src, maps);
    CoveredMatchedRows(src, maps);
  }

  /** The same for the configured run. */
  lemma FreshEtlOneFactPerCompleteRow(src: Table, rel: Reloaded)
    requires Runnable(src, rel, Specs)
    requires AllResolve(src, Specs) && DatesTyped(src) && ReloadsHaveKeys(rel, Specs) && HasSaleColumns(src)
    requires FreshReload(rel, Specs, RunEtl(src, rel).value)
    ensures |RunEtl(src, rel).value.facts| == |CompleteRows(src)|
  {
    SpecsJoinShaped();
    FreshRunOneFactPerCompleteRow(src, rel, Specs);
  }
}
