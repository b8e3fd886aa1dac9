/** The fact table: every sale joined (inner) against the six key maps read
    back from the saved dimensions, projected to the six surrogate keys and
    the three measures. */
module Facts {
  import opened Values
  import opened Tables

  // ---------------------------------------------------------------------
  // Key maps

  /** One row of a reloaded dimension projected to (surrogate key, natural key). */
  datatype KeyEntry = KeyEntry(sk: Value, nk: Value)

  /** `select(skCol, nkCol)` on a reloaded dimension table. */
  function KeyMap(t: Table, skCol: Name, nkCol: Name): (r: Result<seq<KeyEntry>>)
    requires WellFormed(t)
    ensures r.Ok? <==> skCol in t.schema && nkCol in t.schema
    ensures r.Err? ==> r.error.MissingColumn? && r.error.column in [skCol, nkCol] && r.error.column !in t.schema
    ensures r.Ok? ==> |r.value| == |t.rows|
    ensures r.Ok? ==> forall i :: 0 <= i < |t.rows| ==>
              r.value[i].sk == Cell(t, i, skCol) && r.value[i].nk == Cell(t, i, nkCol)
    ensures r.Ok? ==> NaturalKeys(r.value) == Column(t, nkCol) && MapSurrogates(r.value) == Column(t, skCol)
  {
    var sel :- Select(t, [skCol, nkCol]);
    var m := seq(|t.rows|, i requires 0 <= i < |t.rows| => KeyEntry(sel.rows[i][0], sel.rows[i][1]));
    assert NaturalKeys(m) == Column(t, nkCol) && MapSurrogates(m) == Column(t, skCol);
    Ok(m)
  }

  function NaturalKeys(m: seq<KeyEntry>): (ks: seq<Value>)
    ensures |ks| == |m|
    ensures forall i :: 0 <= i < |m| ==> ks[i] == m[i].nk
  {
    seq(|m|, i requires 0 <= i < |m| => m[i].nk)
  }

  function MapSurrogates(m: seq<KeyEntry>): (sks: seq<Value>)
    ensures |sks| == |m|
    ensures forall i :: 0 <= i < |m| ==> sks[i] == m[i].sk
  {
    seq(|m|, i requires 0 <= i < |m| => m[i].sk)
  }

  /** Equality in a join condition: a null equals nothing, not even null. */
  predicate SqlEq(a: Value, b: Value) {
    !a.Null? && a == b
  }

  /** The surrogate keys of the entries whose natural key joins with key,
      in map order: one per matching entry, so duplicates count. */
  function Matches(m: seq<KeyEntry>, key: Value): (sks: seq<Value>)
    ensures |sks| <= |m|
    decreases |m|
  {
    if |m| == 0 then []
    else (if SqlEq(m[0].nk, key) then [m[0].sk] else []) + Matches(m[1..], key)
  }

  /** Matches, element-wise: sk is produced exactly when some entry carries
      sk and a natural key that joins with key. */
  lemma {:induction false} MatchesExact(m: seq<KeyEntry>, key: Value, sk: Value)
    ensures sk in Matches(m, key) <==> exists i :: 0 <= i < |m| && SqlEq(m[i].nk, key) && m[i].sk == sk
    decreases |m|
  {
    if |m| > 0 {
      MatchesExact(m[1..], key, sk);
      if exists i :: 0 <= i < |m| && SqlEq(m[i].nk, key) && m[i].sk == sk {
        var i :| 0 <= i < |m| && SqlEq(m[i].nk, key) && m[i].sk == sk;
        if i > 0 {
          assert m[1..][i - 1] == m[i];
        }
      }
    }
  }

  /** Every matched surrogate key is one the map holds. */
  lemma MatchedSurrogate(m: seq<KeyEntry>, key: Value, sk: Value)
    requires sk in Matches(m, key)
    ensures sk in MapSurrogates(m)
  {
    MatchesExact(m, key, sk);
    var i :| 0 <= i < |m| && SqlEq(m[i].nk, key) && m[i].sk == sk;
    assert MapSurrogates(m)[i] == sk;
  }

  /** A null key or a key the map lacks joins with nothing. */
  lemma {:induction false} NoMatch(m: seq<KeyEntry>, key: Value)
    requires key.Null? || key !in NaturalKeys(m)
    ensures Matches(m, key) == []
    decreases |m|
  {
    if |m| > 0 {
      assert NaturalKeys(m[1..]) == NaturalKeys(m)[1..];
      NoMatch(m[1..], key);
    }
  }

  /** In a map whose natural keys are distinct, a non-null key joins with
      exactly one entry when present and with none otherwise. */
  lemma {:induction false} UniqueMatch(m: seq<KeyEntry>, key: Value)
    requires NoDuplicates(NaturalKeys(m))
    ensures |Matches(m, key)| == if !key.Null? && key in NaturalKeys(m) then 1 else 0
    decreases |m|
  {
    if |m| == 0 {
    } else if key.Null? || key !in NaturalKeys(m) {
      NoMatch(m, key);
    } else {
      var rest := m[1..];
      assert NaturalKeys(rest) == NaturalKeys(m)[1..];
      if m[0].nk == key {
        assert key !in NaturalKeys(rest);
        NoMatch(rest, key);
      } else {
        UniqueMatch(rest, key);
      }
    }
  }

  /** Matching against a map saved in two batches matches each batch. */
  lemma {:induction false} MatchesAppend(m1: seq<KeyEntry>, m2: seq<KeyEntry>, key: Value)
    ensures Matches(m1 + m2, key) == Matches(m1, key) + Matches(m2, key)
    decreases |m1|
  {
    if |m1| > 0 {
      assert (m1 + m2)[1..] == m1[1..] + m2;
      MatchesAppend(m1[1..], m2, key);
    } else {
      assert m1 + m2 == m2;
    }
  }

  // ---------------------------------------------------------------------
  // All combinations of matches

  /** The product of the lengths of the lists. */
  function Product(lists: seq<seq<Value>>): nat
    decreases |lists|
  {
    if |lists| == 0 then 1 else |lists[0]| * Product(lists[1..])
  }

  /** Every c in cs with x in front, for each x of xs in turn. */
  function Prefixed(xs: seq<Value>, cs: seq<seq<Value>>): (r: seq<seq<Value>>)
    ensures forall c :: c in r ==> |c| > 0 && c[0] in xs && c[1..] in cs
    decreases |xs|
  {
    if |xs| == 0 then []
    else
      var front := seq(|cs|, i requires 0 <= i < |cs| => [xs[0]] + cs[i]);
      var rest := Prefixed(xs[1..], cs);
      assert forall c :: c in front ==> c[0] == xs[0] && c[1..] in cs;
      front + rest
  }

  lemma {:induction false} PrefixedCount(xs: seq<Value>, cs: seq<seq<Value>>)
    ensures |Prefixed(xs, cs)| == |xs| * |cs|
    decreases |xs|
  {
    if |xs| > 0 {
      PrefixedCount(xs[1..], cs);
      assert |Prefixed(xs, cs)| == |cs| + |Prefixed(xs[1..], cs)|;
      MulStep(|xs|, |cs|);
    }
  }

  lemma MulStep(a: nat, b: nat)
    requires a > 0
    ensures a * b == b + (a - 1) * b
  {
  }

  lemma {:induction false} PrefixedHas(xs: seq<Value>, cs: seq<seq<Value>>, x: Value, c: seq<Value>)
    requires x in xs && c in cs
    ensures [x] + c in Prefixed(xs, cs)
    decreases |xs|
  {
    var front := seq(|cs|, i requires 0 <= i < |cs| => [xs[0]] + cs[i]);
    if x == xs[0] {
      var i :| 0 <= i < |cs| && cs[i] == c;
      assert front[i] == [x] + c;
    } else {
      PrefixedHas(xs[1..], cs, x, c);
    }
  }

  /** The cartesian product: every way to pick one element per list, the
      first list varying slowest. */
  function Combos(lists: seq<seq<Value>>): (cs: seq<seq<Value>>)
    ensures forall c :: c in cs ==> |c| == |lists|
    decreases |lists|
  {
    if |lists| == 0 then [[]]
    else Prefixed(lists[0], Combos(lists[1..]))
  }

  /** There are as many combinations as the product of the list lengths. */
  lemma {:induction false} CombosCount(lists: seq<seq<Value>>)
    ensures |Combos(lists)| == Product(lists)
    decreases |lists|
  {
    if |lists| > 0 {
      CombosCount(lists[1..]);
      PrefixedCount(lists[0], Combos(lists[1..]));
    }
  }

  /** A pick is a combination exactly when it takes one element of each list. */
  lemma CombosExact(lists: seq<seq<Value>>, c: seq<Value>)
    ensures c in Combos(lists) <==> |c| == |lists| && forall k :: 0 <= k < |lists| ==> c[k] in lists[k]
  {
    if c in Combos(lists) {
      CombosSound(lists, c);
    }
    if |c| == |lists| && forall k :: 0 <= k < |lists| ==> c[k] in lists[k] {
      CombosComplete(lists, c);
    }
  }

  /** Every combination picks one value from each list, in order. */
  lemma {:induction false} CombosSound(lists: seq<seq<Value>>, c: seq<Value>)
    requires c in Combos(lists)
    ensures |c| == |lists| && forall k :: 0 <= k < |lists| ==> c[k] in lists[k]
    decreases |lists|
  {
    if |lists| > 0 {
      var tail := lists[1..];
      CombosSound(tail, c[1..]);
      forall k | 0 <= k < |lists| ensures c[k] in lists[k] {
        if k > 0 {
          assert c[1..][k - 1] == c[k] && tail[k - 1] == lists[k];
        }
      }
    } else {
      assert c == [];
    }
  }

  /** Every way of picking one value from each list is a combination. */
  lemma {:induction false} CombosComplete(lists: seq<seq<Value>>, c: seq<Value>)
    requires |c| == |lists| && forall k :: 0 <= k < |lists| ==> c[k] in lists[k]
    ensures c in Combos(lists)
    decreases |lists|
  {
    if |lists| > 0 {
      var tail := lists[1..];
      forall k | 0 <= k < |tail| ensures c[1..][k] in tail[k] {
        assert c[1..][k] == c[k + 1];
      }
      CombosComplete(tail, c[1..]);
      PrefixedHas(lists[0], Combos(tail), c[0], c[1..]);
      assert [c[0]] + c[1..] == c;
    } else {
      assert c == [];
    }
  }

  // ---------------------------------------------------------------------
  // Sales and fact rows

  /** The source columns the fact step reads, join keys first. */
  const SaleColumns: seq<Name> :=
    ["sale_date", "sale_customer_id", "sale_seller_id", "sale_product_id", "store_name",
     "supplier_name", "sale_quantity", "sale_total_price", "product_price"]

  /** A source row as the fact step sees it. */
  datatype Sale = Sale(
    date: Value, customer: Value, seller: Value, product: Value, store: Value, supplier: Value,
    quantity: Value, totalPrice: Value, unitPrice: Value)

  /** The six join keys of a sale, in join order. */
  function JoinKeys(s: Sale): seq<Value> {
    [s.date, s.customer, s.seller, s.product, s.store, s.supplier]
  }

  predicate HasSaleColumns(src: Table) {
    forall c :: c in SaleColumns ==> c in src.schema
  }

  function SaleAt(src: Table, i: nat): (s: Sale)
    requires WellFormed(src) && HasSaleColumns(src) && i < |src.rows|
  {
    Sale(Cell(src, i, SaleColumns[0]), Cell(src, i, SaleColumns[1]), Cell(src, i, SaleColumns[2]),
         Cell(src, i, SaleColumns[3]), Cell(src, i, SaleColumns[4]), Cell(src, i, SaleColumns[5]),
         Cell(src, i, SaleColumns[6]), Cell(src, i, SaleColumns[7]), Cell(src, i, SaleColumns[8]))
  }

  /** The join keys of a source row are its cells under the sale columns. */
  lemma JoinKeyCells(src: Table, i: nat)
    requires WellFormed(src) && HasSaleColumns(src) && i < |src.rows|
    ensures forall k :: 0 <= k < 6 ==> JoinKeys(SaleAt(src, i))[k] == Cell(src, i, SaleColumns[k])
  {
    var s := SaleAt(src, i);
    assert JoinKeys(s) == [s.date, s.customer, s.seller, s.product, s.store, s.supplier];
  }

  /** Reads the sale columns of every source row; fails on one the source lacks. */
  function Sales(src: Table): (r: Result<seq<Sale>>)
    requires WellFormed(src)
    ensures r.Ok? <==> HasSaleColumns(src)
    ensures r.Err? ==> r.error.MissingColumn? && r.error.column in SaleColumns && r.error.column !in src.schema
    ensures r.Ok? ==> |r.value| == |src.rows| && forall i :: 0 <= i < |src.rows| ==> r.value[i] == SaleAt(src, i)
  {
    var sel :- Select(src, SaleColumns);
    Ok(seq(|src.rows|, i requires 0 <= i < |src.rows| => SaleAt(src, i)))
  }

  /** The six reloaded key maps, in join order. */
  datatype KeyMaps = KeyMaps(
    date: seq<KeyEntry>, customer: seq<KeyEntry>, seller: seq<KeyEntry>,
    product: seq<KeyEntry>, store: seq<KeyEntry>, supplier: seq<KeyEntry>)

  function MapList(maps: KeyMaps): seq<seq<KeyEntry>> {
    [maps.date, maps.customer, maps.seller, maps.product, maps.store, maps.supplier]
  }

  /** One row of fact_sales. */
  datatype FactRow = FactRow(
    dateSk: Value, customerSk: Value, sellerSk: Value, productSk: Value, storeSk: Value, supplierSk: Value,
    quantity: Value, totalPrice: Value, unitPrice: Value)

  const FactColumns: seq<Name> :=
    ["date_sk", "customer_sk", "seller_sk", "product_sk", "store_sk", "supplier_sk",
     "sale_quantity", "sale_total_price", "transaction_unit_price"]

  /** For each join, the surrogate keys the sale's key matches. */
  function MatchLists(s: Sale, maps: KeyMaps): (ls: seq<seq<Value>>)
    ensures |ls| == 6
  {
    seq(6, k requires 0 <= k < 6 => Matches(MapList(maps)[k], JoinKeys(s)[k]))
  }

  function FactOf(s: Sale, c: seq<Value>): FactRow
    requires |c| == 6
  {
    FactRow(c[0], c[1], c[2], c[3], c[4], c[5], s.quantity, s.totalPrice, s.unitPrice)
  }

  /** The surrogate keys of a fact row, in join order. */
  function SurrogateKeys(f: FactRow): seq<Value> {
    [f.dateSk, f.customerSk, f.sellerSk, f.productSk, f.storeSk, f.supplierSk]
  }

  lemma SurrogateKeysOf(s: Sale, c: seq<Value>)
    requires |c| == 6
    ensures SurrogateKeys(FactOf(s, c)) == c
  {
  }

  /** The fact rows of a sale for given match lists: one per combination. */
  function FactsFrom(s: Sale, ls: seq<seq<Value>>): (fs: seq<FactRow>)
    requires |ls| == 6
    ensures |fs| == |Combos(ls)|
    ensures forall f :: f in fs ==>
              f.quantity == s.quantity && f.totalPrice == s.totalPrice && f.unitPrice == s.unitPrice
  {
    var cs := Combos(ls);
    seq(|cs|, i requires 0 <= i < |cs| => FactOf(s, cs[i]))
  }

  /** A pick of one surrogate key per list, with the measures of the sale. */
  predicate Picks(s: Sale, ls: seq<seq<Value>>, f: FactRow)
    requires |ls| == 6
  {
    && f.dateSk in ls[0] && f.customerSk in ls[1] && f.sellerSk in ls[2]
    && f.productSk in ls[3] && f.storeSk in ls[4] && f.supplierSk in ls[5]
    && f.quantity == s.quantity && f.totalPrice == s.totalPrice && f.unitPrice == s.unitPrice
  }

  lemma FactsFromSound(s: Sale, ls: seq<seq<Value>>, f: FactRow)
    requires |ls| == 6 && f in FactsFrom(s, ls)
    ensures Picks(s, ls, f)
  {
    var cs := Combos(ls);
    var fs := FactsFrom(s, ls);
    var i :| 0 <= i < |fs| && fs[i] == f;
    assert cs[i] in cs;
    SurrogateKeysOf(s, cs[i]);
    CombosExact(ls, cs[i]);
    assert forall k :: 0 <= k < 6 ==> SurrogateKeys(f)[k] in ls[k];
  }

  lemma FactsFromComplete(s: Sale, ls: seq<seq<Value>>, f: FactRow)
    requires |ls| == 6 && Picks(s, ls, f)
    ensures f in FactsFrom(s, ls)
  {
    var cs := Combos(ls);
    var fs := FactsFrom(s, ls);
    var c := SurrogateKeys(f);
    forall k | 0 <= k < 6 ensures c[k] in ls[k] {
      if k == 0 {} else if k == 1 {} else if k == 2 {} else if k == 3 {} else if k == 4 {} else {}
    }
    CombosExact(ls, c);
    var i :| 0 <= i < |cs| && cs[i] == c;
    assert fs[i] == f;
  }

  /** A fact row is one of the combinations exactly when each surrogate key
      comes from its list and the measures are the sale's. */
  lemma FactsFromExact(s: Sale, ls: seq<seq<Value>>, f: FactRow)
    requires |ls| == 6
    ensures f in FactsFrom(s, ls) <==> Picks(s, ls, f)
  {
    if f in FactsFrom(s, ls) {
      FactsFromSound(s, ls, f);
    }
    if Picks(s, ls, f) {
      FactsFromComplete(s, ls, f);
    }
  }

  /** The fact rows one sale yields: one per combination of matching map
      entries, with the sale's measures copied unchanged. */
  function FactsFor(s: Sale, maps: KeyMaps): (fs: seq<FactRow>)
    ensures forall f :: f in fs ==>
              f.quantity == s.quantity && f.totalPrice == s.totalPrice && f.unitPrice == s.unitPrice
  {
    FactsFrom(s, MatchLists(s, maps))
  }

  /** One fact row per combination of matches. */
  lemma FactsForSize(s: Sale, maps: KeyMaps)
    ensures |FactsFor(s, maps)| == Product(MatchLists(s, maps))
  {
    CombosCount(MatchLists(s, maps));
  }

  lemma ProductOfSix(ls: seq<seq<Value>>)
    requires |ls| == 6
    ensures Product(ls) == |ls[0]| * (|ls[1]| * (|ls[2]| * (|ls[3]| * (|ls[4]| * |ls[5]|))))
  {
    assert ls[1..][1..][1..][1..][1..][1..] == [];
    assert Product(ls[1..][1..][1..][1..][1..]) == |ls[5]|;
    assert Product(ls[1..][1..][1..][1..]) == |ls[4]| * |ls[5]|;
    assert Product(ls[1..][1..][1..]) == |ls[3]| * (|ls[4]| * |ls[5]|);
    assert Product(ls[1..][1..]) == |ls[2]| * (|ls[3]| * (|ls[4]| * |ls[5]|));
    assert Product(ls[1..]) == |ls[1]| * (|ls[2]| * (|ls[3]| * (|ls[4]| * |ls[5]|)));
  }

  /** An empty list empties the product. */
  lemma {:induction false} ProductZero(ls: seq<seq<Value>>, k: nat)
    requires k < |ls| && |ls[k]| == 0
    ensures Product(ls) == 0
    decreases |ls|
  {
    if k > 0 {
      ProductZero(ls[1..], k - 1);
    }
  }

  function Power(b: nat, e: nat): nat
    decreases e
  {
    if e == 0 then 1 else b * Power(b, e - 1)
  }

  /** Lists of one common length n make a product of n to the number of lists. */
  lemma {:induction false} ProductUniform(ls: seq<seq<Value>>, n: nat)
    requires forall k :: 0 <= k < |ls| ==> |ls[k]| == n
    ensures Product(ls) == Power(n, |ls|)
    decreases |ls|
  {
    if |ls| > 0 {
      ProductUniform(ls[1..], n);
    }
  }

  /** The number of fact rows of a sale is the product of its six match counts. */
  lemma FactsForCount(s: Sale, maps: KeyMaps)
    ensures |FactsFor(s, maps)| ==
              |Matches(maps.date, s.date)| * (|Matches(maps.customer, s.customer)| *
              (|Matches(maps.seller, s.seller)| * (|Matches(maps.product, s.product)| *
              (|Matches(maps.store, s.store)| * |Matches(maps.supplier, s.supplier)|))))
  {
    FactsForSize(s, maps);
    ProductOfSix(MatchLists(s, maps));
  }

  /** Inner-join semantics for one sale: a fact row comes from the sale
      exactly when each of its surrogate keys is a match of the
      corresponding key and it carries the sale's measures. */
  lemma FactsForExact(s: Sale, maps: KeyMaps, f: FactRow)
    ensures f in FactsFor(s, maps) <==>
              && f.dateSk in Matches(maps.date, s.date)
              && f.customerSk in Matches(maps.customer, s.customer)
              && f.sellerSk in Matches(maps.seller, s.seller)
              && f.productSk in Matches(maps.product, s.product)
              && f.storeSk in Matches(maps.store, s.store)
              && f.supplierSk in Matches(maps.supplier, s.supplier)
              && f.quantity == s.quantity && f.totalPrice == s.totalPrice && f.unitPrice == s.unitPrice
  {
    var ls := MatchLists(s, maps);
    assert ls[0] == Matches(maps.date, s.date) && ls[1] == Matches(maps.customer, s.customer);
    assert ls[2] == Matches(maps.seller, s.seller) && ls[3] == Matches(maps.product, s.product);
    assert ls[4] == Matches(maps.store, s.store) && ls[5] == Matches(maps.supplier, s.supplier);
    FactsFromExact(s, ls, f);
  }

  /** The sale joins every map: no key is null and each map holds it. */
  predicate FullyMatched(s: Sale, maps: KeyMaps) {
    forall k :: 0 <= k < 6 ==> !JoinKeys(s)[k].Null? && JoinKeys(s)[k] in NaturalKeys(MapList(maps)[k])
  }

  /** A sale with a null key, or a key some map lacks, yields no fact row. */
  lemma UnmatchedSaleDropped(s: Sale, maps: KeyMaps)
    requires !FullyMatched(s, maps)
    ensures FactsFor(s, maps) == []
  {
    var k :| 0 <= k < 6 && (JoinKeys(s)[k].Null? || JoinKeys(s)[k] !in NaturalKeys(MapList(maps)[k]));
    NoMatch(MapList(maps)[k], JoinKeys(s)[k]);
    ProductZero(MatchLists(s, maps), k);
    FactsForSize(s, maps);
  }

  /** Every key map has distinct natural keys. */
  predicate UniqueMaps(maps: KeyMaps) {
    forall k :: 0 <= k < 6 ==> NoDuplicates(NaturalKeys(MapList(maps)[k]))
  }

  /** With distinct natural keys in every map, a sale yields exactly one
      fact row when it joins every map and none otherwise. */
  lemma OneFactPerMatchedSale(s: Sale, maps: KeyMaps)
    requires UniqueMaps(maps)
    ensures |FactsFor(s, maps)| == if FullyMatched(s, maps) then 1 else 0
  {
    if FullyMatched(s, maps) {
      var ls := MatchLists(s, maps);
      forall k | 0 <= k < 6 ensures |ls[k]| == 1 {
        UniqueMatch(MapList(maps)[k], JoinKeys(s)[k]);
      }
      ProductUniform(ls, 1);
      assert Power(1, 6) == 1;
      FactsForSize(s, maps);
    } else {
      UnmatchedSaleDropped(s, maps);
    }
  }

  /** Key maps read back after two append-mode runs: each dimension table
      holds the first run's rows followed by the second run's, so every join
      key matches in both batches, the first batch's matches first. */
  function Appended(first: KeyMaps, second: KeyMaps): (maps: KeyMaps)
    ensures forall k :: 0 <= k < 6 ==> MapList(maps)[k] == MapList(first)[k] + MapList(second)[k]
    ensures forall k, key :: 0 <= k < 6 ==>
              Matches(MapList(maps)[k], key) == Matches(MapList(first)[k], key) + Matches(MapList(second)[k], key)
  {
    var maps := KeyMaps(first.date + second.date, first.customer + second.customer, first.seller + second.seller,
                        first.product + second.product, first.store + second.store, first.supplier + second.supplier);
    assert forall k, key :: 0 <= k < 6 ==>
             Matches(MapList(maps)[k], key) == Matches(MapList(first)[k], key) + Matches(MapList(second)[k], key) by {
      forall k, key | 0 <= k < 6
        ensures Matches(MapList(maps)[k], key) == Matches(MapList(first)[k], key) + Matches(MapList(second)[k], key)
      {
        MatchesAppend(MapList(first)[k], MapList(second)[k], key);
      }
    }
    maps
  }

  /** After a second append-mode run every key occurs twice in every map, so
      a sale that joins all six maps yields 2^6 = 64 fact rows instead of one. */
  lemma RerunMultipliesFacts(s: Sale, first: KeyMaps, second: KeyMaps)
    requires UniqueMaps(first) && UniqueMaps(second)
    requires FullyMatched(s, first) && FullyMatched(s, second)
    ensures |FactsFor(s, Appended(first, second))| == 64
  {
    var maps := Appended(first, second);
    var ls := MatchLists(s, maps);
    forall k | 0 <= k < 6 ensures |ls[k]| == 2 {
      TwoMatches(MapList(first)[k], MapList(second)[k], JoinKeys(s)[k]);
    }
    ProductUniform(ls, 2);
    assert Power(2, 6) == 64;
    FactsForSize(s, maps);
  }

  lemma TwoMatches(m1: seq<KeyEntry>, m2: seq<KeyEntry>, key: Value)
    requires NoDuplicates(NaturalKeys(m1)) && NoDuplicates(NaturalKeys(m2))
    requires !key.Null? && key in NaturalKeys(m1) && key in NaturalKeys(m2)
    ensures |Matches(m1 + m2, key)| == 2
  {
    MatchesAppend(m1, m2, key);
    UniqueMatch(m1, key);
    UniqueMatch(m2, key);
  }

  // ---------------------------------------------------------------------
  // The whole fact table

  /** The lists one after another. */
  function Concat<T>(ls: seq<seq<T>>): (r: seq<T>)
    decreases |ls|
  {
    if |ls| == 0 then [] else Concat(ls[..|ls| - 1]) + ls[|ls| - 1]
  }

  lemma {:induction false} ConcatExact<T>(ls: seq<seq<T>>, x: T)
    ensures x in Concat(ls) <==> exists i :: 0 <= i < |ls| && x in ls[i]
    decreases |ls|
  {
    if |ls| > 0 {
      var init := ls[..|ls| - 1];
      ConcatExact(init, x);
      if exists i :: 0 <= i < |ls| && x in ls[i] {
        var i :| 0 <= i < |ls| && x in ls[i];
        if i < |ls| - 1 {
          assert init[i] == ls[i];
        }
      }
    }
  }

  /** Lists of at most one element concatenate to one element per singleton. */
  lemma {:induction false} ConcatCount<T>(ls: seq<seq<T>>)
    requires forall i :: 0 <= i < |ls| ==> |ls[i]| <= 1
    ensures |Concat(ls)| == |set i: nat | i < |ls| && |ls[i]| == 1|
    decreases |ls|
  {
    var n := |ls|;
    if n > 0 {
      var init := ls[..n - 1];
      ConcatCount(init);
      var before := set i: nat | i < |init| && |init[i]| == 1;
      assert forall i: nat :: i < n - 1 ==> init[i] == ls[i];
      if |ls[n - 1]| == 1 {
        assert (set i: nat | i < n && |ls[i]| == 1) == before + {n - 1};
      } else {
        assert (set i: nat | i < n && |ls[i]| == 1) == before;
      }
    }
  }

  /** The fact rows of each sale, sale by sale. */
  function PerSale(sales: seq<Sale>, maps: KeyMaps): (ls: seq<seq<FactRow>>)
    ensures |ls| == |sales|
    ensures forall i :: 0 <= i < |sales| ==> ls[i] == FactsFor(sales[i], maps)
  {
    seq(|sales|, i requires 0 <= i < |sales| => FactsFor(sales[i], maps))
  }

  /** The fact rows of all sales. */
  function JoinAll(sales: seq<Sale>, maps: KeyMaps): seq<FactRow> {
    Concat(PerSale(sales, maps))
  }

  /** A fact row is produced exactly when one of the sales yields it. */
  lemma JoinAllExact(sales: seq<Sale>, maps: KeyMaps, f: FactRow)
    ensures f in JoinAll(sales, maps) <==> exists i :: 0 <= i < |sales| && f in FactsFor(sales[i], maps)
  {
    ConcatExact(PerSale(sales, maps), f);
  }

  /** How many fact rows the sales yield together: the sum, sale by sale,
      of the products of their six match counts. */
  function TotalFacts(sales: seq<Sale>, maps: KeyMaps): nat
    decreases |sales|
  {
    if |sales| == 0 then 0
    else TotalFacts(sales[..|sales| - 1], maps) + Product(MatchLists(sales[|sales| - 1], maps))
  }

  /** The lengths of the lists added up. */
  function SumLengths<T>(ls: seq<seq<T>>): nat
    decreases |ls|
  {
    if |ls| == 0 then 0 else SumLengths(ls[..|ls| - 1]) + |ls[|ls| - 1]|
  }

  lemma {:induction false} ConcatLength<T>(ls: seq<seq<T>>)
    ensures |Concat(ls)| == SumLengths(ls)
    decreases |ls|
  {
    if |ls| > 0 {
      ConcatLength(ls[..|ls| - 1]);
    }
  }

  /** Lists as long as the sales' match-count products add up to the total. */
  lemma {:induction false} MatchCountsAddUp(sales: seq<Sale>, maps: KeyMaps, ls: seq<seq<FactRow>>)
    requires |ls| == |sales|
    requires forall i :: 0 <= i < |sales| ==> |ls[i]| == Product(MatchLists(sales[i], maps))
    ensures SumLengths(ls) == TotalFacts(sales, maps)
    decreases |sales|
  {
    if |sales| > 0 {
      var n := |sales|;
      MatchCountsAddUp(sales[..n - 1], maps, ls[..n - 1]);
    }
  }

  /** For any maps, duplicate natural keys included, the joined table has
      as many rows as the sales' match-count products add up to. */
  lemma JoinAllCount(sales: seq<Sale>, maps: KeyMaps)
    ensures |JoinAll(sales, maps)| == TotalFacts(sales, maps)
  {
    var ls := PerSale(sales, maps);
    forall i | 0 <= i < |sales| ensures |ls[i]| == Product(MatchLists(sales[i], maps)) {
      FactsForSize(sales[i], maps);
    }
    ConcatLength(ls);
    MatchCountsAddUp(sales, maps, ls);
  }

  /** The positions of the sales that join every map. */
  function MatchedSales(sales: seq<Sale>, maps: KeyMaps): set<nat> {
    set i: nat | i < |sales| && FullyMatched(sales[i], maps)
  }

  /** With distinct natural keys in every map, the fact table has exactly
      one row per sale that joins every map. */
  lemma OneFactPerSale(sales: seq<Sale>, maps: KeyMaps)
    requires UniqueMaps(maps)
    ensures |JoinAll(sales, maps)| == |MatchedSales(sales, maps)|
  {
    var ls := PerSale(sales, maps);
    PerSaleSingletons(sales, maps);
    ConcatCount(ls);
    SinglesMatched(sales, maps, ls);
  }

  lemma PerSaleSingletons(sales: seq<Sale>, maps: KeyMaps)
    requires UniqueMaps(maps)
    ensures forall i :: 0 <= i < |sales| ==>
              |PerSale(sales, maps)[i]| <= 1 && (|PerSale(sales, maps)[i]| == 1 <==> FullyMatched(sales[i], maps))
  {
    forall i | 0 <= i < |sales|
      ensures |FactsFor(sales[i], maps)| <= 1 && (|FactsFor(sales[i], maps)| == 1 <==> FullyMatched(sales[i], maps))
    {
      OneFactPerMatchedSale(sales[i], maps);
    }
  }

  lemma SinglesMatched(sales: seq<Sale>, maps: KeyMaps, ls: seq<seq<FactRow>>)
    requires |ls| == |sales|
    requires forall i :: 0 <= i < |sales| ==> (|ls[i]| == 1 <==> FullyMatched(sales[i], maps))
    ensures (set i: nat | i < |ls| && |ls[i]| == 1) == MatchedSales(sales, maps)
  {
    var singles := set i: nat | i < |ls| && |ls[i]| == 1;
    forall i: nat ensures i in singles <==> i in MatchedSales(sales, maps) {
    }
  }

  /** The source rows that join every map. */
  function MatchedRows(src: Table, maps: KeyMaps): set<nat>
    requires WellFormed(src) && HasSaleColumns(src)
  {
    set i: nat | i < |src.rows| && FullyMatched(SaleAt(src, i), maps)
  }

  /** `join(...).select(...)` over the source: fails on a missing sale
      column, otherwise the fact rows of all source rows. */
  function AssembleFacts(src: Table, maps: KeyMaps): (r: Result<seq<FactRow>>)
    requires WellFormed(src)
    ensures r.Ok? <==> HasSaleColumns(src)
    ensures r.Err? ==> r.error.MissingColumn? && r.error.column in SaleColumns && r.error.column !in src.schema
    ensures r.Ok? ==> forall f :: f in r.value <==>
              exists i :: 0 <= i < |src.rows| && f in FactsFor(SaleAt(src, i), maps)
    ensures r.Ok? ==> |r.value| == TotalFacts(Sales(src).value, maps)
  {
    var sales :- Sales(src);
    var fs := JoinAll(sales, maps);
    assert |fs| == TotalFacts(sales, maps) by {
      JoinAllCount(sales, maps);
    }
    forall f ensures f in fs <==> exists i :: 0 <= i < |src.rows| && f in FactsFor(SaleAt(src, i), maps) {
      SalesJoinMember(src, maps, f);
    }
    Ok(fs)
  }

  /** A fact row of the sales read from src comes from one of src's rows. */
  lemma SalesJoinMember(src: Table, maps: KeyMaps, f: FactRow)
    requires WellFormed(src) && HasSaleColumns(src)
    ensures f in JoinAll(Sales(src).value, maps) <==> exists i :: 0 <= i < |src.rows| && f in FactsFor(SaleAt(src, i), maps)
  {
    JoinAllExact(Sales(src).value, maps, f);
  }

  /** With distinct natural keys in every map, the fact table has one row
      per source row that joins every map. */
  lemma AssembledFactCount(src: Table, maps: KeyMaps)
    requires WellFormed(src) && HasSaleColumns(src) && UniqueMaps(maps)
    ensures AssembleFacts(src, maps).Ok?
    ensures |AssembleFacts(src, maps).value| == |MatchedRows(src, maps)|
  {
    var sales := Sales(src).value;
    assert AssembleFacts(src, maps).value == JoinAll(sales, maps);
    OneFactPerSale(sales, maps);
    SalesMatchedRows(src, maps);
  }

  lemma SalesMatchedRows(src: Table, maps: KeyMaps)
    requires WellFormed(src) && HasSaleColumns(src)
    ensures MatchedSales(Sales(src).value, maps) == MatchedRows(src, maps)
  {
    var sales := Sales(src).value;
    assert forall i: nat :: i < |sales| ==> sales[i] == SaleAt(src, i);
  }

  function FactRowCells(f: FactRow): (row: Row)
    ensures |row| == |FactColumns|
  {
    [f.dateSk, f.customerSk, f.sellerSk, f.productSk, f.storeSk, f.supplierSk,
     f.quantity, f.totalPrice, f.unitPrice]
  }

  /** The fact rows as a table with the fact_sales columns. */
  function FactTable(facts: seq<FactRow>): (t: Table)
    ensures t.schema == FactColumns && |t.rows| == |facts|
    ensures WellFormed(t)
  {
    Table(FactColumns, seq(|facts|, i requires 0 <= i < |facts| => FactRowCells(facts[i])))
  }
}
