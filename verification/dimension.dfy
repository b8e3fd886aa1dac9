/** Latest-row-per-key dimension extraction (slowly changing dimension,
    type 1): select the natural key, the order column and the mapped
    attribute columns; partition by the natural key; keep the row ranked
    first by the order column descending; drop the ranking and the order
    column; rename through the attribute map.

    The window's row_number leaves ties on the maximal order value to the
    engine. This model fixes the rule: among the rows of a key that share
    the maximal order value, the earliest row of the source is kept. */
module Dimension {
  import opened Values
  import opened Tables

  /** A Python dict from source column to output column, in insertion order. */
  type AttributeMap = seq<(Name, Name)>

  function MapKeys(attrs: AttributeMap): (ks: seq<Name>)
    ensures |ks| == |attrs|
    ensures forall i :: 0 <= i < |attrs| ==> ks[i] == attrs[i].0
  {
    seq(|attrs|, i requires 0 <= i < |attrs| => attrs[i].0)
  }

  /** Dict keys are distinct. */
  predicate IsDict(attrs: AttributeMap) {
    NoDuplicates(MapKeys(attrs))
  }

  // ---------------------------------------------------------------------
  // The selected column list

  predicate StrictlySorted(s: seq<Name>) {
    forall i, j :: 0 <= i < j < |s| ==> TextLt(s[i], s[j])
  }

  lemma StrictlySortedNoDuplicates(s: seq<Name>)
    requires StrictlySorted(s)
    ensures NoDuplicates(s)
  {
  }

  /** Inserts x into a strictly sorted list unless it is already there. */
  function InsertSorted(x: Name, s: seq<Name>): (r: seq<Name>)
    requires StrictlySorted(s)
    ensures StrictlySorted(r)
    ensures forall y :: y in r <==> y == x || y in s
  {
    if |s| == 0 then [x]
    else if x == s[0] then s
    else if TextLt(x, s[0]) then
      assert forall j :: 0 < j < |s| ==> TextLt(x, s[j]) by {
        forall j | 0 < j < |s| {
          TextLtTrans(x, s[0], s[j]);
        }
      }
      [x] + s
    else
      TextLtTotal(x, s[0]);
      var rest := InsertSorted(x, s[1..]);
      assert forall j :: 0 <= j < |rest| ==> TextLt(s[0], rest[j]) by {
        forall j | 0 <= j < |rest| ensures TextLt(s[0], rest[j]) {
          if rest[j] != x {
            assert rest[j] in rest;
            assert rest[j] in s[1..];
            var k :| 0 <= k < |s[1..]| && s[1..][k] == rest[j];
            assert s[k + 1] == rest[j];
          }
        }
      }
      [s[0]] + rest
  }

  /** `sorted(set(xs))`: the distinct names of xs in ascending order. */
  function SortedNames(xs: seq<Name>): (r: seq<Name>)
    ensures StrictlySorted(r)
    ensures forall y :: y in r <==> y in xs
  {
    if |xs| == 0 then []
    else InsertSorted(xs[|xs| - 1], SortedNames(xs[..|xs| - 1]))
  }

  /** `sorted(list(set([id_col, order_col] + list(attributes_map.keys()))))`. */
  function SelectedColumns(idCol: Name, orderCol: Name, attrs: AttributeMap): (cols: seq<Name>)
    ensures StrictlySorted(cols) && NoDuplicates(cols)
    ensures forall c :: c in cols <==> c == idCol || c == orderCol || c in MapKeys(attrs)
  {
    var r := SortedNames([idCol, orderCol] + MapKeys(attrs));
    StrictlySortedNoDuplicates(r);
    r
  }

  /** The names of s outside drop, in their order. */
  function Without(s: seq<Name>, drop: set<Name>): (r: seq<Name>)
    ensures forall c :: c in r <==> c in s && c !in drop
    ensures NoDuplicates(s) ==> NoDuplicates(r)
  {
    if |s| == 0 then []
    else if s[0] in drop then Without(s[1..], drop)
    else [s[0]] + Without(s[1..], drop)
  }

  /** The selected columns that survive `.drop("rn", order_col)`. */
  function KeptColumns(idCol: Name, orderCol: Name, attrs: AttributeMap): (kept: seq<Name>)
    ensures NoDuplicates(kept)
    ensures forall c :: c in kept <==> (c == idCol || c in MapKeys(attrs)) && c != "rn" && c != orderCol
  {
    Without(SelectedColumns(idCol, orderCol, attrs), {"rn", orderCol})
  }

  // ---------------------------------------------------------------------
  // Renaming

  /** The name a column called c ends up with after `withColumnRenamed(s, t)`
      for every pair (s, t) of the map in order: each call renames every
      column currently called s and leaves the others alone. */
  function RenameName(attrs: AttributeMap, c: Name): Name {
    if |attrs| == 0 then c
    else RenameName(attrs[1..], if c == attrs[0].0 then attrs[0].1 else c)
  }

  function Renamed(attrs: AttributeMap, names: seq<Name>): (r: seq<Name>)
    ensures |r| == |names|
    ensures forall p :: 0 <= p < |names| ==> r[p] == RenameName(attrs, names[p])
  {
    seq(|names|, p requires 0 <= p < |names| => RenameName(attrs, names[p]))
  }

  /** No target name is renamed again by a later pair of the map. */
  predicate ChainFree(attrs: AttributeMap) {
    forall i, j :: 0 <= i < j < |attrs| ==> attrs[i].1 != attrs[j].0
  }

  /** A column the map does not mention keeps its name. */
  lemma {:induction false} RenameUnmapped(attrs: AttributeMap, c: Name)
    requires c !in MapKeys(attrs)
    ensures RenameName(attrs, c) == c
  {
    if |attrs| > 0 {
      assert c != MapKeys(attrs)[0];
      assert MapKeys(attrs[1..]) == MapKeys(attrs)[1..];
      RenameUnmapped(attrs[1..], c);
    }
  }

  /** In a chain-free dict every source column ends under its own target name. */
  lemma {:induction false} RenameMapped(attrs: AttributeMap, i: nat)
    requires IsDict(attrs) && ChainFree(attrs) && i < |attrs|
    ensures RenameName(attrs, attrs[i].0) == attrs[i].1
  {
    assert MapKeys(attrs[1..]) == MapKeys(attrs)[1..];
    if i == 0 {
      assert forall j :: 0 <= j < |attrs| - 1 ==> MapKeys(attrs[1..])[j] != attrs[0].1;
      RenameUnmapped(attrs[1..], attrs[0].1);
    } else {
      assert MapKeys(attrs)[i] != MapKeys(attrs)[0];
      RenameMapped(attrs[1..], i - 1);
    }
  }

  /** A map whose first pair's target is no later source column renames
      that pair's source column to its target. */
  lemma RenameFirst(attrs: AttributeMap)
    requires |attrs| > 0 && attrs[0].1 !in MapKeys(attrs[1..])
    ensures RenameName(attrs, attrs[0].0) == attrs[0].1
  {
    RenameUnmapped(attrs[1..], attrs[0].1);
  }

  /** Names of different lengths differ: a map whose targets are never as
      long as a later source column is chain-free. */
  lemma ChainFreeByLength(attrs: AttributeMap)
    requires forall i, j :: 0 <= i < j < |attrs| ==> |attrs[i].1| != |attrs[j].0|
    ensures ChainFree(attrs)
  {
  }

  // ---------------------------------------------------------------------
  // The window: row_number() over (partition by key order by order desc) == 1

  /** Row j is the one the window keeps for its key among rows 0..n-1: no
      row of the key ranks above it, and no earlier row of the key ties it. */
  predicate IsLatest(keys: seq<Value>, orders: seq<Value>, n: nat, j: nat)
    requires n <= |keys| == |orders| && j < n
  {
    forall i :: 0 <= i < n && keys[i] == keys[j] ==>
      Le(orders[i], orders[j]) && (i < j ==> orders[i] != orders[j])
  }

  /** The key values of the chosen rows, in output order. */
  function KeysAt(keys: seq<Value>, idx: seq<nat>): (ks: seq<Value>)
    requires forall p :: 0 <= p < |idx| ==> idx[p] < |keys|
    ensures |ks| == |idx|
    ensures forall p :: 0 <= p < |idx| ==> ks[p] == keys[idx[p]]
  {
    seq(|idx|, p requires 0 <= p < |idx| => keys[idx[p]])
  }

  /** Some chosen row has key k. */
  predicate HasKey(keys: seq<Value>, acc: seq<nat>, k: Value)
    requires forall p :: 0 <= p < |acc| ==> acc[p] < |keys|
  {
    k in KeysAt(keys, acc)
  }

  /** acc picks, among rows 0..n-1, exactly one latest row per key. */
  predicate Window(keys: seq<Value>, orders: seq<Value>, n: nat, acc: seq<nat>)
    requires n <= |keys| == |orders|
  {
    && (forall p :: 0 <= p < |acc| ==> acc[p] < n)
    && NoDuplicates(KeysAt(keys, acc))
    && (forall i {:trigger HasKey(keys, acc, keys[i])} :: 0 <= i < n ==> HasKey(keys, acc, keys[i]))
    && (forall p :: 0 <= p < |acc| ==> IsLatest(keys, orders, n, acc[p]))
  }

  /** Position in acc of the row chosen for key k, if any. */
  function FindKey(keys: seq<Value>, acc: seq<nat>, k: Value): (r: Option<nat>)
    requires forall p :: 0 <= p < |acc| ==> acc[p] < |keys|
    ensures r.Some? ==> r.value < |acc| && keys[acc[r.value]] == k
    ensures r.None? ==> k !in KeysAt(keys, acc)
  {
    if |acc| == 0 then None
    else if keys[acc[|acc| - 1]] == k then Some(|acc| - 1)
    else
      assert KeysAt(keys, acc) == KeysAt(keys, acc[..|acc| - 1]) + [keys[acc[|acc| - 1]]];
      FindKey(keys, acc[..|acc| - 1], k)
  }

  /** Row n joins the window: a new key is appended; a known key switches to
      row n only when row n ranks strictly above the row kept so far. */
  function Absorb(keys: seq<Value>, orders: seq<Value>, n: nat, acc: seq<nat>): seq<nat>
    requires n < |keys| == |orders|
    requires forall p :: 0 <= p < |acc| ==> acc[p] < n
  {
    match FindKey(keys, acc, keys[n])
    case None => acc + [n]
    case Some(p) => if Le(orders[n], orders[acc[p]]) then acc else acc[p := n]
  }

  lemma AbsorbNewKey(keys: seq<Value>, orders: seq<Value>, n: nat, acc: seq<nat>)
    requires 0 < n <= |keys| == |orders|
    requires Window(keys, orders, n - 1, acc)
    requires keys[n - 1] !in KeysAt(keys, acc)
    ensures Window(keys, orders, n, acc + [n - 1])
  {
    NewKeyCovers(keys, orders, n, acc);
    NewKeyLatest(keys, orders, n, acc);
    var r := acc + [n - 1];
    assert forall p :: 0 <= p < |r| ==> r[p] == if p < |acc| then acc[p] else n - 1;
  }

  /** Appending a row of a new key keeps the chosen keys distinct and covers it. */
  lemma NewKeyCovers(keys: seq<Value>, orders: seq<Value>, n: nat, acc: seq<nat>)
    requires 0 < n <= |keys| == |orders|
    requires Window(keys, orders, n - 1, acc)
    requires keys[n - 1] !in KeysAt(keys, acc)
    ensures NoDuplicates(KeysAt(keys, acc + [n - 1]))
    ensures forall i :: 0 <= i < n ==> HasKey(keys, acc + [n - 1], keys[i])
  {
    var m := n - 1;
    var r := acc + [m];
    assert KeysAt(keys, r) == KeysAt(keys, acc) + [keys[m]];
    forall i | 0 <= i < n
      ensures HasKey(keys, r, keys[i])
    {
      if i < m {
        assert HasKey(keys, acc, keys[i]);
      }
    }
  }

  /** Appending a row of a new key keeps every chosen row latest. */
  lemma NewKeyLatest(keys: seq<Value>, orders: seq<Value>, n: nat, acc: seq<nat>)
    requires 0 < n <= |keys| == |orders|
    requires Window(keys, orders, n - 1, acc)
    requires keys[n - 1] !in KeysAt(keys, acc)
    ensures forall p :: 0 <= p < |acc| ==> acc[p] < n && IsLatest(keys, orders, n, acc[p])
    ensures IsLatest(keys, orders, n, n - 1)
  {
    var m := n - 1;
    LeRefl(orders[m]);
    forall p | 0 <= p < |acc|
      ensures acc[p] < n && IsLatest(keys, orders, n, acc[p])
    {
      assert keys[acc[p]] in KeysAt(keys, acc);
      LatestExtends(keys, orders, n, acc[p]);
    }
    forall i | 0 <= i < m ensures keys[i] != keys[m] {
      assert HasKey(keys, acc, keys[i]);
    }
  }

  /** A latest row stays latest when a row of another key follows. */
  lemma LatestExtends(keys: seq<Value>, orders: seq<Value>, n: nat, j: nat)
    requires 0 < n <= |keys| == |orders| && j < n - 1
    requires IsLatest(keys, orders, n - 1, j) && keys[n - 1] != keys[j]
    ensures IsLatest(keys, orders, n, j)
  {
  }

  lemma AbsorbKeep(keys: seq<Value>, orders: seq<Value>, n: nat, acc: seq<nat>, p: nat)
    requires 0 < n <= |keys| == |orders|
    requires Window(keys, orders, n - 1, acc)
    requires p < |acc| && keys[acc[p]] == keys[n - 1] && Le(orders[n - 1], orders[acc[p]])
    ensures Window(keys, orders, n, acc)
  {
    var m := n - 1;
    var ks := KeysAt(keys, acc);
    assert ks[p] == keys[m];
    forall i | 0 <= i < n
      ensures HasKey(keys, acc, keys[i])
    {
      if i < m {
        assert HasKey(keys, acc, keys[i]);
      }
    }
    forall q | 0 <= q < |acc|
      ensures IsLatest(keys, orders, n, acc[q])
    {
      assert IsLatest(keys, orders, m, acc[q]);
      if q != p {
        assert ks[q] != ks[p];
      }
    }
  }

  lemma AbsorbReplace(keys: seq<Value>, orders: seq<Value>, n: nat, acc: seq<nat>, p: nat)
    requires 0 < n <= |keys| == |orders|
    requires Window(keys, orders, n - 1, acc)
    requires p < |acc| && keys[acc[p]] == keys[n - 1] && !Le(orders[n - 1], orders[acc[p]])
    ensures Window(keys, orders, n, acc[p := n - 1])
  {
    var m := n - 1;
    var a := acc[p];
    var r := acc[p := m];
    var ks := KeysAt(keys, acc);
    assert KeysAt(keys, r) == ks;
    forall i | 0 <= i < n
      ensures HasKey(keys, r, keys[i])
    {
      if i < m {
        assert HasKey(keys, acc, keys[i]);
      } else {
        assert ks[p] == keys[i];
      }
    }
    LeTotal(orders[m], orders[a]);
    LeRefl(orders[m]);
    assert IsLatest(keys, orders, m, a);
    forall i | 0 <= i < m && keys[i] == keys[m]
      ensures Le(orders[i], orders[m]) && orders[i] != orders[m]
    {
      LeTrans(orders[i], orders[a], orders[m]);
    }
    forall q | 0 <= q < |r|
      ensures IsLatest(keys, orders, n, r[q])
    {
      if q != p {
        assert IsLatest(keys, orders, m, acc[q]);
        assert ks[q] != ks[p];
      }
    }
  }

  /** Absorbing row n - 1 extends a window over rows 0..n-2 to rows 0..n-1. */
  lemma AbsorbWindow(keys: seq<Value>, orders: seq<Value>, n: nat, acc: seq<nat>)
    requires 0 < n <= |keys| == |orders|
    requires Window(keys, orders, n - 1, acc)
    ensures Window(keys, orders, n, Absorb(keys, orders, n - 1, acc))
  {
    match FindKey(keys, acc, keys[n - 1])
    case None =>
      AbsorbNewKey(keys, orders, n, acc);
    case Some(p) =>
      if Le(orders[n - 1], orders[acc[p]]) {
        AbsorbKeep(keys, orders, n, acc, p);
      } else {
        AbsorbReplace(keys, orders, n, acc, p);
      }
  }

  /** The window over rows 0..n-1. */
  function LatestIn(keys: seq<Value>, orders: seq<Value>, n: nat): (r: seq<nat>)
    requires n <= |keys| == |orders|
    ensures Window(keys, orders, n, r)
  {
    if n == 0 then []
    else
      var acc := LatestIn(keys, orders, n - 1);
      AbsorbWindow(keys, orders, n, acc);
      Absorb(keys, orders, n - 1, acc)
  }

  /** The rows the window keeps, as source row indices: one row per key,
      no key lost, and the row kept for a key has the maximal order value of
      that key (the earliest such row on a tie). */
  function LatestIndices(keys: seq<Value>, orders: seq<Value>): (idx: seq<nat>)
    requires |keys| == |orders|
    ensures forall p :: 0 <= p < |idx| ==> idx[p] < |keys|
    ensures NoDuplicates(KeysAt(keys, idx))
    ensures forall i :: 0 <= i < |keys| ==> keys[i] in KeysAt(keys, idx)
    ensures forall p, i :: 0 <= p < |idx| && 0 <= i < |keys| && keys[i] == keys[idx[p]] ==>
              Le(orders[i], orders[idx[p]])
    ensures forall p, i :: 0 <= p < |idx| && 0 <= i < idx[p] && keys[i] == keys[idx[p]] ==>
              orders[i] != orders[idx[p]]
  {
    var r := LatestIn(keys, orders, |keys|);
    assert forall i :: 0 <= i < |keys| ==> HasKey(keys, r, keys[i]);
    assert forall p :: 0 <= p < |r| ==> IsLatest(keys, orders, |keys|, r[p]);
    r
  }

  /** Two latest rows of the same key are the same row. */
  lemma LatestUnique(keys: seq<Value>, orders: seq<Value>, n: nat, a: nat, b: nat)
    requires n <= |keys| == |orders| && a < n && b < n
    requires IsLatest(keys, orders, n, a) && IsLatest(keys, orders, n, b)
    requires keys[a] == keys[b]
    ensures a == b
  {
    LeAntisym(orders[a], orders[b]);
  }

  /** A row is kept exactly when it is the latest row of its key. */
  lemma LatestIndicesExact(keys: seq<Value>, orders: seq<Value>, j: nat)
    requires |keys| == |orders| && j < |keys|
    ensures j in LatestIndices(keys, orders) <==> IsLatest(keys, orders, |keys|, j)
  {
    var idx := LatestIndices(keys, orders);
    if IsLatest(keys, orders, |keys|, j) {
      var p :| 0 <= p < |idx| && keys[idx[p]] == keys[j];
      LatestUnique(keys, orders, |keys|, idx[p], j);
    }
  }

  /** A choice of rows whose keys are distinct and cover every key has
      one entry per distinct key. */
  lemma CoveringCount(keys: seq<Value>, idx: seq<nat>)
    requires forall p :: 0 <= p < |idx| ==> idx[p] < |keys|
    requires NoDuplicates(KeysAt(keys, idx))
    requires forall i :: 0 <= i < |keys| ==> keys[i] in KeysAt(keys, idx)
    ensures |idx| == |Elems(keys)|
    ensures Elems(KeysAt(keys, idx)) == Elems(keys)
  {
    var ks := KeysAt(keys, idx);
    assert Elems(ks) == Elems(keys) by {
      forall k | k in Elems(keys) ensures k in Elems(ks) {
        var i :| 0 <= i < |keys| && keys[i] == k;
        assert keys[i] in ks;
      }
    }
    NoDuplicatesCard(ks);
  }

  /** The window keeps as many rows as there are distinct keys, and their
      keys are exactly the source's keys. */
  lemma LatestCount(keys: seq<Value>, orders: seq<Value>)
    requires |keys| == |orders|
    ensures |LatestIndices(keys, orders)| == |Elems(keys)|
    ensures Elems(KeysAt(keys, LatestIndices(keys, orders))) == Elems(keys)
  {
    CoveringCount(keys, LatestIndices(keys, orders));
  }

  // ---------------------------------------------------------------------
  // The whole extraction

  /** Every column the extraction keeps comes from the source. */
  predicate Resolved(src: Table, idCol: Name, orderCol: Name, attrs: AttributeMap) {
    idCol in src.schema && orderCol in src.schema && forall c :: c in MapKeys(attrs) ==> c in src.schema
  }

  lemma KeptResolved(src: Table, idCol: Name, orderCol: Name, attrs: AttributeMap)
    requires Resolved(src, idCol, orderCol, attrs)
    ensures forall c :: c in KeptColumns(idCol, orderCol, attrs) ==> c in src.schema
  {
  }

  /** The values of row i under the given columns, in their order. */
  function ProjectRow(t: Table, i: nat, cols: seq<Name>): (row: Row)
    requires WellFormed(t) && i < |t.rows|
    requires forall c :: c in cols ==> c in t.schema
    ensures |row| == |cols|
    ensures forall c :: 0 <= c < |cols| ==> row[c] == Cell(t, i, cols[c])
  {
    seq(|cols|, c requires 0 <= c < |cols| => Cell(t, i, cols[c]))
  }

  /** dim holds, for a choice of one latest source row per key, that row's
      values of the kept columns under their renamed names. */
  predicate Represents(src: Table, idCol: Name, orderCol: Name, attrs: AttributeMap,
                       dim: Table, chosen: seq<nat>)
    requires WellFormed(src) && Resolved(src, idCol, orderCol, attrs)
  {
    var keys := Column(src, idCol);
    var orders := Column(src, orderCol);
    var kept := KeptColumns(idCol, orderCol, attrs);
    KeptResolved(src, idCol, orderCol, attrs);
    && dim.schema == Renamed(attrs, kept)
    && |chosen| == |dim.rows|
    && (forall p :: 0 <= p < |chosen| ==> chosen[p] < |src.rows|)
    && NoDuplicates(KeysAt(keys, chosen))
    && (forall i :: 0 <= i < |keys| ==> keys[i] in KeysAt(keys, chosen))
    && (forall p :: 0 <= p < |chosen| ==> IsLatest(keys, orders, |keys|, chosen[p]))
    && (forall p :: 0 <= p < |chosen| ==> dim.rows[p] == ProjectRow(src, chosen[p], kept))
  }

  lemma SelectKeepsColumns(src: Table, cols: seq<Name>, sel: Table)
    requires WellFormed(src) && NoDuplicates(cols)
    requires Select(src, cols) == Ok(sel)
    ensures WellFormed(sel)
    ensures forall c :: c in cols ==> c in src.schema
    ensures forall c, i :: c in cols && 0 <= i < |sel.rows| ==> i < |src.rows| && Cell(sel, i, c) == Cell(src, i, c)
  {
  }

  lemma SelectKeepsColumn(src: Table, cols: seq<Name>, sel: Table, c: Name)
    requires WellFormed(src) && NoDuplicates(cols) && c in cols
    requires Select(src, cols) == Ok(sel)
    ensures WellFormed(sel) && c in src.schema
    ensures Column(sel, c) == Column(src, c)
  {
    SelectKeepsColumns(src, cols, sel);
  }

  lemma SelectKeepsRows(src: Table, cols: seq<Name>, sel: Table, kept: seq<Name>, i: nat)
    requires WellFormed(src) && NoDuplicates(cols)
    requires Select(src, cols) == Ok(sel)
    requires forall c :: c in kept ==> c in cols
    requires i < |sel.rows|
    ensures WellFormed(sel) && i < |src.rows| && forall c :: c in kept ==> c in src.schema
    ensures ProjectRow(sel, i, kept) == ProjectRow(src, i, kept)
  {
    SelectKeepsColumns(src, cols, sel);
  }

  /** `process_dimension_table` without the save: fails on the first
      referenced column the source lacks, otherwise yields one row per
      natural key holding that key's latest attribute values. */
  function ExtractDimension(src: Table, idCol: Name, orderCol: Name, attrs: AttributeMap): (r: Result<Table>)
    requires WellFormed(src)
    ensures r.Ok? <==> Resolved(src, idCol, orderCol, attrs)
    ensures r.Err? ==> r.error.MissingColumn? && r.error.column !in src.schema
                       && (r.error.column == idCol || r.error.column == orderCol || r.error.column in MapKeys(attrs))
    ensures r.Ok? ==> exists chosen :: Represents(src, idCol, orderCol, attrs, r.value, chosen)
  {
    var cols := SelectedColumns(idCol, orderCol, attrs);
    var sel :- Select(src, cols);
    SelectKeepsColumn(src, cols, sel, idCol);
    SelectKeepsColumn(src, cols, sel, orderCol);
    var chosen := LatestIndices(Column(sel, idCol), Column(sel, orderCol));
    var kept := KeptColumns(idCol, orderCol, attrs);
    var dim := Table(Renamed(attrs, kept),
                     seq(|chosen|, p requires 0 <= p < |chosen| => ProjectRow(sel, chosen[p], kept)));
    DimensionRepresents(src, idCol, orderCol, attrs, cols, sel, chosen, dim);
    Ok(dim)
  }

  lemma DimensionRepresents(src: Table, idCol: Name, orderCol: Name, attrs: AttributeMap,
                            cols: seq<Name>, sel: Table, chosen: seq<nat>, dim: Table)
    requires WellFormed(src)
    requires cols == SelectedColumns(idCol, orderCol, attrs)
    requires Select(src, cols) == Ok(sel)
    requires WellFormed(sel) && idCol in sel.schema && orderCol in sel.schema
    requires chosen == LatestIndices(Column(sel, idCol), Column(sel, orderCol))
    requires forall c :: c in KeptColumns(idCol, orderCol, attrs) ==> c in sel.schema
    requires dim == Table(Renamed(attrs, KeptColumns(idCol, orderCol, attrs)),
                          seq(|chosen|, p requires 0 <= p < |chosen| =>
                            ProjectRow(sel, chosen[p], KeptColumns(idCol, orderCol, attrs))))
    ensures Resolved(src, idCol, orderCol, attrs)
    ensures Represents(src, idCol, orderCol, attrs, dim, chosen)
  {
    SelectKeepsColumn(src, cols, sel, idCol);
    SelectKeepsColumn(src, cols, sel, orderCol);
    var kept := KeptColumns(idCol, orderCol, attrs);
    forall p | 0 <= p < |chosen|
      ensures dim.rows[p] == ProjectRow(src, chosen[p], kept)
    {
      SelectKeepsRows(src, cols, sel, kept, chosen[p]);
    }
    assert forall p :: 0 <= p < |chosen| ==> IsLatest(Column(src, idCol), Column(src, orderCol), |src.rows|, chosen[p]);
  }

  // ---------------------------------------------------------------------
  // Properties of the extracted dimension

  /** One row per natural key: the dimension has exactly as many rows as
      the source has distinct natural-key values (null counting as one). */
  lemma DimensionOneRowPerKey(src: Table, idCol: Name, orderCol: Name, attrs: AttributeMap)
    requires WellFormed(src)
    requires Resolved(src, idCol, orderCol, attrs)
    ensures ExtractDimension(src, idCol, orderCol, attrs).Ok?
    ensures idCol in src.schema
    ensures |ExtractDimension(src, idCol, orderCol, attrs).value.rows| == |Elems(Column(src, idCol))|
  {
    var dim := ExtractDimension(src, idCol, orderCol, attrs).value;
    var chosen :| Represents(src, idCol, orderCol, attrs, dim, chosen);
    CoveringCount(Column(src, idCol), chosen);
  }

  /** Recency, both ways: every dimension row is the kept-column projection
      of a latest row of its key, and every latest row of the source
      appears in the dimension. */
  lemma DimensionRowsAreLatest(src: Table, idCol: Name, orderCol: Name, attrs: AttributeMap)
    requires WellFormed(src)
    requires Resolved(src, idCol, orderCol, attrs)
    ensures ExtractDimension(src, idCol, orderCol, attrs).Ok?
    ensures forall c :: c in KeptColumns(idCol, orderCol, attrs) ==> c in src.schema
    ensures RowsAreLatest(src, idCol, orderCol, attrs, ExtractDimension(src, idCol, orderCol, attrs).value)
  {
    var dim := ExtractDimension(src, idCol, orderCol, attrs).value;
    var chosen :| Represents(src, idCol, orderCol, attrs, dim, chosen);
    RepresentsLatest(src, idCol, orderCol, attrs, dim, chosen);
  }

  /** The rows of dim are the kept-column projections of the latest source
      rows, each latest row appearing. */
  ghost predicate RowsAreLatest(src: Table, idCol: Name, orderCol: Name, attrs: AttributeMap, dim: Table)
    requires WellFormed(src) && Resolved(src, idCol, orderCol, attrs)
  {
    var keys := Column(src, idCol);
    var orders := Column(src, orderCol);
    var kept := KeptColumns(idCol, orderCol, attrs);
    KeptResolved(src, idCol, orderCol, attrs);
    && (forall i :: 0 <= i < |dim.rows| ==> ProjectsLatest(src, keys, orders, kept, dim.rows[i]))
    && (forall j :: 0 <= j < |src.rows| && IsLatest(keys, orders, |keys|, j) ==>
          ProjectRow(src, j, kept) in dim.rows)
  }

  lemma RepresentsLatest(src: Table, idCol: Name, orderCol: Name, attrs: AttributeMap, dim: Table, chosen: seq<nat>)
    requires WellFormed(src) && Resolved(src, idCol, orderCol, attrs)
    requires Represents(src, idCol, orderCol, attrs, dim, chosen)
    ensures RowsAreLatest(src, idCol, orderCol, attrs, dim)
  {
    var keys := Column(src, idCol);
    var orders := Column(src, orderCol);
    var kept := KeptColumns(idCol, orderCol, attrs);
    KeptResolved(src, idCol, orderCol, attrs);
    ChosenRowsLatest(src, keys, orders, kept, dim, chosen);
    LatestRowsChosen(src, keys, orders, kept, dim, chosen);
  }

  /** row is the kept-column projection of some latest source row. */
  ghost predicate ProjectsLatest(src: Table, keys: seq<Value>, orders: seq<Value>, kept: seq<Name>, row: Row)
    requires WellFormed(src) && |keys| == |src.rows| == |orders| && forall c :: c in kept ==> c in src.schema
  {
    exists j :: 0 <= j < |src.rows| && IsLatest(keys, orders, |keys|, j) && row == ProjectRow(src, j, kept)
  }

  /** Each row of dim projects a latest source row. */
  lemma ChosenRowsLatest(src: Table, keys: seq<Value>, orders: seq<Value>, kept: seq<Name>,
                         dim: Table, chosen: seq<nat>)
    requires WellFormed(src) && |keys| == |src.rows| == |orders| && forall c :: c in kept ==> c in src.schema
    requires |chosen| == |dim.rows|
    requires forall p :: 0 <= p < |chosen| ==> chosen[p] < |src.rows|
    requires forall p :: 0 <= p < |chosen| ==> IsLatest(keys, orders, |keys|, chosen[p])
    requires forall p :: 0 <= p < |chosen| ==> dim.rows[p] == ProjectRow(src, chosen[p], kept)
    ensures forall i :: 0 <= i < |dim.rows| ==> ProjectsLatest(src, keys, orders, kept, dim.rows[i])
  {
    forall i | 0 <= i < |dim.rows| ensures ProjectsLatest(src, keys, orders, kept, dim.rows[i]) {
      var j := chosen[i];
      assert IsLatest(keys, orders, |keys|, j) && dim.rows[i] == ProjectRow(src, j, kept);
    }
  }

  /** Each latest source row is projected by some row of dim. */
  lemma LatestRowsChosen(src: Table, keys: seq<Value>, orders: seq<Value>, kept: seq<Name>,
                         dim: Table, chosen: seq<nat>)
    requires WellFormed(src) && |keys| == |src.rows| == |orders| && forall c :: c in kept ==> c in src.schema
    requires |chosen| == |dim.rows|
    requires forall p :: 0 <= p < |chosen| ==> chosen[p] < |src.rows|
    requires forall i :: 0 <= i < |keys| ==> keys[i] in KeysAt(keys, chosen)
    requires forall p :: 0 <= p < |chosen| ==> IsLatest(keys, orders, |keys|, chosen[p])
    requires forall p :: 0 <= p < |chosen| ==> dim.rows[p] == ProjectRow(src, chosen[p], kept)
    ensures forall j :: 0 <= j < |src.rows| && IsLatest(keys, orders, |keys|, j) ==> ProjectRow(src, j, kept) in dim.rows
  {
    forall j | 0 <= j < |src.rows| && IsLatest(keys, orders, |keys|, j)
      ensures ProjectRow(src, j, kept) in dim.rows
    {
      assert keys[j] in KeysAt(keys, chosen);
      var p :| 0 <= p < |chosen| && KeysAt(keys, chosen)[p] == keys[j];
      LatestUnique(keys, orders, |keys|, chosen[p], j);
      assert dim.rows[p] == ProjectRow(src, j, kept);
    }
  }

  /** When the natural key survives the drop, the dimension's key column
      (the natural key's renamed name) holds each source key exactly once. */
  lemma DimensionKeyColumn(src: Table, idCol: Name, orderCol: Name, attrs: AttributeMap)
    requires WellFormed(src)
    requires Resolved(src, idCol, orderCol, attrs)
    requires idCol != orderCol && idCol != "rn"
    ensures ExtractDimension(src, idCol, orderCol, attrs).Ok?
    ensures idCol in src.schema && idCol in KeptColumns(idCol, orderCol, attrs)
    ensures KeyColumnExact(src, idCol, orderCol, attrs, ExtractDimension(src, idCol, orderCol, attrs).value)
  {
    var dim := ExtractDimension(src, idCol, orderCol, attrs).value;
    var chosen :| Represents(src, idCol, orderCol, attrs, dim, chosen);
    RepresentsKeyColumn(src, idCol, orderCol, attrs, dim, chosen);
  }

  /** The column of dim at the natural key's position is named after the
      renamed key and holds exactly the source's key values, each once. */
  ghost predicate KeyColumnExact(src: Table, idCol: Name, orderCol: Name, attrs: AttributeMap, dim: Table)
    requires WellFormed(src) && idCol in src.schema && idCol in KeptColumns(idCol, orderCol, attrs)
  {
    var k := IndexOf(KeptColumns(idCol, orderCol, attrs), idCol);
    && k < |dim.schema| && dim.schema[k] == RenameName(attrs, idCol)
    && (forall i :: 0 <= i < |dim.rows| ==> k < |dim.rows[i]|)
    && NoDuplicates(ColumnAt(dim, k))
    && Elems(ColumnAt(dim, k)) == Elems(Column(src, idCol))
  }

  lemma RepresentsKeyColumn(src: Table, idCol: Name, orderCol: Name, attrs: AttributeMap, dim: Table, chosen: seq<nat>)
    requires WellFormed(src) && Resolved(src, idCol, orderCol, attrs)
    requires idCol != orderCol && idCol != "rn"
    requires Represents(src, idCol, orderCol, attrs, dim, chosen)
    ensures idCol in KeptColumns(idCol, orderCol, attrs)
    ensures KeyColumnExact(src, idCol, orderCol, attrs, dim)
  {
    var keys := Column(src, idCol);
    var kept := KeptColumns(idCol, orderCol, attrs);
    var k := IndexOf(kept, idCol);
    KeptResolved(src, idCol, orderCol, attrs);
    assert ColumnAt(dim, k) == KeysAt(keys, chosen);
    CoveringCount(keys, chosen);
  }

  /** Output columns: in a chain-free dict, every mapped column other than
      the order column and "rn" appears under its target name, and every
      output column is a target name or the unmapped natural key. */
  lemma DimensionColumns(src: Table, idCol: Name, orderCol: Name, attrs: AttributeMap)
    requires WellFormed(src) && IsDict(attrs) && ChainFree(attrs)
    requires Resolved(src, idCol, orderCol, attrs)
    ensures ExtractDimension(src, idCol, orderCol, attrs).Ok?
    ensures var schema := ExtractDimension(src, idCol, orderCol, attrs).value.schema;
            && (forall i :: 0 <= i < |attrs| && attrs[i].0 != orderCol && attrs[i].0 != "rn" ==> attrs[i].1 in schema)
            && (forall c :: c in schema ==>
                  (exists i :: 0 <= i < |attrs| && attrs[i].0 != orderCol && attrs[i].0 != "rn" && attrs[i].1 == c)
                  || (c == idCol && idCol !in MapKeys(attrs) && idCol != orderCol && idCol != "rn"))
  {
    var dim := ExtractDimension(src, idCol, orderCol, attrs).value;
    var chosen :| Represents(src, idCol, orderCol, attrs, dim, chosen);
    RenamedKeptTargets(attrs, idCol, orderCol);
    RenamedKeptSources(attrs, idCol, orderCol);
  }

  /** Every kept mapped column appears under its target name. */
  lemma RenamedKeptTargets(attrs: AttributeMap, idCol: Name, orderCol: Name)
    requires IsDict(attrs) && ChainFree(attrs)
    ensures var schema := Renamed(attrs, KeptColumns(idCol, orderCol, attrs));
            forall i :: 0 <= i < |attrs| && attrs[i].0 != orderCol && attrs[i].0 != "rn" ==> attrs[i].1 in schema
  {
    var kept := KeptColumns(idCol, orderCol, attrs);
    var schema := Renamed(attrs, kept);
    forall i | 0 <= i < |attrs| && attrs[i].0 != orderCol && attrs[i].0 != "rn"
      ensures attrs[i].1 in schema
    {
      assert attrs[i].0 in MapKeys(attrs);
      var p := IndexOf(kept, attrs[i].0);
      RenameMapped(attrs, i);
      assert schema[p] == attrs[i].1;
    }
  }

  /** Every saved column name is a kept mapped column's target or the
      unmapped natural key. */
  lemma RenamedKeptSources(attrs: AttributeMap, idCol: Name, orderCol: Name)
    requires IsDict(attrs) && ChainFree(attrs)
    ensures var schema := Renamed(attrs, KeptColumns(idCol, orderCol, attrs));
            forall c :: c in schema ==>
              (exists i :: 0 <= i < |attrs| && attrs[i].0 != orderCol && attrs[i].0 != "rn" && attrs[i].1 == c)
              || (c == idCol && idCol !in MapKeys(attrs) && idCol != orderCol && idCol != "rn")
  {
    var kept := KeptColumns(idCol, orderCol, attrs);
    var schema := Renamed(attrs, kept);
    forall c | c in schema
      ensures (exists i :: 0 <= i < |attrs| && attrs[i].0 != orderCol && attrs[i].0 != "rn" && attrs[i].1 == c)
              || (c == idCol && idCol !in MapKeys(attrs) && idCol != orderCol && idCol != "rn")
    {
      var p :| 0 <= p < |kept| && schema[p] == c;
      var name := kept[p];
      if name in MapKeys(attrs) {
        var i :| 0 <= i < |attrs| && MapKeys(attrs)[i] == name;
        RenameMapped(attrs, i);
      } else {
        RenameUnmapped(attrs, name);
      }
    }
  }
}
