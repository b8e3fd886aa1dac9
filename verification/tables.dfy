/** Data frames as plain values: a schema of column names and rows of cells
    in schema order, plus the relational steps the pipeline is built from
    (select by name, column lookup, distinct). */
module Tables {
  import opened Values

  type Name = string
  type Row = seq<Value>

  datatype Table = Table(schema: seq<Name>, rows: seq<Row>)

  /** Errors the engine raises while resolving a plan against a schema. */
  datatype Error =
    | MissingColumn(column: Name)   // a referenced column does not exist
    | NotADate(column: Name)        // a date function applied to a non-date column

  datatype Result<+T> = Ok(value: T) | Err(error: Error) {
    predicate IsFailure() {
      Err?
    }

    function PropagateFailure<U>(): Result<U>
      requires Err?
    {
      Err(error)
    }

    function Extract(): T
      requires Ok?
    {
      value
    }
  }

  predicate NoDuplicates<T(==)>(s: seq<T>) {
    forall i, j :: 0 <= i < j < |s| ==> s[i] != s[j]
  }

  function Elems<T>(s: seq<T>): set<T> {
    set x | x in s
  }

  /** A table as a database load yields it: distinct column names, every row
      exactly as wide as the schema. */
  predicate WellFormed(t: Table) {
    && NoDuplicates(t.schema)
    && forall i :: 0 <= i < |t.rows| ==> |t.rows[i]| == |t.schema|
  }

  /** Position of the (first) column with the given name. */
  function IndexOf(s: seq<Name>, n: Name): (i: nat)
    requires n in s
    ensures i < |s| && s[i] == n
    ensures forall j :: 0 <= j < i ==> s[j] != n
  {
    if s[0] == n then 0 else 1 + IndexOf(s[1..], n)
  }

  /** The value of row i under column name c. */
  function Cell(t: Table, i: nat, c: Name): Value
    requires WellFormed(t) && i < |t.rows| && c in t.schema
  {
    t.rows[i][IndexOf(t.schema, c)]
  }

  /** All values of column c, one per row, in row order. */
  function Column(t: Table, c: Name): (vs: seq<Value>)
    requires WellFormed(t) && c in t.schema
    ensures |vs| == |t.rows|
    ensures forall i :: 0 <= i < |t.rows| ==> vs[i] == Cell(t, i, c)
  {
    seq(|t.rows|, i requires 0 <= i < |t.rows| => Cell(t, i, c))
  }

  /** The values at position k of every row, in row order (null where a
      row is too short). */
  function ColumnAt(t: Table, k: nat): (vs: seq<Value>)
    ensures |vs| == |t.rows|
    ensures forall i :: 0 <= i < |t.rows| && k < |t.rows[i]| ==> vs[i] == t.rows[i][k]
  {
    seq(|t.rows|, i requires 0 <= i < |t.rows| => if k < |t.rows[i]| then t.rows[i][k] else Null)
  }

  /** The first name of cols that the schema lacks, if any. */
  function FirstMissing(schema: seq<Name>, cols: seq<Name>): (r: Option<Name>)
    ensures r.None? <==> forall c :: c in cols ==> c in schema
    ensures r.Some? ==> r.value in cols && r.value !in schema
  {
    if |cols| == 0 then None
    else if cols[0] !in schema then Some(cols[0])
    else FirstMissing(schema, cols[1..])
  }

  /** `select(*cols)`: keeps the named columns in the given order and fails
      with the first name the schema lacks. */
  function Select(t: Table, cols: seq<Name>): (r: Result<Table>)
    requires WellFormed(t)
    ensures r.Ok? <==> forall c :: c in cols ==> c in t.schema
    ensures r.Err? ==> r.error.MissingColumn? && r.error.column in cols && r.error.column !in t.schema
    ensures r.Ok? ==> r.value.schema == cols && |r.value.rows| == |t.rows|
    ensures r.Ok? ==> forall i :: 0 <= i < |t.rows| ==> |r.value.rows[i]| == |cols|
    ensures r.Ok? ==> forall i, j :: 0 <= i < |t.rows| && 0 <= j < |cols| ==> r.value.rows[i][j] == Cell(t, i, cols[j])
    ensures r.Ok? && NoDuplicates(cols) ==> WellFormed(r.value)
  {
    match FirstMissing(t.schema, cols)
    case Some(c) => Err(MissingColumn(c))
    case None =>
      Ok(Table(cols, seq(|t.rows|, i requires 0 <= i < |t.rows| =>
                       seq(|cols|, j requires 0 <= j < |cols| => Cell(t, i, cols[j])))))
  }

  /** `distinct()` on one column: the first occurrence of every value, in order. */
  function Dedup<T(==,!new)>(s: seq<T>): (r: seq<T>)
    ensures NoDuplicates(r)
    ensures forall x :: x in r <==> x in s
    ensures |r| <= |s|
    decreases |s|
  {
    if |s| == 0 then []
    else
      var rest := Dedup(s[..|s| - 1]);
      if s[|s| - 1] in rest then rest else rest + [s[|s| - 1]]
  }

  /** A sequence without duplicates has as many elements as its set. */
  lemma {:induction false} NoDuplicatesCard<T>(s: seq<T>)
    requires NoDuplicates(s)
    ensures |Elems(s)| == |s|
    decreases |s|
  {
    if |s| > 0 {
      var last := s[|s| - 1];
      var init := s[..|s| - 1];
      NoDuplicatesCard(init);
      assert Elems(s) == Elems(init) + {last};
      assert last !in Elems(init);
    }
  }
}
