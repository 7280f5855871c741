/**
 The slice of pandas the importer uses, on an abstract table: a list of
 column labels plus rows, each row a map from label to cell. A cell is a
 missing value (NaN), a measured value of the abstract type `V`, or a
 text label (the `file` column).
 */
module Tables {
  import opened Strings
  import opened Sorting

  datatype Cell<V> = Missing | Num(v: V) | Text(s: string)

  type Row<V> = map<string, Cell<V>>

  datatype Table<V> = Table(columns: seq<string>, rows: seq<Row<V>>)

  function ColumnSet<V>(t: Table<V>): set<string>
  {
    set c | c in t.columns
  }

  /** Every row has a cell for exactly the table's columns. */
  predicate Shaped<V>(t: Table<V>)
  {
    forall i :: 0 <= i < |t.rows| ==> t.rows[i].Keys == ColumnSet(t)
  }

  /** A frame with unique column labels. */
  predicate WellFormed<V>(t: Table<V>)
  {
    Distinct(t.columns) && Shaped(t)
  }

  predicate NoMissing<V>(t: Table<V>)
  {
    forall i, c :: 0 <= i < |t.rows| && c in t.rows[i] ==> !t.rows[i][c].Missing?
  }

  /* ---------------------------------------------------------------------
     fillna and column assignment
     --------------------------------------------------------------------- */

  function FillCell<V>(c: Cell<V>, zero: V): Cell<V>
  {
    if c.Missing? then Num(zero) else c
  }

  /** `DataFrame.fillna(0)`: every missing cell becomes zero, every other
      cell and the shape stay as they are. */
  function FillNa<V>(t: Table<V>, zero: V): (r: Table<V>)
    ensures r.columns == t.columns && |r.rows| == |t.rows|
    ensures NoMissing(r)
    ensures forall i :: 0 <= i < |t.rows| ==> r.rows[i].Keys == t.rows[i].Keys
    ensures forall i, c :: 0 <= i < |t.rows| && c in t.rows[i] && !t.rows[i][c].Missing? ==> r.rows[i][c] == t.rows[i][c]
    ensures forall i, c :: 0 <= i < |t.rows| && c in t.rows[i] && t.rows[i][c].Missing? ==> r.rows[i][c] == Num(zero)
  {
    Table(t.columns, seq(|t.rows|, i requires 0 <= i < |t.rows| => map c | c in t.rows[i] :: FillCell(t.rows[i][c], zero)))
  }

  /** Filling twice is filling once. */
  lemma FillNaIdempotent<V>(t: Table<V>, zero: V)
    ensures FillNa(FillNa(t, zero), zero) == FillNa(t, zero)
  {
    var once := FillNa(t, zero);
    var twice := FillNa(once, zero);
    forall i | 0 <= i < |once.rows| ensures twice.rows[i] == once.rows[i] {
    }
  }

  /** `df[name] = value`: a new column at the end (or the existing one
      overwritten in place) holding `value` in every row. */
  function SetColumn<V>(t: Table<V>, name: string, value: Cell<V>): (r: Table<V>)
    requires WellFormed(t)
    ensures WellFormed(r)
    ensures ColumnSet(r) == ColumnSet(t) + {name}
    ensures |t.columns| <= |r.columns| && r.columns[..|t.columns|] == t.columns
    ensures |r.rows| == |t.rows|
    ensures forall i :: 0 <= i < |r.rows| ==> r.rows[i][name] == value
    ensures forall i, c :: 0 <= i < |t.rows| && c in t.rows[i] && c != name ==> r.rows[i][c] == t.rows[i][c]
  {
    var cols := if name in t.columns then t.columns else t.columns + [name];
    assert ColumnSet(Table(cols, t.rows)) == ColumnSet(t) + {name};
    Table(cols, seq(|t.rows|, i requires 0 <= i < |t.rows| => t.rows[i][name := value]))
  }

  /* ---------------------------------------------------------------------
     pd.concat
     --------------------------------------------------------------------- */

  predicate InSome<V>(tables: seq<Table<V>>, c: string)
  {
    exists i :: 0 <= i < |tables| && c in tables[i].columns
  }

  predicate InAll<V>(tables: seq<Table<V>>, c: string)
  {
    forall i :: 0 <= i < |tables| ==> c in tables[i].columns
  }

  /** `acc` followed by the labels of `cols` it does not hold yet. */
  function AppendNew(acc: seq<string>, cols: seq<string>): (r: seq<string>)
    requires Distinct(acc)
    ensures Distinct(r)
    ensures forall c :: c in r <==> c in acc || c in cols
    ensures |acc| <= |r| && r[..|acc|] == acc
    decreases |cols|
  {
    if |cols| == 0 then acc
    else
      var next := if cols[0] in acc then acc else acc + [cols[0]];
      assert next[..|acc|] == acc;
      var r := AppendNew(next, cols[1..]);
      assert r[..|acc|] == r[..|next|][..|acc|];
      assert forall c :: c in cols <==> c == cols[0] || c in cols[1..] by {
        assert cols == [cols[0]] + cols[1..];
      }
      r
  }

  lemma AppendHead(acc: seq<string>, cols: seq<string>)
    requires |cols| > 0
    ensures (acc + [cols[0]]) + cols[1..] == acc + cols
  {
    assert cols == [cols[0]] + cols[1..];
  }

  /** Appending labels that are new and without repetition appends them
      all. */
  lemma {:induction false} AppendNewFresh(acc: seq<string>, cols: seq<string>)
    requires Distinct(acc) && Distinct(cols)
    requires forall c :: c in cols ==> c !in acc
    ensures AppendNew(acc, cols) == acc + cols
    decreases |cols|
  {
    if |cols| > 0 {
      var next := acc + [cols[0]];
      assert cols[0] !in acc;
      assert Distinct(next);
      assert forall c :: c in cols[1..] ==> c !in next by {
        forall c | c in cols[1..] ensures c !in next {
          var k :| 0 <= k < |cols[1..]| && cols[1..][k] == c;
          assert cols[k + 1] == c;
        }
      }
      assert Distinct(cols[1..]) by {
        forall a, b | 0 <= a < b < |cols[1..]| ensures cols[1..][a] != cols[1..][b] {
          assert cols[1..][a] == cols[a + 1] && cols[1..][b] == cols[b + 1];
        }
      }
      AppendNewFresh(next, cols[1..]);
      AppendHead(acc, cols);
    }
  }

  function UnionFrom<V>(acc: seq<string>, tables: seq<Table<V>>): (r: seq<string>)
    requires Distinct(acc)
    ensures Distinct(r)
    ensures forall c :: c in r <==> c in acc || InSome(tables, c)
    ensures |acc| <= |r| && r[..|acc|] == acc
    decreases |tables|
  {
    if |tables| == 0 then acc
    else
      var next := AppendNew(acc, tables[0].columns);
      var r := UnionFrom(next, tables[1..]);
      assert r[..|acc|] == r[..|next|][..|acc|];
      forall c ensures InSome(tables, c) <==> c in tables[0].columns || InSome(tables[1..], c) {
        if InSome(tables, c) {
          var i :| 0 <= i < |tables| && c in tables[i].columns;
          if i > 0 { assert tables[1..][i - 1] == tables[i]; }
        }
        if InSome(tables[1..], c) {
          var i :| 0 <= i < |tables[1..]| && c in tables[1..][i].columns;
          assert tables[i + 1] == tables[1..][i];
        }
      }
      r
  }

  /** The columns of an outer join: every label of every table, once,
      with the first table's labels leading in its own order. */
  function UnionColumns<V>(tables: seq<Table<V>>): (r: seq<string>)
    ensures Distinct(r)
    ensures forall c :: c in r <==> InSome(tables, c)
    ensures |tables| > 0 && Distinct(tables[0].columns) ==>
      |tables[0].columns| <= |r| && r[..|tables[0].columns|] == tables[0].columns
  {
    if |tables| > 0 && Distinct(tables[0].columns) then
      AppendNewFresh([], tables[0].columns);
      assert [] + tables[0].columns == tables[0].columns;
      UnionFrom([], tables)
    else UnionFrom([], tables)
  }

  /** The columns of an inner join: the labels of the first table that
      every table has, in the first table's order. */
  function IntersectColumns<V>(tables: seq<Table<V>>): (r: seq<string>)
    requires |tables| > 0
    requires Distinct(tables[0].columns)
    ensures Distinct(r)
    ensures forall c :: c in r <==> InAll(tables, c)
  {
    FilterDistinct(tables[0].columns, c => InAll(tables, c));
    Filter(tables[0].columns, c => InAll(tables, c))
  }

  /** A row re-indexed to the joined columns: absent labels become NaN. */
  function AlignRow<V>(row: Row<V>, cols: set<string>): Row<V>
  {
    map c | c in cols :: if c in row then row[c] else Missing
  }

  function TotalRows<V>(tables: seq<Table<V>>): nat
  {
    if |tables| == 0 then 0 else |tables[0].rows| + TotalRows(tables[1..])
  }

  /** Number of rows that the tables before `tables[i]` contribute. */
  function Offset<V>(tables: seq<Table<V>>, i: nat): nat
    requires i <= |tables|
  {
    if i == 0 then 0 else |tables[0].rows| + Offset(tables[1..], i - 1)
  }

  function ConcatRows<V>(tables: seq<Table<V>>, cols: set<string>): (r: seq<Row<V>>)
    ensures |r| == TotalRows(tables)
    ensures forall k :: 0 <= k < |r| ==> r[k].Keys == cols
  {
    if |tables| == 0 then []
    else
      var rows := tables[0].rows;
      seq(|rows|, j requires 0 <= j < |rows| => AlignRow(rows[j], cols)) + ConcatRows(tables[1..], cols)
  }

  /** Row `j` of table `i` lands at position `Offset(tables, i) + j`. */
  lemma {:induction false} ConcatRowAt<V>(tables: seq<Table<V>>, cols: set<string>, i: nat, j: nat)
    requires i < |tables| && j < |tables[i].rows|
    ensures Offset(tables, i) + j < TotalRows(tables)
    ensures ConcatRows(tables, cols)[Offset(tables, i) + j] == AlignRow(tables[i].rows[j], cols)
    decreases i
  {
    if i > 0 {
      assert tables[1..][i - 1] == tables[i];
      ConcatRowAt(tables[1..], cols, i - 1, j);
    }
  }

  /** `pd.concat(tables, join=...)`: rows of every table in order; the
      columns are the union (outer join) or the intersection (inner join)
      of the tables' columns, and a cell a table lacks is NaN. */
  function Concat<V>(tables: seq<Table<V>>, outer: bool): (r: Table<V>)
    requires |tables| > 0
    requires forall i :: 0 <= i < |tables| ==> WellFormed(tables[i])
    ensures WellFormed(r)
    ensures forall c :: c in r.columns <==> if outer then InSome(tables, c) else InAll(tables, c)
    ensures |r.rows| == TotalRows(tables)
  {
    assert WellFormed(tables[0]);
    var cols := if outer then UnionColumns(tables) else IntersectColumns(tables);
    Table(cols, ConcatRows(tables, set c | c in cols))
  }

  /** Row `j` of `tables[i]` is row `Offset(tables, i) + j` of the
      concatenation, re-indexed to the joined columns. */
  lemma ConcatRowOf<V>(tables: seq<Table<V>>, outer: bool, i: nat, j: nat)
    requires |tables| > 0
    requires forall k :: 0 <= k < |tables| ==> WellFormed(tables[k])
    requires i < |tables| && j < |tables[i].rows|
    ensures Offset(tables, i) + j < |Concat(tables, outer).rows|
    ensures Concat(tables, outer).rows[Offset(tables, i) + j] == AlignRow(tables[i].rows[j], ColumnSet(Concat(tables, outer)))
  {
    var r := Concat(tables, outer);
    ConcatRowAt(tables, ColumnSet(r), i, j);
  }

  /* ---------------------------------------------------------------------
     Column order, selection and removal
     --------------------------------------------------------------------- */

  /** Strictly ascending labels. */
  predicate Ascending(cols: seq<string>)
  {
    SortedBy(cols, Id)
  }

  /** `df.reindex(sorted(df.columns), axis=1)`: the same columns in
      ascending order; rows are untouched. */
  function SortColumns<V>(t: Table<V>): (r: Table<V>)
    requires Distinct(t.columns)
    ensures Ascending(r.columns) && Distinct(r.columns)
    ensures multiset(r.columns) == multiset(t.columns)
    ensures ColumnSet(r) == ColumnSet(t)
    ensures r.rows == t.rows
  {
    var cols := SortBy(t.columns, Id);
    SortedDistinct(cols, Id);
    forall c ensures c in cols <==> c in t.columns {
      assert c in cols <==> c in multiset(cols);
      assert c in t.columns <==> c in multiset(t.columns);
    }
    Table(cols, t.rows)
  }

  function RestrictRow<V>(row: Row<V>, keep: set<string>): Row<V>
  {
    map c | c in row && c in keep :: row[c]
  }

  /** `df[cols]`: the listed columns, in list order (a repeated label is
      repeated); each row keeps only their cells. Every label must exist. */
  function Select<V>(t: Table<V>, cols: seq<string>): (r: Table<V>)
    requires forall c :: c in cols ==> c in ColumnSet(t)
    ensures r.columns == cols
    ensures Shaped(t) ==> Shaped(r)
    ensures |r.rows| == |t.rows|
    ensures forall i, c :: 0 <= i < |r.rows| && c in r.rows[i] ==> c in cols && c in t.rows[i] && r.rows[i][c] == t.rows[i][c]
  {
    var keep := set c | c in cols;
    Table(cols, seq(|t.rows|, i requires 0 <= i < |t.rows| => RestrictRow(t.rows[i], keep)))
  }

  /** `df.drop(columns=cols)`: the other columns, in their order; each row
      loses the dropped cells. Every label must exist. */
  function Drop<V>(t: Table<V>, cols: seq<string>): (r: Table<V>)
    requires forall c :: c in cols ==> c in ColumnSet(t)
    ensures IsSubsequence(r.columns, t.columns)
    ensures forall c :: c in r.columns <==> c in t.columns && c !in cols
    ensures Distinct(t.columns) ==> Distinct(r.columns)
    ensures Shaped(t) ==> Shaped(r)
    ensures |r.rows| == |t.rows|
    ensures forall i, c :: 0 <= i < |r.rows| && c in r.rows[i] ==> c !in cols && c in t.rows[i] && r.rows[i][c] == t.rows[i][c]
  {
    var keep := c => c !in cols;
    var kept := Filter(t.columns, keep);
    FilterDistinct(t.columns, keep);
    var keepSet := set c | c in kept;
    Table(kept, seq(|t.rows|, i requires 0 <= i < |t.rows| => RestrictRow(t.rows[i], keepSet)))
  }

  /* ---------------------------------------------------------------------
     Constant-column removal of the feature-engineering branch
     --------------------------------------------------------------------- */

  /** `df[c].unique()`: the distinct cells of column `c` (NaN counts as one
      value). */
  function DistinctValues<V(==)>(t: Table<V>, c: string): set<Cell<V>>
  {
    set i | 0 <= i < |t.rows| && c in t.rows[i] :: t.rows[i][c]
  }

  /** A column is dropped when it holds at most one distinct value, unless
      it is `file` or its label starts with `I_`. */
  predicate Uninformative<V(==)>(t: Table<V>, c: string)
  {
    |DistinctValues(t, c)| <= 1 && c != "file" && !StartsWith(c, "I_")
  }

  /** The drop of single-valued columns: exactly the uninformative columns
      go, the others keep their order and every cell. */
  function DropConstantColumns<V(==)>(t: Table<V>): (r: Table<V>)
    requires WellFormed(t)
    ensures WellFormed(r)
    ensures IsSubsequence(r.columns, t.columns)
    ensures forall c :: c in r.columns <==> c in t.columns && !Uninformative(t, c)
    ensures |r.rows| == |t.rows|
    ensures forall i, c :: 0 <= i < |r.rows| && c in r.columns ==> c in t.rows[i] && r.rows[i][c] == t.rows[i][c]
  {
    var drop := Filter(t.columns, c => Uninformative(t, c));
    if |drop| > 0 then Drop(t, drop)
    else
      SubsequenceReflexive(t.columns);
      assert forall c :: c !in drop;
      t
  }

}
