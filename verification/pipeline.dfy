/**
 The column and row logic of `Data.__load_files` and the entry point
 `Data.import_data`: tag every session table with its key, guard against
 too little data, join the sessions (outer or inner), fill and sort, and
 split the result into target and feature columns; or, with feature
 engineering, outer-join and drop the single-valued columns other than
 `file` and the `I_` columns.

 The per-session table that asammdf stacks and resamples is an input,
 one per entry of the file dictionary, in the dictionary's order.
 */
module Pipeline {
  import opened Options
  import opened Strings
  import opened Sorting
  import opened FileGrouping
  import opened Signals
  import opened Tables

  /** What `__load_files` hands back. */
  datatype LoadResult<V> =
    | InsufficientData                                // the bare `None` of the guard
    | ConcatFailed                                    // `pd.concat([])` raises
    | Engineered(table: Table<V>)                     // feature engineering: one frame
    | NoTarget                                        // `(None, None)`
    | Split(target: Table<V>, features: Table<V>)     // `(df_target, df_features)`

  /** Label of the column that records the session key. */
  const FileColumn := "file"

  /* ---------------------------------------------------------------------
     One table per session
     --------------------------------------------------------------------- */

  /** A session's stacked table as it enters the join: without feature
      engineering NaN is replaced by zero first; then `file` is set to the
      session key in every row. */
  function Tag<V>(raw: Table<V>, key: string, engineered: bool, zero: V): (r: Table<V>)
    requires WellFormed(raw)
    ensures WellFormed(r)
    ensures ColumnSet(r) == ColumnSet(raw) + {FileColumn}
    ensures |r.rows| == |raw.rows|
    ensures forall j :: 0 <= j < |r.rows| ==> FileColumn in r.rows[j] && r.rows[j][FileColumn] == Text(key)
    ensures !engineered ==> NoMissing(r)
    ensures forall j, c :: 0 <= j < |raw.rows| && c in raw.rows[j] && c != FileColumn ==>
      c in r.rows[j] && r.rows[j][c] == if engineered then raw.rows[j][c] else FillCell(raw.rows[j][c], zero)
  {
    if engineered then SetColumn(raw, FileColumn, Text(key))
    else
      var filled := FillNa(raw, zero);
      assert WellFormed(filled);
      var r := SetColumn(filled, FileColumn, Text(key));
      forall j, c | 0 <= j < |r.rows| && c in r.rows[j] ensures !r.rows[j][c].Missing? {
        assert c in ColumnSet(r);
        if c != FileColumn {
          assert c in filled.rows[j];
        }
      }
      r
  }

  /** The tables of `__load_files`'s loop: entry `i` of the dictionary
      gives table `i`. */
  function Sessions<V>(d: FileDict, raw: seq<Table<V>>, engineered: bool, zero: V): (r: seq<Table<V>>)
    requires |raw| == |d|
    requires forall i :: 0 <= i < |raw| ==> WellFormed(raw[i])
    ensures |r| == |d|
    ensures forall i :: 0 <= i < |r| ==> WellFormed(r[i]) && ColumnSet(r[i]) == ColumnSet(raw[i]) + {FileColumn}
    ensures forall i :: 0 <= i < |r| ==> |r[i].rows| == |raw[i].rows|
    ensures forall i, j :: 0 <= i < |r| && 0 <= j < |r[i].rows| ==> FileColumn in r[i].rows[j] && r[i].rows[j][FileColumn] == Text(d[i].key)
    ensures !engineered ==> forall i :: 0 <= i < |r| ==> NoMissing(r[i])
    ensures forall i, j, c :: 0 <= i < |r| && 0 <= j < |raw[i].rows| && c in raw[i].rows[j] && c != FileColumn ==>
      c in r[i].rows[j] && r[i].rows[j][c] == if engineered then raw[i].rows[j][c] else FillCell(raw[i].rows[j][c], zero)
  {
    seq(|d|, i requires 0 <= i < |d| => Tag(raw[i], d[i].key, engineered, zero))
  }

  /** Tables that each add `file` to a stacked table's labels: a label
      is in some of them exactly when it is `file` or in some stacked
      table; likewise for every table. */
  lemma TaggedColumns<V>(s: seq<Table<V>>, raw: seq<Table<V>>, c: string)
    requires |s| == |raw|
    requires forall i :: 0 <= i < |s| ==> ColumnSet(s[i]) == ColumnSet(raw[i]) + {FileColumn}
    ensures InSome(s, c) <==> (|s| > 0 && c == FileColumn) || InSome(raw, c)
    ensures InAll(s, c) <==> c == FileColumn || InAll(raw, c)
  {
    assert forall i :: 0 <= i < |s| ==> (c in s[i].columns <==> c in ColumnSet(s[i]));
    assert forall i :: 0 <= i < |s| ==> (c in raw[i].columns <==> c in ColumnSet(raw[i]));
    if |s| > 0 && c == FileColumn {
      assert c in s[0].columns;
    }
  }

  /** The session tables' labels in terms of the stacked tables'. */
  lemma SessionColumns<V>(d: FileDict, raw: seq<Table<V>>, engineered: bool, zero: V, c: string)
    requires |raw| == |d|
    requires forall i :: 0 <= i < |raw| ==> WellFormed(raw[i])
    ensures InSome(Sessions(d, raw, engineered, zero), c) <==> (|d| > 0 && c == FileColumn) || InSome(raw, c)
    ensures InAll(Sessions(d, raw, engineered, zero), c) <==> c == FileColumn || InAll(raw, c)
  {
    TaggedColumns(Sessions(d, raw, engineered, zero), raw, c);
  }

  /** The labels of the default branch's combined table, in terms of the
      stacked tables: `file` plus the labels some (outer join) or every
      (inner join) stacked table has. */
  predicate Joined<V>(raw: seq<Table<V>>, outer: bool, c: string)
  {
    c == FileColumn || if outer then InSome(raw, c) else InAll(raw, c)
  }

  /** `Joined` as a condition for filtering a signal list. */
  function JoinedIn<V>(raw: seq<Table<V>>, outer: bool): string -> bool
  {
    c => Joined(raw, outer, c)
  }

  /** `accumulated_signal_names`: every label of every session table. */
  function Accumulated<V>(sessions: seq<Table<V>>): (r: set<string>)
    ensures forall c :: c in r <==> InSome(sessions, c)
  {
    set i, c | 0 <= i < |sessions| && c in sessions[i].columns :: c
  }

  /* ---------------------------------------------------------------------
     Default branch: join, fill, sort
     --------------------------------------------------------------------- */

  /** `pd.concat(dataframes, join=...)`, `fillna(0)` and the alphabetical
      `reindex` of the default branch. */
  function Combine<V>(sessions: seq<Table<V>>, outer: bool, zero: V): (r: Table<V>)
    requires |sessions| > 0
    requires forall i :: 0 <= i < |sessions| ==> WellFormed(sessions[i])
    ensures WellFormed(r) && NoMissing(r) && Ascending(r.columns)
    ensures forall c :: c in r.columns <==> if outer then InSome(sessions, c) else InAll(sessions, c)
    ensures |r.rows| == TotalRows(sessions)
  {
    var joined := Concat(sessions, outer);
    var filled := FillNa(joined, zero);
    assert WellFormed(filled);
    var r := SortColumns(filled);
    assert forall c :: c in r.columns <==> c in ColumnSet(r);
    assert forall c :: c in filled.columns <==> c in ColumnSet(filled);
    r
  }

  /** Row `j` of session `i` is row `Offset(sessions, i) + j` of the
      combined table: in each combined column `c`, a cell the session has
      is copied (NaN as zero), a column it lacks reads zero. */
  lemma CombinedCell<V>(sessions: seq<Table<V>>, outer: bool, zero: V, i: nat, j: nat, c: string)
    requires |sessions| > 0
    requires forall k :: 0 <= k < |sessions| ==> WellFormed(sessions[k])
    requires i < |sessions| && j < |sessions[i].rows|
    requires c in Combine(sessions, outer, zero).columns
    ensures Offset(sessions, i) + j < |Combine(sessions, outer, zero).rows|
    ensures c in Combine(sessions, outer, zero).rows[Offset(sessions, i) + j]
    ensures Combine(sessions, outer, zero).rows[Offset(sessions, i) + j][c] ==
      if c in sessions[i].rows[j] then FillCell(sessions[i].rows[j][c], zero) else Num(zero)
  {
    var joined := Concat(sessions, outer);
    var t := Combine(sessions, outer, zero);
    assert t.rows == FillNa(joined, zero).rows;
    assert c in joined.columns by {
      assert c in ColumnSet(t);
      assert ColumnSet(t) == ColumnSet(FillNa(joined, zero));
    }
    FilledJoinCell(sessions, outer, zero, i, j, c);
  }

  /** The same cell before the columns are sorted. */
  lemma FilledJoinCell<V>(sessions: seq<Table<V>>, outer: bool, zero: V, i: nat, j: nat, c: string)
    requires |sessions| > 0
    requires forall k :: 0 <= k < |sessions| ==> WellFormed(sessions[k])
    requires i < |sessions| && j < |sessions[i].rows|
    requires c in Concat(sessions, outer).columns
    ensures var t := FillNa(Concat(sessions, outer), zero);
      var k := Offset(sessions, i) + j;
      var row := sessions[i].rows[j];
      && k < |t.rows|
      && c in t.rows[k]
      && t.rows[k][c] == if c in row then FillCell(row[c], zero) else Num(zero)
  {
    ConcatRowOf(sessions, outer, i, j);
    var joined := Concat(sessions, outer);
    var k := Offset(sessions, i) + j;
    assert c in ColumnSet(joined);
    assert c in joined.rows[k];
  }

  /** `file` is in every session table, so it survives either join. */
  lemma FileSurvivesJoin<V>(d: FileDict, raw: seq<Table<V>>, outer: bool, zero: V)
    requires |d| > 0 && |raw| == |d|
    requires forall i :: 0 <= i < |raw| ==> WellFormed(raw[i])
    ensures FileColumn in Combine(Sessions(d, raw, false, zero), outer, zero).columns
  {
    SessionColumns(d, raw, false, zero, FileColumn);
  }

  /** Number of rows before session `i` grows by at least session `i`'s
      rows before any later session. */
  lemma {:induction false} OffsetMonotone<V>(tables: seq<Table<V>>, i: nat, i2: nat)
    requires i < i2 <= |tables|
    ensures Offset(tables, i) + |tables[i].rows| <= Offset(tables, i2)
    decreases i
  {
    if i > 0 {
      assert tables[1..][i - 1] == tables[i];
      OffsetMonotone(tables[1..], i - 1, i2 - 1);
    }
  }

  /** Every row of a concatenation comes from exactly one table. */
  lemma {:induction false} LocateRow<V>(tables: seq<Table<V>>, k: nat) returns (i: nat, j: nat)
    requires k < TotalRows(tables)
    ensures i < |tables| && j < |tables[i].rows| && k == Offset(tables, i) + j
    decreases |tables|
  {
    if k < |tables[0].rows| {
      i, j := 0, k;
    } else {
      var i', j' := LocateRow(tables[1..], k - |tables[0].rows|);
      assert tables[1..][i'] == tables[i' + 1];
      i, j := i' + 1, j';
    }
  }

  /** `a <= b` on Python strings. */
  predicate LessOrEqual(a: string, b: string)
  {
    a == b || Less(a, b)
  }

  /** Row `k` of the combined table is row `j` of some session `i`; its
      `file` cell is that row's, with NaN read as zero. */
  lemma FileOfRow<V>(sessions: seq<Table<V>>, outer: bool, zero: V, k: nat) returns (i: nat, j: nat)
    requires |sessions| > 0
    requires forall i :: 0 <= i < |sessions| ==> WellFormed(sessions[i])
    requires FileColumn in Combine(sessions, outer, zero).columns
    requires k < |Combine(sessions, outer, zero).rows|
    ensures i < |sessions| && j < |sessions[i].rows| && k == Offset(sessions, i) + j
    ensures var t := Combine(sessions, outer, zero);
      && FileColumn in t.rows[k]
      && (FileColumn in sessions[i].rows[j] ==> t.rows[k][FileColumn] == FillCell(sessions[i].rows[j][FileColumn], zero))
  {
    i, j := LocateRow(sessions, k);
    CombinedCell(sessions, outer, zero, i, j, FileColumn);
  }

  /** The rows of the combined table are the sessions' rows in ascending
      key order: reading down the `file` column never goes back. */
  lemma RowsInKeyOrder<V>(d: FileDict, raw: seq<Table<V>>, outer: bool, zero: V, k1: nat, k2: nat)
    requires |d| > 0 && |raw| == |d|
    requires forall i :: 0 <= i < |raw| ==> WellFormed(raw[i])
    requires SortedBy(d, EntryKey)
    requires k1 < k2 < |Combine(Sessions(d, raw, false, zero), outer, zero).rows|
    ensures var t := Combine(Sessions(d, raw, false, zero), outer, zero);
      && FileColumn in t.rows[k1] && t.rows[k1][FileColumn].Text?
      && FileColumn in t.rows[k2] && t.rows[k2][FileColumn].Text?
      && LessOrEqual(t.rows[k1][FileColumn].s, t.rows[k2][FileColumn].s)
  {
    var s := Sessions(d, raw, false, zero);
    FileSurvivesJoin(d, raw, outer, zero);
    var i1, j1 := FileOfRow(s, outer, zero, k1);
    var i2, j2 := FileOfRow(s, outer, zero, k2);
    if i2 < i1 {
      OffsetMonotone(s, i2, i1);
    }
    assert i1 == i2 || Less(EntryKey(d[i1]), EntryKey(d[i2]));
  }

  /* ---------------------------------------------------------------------
     Target / feature split
     --------------------------------------------------------------------- */

  lemma {:induction false} AscendingSubsequence(r: seq<string>, s: seq<string>)
    requires IsSubsequence(r, s) && Ascending(s)
    ensures Ascending(r)
    decreases |s|
  {
    if |r| > 0 {
      var tail := s[1..];
      assert Ascending(tail) by {
        forall a, b | 0 <= a < b < |tail| ensures Less(tail[a], tail[b]) {
          assert tail[a] == s[a + 1] && tail[b] == s[b + 1];
        }
      }
      if r[0] == s[0] {
        AscendingSubsequence(r[1..], tail);
        SubsequenceMultiset(r[1..], tail);
        forall b | 0 < b < |r| ensures Less(r[0], r[b]) {
          assert r[b] == r[1..][b - 1];
          assert r[b] in multiset(tail);
          var q :| 0 <= q < |tail| && tail[q] == r[b];
          assert s[q + 1] == r[b];
        }
      } else {
        AscendingSubsequence(r, tail);
      }
    }
  }

  /** The end of the default branch: the listed signals present in the
      table are the targets, in list order; everything else but `file` is
      a feature; with no listed signal present there is no result. */
  function SplitTarget<V>(t: Table<V>, signals: seq<string>): (r: LoadResult<V>)
    requires WellFormed(t) && FileColumn in t.columns
    ensures r.NoTarget? || r.Split?
    ensures r.NoTarget? <==> forall c :: c in signals ==> c !in t.columns
    ensures r.Split? ==>
      && IsSubsequence(r.target.columns, signals)
      && (forall c :: multiset(r.target.columns)[c] == if c in t.columns then multiset(signals)[c] else 0)
      && IsSubsequence(r.features.columns, t.columns)
      && (forall c :: c in r.features.columns <==> c in t.columns && c !in signals && c != FileColumn)
      && (forall c :: c in t.columns <==> c in r.target.columns || c in r.features.columns || c == FileColumn)
      && (forall c :: c in r.target.columns ==> c !in r.features.columns)
      && (Ascending(t.columns) ==> Ascending(r.features.columns))
      && WellFormed(r.features)
  {
    var present := Filter(signals, c => c in t.columns);
    if |present| == 0 then
      assert forall c :: c in signals ==> c !in t.columns;
      NoTarget
    else
      assert forall c :: c in present ==> c in ColumnSet(t);
      var target := Select(t, present);
      var features := Drop(t, present + [FileColumn]);
      assert forall c :: c in present + [FileColumn] <==> c in present || c == FileColumn;
      assert Ascending(t.columns) ==> Ascending(features.columns) by {
        if Ascending(t.columns) {
          AscendingSubsequence(features.columns, t.columns);
        }
      }
      Split(target, features)
  }

  /** The target columns are determined by the signal list and the
      table's labels alone: they are the filter of the list. */
  lemma SplitTargetColumns<V>(t: Table<V>, signals: seq<string>)
    requires WellFormed(t) && FileColumn in t.columns
    requires SplitTarget(t, signals).Split?
    ensures SplitTarget(t, signals).target.columns == Filter(signals, c => c in t.columns)
  {
    var r := SplitTarget(t, signals);
    FilterDetermined(r.target.columns, signals, c => c in t.columns);
  }

  /** Every target and feature cell is the combined table's cell. */
  lemma SplitKeepsCells<V>(t: Table<V>, signals: seq<string>)
    requires WellFormed(t) && FileColumn in t.columns
    requires SplitTarget(t, signals).Split?
    ensures var r := SplitTarget(t, signals);
      && |r.target.rows| == |t.rows| && |r.features.rows| == |t.rows|
      && (forall i, c :: 0 <= i < |t.rows| && c in r.target.columns ==> c in r.target.rows[i] && r.target.rows[i][c] == t.rows[i][c])
      && (forall i, c :: 0 <= i < |t.rows| && c in r.features.columns ==> c in r.features.rows[i] && r.features.rows[i][c] == t.rows[i][c])
  {
    var r := SplitTarget(t, signals);
    var present := Filter(signals, c => c in t.columns);
    assert forall c :: c in present ==> c in ColumnSet(t);
    assert Shaped(r.target);
    forall i, c | 0 <= i < |t.rows| && c in r.target.columns ensures c in r.target.rows[i] {
      assert c in ColumnSet(r.target);
    }
    forall i, c | 0 <= i < |t.rows| && c in r.features.columns ensures c in r.features.rows[i] {
      assert c in ColumnSet(r.features);
    }
  }

  /* ---------------------------------------------------------------------
     Feature-engineering branch
     --------------------------------------------------------------------- */

  /** Outer join without zero fill, then the constant-column drop. */
  function EngineerFeatures<V(==)>(sessions: seq<Table<V>>): (r: Table<V>)
    requires |sessions| > 0
    requires forall i :: 0 <= i < |sessions| ==> WellFormed(sessions[i])
    ensures WellFormed(r)
    ensures |r.rows| == TotalRows(sessions)
    ensures forall c :: c in r.columns <==> InSome(sessions, c) && !Uninformative(Concat(sessions, true), c)
    ensures IsSubsequence(r.columns, Concat(sessions, true).columns)
    ensures forall i, c :: 0 <= i < |r.rows| && c in r.columns ==>
      c in Concat(sessions, true).rows[i] && r.rows[i][c] == Concat(sessions, true).rows[i][c]
  {
    DropConstantColumns(Concat(sessions, true))
  }

  /* ---------------------------------------------------------------------
     __load_files and import_data
     --------------------------------------------------------------------- */

  /** The outer join of the feature-engineering branch, before the drop. */
  function EngineeredJoin<V>(d: FileDict, raw: seq<Table<V>>, zero: V): (r: Table<V>)
    requires |d| > 0 && |raw| == |d|
    requires forall i :: 0 <= i < |raw| ==> WellFormed(raw[i])
  {
    Concat(Sessions(d, raw, true, zero), true)
  }

  /** The feature-engineering branch of `__load_files` for at least one
      session: the frame keeps `file`, every `I_` label and every other
      label of some stacked table that is not single-valued in the outer
      join, and every row of every session with the join's cells. */
  function LoadEngineered<V(==)>(d: FileDict, raw: seq<Table<V>>, zero: V): (r: Table<V>)
    requires |d| > 0 && |raw| == |d|
    requires forall i :: 0 <= i < |raw| ==> WellFormed(raw[i])
    ensures WellFormed(r)
    ensures FileColumn in r.columns
    ensures forall c :: c in r.columns <==>
      (c == FileColumn || InSome(raw, c)) && !Uninformative(EngineeredJoin(d, raw, zero), c)
    ensures |r.rows| == |EngineeredJoin(d, raw, zero).rows| == TotalRows(raw)
    ensures forall i, c :: 0 <= i < |r.rows| && c in r.columns ==>
      c in EngineeredJoin(d, raw, zero).rows[i] && r.rows[i][c] == EngineeredJoin(d, raw, zero).rows[i][c]
  {
    var sessions := Sessions(d, raw, true, zero);
    var joined := Concat(sessions, true);
    var t := EngineerFeatures(sessions);
    SessionColumns(d, raw, true, zero, FileColumn);
    assert !Uninformative(joined, FileColumn);
    forall c ensures c in t.columns <==> (c == FileColumn || InSome(raw, c)) && !Uninformative(joined, c) {
      SessionColumns(d, raw, true, zero, c);
    }
    SameRowCounts(sessions, raw);
    t
  }

  /** The combined columns in terms of the stacked tables: `file` plus
      the labels some (outer join) or every (inner join) table has. */
  lemma CombinedColumns<V>(d: FileDict, raw: seq<Table<V>>, outer: bool, zero: V)
    requires |d| > 0 && |raw| == |d|
    requires forall i :: 0 <= i < |raw| ==> WellFormed(raw[i])
    ensures forall c :: c in Combine(Sessions(d, raw, false, zero), outer, zero).columns <==> Joined(raw, outer, c)
  {
    forall c ensures c in Combine(Sessions(d, raw, false, zero), outer, zero).columns <==> Joined(raw, outer, c) {
      SessionColumns(d, raw, false, zero, c);
    }
  }

  /** `if not dict_signallist`: an empty dictionary is replaced by the
      one `__create_signallist` builds from the accumulated names. */
  function ResolveSignals(target: string, signalList: map<string, seq<string>>, targetDir: Option<seq<TargetFile>>,
    fiSignalNumber: Option<int>, fiSignalThreshold: Option<real>, names: set<string>): (r: map<string, seq<string>>)
    ensures |signalList| > 0 ==> r == signalList
    ensures |signalList| == 0 ==> r.Keys <= {target}
    ensures |signalList| == 0 && targetDir.None? ==> (target in r <==> target in names) && (target in r ==> r[target] == [target])
    ensures |signalList| == 0 && targetDir.Some? ==> (target in r <==> AnyMatch(Stems(targetDir.value), target))
    ensures |signalList| == 0 && targetDir.Some? ==>
      forall i :: LastMatch(Stems(targetDir.value), target, i) ==> r[target] == targetDir.value[i].firstColumn
  {
    if |signalList| == 0 then CreateSignalList(target, targetDir, fiSignalNumber, fiSignalThreshold, Some(names))
    else signalList
  }

  /** `if dict_signallist and target in dict_signallist`: split by the
      target's list, or no result. */
  function SplitFor<V>(t: Table<V>, signals: map<string, seq<string>>, target: string): (r: LoadResult<V>)
    requires WellFormed(t) && FileColumn in t.columns
    ensures r.NoTarget? || r.Split?
    ensures r.Split? <==> target in signals && exists c :: c in signals[target] && c in t.columns
    ensures r.Split? ==>
      && r.target.columns == Filter(signals[target], c => c in t.columns)
      && FileColumn !in r.features.columns
      && (Ascending(t.columns) ==> Ascending(r.features.columns))
      && (forall c :: c in t.columns <==> c in r.target.columns || c in r.features.columns || c == FileColumn)
      && (forall c :: c in r.target.columns ==> c !in r.features.columns)
  {
    if target in signals then
      var r := SplitTarget(t, signals[target]);
      assert r.Split? ==> r.target.columns == Filter(signals[target], c => c in t.columns) by {
        if r.Split? { SplitTargetColumns(t, signals[target]); }
      }
      r
    else NoTarget
  }

  /** The default branch of `__load_files` for at least one session:
      join, fill, sort, resolve the signal list when the caller passed
      none, and split. */
  function LoadDefault<V>(
    target: string, d: FileDict, raw: seq<Table<V>>, signalList: map<string, seq<string>>, outer: bool,
    targetDir: Option<seq<TargetFile>>, fiSignalNumber: Option<int>, fiSignalThreshold: Option<real>, zero: V): (r: LoadResult<V>)
    requires |d| > 0 && |raw| == |d|
    requires forall i :: 0 <= i < |raw| ==> WellFormed(raw[i])
    ensures r.NoTarget? || r.Split?
    ensures var signals := ResolveSignals(target, signalList, targetDir, fiSignalNumber, fiSignalThreshold, Accumulated(Sessions(d, raw, false, zero)));
      && (r.Split? <==> target in signals && exists c :: c in signals[target] && Joined(raw, outer, c))
      && (r.Split? ==> r.target.columns == Filter(signals[target], JoinedIn(raw, outer)))
    ensures r.Split? ==>
      && FileColumn !in r.features.columns
      && Ascending(r.features.columns)
      && (forall c :: c in r.target.columns || c in r.features.columns || c == FileColumn <==> Joined(raw, outer, c))
      && (forall c :: c in r.target.columns ==> c !in r.features.columns)
  {
    var sessions := Sessions(d, raw, false, zero);
    var combined := Combine(sessions, outer, zero);
    FileSurvivesJoin(d, raw, outer, zero);
    CombinedColumns(d, raw, outer, zero);
    var signals := ResolveSignals(target, signalList, targetDir, fiSignalNumber, fiSignalThreshold, Accumulated(sessions));
    var r := SplitFor(combined, signals, target);
    assert r.Split? ==> r.target.columns == Filter(signals[target], JoinedIn(raw, outer)) by {
      if r.Split? {
        FilterAgree(signals[target], c => c in combined.columns, JoinedIn(raw, outer));
      }
    }
    r
  }

  /** `__load_files` outside the `modellib` mode. `d` is the file
      dictionary, `raw[i]` the stacked table of session `d[i]`,
      `signalList` the caller's `dict_signallist`, `targetDir` the
      signal-list files when a target directory is configured.
      `featureEngineering` stands for `feature_engineering is not None`
      (data.py:285, 327): a caller passing `False` still gets the
      feature-engineering branch. */
  function LoadFiles<V(==)>(
    target: string, d: FileDict, raw: seq<Table<V>>, signalList: map<string, seq<string>>,
    outer: bool, featureEngineering: bool, fileAnalysis: bool,
    targetDir: Option<seq<TargetFile>>, fiSignalNumber: Option<int>, fiSignalThreshold: Option<real>, zero: V): (r: LoadResult<V>)
    requires |raw| == |d|
    requires forall i :: 0 <= i < |raw| ==> WellFormed(raw[i])
    ensures r.InsufficientData? <==> !fileAnalysis && |d| < 2
    ensures r.ConcatFailed? <==> fileAnalysis && |d| == 0
    ensures r.Engineered? <==> featureEngineering && |d| > 0 && (fileAnalysis || |d| >= 2)
    ensures r.NoTarget? || r.Split? <==> !featureEngineering && |d| > 0 && (fileAnalysis || |d| >= 2)
    ensures r.Split? ==> FileColumn !in r.features.columns && Ascending(r.features.columns)
  {
    if !fileAnalysis && |d| < 2 then InsufficientData
    else if |d| == 0 then ConcatFailed
    else if featureEngineering then Engineered(LoadEngineered(d, raw, zero))
    else LoadDefault(target, d, raw, signalList, outer, targetDir, fiSignalNumber, fiSignalThreshold, zero)
  }

  lemma {:induction false} SameRowCounts<V>(a: seq<Table<V>>, b: seq<Table<V>>)
    requires |a| == |b|
    requires forall i :: 0 <= i < |a| ==> |a[i].rows| == |b[i].rows|
    ensures TotalRows(a) == TotalRows(b)
    decreases |a|
  {
    if |a| > 0 {
      SameRowCounts(a[1..], b[1..]);
    }
  }

  /** Without a target directory and with an empty caller dictionary the
      list names the target alone, and only when some session table has
      it. */
  lemma FallbackList<V>(target: string, d: FileDict, raw: seq<Table<V>>,
    fiSignalNumber: Option<int>, fiSignalThreshold: Option<real>, zero: V)
    requires |d| > 0 && |raw| == |d|
    requires forall i :: 0 <= i < |raw| ==> WellFormed(raw[i])
    ensures var signals := ResolveSignals(target, map[], None, fiSignalNumber, fiSignalThreshold, Accumulated(Sessions(d, raw, false, zero)));
      && (target in signals <==> target == FileColumn || InSome(raw, target))
      && (target in signals ==> signals[target] == [target])
  {
    SessionColumns(d, raw, false, zero, target);
  }

  /** Without a target directory the fallback list `[target]` is built
      from the union of the session labels, but an inner join keeps only
      the labels every session has: a target missing from one session
      yields no result. */
  lemma InnerJoinLosesPartialTarget<V>(target: string, d: FileDict, raw: seq<Table<V>>,
    fiSignalNumber: Option<int>, fiSignalThreshold: Option<real>, zero: V)
    requires |d| >= 2 && |raw| == |d|
    requires forall i :: 0 <= i < |raw| ==> WellFormed(raw[i])
    requires target != FileColumn && InSome(raw, target) && !InAll(raw, target)
    ensures LoadFiles(target, d, raw, map[], false, false, false, None, fiSignalNumber, fiSignalThreshold, zero) == NoTarget
  {
    assert LoadFiles(target, d, raw, map[], false, false, false, None, fiSignalNumber, fiSignalThreshold, zero)
      == LoadDefault(target, d, raw, map[], false, None, fiSignalNumber, fiSignalThreshold, zero);
    FallbackSplit(target, d, raw, false, fiSignalNumber, fiSignalThreshold, zero);
  }

  /** The fallback list splits exactly when the joined labels hold the
      target, and then the target is the only target column. */
  lemma FallbackSplit<V>(target: string, d: FileDict, raw: seq<Table<V>>, outer: bool,
    fiSignalNumber: Option<int>, fiSignalThreshold: Option<real>, zero: V)
    requires |d| > 0 && |raw| == |d|
    requires forall i :: 0 <= i < |raw| ==> WellFormed(raw[i])
    ensures var r := LoadDefault(target, d, raw, map[], outer, None, fiSignalNumber, fiSignalThreshold, zero);
      && (r.Split? <==> Joined(raw, outer, target))
      && (r.Split? ==> r.target.columns == [target])
  {
    FallbackList(target, d, raw, fiSignalNumber, fiSignalThreshold, zero);
    var r := LoadDefault(target, d, raw, map[], outer, None, fiSignalNumber, fiSignalThreshold, zero);
    if Joined(raw, outer, target) {
      assert target == FileColumn || InSome(raw, target) by {
        if !outer && target != FileColumn {
          assert InAll(raw, target);
          assert target in raw[0].columns;
        }
      }
      FilterSingle(target, JoinedIn(raw, outer));
    }
  }

  /** With an outer join the same fallback always finds the target: it
      becomes the only target column. */
  lemma OuterJoinFindsTarget<V>(target: string, d: FileDict, raw: seq<Table<V>>,
    fiSignalNumber: Option<int>, fiSignalThreshold: Option<real>, zero: V)
    requires |d| >= 2 && |raw| == |d|
    requires forall i :: 0 <= i < |raw| ==> WellFormed(raw[i])
    requires InSome(raw, target)
    ensures var r := LoadFiles(target, d, raw, map[], true, false, false, None, fiSignalNumber, fiSignalThreshold, zero);
      r.Split? && r.target.columns == [target]
  {
    assert LoadFiles(target, d, raw, map[], true, false, false, None, fiSignalNumber, fiSignalThreshold, zero)
      == LoadDefault(target, d, raw, map[], true, None, fiSignalNumber, fiSignalThreshold, zero);
    FallbackSplit(target, d, raw, true, fiSignalNumber, fiSignalThreshold, zero);
  }

  /** What `import_data` returns. On the guard's bare `None` and on the
      feature-engineering frame the source unpacks a value that is not a
      pair; those runs are kept apart, with the load result. */
  datatype Imported<V> =
    | Unpacked(target: Option<Table<V>>, features: Option<Table<V>>)
    | NotAPair(load: LoadResult<V>)

  /** `import_data`: `__load_files` with an empty signal dictionary and
      without file analysis. The blacklist only decides which signals are
      read into `raw`. As in `LoadFiles`, `featureEngineering` means the
      argument is not `None`, whatever its truth value. */
  function ImportData<V(==)>(
    target: string, d: FileDict, raw: seq<Table<V>>, outer: bool, featureEngineering: bool,
    targetDir: Option<seq<TargetFile>>, fiSignalNumber: Option<int>, fiSignalThreshold: Option<real>, zero: V): (r: Imported<V>)
    requires |raw| == |d|
    requires forall i :: 0 <= i < |raw| ==> WellFormed(raw[i])
    ensures r.NotAPair? <==> |d| < 2 || featureEngineering
    ensures r.Unpacked? ==> (r.target.None? <==> r.features.None?)
    ensures r.Unpacked? ==>
      var signals := CreateSignalList(target, targetDir, fiSignalNumber, fiSignalThreshold, Some(Accumulated(Sessions(d, raw, false, zero))));
      && (r.target.Some? <==> target in signals && exists c :: c in signals[target] && Joined(raw, outer, c))
      && (r.target.Some? ==> r.target.value.columns == Filter(signals[target], JoinedIn(raw, outer)))
    ensures r.Unpacked? && r.features.Some? ==>
      && r.target.Some?
      && FileColumn !in r.features.value.columns
      && Ascending(r.features.value.columns)
      && (forall c :: c in r.target.value.columns || c in r.features.value.columns || c == FileColumn <==> Joined(raw, outer, c))
      && (forall c :: c in r.target.value.columns ==> c !in r.features.value.columns)
  {
    var loaded := LoadFiles(target, d, raw, map[], outer, featureEngineering, false, targetDir, fiSignalNumber, fiSignalThreshold, zero);
    if loaded.Split? then Unpacked(Some(loaded.target), Some(loaded.features))
    else if loaded.NoTarget? then Unpacked(None, None)
    else NotAPair(loaded)
  }

}
