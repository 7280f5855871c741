/**
 Which signals are read and which are targets: the blacklist
 (`Data.__create_blacklist`, the filter in `Data.__read_bus_files`) and the
 per-target signal list (`Data.__create_signallist`,
 `Data.__calc_signallist`).
 */
module Signals {
  import opened Options
  import opened Strings

  /* ---------------------------------------------------------------------
     Blacklist
     --------------------------------------------------------------------- */

  /** `__create_blacklist`: every line of the blacklist file, stripped.
      `path` is the configured name (`None` or `""` when unset), `file` the
      file's lines when the name denotes an existing file. Empty lines and
      duplicates are kept. */
  function CreateBlacklist(path: Option<string>, file: Option<seq<string>>): (r: seq<string>)
    ensures path.None? || path.value == "" || file.None? ==> r == []
    ensures path.Some? && path.value != "" && file.Some? ==>
      && |r| == |file.value|
      && (forall i :: 0 <= i < |r| ==> r[i] == Strip(file.value[i]))
      && (forall i :: 0 <= i < |r| ==> Strip(r[i]) == r[i])
  {
    if path.Some? && path.value != "" && file.Some? then
      var lines := file.value;
      var r := seq(|lines|, i requires 0 <= i < |lines| => Strip(lines[i]));
      assert |r| == |lines|;
      forall i | 0 <= i < |r| ensures r[i] == Strip(lines[i]) && Strip(r[i]) == r[i] {
        assert r[i] == Strip(lines[i]);
        StripIdempotent(lines[i]);
      }
      r
    else []
  }

  /** Whether the (optional) blacklist names `x`. */
  predicate Blocked(blacklist: Option<seq<string>>, x: string)
  {
    blacklist.Some? && x in blacklist.value
  }

  /** The blacklist filter of `__read_bus_files`: with no blacklist or an
      empty one the signal list is left alone; otherwise exactly the
      blacklisted names are removed, order and repetitions of the rest
      kept. */
  function FilterSignals(signals: seq<string>, blacklist: Option<seq<string>>): (r: seq<string>)
    ensures IsSubsequence(r, signals)
    ensures forall x :: multiset(r)[x] == if Blocked(blacklist, x) then 0 else multiset(signals)[x]
    ensures forall x :: x in r <==> x in signals && !Blocked(blacklist, x)
    ensures blacklist.None? || |blacklist.value| == 0 ==> r == signals
  {
    SubsequenceReflexive(signals);
    match blacklist
    case None => signals
    case Some(bl) => if |bl| > 0 then Filter(signals, x => x !in bl) else signals
  }

  /** The filter result is the only subsequence of the signals that keeps
      every occurrence of a non-blacklisted name and none of a blacklisted
      one. */
  lemma FilterSignalsDetermined(r: seq<string>, signals: seq<string>, blacklist: Option<seq<string>>)
    requires IsSubsequence(r, signals)
    requires forall x :: multiset(r)[x] == if Blocked(blacklist, x) then 0 else multiset(signals)[x]
    ensures r == FilterSignals(signals, blacklist)
  {
    var keep := x => !Blocked(blacklist, x);
    FilterDetermined(r, signals, keep);
    FilterDetermined(FilterSignals(signals, blacklist), signals, keep);
  }

  /* ---------------------------------------------------------------------
     Signal list
     --------------------------------------------------------------------- */

  /** `PurePath.stem` of a final path component: the name without its
      last suffix, where a suffix starts at a `.` that is neither the first
      nor the last character. */
  function NameStem(name: string): (r: string)
    ensures StartsWith(name, r)
    ensures r != name ==>
      && 0 < |r| < |name| - 1
      && name[|r|] == '.'
      && forall k :: |r| < k < |name| ==> name[k] != '.'
    ensures forall i :: 0 < i < |name| - 1 && name[i] == '.' && (forall k :: i < k < |name| ==> name[k] != '.') ==>
      r == name[..i]
  {
    var i := LastIndexOf(name, '.');
    if 0 < i < |name| - 1 then name[..i] else name
  }

  /** `Path(path).stem`. */
  function Stem(path: string): string
  {
    NameStem(BaseName(path))
  }

  /** A file globbed as `<dir>/<x>.txt` with a non-empty `x` has stem `x`. */
  lemma StemOfTxtFile(path: string, x: string)
    requires x != "" && BaseName(path) == x + ".txt"
    ensures Stem(path) == x
  {
    var name := x + ".txt";
    assert name[|x|] == '.';
    assert name[|x| + 1..] == "txt";
    var i := LastIndexOf(name, '.');
    assert forall k :: |x| < k < |name| ==> name[k] == "txt"[k - |x| - 1];
  }

  /** A signal-list file in the target directory: its path and the first
      space-separated column of its lines. */
  datatype TargetFile = TargetFile(path: string, firstColumn: seq<string>)

  /** `__calc_signallist`: record the signals for `stem`. With a target
      directory all listed signals are used; without one only the target
      itself. No other entry changes. */
  function CalcSignalList(targetDirSet: bool, stem: string, column: seq<string>, signalList: map<string, seq<string>>): (r: map<string, seq<string>>)
    ensures r.Keys == signalList.Keys + {stem}
    ensures targetDirSet ==> r[stem] == column
    ensures !targetDirSet ==> r[stem] == [stem]
    ensures forall k :: k in signalList && k != stem ==> r[k] == signalList[k]
  {
    signalList[stem := if targetDirSet then column else [stem]]
  }

  /** The stems of the files' paths, in order. */
  function Stems(files: seq<TargetFile>): (r: seq<string>)
    ensures |r| == |files|
    ensures forall i :: 0 <= i < |files| ==> r[i] == Stem(files[i].path)
  {
    seq(|files|, i requires 0 <= i < |files| => Stem(files[i].path))
  }

  /** Some file has stem `target`. */
  predicate AnyMatch(stems: seq<string>, target: string)
  {
    exists i :: 0 <= i < |stems| && stems[i] == target
  }

  /** File `i` is the last one with stem `target`. */
  predicate LastMatch(stems: seq<string>, target: string, i: int)
  {
    && 0 <= i < |stems|
    && stems[i] == target
    && forall j :: i < j < |stems| ==> stems[j] != target
  }

  lemma AnyMatchCons(stems: seq<string>, target: string)
    requires |stems| > 0
    ensures AnyMatch(stems, target) <==> stems[0] == target || AnyMatch(stems[1..], target)
  {
    var tail := stems[1..];
    if AnyMatch(stems, target) {
      var i :| 0 <= i < |stems| && stems[i] == target;
      if i > 0 { assert tail[i - 1] == stems[i]; }
    }
    if AnyMatch(tail, target) {
      var i :| 0 <= i < |tail| && tail[i] == target;
      assert stems[i + 1] == tail[i];
    }
  }

  lemma LastMatchCons(stems: seq<string>, target: string, i: int)
    requires LastMatch(stems, target, i)
    ensures i == 0 ==> !AnyMatch(stems[1..], target)
    ensures i > 0 ==> LastMatch(stems[1..], target, i - 1)
  {
    var tail := stems[1..];
    forall j | i - 1 < j < |tail| ensures tail[j] != target {
      assert tail[j] == stems[j + 1];
    }
  }

  /** Directory mode over the files' stems and first columns: every file
      whose stem is the target overwrites the target's entry, so the last
      such file wins. */
  function ScanStems(stems: seq<string>, columns: seq<seq<string>>, target: string, signalList: map<string, seq<string>>): (r: map<string, seq<string>>)
    requires |stems| == |columns|
    ensures r.Keys == signalList.Keys + (if AnyMatch(stems, target) then {target} else {})
    ensures forall k :: k in signalList && k != target ==> r[k] == signalList[k]
    ensures !AnyMatch(stems, target) && target in signalList ==> r[target] == signalList[target]
    ensures forall i :: LastMatch(stems, target, i) ==> r[target] == columns[i]
  {
    if |stems| == 0 then signalList
    else
      var next := if stems[0] == target then CalcSignalList(true, target, columns[0], signalList) else signalList;
      var r := ScanStems(stems[1..], columns[1..], target, next);
      AnyMatchCons(stems, target);
      forall i | LastMatch(stems, target, i) ensures r[target] == columns[i] {
        LastMatchCons(stems, target, i);
        if i > 0 { assert columns[1..][i - 1] == columns[i]; }
      }
      r
  }

  /** The loop over the target directory's `*.txt` files. */
  function ScanTargetFiles(files: seq<TargetFile>, target: string, signalList: map<string, seq<string>>): (r: map<string, seq<string>>)
    ensures r.Keys == signalList.Keys + (if AnyMatch(Stems(files), target) then {target} else {})
    ensures forall k :: k in signalList && k != target ==> r[k] == signalList[k]
    ensures forall i :: LastMatch(Stems(files), target, i) ==> r[target] == files[i].firstColumn
  {
    var columns := seq(|files|, i requires 0 <= i < |files| => files[i].firstColumn);
    ScanStems(Stems(files), columns, target, signalList)
  }

  /** `__create_signallist`. The feature-importance parameters are passed
      along but never read. */
  function CreateSignalList(target: string, targetDir: Option<seq<TargetFile>>, fiSignalNumber: Option<int>, fiSignalThreshold: Option<real>, signalNames: Option<set<string>>): (r: map<string, seq<string>>)
    ensures r.Keys <= {target}
    ensures targetDir.None? ==> (target in r <==> signalNames.Some? && target in signalNames.value)
    ensures targetDir.None? && target in r ==> r[target] == [target]
    ensures targetDir.Some? ==> (target in r <==> AnyMatch(Stems(targetDir.value), target))
    ensures targetDir.Some? ==> forall i :: LastMatch(Stems(targetDir.value), target, i) ==> r[target] == targetDir.value[i].firstColumn
  {
    match targetDir
    case Some(files) => ScanTargetFiles(files, target, map[])
    case None =>
      if signalNames.Some? && |signalNames.value| > 0 && target in signalNames.value then
        CalcSignalList(false, target, [], map[])
      else map[]
  }

  /** `fi_signalnumber` and `fi_signalthreshold` never affect the list. */
  lemma FeatureImportanceInert(target: string, targetDir: Option<seq<TargetFile>>, n1: Option<int>, t1: Option<real>, n2: Option<int>, t2: Option<real>, signalNames: Option<set<string>>)
    ensures CreateSignalList(target, targetDir, n1, t1, signalNames) == CreateSignalList(target, targetDir, n2, t2, signalNames)
  {
  }

}
