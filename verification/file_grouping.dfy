/**
 Session-key derivation and grouping of measurement files
 (`Data.__generate_mf4_file_dict`).

 `dict_files` is a Python dict from session key to a de-duplicated list of
 paths. A dict keeps insertion order, so it is modelled as a sequence of
 entries with distinct keys; the list built with `list(set(group))` has no
 meaningful order, so each group is a set of paths.
 */
module FileGrouping {
  import opened Strings
  import opened Sorting

  /* ---------------------------------------------------------------------
     Session keys
     --------------------------------------------------------------------- */

  /** `name.split("#")[0]`: the base name up to, not including, the first `#`. */
  function SessionKey(name: string): (k: string)
    ensures '#' !in k
    ensures StartsWith(name, k)
    ensures '#' in name ==> |k| < |name| && name[|k|] == '#'
    ensures '#' !in name ==> k == name
  {
    Split(name, '#')[0]
  }

  /** The session key of a scanned path: the key of its base name. */
  function KeyOf(path: string): string
  {
    SessionKey(BaseName(path))
  }

  /* ---------------------------------------------------------------------
     The file dictionary
     --------------------------------------------------------------------- */

  datatype Entry = Entry(key: string, paths: set<string>)

  type FileDict = seq<Entry>

  function EntryKey(e: Entry): string
  {
    e.key
  }

  /** A dict never holds a key twice. */
  predicate UniqueKeys(d: FileDict)
  {
    DistinctKeys(d, EntryKey)
  }

  function Keys(d: FileDict): set<string>
  {
    set i | 0 <= i < |d| :: d[i].key
  }

  /** `dict_files.get(k, [])`, as a set. */
  function Lookup(d: FileDict, k: string): set<string>
  {
    if |d| == 0 then {}
    else if d[0].key == k then d[0].paths
    else Lookup(d[1..], k)
  }

  /** Every path sits in the group of its own session key. */
  predicate Consistent(d: FileDict)
  {
    forall i, p :: 0 <= i < |d| && p in d[i].paths ==> KeyOf(p) == d[i].key
  }

  lemma {:induction false} LookupEntry(d: FileDict, i: nat)
    requires UniqueKeys(d) && i < |d|
    ensures Lookup(d, d[i].key) == d[i].paths
  {
    if i > 0 {
      assert EntryKey(d[0]) != EntryKey(d[i]);
      assert d[1..][i - 1] == d[i];
      LookupEntry(d[1..], i - 1);
    }
  }

  lemma {:induction false} LookupAbsent(d: FileDict, k: string)
    requires k !in Keys(d)
    ensures Lookup(d, k) == {}
  {
    if |d| > 0 {
      assert d[0].key in Keys(d);
      assert Keys(d[1..]) <= Keys(d) by {
        forall j | 0 <= j < |d[1..]| ensures d[1..][j].key in Keys(d) {
          assert d[1..][j] == d[j + 1];
        }
      }
      LookupAbsent(d[1..], k);
    }
  }

  /** Keys and groups are all a dict says: two dicts with distinct keys
      and the same entries (in any order) agree on both. */
  lemma SameEntriesSameMap(a: FileDict, b: FileDict)
    requires UniqueKeys(a) && UniqueKeys(b)
    requires multiset(a) == multiset(b)
    ensures Keys(a) == Keys(b)
    ensures forall k :: Lookup(a, k) == Lookup(b, k)
  {
    forall k | k in Keys(a) ensures k in Keys(b) {
      var i :| 0 <= i < |a| && a[i].key == k;
      assert a[i] in multiset(b);
    }
    forall k | k in Keys(b) ensures k in Keys(a) {
      var i :| 0 <= i < |b| && b[i].key == k;
      assert b[i] in multiset(a);
    }
    forall k ensures Lookup(a, k) == Lookup(b, k) {
      if k in Keys(a) {
        var i :| 0 <= i < |a| && a[i].key == k;
        assert a[i] in multiset(b);
        var j :| 0 <= j < |b| && b[j] == a[i];
        LookupEntry(a, i);
        LookupEntry(b, j);
      } else {
        LookupAbsent(a, k);
        LookupAbsent(b, k);
      }
    }
  }

  lemma KeysCons(d: FileDict)
    requires |d| > 0
    ensures Keys(d) == {d[0].key} + Keys(d[1..])
  {
    forall x | x in Keys(d) ensures x in {d[0].key} + Keys(d[1..]) {
      var i :| 0 <= i < |d| && d[i].key == x;
      if i > 0 { assert d[1..][i - 1] == d[i]; }
    }
    forall x | x in Keys(d[1..]) ensures x in Keys(d) {
      var i :| 0 <= i < |d[1..]| && d[1..][i].key == x;
      assert d[i + 1] == d[1..][i];
    }
  }

  lemma UniqueCons(e: Entry, d: FileDict)
    requires UniqueKeys(d) && e.key !in Keys(d)
    ensures UniqueKeys([e] + d)
  {
    var r := [e] + d;
    forall i, j | 0 <= i < j < |r| ensures EntryKey(r[i]) != EntryKey(r[j]) {
      assert r[j] == d[j - 1];
      if i > 0 {
        assert r[i] == d[i - 1];
      } else {
        assert d[j - 1].key in Keys(d);
      }
    }
  }

  lemma UniqueTail(d: FileDict)
    requires UniqueKeys(d) && |d| > 0
    ensures UniqueKeys(d[1..]) && d[0].key !in Keys(d[1..])
  {
    forall i, j | 0 <= i < j < |d| - 1 ensures EntryKey(d[1..][i]) != EntryKey(d[1..][j]) {
      assert d[1..][i] == d[i + 1] && d[1..][j] == d[j + 1];
    }
    forall i | 0 <= i < |d[1..]| ensures d[1..][i].key != d[0].key {
      assert EntryKey(d[0]) != EntryKey(d[i + 1]);
    }
  }

  /** One `group.append(x); dict_files[key] = list(set(group))` step: an
      existing key keeps its place and gains the path, a new key is added
      at the end. */
  function Put(d: FileDict, k: string, p: string): (r: FileDict)
    requires UniqueKeys(d)
    ensures UniqueKeys(r)
    ensures Keys(r) == Keys(d) + {k}
    ensures forall k' :: Lookup(r, k') == if k' == k then Lookup(d, k) + {p} else Lookup(d, k')
    ensures |r| == if k in Keys(d) then |d| else |d| + 1
    ensures forall i :: 0 <= i < |d| ==> r[i].key == d[i].key
  {
    if |d| == 0 then
      var r := [Entry(k, {p})];
      assert Keys(r) == {k} by { assert r[0].key == k; }
      r
    else
      KeysCons(d);
      UniqueTail(d);
      if d[0].key == k then
        var r := [Entry(k, d[0].paths + {p})] + d[1..];
        KeysCons(r);
        assert r[1..] == d[1..];
        UniqueCons(r[0], d[1..]);
        r
      else
        var tail := Put(d[1..], k, p);
        var r := [d[0]] + tail;
        KeysCons(r);
        assert r[1..] == tail;
        UniqueCons(d[0], tail);
        r
  }

  /** The session keys of a list of paths. */
  function KeysOf(ps: seq<string>): set<string>
  {
    set p | p in ps :: KeyOf(p)
  }

  /** The paths of a list whose session key is `k`. */
  function PathsOf(ps: seq<string>, k: string): set<string>
  {
    set p | p in ps && KeyOf(p) == k
  }

  lemma PathsOfCons(ps: seq<string>, k: string)
    requires |ps| > 0
    ensures KeysOf(ps) == {KeyOf(ps[0])} + KeysOf(ps[1..])
    ensures PathsOf(ps, k) == (if KeyOf(ps[0]) == k then {ps[0]} else {}) + PathsOf(ps[1..], k)
  {
    assert ps == [ps[0]] + ps[1..];
  }

  /** The inner loop over the paths globbed from the listed directories. */
  function AddPaths(d: FileDict, ps: seq<string>): (r: FileDict)
    requires UniqueKeys(d)
    ensures UniqueKeys(r)
    ensures Keys(r) == Keys(d) + KeysOf(ps)
    ensures forall k :: Lookup(r, k) == Lookup(d, k) + PathsOf(ps, k)
    decreases |ps|
  {
    if |ps| == 0 then d
    else
      var d' := Put(d, KeyOf(ps[0]), ps[0]);
      var r := AddPaths(d', ps[1..]);
      forall k ensures Lookup(r, k) == Lookup(d, k) + PathsOf(ps, k) {
        PathsOfCons(ps, k);
      }
      PathsOfCons(ps, "");
      r
  }

  /* ---------------------------------------------------------------------
     Directory list and scan
     --------------------------------------------------------------------- */

  /** The directories named by `filedir`: split at commas, each stripped. */
  function Dirs(filedir: string): (r: seq<string>)
    ensures |r| == |Split(filedir, ',')| >= 1
    ensures forall i :: 0 <= i < |r| ==> r[i] == Strip(Split(filedir, ',')[i])
  {
    StripAll(Split(filedir, ','))
  }

  /** Every piece stripped, in order. */
  function StripAll(parts: seq<string>): (r: seq<string>)
    ensures |r| == |parts|
    ensures forall i :: 0 <= i < |r| ==> r[i] == Strip(parts[i])
  {
    if |parts| == 0 then []
    else
      var rest := StripAll(parts[1..]);
      var r := [Strip(parts[0])] + rest;
      forall i | 1 <= i < |r| ensures r[i] == Strip(parts[i]) {
        assert r[i] == rest[i - 1] && parts[i] == parts[1..][i - 1];
      }
      r
  }

  /** Every listed directory is comma-free and already stripped. */
  lemma DirsStripped(filedir: string)
    ensures forall i :: 0 <= i < |Dirs(filedir)| ==> ',' !in Dirs(filedir)[i] && Strip(Dirs(filedir)[i]) == Dirs(filedir)[i]
  {
    var parts := Split(filedir, ',');
    var r := Dirs(filedir);
    forall i | 0 <= i < |r| ensures ',' !in r[i] && Strip(r[i]) == r[i] {
      StripIdempotent(parts[i]);
      assert ',' !in parts[i];
      assert forall c :: c in r[i] ==> c in parts[i];
    }
  }

  /** The glob results for each directory in turn (both extension patterns
      already merged per directory); an unknown directory yields nothing. */
  function Scanned(dirs: seq<string>, scan: map<string, seq<string>>): (r: seq<string>)
    ensures forall p :: p in r <==> exists i :: 0 <= i < |dirs| && dirs[i] in scan && p in scan[dirs[i]]
  {
    if |dirs| == 0 then []
    else
      var here := if dirs[0] in scan then scan[dirs[0]] else [];
      var r := here + Scanned(dirs[1..], scan);
      forall p | p in r ensures exists i :: 0 <= i < |dirs| && dirs[i] in scan && p in scan[dirs[i]] {
        if p !in here {
          var i :| 0 <= i < |dirs[1..]| && dirs[1..][i] in scan && p in scan[dirs[1..][i]];
          assert dirs[i + 1] == dirs[1..][i];
        }
      }
      forall p | (exists i :: 0 <= i < |dirs| && dirs[i] in scan && p in scan[dirs[i]]) ensures p in r {
        var i :| 0 <= i < |dirs| && dirs[i] in scan && p in scan[dirs[i]];
        if i > 0 {
          assert dirs[1..][i - 1] == dirs[i];
        }
      }
      r
  }

  /** `__generate_mf4_file_dict`: add every globbed path of every listed
      directory to the group of its session key, then sort by key. `d` is
      the dictionary the instance already holds (empty on first call). */
  function GenerateMf4FileDict(d: FileDict, filedir: string, scan: map<string, seq<string>>): (r: FileDict)
    requires UniqueKeys(d)
    ensures SortedBy(r, EntryKey)
    ensures UniqueKeys(r)
    ensures Keys(r) == Keys(d) + KeysOf(Scanned(Dirs(filedir), scan))
    ensures forall k :: Lookup(r, k) == Lookup(d, k) + PathsOf(Scanned(Dirs(filedir), scan), k)
  {
    var grouped := AddPaths(d, Scanned(Dirs(filedir), scan));
    var r := SortBy(grouped, EntryKey);
    SortedDistinct(r, EntryKey);
    SameEntriesSameMap(r, grouped);
    r
  }

  /* ---------------------------------------------------------------------
     Properties of the grouping
     --------------------------------------------------------------------- */

  /** A sorted dict is determined by its keys and groups. */
  lemma {:induction false} SortedDictDetermined(a: FileDict, b: FileDict)
    requires SortedBy(a, EntryKey) && SortedBy(b, EntryKey)
    requires Keys(a) == Keys(b)
    requires forall k :: Lookup(a, k) == Lookup(b, k)
    ensures a == b
    decreases |a|
  {
    assert |b| > 0 ==> b[0].key in Keys(b);
    if |a| > 0 {
      assert a[0].key in Keys(b);
      assert |b| > 0;
      assert b[0].key in Keys(a);
      var i :| 0 <= i < |b| && b[i].key == a[0].key;
      var j :| 0 <= j < |a| && a[j].key == b[0].key;
      if i > 0 {
        assert Less(EntryKey(b[0]), EntryKey(b[i]));
        if j > 0 {
          assert Less(EntryKey(a[0]), EntryKey(a[j]));
          LessAsymmetric(a[0].key, b[0].key);
        } else {
          LessIrreflexive(a[0].key);
        }
      }
      var k0 := a[0].key;
      assert b[0].key == k0;
      assert a[0].paths == Lookup(a, k0) == Lookup(b, k0) == b[0].paths;
      SortedTail(a, EntryKey);
      SortedTail(b, EntryKey);
      TailKeys(a);
      TailKeys(b);
      forall k ensures Lookup(a[1..], k) == Lookup(b[1..], k) {
        if k == k0 {
          LookupAbsent(a[1..], k);
          LookupAbsent(b[1..], k);
        } else {
          assert Lookup(a, k) == Lookup(a[1..], k);
          assert Lookup(b, k) == Lookup(b[1..], k);
        }
      }
      SortedDictDetermined(a[1..], b[1..]);
      assert a == [a[0]] + a[1..] && b == [b[0]] + b[1..];
    }
  }

  lemma TailKeys(d: FileDict)
    requires SortedBy(d, EntryKey) && |d| > 0
    ensures Keys(d[1..]) == Keys(d) - {d[0].key}
  {
    SortedDistinct(d, EntryKey);
    forall x | x in Keys(d) - {d[0].key} ensures x in Keys(d[1..]) {
      var i :| 0 <= i < |d| && d[i].key == x;
      assert d[1..][i - 1] == d[i];
    }
    forall x | x in Keys(d[1..]) ensures x in Keys(d) - {d[0].key} {
      var i :| 0 <= i < |d[1..]| && d[1..][i].key == x;
      assert d[1..][i] == d[i + 1];
      assert EntryKey(d[0]) != EntryKey(d[i + 1]);
    }
  }

  /** Every scanned path lies in the group of its own key, and, starting
      from a consistent dict, every group holds only paths of its key, so
      a path lies in no other group. Keys are strictly ascending. */
  lemma GroupingPlacesEveryPath(d: FileDict, filedir: string, scan: map<string, seq<string>>)
    requires UniqueKeys(d) && Consistent(d)
    ensures var r := GenerateMf4FileDict(d, filedir, scan);
      && Consistent(r)
      && (forall p :: p in Scanned(Dirs(filedir), scan) ==> KeyOf(p) in Keys(r) && p in Lookup(r, KeyOf(p)))
      && (forall i, j :: 0 <= i < j < |r| ==> Less(r[i].key, r[j].key))
  {
    var r := GenerateMf4FileDict(d, filedir, scan);
    var ps := Scanned(Dirs(filedir), scan);
    assert Consistent(r) by {
      GroupsKeepTheirKey(d, filedir, scan);
    }
    forall p | p in ps ensures KeyOf(p) in Keys(r) && p in Lookup(r, KeyOf(p)) {
      assert p in PathsOf(ps, KeyOf(p));
    }
    forall i, j | 0 <= i < j < |r| ensures Less(r[i].key, r[j].key) {
      assert Less(EntryKey(r[i]), EntryKey(r[j]));
    }
  }

  /** Every path of the new dictionary is in the group of its own key. */
  lemma GroupsKeepTheirKey(d: FileDict, filedir: string, scan: map<string, seq<string>>)
    requires UniqueKeys(d) && Consistent(d)
    ensures Consistent(GenerateMf4FileDict(d, filedir, scan))
  {
    var r := GenerateMf4FileDict(d, filedir, scan);
    var ps := Scanned(Dirs(filedir), scan);
    forall i, p | 0 <= i < |r| && p in r[i].paths ensures KeyOf(p) == r[i].key {
      LookupEntry(r, i);
      var k := r[i].key;
      if p !in PathsOf(ps, k) {
        assert p in Lookup(d, k);
        if k in Keys(d) {
          var j :| 0 <= j < |d| && d[j].key == k;
          LookupEntry(d, j);
        } else {
          LookupAbsent(d, k);
        }
      }
    }
  }

  /** Calling `get_mf4files` a second time on the same instance changes
      nothing: the groups only gain paths they already hold. */
  lemma GenerateIdempotent(d: FileDict, filedir: string, scan: map<string, seq<string>>)
    requires UniqueKeys(d)
    ensures var once := GenerateMf4FileDict(d, filedir, scan);
      GenerateMf4FileDict(once, filedir, scan) == once
  {
    var once := GenerateMf4FileDict(d, filedir, scan);
    var twice := GenerateMf4FileDict(once, filedir, scan);
    SortedDictDetermined(twice, once);
  }

  /** Only membership of a path list matters to the keys and groups. */
  lemma SameMembersSameGroups(ps1: seq<string>, ps2: seq<string>)
    requires forall p :: p in ps1 <==> p in ps2
    ensures KeysOf(ps1) == KeysOf(ps2)
    ensures forall k :: PathsOf(ps1, k) == PathsOf(ps2, k)
  {
  }

  /** Only the set of listed directories matters: repeating or reordering
      directories in `filedir` (as in `"a, a"`) yields the same dict. */
  lemma SameDirectoriesSameDict(d: FileDict, filedir1: string, filedir2: string, scan: map<string, seq<string>>)
    requires UniqueKeys(d)
    requires forall x :: x in Dirs(filedir1) <==> x in Dirs(filedir2)
    ensures GenerateMf4FileDict(d, filedir1, scan) == GenerateMf4FileDict(d, filedir2, scan)
  {
    var dirs1, dirs2 := Dirs(filedir1), Dirs(filedir2);
    var ps1, ps2 := Scanned(dirs1, scan), Scanned(dirs2, scan);
    forall p | p in ps1 ensures p in ps2 {
      var i :| 0 <= i < |dirs1| && dirs1[i] in scan && p in scan[dirs1[i]];
      assert dirs1[i] in dirs2;
      var j :| 0 <= j < |dirs2| && dirs2[j] == dirs1[i];
    }
    forall p | p in ps2 ensures p in ps1 {
      var i :| 0 <= i < |dirs2| && dirs2[i] in scan && p in scan[dirs2[i]];
      assert dirs2[i] in dirs1;
      var j :| 0 <= j < |dirs1| && dirs1[j] == dirs2[i];
    }
    SameMembersSameGroups(ps1, ps2);
    SortedDictDetermined(GenerateMf4FileDict(d, filedir1, scan), GenerateMf4FileDict(d, filedir2, scan));
  }

  /** A directory list without a comma names one directory. */
  lemma DirsFree(x: string)
    requires ',' !in x
    ensures Dirs(x) == [Strip(x)]
  {
    SplitFree(x, ',');
    assert |Dirs(x)| == 1 && Dirs(x)[0] == Strip(x);
  }

  /** The first comma ends the first directory name. */
  lemma DirsAppend(x: string, y: string)
    requires ',' !in x
    ensures Dirs(x + [','] + y) == [Strip(x)] + Dirs(y)
  {
    SplitAt(x, y, ',');
    var parts := [x] + Split(y, ',');
    assert parts[1..] == Split(y, ',');
    assert StripAll(parts) == [Strip(x)] + StripAll(Split(y, ','));
  }

  lemma CommaSpace(a: string)
    ensures a + ", " + a == a + [','] + ([' '] + a)
  {
    assert ", " == [','] + [' '];
  }

  /** The directory list `"<a>, <a>"` names directory `a` twice, for any
      comma-free, already stripped name. */
  lemma DirsTwice(a: string)
    requires ',' !in a && Strip(a) == a
    ensures Dirs(a + ", " + a) == [a, a]
  {
    var rest := [' '] + a;
    calc {
      Dirs(a + ", " + a);
      { CommaSpace(a); }
      Dirs(a + [','] + rest);
      { DirsAppend(a, rest); }
      [Strip(a)] + Dirs(rest);
      { assert ',' !in rest; DirsFree(rest); }
      [a] + [Strip(rest)];
      { StripLeadingSpace(' ', a); }
      [a] + [a];
    }
  }

  /** The directory list `"<a>"` names directory `a` once. */
  lemma DirsOnce(a: string)
    requires ',' !in a && Strip(a) == a
    ensures Dirs(a) == [a]
  {
    DirsFree(a);
  }

  /** Listing a directory twice, `"<a>, <a>"`, gives the dict of `"<a>"`. */
  lemma RepeatedDirectoryChangesNothing(d: FileDict, scan: map<string, seq<string>>, a: string)
    requires UniqueKeys(d)
    requires ',' !in a && Strip(a) == a
    ensures GenerateMf4FileDict(d, a + ", " + a, scan) == GenerateMf4FileDict(d, a, scan)
  {
    DirsTwice(a);
    DirsOnce(a);
    SameDirectoriesSameDict(d, a + ", " + a, a, scan);
  }

}
