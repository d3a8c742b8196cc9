/**
 * `import_fixer/cross_imports_rules.py` and the `to_dict` view of its
 * response type in `cross_imports_rules_param_types.py`: for every indexed
 * file, how many of its imports name each first-party module, and the
 * package-wide table of those counts keyed by module key.
 */
module CrossImports {
  import opened Strings
  import opened OrderedMaps
  import opened PythonFileInfo
  import opened PackageIndex
  import opened ConnectPackageHelper

  /** `PythonFileCrossImportStatsResponse`: a file and its counter of first-party module paths. */
  datatype FileCrossStats = FileCrossStats(info: FileInfo, counts: OMap<string, nat>)

  // ---------------------------------------------------------------------------
  // A counter
  // ---------------------------------------------------------------------------

  /** `d[k] += 1` on a `defaultdict(int)`. */
  function Bump(d: OMap<string, nat>, k: string): (r: OMap<string, nat>)
    requires d.Valid()
    ensures r.Valid()
  {
    d.Put(k, (if k in d.m then d.m[k] else 0) + 1)
  }

  /** The counter after bumping every element of `ss`, in order. */
  function Counts(ss: seq<string>): (r: OMap<string, nat>)
    ensures r.Valid()
    decreases |ss|
  {
    if ss == [] then Empty() else Bump(Counts(ss[..|ss| - 1]), ss[|ss| - 1])
  }

  /** How many times `k` occurs in `ss`. */
  function Occ(ss: seq<string>, k: string): nat
    decreases |ss|
  {
    if ss == [] then 0 else Occ(ss[..|ss| - 1], k) + (if ss[|ss| - 1] == k then 1 else 0)
  }

  /** The sum of the values of a counter, over its listed keys. */
  function SumAt(keys: seq<string>, m: map<string, nat>): nat
    requires forall k :: k in keys ==> k in m
    decreases |keys|
  {
    if keys == [] then 0 else SumAt(keys[..|keys| - 1], m) + m[keys[|keys| - 1]]
  }

  function Total(d: OMap<string, nat>): nat
    requires d.Valid()
  {
    SumAt(d.keys, d.m)
  }

  /** A counter holds exactly the elements counted, each with its number of occurrences. */
  lemma {:induction false} CountsSpec(ss: seq<string>, k: string)
    ensures k in Counts(ss).m <==> k in ss
    ensures k in Counts(ss).m ==> Counts(ss).m[k] == Occ(ss, k)
    ensures k !in Counts(ss).m ==> Occ(ss, k) == 0
    decreases |ss|
  {
    if ss != [] {
      CountsSpec(ss[..|ss| - 1], k);
      assert ss == ss[..|ss| - 1] + [ss[|ss| - 1]];
    }
  }

  /** The counts add up to the number of elements counted. */
  lemma {:induction false} CountsTotal(ss: seq<string>)
    ensures Total(Counts(ss)) == |ss|
    decreases |ss|
  {
    if ss != [] {
      CountsTotal(ss[..|ss| - 1]);
      BumpTotal(Counts(ss[..|ss| - 1]), ss[|ss| - 1]);
    }
  }

  /** One bump adds one to the total. */
  lemma BumpTotal(d: OMap<string, nat>, k: string)
    requires d.Valid()
    ensures Total(Bump(d, k)) == Total(d) + 1
  {
    var e := Bump(d, k);
    if k in d.m {
      SumUpdate(d.keys, d.m, k, d.m[k] + 1);
    } else {
      SumFrame(d.keys, d.m, k, 1);
      assert e.keys[..|d.keys|] == d.keys;
    }
  }

  /** Changing the value of one listed key changes the sum by the difference. */
  lemma {:induction false} SumUpdate(keys: seq<string>, m: map<string, nat>, k: string, v: nat)
    requires forall x :: x in keys ==> x in m
    requires forall i, j :: 0 <= i < j < |keys| ==> keys[i] != keys[j]
    requires k in keys
    ensures SumAt(keys, m[k := v]) == SumAt(keys, m) - m[k] + v
    decreases |keys|
  {
    var init, last := keys[..|keys| - 1], keys[|keys| - 1];
    if last == k {
      SumFrame(init, m, k, v);
    } else {
      assert k in init by { assert keys == init + [last]; }
      SumUpdate(init, m, k, v);
    }
  }

  /** A key that is not listed does not take part in the sum. */
  lemma {:induction false} SumFrame(keys: seq<string>, m: map<string, nat>, k: string, v: nat)
    requires forall x :: x in keys ==> x in m
    requires k !in keys
    ensures SumAt(keys, m[k := v]) == SumAt(keys, m)
    decreases |keys|
  {
    if keys != [] {
      SumFrame(keys[..|keys| - 1], m, k, v);
    }
  }

  // ---------------------------------------------------------------------------
  // One file
  // ---------------------------------------------------------------------------

  /** The module paths of the imports of `imps` that name an indexed module, in order. */
  function PackageModuleStrs(h: PackageHelper, imps: seq<Import>): seq<string>
    decreases |imps|
  {
    if imps == [] then []
    else
      var rest := PackageModuleStrs(h, imps[..|imps| - 1]);
      var imp := imps[|imps| - 1];
      if IsPackageImport(h, imp) then rest + [imp.ModulesStr()] else rest
  }

  /** How many of `imps` import the module path `k`. */
  function ImportsOfModule(imps: seq<Import>, k: string): nat
    decreases |imps|
  {
    if imps == [] then 0
    else ImportsOfModule(imps[..|imps| - 1], k) + (if imps[|imps| - 1].ModulesStr() == k then 1 else 0)
  }

  /** The number of imports of `imps` that name an indexed module. */
  function FirstPartyCount(h: PackageHelper, imps: seq<Import>): nat
    decreases |imps|
  {
    if imps == [] then 0
    else FirstPartyCount(h, imps[..|imps| - 1]) + (if IsPackageImport(h, imps[|imps| - 1]) then 1 else 0)
  }

  /** The answer `get_file_cross_import_stats` gives for `f`. */
  function Stats(h: PackageHelper, f: FileInfo): FileCrossStats {
    FileCrossStats(f, Counts(PackageModuleStrs(h, f.imports)))
  }

  /** `get_file_cross_import_stats`: count, per module path, the imports of `f` whose module is a
      key of the index. */
  method FileCrossImportStats(h: PackageHelper, f: FileInfo) returns (r: FileCrossStats)
    ensures r == Stats(h, f)
  {
    var counts: OMap<string, nat> := Empty();
    for j := 0 to |f.imports|
      invariant counts == Counts(PackageModuleStrs(h, f.imports[..j]))
    {
      var imp := f.imports[j];
      assert f.imports[..j + 1][..j] == f.imports[..j];
      if IsPackageImport(h, imp) {
        assert PackageModuleStrs(h, f.imports[..j + 1]) == PackageModuleStrs(h, f.imports[..j]) + [imp.ModulesStr()];
        counts := Bump(counts, imp.ModulesStr());
      }
    }
    assert f.imports[..|f.imports|] == f.imports;
    r := FileCrossStats(f, counts);
  }

  /** The counter of a file: a key is a first-party module path some import of the file names,
      its value is the number of the file's imports of that path, and the values add up to the
      number of the file's first-party imports. */
  lemma StatsSpec(h: PackageHelper, f: FileInfo, k: string)
    ensures k in Stats(h, f).counts.m <==>
              k in h.byModule.m && exists i :: 0 <= i < |f.imports| && f.imports[i].ModulesStr() == k
    ensures k in Stats(h, f).counts.m ==> Stats(h, f).counts.m[k] == ImportsOfModule(f.imports, k)
    ensures Total(Stats(h, f).counts) == FirstPartyCount(h, f.imports)
  {
    CountsSpec(PackageModuleStrs(h, f.imports), k);
    PackageModuleStrsSpec(h, f.imports, k);
    CountsTotal(PackageModuleStrs(h, f.imports));
    PackageModuleStrsLength(h, f.imports);
  }

  lemma PackageModuleStrsSpec(h: PackageHelper, imps: seq<Import>, k: string)
    ensures k in PackageModuleStrs(h, imps) <==>
              k in h.byModule.m && exists i :: 0 <= i < |imps| && imps[i].ModulesStr() == k
    ensures Occ(PackageModuleStrs(h, imps), k) == if k in h.byModule.m then ImportsOfModule(imps, k) else 0
  {
    PackageModuleStrsOcc(h, imps, k);
    OccPositive(PackageModuleStrs(h, imps), k);
    ImportsOfModulePositive(imps, k);
  }

  /** Each path of `PackageModuleStrs` occurs once per import of it, and only indexed paths occur. */
  lemma {:induction false} PackageModuleStrsOcc(h: PackageHelper, imps: seq<Import>, k: string)
    ensures Occ(PackageModuleStrs(h, imps), k) == if k in h.byModule.m then ImportsOfModule(imps, k) else 0
    decreases |imps|
  {
    if imps != [] {
      var init, last := imps[..|imps| - 1], imps[|imps| - 1];
      PackageModuleStrsOcc(h, init, k);
      var rest := PackageModuleStrs(h, init);
      if IsPackageImport(h, last) {
        assert (rest + [last.ModulesStr()])[..|rest|] == rest;
      }
    }
  }

  /** An element occurs in a sequence exactly when it is counted at least once. */
  lemma {:induction false} OccPositive(ss: seq<string>, k: string)
    ensures k in ss <==> Occ(ss, k) > 0
    decreases |ss|
  {
    if ss != [] {
      OccPositive(ss[..|ss| - 1], k);
      assert ss == ss[..|ss| - 1] + [ss[|ss| - 1]];
    }
  }

  /** Some import names `k` exactly when `ImportsOfModule` counts at least one. */
  lemma {:induction false} ImportsOfModulePositive(imps: seq<Import>, k: string)
    ensures ImportsOfModule(imps, k) > 0 <==> exists i :: 0 <= i < |imps| && imps[i].ModulesStr() == k
    decreases |imps|
  {
    if imps != [] {
      var init := imps[..|imps| - 1];
      ImportsOfModulePositive(init, k);
      if exists i :: 0 <= i < |init| && init[i].ModulesStr() == k {
        var i :| 0 <= i < |init| && init[i].ModulesStr() == k;
        assert imps[i] == init[i];
      }
      if exists i :: 0 <= i < |imps| && imps[i].ModulesStr() == k {
        var i :| 0 <= i < |imps| && imps[i].ModulesStr() == k;
        if i < |init| { assert init[i] == imps[i]; }
      }
    }
  }

  lemma {:induction false} PackageModuleStrsLength(h: PackageHelper, imps: seq<Import>)
    ensures |PackageModuleStrs(h, imps)| == FirstPartyCount(h, imps)
    decreases |imps|
  {
    if imps != [] {
      PackageModuleStrsLength(h, imps[..|imps| - 1]);
    }
  }

  /** An import of a module that is not indexed is never counted. */
  lemma ThirdPartyNotCounted(h: PackageHelper, f: FileInfo, k: string)
    requires k !in h.byModule.m
    ensures k !in Stats(h, f).counts.m
  {
    StatsSpec(h, f, k);
  }

  // ---------------------------------------------------------------------------
  // The package
  // ---------------------------------------------------------------------------

  /** The answers of the files `fs` whose counter is not empty, in order. */
  function NonEmptyStats(h: PackageHelper, fs: seq<FileInfo>): seq<FileCrossStats>
    decreases |fs|
  {
    if fs == [] then []
    else
      var rest := NonEmptyStats(h, fs[..|fs| - 1]);
      var s := Stats(h, fs[|fs| - 1]);
      if s.counts.keys != [] then rest + [s] else rest
  }

  /** `get_package_cross_import_stats`: the answer for every indexed file, in index order, keeping
      those with at least one count. */
  method PackageCrossImportStats(h: PackageHelper) returns (rs: seq<FileCrossStats>)
    requires h.byModule.Valid()
    ensures rs == NonEmptyStats(h, h.byModule.Values())
  {
    var fs := h.byModule.Values();
    var all: seq<FileCrossStats> := [];
    for j := 0 to |fs|
      invariant |all| == j && forall i :: 0 <= i < j ==> all[i] == Stats(h, fs[i])
    {
      var s := FileCrossImportStats(h, fs[j]);
      all := all + [s];
    }
    rs := [];
    for j := 0 to |all|
      invariant rs == NonEmptyStats(h, fs[..j])
    {
      assert fs[..j + 1][..j] == fs[..j];
      if all[j].counts.keys != [] {
        rs := rs + [all[j]];
      }
    }
    assert fs[..|fs|] == fs;
  }

  /** The package result holds exactly the answers of indexed files that import some first-party
      module, in index order. */
  lemma {:induction false} NonEmptyStatsSpec(h: PackageHelper, fs: seq<FileInfo>, x: FileCrossStats)
    ensures x in NonEmptyStats(h, fs) <==>
              x.info in fs && x == Stats(h, x.info) && FirstPartyCount(h, x.info.imports) > 0
    ensures IsSubsequence(ModulesOfStats(NonEmptyStats(h, fs)), fs)
    decreases |fs|
  {
    if fs != [] {
      var init, last := fs[..|fs| - 1], fs[|fs| - 1];
      NonEmptyStatsSpec(h, init, x);
      assert fs == init + [last];
      var rest := NonEmptyStats(h, init);
      var s := Stats(h, last);
      NotEmptyIffImports(h, last);
      if s.counts.keys != [] {
        assert ModulesOfStats(rest + [s]) == ModulesOfStats(rest) + [last];
        SubsequenceConcat(ModulesOfStats(rest), init, [last], [last]);
      } else {
        SubsequenceConcat(ModulesOfStats(rest), init, [], [last]);
        assert ModulesOfStats(rest) + [] == ModulesOfStats(rest);
      }
    }
  }

  /** The files the answers are about, in order. */
  function ModulesOfStats(rs: seq<FileCrossStats>): (r: seq<FileInfo>)
    ensures |r| == |rs| && forall i :: 0 <= i < |rs| ==> r[i] == rs[i].info
  {
    seq(|rs|, i requires 0 <= i < |rs| => rs[i].info)
  }

  /** A file's counter is empty exactly when it has no first-party import. */
  lemma NotEmptyIffImports(h: PackageHelper, f: FileInfo)
    ensures Stats(h, f).counts.keys != [] <==> FirstPartyCount(h, f.imports) > 0
  {
    var ss := PackageModuleStrs(h, f.imports);
    PackageModuleStrsLength(h, f.imports);
    if ss != [] {
      CountsSpec(ss, ss[0]);
    }
  }

  // ---------------------------------------------------------------------------
  // to_dict
  // ---------------------------------------------------------------------------

  /** The module keys of the answers, in order. */
  function KeysOfStats(rs: seq<FileCrossStats>): (r: seq<string>)
    ensures |r| == |rs| && forall i :: 0 <= i < |rs| ==> r[i] == rs[i].info.moduleKey
  {
    seq(|rs|, i requires 0 <= i < |rs| => rs[i].info.moduleKey)
  }

  /** The table `to_dict` builds from `rs`: each answer's counter as a plain map under its file's
      module key, put in order. */
  function DictOf(rs: seq<FileCrossStats>): (r: OMap<string, map<string, nat>>)
    ensures r.Valid()
    decreases |rs|
  {
    if rs == [] then Empty()
    else DictOf(rs[..|rs| - 1]).Put(rs[|rs| - 1].info.moduleKey, rs[|rs| - 1].counts.m)
  }

  /** `PythonPackageCrossImportStatsResponse.to_dict`. */
  method ToDict(rs: seq<FileCrossStats>) returns (d: OMap<string, map<string, nat>>)
    ensures d == DictOf(rs)
  {
    d := Empty();
    for n := 0 to |rs|
      invariant d == DictOf(rs[..n])
    {
      assert rs[..n + 1][..n] == rs[..n];
      d := d.Put(rs[n].info.moduleKey, rs[n].counts.m);
    }
    assert rs[..|rs|] == rs;
  }

  /** The table is keyed by the module keys of the answers, in first-occurrence order. */
  lemma {:induction false} DictOfKeys(rs: seq<FileCrossStats>)
    ensures DictOf(rs).keys == Dedup(KeysOfStats(rs))
    ensures forall k :: k in DictOf(rs).m <==> k in KeysOfStats(rs)
    decreases |rs|
  {
    if rs != [] {
      var init := rs[..|rs| - 1];
      var key := rs[|rs| - 1].info.moduleKey;
      DictOfKeys(init);
      assert KeysOfStats(rs) == KeysOfStats(init) + [key];
      DedupSpec(KeysOfStats(init));
    }
  }

  /** A key is in the table exactly when some answer is about a file with that module key. */
  lemma DictOfDomain(rs: seq<FileCrossStats>, k: string)
    ensures k in DictOf(rs).m <==> exists i :: 0 <= i < |rs| && rs[i].info.moduleKey == k
  {
    DictOfKeys(rs);
    if k in KeysOfStats(rs) {
      var i :| 0 <= i < |rs| && KeysOfStats(rs)[i] == k;
    }
  }

  /** Under each key is the counter of the last answer for that key. */
  lemma {:induction false} DictOfLastWins(rs: seq<FileCrossStats>, i: nat)
    requires i < |rs|
    requires forall j :: i < j < |rs| ==> rs[j].info.moduleKey != rs[i].info.moduleKey
    ensures rs[i].info.moduleKey in DictOf(rs).m
    ensures DictOf(rs).m[rs[i].info.moduleKey] == rs[i].counts.m
    decreases |rs|
  {
    if i < |rs| - 1 {
      var init := rs[..|rs| - 1];
      assert init[i] == rs[i];
      forall j | i < j < |init| ensures init[j].info.moduleKey != init[i].info.moduleKey {
        assert init[j] == rs[j];
      }
      DictOfLastWins(init, i);
    }
  }

  /** No answers give an empty table. */
  lemma ToDictEmpty()
    ensures DictOf([]).keys == []
  {
  }
}
