/**
 * The package index that both `python_package_helper.py` files build in
 * `for_python_files`: the map from module key to parsed file, the unwinding
 * of relative imports into absolute ones, and the reverse index from an
 * import key to the files that carry such an import.
 *
 * The two helpers share this code word for word except for the key of the
 * reverse index, which is a parameter (`Keying`) here.
 */
module PackageIndex {
  import opened Wrappers
  import opened Strings
  import opened OrderedMaps
  import opened PyAst
  import opened PythonFileInfo
  import PythonUtils

  /** One file of the digest: its path, its text and its syntax tree (parsing itself is not modelled). */
  datatype SourceFile = SourceFile(path: string, content: string, tree: Node)

  /** `PythonPackageHelper`: the index, the reverse index and the ignore lists, frozen once built. */
  datatype PackageHelper = PackageHelper(
    includeTop: bool,
    byModule: OMap<string, FileInfo>,
    reverse: OMap<string, seq<FileInfo>>,
    ignored: map<string, seq<string>>)

  /** The module key `for_python_files` generates for a file. */
  function SourceKey(src: SourceFile, includeTop: bool): string {
    PythonUtils.ModuleKey(src.path, includeTop)
  }

  /** `from_python_file_path` on a file of the digest, under its generated key. */
  function Parse(src: SourceFile, includeTop: bool): FileInfo {
    FromAst(src.path, src.content, SourceKey(src, includeTop), src.tree)
  }

  /** Every file of the digest, parsed. */
  function Parsed(files: seq<SourceFile>, includeTop: bool): (r: seq<FileInfo>)
    ensures |r| == |files|
    ensures forall j :: 0 <= j < |files| ==> r[j] == Parse(files[j], includeTop)
    ensures forall j :: 0 <= j < |files| ==> r[j].moduleKey == SourceKey(files[j], includeTop) && r[j].path == files[j].path
  {
    seq(|files|, j requires 0 <= j < |files| => Parse(files[j], includeTop))
  }

  // ---------------------------------------------------------------------------
  // The index
  // ---------------------------------------------------------------------------

  /** The dictionary the first loop of `for_python_files` fills: every parsed file under its own key. */
  function Index(fs: seq<FileInfo>): (r: OMap<string, FileInfo>)
    ensures r.Valid()
    decreases |fs|
  {
    if fs == [] then Empty()
    else
      var last := fs[|fs| - 1];
      Index(fs[..|fs| - 1]).Put(last.moduleKey, last)
  }

  /** The first loop of `for_python_files`: parse each file and file it under its generated key. */
  method BuildIndex(files: seq<SourceFile>, includeTop: bool) returns (d: OMap<string, FileInfo>)
    ensures d == Index(Parsed(files, includeTop))
  {
    ghost var parsed := Parsed(files, includeTop);
    d := Empty();
    for j := 0 to |files|
      invariant d == Index(parsed[..j])
    {
      var info := Parse(files[j], includeTop);
      IndexSnoc(parsed, j, info);
      d := d.Put(info.moduleKey, info);
    }
    assert parsed[..|files|] == parsed;
  }

  /** Indexing one more record puts it under its key. */
  lemma IndexSnoc(fs: seq<FileInfo>, j: nat, info: FileInfo)
    requires j < |fs| && fs[j] == info
    ensures Index(fs[..j + 1]) == Index(fs[..j]).Put(info.moduleKey, info)
  {
    assert fs[..j + 1][..j] == fs[..j];
  }

  /** A key is indexed exactly when some file carries it. */
  lemma {:induction false} IndexKeys(fs: seq<FileInfo>, k: string)
    ensures k in Index(fs).m <==> exists j :: 0 <= j < |fs| && fs[j].moduleKey == k
    decreases |fs|
  {
    if fs != [] {
      var init := fs[..|fs| - 1];
      IndexKeys(init, k);
      IndexKeysStep(fs, init, k);
    }
  }

  lemma IndexKeysStep(fs: seq<FileInfo>, init: seq<FileInfo>, k: string)
    requires fs != [] && init == fs[..|fs| - 1]
    ensures (exists j :: 0 <= j < |fs| && fs[j].moduleKey == k) <==>
            (exists j :: 0 <= j < |init| && init[j].moduleKey == k) || fs[|fs| - 1].moduleKey == k
  {
    if exists j :: 0 <= j < |fs| && fs[j].moduleKey == k {
      var j :| 0 <= j < |fs| && fs[j].moduleKey == k;
      if j < |init| { assert init[j] == fs[j]; }
    }
    if exists j :: 0 <= j < |init| && init[j].moduleKey == k {
      var j :| 0 <= j < |init| && init[j].moduleKey == k;
      assert fs[j] == init[j];
    }
  }

  /** The record under a key carries that key as its own module key. */
  lemma {:induction false} IndexRecordKeys(fs: seq<FileInfo>, k: string)
    requires k in Index(fs).m
    ensures Index(fs).m[k].moduleKey == k
    decreases |fs|
  {
    var init := fs[..|fs| - 1];
    if k != fs[|fs| - 1].moduleKey {
      IndexRecordKeys(init, k);
    }
  }

  /** A later file with the same module key replaces an earlier one: the key holds the last file
      that carries it. */
  lemma {:induction false} IndexLaterWins(fs: seq<FileInfo>, j: nat)
    requires j < |fs|
    requires forall j' :: j < j' < |fs| ==> fs[j'].moduleKey != fs[j].moduleKey
    ensures fs[j].moduleKey in Index(fs).m && Index(fs).m[fs[j].moduleKey] == fs[j]
    decreases |fs|
  {
    if j < |fs| - 1 {
      var init := fs[..|fs| - 1];
      assert init[j] == fs[j];
      forall j' | j < j' < |init|
        ensures init[j'].moduleKey != init[j].moduleKey
      {
        assert init[j'] == fs[j'];
      }
      IndexLaterWins(init, j);
    }
  }

  // ---------------------------------------------------------------------------
  // Unwinding relative imports
  // ---------------------------------------------------------------------------

  /** `tuple(key.split("."))[:-level]` for a level of at least 1: empty once the level reaches
      the number of segments. */
  function KeyPrefix(key: string, level: nat): seq<string> {
    var segs := SplitOn(key, ".");
    if level < |segs| then segs[..|segs| - level] else []
  }

  /** One import made absolute against the key of the file that holds it. (Module paths are
      never `None` in this model, so only the level decides.) */
  function UnwindImport(key: string, imp: Import): (r: Import)
    ensures r.IsAbsolute()
    ensures r.names == imp.names && r.aliases == imp.aliases
    ensures imp.IsAbsolute() ==> r == imp
  {
    if imp.IsAbsolute() then imp
    else Import(KeyPrefix(key, imp.level) + imp.modules, 0, imp.names, imp.aliases)
  }

  /** A file with every import unwound against its key. */
  function UnwindFile(key: string, f: FileInfo): FileInfo {
    f.(imports := seq(|f.imports|, i requires 0 <= i < |f.imports| => UnwindImport(key, f.imports[i])))
  }

  /** The index after `unwind_relative_imports`: same keys in the same order, every file unwound. */
  function UnwindAll(d: OMap<string, FileInfo>): (r: OMap<string, FileInfo>)
    requires d.Valid()
    ensures r.Valid() && r.keys == d.keys && r.m.Keys == d.m.Keys
  {
    OMap(d.keys, map k | k in d.m :: UnwindFile(k, d.m[k]))
  }

  /** Unwinding keeps every field but the imports, keeps the number of imports, makes every import
      absolute, keeps each import's names and aliases, and leaves absolute imports as they were. */
  lemma UnwindFileSpec(key: string, f: FileInfo)
    ensures |UnwindFile(key, f).imports| == |f.imports|
    ensures UnwindFile(key, f) == f.(imports := UnwindFile(key, f).imports)
    ensures forall i :: 0 <= i < |f.imports| ==> UnwindFile(key, f).imports[i].IsAbsolute()
    ensures forall i :: 0 <= i < |f.imports| ==>
              && UnwindFile(key, f).imports[i].names == f.imports[i].names
              && UnwindFile(key, f).imports[i].aliases == f.imports[i].aliases
    ensures forall i :: 0 <= i < |f.imports| && f.imports[i].IsAbsolute() ==> UnwindFile(key, f).imports[i] == f.imports[i]
  {
  }

  /** After unwinding, every import of every indexed file is absolute, and each file differs from
      its original at most in its imports. */
  lemma UnwindAllSpec(d: OMap<string, FileInfo>, k: string)
    requires d.Valid() && k in d.m
    ensures UnwindAll(d).m[k] == d.m[k].(imports := UnwindAll(d).m[k].imports)
    ensures forall i :: 0 <= i < |UnwindAll(d).m[k].imports| ==> UnwindAll(d).m[k].imports[i].IsAbsolute()
  {
    UnwindFileSpec(k, d.m[k]);
  }

  /** `unwind_relative_imports`: rewrites the dictionary entry by entry. */
  method UnwindRelativeImports(d0: OMap<string, FileInfo>) returns (d: OMap<string, FileInfo>)
    requires d0.Valid()
    ensures d == UnwindAll(d0)
  {
    d := d0;
    for j := 0 to |d0.keys|
      invariant d.Valid() && d.keys == d0.keys && d.m.Keys == d0.m.Keys
      invariant forall n :: 0 <= n < j ==> d.m[d0.keys[n]] == UnwindFile(d0.keys[n], d0.m[d0.keys[n]])
      invariant forall n :: j <= n < |d0.keys| ==> d.m[d0.keys[n]] == d0.m[d0.keys[n]]
    {
      assert forall n :: 0 <= n < |d0.keys| && n != j ==> d0.keys[n] != d0.keys[j];
      d := UnwindEntry(d, d0.keys[j]);
    }
    forall k | k in d0.m
      ensures d.m[k] == UnwindAll(d0).m[k]
    {
      var n :| 0 <= n < |d0.keys| && d0.keys[n] == k;
    }
    assert d.m == UnwindAll(d0).m;
  }

  /** The inner loop of `unwind_relative_imports`: the imports of one entry, index by index. */
  method UnwindEntry(d0: OMap<string, FileInfo>, key: string) returns (d: OMap<string, FileInfo>)
    requires d0.Valid() && key in d0.m
    ensures d.Valid() && d.keys == d0.keys
    ensures d.m == d0.m[key := UnwindFile(key, d0.m[key])]
  {
    d := d0;
    ghost var f0 := d0.m[key];
    var count := |d.m[key].imports|;
    for i := 0 to count
      invariant d.Valid() && d.keys == d0.keys && key in d.m
      invariant d.m == d0.m[key := d.m[key]]
      invariant d.m[key] == f0.(imports := d.m[key].imports) && |d.m[key].imports| == count
      invariant forall n :: 0 <= n < i ==> d.m[key].imports[n] == UnwindImport(key, f0.imports[n])
      invariant forall n :: i <= n < count ==> d.m[key].imports[n] == f0.imports[n]
    {
      var existing := d.m[key];
      var current := existing.imports[i];
      if !current.IsAbsolute() {
        var fixed := existing.imports[i := Import(KeyPrefix(key, current.level) + current.modules, 0,
                                                  current.names, current.aliases)];
        d := d.Put(key, FileInfo(existing.path, existing.content, existing.moduleKey, fixed,
                                 existing.classes, existing.functions, existing.constants));
      }
    }
    assert d.m[key].imports == UnwindFile(key, f0).imports;
  }

  /** Against a key made of dot-free segments, a relative import of level `l` is prefixed with all
      but the last `l` segments, or with nothing once `l` reaches the number of segments. */
  lemma UnwindAgainstSegments(segs: seq<string>, imp: Import)
    requires |segs| >= 1 && forall i :: 0 <= i < |segs| ==> '.' !in segs[i]
    requires !imp.IsAbsolute()
    ensures imp.level < |segs| ==>
              UnwindImport(Join(segs, "."), imp).modules == segs[..|segs| - imp.level] + imp.modules
    ensures imp.level >= |segs| ==> UnwindImport(Join(segs, "."), imp).modules == imp.modules
  {
    KeyPrefixOfSegments(segs, imp.level);
  }

  lemma KeyPrefixOfSegments(segs: seq<string>, level: nat)
    requires |segs| >= 1 && forall i :: 0 <= i < |segs| ==> '.' !in segs[i]
    ensures KeyPrefix(Join(segs, "."), level) == if level < |segs| then segs[..|segs| - level] else []
  {
    SplitJoin(segs, ".");
  }

  // ---------------------------------------------------------------------------
  // The reverse index
  // ---------------------------------------------------------------------------

  /** What the reverse index is keyed by. */
  datatype Keying =
    | ByModulesStr          // `python_connect`: every import, under its `modules_str`
    | ByWildcardImportStr   // `wildcard_imports`: wildcard imports only, under their `import_str`

  /** The bucket an import is filed under, if any. */
  function KeyOf(keying: Keying, imp: Import): Option<string> {
    match keying
    case ByModulesStr => Some(imp.ModulesStr())
    case ByWildcardImportStr => if imp.IsWildcardImport() then Some(imp.ImportStr()) else None
  }

  /** The bucket of each import, in order. */
  function ImportKeys(keying: Keying, imps: seq<Import>): seq<Option<string>>
    decreases |imps|
  {
    if imps == [] then [] else ImportKeys(keying, imps[..|imps| - 1]) + [KeyOf(keying, imps[|imps| - 1])]
  }

  /** The buckets of the imports of `f`. */
  function KeysOf(keying: Keying, f: FileInfo): seq<Option<string>> {
    ImportKeys(keying, f.imports)
  }

  /** The (key, file) pairs all imports of all files contribute, in file order. */
  function Entries(keying: Keying, fs: seq<FileInfo>): seq<(string, FileInfo)>
    decreases |fs|
  {
    if fs == [] then []
    else
      var last := fs[|fs| - 1];
      Entries(keying, fs[..|fs| - 1]) + Tagged(KeysOf(keying, last), last)
  }

  /** The loop of `for_python_files` that fills the `defaultdict` reverse index. */
  method BuildReverseIndex(keying: Keying, fs: seq<FileInfo>) returns (rev: OMap<string, seq<FileInfo>>)
    ensures rev == Group(Entries(keying, fs))
  {
    rev := Empty();
    for j := 0 to |fs|
      invariant rev == Group(Entries(keying, fs[..j]))
    {
      rev := FileIntoReverseIndex(rev, keying, fs[j], Entries(keying, fs[..j]));
      assert fs[..j + 1][..j] == fs[..j];
    }
    assert fs[..|fs|] == fs;
  }

  /** The inner loop: file each import of `f` under its key, in order. */
  method FileIntoReverseIndex(rev0: OMap<string, seq<FileInfo>>, keying: Keying, f: FileInfo,
                              ghost before: seq<(string, FileInfo)>)
    returns (rev: OMap<string, seq<FileInfo>>)
    requires rev0 == Group(before)
    ensures rev == Group(before + Tagged(KeysOf(keying, f), f))
  {
    rev := rev0;
    assert before + Tagged(ImportKeys(keying, f.imports[..0]), f) == before;
    for i := 0 to |f.imports|
      invariant rev == Group(before + Tagged(ImportKeys(keying, f.imports[..i]), f))
    {
      var key := KeyOf(keying, f.imports[i]);
      assert f.imports[..i + 1][..i] == f.imports[..i];
      GroupTaggedSnoc(before, ImportKeys(keying, f.imports[..i]), key, f);
      if key.Some? {
        rev := Append(rev, key.value, f);
      }
    }
    assert f.imports[..|f.imports|] == f.imports;
  }

  /** The files with an import filed under `k`, in file order, each once per such import. */
  function Occurrences(keying: Keying, fs: seq<FileInfo>, k: string): seq<FileInfo>
    decreases |fs|
  {
    if fs == [] then []
    else
      var last := fs[|fs| - 1];
      Occurrences(keying, fs[..|fs| - 1], k) + Repeat(last, CountSome(KeysOf(keying, last), k))
  }

  lemma {:induction false} ValuesForEntries(keying: Keying, fs: seq<FileInfo>, k: string)
    ensures ValuesFor(Entries(keying, fs), k) == Occurrences(keying, fs, k)
    decreases |fs|
  {
    if fs != [] {
      var last := fs[|fs| - 1];
      ValuesForEntries(keying, fs[..|fs| - 1], k);
      ValuesForTagged(KeysOf(keying, last), last, k);
      ValuesForAppend(Entries(keying, fs[..|fs| - 1]), Tagged(KeysOf(keying, last), last), k);
    }
  }

  lemma {:induction false} OccurrencesSpec(keying: Keying, fs: seq<FileInfo>, k: string)
    ensures Occurrences(keying, fs, k) != [] <==>
              exists j, i :: 0 <= j < |fs| && 0 <= i < |fs[j].imports| && KeyOf(keying, fs[j].imports[i]) == Some(k)
    decreases |fs|
  {
    if fs != [] {
      var init := fs[..|fs| - 1];
      OccurrencesSpec(keying, init, k);
      OccurrencesStep(keying, fs, init, k);
    }
  }

  lemma OccurrencesStep(keying: Keying, fs: seq<FileInfo>, init: seq<FileInfo>, k: string)
    requires fs != [] && init == fs[..|fs| - 1]
    requires Occurrences(keying, init, k) != [] <==>
               exists j, i :: 0 <= j < |init| && 0 <= i < |init[j].imports| && KeyOf(keying, init[j].imports[i]) == Some(k)
    ensures Occurrences(keying, fs, k) != [] <==>
              exists j, i :: 0 <= j < |fs| && 0 <= i < |fs[j].imports| && KeyOf(keying, fs[j].imports[i]) == Some(k)
  {
    var last := fs[|fs| - 1];
    var n := CountSome(KeysOf(keying, last), k);
    assert |Occurrences(keying, fs, k)| == |Occurrences(keying, init, k)| + n;
    KeyedImport(keying, last, k);
    FilesSplit(keying, fs, init, last, k);
  }

  /** A file is in the bucket of `k` exactly when it is one of the files and one of its imports
      is filed under `k`. */
  lemma OccurrencesMember(keying: Keying, fs: seq<FileInfo>, k: string, g: FileInfo)
    ensures g in Occurrences(keying, fs, k) <==>
              g in fs && exists i :: 0 <= i < |g.imports| && KeyOf(keying, g.imports[i]) == Some(k)
  {
    KeyedImport(keying, g, k);
    OccurrencesCount(keying, fs, k, g);
  }

  /** A file is in the bucket of `k` exactly when it is one of the files and its key list holds
      `Some(k)`. */
  lemma {:induction false} OccurrencesCount(keying: Keying, fs: seq<FileInfo>, k: string, g: FileInfo)
    ensures g in Occurrences(keying, fs, k) <==> g in fs && CountSome(KeysOf(keying, g), k) > 0
    decreases |fs|
  {
    if fs != [] {
      var init, last := fs[..|fs| - 1], fs[|fs| - 1];
      OccurrencesCount(keying, init, k, g);
      var n := CountSome(KeysOf(keying, last), k);
      assert Occurrences(keying, fs, k) == Occurrences(keying, init, k) + Repeat(last, n);
      assert g in Repeat(last, n) <==> n > 0 && g == last;
      assert fs == init + [last];
    }
  }

  /** A file's key list holds `Some(k)` exactly when one of its imports is filed under `k`. */
  lemma KeyedImport(keying: Keying, f: FileInfo, k: string)
    ensures CountSome(KeysOf(keying, f), k) > 0 <==>
              exists i :: 0 <= i < |f.imports| && KeyOf(keying, f.imports[i]) == Some(k)
  {
    CountSomeSpec(KeysOf(keying, f), k);
    ImportKeysSpec(keying, f.imports, k);
  }

  lemma {:induction false} ImportKeysSpec(keying: Keying, imps: seq<Import>, k: string)
    ensures Some(k) in ImportKeys(keying, imps) <==> exists i :: 0 <= i < |imps| && KeyOf(keying, imps[i]) == Some(k)
    decreases |imps|
  {
    if imps != [] {
      var init := imps[..|imps| - 1];
      ImportKeysSpec(keying, init, k);
      if exists i :: 0 <= i < |init| && KeyOf(keying, init[i]) == Some(k) {
        var i :| 0 <= i < |init| && KeyOf(keying, init[i]) == Some(k);
        assert imps[i] == init[i];
      }
      if exists i :: 0 <= i < |imps| && KeyOf(keying, imps[i]) == Some(k) {
        var i :| 0 <= i < |imps| && KeyOf(keying, imps[i]) == Some(k);
        if i < |init| { assert init[i] == imps[i]; }
      }
    }
  }

  lemma FilesSplit(keying: Keying, fs: seq<FileInfo>, init: seq<FileInfo>, last: FileInfo, k: string)
    requires fs != [] && init == fs[..|fs| - 1] && last == fs[|fs| - 1]
    ensures (exists j, i :: 0 <= j < |fs| && 0 <= i < |fs[j].imports| && KeyOf(keying, fs[j].imports[i]) == Some(k)) <==>
            (exists j, i :: 0 <= j < |init| && 0 <= i < |init[j].imports| && KeyOf(keying, init[j].imports[i]) == Some(k)) ||
            (exists i :: 0 <= i < |last.imports| && KeyOf(keying, last.imports[i]) == Some(k))
  {
    if exists j, i :: 0 <= j < |fs| && 0 <= i < |fs[j].imports| && KeyOf(keying, fs[j].imports[i]) == Some(k) {
      FilesSplitInto(keying, fs, init, last, k);
    }
    if (exists j, i :: 0 <= j < |init| && 0 <= i < |init[j].imports| && KeyOf(keying, init[j].imports[i]) == Some(k)) ||
       (exists i :: 0 <= i < |last.imports| && KeyOf(keying, last.imports[i]) == Some(k)) {
      FilesSplitFrom(keying, fs, init, last, k);
    }
  }

  lemma FilesSplitInto(keying: Keying, fs: seq<FileInfo>, init: seq<FileInfo>, last: FileInfo, k: string)
    requires fs != [] && init == fs[..|fs| - 1] && last == fs[|fs| - 1]
    requires exists j, i :: 0 <= j < |fs| && 0 <= i < |fs[j].imports| && KeyOf(keying, fs[j].imports[i]) == Some(k)
    ensures (exists j, i :: 0 <= j < |init| && 0 <= i < |init[j].imports| && KeyOf(keying, init[j].imports[i]) == Some(k)) ||
            (exists i :: 0 <= i < |last.imports| && KeyOf(keying, last.imports[i]) == Some(k))
  {
    var j, i :| 0 <= j < |fs| && 0 <= i < |fs[j].imports| && KeyOf(keying, fs[j].imports[i]) == Some(k);
    if j < |init| {
      assert init[j] == fs[j];
    } else {
      assert fs[j] == last;
    }
  }

  lemma FilesSplitFrom(keying: Keying, fs: seq<FileInfo>, init: seq<FileInfo>, last: FileInfo, k: string)
    requires fs != [] && init == fs[..|fs| - 1] && last == fs[|fs| - 1]
    requires (exists j, i :: 0 <= j < |init| && 0 <= i < |init[j].imports| && KeyOf(keying, init[j].imports[i]) == Some(k)) ||
             (exists i :: 0 <= i < |last.imports| && KeyOf(keying, last.imports[i]) == Some(k))
    ensures exists j, i :: 0 <= j < |fs| && 0 <= i < |fs[j].imports| && KeyOf(keying, fs[j].imports[i]) == Some(k)
  {
    if exists j, i :: 0 <= j < |init| && 0 <= i < |init[j].imports| && KeyOf(keying, init[j].imports[i]) == Some(k) {
      var j, i :| 0 <= j < |init| && 0 <= i < |init[j].imports| && KeyOf(keying, init[j].imports[i]) == Some(k);
      assert fs[j] == init[j];
    } else {
      var i :| 0 <= i < |last.imports| && KeyOf(keying, last.imports[i]) == Some(k);
      assert fs[|fs| - 1] == last;
    }
  }

  /** The reverse index: a key has a bucket exactly when some import of some file is filed under
      it, and the bucket lists those files in file order, once per such import. */
  lemma ReverseBucket(keying: Keying, fs: seq<FileInfo>, k: string)
    ensures k in Group(Entries(keying, fs)).m <==>
              exists j, i :: 0 <= j < |fs| && 0 <= i < |fs[j].imports| && KeyOf(keying, fs[j].imports[i]) == Some(k)
    ensures k in Group(Entries(keying, fs)).m ==> Group(Entries(keying, fs)).m[k] == Occurrences(keying, fs, k)
    ensures k !in Group(Entries(keying, fs)).m ==> Occurrences(keying, fs, k) == []
  {
    var e := Entries(keying, fs);
    GroupSpec(e, k);
    ValuesForEntries(keying, fs, k);
    OccurrencesSpec(keying, fs, k);
    if exists i :: 0 <= i < |e| && e[i].0 == k {
      var i :| 0 <= i < |e| && e[i].0 == k;
      ValuesForWitness(e, k, i);
    }
  }

  // ---------------------------------------------------------------------------
  // The helper as built
  // ---------------------------------------------------------------------------

  /** `h` is what `for_python_files` builds from `files`, with its reverse index keyed by `keying`. */
  ghost predicate Indexes(h: PackageHelper, files: seq<SourceFile>, keying: Keying) {
    && h.byModule == UnwindAll(Index(Parsed(files, h.includeTop)))
    && Reverses(h, keying)
  }

  /** The reverse index of `h` files its indexed files, in index order, by `keying`. */
  ghost predicate Reverses(h: PackageHelper, keying: Keying) {
    && h.byModule.Valid()
    && h.reverse == Group(Entries(keying, h.byModule.Values()))
  }

  /** `get_python_file_info_from_file_path`: the record under the path's generated key, or a
      `KeyError` naming that key. */
  function FileInfoFromPath(h: PackageHelper, path: string): (r: Result<FileInfo, string>)
    ensures r.Success? <==> PythonUtils.ModuleKey(path, h.includeTop) in h.byModule.m
  {
    var key := PythonUtils.ModuleKey(path, h.includeTop);
    if key in h.byModule.m then Success(h.byModule.m[key]) else Failure("KeyError: " + key)
  }

  /** Looking a path up succeeds exactly when some file of the digest generates the same key, and
      then finds a record with that key. */
  lemma LookupByPath(h: PackageHelper, files: seq<SourceFile>, keying: Keying, path: string)
    requires Indexes(h, files, keying)
    ensures FileInfoFromPath(h, path).Success? <==>
              exists j :: 0 <= j < |files| && SourceKey(files[j], h.includeTop) == PythonUtils.ModuleKey(path, h.includeTop)
    ensures FileInfoFromPath(h, path).Success? ==>
              FileInfoFromPath(h, path).value.moduleKey == PythonUtils.ModuleKey(path, h.includeTop)
  {
    var key := PythonUtils.ModuleKey(path, h.includeTop);
    var parsed := Parsed(files, h.includeTop);
    IndexKeys(parsed, key);
    if key in h.byModule.m {
      IndexRecordKeys(parsed, key);
    }
  }

  /** Looking up the path of the last file with its key finds that file, parsed and unwound. */
  lemma LookupLastFile(h: PackageHelper, files: seq<SourceFile>, keying: Keying, j: nat)
    requires Indexes(h, files, keying)
    requires j < |files|
    requires forall j' :: j < j' < |files| ==> SourceKey(files[j'], h.includeTop) != SourceKey(files[j], h.includeTop)
    ensures FileInfoFromPath(h, files[j].path) ==
              Success(UnwindFile(SourceKey(files[j], h.includeTop), Parse(files[j], h.includeTop)))
  {
    IndexLaterWins(Parsed(files, h.includeTop), j);
  }
}
