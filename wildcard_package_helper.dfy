/**
 * `wildcard_imports/import_fixer/python_package_helper.py`: the package
 * helper whose reverse index files a file under each of its wildcard imports,
 * and the queries the wildcard resolver makes on it: which files wildcard-
 * import a module, and which names and imports a source file takes from a
 * file it reaches through a wildcard.
 */
module WildcardPackageHelper {
  import opened Wrappers
  import opened Strings
  import opened OrderedMaps
  import opened PythonFileInfo
  import opened PackageIndex
  import PythonUtils

  /** `for_python_files`: index the files under their generated keys, unwind their relative
      imports, then file every indexed file under the `import_str` of each wildcard import. */
  method ForPythonFiles(files: seq<SourceFile>, includeTop: bool, ignored: map<string, seq<string>>)
    returns (h: PackageHelper)
    ensures h.includeTop == includeTop && h.ignored == ignored
    ensures Indexes(h, files, ByWildcardImportStr)
  {
    var index := BuildIndex(files, includeTop);
    index := UnwindRelativeImports(index);
    var reverse := BuildReverseIndex(ByWildcardImportStr, index.Values());
    h := PackageHelper(includeTop, index, reverse, ignored);
  }

  /** The `import_str` of a wildcard import of the module with key `moduleKey`. */
  function WildcardImportStr(moduleKey: string): string {
    "from " + moduleKey + " import *"
  }

  /** `get_transtive_python_files_by_wildcard_import`: the files that wildcard-import the module
      of `src`, or none. */
  function TransitiveByWildcardImport(h: PackageHelper, src: FileInfo): seq<FileInfo> {
    var key := WildcardImportStr(src.moduleKey);
    if key in h.reverse.m then h.reverse.m[key] else []
  }

  /** The files found for `src` are, in index order, the indexed files with a wildcard import
      rendered `from <key of src> import *`, each once per such import; a file is found exactly
      when it is indexed and has such an import. */
  lemma TransitiveByWildcardImportSpec(h: PackageHelper, src: FileInfo)
    requires Reverses(h, ByWildcardImportStr)
    ensures TransitiveByWildcardImport(h, src) ==
              Occurrences(ByWildcardImportStr, h.byModule.Values(), WildcardImportStr(src.moduleKey))
    ensures forall g :: g in TransitiveByWildcardImport(h, src) <==>
              (exists k :: k in h.byModule.m && h.byModule.m[k] == g) &&
              (exists i :: 0 <= i < |g.imports| && g.imports[i].IsWildcardImport() &&
                           g.imports[i].ImportStr() == WildcardImportStr(src.moduleKey))
  {
    TransitiveBucket(h, src);
    forall g
      ensures g in TransitiveByWildcardImport(h, src) <==>
                (exists k :: k in h.byModule.m && h.byModule.m[k] == g) &&
                (exists i :: 0 <= i < |g.imports| && g.imports[i].IsWildcardImport() &&
                             g.imports[i].ImportStr() == WildcardImportStr(src.moduleKey))
    {
      TransitiveMember(h, src, g);
    }
  }

  lemma TransitiveBucket(h: PackageHelper, src: FileInfo)
    requires Reverses(h, ByWildcardImportStr)
    ensures TransitiveByWildcardImport(h, src) ==
              Occurrences(ByWildcardImportStr, h.byModule.Values(), WildcardImportStr(src.moduleKey))
  {
    ReverseBucket(ByWildcardImportStr, h.byModule.Values(), WildcardImportStr(src.moduleKey));
  }

  lemma TransitiveMember(h: PackageHelper, src: FileInfo, g: FileInfo)
    requires Reverses(h, ByWildcardImportStr)
    requires TransitiveByWildcardImport(h, src) ==
               Occurrences(ByWildcardImportStr, h.byModule.Values(), WildcardImportStr(src.moduleKey))
    ensures g in TransitiveByWildcardImport(h, src) <==>
              (exists k :: k in h.byModule.m && h.byModule.m[k] == g) &&
              (exists i :: 0 <= i < |g.imports| && g.imports[i].IsWildcardImport() &&
                           g.imports[i].ImportStr() == WildcardImportStr(src.moduleKey))
  {
    OccurrencesMember(ByWildcardImportStr, h.byModule.Values(), WildcardImportStr(src.moduleKey), g);
    ValuesMember(h.byModule, g);
    KeyedByWildcard(g, WildcardImportStr(src.moduleKey));
  }

  /** Under this keying only wildcard imports are filed, each under its `import_str`. */
  lemma KeyedByWildcard(g: FileInfo, key: string)
    ensures (exists i :: 0 <= i < |g.imports| && KeyOf(ByWildcardImportStr, g.imports[i]) == Some(key)) <==>
            (exists i :: 0 <= i < |g.imports| && g.imports[i].IsWildcardImport() && g.imports[i].ImportStr() == key)
  {
    if exists i :: 0 <= i < |g.imports| && KeyOf(ByWildcardImportStr, g.imports[i]) == Some(key) {
      var i :| 0 <= i < |g.imports| && KeyOf(ByWildcardImportStr, g.imports[i]) == Some(key);
      assert g.imports[i].IsWildcardImport();
    }
  }

  /** Only wildcard imports make buckets: every key of the reverse index is the `import_str` of a
      wildcard import of some indexed file. */
  lemma OnlyWildcardBuckets(h: PackageHelper, key: string)
    requires Reverses(h, ByWildcardImportStr)
    requires key in h.reverse.m
    ensures exists k, i :: k in h.byModule.m && 0 <= i < |h.byModule.m[k].imports| &&
              h.byModule.m[k].imports[i].IsWildcardImport() && h.byModule.m[k].imports[i].ImportStr() == key
  {
    var fs := h.byModule.Values();
    ReverseBucket(ByWildcardImportStr, fs, key);
    var j, i :| 0 <= j < |fs| && 0 <= i < |fs[j].imports| && KeyOf(ByWildcardImportStr, fs[j].imports[i]) == Some(key);
    var k := h.byModule.keys[j];
    assert fs[j] == h.byModule.m[k];
    assert fs[j].imports[i].IsWildcardImport();
  }

  /** A file that holds `from <key of src> import *` is found for `src`. */
  lemma WildcardImporterFound(h: PackageHelper, src: FileInfo, k: string, i: nat)
    requires Reverses(h, ByWildcardImportStr)
    requires src.moduleKey != "" && !Contains(src.moduleKey, ".__init__")
    requires k in h.byModule.m && i < |h.byModule.m[k].imports|
    requires h.byModule.m[k].imports[i] == WildcardImportOf(src.moduleKey)
    ensures h.byModule.m[k] in TransitiveByWildcardImport(h, src)
  {
    WildcardImportOfKey(src.moduleKey);
    TransitiveByWildcardImportSpec(h, src);
  }

  // ---------------------------------------------------------------------------
  // Names and imports taken from a transitive file
  // ---------------------------------------------------------------------------

  /** `n` is a name of `t` that `src` uses and may take from it: a class, a function, or a
      constant `src` does not define itself, and not on the ignore list of `t`'s module. */
  ghost predicate UsableName(h: PackageHelper, src: FileInfo, t: FileInfo, n: string) {
    && (n in t.classes || n in t.functions || (n in t.constants && n !in src.constants))
    && PythonUtils.HasSymbolUsage(n, src.content)
    && !(t.moduleKey in h.ignored && n in h.ignored[t.moduleKey])
  }

  /** `get_names_used_from_transitive_python_file`. */
  function NamesUsed(h: PackageHelper, src: FileInfo, t: FileInfo): (r: seq<string>)
    ensures forall n :: n in r <==> UsableName(h, src, t, n)
    ensures t.moduleKey in h.ignored ==> NoDuplicates(r)
  {
    var used := n => PythonUtils.HasSymbolUsage(n, src.content);
    var names := Filter(t.classes, used) + Filter(t.functions, used) +
                 Filter(t.constants, n => n !in src.constants && PythonUtils.HasSymbolUsage(n, src.content));
    if t.moduleKey in h.ignored then
      DifferenceSpec(names, h.ignored[t.moduleKey]);
      Difference(names, h.ignored[t.moduleKey])
    else names
  }

  /** Without an ignore list the names come in source order: the used classes, then the used
      functions, then the used constants. */
  lemma NamesUsedInOrder(h: PackageHelper, src: FileInfo, t: FileInfo)
    requires t.moduleKey !in h.ignored
    ensures IsSubsequence(NamesUsed(h, src, t), t.classes + t.functions + t.constants)
  {
    var used := n => PythonUtils.HasSymbolUsage(n, src.content);
    var unshadowed := n => n !in src.constants && PythonUtils.HasSymbolUsage(n, src.content);
    FilterSubsequence(t.classes, used);
    FilterSubsequence(t.functions, used);
    FilterSubsequence(t.constants, unshadowed);
    SubsequenceConcat(Filter(t.classes, used), t.classes, Filter(t.functions, used), t.functions);
    SubsequenceConcat(Filter(t.classes, used) + Filter(t.functions, used), t.classes + t.functions,
                      Filter(t.constants, unshadowed), t.constants);
  }

  /** `get_python_file_defined_names_from_import`: the imported names `f` defines, in order. */
  function DefinedNamesFromImport(imp: Import, f: FileInfo): (r: seq<string>)
    ensures forall n :: n in r <==> n in imp.names && f.HasName(n)
  {
    Filter(imp.names, n => f.HasName(n))
  }

  /** The defined names keep the order of the import's names. */
  lemma DefinedNamesInOrder(imp: Import, f: FileInfo)
    ensures IsSubsequence(DefinedNamesFromImport(imp, f), imp.names)
  {
    FilterSubsequence(imp.names, n => f.HasName(n));
  }

  /** `n` is a name `imp` brings in that `src` uses: defined by the imported module when that
      module is indexed, and not on the ignore list of the imported module. */
  ghost predicate UsableImportName(h: PackageHelper, src: FileInfo, imp: Import, n: string) {
    && n in imp.names
    && (imp.ModulesStr() in h.byModule.m ==> h.byModule.m[imp.ModulesStr()].HasName(n))
    && PythonUtils.HasSymbolUsage(n, src.content)
    && !(imp.ModulesStr() in h.ignored && n in h.ignored[imp.ModulesStr()])
  }

  /** One round of `get_imports_used_from_transitive_python_file`: the import narrowed to the
      names `src` uses, or nothing when it uses none. */
  function ImportUsed(h: PackageHelper, src: FileInfo, imp: Import): (r: Option<Import>)
    ensures r.Some? ==> r.value.modules == imp.modules && r.value.level == imp.level && r.value.aliases == []
    ensures r.Some? ==> r.value.names != []
    ensures forall n :: (r.Some? && n in r.value.names) <==> UsableImportName(h, src, imp, n)
  {
    var key := imp.ModulesStr();
    var defined := if key in h.byModule.m then DefinedNamesFromImport(imp, h.byModule.m[key]) else imp.names;
    var used := Filter(defined, n => PythonUtils.HasSymbolUsage(n, src.content));
    var kept :=
      if key in h.ignored then
        DifferenceSpec(used, h.ignored[key]);
        Difference(used, h.ignored[key])
      else used;
    if kept == [] then None else Some(Import(imp.modules, imp.level, kept, []))
  }

  /** `get_imports_used_from_transitive_python_file`: each import of `t` narrowed to the names
      `src` uses, in order, leaving out those it uses none of. */
  function ImportsUsed(h: PackageHelper, src: FileInfo, t: FileInfo): (r: seq<Import>)
    ensures |r| <= |t.imports|
  {
    Somes(seq(|t.imports|, i requires 0 <= i < |t.imports| => ImportUsed(h, src, t.imports[i])))
  }

  /** An import is in the result exactly when it is what some import of `t` narrows to. */
  lemma ImportsUsedSpec(h: PackageHelper, src: FileInfo, t: FileInfo, x: Import)
    ensures x in ImportsUsed(h, src, t) <==> exists i :: 0 <= i < |t.imports| && ImportUsed(h, src, t.imports[i]) == Some(x)
  {
    var os := seq(|t.imports|, i requires 0 <= i < |t.imports| => ImportUsed(h, src, t.imports[i]));
    assert ImportsUsed(h, src, t) == Somes(os);
    SomesMember(os, x);
    if Some(x) in os {
      var i :| 0 <= i < |os| && os[i] == Some(x);
      assert ImportUsed(h, src, t.imports[i]) == Some(x);
    }
    if exists i :: 0 <= i < |t.imports| && ImportUsed(h, src, t.imports[i]) == Some(x) {
      var i :| 0 <= i < |t.imports| && ImportUsed(h, src, t.imports[i]) == Some(x);
      assert os[i] == Some(x);
    }
  }
}
