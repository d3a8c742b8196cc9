/**
 * `python_connect/python_package_helper.py`: the package helper whose reverse
 * index files every file under the module path of each of its imports, and
 * the lookups the connect rules make on it.
 */
module ConnectPackageHelper {
  import opened Wrappers
  import opened OrderedMaps
  import opened PythonFileInfo
  import opened PackageIndex
  import PythonUtils

  /** `for_python_files`: index the files under their generated keys, unwind their relative
      imports, then file every indexed file under the module path of each of its imports. */
  method ForPythonFiles(files: seq<SourceFile>, includeTop: bool, ignored: map<string, seq<string>>)
    returns (h: PackageHelper)
    ensures h.includeTop == includeTop && h.ignored == ignored
    ensures Indexes(h, files, ByModulesStr)
  {
    var index := BuildIndex(files, includeTop);
    index := UnwindRelativeImports(index);
    var reverse := BuildReverseIndex(ByModulesStr, index.Values());
    h := PackageHelper(includeTop, index, reverse, ignored);
  }

  /** `get_transitive_python_files`: the files that import the module of `src`, or none. */
  function TransitiveFiles(h: PackageHelper, src: FileInfo): seq<FileInfo> {
    if src.moduleKey in h.reverse.m then h.reverse.m[src.moduleKey] else []
  }

  /** `is_package_import`: the imported module path is a key of the index. */
  predicate IsPackageImport(h: PackageHelper, imp: Import) {
    imp.ModulesStr() in h.byModule.m
  }

  /** The files found for `src` are, in index order, the indexed files with an import of the
      module of `src`, each once per such import; a file is found exactly when it is indexed
      and has such an import. */
  lemma TransitiveFilesSpec(h: PackageHelper, src: FileInfo)
    requires Reverses(h, ByModulesStr)
    ensures TransitiveFiles(h, src) == Occurrences(ByModulesStr, h.byModule.Values(), src.moduleKey)
    ensures forall g :: g in TransitiveFiles(h, src) <==>
              (exists k :: k in h.byModule.m && h.byModule.m[k] == g) &&
              (exists i :: 0 <= i < |g.imports| && g.imports[i].ModulesStr() == src.moduleKey)
  {
    TransitiveFilesBucket(h, src);
    forall g
      ensures g in TransitiveFiles(h, src) <==>
                (exists k :: k in h.byModule.m && h.byModule.m[k] == g) &&
                (exists i :: 0 <= i < |g.imports| && g.imports[i].ModulesStr() == src.moduleKey)
    {
      TransitiveMember(h, src, g);
    }
  }

  lemma TransitiveFilesBucket(h: PackageHelper, src: FileInfo)
    requires Reverses(h, ByModulesStr)
    ensures TransitiveFiles(h, src) == Occurrences(ByModulesStr, h.byModule.Values(), src.moduleKey)
  {
    ReverseBucket(ByModulesStr, h.byModule.Values(), src.moduleKey);
  }

  lemma TransitiveMember(h: PackageHelper, src: FileInfo, g: FileInfo)
    requires Reverses(h, ByModulesStr)
    requires TransitiveFiles(h, src) == Occurrences(ByModulesStr, h.byModule.Values(), src.moduleKey)
    ensures g in TransitiveFiles(h, src) <==>
              (exists k :: k in h.byModule.m && h.byModule.m[k] == g) &&
              (exists i :: 0 <= i < |g.imports| && g.imports[i].ModulesStr() == src.moduleKey)
  {
    OccurrencesMember(ByModulesStr, h.byModule.Values(), src.moduleKey, g);
    ValuesMember(h.byModule, g);
    KeyedByModule(g, src.moduleKey);
  }

  /** Under this keying an import is filed under its module path and nothing else. */
  lemma KeyedByModule(g: FileInfo, k: string)
    ensures (exists i :: 0 <= i < |g.imports| && KeyOf(ByModulesStr, g.imports[i]) == Some(k)) <==>
            (exists i :: 0 <= i < |g.imports| && g.imports[i].ModulesStr() == k)
  {
    forall i | 0 <= i < |g.imports|
      ensures KeyOf(ByModulesStr, g.imports[i]) == Some(g.imports[i].ModulesStr())
    {
    }
  }

  /** Every import of every indexed file has its module path as a key of the reverse index,
      and the file is in that bucket. */
  lemma ImportedModuleFiled(h: PackageHelper, files: seq<SourceFile>, k: string, i: nat)
    requires Indexes(h, files, ByModulesStr)
    requires k in h.byModule.m && i < |h.byModule.m[k].imports|
    ensures h.byModule.m[k].imports[i].ModulesStr() in h.reverse.m
    ensures h.byModule.m[k] in h.reverse.m[h.byModule.m[k].imports[i].ModulesStr()]
  {
    var fs := h.byModule.Values();
    var f := h.byModule.m[k];
    var key := f.imports[i].ModulesStr();
    var n :| 0 <= n < |h.byModule.keys| && h.byModule.keys[n] == k;
    assert fs[n] == f;
    assert KeyOf(ByModulesStr, fs[n].imports[i]) == Some(key);
    ReverseBucket(ByModulesStr, fs, key);
    OccurrencesMember(ByModulesStr, fs, key, f);
  }

  /** An import is a package import exactly when some file of the digest generates its module
      path as key. */
  lemma IsPackageImportSpec(h: PackageHelper, files: seq<SourceFile>, imp: Import)
    requires Indexes(h, files, ByModulesStr)
    ensures IsPackageImport(h, imp) <==>
              exists j :: 0 <= j < |files| && SourceKey(files[j], h.includeTop) == imp.ModulesStr()
  {
    var parsed := Parsed(files, h.includeTop);
    IndexKeys(parsed, imp.ModulesStr());
  }
}
