/**
 * `import_fixer/indirect_imports_rules.py`: an import of a first-party
 * module names something that module does not itself define (it only
 * re-exports it). For each such name the rules look for better places to
 * import it from: the standard or installed package of that name, else
 * every indexed file that defines it, else the imports of the package that
 * already bring it in from a module the package does not index.
 */
module IndirectImports {
  import opened Wrappers
  import opened Strings
  import opened OrderedMaps
  import opened PythonFileInfo
  import opened PackageIndex
  import opened FileImportRecs

  // ---------------------------------------------------------------------------
  // Where a name can be imported from
  // ---------------------------------------------------------------------------

  /** `import name`, the answer when `name` is itself an installed package. */
  function BareImport(name: string): Import {
    Import([], 0, [name], [])
  }

  /** The first-party tier: `from <key> import name` for every listed key whose file defines
      `name`, in key order. */
  function FirstPartyFor(keys: seq<string>, m: map<string, FileInfo>, name: string): seq<Import>
    requires forall k :: k in keys ==> k in m
    decreases |keys|
  {
    if keys == [] then []
    else
      var rest := FirstPartyFor(keys[..|keys| - 1], m, name);
      var k := keys[|keys| - 1];
      if m[k].HasName(name) then rest + [Import(SplitOn(k, "."), 0, [name], [])] else rest
  }

  function FirstParty(h: PackageHelper, name: string): seq<Import>
    requires h.byModule.Valid()
  {
    FirstPartyFor(h.byModule.keys, h.byModule.m, name)
  }

  /** What the imports `imps` contribute to the third-party tier: `from <module> import name`,
      with the same module path and level, for each import that brings in `name` from a module
      path absent from the reverse index. */
  function ThirdPartyOfImports(h: PackageHelper, imps: seq<Import>, name: string): seq<Import>
    decreases |imps|
  {
    if imps == [] then []
    else
      var rest := ThirdPartyOfImports(h, imps[..|imps| - 1], name);
      var imp := imps[|imps| - 1];
      if imp.ModulesStr() !in h.reverse.m && name in imp.names
      then rest + [Import(imp.modules, imp.level, [name], [])]
      else rest
  }

  /** The third-party tier over the files `fs`, file by file. */
  function ThirdPartyOf(h: PackageHelper, fs: seq<FileInfo>, name: string): seq<Import>
    decreases |fs|
  {
    if fs == [] then []
    else ThirdPartyOf(h, fs[..|fs| - 1], name) + ThirdPartyOfImports(h, fs[|fs| - 1].imports, name)
  }

  /** The answer of `get_name_import_recommendations`; `installed` is what `is_module_package`
      says of `name`. */
  function NameImports(h: PackageHelper, name: string, installed: bool): seq<Import>
    requires h.byModule.Valid()
  {
    if installed then [BareImport(name)]
    else if FirstParty(h, name) != [] then FirstParty(h, name)
    else ThirdPartyOf(h, h.byModule.Values(), name)
  }

  /** `get_name_import_recommendations`. */
  method ImportsForName(h: PackageHelper, name: string, installed: bool) returns (r: seq<Import>)
    requires h.byModule.Valid()
    ensures r == NameImports(h, name, installed)
  {
    if installed {
      return [BareImport(name)];
    }
    var keys := h.byModule.keys;
    r := [];
    for i := 0 to |keys|
      invariant r == FirstPartyFor(keys[..i], h.byModule.m, name)
    {
      assert keys[..i + 1][..i] == keys[..i];
      if h.byModule.m[keys[i]].HasName(name) {
        r := r + [Import(SplitOn(keys[i], "."), 0, [name], [])];
      }
    }
    assert keys[..|keys|] == keys;
    if r != [] {
      return;
    }
    var fs := h.byModule.Values();
    for j := 0 to |fs|
      invariant r == ThirdPartyOf(h, fs[..j], name)
    {
      assert fs[..j + 1][..j] == fs[..j];
      var more := ThirdPartyFromFile(h, fs[j], name);
      r := r + more;
    }
    assert fs[..|fs|] == fs;
  }

  /** The inner loop of the third-party tier, over the imports of one file. */
  method ThirdPartyFromFile(h: PackageHelper, f: FileInfo, name: string) returns (r: seq<Import>)
    ensures r == ThirdPartyOfImports(h, f.imports, name)
  {
    r := [];
    for i := 0 to |f.imports|
      invariant r == ThirdPartyOfImports(h, f.imports[..i], name)
    {
      assert f.imports[..i + 1][..i] == f.imports[..i];
      var imp := f.imports[i];
      if imp.ModulesStr() in h.reverse.m {
        continue;
      }
      if name in imp.names {
        r := r + [Import(imp.modules, imp.level, [name], [])];
      }
    }
    assert f.imports[..|f.imports|] == f.imports;
  }

  /** The first-party tier holds `from <key> import name` exactly for the keys whose file defines
      `name`. */
  lemma {:induction false} FirstPartyForSpec(keys: seq<string>, m: map<string, FileInfo>, name: string, x: Import)
    requires forall k :: k in keys ==> k in m
    ensures x in FirstPartyFor(keys, m, name) <==>
              exists k :: k in keys && m[k].HasName(name) && x == Import(SplitOn(k, "."), 0, [name], [])
    decreases |keys|
  {
    if keys != [] {
      var init, last := keys[..|keys| - 1], keys[|keys| - 1];
      FirstPartyForSpec(init, m, name, x);
      assert keys == init + [last];
    }
  }

  /** Each first-party recommendation imports `name` alone, absolutely, from a module whose dotted
      path is an indexed key whose file defines `name`; and every such key is recommended. */
  lemma FirstPartySpec(h: PackageHelper, name: string, x: Import)
    requires h.byModule.Valid()
    ensures x in FirstParty(h, name) ==>
              x.level == 0 && x.names == [name] && x.aliases == [] &&
              x.ModulesStr() in h.byModule.m && h.byModule.m[x.ModulesStr()].HasName(name)
    ensures forall k :: k in h.byModule.m && h.byModule.m[k].HasName(name) ==>
              Import(SplitOn(k, "."), 0, [name], []) in FirstParty(h, name)
  {
    FirstPartyForSpec(h.byModule.keys, h.byModule.m, name, x);
    if x in FirstParty(h, name) {
      var k :| k in h.byModule.keys && h.byModule.m[k].HasName(name) && x == Import(SplitOn(k, "."), 0, [name], []);
      JoinSplit(k, ".");
    }
    forall k | k in h.byModule.m && h.byModule.m[k].HasName(name)
      ensures Import(SplitOn(k, "."), 0, [name], []) in FirstParty(h, name)
    {
      FirstPartyForSpec(h.byModule.keys, h.byModule.m, name, Import(SplitOn(k, "."), 0, [name], []));
    }
  }

  /** An import contributes to the third-party tier exactly when its module path is not a key of
      the reverse index and it brings in `name`. */
  lemma {:induction false} ThirdPartyOfImportsSpec(h: PackageHelper, imps: seq<Import>, name: string, x: Import)
    ensures x in ThirdPartyOfImports(h, imps, name) <==>
              exists i :: 0 <= i < |imps| && imps[i].ModulesStr() !in h.reverse.m && name in imps[i].names &&
                x == Import(imps[i].modules, imps[i].level, [name], [])
    decreases |imps|
  {
    if imps != [] {
      var init := imps[..|imps| - 1];
      ThirdPartyOfImportsSpec(h, init, name, x);
      if exists i :: 0 <= i < |init| && init[i].ModulesStr() !in h.reverse.m && name in init[i].names &&
                      x == Import(init[i].modules, init[i].level, [name], []) {
        var i :| 0 <= i < |init| && init[i].ModulesStr() !in h.reverse.m && name in init[i].names &&
                 x == Import(init[i].modules, init[i].level, [name], []);
        assert imps[i] == init[i];
      }
      if exists i :: 0 <= i < |imps| && imps[i].ModulesStr() !in h.reverse.m && name in imps[i].names &&
                      x == Import(imps[i].modules, imps[i].level, [name], []) {
        var i :| 0 <= i < |imps| && imps[i].ModulesStr() !in h.reverse.m && name in imps[i].names &&
                 x == Import(imps[i].modules, imps[i].level, [name], []);
        if i < |init| { assert init[i] == imps[i]; }
      }
    }
  }

  /** Imports whose module paths are all keys of the reverse index contribute nothing. */
  lemma {:induction false} ThirdPartyOfIndexed(h: PackageHelper, fs: seq<FileInfo>, name: string)
    requires forall j, i :: 0 <= j < |fs| && 0 <= i < |fs[j].imports| ==> fs[j].imports[i].ModulesStr() in h.reverse.m
    ensures ThirdPartyOf(h, fs, name) == []
    decreases |fs|
  {
    if fs != [] {
      var last := fs[|fs| - 1];
      ThirdPartyOfIndexed(h, fs[..|fs| - 1], name);
      if ThirdPartyOfImports(h, last.imports, name) != [] {
        var x := ThirdPartyOfImports(h, last.imports, name)[0];
        ThirdPartyOfImportsSpec(h, last.imports, name, x);
        assert false;
      }
    }
  }

  /** With the reverse index that `for_python_files` builds (every import of every indexed file
      under its module path), the third-party tier never finds anything: an import it inspects is
      one of those very imports, so its module path is always a key of the reverse index. */
  lemma ThirdTierEmpty(h: PackageHelper, name: string)
    requires Reverses(h, ByModulesStr)
    ensures ThirdPartyOf(h, h.byModule.Values(), name) == []
  {
    var fs := h.byModule.Values();
    forall j, i | 0 <= j < |fs| && 0 <= i < |fs[j].imports|
      ensures fs[j].imports[i].ModulesStr() in h.reverse.m
    {
      ReverseBucket(ByModulesStr, fs, fs[j].imports[i].ModulesStr());
    }
    ThirdPartyOfIndexed(h, fs, name);
  }

  /** So, for a name that is not an installed package, every recommendation points to an indexed
      file that defines the name, and there is none exactly when no indexed file defines it. */
  lemma NameImportsSpec(h: PackageHelper, name: string, x: Import)
    requires Reverses(h, ByModulesStr)
    ensures x in NameImports(h, name, false) ==>
              x.level == 0 && x.names == [name] && x.ModulesStr() in h.byModule.m &&
              h.byModule.m[x.ModulesStr()].HasName(name)
    ensures NameImports(h, name, false) == [] <==> forall k :: k in h.byModule.m ==> !h.byModule.m[k].HasName(name)
    ensures NameImports(h, name, true) == [BareImport(name)]
  {
    ThirdTierEmpty(h, name);
    FirstPartySpec(h, name, x);
    if FirstParty(h, name) != [] {
      FirstPartySpec(h, name, FirstParty(h, name)[0]);
    }
  }

  // ---------------------------------------------------------------------------
  // One file
  // ---------------------------------------------------------------------------

  /** `PythonFileIsNameDefinedResponse`: a name an import brings in, the indexed file it is
      imported from, and whether that file defines it. */
  datatype NameCheck = NameCheck(target: FileInfo, source: Import, name: string, defined: bool)

  /** The checks one import asks for: one per imported name, when its module is indexed. */
  function ImportChecks(h: PackageHelper, imp: Import): (r: seq<NameCheck>)
    ensures imp.ModulesStr() !in h.byModule.m ==> r == []
  {
    var key := imp.ModulesStr();
    if key !in h.byModule.m then []
    else
      var target := h.byModule.m[key];
      seq(|imp.names|, i requires 0 <= i < |imp.names| => NameCheck(target, imp, imp.names[i], target.HasName(imp.names[i])))
  }

  /** The checks of the imports `imps`, in order. */
  function Checks(h: PackageHelper, imps: seq<Import>): seq<NameCheck>
    decreases |imps|
  {
    if imps == [] then [] else Checks(h, imps[..|imps| - 1]) + ImportChecks(h, imps[|imps| - 1])
  }

  /** The checks whose name is not defined where it is imported from. */
  function Undefined(cs: seq<NameCheck>): seq<NameCheck>
    decreases |cs|
  {
    if cs == [] then []
    else Undefined(cs[..|cs| - 1]) + (if cs[|cs| - 1].defined then [] else [cs[|cs| - 1]])
  }

  /** A recommendation for each check whose name can be imported from somewhere, in order;
      `installed` plays `is_module_package`. */
  function RecsFor(h: PackageHelper, cs: seq<NameCheck>, installed: set<string>): seq<Recommendation>
    requires h.byModule.Valid()
    decreases |cs|
  {
    if cs == [] then []
    else
      var c := cs[|cs| - 1];
      var found := NameImports(h, c.name, c.name in installed);
      RecsFor(h, cs[..|cs| - 1], installed) + (if found != [] then [Recommendation(Some(c.source), found)] else [])
  }

  /** The answer of `get_file_indirect_import_recommendations`. */
  function IndirectRecs(h: PackageHelper, f: FileInfo, installed: set<string>): FileRecommendations
    requires h.byModule.Valid()
  {
    FileRecommendations(f, RecsFor(h, Undefined(Checks(h, f.imports)), installed))
  }

  /** `is_named_defined_in_python_file`. */
  function IsNameDefined(target: FileInfo, source: Import, name: string): (r: NameCheck)
    ensures r.target == target && r.source == source && r.name == name
    ensures r.defined <==> name in target.classes || name in target.functions || name in target.constants
  {
    NameCheck(target, source, name, target.HasName(name))
  }

  /** `get_file_indirect_import_recommendations`: check every name imported from an indexed
      module, then look up a recommendation for each name its module does not define. */
  method FileIndirectImportRecommendations(h: PackageHelper, f: FileInfo, installed: set<string>)
    returns (r: FileRecommendations)
    requires h.byModule.Valid()
    ensures r == IndirectRecs(h, f, installed)
  {
    var checks := GatherChecks(h, f.imports);
    var indirect := KeepUndefined(checks);
    var recs := LookUpNames(h, indirect, installed);
    r := FileRecommendations(f, recs);
  }

  /** The first loop of `get_file_indirect_import_recommendations`: one check per name imported
      from an indexed module. */
  method GatherChecks(h: PackageHelper, imps: seq<Import>) returns (checks: seq<NameCheck>)
    ensures checks == Checks(h, imps)
  {
    checks := [];
    for j := 0 to |imps|
      invariant checks == Checks(h, imps[..j])
    {
      assert imps[..j + 1][..j] == imps[..j];
      var imp := imps[j];
      if imp.ModulesStr() !in h.byModule.m {
        continue;
      }
      var more := CheckNames(h, imp);
      checks := checks + more;
    }
    assert imps[..|imps|] == imps;
  }

  /** The inner loop of the first loop: one check per name of an import of an indexed module. */
  method CheckNames(h: PackageHelper, imp: Import) returns (more: seq<NameCheck>)
    requires imp.ModulesStr() in h.byModule.m
    ensures more == ImportChecks(h, imp)
  {
    var target := h.byModule.m[imp.ModulesStr()];
    more := [];
    for i := 0 to |imp.names|
      invariant more == ImportChecks(h, imp)[..i]
    {
      more := more + [IsNameDefined(target, imp, imp.names[i])];
    }
    assert ImportChecks(h, imp)[..|imp.names|] == ImportChecks(h, imp);
  }

  /** The checks whose name turned out not to be defined, in order. */
  method KeepUndefined(checks: seq<NameCheck>) returns (indirect: seq<NameCheck>)
    ensures indirect == Undefined(checks)
  {
    indirect := [];
    for n := 0 to |checks|
      invariant indirect == Undefined(checks[..n])
    {
      assert checks[..n + 1][..n] == checks[..n];
      if !checks[n].defined {
        indirect := indirect + [checks[n]];
      }
    }
    assert checks[..|checks|] == checks;
  }

  /** The last loop: a recommendation for each indirect name that can be imported from somewhere. */
  method LookUpNames(h: PackageHelper, indirect: seq<NameCheck>, installed: set<string>) returns (recs: seq<Recommendation>)
    requires h.byModule.Valid()
    ensures recs == RecsFor(h, indirect, installed)
  {
    recs := [];
    for n := 0 to |indirect|
      invariant recs == RecsFor(h, indirect[..n], installed)
    {
      assert indirect[..n + 1][..n] == indirect[..n];
      var c := indirect[n];
      var found := ImportsForName(h, c.name, c.name in installed);
      if found != [] {
        recs := recs + [Recommendation(Some(c.source), found)];
      }
    }
    assert indirect[..|indirect|] == indirect;
  }

  /** A check is made for exactly the names that imports of indexed modules bring in. */
  lemma {:induction false} ChecksSpec(h: PackageHelper, imps: seq<Import>, c: NameCheck)
    ensures c in Checks(h, imps) <==>
              c.source in imps && c.source.ModulesStr() in h.byModule.m && c.name in c.source.names &&
              c.target == h.byModule.m[c.source.ModulesStr()] && c.defined == c.target.HasName(c.name)
    decreases |imps|
  {
    if imps != [] {
      var init, last := imps[..|imps| - 1], imps[|imps| - 1];
      ChecksSpec(h, init, c);
      assert imps == init + [last];
      if c in ImportChecks(h, last) {
        var i :| 0 <= i < |ImportChecks(h, last)| && ImportChecks(h, last)[i] == c;
      }
      if c.source == last && last.ModulesStr() in h.byModule.m && c.name in last.names &&
         c.target == h.byModule.m[last.ModulesStr()] && c.defined == c.target.HasName(c.name) {
        var i :| 0 <= i < |last.names| && last.names[i] == c.name;
        assert ImportChecks(h, last)[i] == c;
      }
    }
  }

  lemma {:induction false} UndefinedSpec(cs: seq<NameCheck>, c: NameCheck)
    ensures c in Undefined(cs) <==> c in cs && !c.defined
    decreases |cs|
  {
    if cs != [] {
      UndefinedSpec(cs[..|cs| - 1], c);
      assert cs == cs[..|cs| - 1] + [cs[|cs| - 1]];
    }
  }

  lemma {:induction false} RecsForSpec(h: PackageHelper, cs: seq<NameCheck>, installed: set<string>, x: Recommendation)
    requires h.byModule.Valid()
    ensures x in RecsFor(h, cs, installed) <==>
              exists c :: c in cs && NameImports(h, c.name, c.name in installed) != [] &&
                x == Recommendation(Some(c.source), NameImports(h, c.name, c.name in installed))
    decreases |cs|
  {
    if cs != [] {
      RecsForSpec(h, cs[..|cs| - 1], installed, x);
      assert cs == cs[..|cs| - 1] + [cs[|cs| - 1]];
    }
  }

  /** A file's indirect-import recommendations: one for each name that an import of an indexed
      module brings in, that the module does not define, and that can be imported from
      somewhere; the recommendation keeps the import as its source and lists where the name can
      come from. */
  lemma IndirectRecsSpec(h: PackageHelper, f: FileInfo, installed: set<string>, x: Recommendation)
    requires h.byModule.Valid()
    ensures x in IndirectRecs(h, f, installed).recs <==>
              exists imp, name :: imp in f.imports && imp.ModulesStr() in h.byModule.m && name in imp.names &&
                !h.byModule.m[imp.ModulesStr()].HasName(name) &&
                NameImports(h, name, name in installed) != [] &&
                x == Recommendation(Some(imp), NameImports(h, name, name in installed))
  {
    var cs := Checks(h, f.imports);
    RecsForSpec(h, Undefined(cs), installed, x);
    if x in IndirectRecs(h, f, installed).recs {
      var c :| c in Undefined(cs) && NameImports(h, c.name, c.name in installed) != [] &&
               x == Recommendation(Some(c.source), NameImports(h, c.name, c.name in installed));
      UndefinedSpec(cs, c);
      ChecksSpec(h, f.imports, c);
    }
    if exists imp, name :: imp in f.imports && imp.ModulesStr() in h.byModule.m && name in imp.names &&
         !h.byModule.m[imp.ModulesStr()].HasName(name) &&
         NameImports(h, name, name in installed) != [] &&
         x == Recommendation(Some(imp), NameImports(h, name, name in installed)) {
      var imp, name :| imp in f.imports && imp.ModulesStr() in h.byModule.m && name in imp.names &&
         !h.byModule.m[imp.ModulesStr()].HasName(name) &&
         NameImports(h, name, name in installed) != [] &&
         x == Recommendation(Some(imp), NameImports(h, name, name in installed));
      var c := NameCheck(h.byModule.m[imp.ModulesStr()], imp, name, false);
      ChecksSpec(h, f.imports, c);
      UndefinedSpec(cs, c);
    }
  }

  /** Imports of modules the package does not index are never inspected. */
  lemma UnindexedImportsIgnored(h: PackageHelper, f: FileInfo, imp: Import, installed: set<string>)
    requires h.byModule.Valid()
    requires imp.ModulesStr() !in h.byModule.m
    ensures forall x :: x in IndirectRecs(h, f, installed).recs ==> x.sourceImport != Some(imp)
  {
    forall x | x in IndirectRecs(h, f, installed).recs ensures x.sourceImport != Some(imp) {
      IndirectRecsSpec(h, f, installed, x);
    }
  }
}
