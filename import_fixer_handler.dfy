/**
 * `import_fixer_handler.py`: the `ImportFixerHandler` resolver. It follows a
 * wildcard import through the package, file by file, collecting the explicit
 * imports that can replace it; it also decides which of several imports of
 * the same name to keep, and where a missing name can be imported from.
 */
module ImportFixerHandler {
  import opened Wrappers
  import opened Strings
  import opened OrderedMaps
  import opened PythonFileInfo
  import opened PackageIndex
  import opened WildcardPackageHelper
  import opened FileImportRecs
  import PythonUtils

  // ---------------------------------------------------------------------------
  // What one visited import contributes
  // ---------------------------------------------------------------------------

  /** `get_transitive_import_recommendations`: an import of the names `src` uses from `t` itself,
      when there are any, followed by the imports of `t` narrowed to what `src` uses. */
  function TransitiveRecs(h: PackageHelper, src: FileInfo, t: FileInfo): (r: seq<Import>)
    ensures |r| <= 1 + |t.imports|
  {
    var names := NamesUsed(h, src, t);
    var direct := if names != [] then [Import(SplitOn(t.moduleKey, "."), 0, names, [])] else [];
    direct + ImportsUsed(h, src, t)
  }

  /** Every transitive recommendation imports some names without aliases, and is either the import
      from `t` itself of exactly the names `src` can use from it, or one of the imports of `t`
      narrowed to what `src` uses. */
  lemma TransitiveRecsSpec(h: PackageHelper, src: FileInfo, t: FileInfo, x: Import)
    requires x in TransitiveRecs(h, src, t)
    ensures x.aliases == [] && x.names != []
    ensures || (x == Import(SplitOn(t.moduleKey, "."), 0, x.names, []) &&
                forall n :: n in x.names <==> UsableName(h, src, t, n))
            || exists i :: 0 <= i < |t.imports| && ImportUsed(h, src, t.imports[i]) == Some(x)
  {
    if x in ImportsUsed(h, src, t) {
      ImportsUsedSpec(h, src, t, x);
      var i :| 0 <= i < |t.imports| && ImportUsed(h, src, t.imports[i]) == Some(x);
    }
  }

  /** The last dot-separated segment of a module key. */
  function LastSegment(key: string): string {
    AfterLast(key, ".")
  }

  /** `get_submodule_import_recommendations_for_python_file` over the index keys `keys`: for each
      key that contains the module path of `imp` and whose file's last key segment `src` uses,
      an import of that segment from the module of `imp`. */
  function SubmoduleRecs(h: PackageHelper, src: FileInfo, imp: Import, keys: seq<string>): (r: seq<Import>)
    requires forall k :: k in keys ==> k in h.byModule.m
    ensures |r| <= |keys|
  {
    Somes(seq(|keys|, j requires 0 <= j < |keys| =>
      if SubmoduleHit(h, src, imp, keys[j]) then Some(SubmoduleRec(h, imp, keys[j])) else None))
  }

  /** Key `k` contains the module path of `imp`, and `src` uses the last segment of its file's
      module key. */
  predicate SubmoduleHit(h: PackageHelper, src: FileInfo, imp: Import, k: string)
    requires k in h.byModule.m
  {
    Contains(k, imp.ModulesStr()) && PythonUtils.HasSymbolUsage(LastSegment(h.byModule.m[k].moduleKey), src.content)
  }

  /** `from <module of imp> import <last segment of the file's key>` */
  function SubmoduleRec(h: PackageHelper, imp: Import, k: string): Import
    requires k in h.byModule.m
  {
    Import(imp.modules, 0, [LastSegment(h.byModule.m[k].moduleKey)], [])
  }

  /** `get_submodule_transitive_imports` over the index keys `keys`: a wildcard import of every
      key that contains the module path of `imp`. */
  function SubmoduleImports(imp: Import, keys: seq<string>): (r: seq<Import>)
    ensures |r| <= |keys|
  {
    Somes(seq(|keys|, j requires 0 <= j < |keys| =>
      if Contains(keys[j], imp.ModulesStr()) then Some(WildcardImportOf(keys[j])) else None))
  }

  /** The wildcard imports among `s`, in order. */
  function Wildcards(s: seq<Import>): seq<Import>
    decreases |s|
  {
    if s == [] then []
    else if s[|s| - 1].IsWildcardImport() then Wildcards(s[..|s| - 1]) + [s[|s| - 1]]
    else Wildcards(s[..|s| - 1])
  }

  /** `Wildcards` keeps exactly the wildcard imports. */
  lemma {:induction false} WildcardsMember(s: seq<Import>, x: Import)
    ensures x in Wildcards(s) <==> x in s && x.IsWildcardImport()
    decreases |s|
  {
    if s != [] {
      WildcardsMember(s[..|s| - 1], x);
      assert s == s[..|s| - 1] + [s[|s| - 1]];
    }
  }

  /** One round of the loop of `get_wildcard_import_recommendation` on an import whose module path
      was not visited yet: the recommendations it adds. Those of the indexed file come first, and
      when that file is a package `__init__.py` or is missing they are followed by the submodule
      recommendations. */
  function VisitRecs(h: PackageHelper, src: FileInfo, imp: Import): seq<Import>
    requires h.byModule.Valid()
  {
    var key := imp.ModulesStr();
    var direct := if key in h.byModule.m then TransitiveRecs(h, src, h.byModule.m[key]) else [];
    if key in h.byModule.m && !h.byModule.m[key].IsModule() then direct
    else direct + SubmoduleRecs(h, src, imp, h.byModule.keys)
  }

  /** The imports the same round pushes: the wildcard imports of an indexed file that is not a
      package `__init__.py`, otherwise a wildcard import of every submodule. */
  function Pushes(h: PackageHelper, imp: Import): seq<Import>
    requires h.byModule.Valid()
  {
    var key := imp.ModulesStr();
    if key in h.byModule.m && !h.byModule.m[key].IsModule() then Wildcards(h.byModule.m[key].imports)
    else SubmoduleImports(imp, h.byModule.keys)
  }

  /** The module paths of `ps`, in order. */
  function ModuleStrs(ps: seq<Import>): (r: seq<string>)
    ensures |r| == |ps| && forall i :: 0 <= i < |ps| ==> r[i] == ps[i].ModulesStr()
  {
    seq(|ps|, i requires 0 <= i < |ps| => ps[i].ModulesStr())
  }

  /** The recommendations of the visits of `ps`, concatenated in visiting order. */
  function RecsOf(h: PackageHelper, src: FileInfo, ps: seq<Import>): seq<Import>
    requires h.byModule.Valid()
    decreases |ps|
  {
    if ps == [] then [] else RecsOf(h, src, ps[..|ps| - 1]) + VisitRecs(h, src, ps[|ps| - 1])
  }

  /** Every module path the traversal can meet: the start, the index keys, and the module paths
      of the imports of indexed files. */
  ghost function Universe(h: PackageHelper, start: Import): set<string> {
    {start.ModulesStr()} + h.byModule.m.Keys +
    (set k, i | k in h.byModule.m && 0 <= i < |h.byModule.m[k].imports| :: h.byModule.m[k].imports[i].ModulesStr())
  }

  /** A submodule recommendation is, for some key containing the module path of `imp` whose last
      segment `src` uses, an import of that segment from the module of `imp`; and every such key
      gives one. */
  lemma SubmoduleRecsSpec(h: PackageHelper, src: FileInfo, imp: Import, keys: seq<string>, x: Import)
    requires forall k :: k in keys ==> k in h.byModule.m
    ensures x in SubmoduleRecs(h, src, imp, keys) <==>
              exists j :: 0 <= j < |keys| && SubmoduleHit(h, src, imp, keys[j]) && x == SubmoduleRec(h, imp, keys[j])
  {
    var os := seq(|keys|, j requires 0 <= j < |keys| =>
      if SubmoduleHit(h, src, imp, keys[j]) then Some(SubmoduleRec(h, imp, keys[j])) else None);
    assert SubmoduleRecs(h, src, imp, keys) == Somes(os);
    SomesMember(os, x);
    if Some(x) in os {
      var j :| 0 <= j < |os| && os[j] == Some(x);
      assert SubmoduleHit(h, src, imp, keys[j]) && x == SubmoduleRec(h, imp, keys[j]);
    }
    if exists j :: 0 <= j < |keys| && SubmoduleHit(h, src, imp, keys[j]) && x == SubmoduleRec(h, imp, keys[j]) {
      var j :| 0 <= j < |keys| && SubmoduleHit(h, src, imp, keys[j]) && x == SubmoduleRec(h, imp, keys[j]);
      assert os[j] == Some(x);
    }
  }

  /** The submodules pushed are the wildcard imports of exactly the keys that contain the module
      path of `imp`. */
  lemma SubmoduleImportsSpec(imp: Import, keys: seq<string>, x: Import)
    ensures x in SubmoduleImports(imp, keys) <==>
              exists j :: 0 <= j < |keys| && Contains(keys[j], imp.ModulesStr()) && x == WildcardImportOf(keys[j])
  {
    var os := seq(|keys|, j requires 0 <= j < |keys| =>
      if Contains(keys[j], imp.ModulesStr()) then Some(WildcardImportOf(keys[j])) else None);
    assert SubmoduleImports(imp, keys) == Somes(os);
    SomesMember(os, x);
    if Some(x) in os {
      var j :| 0 <= j < |os| && os[j] == Some(x);
      assert Contains(keys[j], imp.ModulesStr()) && x == WildcardImportOf(keys[j]);
    }
    if exists j :: 0 <= j < |keys| && Contains(keys[j], imp.ModulesStr()) && x == WildcardImportOf(keys[j]) {
      var j :| 0 <= j < |keys| && Contains(keys[j], imp.ModulesStr()) && x == WildcardImportOf(keys[j]);
      assert os[j] == Some(x);
    }
  }

  /** Every import a visit pushes has a module path in the universe of the traversal. */
  lemma VisitPushesInUniverse(h: PackageHelper, imp: Import, start: Import, q: Import)
    requires h.byModule.Valid()
    requires q in Pushes(h, imp)
    ensures q.ModulesStr() in Universe(h, start)
  {
    var key := imp.ModulesStr();
    if key in h.byModule.m && !h.byModule.m[key].IsModule() {
      var t := h.byModule.m[key];
      WildcardsMember(t.imports, q);
      var i :| 0 <= i < |t.imports| && t.imports[i] == q;
      assert q.ModulesStr() == h.byModule.m[key].imports[i].ModulesStr();
    } else {
      SubmoduleImportsSpec(imp, h.byModule.keys, q);
      var j :| 0 <= j < |h.byModule.keys| && Contains(h.byModule.keys[j], key) && q == WildcardImportOf(h.byModule.keys[j]);
      JoinSplit(h.byModule.keys[j], ".");
      assert h.byModule.keys[j] in h.byModule.m;
    }
  }

  // ---------------------------------------------------------------------------
  // The wildcard worklist
  // ---------------------------------------------------------------------------

  /** `get_wildcard_import_recommendation`: follow `start` and, transitively, the wildcard imports
      and submodules it leads to, visiting each module path once, and collect the recommendations
      of every visit. `processed` lists the visited imports in visiting order.

      The traversal terminates even when modules wildcard-import each other, visits `start` first,
      visits each module path at most once, visits only imports pushed by an earlier visit, and
      visits the module path of everything any visit pushed. */
  method WildcardImportRecommendation(h: PackageHelper, src: FileInfo, start: Import)
    returns (recs: seq<Import>, processed: seq<Import>)
    requires h.byModule.Valid()
    ensures |processed| >= 1 && processed[0] == start
    ensures NoDuplicates(ModuleStrs(processed))
    ensures recs == RecsOf(h, src, processed)
    ensures forall j :: 0 < j < |processed| ==> Pushed(h, processed, j, processed[j])
    ensures forall j, q :: 0 <= j < |processed| && q in Pushes(h, processed[j]) ==>
              q.ModulesStr() in ModuleStrs(processed)
  {
    var visited: seq<string> := [];
    recs := [];
    processed := [];
    var stack := [start];
    ghost var universe := UniverseBound(h, start);
    while stack != []
      invariant visited == ModuleStrs(processed)
      invariant NoDuplicates(visited)
      invariant recs == RecsOf(h, src, processed)
      invariant forall v :: v in visited ==> v in universe
      invariant forall q :: q in stack ==> q.ModulesStr() in universe
      invariant processed == [] ==> stack == [start]
      invariant processed != [] ==> processed[0] == start
      invariant forall q :: q in stack ==> q == start || Pushed(h, processed, |processed|, q)
      invariant forall j :: 0 < j < |processed| ==> Pushed(h, processed, j, processed[j])
      invariant forall j, q :: 0 <= j < |processed| && q in Pushes(h, processed[j]) ==>
                  q in stack || q.ModulesStr() in visited
      decreases |universe - set v | v in visited|, |stack|
    {
      ghost var whole := stack;
      var imp := stack[|stack| - 1];
      stack := stack[..|stack| - 1];
      var key := imp.ModulesStr();
      if key in visited {
        PopVisited(h, processed, visited, whole);
        continue;
      }
      ghost var before := processed;
      VisitedShrinks(universe, visited, key);
      VisitedSnoc(h, src, processed, visited, imp);
      visited := visited + [key];
      var newRecs, pushes := VisitRound(h, src, imp);
      recs := recs + newRecs;
      stack := stack + pushes;
      processed := processed + [imp];
      WorklistStep(h, start, before, whole);
    }
  }

  /** Dropping an import whose module path was visited keeps everything pushed accounted for. */
  lemma PopVisited(h: PackageHelper, processed: seq<Import>, visited: seq<string>, whole: seq<Import>)
    requires h.byModule.Valid()
    requires whole != [] && whole[|whole| - 1].ModulesStr() in visited
    requires forall j, q :: 0 <= j < |processed| && q in Pushes(h, processed[j]) ==>
               q in whole || q.ModulesStr() in visited
    ensures forall j, q :: 0 <= j < |processed| && q in Pushes(h, processed[j]) ==>
              q in whole[..|whole| - 1] || q.ModulesStr() in visited
  {
    assert whole == whole[..|whole| - 1] + [whole[|whole| - 1]];
  }

  /** Visiting `imp` appends its module path to the visited paths and its recommendations to the
      collected ones, and keeps the visited paths distinct. */
  lemma VisitedSnoc(h: PackageHelper, src: FileInfo, processed: seq<Import>, visited: seq<string>, imp: Import)
    requires h.byModule.Valid()
    requires visited == ModuleStrs(processed) && NoDuplicates(visited) && imp.ModulesStr() !in visited
    ensures ModuleStrs(processed + [imp]) == visited + [imp.ModulesStr()]
    ensures NoDuplicates(visited + [imp.ModulesStr()])
    ensures RecsOf(h, src, processed + [imp]) == RecsOf(h, src, processed) + VisitRecs(h, src, imp)
  {
    assert (processed + [imp])[..|processed|] == processed;
  }

  /** `q` was pushed by one of the first `n` visits. */
  ghost predicate Pushed(h: PackageHelper, processed: seq<Import>, n: nat, q: Import)
    requires h.byModule.Valid()
  {
    exists j :: 0 <= j < n && j < |processed| && q in Pushes(h, processed[j])
  }

  /** Visiting a new module path of the universe leaves fewer of them unvisited. */
  lemma VisitedShrinks(universe: set<string>, visited: seq<string>, key: string)
    requires key in universe && key !in visited
    ensures |universe - set v | v in visited + [key]| < |universe - set v | v in visited|
  {
    var before := universe - set v | v in visited;
    var after := universe - set v | v in visited + [key];
    assert after == before - {key};
  }

  /** One round of the loop on an import whose module path is new: the `try` finds the file and
      collects its recommendations; a missing key or a package `__init__.py` falls through to the
      submodule check; otherwise the file's own wildcard imports are pushed. */
  method VisitRound(h: PackageHelper, src: FileInfo, imp: Import) returns (recs: seq<Import>, pushes: seq<Import>)
    requires h.byModule.Valid()
    ensures recs == VisitRecs(h, src, imp)
    ensures pushes == Pushes(h, imp)
  {
    var key := imp.ModulesStr();
    var direct: seq<Import> := [];
    if key in h.byModule.m {
      var t := h.byModule.m[key];
      direct := TransitiveRecs(h, src, t);
      if !t.IsModule() {
        recs := direct;
        pushes := [];
        for i := 0 to |t.imports|
          invariant pushes == Wildcards(t.imports[..i])
        {
          assert t.imports[..i + 1][..i] == t.imports[..i];
          if t.imports[i].IsWildcardImport() {
            pushes := pushes + [t.imports[i]];
          }
        }
        assert t.imports[..|t.imports|] == t.imports;
        return;
      }
    }
    recs := direct + SubmoduleRecs(h, src, imp, h.byModule.keys);
    pushes := SubmoduleImports(imp, h.byModule.keys);
  }

  /** Visiting the import on top of the stack `whole` keeps the invariants of the worklist. */
  lemma WorklistStep(h: PackageHelper, start: Import, before: seq<Import>, whole: seq<Import>)
    requires h.byModule.Valid() && whole != []
    requires whole[|whole| - 1].ModulesStr() !in ModuleStrs(before)
    requires before == [] ==> whole == [start]
    requires before != [] ==> before[0] == start
    requires forall q :: q in whole ==> q == start || Pushed(h, before, |before|, q)
    requires forall j :: 0 < j < |before| ==> Pushed(h, before, j, before[j])
    requires forall j, q :: 0 <= j < |before| && q in Pushes(h, before[j]) ==>
               q in whole || q.ModulesStr() in ModuleStrs(before)
    ensures var imp := whole[|whole| - 1];
            var after := before + [imp];
            var stack := whole[..|whole| - 1] + Pushes(h, imp);
            && after[0] == start
            && (forall q :: q in stack ==> q == start || Pushed(h, after, |after|, q))
            && (forall j :: 0 < j < |after| ==> Pushed(h, after, j, after[j]))
            && (forall j, q :: 0 <= j < |after| && q in Pushes(h, after[j]) ==>
                  q in stack || q.ModulesStr() in ModuleStrs(after))
  {
    var imp := whole[|whole| - 1];
    var rest := whole[..|whole| - 1];
    assert whole == rest + [imp];
    StepStackPushed(h, start, before, rest, imp);
    StepProvenance(h, start, before, rest, imp);
    StepClosure(h, before, rest, imp);
  }

  /** A finite set of module paths holds the start and everything any visit can push, so the
      traversal runs out of new module paths. */
  lemma UniverseBound(h: PackageHelper, start: Import) returns (u: set<string>)
    requires h.byModule.Valid()
    ensures start.ModulesStr() in u
    ensures forall imp, q :: q in Pushes(h, imp) ==> q.ModulesStr() in u
  {
    u := Universe(h, start);
    forall imp, q | q in Pushes(h, imp) ensures q.ModulesStr() in u {
      VisitPushesInUniverse(h, imp, start, q);
    }
  }

  /** A visit pushed by one of the first `n` visits still is after one more visit. */
  lemma PushedExtends(h: PackageHelper, before: seq<Import>, imp: Import, n: nat, q: Import)
    requires h.byModule.Valid()
    requires Pushed(h, before, n, q) && n <= |before|
    ensures Pushed(h, before + [imp], n, q)
  {
    var j :| 0 <= j < n && j < |before| && q in Pushes(h, before[j]);
    assert (before + [imp])[j] == before[j];
  }

  /** After a visit, everything on the stack is the start or was pushed by a visit. */
  lemma StepStackPushed(h: PackageHelper, start: Import, before: seq<Import>, rest: seq<Import>, imp: Import)
    requires h.byModule.Valid()
    requires forall q :: q in rest ==> q == start || Pushed(h, before, |before|, q)
    ensures forall q :: q in rest + Pushes(h, imp) ==> q == start || Pushed(h, before + [imp], |before| + 1, q)
  {
    var after := before + [imp];
    forall q | q in rest + Pushes(h, imp) ensures q == start || Pushed(h, after, |after|, q) {
      if q in Pushes(h, imp) {
        assert after[|before|] == imp;
      } else if q != start {
        PushedExtends(h, before, imp, |before|, q);
        var j :| 0 <= j < |before| && j < |after| && q in Pushes(h, after[j]);
      }
    }
  }

  /** After a visit, every visit but the first was pushed by an earlier one. */
  lemma StepProvenance(h: PackageHelper, start: Import, before: seq<Import>, rest: seq<Import>, imp: Import)
    requires h.byModule.Valid()
    requires imp.ModulesStr() !in ModuleStrs(before)
    requires before != [] ==> before[0] == start
    requires imp == start || Pushed(h, before, |before|, imp)
    requires forall j :: 0 < j < |before| ==> Pushed(h, before, j, before[j])
    ensures forall j :: 0 < j < |before| + 1 ==> Pushed(h, before + [imp], j, (before + [imp])[j])
  {
    var after := before + [imp];
    forall j | 0 < j < |after| ensures Pushed(h, after, j, after[j]) {
      if j < |before| {
        PushedExtends(h, before, imp, j, before[j]);
        assert after[j] == before[j];
      } else {
        PushedExtends(h, before, imp, j, imp);
      }
    }
  }

  /** After a visit, whatever any visit pushed is on the stack or has a visited module path. */
  lemma StepClosure(h: PackageHelper, before: seq<Import>, rest: seq<Import>, imp: Import)
    requires h.byModule.Valid()
    requires forall j, q :: 0 <= j < |before| && q in Pushes(h, before[j]) ==>
               q in rest + [imp] || q.ModulesStr() in ModuleStrs(before)
    ensures forall j, q :: 0 <= j < |before| + 1 && q in Pushes(h, (before + [imp])[j]) ==>
              q in rest + Pushes(h, imp) || q.ModulesStr() in ModuleStrs(before + [imp])
  {
    var after := before + [imp];
    var n := |before|;
    forall j, q | 0 <= j < |after| && q in Pushes(h, after[j])
      ensures q in rest + Pushes(h, imp) || q.ModulesStr() in ModuleStrs(after)
    {
      if j < n {
        assert after[j] == before[j];
        if q.ModulesStr() in ModuleStrs(before) {
          var i :| 0 <= i < |before| && ModuleStrs(before)[i] == q.ModulesStr();
          assert ModuleStrs(after)[i] == q.ModulesStr();
        } else if q == imp {
          assert ModuleStrs(after)[n] == q.ModulesStr();
        } else {
          assert q in rest;
        }
      } else {
        assert after[j] == imp;
      }
    }
  }

  // ---------------------------------------------------------------------------
  // Files that wildcard-import a changed file
  // ---------------------------------------------------------------------------

  /** `processed` is a traversal from `start`: it begins with `start`, meets each module path once,
      visits only what an earlier visit pushed, and visits the module path of everything pushed. */
  ghost predicate Traversal(h: PackageHelper, start: Import, processed: seq<Import>)
    requires h.byModule.Valid()
  {
    && |processed| >= 1 && processed[0] == start
    && NoDuplicates(ModuleStrs(processed))
    && (forall j :: 0 < j < |processed| ==> Pushed(h, processed, j, processed[j]))
    && (forall j, q :: 0 <= j < |processed| && q in Pushes(h, processed[j]) ==>
          q.ModulesStr() in ModuleStrs(processed))
  }

  /** `get_transitive_python_file_import_recommendations`: the fix for `transitive`, a file that
      wildcard-imports `info`, is one recommendation that replaces `from <info's key> import *` by
      what a traversal from that import collects. */
  method TransitiveFileRecommendations(h: PackageHelper, info: FileInfo, transitive: FileInfo)
    returns (r: FileRecommendations)
    requires h.byModule.Valid()
    ensures r.info == transitive && |r.recs| == 1
    ensures r.recs[0].sourceImport == Some(WildcardImportOf(info.moduleKey))
    ensures exists ps :: Traversal(h, WildcardImportOf(info.moduleKey), ps) &&
                         r.recs[0].recommendations == RecsOf(h, transitive, ps)
  {
    var wildcard := Import(SplitOn(info.moduleKey, "."), 0, ["*"], []);
    var recs, processed := WildcardImportRecommendation(h, transitive, wildcard);
    assert Traversal(h, wildcard, processed);
    r := FileRecommendations(transitive, [Recommendation(Some(wildcard), recs)]);
  }

  // ---------------------------------------------------------------------------
  // Duplicate imports of one name
  // ---------------------------------------------------------------------------

  /** An import of `name` counts as a direct definition when `name` is a module of the package
      under the import's module, or the imported module is not indexed, or it is and defines
      `name` itself. */
  predicate IsDirect(h: PackageHelper, d: Import, name: string) {
    var key := d.ModulesStr();
    || key + "." + name in h.byModule.m
    || key !in h.byModule.m
    || h.byModule.m[key].HasName(name)
  }

  /** The direct definitions among `dups`, in order. */
  function Directs(h: PackageHelper, dups: seq<Import>, name: string): seq<Import>
    decreases |dups|
  {
    if dups == [] then []
    else
      var rest := Directs(h, dups[..|dups| - 1], name);
      if IsDirect(h, dups[|dups| - 1], name) then rest + [dups[|dups| - 1]] else rest
  }

  /** `Directs` keeps exactly the direct definitions. */
  lemma {:induction false} DirectsMember(h: PackageHelper, dups: seq<Import>, name: string, x: Import)
    ensures x in Directs(h, dups, name) <==> x in dups && IsDirect(h, x, name)
    decreases |dups|
  {
    if dups != [] {
      DirectsMember(h, dups[..|dups| - 1], name, x);
      assert dups == dups[..|dups| - 1] + [dups[|dups| - 1]];
    }
  }

  /** The recommendation for one import that does not define `name` directly: drop `name` from
      its names, and drop the whole import when nothing else is left. */
  function DuplicateFix(d: Import, name: string): (r: Recommendation)
    ensures r.sourceImport == Some(d) && |r.recommendations| <= 1
  {
    var names := Difference(d.names, [name]);
    Recommendation(Some(d), if names != [] then [Import(d.modules, d.level, names, d.aliases)] else [])
  }

  /** The narrowed import keeps the module, level and aliases, and imports every other name of
      `d` once; it is dropped exactly when `d` imports nothing but `name`. */
  lemma DuplicateFixSpec(d: Import, name: string)
    ensures forall x :: x in DuplicateFix(d, name).recommendations ==>
              x.modules == d.modules && x.level == d.level && x.aliases == d.aliases &&
              NoDuplicates(x.names) && forall n :: n in x.names <==> n in d.names && n != name
    ensures DuplicateFix(d, name).recommendations == [] <==> forall n :: n in d.names ==> n == name
  {
    var names := Difference(d.names, [name]);
    DifferenceSpec(d.names, [name]);
    if names != [] {
      assert names[0] in names;
    }
  }

  /** `get_file_duplicate_import_recommendations`: among imports that all bring in `name`, keep
      the direct definitions and narrow every other import, each once, by `DuplicateFix`. */
  method DuplicateImportRecommendations(h: PackageHelper, dups: seq<Import>, name: string)
    returns (r: seq<Recommendation>)
    ensures forall k :: 0 <= k < |r| ==>
              r[k].sourceImport.Some? && r[k] == DuplicateFix(r[k].sourceImport.value, name)
    ensures forall k, l :: 0 <= k < l < |r| ==> r[k].sourceImport != r[l].sourceImport
    ensures forall d :: (exists k :: 0 <= k < |r| && r[k].sourceImport == Some(d)) <==>
              d in dups && !IsDirect(h, d, name)
  {
    var direct := DirectDefinitions(h, dups, name);
    var nonDirect := Difference(dups, direct);
    r := [];
    for i := 0 to |nonDirect|
      invariant |r| == i && forall k :: 0 <= k < i ==> r[k] == DuplicateFix(nonDirect[k], name)
    {
      r := r + [DuplicateFix(nonDirect[i], name)];
    }
    NarrowedOnce(h, dups, name, direct, nonDirect, r);
  }

  /** Narrowing each non-direct import once yields one recommendation per non-direct import and
      none for a direct one. */
  lemma NarrowedOnce(h: PackageHelper, dups: seq<Import>, name: string,
                     direct: seq<Import>, nonDirect: seq<Import>, r: seq<Recommendation>)
    requires direct == Directs(h, dups, name) && nonDirect == Difference(dups, direct)
    requires |r| == |nonDirect| && forall k :: 0 <= k < |r| ==> r[k] == DuplicateFix(nonDirect[k], name)
    ensures forall k :: 0 <= k < |r| ==>
              r[k].sourceImport.Some? && r[k] == DuplicateFix(r[k].sourceImport.value, name)
    ensures forall k, l :: 0 <= k < l < |r| ==> r[k].sourceImport != r[l].sourceImport
    ensures forall d :: (exists k :: 0 <= k < |r| && r[k].sourceImport == Some(d)) <==>
              d in dups && !IsDirect(h, d, name)
  {
    NonDirectSpec(h, dups, direct, nonDirect, name);
    forall d | d in dups && !IsDirect(h, d, name)
      ensures exists k :: 0 <= k < |r| && r[k].sourceImport == Some(d)
    {
      var k :| 0 <= k < |nonDirect| && nonDirect[k] == d;
      assert r[k].sourceImport == Some(d);
    }
  }

  /** The first loop of `get_file_duplicate_import_recommendations`: collect the direct
      definitions, in order. */
  method DirectDefinitions(h: PackageHelper, dups: seq<Import>, name: string) returns (direct: seq<Import>)
    ensures direct == Directs(h, dups, name)
  {
    direct := [];
    for i := 0 to |dups|
      invariant direct == Directs(h, dups[..i], name)
    {
      assert dups[..i + 1][..i] == dups[..i];
      if IsDirect(h, dups[i], name) {
        direct := direct + [dups[i]];
      }
    }
    assert dups[..|dups|] == dups;
  }

  /** The imports to narrow are the non-direct ones, each once. */
  lemma NonDirectSpec(h: PackageHelper, dups: seq<Import>, direct: seq<Import>, nonDirect: seq<Import>, name: string)
    requires direct == Directs(h, dups, name) && nonDirect == Difference(dups, direct)
    ensures NoDuplicates(nonDirect)
    ensures forall d :: d in nonDirect <==> d in dups && !IsDirect(h, d, name)
  {
    DifferenceSpec(dups, direct);
    forall d ensures d in nonDirect <==> d in dups && !IsDirect(h, d, name) {
      DirectsMember(h, dups, name, d);
    }
  }

  // ---------------------------------------------------------------------------
  // A name used but never imported
  // ---------------------------------------------------------------------------

  /** `get_missing_import_recommendation`: `installed` says whether `name` is a package on the
      Python path. Such a package is imported directly; otherwise the name is imported from the
      first indexed module, in index order, whose file defines it; otherwise nothing is
      recommended. */
  method MissingImportRecommendation(h: PackageHelper, name: string, installed: bool)
    returns (r: Recommendation)
    requires h.byModule.Valid()
    ensures r.sourceImport == None
    ensures installed ==> r.recommendations == [Import([], 0, [name], [])]
    ensures !installed ==>
              (r.recommendations == [] <==> forall k :: k in h.byModule.m ==> !h.byModule.m[k].HasName(name))
    ensures !installed && r.recommendations != [] ==>
              exists i :: 0 <= i < |h.byModule.keys| &&
                h.byModule.m[h.byModule.keys[i]].HasName(name) &&
                (forall j :: 0 <= j < i ==> !h.byModule.m[h.byModule.keys[j]].HasName(name)) &&
                r.recommendations == [Import(SplitOn(h.byModule.keys[i], "."), 0, [name], [])]
  {
    if installed {
      return Recommendation(None, [Import([], 0, [name], [])]);
    }
    var keys := h.byModule.keys;
    for i := 0 to |keys|
      invariant forall j :: 0 <= j < i ==> !h.byModule.m[keys[j]].HasName(name)
    {
      if h.byModule.m[keys[i]].HasName(name) {
        return Recommendation(None, [Import(SplitOn(keys[i], "."), 0, [name], [])]);
      }
    }
    forall k | k in h.byModule.m ensures !h.byModule.m[k].HasName(name) {
      var j :| 0 <= j < |keys| && keys[j] == k;
    }
    r := Recommendation(None, []);
  }
}
