/**
 * `wildcard_imports/wildcard_imports_rules.py`: the per-file rules that fan a
 * file out into one request per wildcard import, per duplicated name and per
 * missing name, and gather the answers. The build engine's `Get`/`MultiGet`
 * dispatch becomes a direct call of the resolver in `ImportFixerHandler`.
 */
module WildcardImportsRules {
  import opened Wrappers
  import opened Strings
  import opened OrderedMaps
  import opened PythonFileInfo
  import opened PackageIndex
  import opened FileImportRecs
  import opened ImportFixerHandler

  // ---------------------------------------------------------------------------
  // One recommendation per wildcard import
  // ---------------------------------------------------------------------------

  /** `recs` is what a traversal of the wildcard chain from `imp` collects for `f`. */
  ghost predicate Resolves(h: PackageHelper, f: FileInfo, imp: Import, recs: seq<Import>)
    requires h.byModule.Valid()
  {
    exists ps :: Traversal(h, imp, ps) && recs == RecsOf(h, f, ps)
  }

  /** `recs` answers the wildcard imports `ws` one for one, in order: each replaces its wildcard
      import by what a traversal from it collects. */
  ghost predicate Answers(h: PackageHelper, f: FileInfo, ws: seq<Import>, recs: seq<Recommendation>)
    requires h.byModule.Valid()
  {
    && |recs| == |ws|
    && (forall i :: 0 <= i < |recs| ==> recs[i].sourceImport == Some(ws[i]))
    && (forall i :: 0 <= i < |recs| ==> Resolves(h, f, ws[i], recs[i].recommendations))
  }

  /** `get_file_import_recommendations` with `get_wildcard_import_recommendation` inlined: for each
      wildcard import of `f`, in import order, a recommendation that replaces that import by what a
      traversal from it collects. */
  method FileImportRecommendations(h: PackageHelper, f: FileInfo) returns (r: FileRecommendations)
    requires h.byModule.Valid()
    ensures r.info == f
    ensures |r.recs| == |Wildcards(f.imports)|
    ensures forall i :: 0 <= i < |r.recs| ==> r.recs[i].sourceImport == Some(Wildcards(f.imports)[i])
    ensures forall i :: 0 <= i < |r.recs| ==>
              Resolves(h, f, Wildcards(f.imports)[i], r.recs[i].recommendations)
  {
    var recs: seq<Recommendation> := [];
    for j := 0 to |f.imports|
      invariant Answers(h, f, Wildcards(f.imports[..j]), recs)
    {
      var imp := f.imports[j];
      WildcardsSnoc(f.imports, j);
      if imp.IsWildcardImport() {
        var rec := WildcardRecommendation(h, f, imp);
        AnswersSnoc(h, f, Wildcards(f.imports[..j]), recs, imp, rec);
        recs := recs + [rec];
      }
    }
    assert f.imports[..|f.imports|] == f.imports;
    r := FileRecommendations(f, recs);
  }

  lemma AnswersSnoc(h: PackageHelper, f: FileInfo, ws: seq<Import>, recs: seq<Recommendation>,
                    imp: Import, rec: Recommendation)
    requires h.byModule.Valid()
    requires Answers(h, f, ws, recs)
    requires rec.sourceImport == Some(imp) && Resolves(h, f, imp, rec.recommendations)
    ensures Answers(h, f, ws + [imp], recs + [rec])
  {
  }

  /** `get_wildcard_import_recommendation`: the resolver's answer for one wildcard import, paired
      with that import as the one to replace. */
  method WildcardRecommendation(h: PackageHelper, f: FileInfo, imp: Import) returns (rec: Recommendation)
    requires h.byModule.Valid()
    ensures rec.sourceImport == Some(imp)
    ensures Resolves(h, f, imp, rec.recommendations)
  {
    var found, processed := WildcardImportRecommendation(h, f, imp);
    assert Traversal(h, imp, processed);
    rec := Recommendation(Some(imp), found);
  }

  lemma WildcardsSnoc(imps: seq<Import>, j: nat)
    requires j < |imps|
    ensures Wildcards(imps[..j + 1]) ==
              Wildcards(imps[..j]) + (if imps[j].IsWildcardImport() then [imps[j]] else [])
  {
    assert imps[..j + 1][..j] == imps[..j];
  }

  // ---------------------------------------------------------------------------
  // Duplicated names
  // ---------------------------------------------------------------------------

  /** The (name, import) pairs of `imps`: one per name of each import, in file order. */
  function NameEntries(imps: seq<Import>): seq<(string, Import)>
    decreases |imps|
  {
    if imps == [] then []
    else
      var last := imps[|imps| - 1];
      NameEntries(imps[..|imps| - 1]) + Tagged(SomeNames(last.names), last)
  }

  /** Every name, as a key to file the import under. */
  function SomeNames(names: seq<string>): (r: seq<Option<string>>)
    ensures |r| == |names| && forall i :: 0 <= i < |names| ==> r[i] == Some(names[i])
  {
    seq(|names|, i requires 0 <= i < |names| => Some(names[i]))
  }

  /** The imports of `imps` carrying `name`, in file order, once per occurrence of `name`. */
  function Carriers(imps: seq<Import>, name: string): seq<Import>
    decreases |imps|
  {
    if imps == [] then []
    else
      var last := imps[|imps| - 1];
      Carriers(imps[..|imps| - 1], name) + Repeat(last, CountSome(SomeNames(last.names), name))
  }

  /** `name` is imported by more than one import entry. */
  predicate IsDuplicated(imps: seq<Import>, name: string) {
    |Carriers(imps, name)| > 1
  }

  /** The names of `byName`, in key order, whose bucket holds more than one import. */
  function MultiKeys(byName: OMap<string, seq<Import>>, keys: seq<string>): seq<string>
    requires forall k :: k in keys ==> k in byName.m
    decreases |keys|
  {
    if keys == [] then []
    else
      var rest := MultiKeys(byName, keys[..|keys| - 1]);
      var k := keys[|keys| - 1];
      if |byName.m[k]| > 1 then rest + [k] else rest
  }

  /** A recommendation the duplicate rules make for `name`: it narrows an import carrying the
      duplicated `name` that is not a direct definition of it. */
  ghost predicate DuplicateRec(h: PackageHelper, imps: seq<Import>, name: string, x: Recommendation) {
    && IsDuplicated(imps, name)
    && x.sourceImport.Some?
    && x.sourceImport.value in Carriers(imps, name)
    && !IsDirect(h, x.sourceImport.value, name)
    && x == DuplicateFix(x.sourceImport.value, name)
  }

  /** The first loop of `get_file_duplicate_import_recommendations`: file every import under each
      of its names. */
  method ImportsByName(imps: seq<Import>) returns (byName: OMap<string, seq<Import>>)
    ensures byName == Group(NameEntries(imps))
  {
    byName := Empty();
    for j := 0 to |imps|
      invariant byName == Group(NameEntries(imps[..j]))
    {
      var imp := imps[j];
      assert imps[..j + 1][..j] == imps[..j];
      ghost var before := NameEntries(imps[..j]);
      assert before + Tagged(SomeNames(imp.names)[..0], imp) == before;
      for i := 0 to |imp.names|
        invariant byName == Group(before + Tagged(SomeNames(imp.names)[..i], imp))
      {
        assert SomeNames(imp.names)[..i + 1] == SomeNames(imp.names)[..i] + [Some(imp.names[i])];
        GroupTaggedSnoc(before, SomeNames(imp.names)[..i], Some(imp.names[i]), imp);
        byName := Append(byName, imp.names[i], imp);
      }
      assert SomeNames(imp.names)[..|imp.names|] == SomeNames(imp.names);
    }
    assert imps[..|imps|] == imps;
  }

  /** `get_file_duplicate_import_recommendations`: group the imports by name, keep the names
      carried by more than one import entry, resolve each, and merge the answers without repeats.
      The result is exactly the narrowing of every non-direct carrier of every duplicated name. */
  method FileDuplicateImportRecommendations(h: PackageHelper, f: FileInfo) returns (r: FileRecommendations)
    ensures r.info == f
    ensures NoDuplicates(r.recs)
    ensures forall x :: x in r.recs <==> exists n :: DuplicateRec(h, f.imports, n, x)
  {
    var byName := ImportsByName(f.imports);
    var dupNames := DuplicateNames(byName);
    forall n ensures n in dupNames <==> IsDuplicated(f.imports, n)
      ensures n in dupNames ==> n in byName.m && byName.m[n] == Carriers(f.imports, n)
    {
      DuplicatedName(f.imports, byName, n);
    }
    var merged := MergeDuplicates(h, f.imports, byName, dupNames);
    forall x ensures x in merged <==> exists n :: DuplicateRec(h, f.imports, n, x) {
      if exists n :: DuplicateRec(h, f.imports, n, x) {
        var n :| DuplicateRec(h, f.imports, n, x);
        assert n in dupNames;
      }
    }
    r := FileRecommendations(f, merged);
  }

  /** The second loop: the names whose bucket holds more than one import, in key order. */
  method DuplicateNames(byName: OMap<string, seq<Import>>) returns (dupNames: seq<string>)
    requires byName.Valid()
    ensures dupNames == MultiKeys(byName, byName.keys)
  {
    var keys := byName.keys;
    dupNames := [];
    for i := 0 to |keys|
      invariant dupNames == MultiKeys(byName, keys[..i])
    {
      assert keys[..i + 1][..i] == keys[..i];
      if |byName.m[keys[i]]| > 1 {
        dupNames := dupNames + [keys[i]];
      }
    }
    assert keys[..|keys|] == keys;
  }

  /** The last loop: resolve each duplicated name over its bucket and fold the answers into
      `merged` as a set. */
  method MergeDuplicates(h: PackageHelper, imps: seq<Import>, byName: OMap<string, seq<Import>>, dupNames: seq<string>)
    returns (merged: seq<Recommendation>)
    requires forall n :: n in dupNames ==> IsDuplicated(imps, n) && n in byName.m && byName.m[n] == Carriers(imps, n)
    ensures NoDuplicates(merged)
    ensures forall x :: x in merged <==> exists n :: n in dupNames && DuplicateRec(h, imps, n, x)
  {
    merged := [];
    for i := 0 to |dupNames|
      invariant NoDuplicates(merged)
      invariant forall x :: x in merged <==> exists n :: n in dupNames[..i] && DuplicateRec(h, imps, n, x)
    {
      var name := dupNames[i];
      var recs := DuplicateImportRecommendations(h, byName.m[name], name);
      MergeStep(h, imps, name, byName.m[name], recs);
      DedupSpec(merged + recs);
      assert dupNames[..i + 1] == dupNames[..i] + [name];
      merged := Dedup(merged + recs);
    }
    assert dupNames[..|dupNames|] == dupNames;
  }

  /** What one duplicated name contributes to the merge. */
  lemma MergeStep(h: PackageHelper, imps: seq<Import>, name: string, bucket: seq<Import>, recs: seq<Recommendation>)
    requires IsDuplicated(imps, name) && bucket == Carriers(imps, name)
    requires forall k :: 0 <= k < |recs| ==>
               recs[k].sourceImport.Some? && recs[k] == DuplicateFix(recs[k].sourceImport.value, name)
    requires forall d :: (exists k :: 0 <= k < |recs| && recs[k].sourceImport == Some(d)) <==>
               d in bucket && !IsDirect(h, d, name)
    ensures forall x :: x in recs <==> DuplicateRec(h, imps, name, x)
  {
    forall x ensures x in recs <==> DuplicateRec(h, imps, name, x) {
      if x in recs {
        var k :| 0 <= k < |recs| && recs[k] == x;
        assert x.sourceImport == Some(x.sourceImport.value);
      }
      if DuplicateRec(h, imps, name, x) {
        var d := x.sourceImport.value;
        var k :| 0 <= k < |recs| && recs[k].sourceImport == Some(d);
        assert recs[k] == DuplicateFix(d, name) == x;
      }
    }
  }

  /** A name is kept for resolution exactly when it is duplicated, and its bucket lists its
      carriers. */
  lemma DuplicatedName(imps: seq<Import>, byName: OMap<string, seq<Import>>, n: string)
    requires byName == Group(NameEntries(imps))
    ensures n in MultiKeys(byName, byName.keys) <==> IsDuplicated(imps, n)
    ensures n in MultiKeys(byName, byName.keys) ==> n in byName.m && byName.m[n] == Carriers(imps, n)
  {
    MultiKeysMember(byName, byName.keys, n);
    GroupSpec(NameEntries(imps), n);
    CarriersByName(imps, n);
  }

  lemma {:induction false} MultiKeysMember(byName: OMap<string, seq<Import>>, keys: seq<string>, n: string)
    requires forall k :: k in keys ==> k in byName.m
    ensures n in MultiKeys(byName, keys) <==> n in keys && |byName.m[n]| > 1
    decreases |keys|
  {
    if keys != [] {
      MultiKeysMember(byName, keys[..|keys| - 1], n);
      assert keys == keys[..|keys| - 1] + [keys[|keys| - 1]];
    }
  }

  /** The bucket of a name lists its carriers. */
  lemma {:induction false} CarriersByName(imps: seq<Import>, name: string)
    ensures ValuesFor(NameEntries(imps), name) == Carriers(imps, name)
    decreases |imps|
  {
    if imps != [] {
      var init, last := imps[..|imps| - 1], imps[|imps| - 1];
      CarriersByName(init, name);
      ValuesForAppend(NameEntries(init), Tagged(SomeNames(last.names), last), name);
      ValuesForTagged(SomeNames(last.names), last, name);
    }
  }

  /** The carriers of `name` are exactly the imports that import it, each repeated once per
      occurrence of `name` among its names. */
  lemma {:induction false} CarriersSpec(imps: seq<Import>, name: string, x: Import)
    ensures x in Carriers(imps, name) <==> x in imps && name in x.names
    decreases |imps|
  {
    if imps != [] {
      var init, last := imps[..|imps| - 1], imps[|imps| - 1];
      CarriersSpec(init, name, x);
      CountSomeSpec(SomeNames(last.names), name);
      assert Some(name) in SomeNames(last.names) <==> name in last.names by {
        if name in last.names {
          var i :| 0 <= i < |last.names| && last.names[i] == name;
          assert SomeNames(last.names)[i] == Some(name);
        }
      }
      assert imps == init + [last];
    }
  }

  /** Two separate imports of the same name make it a duplicate, and a name that only one import
      entry carries is not one. */
  lemma DuplicateOfTwoImports(a: Import, b: Import, name: string)
    requires a.names == [name] && b.names == [name]
    ensures IsDuplicated([a, b], name)
    ensures !IsDuplicated([a], name)
  {
    assert [a, b][..1] == [a];
    assert [a][..0] == [];
    assert SomeNames([name]) == [Some(name)];
    assert CountSome([Some(name)], name) == 1 by { assert [Some(name)][..0] == []; }
    assert Carriers([a], name) == [a];
    assert Carriers([a, b], name) == [a, b];
  }

  // ---------------------------------------------------------------------------
  // Missing names
  // ---------------------------------------------------------------------------

  /** What `get_missing_import_recommendation` promises for one name. */
  ghost predicate MissingResolved(h: PackageHelper, name: string, installed: bool, r: Recommendation)
    requires h.byModule.Valid()
  {
    && r.sourceImport == None
    && (installed ==> r.recommendations == [Import([], 0, [name], [])])
    && (!installed ==>
          (r.recommendations == [] <==> forall k :: k in h.byModule.m ==> !h.byModule.m[k].HasName(name)))
    && (!installed && r.recommendations != [] ==>
          exists i :: 0 <= i < |h.byModule.keys| &&
            h.byModule.m[h.byModule.keys[i]].HasName(name) &&
            (forall j :: 0 <= j < i ==> !h.byModule.m[h.byModule.keys[j]].HasName(name)) &&
            r.recommendations == [Import(SplitOn(h.byModule.keys[i], "."), 0, [name], [])])
  }

  /** `get_file_missing_import_recommendations`: one recommendation per missing name, in order.
      The missing names (found by an external checker) and the set of names importable as
      installed packages are inputs. */
  method FileMissingImportRecommendations(h: PackageHelper, f: FileInfo, missing: seq<string>, installed: set<string>)
    returns (r: FileRecommendations)
    requires h.byModule.Valid()
    ensures r.info == f
    ensures |r.recs| == |missing|
    ensures forall i :: 0 <= i < |missing| ==> MissingResolved(h, missing[i], missing[i] in installed, r.recs[i])
  {
    var recs: seq<Recommendation> := [];
    for i := 0 to |missing|
      invariant |recs| == i
      invariant forall j :: 0 <= j < i ==> MissingResolved(h, missing[j], missing[j] in installed, recs[j])
    {
      var rec := MissingImportRecommendation(h, missing[i], missing[i] in installed);
      recs := recs + [rec];
    }
    r := FileRecommendations(f, recs);
  }
}
