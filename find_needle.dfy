/**
 * `find_needle/rules.py`: `find_needle_in_haystack` keeps the targets that own
 * a source file with a given base name. Hydrating a target's `sources` field is
 * a request to the build engine; here each target carries the files it would
 * hydrate to.
 */
module FindNeedle {
  import opened Strings

  /** A target with the file paths of its hydrated `sources` field. */
  datatype Target = Target(name: string, files: seq<string>)

  /** `PurePath(path).name` of a normalised path (no trailing `/`, no `.` segment): the text
      after the last `/`. */
  function BaseName(path: string): string {
    AfterLast(path, "/")
  }

  /** Some file of `t` has the base name `needle`. */
  predicate HasNeedle(t: Target, needle: string) {
    exists k :: 0 <= k < |t.files| && BaseName(t.files[k]) == needle
  }

  /** The targets of `ts` that have the needle, in order. */
  function WithNeedle(ts: seq<Target>, needle: string): seq<Target>
    decreases |ts|
  {
    if ts == [] then []
    else
      var rest := WithNeedle(ts[..|ts| - 1], needle);
      if HasNeedle(ts[|ts| - 1], needle) then rest + [ts[|ts| - 1]] else rest
  }

  /** `find_needle_in_haystack`: for each target, scan its files and append the target at the
      first file whose base name is the needle, then move on to the next target. */
  method FindNeedleInHaystack(targets: seq<Target>, needle: string) returns (r: seq<Target>)
    ensures r == WithNeedle(targets, needle)
  {
    r := [];
    for i := 0 to |targets|
      invariant r == WithNeedle(targets[..i], needle)
    {
      assert targets[..i + 1][..i] == targets[..i];
      var t := targets[i];
      var j := 0;
      while j < |t.files|
        invariant 0 <= j <= |t.files|
        invariant r == WithNeedle(targets[..i], needle)
        invariant forall k :: 0 <= k < j ==> BaseName(t.files[k]) != needle
      {
        if BaseName(t.files[j]) == needle {
          r := r + [t];
          break;
        }
        j := j + 1;
      }
    }
    assert targets[..|targets|] == targets;
  }

  /** A target is selected exactly when it is one of the input targets and has the needle. */
  lemma {:induction false} WithNeedleMember(ts: seq<Target>, needle: string, t: Target)
    ensures t in WithNeedle(ts, needle) <==> t in ts && HasNeedle(t, needle)
    decreases |ts|
  {
    if ts != [] {
      WithNeedleMember(ts[..|ts| - 1], needle, t);
      assert ts == ts[..|ts| - 1] + [ts[|ts| - 1]];
    }
  }

  /** The selected targets keep their input order, and each input target is selected at most
      once: distinct input targets give distinct selected targets. */
  lemma {:induction false} WithNeedleOrdered(ts: seq<Target>, needle: string)
    ensures IsSubsequence(WithNeedle(ts, needle), ts)
    ensures NoDuplicates(ts) ==> NoDuplicates(WithNeedle(ts, needle))
    decreases |ts|
  {
    if ts != [] {
      var init := ts[..|ts| - 1];
      var last := ts[|ts| - 1];
      WithNeedleOrdered(init, needle);
      assert ts == init + [last];
      if HasNeedle(last, needle) {
        SubsequenceConcat(WithNeedle(init, needle), init, [last], [last]);
        if NoDuplicates(ts) {
          WithNeedleMember(init, needle, last);
          var w := WithNeedle(init, needle) + [last];
          forall a, b | 0 <= a < b < |w| ensures w[a] != w[b] {
            if b == |w| - 1 {
              assert w[a] in WithNeedle(init, needle);
            }
          }
        }
      } else {
        SubsequenceConcat(WithNeedle(init, needle), init, [], [last]);
        assert WithNeedle(init, needle) + [] == WithNeedle(init, needle);
      }
    }
  }

  /** With three targets of which only the second owns a file named like the needle, the result
      is that target alone. */
  lemma OnlyTheNeedleTarget(t1: Target, t2: Target, t3: Target, needle: string)
    requires HasNeedle(t2, needle) && !HasNeedle(t1, needle) && !HasNeedle(t3, needle)
    ensures WithNeedle([t1, t2, t3], needle) == [t2]
  {
    assert [t1, t2, t3][..2] == [t1, t2];
    assert [t1, t2][..1] == [t1];
    assert [t1][..0] == [];
    assert WithNeedle([t1], needle) == [];
    assert WithNeedle([t1, t2], needle) == [t2];
  }

  /** A file named exactly like the needle, or placed under a directory, gives its target the
      needle; a file with a different base name does not. */
  lemma BaseNameOfPath(dir: string, file: string)
    requires '/' !in file && file != "" && file != "."
    ensures BaseName(file) == file
    ensures BaseName(dir + "/" + file) == file
  {
    SplitWithoutSeparator(file, "/", 0);
    SplitLastPiece(dir, '/', file);
    assert dir + "/" + file == dir + ['/'] + file;
  }
}
