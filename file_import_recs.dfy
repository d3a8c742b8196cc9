/**
 * `python_file_import_recs.py`: the recommendations the resolver produces for
 * one file, and `fixed_file_content`, which rewrites the file's text by
 * applying them one after another with regular-expression substitutions.
 *
 * The substitution patterns are import strings with `*` escaped. Import
 * strings read from a syntax tree are made of identifier characters, `.`,
 * `,`, spaces and `*`, so the only live metacharacter left in them is `.`,
 * which matches any character but a newline. The synthetic import built from
 * a file path's module key can hold other characters; every pattern
 * character other than `.` is matched as itself.
 */
module FileImportRecs {
  import opened Wrappers
  import opened Strings
  import opened PythonFileInfo
  import PythonUtils

  /** `PythonImportRecommendation`: replace `sourceImport` (or, with none, insert) by these imports. */
  datatype Recommendation = Recommendation(sourceImport: Option<Import>, recommendations: seq<Import>)

  /** `PythonFileImportRecommendations` */
  datatype FileRecommendations = FileRecommendations(info: FileInfo, recs: seq<Recommendation>)

  /** `FileContent`: a path and its new text. */
  datatype FileContent = FileContent(path: string, content: string)

  // ---------------------------------------------------------------------------
  // re.sub with a fixed-length pattern
  // ---------------------------------------------------------------------------

  /** Pattern character `p` matches `c`: `.` matches anything but a newline. */
  predicate CharMatches(p: char, c: char) {
    if p == '.' then c != '\n' else c == p
  }

  /** The pattern matches the text starting at offset `i`. */
  predicate MatchesAt(s: string, pat: string, i: nat) {
    && i + |pat| <= |s|
    && forall j :: 0 <= j < |pat| ==> CharMatches(pat[j], s[i + j])
  }

  /** `re.sub(pat, rep, s)`: scanning from the left, each match is replaced and the scan resumes
      after it; elsewhere one character is kept and the scan moves on by one. */
  function Sub(s: string, pat: string, rep: string): string
    requires |pat| > 0
    decreases |s|
  {
    if MatchesAt(s, pat, 0) then rep + Sub(s[|pat|..], pat, rep)
    else if s == [] then []
    else [s[0]] + Sub(s[1..], pat, rep)
  }

  /** Without a `.` in the pattern the substitution is the plain `str.replace`. */
  lemma {:induction false} SubLiteral(s: string, pat: string, rep: string)
    requires |pat| > 0 && '.' !in pat
    ensures Sub(s, pat, rep) == ReplaceAll(s, pat, rep)
    decreases |s|
  {
    assert MatchesAt(s, pat, 0) <==> StartsWith(s, pat) by {
      if StartsWith(s, pat) {
        forall j | 0 <= j < |pat| ensures CharMatches(pat[j], s[j]) {
          assert s[..|pat|][j] == s[j];
        }
      }
      if MatchesAt(s, pat, 0) {
        assert s[..|pat|] == pat;
      }
    }
    if MatchesAt(s, pat, 0) {
      SubLiteral(s[|pat|..], pat, rep);
    } else if s != [] {
      SubLiteral(s[1..], pat, rep);
    }
  }

  /** A text with no match anywhere is left as it is. */
  lemma {:induction false} SubNoMatch(s: string, pat: string, rep: string)
    requires |pat| > 0
    requires forall i :: 0 <= i <= |s| ==> !MatchesAt(s, pat, i)
    ensures Sub(s, pat, rep) == s
    decreases |s|
  {
    if s != [] {
      assert !MatchesAt(s, pat, 0);
      forall i | 0 <= i <= |s[1..]| ensures !MatchesAt(s[1..], pat, i) {
        assert !MatchesAt(s, pat, i + 1);
        if MatchesAt(s[1..], pat, i) {
          forall j | 0 <= j < |pat| ensures CharMatches(pat[j], s[i + 1 + j]) {
            assert s[1..][i + j] == s[i + 1 + j];
          }
        }
      }
      SubNoMatch(s[1..], pat, rep);
    }
  }

  /** Only `*` is escaped: a `.` of the import string matches any other character, so a line
      that differs from the import only where the import has a dot is rewritten too. */
  lemma DotIsLive(a: string, b: string, c: char, rest: string, rep: string)
    requires c != '\n'
    ensures MatchesAt(a + [c] + b + rest, a + "." + b, 0)
    ensures Sub(a + [c] + b + rest, a + "." + b, rep) == rep + Sub(rest, a + "." + b, rep)
  {
    var s := a + [c] + b + rest;
    var pat := a + "." + b;
    forall j | 0 <= j < |pat| ensures CharMatches(pat[j], s[j]) {
      if j < |a| {
        assert pat[j] == a[j] && s[j] == a[j];
      } else if j == |a| {
        assert pat[j] == '.' && s[j] == c;
      } else {
        assert pat[j] == b[j - |a| - 1] && s[j] == b[j - |a| - 1];
      }
    }
    assert s[|pat|..] == rest;
  }

  // ---------------------------------------------------------------------------
  // Applying recommendations
  // ---------------------------------------------------------------------------

  /** The import strings of `imps`, in order. */
  function ImportStrs(imps: seq<Import>): (r: seq<string>)
    ensures |r| == |imps| && forall i :: 0 <= i < |imps| ==> r[i] == imps[i].ImportStr()
  {
    seq(|imps|, i requires 0 <= i < |imps| => imps[i].ImportStr())
  }

  /** Where new imports go: the end of the last top-level import match, or the start. */
  function InsertionPoint(content: string): (r: nat)
    ensures r <= |content|
  {
    match PythonUtils.TopLevelImportEnd(content)
    case Some(e) => e
    case None => 0
  }

  /** The text `rec` inserts when it has no source import. */
  function InsertedBlock(rec: Recommendation): string {
    "\n" + Join(ImportStrs(rec.recommendations), "\n") + "\n"
  }

  /** One round of the loop of `fixed_file_content`. */
  function Apply(content: string, rec: Recommendation): string {
    match rec.sourceImport
    case Some(src) =>
      var pat := src.ImportStr();
      if rec.recommendations == [] then Sub(content, pat + "\n", "")
      else Sub(content, pat, Join(Dedup(ImportStrs(rec.recommendations)), "\n"))
    case None =>
      if rec.recommendations == [] then content
      else
        var at := InsertionPoint(content);
        content[..at] + InsertedBlock(rec) + content[at..]
  }

  /** The recommendations applied in order, each to the text the previous ones produced. */
  function ApplyAll(content: string, recs: seq<Recommendation>): string
    decreases |recs|
  {
    if recs == [] then content
    else Apply(ApplyAll(content, recs[..|recs| - 1]), recs[|recs| - 1])
  }

  /** `fixed_file_content` */
  method FixedFileContent(fr: FileRecommendations) returns (out: FileContent)
    ensures out.path == fr.info.path
    ensures out.content == ApplyAll(fr.info.content, fr.recs)
  {
    var content := fr.info.content;
    for i := 0 to |fr.recs|
      invariant content == ApplyAll(fr.info.content, fr.recs[..i])
    {
      assert fr.recs[..i + 1][..i] == fr.recs[..i];
      content := ApplyOne(content, fr.recs[i]);
    }
    assert fr.recs[..|fr.recs|] == fr.recs;
    out := FileContent(fr.info.path, content);
  }

  /** The body of the loop of `fixed_file_content`: replace, delete or insert. */
  method ApplyOne(content: string, rec: Recommendation) returns (r: string)
    ensures r == Apply(content, rec)
  {
    r := content;
    if rec.sourceImport.Some? {
      var pattern := rec.sourceImport.value.ImportStr();
      if |rec.recommendations| == 0 {
        r := Sub(content, pattern + "\n", "");
      } else {
        var replacements := Dedup(ImportStrs(rec.recommendations));
        r := Sub(content, pattern, Join(replacements, "\n"));
      }
    } else if |rec.recommendations| > 0 {
      var insertLine := InsertionPoint(content);
      var toInsert := Join(ImportStrs(rec.recommendations), "\n");
      r := content[..insertLine] + ("\n" + toInsert + "\n") + content[insertLine..];
    }
  }

  /** Applying two lists of recommendations one after the other is applying their concatenation. */
  lemma {:induction false} ApplyAllConcat(content: string, a: seq<Recommendation>, b: seq<Recommendation>)
    ensures ApplyAll(content, a + b) == ApplyAll(ApplyAll(content, a), b)
    decreases |b|
  {
    if b == [] {
      assert a + b == a;
    } else {
      var init := b[..|b| - 1];
      ApplyAllConcat(content, a, init);
      assert (a + b)[..|a + b| - 1] == a + init;
    }
  }

  /** A recommendation with neither a source import nor replacements changes nothing. */
  lemma EmptyRecommendationKeepsContent(content: string, recs: seq<Recommendation>)
    requires forall i :: 0 <= i < |recs| ==> recs[i] == Recommendation(None, [])
    ensures ApplyAll(content, recs) == content
  {
    if recs != [] {
      EmptyRecommendationKeepsContent(content, recs[..|recs| - 1]);
    }
  }

  /** An insertion keeps the whole original text around the inserted block, which starts at the
      end of the top-level import match, or at the very start when there is none. */
  lemma InsertionKeepsContent(content: string, rec: Recommendation)
    requires rec.sourceImport.None? && rec.recommendations != []
    ensures var r := Apply(content, rec);
            var at := InsertionPoint(content);
            && r[at..at + |InsertedBlock(rec)|] == InsertedBlock(rec)
            && r[..at] + r[at + |InsertedBlock(rec)|..] == content
            && (PythonUtils.TopLevelImportEnd(content).None? ==> at == 0)
  {
    var at := InsertionPoint(content);
    assert Apply(content, rec) == content[..at] + InsertedBlock(rec) + content[at..];
    Splice(content, at, InsertedBlock(rec));
  }

  lemma Splice(content: string, at: nat, block: string)
    requires at <= |content|
    ensures var r := content[..at] + block + content[at..];
            && r[at..at + |block|] == block
            && r[..at] + r[at + |block|..] == content
  {
    var r := content[..at] + block + content[at..];
    assert r[..at] == content[..at];
    assert r[at + |block|..] == content[at..];
  }

  /** With a source import and no replacements, a text without that import line is unchanged. */
  lemma DeletionWithoutMatch(content: string, src: Import)
    requires forall i :: 0 <= i <= |content| ==> !MatchesAt(content, src.ImportStr() + "\n", i)
    ensures Apply(content, Recommendation(Some(src), [])) == content
  {
    SubNoMatch(content, src.ImportStr() + "\n", "");
  }

  /** Replacement strings are taken once each, so repeated recommendations collapse. */
  lemma ReplacementsCollapse(imps: seq<Import>)
    ensures NoDuplicates(Dedup(ImportStrs(imps)))
    ensures forall s :: s in Dedup(ImportStrs(imps)) <==> exists i :: 0 <= i < |imps| && imps[i].ImportStr() == s
  {
    DedupSpec(ImportStrs(imps));
  }
}
